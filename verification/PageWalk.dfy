/** Walking a paginated listing page by page (src/polymarket/pagination.py). The server
    may answer differently on every request, so a fetch also gets its number. */
module PageWalk {
  import opened Wrappers
  import opened Cursors

  datatype Page<+T> = Page(items: seq<T>, hasMore: bool, nextCursor: Option<Cursor>, limitReached: bool)

  type Fetch<T> = (nat, Option<Cursor>) -> Result<Page<T>, Error>

  datatype Event<+T> = Yielded(page: Page<T>) | Stopped | Raised(error: Error)

  /** The suspended page generator: what it would request next or resume after, the
      cursors of this walk, and the requests it has made. */
  datatype Generator<+T> = Generator(
    cursor: Option<Cursor>,
    requested: set<Cursor>,
    last: Option<Page<T>>,
    finished: bool,
    fetched: seq<Option<Cursor>>)

  function Start<T>(initial: Option<Cursor>): Generator<T> {
    Generator(initial, if initial.Some? then {initial.value} else {}, None, false, [])
  }

  /** The paginator of a finished listing yields nothing and asks for nothing. */
  function StartEmpty<T>(): Generator<T> {
    Start<T>(None).(finished := true)
  }

  predicate EndsWalk<T>(page: Page<T>) {
    page.limitReached || !page.hasMore
  }

  function NextCursor<T>(page: Page<T>, requested: set<Cursor>): Result<Cursor, Error> {
    if page.nextCursor.None? then Failure(MissingCursor)
    else if page.nextCursor.value in requested then Failure(RepeatedCursor)
    else Success(page.nextCursor.value)
  }

  function FetchInto<T>(fetch: Fetch<T>, g: Generator<T>): (Generator<T>, Event<T>) {
    var asked := g.(fetched := g.fetched + [g.cursor]);
    match fetch(|g.fetched|, g.cursor)
    case Success(page) => (asked.(last := Some(page)), Yielded(page))
    case Failure(error) => (asked.(finished := true), Raised(error))
  }

  /** One `next()` of the generator. */
  function Resume<T>(fetch: Fetch<T>, g: Generator<T>): (Generator<T>, Event<T>) {
    if g.finished then (g, Stopped)
    else if g.last.None? then FetchInto(fetch, g)
    else if EndsWalk(g.last.value) then (g.(finished := true), Stopped)
    else
      match NextCursor(g.last.value, g.requested)
      case Failure(error) => (g.(finished := true), Raised(error))
      case Success(cursor) => FetchInto(fetch, g.(cursor := Some(cursor), requested := g.requested + {cursor}))
  }

  class PageIterator<T> {
    const fetch: Fetch<T>
    var cursor: Option<Cursor>
    var requested: set<Cursor>
    var last: Option<Page<T>>
    var finished: bool
    var fetched: seq<Option<Cursor>>

    ghost function View(): Generator<T>
      reads this
    {
      Generator(cursor, requested, last, finished, fetched)
    }

    constructor (fetch: Fetch<T>, initial: Option<Cursor>)
      ensures View() == Start(initial) && this.fetch == fetch
    {
      this.fetch := fetch;
      cursor := initial;
      requested := if initial.Some? then {initial.value} else {};
      last, finished, fetched := None, false, [];
    }

    constructor Empty(fetch: Fetch<T>)
      ensures View() == StartEmpty() && this.fetch == fetch
    {
      this.fetch := fetch;
      cursor, requested, last, finished, fetched := None, {}, None, true, [];
    }

    method Request() returns (event: Event<T>)
      modifies this
      ensures (View(), event) == FetchInto(fetch, old(View()))
    {
      var answer := fetch(|fetched|, cursor);
      fetched := fetched + [cursor];
      match answer {
        case Success(page) =>
          last := Some(page);
          event := Yielded(page);
        case Failure(error) =>
          finished := true;
          event := Raised(error);
      }
    }

    method Next() returns (event: Event<T>)
      modifies this
      ensures (View(), event) == Resume(fetch, old(View()))
    {
      if finished {
        return Stopped;
      }
      if last.Some? {
        if EndsWalk(last.value) {
          finished := true;
          return Stopped;
        }
        var following := NextCursor(last.value, requested);
        if following.Failure? {
          finished := true;
          return Raised(following.error);
        }
        cursor := Some(following.value);
        requested := requested + {following.value};
      }
      event := Request();
    }
  }

  // Whole walks.

  datatype Walk<+T> = Walk(pages: seq<Page<T>>, end: Option<Event<T>>, generator: Generator<T>)

  type Step<!T> = Generator<T> -> (Generator<T>, Event<T>)

  function Stepper<T>(fetch: Fetch<T>): Step<T> {
    (g: Generator<T>) => Resume(fetch, g)
  }

  /** The pages of at most `n` pulls; the end is the first pull that is not a page. */
  function Iterate<T>(step: Step<T>, g: Generator<T>, n: nat): (w: Walk<T>)
    ensures |w.pages| <= n
    decreases n
  {
    if n == 0 then Walk([], None, g)
    else
      var (after, event) := step(g);
      match event
      case Yielded(page) =>
        var rest := Iterate(step, after, n - 1);
        Walk([page] + rest.pages, rest.end, rest.generator)
      case _ => Walk([], Some(event), after)
  }

  function Pull<T>(fetch: Fetch<T>, g: Generator<T>, n: nat): Walk<T> {
    Iterate(Stepper(fetch), g, n)
  }

  /** Requests so far are pairwise distinct, and their cursors are the requested ones. */
  ghost predicate NoRepeats<T>(g: Generator<T>) {
    && (forall i, j | 0 <= i < j < |g.fetched| :: g.fetched[i] != g.fetched[j])
    && (forall i | 0 <= i < |g.fetched| && g.fetched[i].Some? :: g.fetched[i].value in g.requested)
    && (g.last.None? && !g.finished ==>
          g.fetched == [] && g.requested == if g.cursor.Some? then {g.cursor.value} else {})
    && (g.fetched == [] ==> g.last.None?)
  }

  lemma ResumeKeepsNoRepeats<T>(fetch: Fetch<T>, g: Generator<T>)
    requires NoRepeats(g)
    ensures NoRepeats(Resume(fetch, g).0)
    ensures g.requested <= Resume(fetch, g).0.requested
  {}

  /** Whatever the server answers, no walk requests the same cursor twice, nor the
      first page again. */
  lemma {:induction false} NoCursorRequestedTwice<T>(fetch: Fetch<T>, g: Generator<T>, n: nat)
    requires NoRepeats(g)
    ensures NoRepeats(Pull(fetch, g, n).generator)
    decreases n
  {
    if n == 0 {
    } else {
      ResumeKeepsNoRepeats(fetch, g);
      NoCursorRequestedTwice(fetch, Resume(fetch, g).0, n - 1);
    }
  }

  lemma WholeWalkNeverRepeats<T>(fetch: Fetch<T>, initial: Option<Cursor>, n: nat)
    ensures var asked := Pull(fetch, Start<T>(initial), n).generator.fetched;
            forall i, j | 0 <= i < j < |asked| :: asked[i] != asked[j]
  {
    NoCursorRequestedTwice(fetch, Start<T>(initial), n);
  }

  /** Requests of the walk after the generator's own: one a page and maybe one more, each
      with the cursor of the page before it. */
  ghost predicate Follow<T>(g: Generator<T>, w: Walk<T>) {
    && g.fetched <= w.generator.fetched
    && |g.fetched| + |w.pages| <= |w.generator.fetched| <= |g.fetched| + |w.pages| + 1
    && (|w.generator.fetched| > |g.fetched| && g.last.Some? ==>
          w.generator.fetched[|g.fetched|] == g.last.value.nextCursor)
    && forall m | |g.fetched| < m < |w.generator.fetched| ::
         w.generator.fetched[m] == w.pages[m - |g.fetched| - 1].nextCursor
  }

  lemma PageFollows<T>(g: Generator<T>, after: Generator<T>, cursor: Option<Cursor>, page: Page<T>, rest: Walk<T>, w: Walk<T>)
    requires after.fetched == g.fetched + [cursor] && after.last == Some(page) && Follow(after, rest)
    requires g.last.Some? ==> cursor == g.last.value.nextCursor
    requires w.pages == [page] + rest.pages && w.generator == rest.generator
    ensures Follow(g, w)
  {
    forall m | |g.fetched| < m < |w.generator.fetched|
      ensures w.generator.fetched[m] == w.pages[m - |g.fetched| - 1].nextCursor
    {
      assert m > |after.fetched| ==> w.pages[m - |g.fetched| - 1] == rest.pages[m - |after.fetched| - 1];
    }
  }

  /** Each request after the first carries the cursor of the page before it. */
  lemma {:induction false} RequestsFollowPages<T>(fetch: Fetch<T>, g: Generator<T>, n: nat)
    ensures Follow(g, Pull(fetch, g, n))
    decreases n
  {
    if n == 0 {
    } else {
      var (after, event) := Resume(fetch, g);
      if event.Yielded? {
        RequestsFollowPages(fetch, after, n - 1);
        PageFollows(g, after, after.cursor, event.page, Pull(fetch, after, n - 1), Pull(fetch, g, n));
      }
    }
  }

  /** The cursors that count as requested are those of the requests made, or the one the
      first request will carry. */
  ghost predicate Counted<T>(g: Generator<T>) {
    && (forall c | c in g.requested :: Some(c) in g.fetched || (g.last.None? && g.cursor == Some(c)))
    && (g.last.Some? ==> g.fetched != [])
  }

  /** Why a walk that has read `last` ends without another page. */
  ghost predicate Ends<T>(fetch: Fetch<T>, last: Option<Page<T>>, asked: seq<Option<Cursor>>, pages: nat, end: Event<T>) {
    if |asked| > pages then
      end.Raised? && fetch(pages, asked[pages]) == Failure(end.error)
    else
      && last.Some?
      && if last.value.limitReached || !last.value.hasMore then end.Stopped?
         else if last.value.nextCursor.None? then end.Raised? && end.error == MissingCursor
         else end.Raised? && end.error == RepeatedCursor && last.value.nextCursor in asked
  }

  /** The walk's pages are the answers to its requests, and its end has a reason. */
  ghost predicate Explained<T>(fetch: Fetch<T>, g: Generator<T>, w: Walk<T>) {
    var base, asked := |g.fetched|, w.generator.fetched;
    && base + |w.pages| <= |asked|
    && (forall i: nat | i < |w.pages| :: fetch(base + i, asked[base + i]) == Success(w.pages[i]))
    && (w.end.Some? ==>
          Ends(fetch, if w.pages == [] then g.last else Some(w.pages[|w.pages| - 1]), asked, base + |w.pages|, w.end.value))
  }

  lemma {:induction false} WalkIsExplained<T>(fetch: Fetch<T>, g: Generator<T>, n: nat)
    requires !g.finished && Counted(g)
    ensures Explained(fetch, g, Pull(fetch, g, n)) && g.fetched <= Pull(fetch, g, n).generator.fetched
    decreases n
  {
    if n == 0 {
    } else {
      var (after, event) := Resume(fetch, g);
      if event.Yielded? {
        assert after.fetched == g.fetched + [after.cursor];
        WalkIsExplained(fetch, after, n - 1);
        PageExplained(fetch, g, after, event.page, Pull(fetch, after, n - 1), Pull(fetch, g, n));
      }
    }
  }

  lemma PageExplained<T>(fetch: Fetch<T>, g: Generator<T>, after: Generator<T>, page: Page<T>, rest: Walk<T>, w: Walk<T>)
    requires after.fetched == g.fetched + [after.cursor] && after.last == Some(page) && after.fetched <= rest.generator.fetched
    requires fetch(|g.fetched|, after.cursor) == Success(page) && Explained(fetch, after, rest)
    requires w.pages == [page] + rest.pages && w.generator == rest.generator && w.end == rest.end
    ensures Explained(fetch, g, w)
  {
    var base, asked := |g.fetched|, w.generator.fetched;
    assert asked[base] == after.fetched[base];
    forall i: nat | i < |w.pages| ensures fetch(base + i, asked[base + i]) == Success(w.pages[i]) {
      assert i > 0 ==> w.pages[i] == rest.pages[i - 1] && base + i == |after.fetched| + (i - 1);
    }
  }

  lemma FirstRequest<T>(fetch: Fetch<T>, initial: Option<Cursor>, n: nat)
    requires n > 0
    ensures [initial] <= Pull(fetch, Start<T>(initial), n).generator.fetched
  {
    var (after, event) := Resume(fetch, Start<T>(initial));
    if event.Yielded? {
      WalkIsExplained(fetch, after, n - 1);
    }
  }

  /** The whole walk: page i answers request i, and the end, if reached, has its reason. */
  ghost predicate Accounted<T>(fetch: Fetch<T>, w: Walk<T>) {
    && |w.pages| <= |w.generator.fetched|
    && (forall i: nat | i < |w.pages| :: fetch(i, w.generator.fetched[i]) == Success(w.pages[i]))
    && (w.end.Some? ==>
          Ends(fetch, if w.pages == [] then None else Some(w.pages[|w.pages| - 1]), w.generator.fetched, |w.pages|, w.end.value))
  }

  lemma ExplainedFromStart<T>(fetch: Fetch<T>, initial: Option<Cursor>, w: Walk<T>)
    requires Explained(fetch, Start(initial), w)
    ensures Accounted(fetch, w)
  {
    forall i: nat | i < |w.pages| ensures fetch(i, w.generator.fetched[i]) == Success(w.pages[i]) {
      assert 0 + i == i;
    }
  }

  /** Against any server, the first request carries the initial cursor, page i is the answer
      to request i, and the walk ends for exactly one reason: a refused request, a last
      page, or a missing or already requested cursor. */
  lemma PagesAreAnswers<T>(fetch: Fetch<T>, initial: Option<Cursor>, n: nat)
    ensures Accounted(fetch, Pull(fetch, Start(initial), n))
    ensures n > 0 ==> [initial] <= Pull(fetch, Start(initial), n).generator.fetched
  {
    if n > 0 {
      FirstRequest(fetch, initial, n);
    }
    WalkIsExplained(fetch, Start(initial), n);
    ExplainedFromStart(fetch, initial, Pull(fetch, Start(initial), n));
  }

  lemma {:induction false} DistinctRequestsCount(asked: seq<Option<Cursor>>, all: set<Cursor>)
    requires forall i, j | 0 <= i < j < |asked| :: asked[i] != asked[j]
    requires forall i | 0 <= i < |asked| && asked[i].Some? :: asked[i].value in all
    ensures |asked| <= |all| + 1
    ensures None !in asked ==> |asked| <= |all|
    decreases |asked|
  {
    if asked == [] {
    } else {
      var init, last := asked[..|asked| - 1], asked[|asked| - 1];
      if last.Some? {
        DistinctRequestsCount(init, all - {last.value});
      } else {
        DistinctRequestsCount(init, all);
      }
    }
  }

  /** A server with finitely many cursors cannot keep a walk going: it ends within one
      page per cursor and the first. */
  lemma WalkEnds<T>(fetch: Fetch<T>, initial: Option<Cursor>, all: set<Cursor>, n: nat)
    requires initial.Some? ==> initial.value in all
    requires MintsWithin(fetch, all) && n > |all| + 1
    ensures Pull(fetch, Start<T>(initial), n).end.Some?
    ensures |Pull(fetch, Start<T>(initial), n).pages| <= |all| + 1
  {
    var g := Start<T>(initial);
    var w := Pull(fetch, g, n);
    NoCursorRequestedTwice(fetch, g, n);
    RequestsFollowPages(fetch, g, n);
    RequestsWithin(fetch, g, n, all);
    DistinctRequestsCount(w.generator.fetched, all);
    UnendedWalkIsFull(fetch, g, n);
  }

  lemma {:induction false} UnendedWalkIsFull<T>(fetch: Fetch<T>, g: Generator<T>, n: nat)
    ensures Pull(fetch, g, n).end.None? ==> |Pull(fetch, g, n).pages| == n
    decreases n
  {
    if n == 0 {
    } else {
      UnendedWalkIsFull(fetch, Resume(fetch, g).0, n - 1);
    }
  }

  /** Everything this walk knows of stays among the given cursors. */
  ghost predicate Within<T>(g: Generator<T>, all: set<Cursor>) {
    && (forall i | 0 <= i < |g.fetched| && g.fetched[i].Some? :: g.fetched[i].value in all)
    && (g.cursor.Some? ==> g.cursor.value in all)
    && (g.last.Some? && g.last.value.nextCursor.Some? ==> g.last.value.nextCursor.value in all)
  }

  ghost predicate MintsWithin<T>(fetch: Fetch<T>, all: set<Cursor>) {
    forall k, c | fetch(k, c).Success? && fetch(k, c).value.nextCursor.Some? :: fetch(k, c).value.nextCursor.value in all
  }

  lemma {:induction false} RequestsWithin<T>(fetch: Fetch<T>, g: Generator<T>, n: nat, all: set<Cursor>)
    requires MintsWithin(fetch, all) && Within(g, all)
    ensures Within(Pull(fetch, g, n).generator, all)
    decreases n
  {
    if n == 0 {
    } else {
      assert Within(Resume(fetch, g).0, all);
      RequestsWithin(fetch, Resume(fetch, g).0, n - 1, all);
    }
  }
}
