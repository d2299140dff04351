/** What a walk over a two-endpoint listing reads: the server's chain of keyset pages, or
    the offset listing (src/polymarket/_internal/dispatch.py). */
module KeysetWalk {
  import opened Wrappers
  import opened Cursors
  import opened PageWalk
  import opened OffsetWalk
  import opened Routing

  /** The chain: request 0 asks for the first page, or goes on from a saved cursor, and
      request k+1 asks with the cursor that reply k gave. */
  ghost function AskedCursor<T>(e: Endpoints<T>, first: Option<string>, k: nat): Option<string> {
    if k == 0 then first
    else
      match e.serveKeyset(k - 1, AskedCursor(e, first, k - 1))
      case KeysetReply(_, next) => next
      case Refused(_) => None
  }

  ghost function ReplyAt<T>(e: Endpoints<T>, first: Option<string>, k: nat): KeysetReply<T> {
    e.serveKeyset(k, AskedCursor(e, first, k))
  }

  ghost predicate PageIs<T>(e: Endpoints<T>, first: Option<string>, k: nat, page: Page<T>) {
    match ReplyAt(e, first, k)
    case Refused(_) => false
    case KeysetReply(items, next) => page.items == items && page.hasMore == next.Some? && !page.limitReached
  }

  /** Why request `k` yields no page. */
  ghost predicate Fails<T>(e: Endpoints<T>, first: Option<string>, k: nat, error: Error) {
    || (error == RepeatedCursor && AskedCursor(e, first, k).Some?
        && exists j: nat :: j < k && AskedCursor(e, first, j) == AskedCursor(e, first, k))
    || (error == UserInput && ReplyAt(e, first, k).KeysetReply? && ReplyAt(e, first, k).next == Some(""))
    || ReplyAt(e, first, k) == Refused(error)
  }

  /** From request `k` on, the walk's pages are the replies of the chain, each but the first
      asked for with its predecessor's cursor; it stops at a reply without one. */
  ghost predicate ReadsChain<T>(e: Endpoints<T>, first: Option<string>, k: nat, w: Walk<T>) {
    var end := k + |w.pages|;
    && (forall i: nat | i < |w.pages| :: PageIs(e, first, k + i, w.pages[i]) && (k + i > 0 ==> AskedCursor(e, first, k + i).Some?))
    && (w.end.Some? ==>
          if w.end.value.Stopped? then end > 0 && ReplyAt(e, first, end - 1).KeysetReply? && ReplyAt(e, first, end - 1).next.None?
          else w.end.value.Raised? && (end > 0 ==> AskedCursor(e, first, end).Some?) && Fails(e, first, end, w.end.value.error))
  }

  /** The client's envelope around the chain's cursor `k`. */
  ghost predicate Minted<T>(e: Endpoints<T>, first: Option<string>, k: nat, cursor: Option<Cursor>) {
    match AskedCursor(e, first, k)
    case None => cursor.None?
    case Some(c) => cursor.Some? && EncodeKeyset(e.keyset, c) == Success(cursor.value)
  }

  /** The walk is about to make request `k` of the chain, or has just read its last reply. */
  ghost predicate AboutToAsk<T>(e: Endpoints<T>, first: Option<string>, g: Generator<T>, k: nat) {
    && !g.finished && |g.fetched| == k
    && (forall c | c in g.requested :: exists j: nat :: j < (if k == 0 then 1 else k) && Minted(e, first, j, Some(c)))
    && match g.last
       case None => k == 0 && Minted(e, first, k, g.cursor)
       case Some(page) => k > 0 && PageIs(e, first, k - 1, page) && Minted(e, first, k, page.nextCursor)
  }

  lemma AskedAfter<T>(e: Endpoints<T>, first: Option<string>, k: nat)
    ensures AskedCursor(e, first, k + 1) == if ReplyAt(e, first, k).KeysetReply? then ReplyAt(e, first, k).next else None
  {}

  /** Request `k`, made with the chain's cursor, is answered with the chain's reply. */
  lemma AnswerToRequest<T>(e: Endpoints<T>, first: Option<string>, k: nat, cursor: Option<Cursor>)
    requires e.keyset.path != e.offset.route.path && e.keyset.path != ""
    requires Minted(e, first, k, cursor)
    ensures var answer := FetchEither(e, k, cursor);
            if answer.Success? then PageIs(e, first, k, answer.value) && Minted(e, first, k + 1, answer.value.nextCursor)
            else Fails(e, first, k, answer.error)
  {
    if cursor.Some? {
      EnvelopesRoundTrip(e.keyset, AtKey(AskedCursor(e, first, k).value), e.keyset);
    }
    AskedAfter(e, first, k);
    var reply := ReplyAt(e, first, k);
    assert FetchEither(e, k, cursor) == match reply
                                        case Refused(error) => Failure(error)
                                        case KeysetReply(items, next) => ComputeKeysetPage(e.keyset, items, next);
    if reply.KeysetReply? && reply.next.Some? {
      EncodableIffDecodable(e.keyset, AtKey(reply.next.value));
    }
  }

  lemma SameEnvelopeSameCursor<T>(e: Endpoints<T>, first: Option<string>, j: nat, k: nat, c: Cursor)
    requires Minted(e, first, j, Some(c)) && Minted(e, first, k, Some(c))
    ensures AskedCursor(e, first, j) == AskedCursor(e, first, k)
  {
    EncodeInjective(e.keyset, AtKey(AskedCursor(e, first, j).value), e.keyset, AtKey(AskedCursor(e, first, k).value));
  }

  lemma RequestStep<T>(e: Endpoints<T>, first: Option<string>, g: Generator<T>, k: nat, cursor: Option<Cursor>)
    requires e.keyset.path != e.offset.route.path && e.keyset.path != ""
    requires |g.fetched| == k && !g.finished && g.cursor == cursor && Minted(e, first, k, cursor)
    requires forall c | c in g.requested :: exists j: nat :: j < k + 1 && Minted(e, first, j, Some(c))
    ensures var (after, event) := FetchInto(EitherFetch(e), g);
            if event.Yielded? then PageIs(e, first, k, event.page) && AboutToAsk(e, first, after, k + 1)
            else event.Raised? && Fails(e, first, k, event.error)
  {
    AnswerToRequest(e, first, k, cursor);
  }

  /** What one resumption about to make request `k` reaches. */
  ghost predicate Reached<T>(e: Endpoints<T>, first: Option<string>, k: nat, reached: (Generator<T>, Event<T>)) {
    match reached
    case (after, event) =>
      if event.Stopped? then k > 0 && ReplyAt(e, first, k - 1).KeysetReply? && ReplyAt(e, first, k - 1).next.None?
      else
        && (k > 0 ==> AskedCursor(e, first, k).Some?)
        && if event.Raised? then Fails(e, first, k, event.error)
           else PageIs(e, first, k, event.page) && AboutToAsk(e, first, after, k + 1)
  }

  lemma AskStep<T>(e: Endpoints<T>, first: Option<string>, g: Generator<T>, k: nat)
    requires e.keyset.path != e.offset.route.path && e.keyset.path != ""
    requires AboutToAsk(e, first, g, k)
    ensures Reached(e, first, k, Resume(EitherFetch(e), g))
  {
    if k == 0 {
      RequestStep(e, first, g, k, g.cursor);
    } else {
      var page := g.last.value;
      AskedAfter(e, first, k - 1);
      if page.hasMore {
        var c := page.nextCursor.value;
        if c in g.requested {
          var j: nat :| j < k && Minted(e, first, j, Some(c));
          SameEnvelopeSameCursor(e, first, j, k, c);
        } else {
          RequestStep(e, first, g.(cursor := Some(c), requested := g.requested + {c}), k, Some(c));
        }
      }
    }
  }

  ghost predicate StepAsks<T(!new)>(step: Step<T>, e: Endpoints<T>, first: Option<string>) {
    forall g: Generator<T>, k: nat {:trigger step(g), AboutToAsk(e, first, g, k)} | AboutToAsk(e, first, g, k) :: Reached(e, first, k, step(g))
  }

  lemma {:induction false} WalkReadsFrom<T(!new)>(step: Step<T>, e: Endpoints<T>, first: Option<string>, g: Generator<T>, k: nat, n: nat)
    requires StepAsks(step, e, first) && AboutToAsk(e, first, g, k)
    ensures ReadsChain(e, first, k, Iterate(step, g, n))
    decreases n
  {
    if n == 0 {
    } else {
      assert Reached(e, first, k, step(g));
      var (after, event) := step(g);
      if event.Yielded? {
        WalkReadsFrom(step, e, first, after, k + 1, n - 1);
        PageThenRest(e, first, k, event.page, Iterate(step, after, n - 1), Iterate(step, g, n));
      }
    }
  }

  lemma PageThenRest<T>(e: Endpoints<T>, first: Option<string>, k: nat, page: Page<T>, rest: Walk<T>, w: Walk<T>)
    requires PageIs(e, first, k, page) && (k > 0 ==> AskedCursor(e, first, k).Some?) && ReadsChain(e, first, k + 1, rest)
    requires w.pages == [page] + rest.pages && w.end == rest.end
    ensures ReadsChain(e, first, k, w)
  {
    forall i: nat | i < |w.pages| ensures PageIs(e, first, k + i, w.pages[i]) && (k + i > 0 ==> AskedCursor(e, first, k + i).Some?) {
      if i > 0 {
        assert w.pages[i] == rest.pages[i - 1] && k + 1 + (i - 1) == k + i;
      }
    }
  }

  /** The client's cursor for a saved place in the chain. */
  ghost predicate StartsAt<T>(e: Endpoints<T>, first: Option<string>, initial: Option<Cursor>) {
    if first.None? then initial.None?
    else initial.Some? && EncodeKeyset(e.keyset, first.value) == Success(initial.value)
  }

  /** With different paths, a walk from the first page or from a saved keyset cursor reads
      the server's chain, whatever the server answers. */
  lemma KeysetWalkReadsChain<T(!new)>(e: Endpoints<T>, first: Option<string>, initial: Option<Cursor>, n: nat)
    requires e.keyset.path != e.offset.route.path && e.keyset.path != "" && StartsAt(e, first, initial)
    ensures ReadsChain(e, first, 0, Pull(EitherFetch(e), Start(initial), n))
  {
    forall g: Generator<T>, k: nat | AboutToAsk(e, first, g, k) ensures Reached(e, first, k, Stepper(EitherFetch(e))(g)) {
      AskStep(e, first, g, k);
    }
    assert Minted(e, first, 0, initial);
    WalkReadsFrom(Stepper(EitherFetch(e)), e, first, Start(initial), 0, n);
  }

  /** A chain of `m` replies with cursors that are not empty and never repeat. */
  ghost predicate Chain<T>(e: Endpoints<T>, first: Option<string>, m: nat) {
    && m > 0
    && (forall k: nat | k < m :: ReplyAt(e, first, k).KeysetReply?)
    && (forall k: nat | k < m :: ReplyAt(e, first, k).next.Some? <==> k < m - 1)
    && (forall k: nat | k < m - 1 :: ReplyAt(e, first, k).next != Some(""))
    && (forall j: nat, k: nat | j < k < m :: AskedCursor(e, first, j) != AskedCursor(e, first, k))
  }

  lemma PageOfRequest<T>(e: Endpoints<T>, first: Option<string>, w: Walk<T>, i: nat)
    requires ReadsChain(e, first, 0, w) && i < |w.pages|
    ensures PageIs(e, first, i, w.pages[i]) && (i > 0 ==> AskedCursor(e, first, i).Some?)
  {
    assert PageIs(e, first, 0 + i, w.pages[i]);
  }

  lemma NoPageAfterChain<T>(e: Endpoints<T>, first: Option<string>, m: nat, w: Walk<T>)
    requires ReadsChain(e, first, 0, w) && Chain(e, first, m)
    ensures |w.pages| <= m
  {
    if |w.pages| > m {
      PageOfRequest(e, first, w, m);
      AskedAfter(e, first, m - 1);
    }
  }

  /** Such a chain is read to its end: one page a reply, and then the walk stops. */
  lemma KeysetWalkIsComplete<T(!new)>(e: Endpoints<T>, first: Option<string>, initial: Option<Cursor>, m: nat, n: nat)
    requires e.keyset.path != e.offset.route.path && e.keyset.path != "" && StartsAt(e, first, initial)
    requires Chain(e, first, m) && n > m
    ensures var w := Pull(EitherFetch(e), Start(initial), n);
            |w.pages| == m && w.end == Some(Stopped) && forall k: nat | k < m :: w.pages[k].items == ReplyAt(e, first, k).items
  {
    var w := Pull(EitherFetch(e), Start(initial), n);
    KeysetWalkReadsChain(e, first, initial, n);
    UnendedWalkIsFull(EitherFetch(e), Start(initial), n);
    NoPageAfterChain(e, first, m, w);
    AskedAfter(e, first, m - 1);
    forall k: nat | k < |w.pages| ensures w.pages[k].items == ReplyAt(e, first, k).items {
      PageOfRequest(e, first, w, k);
    }
  }

  /** A walk resumed from an offset cursor reads the offset listing, exactly as if the
      keyset endpoint did not exist. */
  lemma {:induction false} ResumedWalkIsOffsetWalk<T>(e: Endpoints<T>, listing: seq<seq<T>>, g: Generator<T>, n: nat)
    requires e.keyset.path != e.offset.route.path && NextGoesTo(e, g, ByOffset)
    requires forall k: nat :: e.serveOffset(k) == Serve(listing)
    ensures Pull(EitherFetch(e), g, n) == Pull(OffsetFetch(e.offset, e.pageSize, listing), g, n)
    decreases n
  {
    if n == 0 {
    } else {
      ResumedStep(e, listing, g);
      var (after, event) := Resume(EitherFetch(e), g);
      if event.Yielded? {
        ResumedWalkIsOffsetWalk(e, listing, after, n - 1);
      }
    }
  }

  lemma ResumedStep<T>(e: Endpoints<T>, listing: seq<seq<T>>, g: Generator<T>)
    requires e.keyset.path != e.offset.route.path && NextGoesTo(e, g, ByOffset)
    requires forall k: nat :: e.serveOffset(k) == Serve(listing)
    ensures Resume(EitherFetch(e), g) == Resume(OffsetFetch(e.offset, e.pageSize, listing), g)
    ensures Resume(EitherFetch(e), g).1.Yielded? ==> NextGoesTo(e, Resume(EitherFetch(e), g).0, ByOffset)
  {
    var cursor := if g.last.None? then g.cursor else g.last.value.nextCursor;
    if FetchEither(e, |g.fetched|, cursor).Success? && KindOf(e, cursor) == ByOffset {
      PageStaysOnRoute(e, |g.fetched|, cursor);
    }
  }
}
