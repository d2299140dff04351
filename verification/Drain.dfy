/** Draining a paginator into a list with an exact truncation verdict
    (src/polymarket/pagination.py). */
module Drain {
  import opened Wrappers
  import opened Cursors
  import opened PageWalk
  import opened OffsetWalk

  datatype Drained<+T> = Drained(items: seq<T>, truncated: bool, limitReached: bool)

  ghost predicate Overflows(limit: Option<int>, items: nat) {
    limit.Some? && items > limit.value
  }

  ghost predicate AnyEnds<T>(pages: seq<Page<T>>) {
    exists i | 0 <= i < |pages| :: EndsWalk(pages[i])
  }

  /** The walk so far already decides a drain. */
  ghost predicate Settled<T>(limit: Option<int>, w: Walk<T>) {
    w.end.Some? || Overflows(limit, |Items(w.pages)|) || AnyEnds(w.pages)
  }

  lemma {:induction false} ItemsConcat<T>(a: seq<Page<T>>, b: seq<Page<T>>)
    ensures Items(a + b) == Items(a) + Items(b)
  {
    if a == [] {
      assert a + b == b;
    } else {
      assert (a + b)[1..] == a[1..] + b;
      ItemsConcat(a[1..], b);
    }
  }

  /** One more pull extends an unended walk by the step's event. */
  lemma {:induction false} OneMorePull<T>(step: Step<T>, g: Generator<T>, k: nat)
    requires |Iterate(step, g, k).pages| == k
    ensures var (w, longer) := (Iterate(step, g, k), Iterate(step, g, k + 1));
            var (after, event) := step(w.generator);
            && w.end.None?
            && longer.generator == after
            && longer.pages == (if event.Yielded? then w.pages + [event.page] else w.pages)
            && longer.end == (if event.Yielded? then None else Some(event))
    decreases k
  {
    if k == 0 {
    } else {
      OneMorePull(step, step(g).0, k - 1);
    }
  }

  /** A longer walk begins with the shorter one, and an ended one does not grow. */
  lemma {:induction false} LongerWalk<T>(step: Step<T>, g: Generator<T>, k: nat, n: nat)
    requires k <= n
    ensures Iterate(step, g, k).pages <= Iterate(step, g, n).pages
    ensures Iterate(step, g, k).end.Some? ==> Iterate(step, g, n) == Iterate(step, g, k)
    ensures Iterate(step, g, k).end.None? ==> |Iterate(step, g, k).pages| == k
    decreases k
  {
    if k == 0 {
    } else {
      LongerWalk(step, step(g).0, k - 1, n - 1);
    }
  }

  /** Nothing follows a page that ends the walk. */
  lemma EndingPageIsLast<T>(fetch: Fetch<T>, g: Generator<T>, k: nat, n: nat, page: Page<T>)
    requires k < n && |Pull(fetch, g, k).pages| == k
    requires Resume(fetch, Pull(fetch, g, k).generator).1 == Yielded(page) && EndsWalk(page)
    ensures Pull(fetch, g, n).pages == Pull(fetch, g, k).pages + [page]
    ensures Pull(fetch, g, n).end == None || Pull(fetch, g, n).end == Some(Stopped)
  {
    OneMorePull(Stepper(fetch), g, k);
    if n > k + 1 {
      OneMorePull(Stepper(fetch), g, k + 1);
      LongerWalk(Stepper(fetch), g, k + 2, n);
    }
  }

  /** Item number `limit` is on page `j`. */
  ghost predicate CrossedIn<T>(pages: seq<Page<T>>, limit: int, j: nat)
    requires j < |pages|
  {
    |Items(pages[..j])| <= limit < |Items(pages[..j])| + |pages[j].items|
  }

  /** What a drain must report of a walk that settles it. */
  ghost predicate Reports<T>(limit: Option<int>, w: Walk<T>, result: Result<Drained<T>, Error>) {
    var all := Items(w.pages);
    if Overflows(limit, |all|) && limit.value >= 0 then
      && result.Success? && result.value.items == all[..limit.value] && result.value.truncated
      && exists j | 0 <= j < |w.pages| ::
           CrossedIn(w.pages, limit.value, j) && result.value.limitReached == w.pages[j].limitReached
    else if w.end.Some? && w.end.value.Raised? then
      result == Failure(w.end.value.error)
    else
      && result.Success? && result.value.items == all
      && (result.value.truncated <==> w.pages != [] && w.pages[|w.pages| - 1].limitReached)
      && result.value.limitReached == result.value.truncated
  }

  /** Pulls stop with the page that settles the drain. */
  ghost predicate Economical<T>(fetch: Fetch<T>, g: Generator<T>, limit: Option<int>, pulls: nat) {
    pulls > 0 ==> !Settled(limit, Pull(fetch, g, pulls - 1))
  }

  lemma CrossingReports<T>(limit: Option<int>, before: seq<Page<T>>, page: Page<T>, w: Walk<T>, out: seq<T>)
    requires before + [page] <= w.pages && limit.Some? && limit.value >= 0 && |out| == limit.value
    requires |Items(before)| <= limit.value && out < Items(before) + page.items
    ensures Reports(limit, w, Success(Drained(out, true, page.limitReached)))
  {
    var shorter := before + [page];
    ItemsConcat(before, [page]);
    ItemsOfOne(page);
    assert w.pages == shorter + w.pages[|shorter|..];
    ItemsConcat(shorter, w.pages[|shorter|..]);
    assert w.pages[..|before|] == before && w.pages[|before|] == page;
    assert CrossedIn(w.pages, limit.value, |before|);
  }

  lemma OverflowReports<T>(fetch: Fetch<T>, g: Generator<T>, limit: Option<int>, k: nat, n: nat, page: Page<T>, out: seq<T>)
    requires k < n && |Pull(fetch, g, k).pages| == k
    requires Resume(fetch, Pull(fetch, g, k).generator).1 == Yielded(page)
    requires limit.Some? && limit.value >= 0 && |out| == limit.value
    requires |Items(Pull(fetch, g, k).pages)| <= limit.value && out < Items(Pull(fetch, g, k).pages) + page.items
    ensures Reports(limit, Pull(fetch, g, n), Success(Drained(out, true, page.limitReached)))
  {
    OneMorePull(Stepper(fetch), g, k);
    LongerWalk(Stepper(fetch), g, k + 1, n);
    CrossingReports(limit, Pull(fetch, g, k).pages, page, Pull(fetch, g, n), out);
  }

  /** What holds before each pull: nothing so far settles the drain. */
  ghost predicate Unsettled<T>(fetch: Fetch<T>, g: Generator<T>, limit: Option<int>, pulls: nat, out: seq<T>) {
    && |Pull(fetch, g, pulls).pages| == pulls
    && out == Items(Pull(fetch, g, pulls).pages)
    && !Settled(limit, Pull(fetch, g, pulls))
  }

  /** The pull after an unsettled walk: an end, or one more page. */
  lemma NextPull<T>(fetch: Fetch<T>, g: Generator<T>, limit: Option<int>, pulls: nat, out: seq<T>, n: nat)
    requires Unsettled(fetch, g, limit, pulls, out) && pulls <= n && Settled(limit, Pull(fetch, g, n))
    ensures pulls < n
    ensures var (after, event) := Resume(fetch, Pull(fetch, g, pulls).generator);
            && Pull(fetch, g, pulls + 1).generator == after
            && (!event.Yielded? ==>
                  Pull(fetch, g, n).end == Some(event) && Pull(fetch, g, n).pages == Pull(fetch, g, pulls).pages)
  {
    LongerWalk(Stepper(fetch), g, pulls, n);
    OneMorePull(Stepper(fetch), g, pulls);
    if pulls < n {
      LongerWalk(Stepper(fetch), g, pulls + 1, n);
    }
  }

  lemma PageKeepsUnsettled<T>(fetch: Fetch<T>, g: Generator<T>, limit: Option<int>, pulls: nat, out: seq<T>, page: Page<T>)
    requires Unsettled(fetch, g, limit, pulls, out)
    requires Resume(fetch, Pull(fetch, g, pulls).generator).1 == Yielded(page)
    requires !Overflows(limit, |out + page.items|) && !EndsWalk(page)
    ensures Unsettled(fetch, g, limit, pulls + 1, out + page.items)
  {
    OneMorePull(Stepper(fetch), g, pulls);
    ItemsOfOne(page);
    ItemsConcat(Pull(fetch, g, pulls).pages, [page]);
  }

  lemma ItemsOfOne<T>(page: Page<T>)
    ensures Items([page]) == page.items
  {
    assert [page][1..] == [];
    assert page.items + Items([]) == page.items;
  }

  lemma LastPageReports<T>(fetch: Fetch<T>, g: Generator<T>, limit: Option<int>, pulls: nat, out: seq<T>, page: Page<T>, n: nat)
    requires Unsettled(fetch, g, limit, pulls, out) && pulls < n
    requires Resume(fetch, Pull(fetch, g, pulls).generator).1 == Yielded(page)
    requires !Overflows(limit, |out + page.items|) && EndsWalk(page)
    ensures Reports(limit, Pull(fetch, g, n), Success(Drained(out + page.items, page.limitReached, page.limitReached)))
  {
    EndingPageIsLast(fetch, g, pulls, n, page);
    ItemsOfOne(page);
    ItemsConcat(Pull(fetch, g, pulls).pages, [page]);
  }

  lemma EndReports<T>(fetch: Fetch<T>, g: Generator<T>, limit: Option<int>, pulls: nat, out: seq<T>, n: nat)
    requires Unsettled(fetch, g, limit, pulls, out) && pulls <= n && Settled(limit, Pull(fetch, g, n))
    ensures var event := Resume(fetch, Pull(fetch, g, pulls).generator).1;
            && (event.Raised? ==> Reports(limit, Pull(fetch, g, n), Failure(event.error)))
            && (event.Stopped? ==> Reports(limit, Pull(fetch, g, n), Success(Drained(out, false, false))))
  {
    NextPull(fetch, g, limit, pulls, out, n);
    var pages := Pull(fetch, g, pulls).pages;
    if pages != [] {
      assert !EndsWalk(pages[|pages| - 1]);
    }
  }

  /** What a page leads to: the limit is crossed, the walk ends, or the drain goes on. */
  lemma PageOutcome<T>(fetch: Fetch<T>, g: Generator<T>, limit: Option<int>, pulls: nat, out: seq<T>, page: Page<T>, n: nat)
    requires Unsettled(fetch, g, limit, pulls, out) && pulls < n
    requires Resume(fetch, Pull(fetch, g, pulls).generator).1 == Yielded(page)
    requires limit.Some? ==> limit.value >= 0
    ensures var w, all := Pull(fetch, g, n), out + page.items;
            if Overflows(limit, |all|) then Reports(limit, w, Success(Drained(all[..limit.value], true, page.limitReached)))
            else if EndsWalk(page) then Reports(limit, w, Success(Drained(all, page.limitReached, page.limitReached)))
            else Unsettled(fetch, g, limit, pulls + 1, all)
  {
    var all := out + page.items;
    if Overflows(limit, |all|) {
      OverflowReports(fetch, g, limit, pulls, n, page, all[..limit.value]);
    } else if EndsWalk(page) {
      LastPageReports(fetch, g, limit, pulls, out, page, n);
    } else {
      PageKeepsUnsettled(fetch, g, limit, pulls, out, page);
    }
  }

  /** Takes a page's items up to the limit; `full` says that one did not fit. */
  method TakePage<T>(out: seq<T>, items: seq<T>, limit: Option<int>) returns (taken: seq<T>, full: bool)
    requires !Overflows(limit, |out|)
    ensures full <==> Overflows(limit, |out + items|)
    ensures taken == if full then (out + items)[..limit.value] else out + items
  {
    taken := out;
    for i := 0 to |items|
      invariant taken == out + items[..i]
      invariant limit.Some? ==> |taken| <= limit.value
    {
      if limit.Some? && |taken| >= limit.value {
        assert taken == (out + items)[..limit.value];
        return taken, true;
      }
      taken := taken + [items[i]];
    }
    return taken, false;
  }

  /** Drains a paginator whose walk settles the drain within `n` pulls. */
  method DrainPaginator<T>(it: PageIterator<T>, limit: Option<int>, ghost n: nat)
    returns (result: Result<Drained<T>, Error>, ghost pulls: nat)
    requires (limit.Some? && limit.value <= 0) || Settled(limit, Pull(it.fetch, it.View(), n))
    modifies it
    ensures it.View() == Pull(it.fetch, old(it.View()), pulls).generator
    ensures limit.Some? && limit.value < 0 ==> result == Failure(UserInput) && pulls == 0
    ensures limit.Some? && limit.value == 0 ==> result == Success(Drained([], false, false)) && pulls == 0
    ensures limit.None? || limit.value > 0 ==>
              && Reports(limit, Pull(it.fetch, old(it.View()), n), result)
              && Economical(it.fetch, old(it.View()), limit, pulls)
  {
    pulls := 0;
    if limit.Some? && limit.value < 0 {
      return Failure(UserInput), pulls;
    }
    if limit.Some? && limit.value == 0 {
      return Success(Drained([], false, false)), pulls;
    }
    ghost var fetch, g := it.fetch, it.View();
    var out: seq<T> := [];
    while true
      invariant it.View() == Pull(fetch, g, pulls).generator
      invariant Unsettled(fetch, g, limit, pulls, out) && pulls <= n
      decreases n - pulls
    {
      NextPull(fetch, g, limit, pulls, out, n);
      EndReports(fetch, g, limit, pulls, out, n);
      var event := it.Next();
      ghost var before := pulls;
      pulls := pulls + 1;
      match event {
        case Stopped =>
          return Success(Drained(out, false, false)), pulls;
        case Raised(error) =>
          return Failure(error), pulls;
        case Yielded(page) =>
          PageOutcome(fetch, g, limit, before, out, page, n);
          var taken, full := TakePage(out, page.items, limit);
          if full {
            return Success(Drained(taken, true, page.limitReached)), pulls;
          }
          if page.limitReached {
            return Success(Drained(taken, true, true)), pulls;
          }
          if !page.hasMore {
            return Success(Drained(taken, false, false)), pulls;
          }
          out := taken;
      }
    }
  }

  /** The first `limit` of these items, truncated when there are more or they are marked
      incomplete. */
  ghost predicate Drains<T>(limit: Option<int>, all: seq<T>, marked: bool, result: Result<Drained<T>, Error>) {
    match result
    case Success(drained) =>
      && drained.items == (if Overflows(limit, |all|) && limit.value >= 0 then all[..limit.value] else all)
      && (drained.truncated <==> Overflows(limit, |all|) || marked)
    case Failure(_) => false
  }

  /** What a drain reports of a walk that ends without an error. */
  lemma ReportOfWholeWalk<T>(limit: Option<int>, w: Walk<T>, all: seq<T>, marked: bool, result: Result<Drained<T>, Error>)
    requires Reports(limit, w, result) && (limit.Some? ==> limit.value > 0)
    requires w.end == Some(Stopped) && w.pages != [] && Items(w.pages) == all
    requires w.pages[|w.pages| - 1].limitReached <==> marked
    ensures Drains(limit, all, marked, result)
  {}
}
