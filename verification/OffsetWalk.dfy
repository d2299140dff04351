/** Offset pagination over a fixed listing: the walk is the listing itself
    (src/polymarket/_internal/dispatch.py, src/polymarket/_internal/pagination.py). */
module OffsetWalk {
  import opened Wrappers
  import opened Cursors
  import opened PageWalk

  /** `pageFill` counts the rows a page's limit was applied to; None counts items. */
  datatype OffsetSpec<!T> = OffsetSpec(
    route: Route,
    maxPageSize: Option<int>,
    maxOffset: Option<int>,
    pageFill: Option<seq<T> -> int>)

  function CheckWindow<T>(spec: OffsetSpec<T>, offset: int, pageSize: int): Option<Error> {
    if spec.maxPageSize.Some? && pageSize > spec.maxPageSize.value then Some(UserInput)
    else if spec.maxOffset.Some? && offset > spec.maxOffset.value then Some(LimitReached)
    else None
  }

  function Filled<T>(spec: OffsetSpec<T>, items: seq<T>): int {
    if spec.pageFill.Some? then spec.pageFill.value(items) else |items|
  }

  function ComputeOffsetPage<T>(spec: OffsetSpec<T>, offset: int, pageSize: int, items: seq<T>): Result<Page<T>, Error> {
    var hasMore := Filled(spec, items) >= pageSize;
    var limitReached := hasMore && spec.maxOffset.Some? && offset + pageSize > spec.maxOffset.value;
    if hasMore then
      match EncodeOffset(spec.route, offset + pageSize, pageSize)
      case Success(cursor) => Success(Page(items, true, Some(cursor), limitReached))
      case Failure(error) => Failure(error)
    else Success(Page(items, false, None, limitReached))
  }

  /** Where a request starts and how many rows it asks for. */
  function PositionOf<T>(spec: OffsetSpec<T>, pageSize: int, cursor: Option<Cursor>): Result<(int, int), Error> {
    if cursor.None? then Success((0, pageSize)) else DecodeOffset(cursor.value, spec.route)
  }

  function FetchOffset<T>(spec: OffsetSpec<T>, pageSize: int, serve: (int, int) -> seq<T>, cursor: Option<Cursor>)
    : Result<Page<T>, Error>
  {
    match PositionOf(spec, pageSize, cursor)
    case Failure(error) => Failure(error)
    case Success((offset, size)) =>
      var refusal := CheckWindow(spec, offset, size);
      if refusal.Some? then Failure(refusal.value)
      else ComputeOffsetPage(spec, offset, size, serve(offset, size))
  }

  // A server over a fixed listing. A row contributes a block of items: one item, or a
  // comment followed by its replies.

  function Flatten<T>(rows: seq<seq<T>>): seq<T> {
    if rows == [] then [] else rows[0] + Flatten(rows[1..])
  }

  lemma {:induction false} FlattenConcat<T>(a: seq<seq<T>>, b: seq<seq<T>>)
    ensures Flatten(a + b) == Flatten(a) + Flatten(b)
  {
    if a == [] {
      assert a + b == b;
    } else {
      assert (a + b)[1..] == a[1..] + b;
      FlattenConcat(a[1..], b);
    }
  }

  function Clip(i: int, n: nat): nat {
    if i < 0 then 0 else if i > n then n else i
  }

  /** Rows from `lo` up to `hi`, as far as the listing goes. */
  function Rows<T>(listing: seq<seq<T>>, lo: int, hi: int): seq<seq<T>>
    requires lo <= hi
  {
    listing[Clip(lo, |listing|)..Clip(hi, |listing|)]
  }

  /** The items of the rows from `lo` up to `hi`. */
  function Block<T>(listing: seq<seq<T>>): (nat, nat) -> seq<T> {
    (lo: nat, hi: nat) => if lo <= hi then Flatten(Rows(listing, lo, hi)) else []
  }

  /** Adjacent blocks join. */
  ghost predicate Joins<T>(block: (nat, nat) -> seq<T>) {
    forall lo: nat, mid: nat, hi: nat | lo <= mid <= hi :: block(lo, mid) + block(mid, hi) == block(lo, hi)
  }

  lemma RowsJoin<T>(listing: seq<seq<T>>, lo: nat, mid: nat, hi: nat)
    requires lo <= mid <= hi
    ensures Rows(listing, lo, hi) == Rows(listing, lo, mid) + Rows(listing, mid, hi)
  {}

  lemma AdjacentBlocksJoin<T>(listing: seq<seq<T>>, lo: nat, mid: nat, hi: nat)
    requires lo <= mid <= hi
    ensures Flatten(Rows(listing, lo, mid)) + Flatten(Rows(listing, mid, hi)) == Flatten(Rows(listing, lo, hi))
  {
    RowsJoin(listing, lo, mid, hi);
    FlattenConcat(Rows(listing, lo, mid), Rows(listing, mid, hi));
  }

  lemma BlocksJoin<T>(listing: seq<seq<T>>)
    ensures Joins(Block(listing))
  {
    forall lo: nat, mid: nat, hi: nat | lo <= mid <= hi
      ensures Block(listing)(lo, mid) + Block(listing)(mid, hi) == Block(listing)(lo, hi)
    {
      AdjacentBlocksJoin(listing, lo, mid, hi);
    }
  }

  function Serve<T>(listing: seq<seq<T>>): (int, int) -> seq<T> {
    (offset, size) => if offset < 0 || size < 0 then [] else Block(listing)(offset, offset + size)
  }

  function OffsetFetch<T>(spec: OffsetSpec<T>, pageSize: int, listing: seq<seq<T>>): Fetch<T> {
    (k, cursor) => FetchOffset(spec, pageSize, Serve(listing), cursor)
  }

  /** The fill of a page is its number of rows, which the listing's endpoint declares. */
  ghost predicate FillCountsRows<T(!new)>(spec: OffsetSpec<T>, listing: seq<seq<T>>) {
    forall lo: nat, hi: nat | lo <= hi <= |listing| :: CountsRows(spec, listing, lo, hi)
  }

  ghost predicate CountsRows<T(!new)>(spec: OffsetSpec<T>, listing: seq<seq<T>>, lo: nat, hi: nat)
    requires lo <= hi <= |listing|
  {
    Filled(spec, Flatten(listing[lo..hi])) == hi - lo
  }

  /** Without a fill function every row must be one item. */
  lemma {:induction false} PlainRowsCount<T>(listing: seq<seq<T>>)
    requires forall i | 0 <= i < |listing| :: |listing[i]| == 1
    ensures |Flatten(listing)| == |listing|
  {
    if listing == [] {
    } else {
      PlainRowsCount(listing[1..]);
    }
  }

  lemma PlainListingCountsRows<T(!new)>(spec: OffsetSpec<T>, listing: seq<seq<T>>)
    requires spec.pageFill.None? && forall i | 0 <= i < |listing| :: |listing[i]| == 1
    ensures FillCountsRows(spec, listing)
  {
    forall lo: nat, hi: nat | lo <= hi <= |listing| ensures CountsRows(spec, listing, lo, hi) {
      PlainRowsCount(listing[lo..hi]);
    }
  }

  // The walk.

  /** The offset where the walk's last page starts: the first short page, or the last one
      not past the cap. */
  function LastStart(rows: nat, offset: nat, size: nat, cap: Option<int>): (last: nat)
    requires size > 0
    ensures last >= offset
    decreases rows - offset
  {
    if offset + size > rows || (cap.Some? && offset + size > cap.value) then offset
    else LastStart(rows, offset + size, size, cap)
  }

  /** `start` is `offset` or a whole number of pages after it. */
  ghost predicate OnGrid(start: nat, offset: nat, size: nat)
    requires size > 0
    decreases start - offset
  {
    start == offset || (start >= offset + size && OnGrid(start, offset + size, size))
  }

  /** It lies on the page grid and within the cap, no page before it ends the walk, and
      after it either the rows or the cap end. */
  lemma {:induction false} LastStartIsLast(rows: nat, offset: nat, size: nat, cap: Option<int>)
    requires size > 0 && (cap.Some? ==> offset <= cap.value)
    ensures var last := LastStart(rows, offset, size, cap);
            && OnGrid(last, offset, size)
            && (cap.Some? ==> last <= cap.value)
            && (last > offset ==> last <= rows)
            && (last + size > rows || (cap.Some? && last + size > cap.value))
    decreases rows - offset
  {
    if !(offset + size > rows || (cap.Some? && offset + size > cap.value)) {
      LastStartIsLast(rows, offset + size, size, cap);
    }
  }

  /** The walk's next request is at this accessible offset, and its cursors so far read
      before it. */
  ghost predicate AboutToRead<T>(spec: OffsetSpec<T>, pageSize: int, g: Generator<T>, offset: nat, size: nat) {
    match g.last
    case None =>
      && !g.finished && CheckWindow(spec, offset, size).None?
      && PositionOf(spec, pageSize, g.cursor) == Success((offset, size))
      && forall c | c in g.requested :: ReadsBefore(spec, c, offset + 1)
    case Some(page) =>
      && !g.finished && CheckWindow(spec, offset, size).None?
      && page.hasMore && !page.limitReached
      && EncodeOffset(spec.route, offset, size).Success?
      && page.nextCursor == Some(EncodeOffset(spec.route, offset, size).value)
      && forall c | c in g.requested :: ReadsBefore(spec, c, offset)
  }

  ghost predicate ReadsBefore<T>(spec: OffsetSpec<T>, c: Cursor, offset: nat) {
    DecodeOffset(c, spec.route).Success? && DecodeOffset(c, spec.route).value.0 < offset
  }

  /** The page at an offset of a listing of `rows` rows. */
  ghost function PageAt<T>(spec: OffsetSpec<T>, rows: nat, block: (nat, nat) -> seq<T>, offset: nat, size: nat): Page<T>
    requires spec.route.path != "" && size > 0
  {
    OffsetCursorRoundTrip(spec.route, offset + size, size);
    var hasMore := offset + size <= rows;
    Page(block(offset, offset + size), hasMore,
         if hasMore then Some(EncodeOffset(spec.route, offset + size, size).value) else None,
         hasMore && spec.maxOffset.Some? && offset + size > spec.maxOffset.value)
  }

  /** The pages from an offset on, page by page until one is short or the cap is passed. */
  ghost function PagesFrom<T>(spec: OffsetSpec<T>, rows: nat, block: (nat, nat) -> seq<T>, offset: nat, size: nat): seq<Page<T>>
    requires spec.route.path != "" && size > 0
    decreases rows - offset
  {
    var page := PageAt(spec, rows, block, offset, size);
    if EndsWalk(page) then [page] + [] else [page] + PagesFrom(spec, rows, block, offset + size, size)
  }

  lemma FilledRows<T(!new)>(spec: OffsetSpec<T>, listing: seq<seq<T>>, lo: nat, hi: nat)
    requires FillCountsRows(spec, listing) && lo <= hi <= |listing|
    ensures Filled(spec, Flatten(listing[lo..hi])) == hi - lo
  {
    assert CountsRows(spec, listing, lo, hi);
  }

  lemma FilledAt<T(!new)>(spec: OffsetSpec<T>, listing: seq<seq<T>>, offset: nat, size: nat)
    requires FillCountsRows(spec, listing)
    ensures Serve(listing)(offset, size) == Block(listing)(offset, offset + size)
    ensures Filled(spec, Block(listing)(offset, offset + size)) == Clip(offset + size, |listing|) - Clip(offset, |listing|)
  {
    FilledRows(spec, listing, Clip(offset, |listing|), Clip(offset + size, |listing|));
  }

  lemma PageReadsListing<T(!new)>(spec: OffsetSpec<T>, listing: seq<seq<T>>, offset: nat, size: nat)
    requires FillCountsRows(spec, listing) && spec.route.path != "" && size > 0
    ensures ComputeOffsetPage(spec, offset, size, Serve(listing)(offset, size)) ==
            Success(PageAt(spec, |listing|, Block(listing), offset, size))
  {
    FilledAt(spec, listing, offset, size);
    OffsetCursorRoundTrip(spec.route, offset + size, size);
  }

  /** A fetch that serves the page at every accessible position. */
  ghost predicate Reads<T(!new)>(fetch: Fetch<T>, spec: OffsetSpec<T>, pageSize: int, rows: nat, block: (nat, nat) -> seq<T>)
    requires spec.route.path != ""
  {
    forall k: nat, cursor: Option<Cursor> :: ReadAt(spec, pageSize, rows, block, cursor, fetch(k, cursor))
  }

  ghost predicate ReadAt<T>(spec: OffsetSpec<T>, pageSize: int, rows: nat, block: (nat, nat) -> seq<T>,
                            cursor: Option<Cursor>, answer: Result<Page<T>, Error>)
    requires spec.route.path != ""
  {
    match PositionOf(spec, pageSize, cursor)
    case Success((offset, size)) =>
      offset >= 0 && size > 0 && CheckWindow(spec, offset, size).None? ==>
        answer == Success(PageAt(spec, rows, block, offset, size))
    case Failure(_) => true
  }

  lemma OffsetFetchReads<T(!new)>(spec: OffsetSpec<T>, pageSize: int, listing: seq<seq<T>>)
    requires FillCountsRows(spec, listing) && spec.route.path != ""
    ensures Reads(OffsetFetch(spec, pageSize, listing), spec, pageSize, |listing|, Block(listing))
  {
    forall k: nat, cursor: Option<Cursor>
      ensures ReadAt(spec, pageSize, |listing|, Block(listing), cursor, OffsetFetch(spec, pageSize, listing)(k, cursor))
    {
      match PositionOf(spec, pageSize, cursor)
      case Success((offset, size)) =>
        if offset >= 0 && size > 0 {
          PageReadsListing(spec, listing, offset, size);
        }
      case Failure(_) =>
    }
  }

  lemma WindowStaysOpen<T>(spec: OffsetSpec<T>, rows: nat, block: (nat, nat) -> seq<T>, offset: nat, size: nat)
    requires spec.route.path != "" && size > 0
    requires CheckWindow(spec, offset, size).None? && !EndsWalk(PageAt(spec, rows, block, offset, size))
    ensures CheckWindow(spec, offset + size, size).None? && offset + size <= rows
  {}

  lemma ReadStep<T(!new)>(fetch: Fetch<T>, spec: OffsetSpec<T>, pageSize: int, rows: nat, block: (nat, nat) -> seq<T>,
                          g: Generator<T>, offset: nat, size: nat)
    requires spec.route.path != "" && size > 0 && Reads(fetch, spec, pageSize, rows, block)
    requires AboutToRead(spec, pageSize, g, offset, size)
    ensures var (after, event) := Resume(fetch, g);
            var page := PageAt(spec, rows, block, offset, size);
            && event == Yielded(page) && !after.finished && after.last == Some(page)
            && (!EndsWalk(page) ==> AboutToRead(spec, pageSize, after, offset + size, size))
  {
    if !EndsWalk(PageAt(spec, rows, block, offset, size)) {
      WindowStaysOpen(spec, rows, block, offset, size);
    }
    if g.last.None? {
      assert ReadAt(spec, pageSize, rows, block, g.cursor, fetch(|g.fetched|, g.cursor));
    } else {
      var c := EncodeOffset(spec.route, offset, size).value;
      OffsetCursorRoundTrip(spec.route, offset, size);
      assert c !in g.requested;
      assert ReadAt(spec, pageSize, rows, block, Some(c), fetch(|g.fetched|, Some(c)));
    }
  }

  /** A step that, about to read at an offset, yields the page there and then is about
      to read the next one or has nothing more. */
  ghost predicate StepReads<T(!new)>(step: Step<T>, spec: OffsetSpec<T>, pageSize: int, rows: nat,
                                     block: (nat, nat) -> seq<T>, size: nat)
    requires spec.route.path != "" && size > 0
  {
    && (forall g: Generator<T>, offset: nat {:trigger step(g), AboutToRead(spec, pageSize, g, offset, size)} |
          AboutToRead(spec, pageSize, g, offset, size) ::
          ReachedFrom(spec, pageSize, rows, block, offset, size, step(g)))
    && (forall g: Generator<T> | Exhausted(g) :: step(g).1 == Stopped)
  }

  ghost predicate Exhausted<T>(g: Generator<T>) {
    !g.finished && g.last.Some? && EndsWalk(g.last.value)
  }

  ghost predicate ReachedFrom<T>(spec: OffsetSpec<T>, pageSize: int, rows: nat, block: (nat, nat) -> seq<T>,
                                 offset: nat, size: nat, reached: (Generator<T>, Event<T>))
    requires spec.route.path != "" && size > 0
  {
    match reached
    case (after, event) =>
      var page := PageAt(spec, rows, block, offset, size);
      && event == Yielded(page)
      && if EndsWalk(page) then Exhausted(after)
         else AboutToRead(spec, pageSize, after, offset + size, size) && offset + size <= rows
  }

  lemma FetchStepReads<T(!new)>(fetch: Fetch<T>, spec: OffsetSpec<T>, pageSize: int, rows: nat,
                                block: (nat, nat) -> seq<T>, size: nat)
    requires spec.route.path != "" && size > 0 && Reads(fetch, spec, pageSize, rows, block)
    ensures StepReads(Stepper(fetch), spec, pageSize, rows, block, size)
  {
    forall g: Generator<T>, offset: nat | AboutToRead(spec, pageSize, g, offset, size)
      ensures ReachedFrom(spec, pageSize, rows, block, offset, size, Stepper(fetch)(g))
    {
      ReadStep(fetch, spec, pageSize, rows, block, g, offset, size);
    }
  }

  lemma {:induction false} WalkReadsPages<T(!new)>(step: Step<T>, spec: OffsetSpec<T>, pageSize: int,
                                                   rows: nat, block: (nat, nat) -> seq<T>,
                                                   g: Generator<T>, offset: nat, size: nat, n: nat)
    requires spec.route.path != "" && size > 0 && StepReads(step, spec, pageSize, rows, block, size)
    requires AboutToRead(spec, pageSize, g, offset, size)
    requires n >= 2 && n + offset >= rows + 2
    ensures Iterate(step, g, n).pages == PagesFrom(spec, rows, block, offset, size)
    ensures Iterate(step, g, n).end == Some(Stopped)
    decreases n
  {
    assert ReachedFrom(spec, pageSize, rows, block, offset, size, step(g));
    var after := step(g).0;
    if EndsWalk(PageAt(spec, rows, block, offset, size)) {
      assert step(after).1 == Stopped;
    } else {
      WalkReadsPages(step, spec, pageSize, rows, block, after, offset + size, size, n - 1);
    }
  }

  ghost function Items<T>(pages: seq<Page<T>>): seq<T> {
    if pages == [] then [] else pages[0].items + Items(pages[1..])
  }

  lemma ItemsNext<T>(page: Page<T>, rest: seq<Page<T>>)
    ensures Items([page] + rest) == page.items + Items(rest)
    ensures ([page] + rest)[|rest|] == if rest == [] then page else rest[|rest| - 1]
  {
    assert ([page] + rest)[1..] == rest;
  }

  /** Pages that deliver the listing from an offset, as far as the cap allows, and whose
      last one says whether it does. */
  ghost predicate Delivers<T>(spec: OffsetSpec<T>, rows: nat, block: (nat, nat) -> seq<T>, offset: nat, size: nat, pages: seq<Page<T>>)
    requires size > 0
  {
    var last := LastStart(rows, offset, size, spec.maxOffset);
    && pages != []
    && Items(pages) == block(offset, last + size)
    && (pages[|pages| - 1].limitReached <==> spec.maxOffset.Some? && last + size <= rows)
  }

  lemma {:induction false} PagesDeliver<T>(spec: OffsetSpec<T>, rows: nat, block: (nat, nat) -> seq<T>, offset: nat, size: nat)
    requires spec.route.path != "" && size > 0 && Joins(block)
    ensures Delivers(spec, rows, block, offset, size, PagesFrom(spec, rows, block, offset, size))
    decreases rows - offset
  {
    var page := PageAt(spec, rows, block, offset, size);
    if EndsWalk(page) {
      ItemsNext(page, []);
      assert page.items + [] == page.items;
    } else {
      PagesDeliver(spec, rows, block, offset + size, size);
      ItemsNext(page, PagesFrom(spec, rows, block, offset + size, size));
    }
  }

  /** From an accessible start the walk ends without an error and is exactly the listing:
      all of it when uncapped, else up to the last page within the cap, marked incomplete
      exactly when that page is full. */
  lemma OffsetWalkIsTheListing<T(!new)>(spec: OffsetSpec<T>, pageSize: int, listing: seq<seq<T>>,
                                        initial: Option<Cursor>, n: nat)
    requires FillCountsRows(spec, listing) && spec.route.path != "" && pageSize >= 1
    requires PositionOf(spec, pageSize, initial).Success?
    requires var (offset, size) := PositionOf(spec, pageSize, initial).value;
             CheckWindow(spec, offset, size).None?
    requires n >= |listing| + 2
    ensures var (offset, size) := PositionOf(spec, pageSize, initial).value;
            var w := Pull(OffsetFetch(spec, pageSize, listing), Start(initial), n);
            && offset >= 0 && size >= 1
            && w.end == Some(Stopped)
            && Delivers(spec, |listing|, Block(listing), offset, size, w.pages)
  {
    var (offset, size) := PositionOf(spec, pageSize, initial).value;
    OffsetWalkFrom(spec, pageSize, listing, initial, offset, size, n, Pull(OffsetFetch(spec, pageSize, listing), Start(initial), n));
  }

  lemma OffsetWalkFrom<T(!new)>(spec: OffsetSpec<T>, pageSize: int, listing: seq<seq<T>>, initial: Option<Cursor>,
                                offset: nat, size: nat, n: nat, w: Walk<T>)
    requires FillCountsRows(spec, listing) && spec.route.path != "" && size >= 1
    requires PositionOf(spec, pageSize, initial) == Success((offset, size)) && CheckWindow(spec, offset, size).None?
    requires n >= |listing| + 2 && w == Pull(OffsetFetch(spec, pageSize, listing), Start(initial), n)
    ensures w.end == Some(Stopped) && Delivers(spec, |listing|, Block(listing), offset, size, w.pages)
  {
    var fetch, block := OffsetFetch(spec, pageSize, listing), Block(listing);
    OffsetFetchReads(spec, pageSize, listing);
    FetchStepReads(fetch, spec, pageSize, |listing|, block, size);
    WalkReadsPages(Stepper(fetch), spec, pageSize, |listing|, block, Start(initial), offset, size, n);
    BlocksJoin(listing);
    PagesDeliver(spec, |listing|, block, offset, size);
  }

  lemma WholeBlock<T>(listing: seq<seq<T>>, end: nat)
    requires end >= |listing|
    ensures Block(listing)(0, end) == Flatten(listing)
  {
    assert Rows(listing, 0, end) == listing;
  }

  /** Uncapped, nothing is left out. */
  lemma UncappedWalkIsComplete<T(!new)>(spec: OffsetSpec<T>, pageSize: int, listing: seq<seq<T>>, n: nat)
    requires FillCountsRows(spec, listing) && spec.route.path != "" && pageSize >= 1
    requires spec.maxOffset.None? && (spec.maxPageSize.Some? ==> pageSize <= spec.maxPageSize.value)
    requires n >= |listing| + 2
    ensures var w := Pull(OffsetFetch(spec, pageSize, listing), Start<T>(None), n);
            && w.end == Some(Stopped) && w.pages != []
            && Items(w.pages) == Flatten(listing)
            && !w.pages[|w.pages| - 1].limitReached
  {
    OffsetWalkIsTheListing(spec, pageSize, listing, None, n);
    LastStartIsLast(|listing|, 0, pageSize, None);
    WholeBlock(listing, LastStart(|listing|, 0, pageSize, None) + pageSize);
  }

  /** The depth limit is raised exactly when the start itself lies past the cap. */
  lemma LimitRaisedIffStartsPastCap<T(!new)>(spec: OffsetSpec<T>, pageSize: int, listing: seq<seq<T>>,
                                             initial: Option<Cursor>, n: nat)
    requires FillCountsRows(spec, listing) && spec.route.path != "" && pageSize >= 1
    requires PositionOf(spec, pageSize, initial).Success?
    requires var (offset, size) := PositionOf(spec, pageSize, initial).value;
             spec.maxPageSize.Some? ==> size <= spec.maxPageSize.value
    requires n >= |listing| + 2
    ensures var (offset, size) := PositionOf(spec, pageSize, initial).value;
            Pull(OffsetFetch(spec, pageSize, listing), Start(initial), n).end == Some(Raised(LimitReached))
            <==> spec.maxOffset.Some? && offset > spec.maxOffset.value
  {
    var (offset, size) := PositionOf(spec, pageSize, initial).value;
    if CheckWindow(spec, offset, size).None? {
      OffsetWalkIsTheListing(spec, pageSize, listing, initial, n);
    }
  }

  /** A start whose page size is above the endpoint's maximum is refused before any request:
      the walk raises a user error and yields no page. */
  lemma OversizedPageIsRefused<T>(spec: OffsetSpec<T>, pageSize: int, listing: seq<seq<T>>, initial: Option<Cursor>,
                                  offset: int, size: int, n: nat)
    requires PositionOf(spec, pageSize, initial) == Success((offset, size)) && n > 0
    requires spec.maxPageSize.Some? && size > spec.maxPageSize.value
    ensures var w := Pull(OffsetFetch(spec, pageSize, listing), Start(initial), n);
            w.pages == [] && w.end == Some(Raised(UserInput))
  {}
}
