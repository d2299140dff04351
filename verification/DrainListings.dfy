/** Draining a fixed offset listing (src/polymarket/pagination.py,
    src/polymarket/_internal/dispatch.py). */
module DrainListings {
  import opened Wrappers
  import opened Cursors
  import opened PageWalk
  import opened OffsetWalk
  import opened Drain

  /** The drained items and the verdict, for the rows from an offset to where the walk ends. */
  ghost predicate DrainsFrom<T>(spec: OffsetSpec<T>, rows: nat, block: (nat, nat) -> seq<T>, offset: nat, size: nat,
                                limit: Option<int>, result: Result<Drained<T>, Error>)
    requires size > 0
  {
    var end := LastStart(rows, offset, size, spec.maxOffset) + size;
    Drains(limit, block(offset, end), spec.maxOffset.Some? && end <= rows, result)
  }

  lemma DeliveredDrains<T>(spec: OffsetSpec<T>, rows: nat, block: (nat, nat) -> seq<T>, offset: nat, size: nat,
                           limit: Option<int>, w: Walk<T>, result: Result<Drained<T>, Error>)
    requires size > 0 && Delivers(spec, rows, block, offset, size, w.pages) && w.end == Some(Stopped)
    requires limit.Some? ==> limit.value > 0
    ensures Reports(limit, w, result) ==> DrainsFrom(spec, rows, block, offset, size, limit, result)
  {
    if Reports(limit, w, result) {
      var end := LastStart(rows, offset, size, spec.maxOffset) + size;
      ReportOfWholeWalk(limit, w, block(offset, end), spec.maxOffset.Some? && end <= rows, result);
    }
  }

  /** Draining a fixed listing from an accessible position: the first `limit` items up to
      the last page within the cap, truncated exactly when there are more or that page is
      full. */
  lemma DrainOfListing<T(!new)>(spec: OffsetSpec<T>, pageSize: int, listing: seq<seq<T>>, initial: Option<Cursor>,
                                offset: nat, size: nat, limit: Option<int>, n: nat, w: Walk<T>,
                                block: (nat, nat) -> seq<T>, result: Result<Drained<T>, Error>)
    requires FillCountsRows(spec, listing) && spec.route.path != "" && block == Block(listing)
    requires PositionOf(spec, pageSize, initial) == Success((offset, size)) && size >= 1
    requires CheckWindow(spec, offset, size).None?
    requires n >= |listing| + 2 && w == Pull(OffsetFetch(spec, pageSize, listing), Start(initial), n)
    requires limit.Some? ==> limit.value > 0
    ensures Reports(limit, w, result) ==> DrainsFrom(spec, |listing|, block, offset, size, limit, result)
  {
    OffsetWalkFrom(spec, pageSize, listing, initial, offset, size, n, w);
    DeliveredDrains(spec, |listing|, block, offset, size, limit, w, result);
  }

  /** Draining an uncapped listing from the start: its first `limit` items, truncated
      exactly when it holds more. */
  lemma DrainOfWholeListing<T(!new)>(spec: OffsetSpec<T>, pageSize: int, listing: seq<seq<T>>, limit: Option<int>, n: nat,
                                     result: Result<Drained<T>, Error>)
    requires FillCountsRows(spec, listing) && spec.route.path != "" && pageSize >= 1
    requires spec.maxOffset.None? && (spec.maxPageSize.Some? ==> pageSize <= spec.maxPageSize.value)
    requires n >= |listing| + 2 && (limit.Some? ==> limit.value > 0)
    ensures Reports(limit, Pull(OffsetFetch(spec, pageSize, listing), Start<T>(None), n), result) ==>
              Drains(limit, Flatten(listing), false, result)
  {
    var w := Pull(OffsetFetch(spec, pageSize, listing), Start<T>(None), n);
    UncappedWalkIsComplete(spec, pageSize, listing, n);
    if Reports(limit, w, result) {
      ReportOfWholeWalk(limit, w, Flatten(listing), false, result);
    }
  }
}
