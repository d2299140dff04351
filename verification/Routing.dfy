/** A listing served from two endpoints: new walks page by server cursor, and cursors
    saved from offset pages finish on offset pages (src/polymarket/_internal/dispatch.py). */
module Routing {
  import opened Wrappers
  import opened Cursors
  import opened PageWalk
  import opened OffsetWalk

  datatype KeysetReply<+T> = KeysetReply(items: seq<T>, next: Option<string>) | Refused(error: Error)

  function ComputeKeysetPage<T>(route: Route, items: seq<T>, next: Option<string>): Result<Page<T>, Error> {
    match next
    case None => Success(Page(items, false, None, false))
    case Some(serverCursor) =>
      match EncodeKeyset(route, serverCursor)
      case Success(cursor) => Success(Page(items, true, Some(cursor), false))
      case Failure(error) => Failure(error)
  }

  function FetchKeyset<T>(route: Route, serve: Option<string> -> KeysetReply<T>, cursor: Option<Cursor>): Result<Page<T>, Error> {
    var position := if cursor.None? then Success(None)
                    else match DecodeKeyset(cursor.value, route)
                         case Success(serverCursor) => Success(Some(serverCursor))
                         case Failure(error) => Failure(error);
    match position
    case Failure(error) => Failure(error)
    case Success(serverCursor) =>
      match serve(serverCursor)
      case Refused(error) => Failure(error)
      case KeysetReply(items, next) => ComputeKeysetPage(route, items, next)
  }

  /** The endpoints behind the listing; what they serve may change between requests. */
  datatype Endpoints<!T> = Endpoints(
    keyset: Route,
    offset: OffsetSpec<T>,
    pageSize: int,
    serveKeyset: (nat, Option<string>) -> KeysetReply<T>,
    serveOffset: nat -> ((int, int) -> seq<T>))

  function FetchEither<T>(e: Endpoints<T>, k: nat, cursor: Option<Cursor>): Result<Page<T>, Error> {
    var byKeyset := FetchKeyset(e.keyset, (c: Option<string>) => e.serveKeyset(k, c), cursor);
    if cursor.None? then byKeyset
    else
      match CursorPath(cursor.value)
      case Failure(error) => Failure(error)
      case Success(path) =>
        if path == e.offset.route.path then FetchOffset(e.offset, e.pageSize, e.serveOffset(k), cursor)
        else byKeyset
  }

  function EitherFetch<T>(e: Endpoints<T>): Fetch<T> {
    (k: nat, cursor: Option<Cursor>) => FetchEither(e, k, cursor)
  }

  datatype Kind = ByKeyset | ByOffset

  /** The endpoint a request goes to. */
  function KindOf<T>(e: Endpoints<T>, cursor: Option<Cursor>): Kind {
    if cursor.Some? && CursorPath(cursor.value) == Success(e.offset.route.path) then ByOffset else ByKeyset
  }

  /** The server's cursor is handed back unchanged on the next request. */
  lemma KeysetContinuesVerbatim<T>(route: Route, items: seq<T>, next: Option<string>)
    requires ComputeKeysetPage(route, items, next).Success?
    ensures var page := ComputeKeysetPage(route, items, next).value;
            && page.items == items && !page.limitReached
            && (page.hasMore <==> next.Some?) && (page.nextCursor.Some? <==> next.Some?)
            && (next.Some? ==>
                  && DecodeKeyset(page.nextCursor.value, route) == Success(next.value)
                  && CursorPath(page.nextCursor.value) == Success(route.path))
  {
    if next.Some? {
      EnvelopesRoundTrip(route, AtKey(next.value), route);
    }
  }

  lemma OffsetContinues<T>(spec: OffsetSpec<T>, offset: int, pageSize: int, items: seq<T>)
    requires ComputeOffsetPage(spec, offset, pageSize, items).Success?
    ensures var page := ComputeOffsetPage(spec, offset, pageSize, items).value;
            page.nextCursor.Some? ==>
              && DecodeOffset(page.nextCursor.value, spec.route) == Success((offset + pageSize, pageSize))
              && CursorPath(page.nextCursor.value) == Success(spec.route.path)
  {
    var page := ComputeOffsetPage(spec, offset, pageSize, items).value;
    if page.nextCursor.Some? {
      EnvelopesRoundTrip(spec.route, AtOffset(offset + pageSize, pageSize), spec.route);
    }
  }

  /** A page's cursor leads back to the endpoint that served the page. */
  lemma PageStaysOnRoute<T>(e: Endpoints<T>, k: nat, cursor: Option<Cursor>)
    requires e.keyset.path != e.offset.route.path
    requires FetchEither(e, k, cursor).Success?
    ensures var page := FetchEither(e, k, cursor).value;
            page.nextCursor.Some? ==> KindOf(e, page.nextCursor) == KindOf(e, cursor)
  {
    if KindOf(e, cursor) == ByOffset {
      var (offset, size) := DecodeOffset(cursor.value, e.offset.route).value;
      OffsetContinues(e.offset, offset, size, e.serveOffset(k)(offset, size));
    } else {
      var serverCursor := if cursor.None? then None else Some(DecodeKeyset(cursor.value, e.keyset).value);
      var reply := e.serveKeyset(k, serverCursor);
      KeysetContinuesVerbatim(e.keyset, reply.items, reply.next);
    }
  }

  /** A cursor that names no endpoint reaches neither: it is invalid, not foreign. */
  lemma PathlessCursorIsRefused<T>(e: Endpoints<T>, k: nat, cursor: Cursor)
    requires cursor.Envelope? ==> cursor.p == JString("") || forall path :: cursor.p != JString(path)
    ensures FetchEither(e, k, Some(cursor)) == Failure(InvalidCursor)
  {}

  /** Where the next request goes, if there is one. */
  ghost predicate NextGoesTo<T>(e: Endpoints<T>, g: Generator<T>, kind: Kind) {
    match g.last
    case None => KindOf(e, g.cursor) == kind
    case Some(page) => page.nextCursor.Some? ==> KindOf(e, page.nextCursor) == kind
  }

  ghost predicate AllWentTo<T>(e: Endpoints<T>, asked: seq<Option<Cursor>>, kind: Kind) {
    forall i | 0 <= i < |asked| :: KindOf(e, asked[i]) == kind
  }

  lemma StepStaysOnRoute<T>(e: Endpoints<T>, g: Generator<T>, kind: Kind)
    requires e.keyset.path != e.offset.route.path
    requires NextGoesTo(e, g, kind) && AllWentTo(e, g.fetched, kind)
    ensures var after := Resume(EitherFetch(e), g).0;
            NextGoesTo(e, after, kind) && AllWentTo(e, after.fetched, kind)
  {
    var cursor := if g.last.None? then g.cursor else g.last.value.nextCursor;
    if FetchEither(e, |g.fetched|, cursor).Success? {
      PageStaysOnRoute(e, |g.fetched|, cursor);
    }
  }

  lemma {:induction false} RouteKept<T>(e: Endpoints<T>, g: Generator<T>, n: nat, kind: Kind)
    requires e.keyset.path != e.offset.route.path
    requires NextGoesTo(e, g, kind) && AllWentTo(e, g.fetched, kind)
    ensures AllWentTo(e, Pull(EitherFetch(e), g, n).generator.fetched, kind)
    decreases n
  {
    if n == 0 {
    } else {
      StepStaysOnRoute(e, g, kind);
      RouteKept(e, Resume(EitherFetch(e), g).0, n - 1, kind);
    }
  }

  /** Whatever the servers answer, a walk never switches endpoint midway. */
  lemma WalkNeverSwitches<T>(e: Endpoints<T>, initial: Option<Cursor>, n: nat)
    requires e.keyset.path != e.offset.route.path
    ensures AllWentTo(e, Pull(EitherFetch(e), Start<T>(initial), n).generator.fetched, KindOf(e, initial))
  {
    RouteKept(e, Start<T>(initial), n, KindOf(e, initial));
  }

  /** The two paths must differ: exactly then does a keyset page lead to another keyset
      request; with a shared path its cursor is sent to offset paging, which refuses it. */
  lemma KeysetContinuesIffPathsDiffer<T>(e: Endpoints<T>, k: nat)
    requires FetchEither(e, 0, None).Success? && FetchEither(e, 0, None).value.hasMore
    ensures var cursor := FetchEither(e, 0, None).value.nextCursor;
            && (KindOf(e, cursor) == ByKeyset <==> e.keyset.path != e.offset.route.path)
            && (e.keyset.path == e.offset.route.path ==> FetchEither(e, k, cursor).Failure?)
  {
    var reply := e.serveKeyset(0, None);
    KeysetContinuesVerbatim(e.keyset, reply.items, reply.next);
    EnvelopesRoundTrip(e.keyset, AtKey(reply.next.value), e.offset.route);
  }
}
