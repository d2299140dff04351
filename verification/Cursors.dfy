/** Pagination cursors: envelopes minted for one service, endpoint and query
    (src/polymarket/_internal/pagination.py). A cursor is what its text decodes to;
    a query is its fingerprint. */
module Cursors {
  import opened Wrappers

  datatype Json =
    | JNull
    | JBool(b: bool)
    | JInt(n: int)
    | JFloat(x: real)
    | JString(text: string)
    | JArray
    | JObject

  /** A decoded cursor: the keys any decoder looks at, null when missing, and whatever
      else its text holds. */
  datatype Cursor =
    | Undecodable(text: string)
    | NotAnObject(text: string)
    | Envelope(v: Json, svc: Json, p: Json, f: Json, o: Json, s: Json, k: Json, pg: Json, rest: string)

  datatype Route = Route(service: string, path: string, fingerprint: string)

  datatype Error =
    | InvalidCursor
    | UnsupportedVersion
    | WrongService
    | WrongEndpoint
    | WrongQuery
    | UserInput
    | LimitReached
    | MissingCursor
    | RepeatedCursor
    | Transport(reason: string)

  /** What Python's `== 1` accepts. */
  predicate IsVersionOne(j: Json) {
    j == JInt(1) || j == JBool(true) || j == JFloat(1.0)
  }

  /** The checks every decoder makes, in their order; None when the envelope passes. */
  function Refusal(cursor: Cursor, route: Route): Option<Error> {
    if !cursor.Envelope? then Some(InvalidCursor)
    else if !IsVersionOne(cursor.v) then Some(UnsupportedVersion)
    else if cursor.svc != JString(route.service) then Some(WrongService)
    else if cursor.p != JString(route.path) then Some(WrongEndpoint)
    else if cursor.f != JString(route.fingerprint) then Some(WrongQuery)
    else None
  }

  function Mint(route: Route, o: Json, s: Json, k: Json, pg: Json): Cursor {
    Envelope(JInt(1), JString(route.service), JString(route.path), JString(route.fingerprint), o, s, k, pg, "")
  }

  function EncodeOffset(route: Route, offset: int, pageSize: int): Result<Cursor, Error> {
    if route.path == "" || offset < 0 || pageSize < 1 then Failure(UserInput)
    else Success(Mint(route, JInt(offset), JInt(pageSize), JNull, JNull))
  }

  function DecodeOffset(cursor: Cursor, route: Route): Result<(int, int), Error> {
    var refusal := Refusal(cursor, route);
    if refusal.Some? then Failure(refusal.value)
    else if !cursor.o.JInt? || cursor.o.n < 0 then Failure(InvalidCursor)
    else if !cursor.s.JInt? || cursor.s.n < 1 then Failure(InvalidCursor)
    else Success((cursor.o.n, cursor.s.n))
  }

  function EncodeKeyset(route: Route, serverCursor: string): Result<Cursor, Error> {
    if route.path == "" || serverCursor == "" then Failure(UserInput)
    else Success(Mint(route, JNull, JNull, JString(serverCursor), JNull))
  }

  function DecodeKeyset(cursor: Cursor, route: Route): Result<string, Error> {
    var refusal := Refusal(cursor, route);
    if refusal.Some? then Failure(refusal.value)
    else if !cursor.k.JString? || cursor.k.text == "" then Failure(InvalidCursor)
    else Success(cursor.k.text)
  }

  function EncodePage(route: Route, page: int, pageSize: int): Result<Cursor, Error> {
    if route.path == "" || page < 1 || pageSize < 1 then Failure(UserInput)
    else Success(Mint(route, JNull, JInt(pageSize), JNull, JInt(page)))
  }

  function DecodePage(cursor: Cursor, route: Route): Result<(int, int), Error> {
    var refusal := Refusal(cursor, route);
    if refusal.Some? then Failure(refusal.value)
    else if !cursor.pg.JInt? || cursor.pg.n < 1 then Failure(InvalidCursor)
    else if !cursor.s.JInt? || cursor.s.n < 1 then Failure(InvalidCursor)
    else Success((cursor.pg.n, cursor.s.n))
  }

  function CursorPath(cursor: Cursor): Result<string, Error> {
    if !cursor.Envelope? || !cursor.p.JString? || cursor.p.text == "" then Failure(InvalidCursor)
    else Success(cursor.p.text)
  }

  // The three kinds refuse each other, and every kind refuses a foreign route.

  datatype Position =
    | AtOffset(offset: int, pageSize: int)
    | AtKey(serverCursor: string)
    | AtPage(page: int, pageSize: int)

  function Encode(route: Route, position: Position): Result<Cursor, Error> {
    match position
    case AtOffset(offset, pageSize) => EncodeOffset(route, offset, pageSize)
    case AtKey(serverCursor) => EncodeKeyset(route, serverCursor)
    case AtPage(page, pageSize) => EncodePage(route, page, pageSize)
  }

  /** The error a cursor minted for `minted` meets under `route`, before its position. */
  function ForeignError(minted: Route, route: Route): Option<Error> {
    if minted.service != route.service then Some(WrongService)
    else if minted.path != route.path then Some(WrongEndpoint)
    else if minted.fingerprint != route.fingerprint then Some(WrongQuery)
    else None
  }

  /** What a decoder of one kind must answer. */
  ghost predicate Answers<T>(decoded: Result<T, Error>, minted: Route, route: Route, own: Option<T>) {
    decoded ==
    if ForeignError(minted, route).Some? then Failure(ForeignError(minted, route).value)
    else if own.Some? then Success(own.value)
    else Failure(InvalidCursor)
  }

  /** Each cursor decodes to exactly what was encoded under its own route and decoder,
      and every other decoder, service, path or fingerprint refuses it. */
  lemma EnvelopesRoundTrip(minted: Route, position: Position, route: Route)
    requires Encode(minted, position).Success?
    ensures var c := Encode(minted, position).value;
            && Answers(DecodeOffset(c, route), minted, route,
                       if position.AtOffset? then Some((position.offset, position.pageSize)) else None)
            && Answers(DecodeKeyset(c, route), minted, route,
                       if position.AtKey? then Some(position.serverCursor) else None)
            && Answers(DecodePage(c, route), minted, route,
                       if position.AtPage? then Some((position.page, position.pageSize)) else None)
            && CursorPath(c) == Success(minted.path)
  {
    var c := Encode(minted, position).value;
    EnvelopeRefusal(minted, position, route);
    match position
    case AtOffset(offset, pageSize) =>
    case AtKey(serverCursor) =>
    case AtPage(page, pageSize) =>
  }

  lemma EnvelopeRefusal(minted: Route, position: Position, route: Route)
    requires Encode(minted, position).Success?
    ensures Refusal(Encode(minted, position).value, route) == ForeignError(minted, route)
  {}

  ghost predicate Decodes(c: Cursor, route: Route, position: Position) {
    match position
    case AtOffset(offset, pageSize) => DecodeOffset(c, route) == Success((offset, pageSize))
    case AtKey(serverCursor) => DecodeKeyset(c, route) == Success(serverCursor)
    case AtPage(page, pageSize) => DecodePage(c, route) == Success((page, pageSize))
  }

  /** Encoders and decoders agree on the positions there are: under a route with a path,
      a position can be encoded exactly when some cursor decodes to it. */
  lemma EncodableIffDecodable(route: Route, position: Position)
    ensures Encode(route, position).Success? <==> route.path != "" && exists c :: Decodes(c, route, position)
  {
    if Encode(route, position).Success? {
      EnvelopesRoundTrip(route, position, route);
      assert Decodes(Encode(route, position).value, route, position);
    }
  }

  /** A cursor of another version is refused by every decoder, even under its own route. */
  lemma OtherVersionsAreRefused(route: Route, position: Position, version: Json)
    requires Encode(route, position).Success?
    requires version != JInt(1) && version != JBool(true) && version != JFloat(1.0)
    ensures var c := Encode(route, position).value.(v := version);
            && DecodeOffset(c, route) == Failure(UnsupportedVersion)
            && DecodeKeyset(c, route) == Failure(UnsupportedVersion)
            && DecodePage(c, route) == Failure(UnsupportedVersion)
  {}

  /** A text that does not decode to an object is refused by every decoder. */
  lemma MalformedIsRefused(text: string, route: Route)
    ensures forall c | c in {Undecodable(text), NotAnObject(text)} ::
              && DecodeOffset(c, route) == Failure(InvalidCursor) && DecodeKeyset(c, route) == Failure(InvalidCursor)
              && DecodePage(c, route) == Failure(InvalidCursor) && CursorPath(c) == Failure(InvalidCursor)
  {}

  /** Different positions or routes never share a cursor. */
  lemma EncodeInjective(r1: Route, p1: Position, r2: Route, p2: Position)
    requires Encode(r1, p1).Success? && Encode(r1, p1) == Encode(r2, p2)
    ensures r1 == r2 && p1 == p2
  {
    EnvelopesRoundTrip(r1, p1, r1);
    EnvelopesRoundTrip(r2, p2, r1);
  }

  lemma OffsetCursorRoundTrip(route: Route, offset: int, pageSize: int)
    requires route.path != "" && offset >= 0 && pageSize >= 1
    ensures EncodeOffset(route, offset, pageSize).Success?
    ensures DecodeOffset(EncodeOffset(route, offset, pageSize).value, route) == Success((offset, pageSize))
  {
    EnvelopesRoundTrip(route, AtOffset(offset, pageSize), route);
  }
}
