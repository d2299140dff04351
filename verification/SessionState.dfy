/** The Perps session between awaits: its state and what one uninterrupted step does
    to it (src/polymarket/_internal/perps_session.py). */
module SessionState {
  import opened Wrappers

  const QUEUE_SIZE: nat := 1024
  const SERVER_RESYNC_CHANNELS: set<string> := {"notifications", "builderFills"}

  datatype ResyncReason = Reconnected | SequenceGap | ServerReport

  datatype Event =
    | Update(channel: string, sequence: int, payload: int)
    | Resync(reason: ResyncReason, channelName: Option<string>, previous: Option<int>, next: Option<int>)

  /** What the server can send: a channel update, or its own report of lost frames. */
  datatype Wire =
    | WireUpdate(channel: string, sequence: int, payload: int)
    | WireResync(channel: string, sequence: int)

  datatype Item = Queued(event: Event) | End

  datatype Error = ConnectionClosed | SessionClosed | RequestRejected(text: string) | UnexpectedResponse(text: string)

  datatype Future<T> = Waiting | Done(value: T) | Failed(error: Error) | Cancelled

  /** A waiter's predicate may raise; that counts as no match. */
  datatype Verdict = Matches | Differs | Raises

  datatype Waiter = Waiter(key: nat, test: Event -> Verdict)

  /** The answer to a request, with the error acknowledgement it carries, if any. */
  datatype Answer = Answer(body: string, errorAck: Option<string>)

  datatype Parsed =
    | Parsed(value: string)
    | ParsedRejection(text: string)
    | ParsedUnexpected(text: string)
    | ParseFailed

  type Parser = string -> Parsed

  datatype Session = Session(
    queue: seq<Item>,
    dropped: nat,
    ended: bool,
    sequences: map<string, int>,
    waiters: seq<Waiter>,
    waiterFutures: seq<Future<Event>>,
    pending: map<int, Parser>,
    requestFutures: map<int, Future<string>>,
    nextRequestId: int,
    closed: bool)

  const INITIAL := Session([], 0, false, map[], [], [], map[], map[], 1, false)

  /** One step between awaits. */
  datatype Atom =
    | Response(id: int, answer: Answer)
    | Arrival(wire: Wire)
    | Noise
    | Reconnect
    | Lost
    | StartClose
    | FinishClose
    | StartRequest(parse: Parser)
    | CancelRequest(requestId: int)
    | Unwind(requestId: int)
    | Register(test: Event -> Verdict)
    | RemoveWaiter(key: nat)
    | CancelWaiter(key: nat)
    | Take

  // Sequence tracking.

  function Gap(channel: string, previous: int, next: int): Event {
    Resync(SequenceGap, Some(channel), Some(previous), Some(next))
  }

  const RECONNECTED := Resync(Reconnected, None, None, None)

  function EventOf(wire: Wire): Event {
    match wire
    case WireUpdate(channel, sequence, payload) => Update(channel, sequence, payload)
    case WireResync(channel, sequence) => Resync(ServerReport, Some(channel), None, Some(sequence))
  }

  predicate Tracked(channel: string) {
    channel !in SERVER_RESYNC_CHANNELS
  }

  function TrackedSequences(sequences: map<string, int>, wire: Wire): map<string, int> {
    if wire.WireUpdate? && Tracked(wire.channel) then sequences[wire.channel := wire.sequence] else sequences
  }

  /** The events one frame emits: its own, after a gap marker if it does not follow on. */
  function Emissions(sequences: map<string, int>, wire: Wire): seq<Event> {
    if wire.WireUpdate? && Tracked(wire.channel) && wire.channel in sequences
       && wire.sequence != sequences[wire.channel] + 1
    then [Gap(wire.channel, sequences[wire.channel], wire.sequence), EventOf(wire)]
    else [EventOf(wire)]
  }

  // The event queue.

  function Push(s: Session, event: Event): Session {
    if s.ended then s
    else if |s.queue| < QUEUE_SIZE then s.(queue := s.queue + [Queued(event)])
    else s.(queue := s.queue[1..] + [Queued(event)], dropped := s.dropped + 1)
  }

  function Finish(s: Session): Session {
    if s.ended then s
    else if |s.queue| < QUEUE_SIZE then s.(queue := s.queue + [End], ended := true)
    else s.(queue := s.queue[1..] + [End], ended := true)
  }

  // Event waiters.

  function Notify(waiters: seq<Waiter>, futures: seq<Future<Event>>, event: Event): (r: seq<Future<Event>>)
    ensures |r| == |futures|
  {
    if waiters == [] then futures
    else
      var before := Notify(waiters[..|waiters| - 1], futures, event);
      var waiter := waiters[|waiters| - 1];
      if waiter.test(event).Matches? && waiter.key < |before| && before[waiter.key].Waiting?
      then before[waiter.key := Done(event)]
      else before
  }

  function Emit(s: Session, event: Event): Session {
    Push(s.(waiterFutures := Notify(s.waiters, s.waiterFutures, event)), event)
  }

  function EmitAll(s: Session, events: seq<Event>): Session
    decreases |events|
  {
    if events == [] then s else EmitAll(Emit(s, events[0]), events[1..])
  }

  function RejectWaiters(s: Session, error: Error): Session {
    s.(waiters := [], waiterFutures := FailListed(s.waiters, s.waiterFutures, error))
  }

  function FailListed(waiters: seq<Waiter>, futures: seq<Future<Event>>, error: Error): (r: seq<Future<Event>>)
    ensures |r| == |futures|
  {
    if waiters == [] then futures
    else
      var before := FailListed(waiters[..|waiters| - 1], futures, error);
      var key := waiters[|waiters| - 1].key;
      if key < |before| && before[key].Waiting? then before[key := Failed(error)] else before
  }

  function Without(waiters: seq<Waiter>, key: nat): seq<Waiter> {
    if waiters == [] then []
    else if waiters[0].key == key then waiters[1..]
    else [waiters[0]] + Without(waiters[1..], key)
  }

  function CancelAt(futures: seq<Future<Event>>, key: nat): seq<Future<Event>> {
    if key < |futures| && futures[key].Waiting? then futures[key := Cancelled] else futures
  }

  // Requests.

  function Resolution(parse: Parser, answer: Answer): Future<string> {
    match parse(answer.body)
    case Parsed(value) => Done(value)
    case ParsedRejection(text) => Failed(RequestRejected(text))
    case ParsedUnexpected(text) =>
      if answer.errorAck.Some? then Failed(RequestRejected(answer.errorAck.value))
      else Failed(UnexpectedResponse(text))
    case ParseFailed =>
      if answer.errorAck.Some? then Failed(RequestRejected(answer.errorAck.value))
      else Failed(UnexpectedResponse("Perps session unexpected response."))
  }

  function Settle(futures: map<int, Future<string>>, id: int, outcome: Future<string>): map<int, Future<string>> {
    if id in futures && futures[id].Waiting? then futures[id := outcome] else futures
  }

  function HandleResponse(s: Session, id: int, answer: Answer): Session {
    if id !in s.pending then s
    else s.(pending := s.pending - {id},
            requestFutures := Settle(s.requestFutures, id, Resolution(s.pending[id], answer)))
  }

  function FailPending(pending: map<int, Parser>, futures: map<int, Future<string>>, error: Error): map<int, Future<string>> {
    map id | id in futures :: if id in pending && futures[id].Waiting? then Failed(error) else futures[id]
  }

  function RejectPending(s: Session, error: Error): Session {
    s.(pending := map[], requestFutures := FailPending(s.pending, s.requestFutures, error))
  }

  // Steps.

  function Step(s: Session, atom: Atom): Session {
    match atom
    case Response(id, answer) => HandleResponse(s, id, answer)
    case Arrival(wire) =>
      EmitAll(s.(sequences := TrackedSequences(s.sequences, wire)), Emissions(s.sequences, wire))
    case Noise => s
    case Reconnect => Push(s.(sequences := map[]), RECONNECTED)
    case Lost => RejectWaiters(RejectPending(s, ConnectionClosed), ConnectionClosed)
    case StartClose => s.(closed := true)
    case FinishClose => Finish(RejectWaiters(RejectPending(s, SessionClosed), SessionClosed))
    case StartRequest(parse) =>
      var id := s.nextRequestId;
      if s.closed then s.(nextRequestId := id + 1)
      else s.(nextRequestId := id + 1, pending := s.pending[id := parse], requestFutures := s.requestFutures[id := Waiting])
    case CancelRequest(id) =>
      if id in s.pending then s.(requestFutures := Settle(s.requestFutures, id, Cancelled)) else s
    case Unwind(id) => s.(pending := s.pending - {id})
    case Register(test) =>
      s.(waiters := s.waiters + [Waiter(|s.waiterFutures|, test)], waiterFutures := s.waiterFutures + [Waiting])
    case RemoveWaiter(key) =>
      s.(waiters := Without(s.waiters, key), waiterFutures := CancelAt(s.waiterFutures, key))
    case CancelWaiter(key) => s.(waiterFutures := CancelAt(s.waiterFutures, key))
    case Take => if s.queue == [] then s else s.(queue := s.queue[1..])
  }

  function Run(s: Session, atoms: seq<Atom>): Session
    decreases |atoms|
  {
    if atoms == [] then s else Run(Step(s, atoms[0]), atoms[1..])
  }

  lemma {:induction false} RunConcat(s: Session, a: seq<Atom>, b: seq<Atom>)
    ensures Run(s, a + b) == Run(Run(s, a), b)
    decreases |a|
  {
    if a == [] {
      assert a + b == b;
    } else {
      RunConcat(Step(s, a[0]), a[1..], b);
      assert (a + b)[1..] == a[1..] + b;
    }
  }

  // Nested batches.

  /** A received message: a batch, an answer to a request, or a frame that parses to an
      event or to nothing. */
  datatype Message =
    | Batch(messages: seq<Message>)
    | AnswerMessage(id: int, answer: Answer)
    | Frame(parsed: Option<Wire>)

  function Flatten(m: Message): seq<Atom> {
    match m
    case Batch(messages) => FlattenAll(messages)
    case AnswerMessage(id, answer) => [Response(id, answer)]
    case Frame(parsed) => [if parsed.Some? then Arrival(parsed.value) else Noise]
  }

  function FlattenAll(messages: seq<Message>): seq<Atom> {
    if messages == [] then []
    else FlattenAll(messages[..|messages| - 1]) + Flatten(messages[|messages| - 1])
  }

  /** Batches flatten piece by piece: however messages are grouped into batches, they act
      in the order received. */
  lemma {:induction false} FlattenConcat(a: seq<Message>, b: seq<Message>)
    ensures FlattenAll(a + b) == FlattenAll(a) + FlattenAll(b)
    decreases |b|
  {
    if b == [] {
      assert a + b == a;
    } else {
      assert (a + b)[..|a + b| - 1] == a + b[..|b| - 1];
      FlattenConcat(a, b[..|b| - 1]);
    }
  }

  lemma GroupingIsIrrelevant(a: seq<Message>, b: seq<Message>)
    ensures Flatten(Batch(a + b)) == Flatten(Batch(a)) + Flatten(Batch(b))
    ensures Flatten(Batch([Batch(a), Batch(b)])) == Flatten(Batch(a + b))
  {
    FlattenConcat(a, b);
    FlattenConcat([Batch(a)], [Batch(b)]);
    assert [Batch(a)] + [Batch(b)] == [Batch(a), Batch(b)];
    assert [Batch(a)][..0] == [] && [Batch(b)][..0] == [];
    assert FlattenAll([Batch(a)]) == [] + Flatten(Batch(a));
    assert FlattenAll([Batch(b)]) == [] + Flatten(Batch(b));
  }

  // What every step keeps.

  /** Waiters are listed in the order they were registered, each once. */
  ghost predicate WaitersValid(s: Session) {
    && (forall i, j | 0 <= i < j < |s.waiters| :: s.waiters[i].key < s.waiters[j].key)
    && (forall i | 0 <= i < |s.waiters| :: s.waiters[i].key < |s.waiterFutures|)
  }

  /** A pending request was issued, and no issued id is still to come. */
  ghost predicate RequestsValid(s: Session) {
    && (forall id | id in s.pending :: id in s.requestFutures)
    && (forall id | id in s.requestFutures :: id < s.nextRequestId)
  }

  ghost predicate Valid(s: Session) {
    |s.queue| <= QUEUE_SIZE && WaitersValid(s) && RequestsValid(s)
  }

  lemma {:induction false} EmitAllOnly(s: Session, events: seq<Event>)
    ensures var r := EmitAll(s, events);
            && r.sequences == s.sequences && r.waiters == s.waiters && r.closed == s.closed && r.ended == s.ended
            && |r.waiterFutures| == |s.waiterFutures|
            && r.pending == s.pending && r.requestFutures == s.requestFutures && r.nextRequestId == s.nextRequestId
            && (|s.queue| <= QUEUE_SIZE ==> |r.queue| <= QUEUE_SIZE)
    decreases |events|
  {
    if events == [] {
    } else {
      EmitAllOnly(Emit(s, events[0]), events[1..]);
    }
  }

  lemma {:induction false} WithoutKeepsOrder(waiters: seq<Waiter>, key: nat)
    requires forall i, j | 0 <= i < j < |waiters| :: waiters[i].key < waiters[j].key
    ensures forall i, j | 0 <= i < j < |Without(waiters, key)| :: Without(waiters, key)[i].key < Without(waiters, key)[j].key
    ensures forall w :: w in Without(waiters, key) <==> w in waiters && w.key != key
  {
    if waiters != [] && waiters[0].key != key {
      WithoutKeepsOrder(waiters[1..], key);
      forall w | w in Without(waiters[1..], key) ensures waiters[0].key < w.key {
        var i :| 0 <= i < |waiters[1..]| && waiters[1..][i] == w;
      }
    }
  }

  lemma ArrivalOnly(s: Session, wire: Wire)
    ensures var r := Step(s, Arrival(wire));
            && r.sequences == TrackedSequences(s.sequences, wire)
            && r.waiters == s.waiters && r.closed == s.closed && r.ended == s.ended
            && |r.waiterFutures| == |s.waiterFutures|
            && r.pending == s.pending && r.requestFutures == s.requestFutures && r.nextRequestId == s.nextRequestId
            && (|s.queue| <= QUEUE_SIZE ==> |r.queue| <= QUEUE_SIZE)
  {
    EmitAllOnly(s.(sequences := TrackedSequences(s.sequences, wire)), Emissions(s.sequences, wire));
  }

  lemma RemovalKeepsWaiters(s: Session, key: nat)
    requires WaitersValid(s)
    ensures WaitersValid(Step(s, RemoveWaiter(key)))
  {
    WithoutKeepsOrder(s.waiters, key);
    var left := Without(s.waiters, key);
    forall i | 0 <= i < |left| ensures left[i].key < |s.waiterFutures| {
      assert left[i] in s.waiters;
    }
  }

  lemma RegistrationKeepsWaiters(s: Session, test: Event -> Verdict)
    requires WaitersValid(s)
    ensures WaitersValid(Step(s, Register(test)))
  {
    assert Step(s, Register(test)).waiters == s.waiters + [Waiter(|s.waiterFutures|, test)];
  }

  lemma ArrivalKeepsWaiters(s: Session, wire: Wire)
    requires WaitersValid(s)
    ensures WaitersValid(Step(s, Arrival(wire)))
  {
    ArrivalOnly(s, wire);
  }

  lemma StepKeepsWaiters(s: Session, atom: Atom)
    requires WaitersValid(s)
    ensures WaitersValid(Step(s, atom))
  {
    match atom
    case Arrival(wire) => ArrivalKeepsWaiters(s, wire);
    case RemoveWaiter(key) => RemovalKeepsWaiters(s, key);
    case Register(test) => RegistrationKeepsWaiters(s, test);
    case _ => assert Step(s, atom).waiters == s.waiters || Step(s, atom).waiters == [];
  }

  lemma StepKeepsRequests(s: Session, atom: Atom)
    requires RequestsValid(s)
    ensures RequestsValid(Step(s, atom))
  {
    if atom.Arrival? {
      ArrivalOnly(s, atom.wire);
    }
  }

  lemma StepKeepsCapacity(s: Session, atom: Atom)
    requires |s.queue| <= QUEUE_SIZE
    ensures |Step(s, atom).queue| <= QUEUE_SIZE
  {
    if atom.Arrival? {
      ArrivalOnly(s, atom.wire);
    }
  }

  lemma StepKeepsValid(s: Session, atom: Atom)
    requires Valid(s)
    ensures Valid(Step(s, atom))
  {
    StepKeepsCapacity(s, atom);
    StepKeepsWaiters(s, atom);
    StepKeepsRequests(s, atom);
  }

  lemma {:induction false} RunKeepsValid(s: Session, atoms: seq<Atom>)
    requires Valid(s)
    ensures Valid(Run(s, atoms))
    decreases |atoms|
  {
    if atoms == [] {
    } else {
      StepKeepsValid(s, atoms[0]);
      RunKeepsValid(Step(s, atoms[0]), atoms[1..]);
    }
  }
}
