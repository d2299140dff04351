/** The session object, its fields updated in place, proved step by step against
    SessionState (src/polymarket/_internal/perps_session.py). */
module PerpsSession {
  import opened Wrappers
  import opened SessionState

  /** One pending request after another, in no particular order. */
  method FailEach(pending: map<int, Parser>, futures: map<int, Future<string>>, error: Error)
    returns (r: map<int, Future<string>>)
    requires forall id | id in pending :: id in futures
    ensures r == FailPending(pending, futures, error)
  {
    r := futures;
    var left: set<int> := pending.Keys;
    while left != {}
      invariant left <= pending.Keys && r.Keys == futures.Keys
      invariant forall id | id in futures ::
                  r[id] == if id in pending && id !in left && futures[id].Waiting? then Failed(error) else futures[id]
      decreases left
    {
      ghost var some := SomeElement(left);
      var id: int :| id in left;
      if r[id].Waiting? {
        r := r[id := Failed(error)];
      }
      left := left - {id};
    }
    forall id | id in futures ensures r[id] == FailPending(pending, futures, error)[id] {
      assert id !in left;
    }
  }

  datatype Delivery = Waits | Delivers(event: Event) | Stops

  class Session {
    var queue: seq<Item>
    var dropped: nat
    var ended: bool
    var sequences: map<string, int>
    var waiters: seq<Waiter>
    var waiterFutures: seq<Future<Event>>
    var pending: map<int, Parser>
    var requestFutures: map<int, Future<string>>
    var nextRequestId: int
    var closed: bool

    ghost function View(): SessionState.Session
      reads this
    {
      SessionState.Session(queue, dropped, ended, sequences, waiters, waiterFutures, pending, requestFutures,
                           nextRequestId, closed)
    }

    constructor ()
      ensures View() == INITIAL
    {
      queue, dropped, ended, sequences := [], 0, false, map[];
      waiters, waiterFutures, pending, requestFutures := [], [], map[], map[];
      nextRequestId, closed := 1, false;
    }

    // The queue: asyncio's non-blocking put and get.

    method PutNowait(item: Item) returns (fits: bool)
      modifies `queue
      ensures fits == (old(|queue|) < QUEUE_SIZE)
      ensures queue == if fits then old(queue) + [item] else old(queue)
    {
      fits := |queue| < QUEUE_SIZE;
      if fits {
        queue := queue + [item];
      }
    }

    method GetNowait() returns (item: Option<Item>)
      modifies `queue
      ensures item == if old(queue) == [] then None else Some(old(queue)[0])
      ensures queue == if old(queue) == [] then [] else old(queue)[1..]
    {
      if queue == [] {
        return None;
      }
      item := Some(queue[0]);
      queue := queue[1..];
    }

    method PushEvent(event: Event)
      requires |queue| <= QUEUE_SIZE
      modifies `queue, `dropped
      ensures View() == Push(old(View()), event)
    {
      if ended {
        return;
      }
      var fits := PutNowait(Queued(event));
      if fits {
        return;
      }
      var oldest := GetNowait();
      if oldest.Some? {
        dropped := dropped + 1;
      }
      fits := PutNowait(Queued(event));
      if !fits {
        assert false;  // one slot was just freed, so this loss is never counted
      }
    }

    method EndStream()
      requires |queue| <= QUEUE_SIZE
      modifies `queue, `ended
      ensures View() == Finish(old(View()))
    {
      if ended {
        return;
      }
      ended := true;
      var fits := PutNowait(End);
      if fits {
        return;
      }
      var oldest := GetNowait();
      fits := PutNowait(End);
    }

    /** The consumer's next event: it waits while the queue is empty, and the sentinel
        ends the iteration (`_end` is only called without an error). */
    method Next() returns (delivery: Delivery)
      modifies `queue
      ensures View() == Step(old(View()), Take)
      ensures old(queue) == [] <==> delivery.Waits?
      ensures old(queue) != [] ==> old(queue)[0] == if delivery.Stops? then End else Queued(delivery.event)
    {
      var item := GetNowait();
      if item.None? {
        return Waits;
      }
      match item.value {
        case End => return Stops;
        case Queued(event) => return Delivers(event);
      }
    }

    // Events.

    method EmitEvent(event: Event)
      requires |queue| <= QUEUE_SIZE && WaitersValid(View())
      modifies `queue, `dropped, `waiterFutures
      ensures View() == Emit(old(View()), event)
    {
      var listed := waiters;
      for i := 0 to |listed|
        invariant waiterFutures == Notify(listed[..i], old(waiterFutures), event)
        invariant queue == old(queue) && dropped == old(dropped)
      {
        assert listed[..i + 1][..i] == listed[..i];
        var waiter := listed[i];
        if waiter.test(event).Matches? && waiterFutures[waiter.key].Waiting? {
          waiterFutures := waiterFutures[waiter.key := Done(event)];
        }
      }
      assert listed[..|listed|] == listed;
      PushEvent(event);
    }

    /** Records the sequence and emits a gap marker when it does not follow on. */
    method PushSequenceGapIfNeeded(event: Event)
      requires |queue| <= QUEUE_SIZE && WaitersValid(View())
      modifies `queue, `dropped, `waiterFutures, `sequences
      ensures event.Resync? || event.channel == "notifications" || event.channel == "builderFills" ==> View() == old(View())
      ensures event.Update? && event.channel != "notifications" && event.channel != "builderFills" ==>
                var recorded := old(View()).(sequences := old(sequences)[event.channel := event.sequence]);
                View() == if event.channel in old(sequences) && event.sequence != old(sequences)[event.channel] + 1
                          then Emit(recorded, Resync(SequenceGap, Some(event.channel),
                                                     Some(old(sequences)[event.channel]), Some(event.sequence)))
                          else recorded
    {
      if event.Resync? {
        return;
      }
      if event.channel in SERVER_RESYNC_CHANNELS {
        return;
      }
      var previous := if event.channel in sequences then Some(sequences[event.channel]) else None;
      sequences := sequences[event.channel := event.sequence];
      if previous.None? || event.sequence == previous.value + 1 {
        return;
      }
      EmitEvent(Gap(event.channel, previous.value, event.sequence));
    }

    method OnFrame(wire: Wire)
      requires Valid(View())
      modifies `queue, `dropped, `waiterFutures, `sequences
      ensures View() == Step(old(View()), Arrival(wire)) && Valid(View())
    {
      ghost var before, emissions := View(), Emissions(sequences, wire);
      ghost var moved := before.(sequences := TrackedSequences(before.sequences, wire));
      StepKeepsValid(before, Arrival(wire));
      EmitAllOnly(moved, emissions[..|emissions| - 1]);
      EmitLast(moved, emissions);
      PushSequenceGapIfNeeded(EventOf(wire));
      assert View() == EmitAll(moved, emissions[..|emissions| - 1]) by {
        EmitAllShort(moved, emissions[..|emissions| - 1]);
      }
      EmitEvent(EventOf(wire));
    }

    method HandleAnswer(id: int, answer: Answer) returns (handled: bool)
      requires RequestsValid(View())
      modifies `pending, `requestFutures
      ensures handled && View() == Step(old(View()), Response(id, answer))
    {
      if id !in pending {
        return true;
      }
      var parse := pending[id];
      pending := pending - {id};
      var outcome: Future<string>;
      match parse(answer.body) {
        case Parsed(value) => outcome := Done(value);
        case ParsedRejection(text) => outcome := Failed(RequestRejected(text));
        case ParsedUnexpected(text) =>
          outcome := Failed(if answer.errorAck.Some? then RequestRejected(answer.errorAck.value) else UnexpectedResponse(text));
        case ParseFailed =>
          outcome := Failed(if answer.errorAck.Some? then RequestRejected(answer.errorAck.value)
                            else UnexpectedResponse("Perps session unexpected response."));
      }
      if requestFutures[id].Waiting? {
        requestFutures := requestFutures[id := outcome];
      }
      return true;
    }

    /** A message acts as its flattening, leaf after leaf. */
    method OnMessage(message: Message)
      requires Valid(View())
      modifies `queue, `dropped, `waiterFutures, `sequences, `pending, `requestFutures
      ensures View() == Run(old(View()), Flatten(message)) && Valid(View())
      decreases message
    {
      ghost var before := View();
      match message {
        case Batch(messages) =>
          for i := 0 to |messages|
            invariant View() == Run(before, FlattenAll(messages[..i])) && Valid(View())
          {
            assert messages[..i + 1][..i] == messages[..i];
            RunConcat(before, FlattenAll(messages[..i]), Flatten(messages[i]));
            OnMessage(messages[i]);
          }
          assert messages[..|messages|] == messages;
        case AnswerMessage(id, answer) =>
          RunOne(before, Response(id, answer));
          StepKeepsValid(before, Response(id, answer));
          var handled := HandleAnswer(id, answer);
        case Frame(parsed) =>
          if parsed.None? {
            RunOne(before, Noise);
            return;
          }
          RunOne(before, Arrival(parsed.value));
          OnFrame(parsed.value);
      }
    }

    /** The end of a reconnect: sequences are forgotten before the marker is queued. */
    method Resynchronize()
      requires |queue| <= QUEUE_SIZE
      modifies `queue, `dropped, `sequences
      ensures View() == Step(old(View()), Atom.Reconnect)
    {
      sequences := map[];
      PushEvent(RECONNECTED);
    }

    // Requests.

    /** Takes an id and, unless the session is closed, registers the request under it. */
    method RegisterRequest(parse: Parser) returns (id: int, registered: bool)
      modifies `pending, `requestFutures, `nextRequestId
      ensures id == old(nextRequestId) && registered == !closed
      ensures View() == Step(old(View()), StartRequest(parse))
    {
      id := nextRequestId;
      nextRequestId := nextRequestId + 1;
      registered := !closed;
      if registered {
        pending := pending[id := parse];
        requestFutures := requestFutures[id := Future.Waiting];
      }
    }

    /** A timeout or a cancelled caller cancels the request's future. */
    method CancelRequestFuture(id: int)
      requires RequestsValid(View())
      modifies `requestFutures
      ensures View() == Step(old(View()), CancelRequest(id))
    {
      if id in pending && requestFutures[id].Waiting? {
        requestFutures := requestFutures[id := Future.Cancelled];
      }
    }

    method UnwindRequest(id: int)
      modifies `pending
      ensures View() == Step(old(View()), Unwind(id))
    {
      pending := pending - {id};
    }

    method RejectAllPending(error: Error)
      requires RequestsValid(View())
      modifies `pending, `requestFutures
      ensures View() == RejectPending(old(View()), error)
    {
      requestFutures := FailEach(pending, requestFutures, error);
      pending := map[];
    }

    // Event waiters.

    method CreateEventWaiter(test: Event -> Verdict) returns (waiter: Waiter)
      modifies `waiters, `waiterFutures
      ensures View() == Step(old(View()), Register(test))
      ensures waiter == Waiter(old(|waiterFutures|), test) && waiter in waiters && waiterFutures[waiter.key].Waiting?
    {
      waiter := Waiter(|waiterFutures|, test);
      waiters := waiters + [waiter];
      waiterFutures := waiterFutures + [Future.Waiting];
    }

    method RemoveEventWaiter(waiter: Waiter)
      modifies `waiters, `waiterFutures
      ensures View() == Step(old(View()), RemoveWaiter(waiter.key))
    {
      waiters := Without(waiters, waiter.key);
      if waiter.key < |waiterFutures| && waiterFutures[waiter.key].Waiting? {
        waiterFutures := waiterFutures[waiter.key := Future.Cancelled];
      }
    }

    /** A timeout or a cancelled caller cancels the waiter's future; it stays listed. */
    method CancelEventWaiter(waiter: Waiter)
      modifies `waiterFutures
      ensures View() == Step(old(View()), CancelWaiter(waiter.key))
    {
      if waiter.key < |waiterFutures| && waiterFutures[waiter.key].Waiting? {
        waiterFutures := waiterFutures[waiter.key := Future.Cancelled];
      }
    }

    method RejectEventWaiters(error: Error)
      requires WaitersValid(View())
      modifies `waiters, `waiterFutures
      ensures View() == RejectWaiters(old(View()), error)
    {
      var listed := waiters;
      for i := 0 to |listed|
        invariant waiterFutures == FailListed(listed[..i], old(waiterFutures), error)
        invariant waiters == listed
      {
        assert listed[..i + 1][..i] == listed[..i];
        var key := listed[i].key;
        if waiterFutures[key].Waiting? {
          waiterFutures := waiterFutures[key := Failed(error)];
        }
      }
      assert listed[..|listed|] == listed;
      waiters := [];
    }

    // The connection.

    method OnConnectionLost()
      requires Valid(View())
      modifies `pending, `requestFutures, `waiters, `waiterFutures
      ensures View() == Step(old(View()), Lost)
    {
      RejectAllPending(ConnectionClosed);
      RejectEventWaiters(ConnectionClosed);
    }

    /** The first call marks the session closed; any other returns at once. */
    method BeginClose() returns (first: bool)
      modifies `closed
      ensures first == !old(closed)
      ensures View() == Step(old(View()), StartClose)
    {
      first := !closed;
      closed := true;
    }

    /** The rest of the first call, after its awaits. */
    method FinishCloseSession()
      requires Valid(View())
      modifies `pending, `requestFutures, `waiters, `waiterFutures, `queue, `ended
      ensures View() == Step(old(View()), FinishClose)
    {
      RejectAllPending(SessionClosed);
      RejectEventWaiters(SessionClosed);
      EndStream();
    }
  }

  lemma EmitAllShort(s: SessionState.Session, events: seq<Event>)
    requires |events| <= 1
    ensures EmitAll(s, events) == if events == [] then s else Emit(s, events[0])
  {}

  lemma EmitLast(s: SessionState.Session, events: seq<Event>)
    requires events != [] && |events| <= 2
    ensures EmitAll(s, events) == Emit(EmitAll(s, events[..|events| - 1]), events[|events| - 1])
  {
    var last := events[|events| - 1];
    assert [last][1..] == [];
    if |events| == 1 {
      assert events == [last];
    } else {
      assert events[1..] == [last] && events[..1] == [events[0]] && [events[0]][1..] == [];
      assert EmitAll(Emit(s, events[0]), [last]) == Emit(Emit(s, events[0]), last);
    }
  }

  lemma RunOne(s: SessionState.Session, atom: Atom)
    ensures Run(s, [atom]) == Step(s, atom)
  {
    assert [atom][1..] == [];
    assert Run(Step(s, atom), []) == Step(s, atom);
  }
}
