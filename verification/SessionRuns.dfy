/** What every run of a Perps session guarantees its requests and event waiters. */
module SessionRuns {
  import opened Wrappers
  import opened SessionState

  // Requests. Each one is answered as if it were alone on the connection.

  /** How a request issued as `id` ends, from the steps that follow: the first answer with
      its id, loss, close, or cancellation decides; unwinding first leaves it undecided. */
  ghost function RequestVerdict(parse: Parser, id: int, atoms: seq<Atom>): Future<string>
    decreases |atoms|
  {
    if atoms == [] then Waiting
    else
      match atoms[0]
      case Response(answered, answer) =>
        if answered == id then Resolution(parse, answer) else RequestVerdict(parse, id, atoms[1..])
      case Lost => Failed(ConnectionClosed)
      case FinishClose => Failed(SessionClosed)
      case CancelRequest(requestId) => if requestId == id then Cancelled else RequestVerdict(parse, id, atoms[1..])
      case Unwind(requestId) => if requestId == id then Waiting else RequestVerdict(parse, id, atoms[1..])
      case _ => RequestVerdict(parse, id, atoms[1..])
  }

  /** Nothing can change the future any more. */
  ghost predicate RequestSettled(s: Session, id: int) {
    && id in s.requestFutures
    && (s.requestFutures[id].Waiting? ==> id !in s.pending)
  }

  lemma StepKeepsSettled(s: Session, id: int, atom: Atom)
    requires RequestsValid(s) && RequestSettled(s, id)
    ensures RequestSettled(Step(s, atom), id)
    ensures Step(s, atom).requestFutures[id] == s.requestFutures[id]
  {
    if atom.Arrival? {
      ArrivalOnly(s, atom.wire);
    }
  }

  /** A request completes at most once: a settled future never changes. */
  lemma {:induction false} SettledForever(s: Session, id: int, atoms: seq<Atom>)
    requires RequestsValid(s) && RequestSettled(s, id)
    ensures id in Run(s, atoms).requestFutures
    ensures Run(s, atoms).requestFutures[id] == s.requestFutures[id]
    decreases |atoms|
  {
    if atoms == [] {
    } else {
      StepKeepsSettled(s, id, atoms[0]);
      StepKeepsRequests(s, atoms[0]);
      SettledForever(Step(s, atoms[0]), id, atoms[1..]);
    }
  }

  ghost predicate Concerns(atom: Atom, id: int) {
    match atom
    case Response(answered, _) => answered == id
    case Lost => true
    case FinishClose => true
    case CancelRequest(requestId) => requestId == id
    case Unwind(requestId) => requestId == id
    case _ => false
  }

  lemma OtherStepsKeepRequest(s: Session, id: int, atom: Atom)
    requires RequestsValid(s) && id in s.pending && !Concerns(atom, id)
    ensures var r := Step(s, atom);
            && id in r.pending && r.pending[id] == s.pending[id]
            && id in r.requestFutures && r.requestFutures[id] == s.requestFutures[id]
  {
    if atom.Arrival? {
      ArrivalOnly(s, atom.wire);
    }
  }

  lemma OwnStepSettles(s: Session, id: int, atom: Atom)
    requires RequestsValid(s) && id in s.pending && s.requestFutures[id].Waiting? && Concerns(atom, id)
    ensures RequestSettled(Step(s, atom), id)
    ensures Step(s, atom).requestFutures[id] == RequestVerdict(s.pending[id], id, [atom])
  {}

  /** Correlation: whatever else happens on the connection, a pending request gets the
      outcome of the first step that concerns it. */
  lemma {:induction false} RequestOutcome(s: Session, id: int, atoms: seq<Atom>)
    requires RequestsValid(s) && id in s.pending && s.requestFutures[id].Waiting?
    ensures id in Run(s, atoms).requestFutures
    ensures Run(s, atoms).requestFutures[id] == RequestVerdict(s.pending[id], id, atoms)
    decreases |atoms|
  {
    if atoms == [] {
    } else {
      var next := Step(s, atoms[0]);
      StepKeepsRequests(s, atoms[0]);
      if Concerns(atoms[0], id) {
        OwnStepSettles(s, id, atoms[0]);
        SettledForever(next, id, atoms[1..]);
      } else {
        OtherStepsKeepRequest(s, id, atoms[0]);
        RequestOutcome(next, id, atoms[1..]);
      }
    }
  }

  /** What an answer makes of its request: a parsed value or rejection stands on its own,
      and an answer that does not parse is a rejection exactly when it acknowledges an error. */
  lemma AnswerOutcome(s: Session, id: int, answer: Answer)
    requires RequestsValid(s) && id in s.pending && s.requestFutures[id].Waiting?
    ensures var outcome, parsed := Step(s, Response(id, answer)).requestFutures[id], s.pending[id](answer.body);
            && (outcome.Done? <==> parsed.Parsed?)
            && (outcome.Done? ==> outcome.value == parsed.value)
            && (parsed.ParsedRejection? ==> outcome == Failed(RequestRejected(parsed.text)))
            && ((parsed.ParsedUnexpected? || parsed.ParseFailed?) && answer.errorAck.Some? ==>
                  outcome == Failed(RequestRejected(answer.errorAck.value)))
            && (parsed.ParsedUnexpected? && answer.errorAck.None? ==> outcome == Failed(UnexpectedResponse(parsed.text)))
            && (parsed.ParseFailed? && answer.errorAck.None? ==> outcome.Failed? && outcome.error.UnexpectedResponse?)
  {}

  /** Ids are never reused: a new request's id was not issued before, in any run. */
  lemma FreshRequestId(atoms: seq<Atom>, parse: Parser)
    ensures var s := Run(INITIAL, atoms);
            && s.nextRequestId !in s.requestFutures
            && Step(s, StartRequest(parse)).nextRequestId == s.nextRequestId + 1
            && (!s.closed ==> var r := Step(s, StartRequest(parse));
                  && s.nextRequestId in r.pending && r.requestFutures[s.nextRequestId].Waiting?
                  && forall id | id in s.requestFutures :: id in r.requestFutures && r.requestFutures[id] == s.requestFutures[id])
  {
    RunKeepsValid(INITIAL, atoms);
  }

  /** Losing or closing the connection leaves no request or waiter undecided. */
  lemma TeardownDecidesAll(s: Session, atom: Atom)
    requires Valid(s) && (atom.Lost? || atom.FinishClose?)
    ensures var r := Step(s, atom);
            && r.pending == map[] && r.waiters == []
            && (forall id | id in s.pending :: !r.requestFutures[id].Waiting?)
            && (forall w | w in s.waiters :: !r.waiterFutures[w.key].Waiting?)
  {
    FailListedDecides(s.waiters, s.waiterFutures, if atom.Lost? then ConnectionClosed else SessionClosed);
  }

  lemma StepKeepsClosed(s: Session, atom: Atom)
    requires s.closed
    ensures Step(s, atom).closed
    ensures s.pending == map[] ==> Step(s, atom).pending == map[]
  {
    if atom.Arrival? {
      ArrivalOnly(s, atom.wire);
    }
  }

  lemma {:induction false} RunKeepsClosed(s: Session, atoms: seq<Atom>)
    requires s.closed
    ensures Run(s, atoms).closed
    ensures s.pending == map[] ==> Run(s, atoms).pending == map[]
    decreases |atoms|
  {
    if atoms == [] {
    } else {
      StepKeepsClosed(s, atoms[0]);
      RunKeepsClosed(Step(s, atoms[0]), atoms[1..]);
    }
  }

  /** Closing is final: whatever happens while the close is under way and after it, no
      request is ever pending again. */
  lemma NothingPendingAfterClose(s: Session, during: seq<Atom>, after: seq<Atom>)
    ensures Run(s, [StartClose] + during + [FinishClose] + after).pending == map[]
  {
    var closing := Run(Step(s, StartClose), during);
    var torn := Step(closing, FinishClose);
    RunKeepsClosed(Step(s, StartClose), during);
    StepKeepsClosed(closing, FinishClose);
    RunKeepsClosed(torn, after);
    RunSplits(s, StartClose, during + [FinishClose] + after);
    RunConcat(Step(s, StartClose), during, [FinishClose] + after);
    RunSplits(closing, FinishClose, after);
    assert [StartClose] + during + [FinishClose] + after == [StartClose] + (during + [FinishClose] + after);
    assert during + [FinishClose] + after == during + ([FinishClose] + after);
  }

  lemma RunSplits(s: Session, atom: Atom, rest: seq<Atom>)
    ensures Run(s, [atom] + rest) == Run(Step(s, atom), rest)
  {
    assert ([atom] + rest)[1..] == rest;
  }

  lemma {:induction false} FailListedDecides(waiters: seq<Waiter>, futures: seq<Future<Event>>, error: Error)
    requires forall w | w in waiters :: w.key < |futures|
    ensures forall w | w in waiters :: !FailListed(waiters, futures, error)[w.key].Waiting?
    ensures forall k | 0 <= k < |futures| :: FailListed(waiters, futures, error)[k] != futures[k] ==> futures[k].Waiting?
  {
    if waiters == [] {
    } else {
      FailListedDecides(waiters[..|waiters| - 1], futures, error);
      assert waiters == waiters[..|waiters| - 1] + [waiters[|waiters| - 1]];
    }
  }

  // Event waiters. Each one gets the first matching event emitted while it waits.

  ghost function FirstMatch(test: Event -> Verdict, events: seq<Event>): Option<Event> {
    if events == [] then None
    else if test(events[0]).Matches? then Some(events[0])
    else FirstMatch(test, events[1..])
  }

  /** How waiter `key` ends. Reconnect markers are not offered to waiters. */
  ghost function WaiterVerdict(test: Event -> Verdict, key: nat, sequences: map<string, int>, atoms: seq<Atom>): Future<Event>
    decreases |atoms|
  {
    if atoms == [] then Waiting
    else
      match atoms[0]
      case Arrival(wire) =>
        var hit := FirstMatch(test, Emissions(sequences, wire));
        if hit.Some? then Done(hit.value)
        else WaiterVerdict(test, key, TrackedSequences(sequences, wire), atoms[1..])
      case Reconnect => WaiterVerdict(test, key, map[], atoms[1..])
      case Lost => Failed(ConnectionClosed)
      case FinishClose => Failed(SessionClosed)
      case RemoveWaiter(k) => if k == key then Cancelled else WaiterVerdict(test, key, sequences, atoms[1..])
      case CancelWaiter(k) => if k == key then Cancelled else WaiterVerdict(test, key, sequences, atoms[1..])
      case _ => WaiterVerdict(test, key, sequences, atoms[1..])
  }

  lemma {:induction false} NotifyLeavesOthers(waiters: seq<Waiter>, futures: seq<Future<Event>>, event: Event, key: nat)
    requires key < |futures|
    requires futures[key].Waiting? ==> forall i | 0 <= i < |waiters| :: waiters[i].key != key
    ensures Notify(waiters, futures, event)[key] == futures[key]
  {
    if waiters == [] {
    } else {
      NotifyLeavesOthers(waiters[..|waiters| - 1], futures, event, key);
    }
  }

  lemma {:induction false} NotifyListed(waiters: seq<Waiter>, futures: seq<Future<Event>>, event: Event, i: nat)
    requires i < |waiters| && waiters[i].key < |futures| && futures[waiters[i].key].Waiting?
    requires forall j, k | 0 <= j < k < |waiters| :: waiters[j].key < waiters[k].key
    ensures Notify(waiters, futures, event)[waiters[i].key] ==
            if waiters[i].test(event).Matches? then Done(event) else Waiting
  {
    var init := waiters[..|waiters| - 1];
    if i < |init| {
      NotifyListed(init, futures, event, i);
    } else {
      NotifyLeavesOthers(init, futures, event, waiters[i].key);
    }
  }

  lemma {:induction false} EmitAllToWaiter(s: Session, events: seq<Event>, w: Waiter)
    requires WaitersValid(s) && w in s.waiters && s.waiterFutures[w.key].Waiting?
    ensures |EmitAll(s, events).waiterFutures| == |s.waiterFutures|
    ensures EmitAll(s, events).waiterFutures[w.key] ==
            var hit := FirstMatch(w.test, events);
            if hit.Some? then Done(hit.value) else Waiting
    decreases |events|
  {
    EmitAllOnly(s, events);
    if events == [] {
    } else {
      var i :| 0 <= i < |s.waiters| && s.waiters[i] == w;
      NotifyListed(s.waiters, s.waiterFutures, events[0], i);
      if w.test(events[0]).Matches? {
        EmitAllKeepsDecided(Emit(s, events[0]), events[1..], w.key);
      } else {
        EmitAllToWaiter(Emit(s, events[0]), events[1..], w);
      }
    }
  }

  lemma {:induction false} EmitAllKeepsDecided(s: Session, events: seq<Event>, key: nat)
    requires WaitersValid(s) && key < |s.waiterFutures| && !s.waiterFutures[key].Waiting?
    ensures |EmitAll(s, events).waiterFutures| == |s.waiterFutures|
    ensures EmitAll(s, events).waiterFutures[key] == s.waiterFutures[key]
    decreases |events|
  {
    EmitAllOnly(s, events);
    if events == [] {
    } else {
      NotifyLeavesOthers(s.waiters, s.waiterFutures, events[0], key);
      EmitAllKeepsDecided(Emit(s, events[0]), events[1..], key);
    }
  }

  lemma StepKeepsDecided(s: Session, key: nat, atom: Atom)
    requires WaitersValid(s) && key < |s.waiterFutures| && !s.waiterFutures[key].Waiting?
    ensures key < |Step(s, atom).waiterFutures|
    ensures Step(s, atom).waiterFutures[key] == s.waiterFutures[key]
  {
    match atom
    case Arrival(wire) =>
      EmitAllKeepsDecided(s.(sequences := TrackedSequences(s.sequences, wire)), Emissions(s.sequences, wire), key);
    case Lost => KeysListed(s); FailListedDecides(s.waiters, s.waiterFutures, ConnectionClosed);
    case FinishClose => KeysListed(s); FailListedDecides(s.waiters, s.waiterFutures, SessionClosed);
    case _ =>
  }

  lemma KeysListed(s: Session)
    requires WaitersValid(s)
    ensures forall w | w in s.waiters :: w.key < |s.waiterFutures|
  {}

  /** A waiter is completed at most once. */
  lemma {:induction false} DecidedForever(s: Session, key: nat, atoms: seq<Atom>)
    requires WaitersValid(s) && key < |s.waiterFutures| && !s.waiterFutures[key].Waiting?
    ensures key < |Run(s, atoms).waiterFutures|
    ensures Run(s, atoms).waiterFutures[key] == s.waiterFutures[key]
    decreases |atoms|
  {
    if atoms == [] {
    } else {
      StepKeepsDecided(s, key, atoms[0]);
      StepKeepsWaiters(s, atoms[0]);
      DecidedForever(Step(s, atoms[0]), key, atoms[1..]);
    }
  }

  ghost function SequencesAfter(sequences: map<string, int>, atom: Atom): map<string, int> {
    match atom
    case Arrival(wire) => TrackedSequences(sequences, wire)
    case Reconnect => map[]
    case _ => sequences
  }

  lemma StepTracks(s: Session, atom: Atom)
    ensures Step(s, atom).sequences == SequencesAfter(s.sequences, atom)
  {
    if atom.Arrival? {
      ArrivalOnly(s, atom.wire);
    }
  }

  lemma ArrivalToWaiter(s: Session, w: Waiter, wire: Wire)
    requires WaitersValid(s) && w in s.waiters && s.waiterFutures[w.key].Waiting?
    ensures var r, hit := Step(s, Arrival(wire)), FirstMatch(w.test, Emissions(s.sequences, wire));
            && |r.waiterFutures| == |s.waiterFutures| && r.waiters == s.waiters
            && r.waiterFutures[w.key] == if hit.Some? then Done(hit.value) else Waiting
  {
    EmitAllToWaiter(s.(sequences := TrackedSequences(s.sequences, wire)), Emissions(s.sequences, wire), w);
    ArrivalOnly(s, wire);
  }

  lemma DepartureToWaiter(s: Session, w: Waiter, key: nat)
    requires WaitersValid(s) && w in s.waiters && s.waiterFutures[w.key].Waiting?
    ensures var r := Step(s, RemoveWaiter(key));
            && |r.waiterFutures| == |s.waiterFutures|
            && r.waiterFutures[w.key] == (if key == w.key then Cancelled else Waiting)
            && (key != w.key ==> w in r.waiters)
  {
    WithoutKeepsOrder(s.waiters, key);
  }

  /** One step of a waiting waiter: decided as its verdict says, or still listed. */
  lemma WaiterStep(s: Session, w: Waiter, atom: Atom)
    requires WaitersValid(s) && w in s.waiters && s.waiterFutures[w.key].Waiting?
    ensures var r := Step(s, atom);
            && w.key < |r.waiterFutures|
            && r.waiterFutures[w.key] == WaiterVerdict(w.test, w.key, s.sequences, [atom])
            && (r.waiterFutures[w.key].Waiting? ==> w in r.waiters)
  {
    match atom
    case Arrival(wire) => ArrivalToWaiter(s, w, wire);
    case Lost => FailListedTo(s, w, ConnectionClosed);
    case FinishClose => FailListedTo(s, w, SessionClosed);
    case RemoveWaiter(key) => DepartureToWaiter(s, w, key);
    case _ =>
  }

  lemma FailListedTo(s: Session, w: Waiter, error: Error)
    requires WaitersValid(s) && w in s.waiters && s.waiterFutures[w.key].Waiting?
    ensures FailListed(s.waiters, s.waiterFutures, error)[w.key] == Failed(error)
  {
    KeysListed(s);
    FailListedDecides(s.waiters, s.waiterFutures, error);
    FailListedFails(s.waiters, s.waiterFutures, error, w.key);
  }

  lemma {:induction false} FailListedFails(waiters: seq<Waiter>, futures: seq<Future<Event>>, error: Error, key: nat)
    requires key < |futures| && futures[key].Waiting?
    ensures FailListed(waiters, futures, error)[key].Waiting? || FailListed(waiters, futures, error)[key] == Failed(error)
  {
    if waiters == [] {
    } else {
      FailListedFails(waiters[..|waiters| - 1], futures, error, key);
    }
  }

  /** First match: a registered waiter ends with the first event emitted since then that
      its test matches, unless it is removed, cancelled or torn down before. */
  lemma {:induction false} WaiterOutcome(s: Session, w: Waiter, atoms: seq<Atom>)
    requires WaitersValid(s) && w in s.waiters && s.waiterFutures[w.key].Waiting?
    ensures w.key < |Run(s, atoms).waiterFutures|
    ensures Run(s, atoms).waiterFutures[w.key] == WaiterVerdict(w.test, w.key, s.sequences, atoms)
    decreases |atoms|
  {
    if atoms == [] {
    } else {
      var next := Step(s, atoms[0]);
      WaiterStep(s, w, atoms[0]);
      StepTracks(s, atoms[0]);
      StepKeepsWaiters(s, atoms[0]);
      VerdictSplits(w, s.sequences, atoms);
      if next.waiterFutures[w.key].Waiting? {
        WaiterOutcome(next, w, atoms[1..]);
      } else {
        DecidedForever(next, w.key, atoms[1..]);
      }
    }
  }

  lemma VerdictSplits(w: Waiter, sequences: map<string, int>, atoms: seq<Atom>)
    requires atoms != []
    ensures var first := WaiterVerdict(w.test, w.key, sequences, [atoms[0]]);
            WaiterVerdict(w.test, w.key, sequences, atoms) ==
            if first.Waiting? then WaiterVerdict(w.test, w.key, SequencesAfter(sequences, atoms[0]), atoms[1..]) else first
  {
    assert [atoms[0]][1..] == [];
  }
}
