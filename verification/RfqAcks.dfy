/** Matching RFQ acknowledgements to the calls that wait for them
    (src/polymarket/_internal/rfq.py). Each step runs without an await. */
module RfqAcks {
  import opened Wrappers

  datatype Future = Undecided | Acked(value: string) | Refused(error: string) | Lost(error: string) | Cancelled

  /** The task that waits on the future, under the acknowledgement timeout. */
  datatype Task = Running | Cancelling | Finished

  /** One registered wait. `started` is the task's first step; `withdrawn` is that its
      caller gave it up or its task has finished. */
  datatype Wait = Wait(key: string, future: Future, task: Task, started: bool, withdrawn: bool)

  /** Registrations in order, and the queue of pending ones per key. */
  datatype State = State(pending: map<string, seq<nat>>, waits: seq<Wait>)

  const INITIAL := State(map[], [])

  datatype Step =
    | WaitFor(key: string)
    | Resolve(key: string, value: string)
    | Reject(key: string, error: string)
    | RejectAll(error: string)
    | Remove(key: string, id: nat)
    | Begin(id: nat)
    | Timeout(id: nat)
    | CancelTask(id: nat)
    | Finish(id: nat)

  /** What `_pop_pending` skips. */
  predicate Dead(w: Wait) {
    !w.future.Undecided? || w.task.Finished?
  }

  /** Cancelling a task cancels the future it already waits on. */
  function CancelWait(w: Wait): Wait {
    if w.task.Finished? then w
    else w.(task := Cancelling, future := if w.started && w.future.Undecided? then Cancelled else w.future)
  }

  function Without(ids: seq<nat>, id: nat): (r: seq<nat>)
    ensures forall x :: x in r <==> x in ids && x != id
  {
    if ids == [] then []
    else if ids[|ids| - 1] == id then Without(ids[..|ids| - 1], id)
    else Without(ids[..|ids| - 1], id) + [ids[|ids| - 1]]
  }

  function Put(pending: map<string, seq<nat>>, key: string, ids: seq<nat>): map<string, seq<nat>> {
    if ids == [] then pending - {key} else pending[key := ids]
  }

  function RemoveWait(s: State, key: string, id: nat): State {
    var waits := if id < |s.waits| then s.waits[id := CancelWait(s.waits[id]).(withdrawn := true)] else s.waits;
    if key !in s.pending then s.(waits := waits)
    else State(Put(s.pending, key, Without(s.pending[key], id)), waits)
  }

  /** The index in the queue of the first wait that is not dead; the length if none. */
  function FirstAlive(waits: seq<Wait>, ids: seq<nat>): (i: nat)
    requires forall j | 0 <= j < |ids| :: ids[j] < |waits|
    ensures i <= |ids|
    ensures forall j | 0 <= j < i :: Dead(waits[ids[j]])
    ensures i < |ids| ==> !Dead(waits[ids[i]])
  {
    if ids == [] then 0 else if !Dead(waits[ids[0]]) then 0 else 1 + FirstAlive(waits, ids[1..])
  }

  lemma {:induction false} FirstAliveIs(waits: seq<Wait>, ids: seq<nat>, k: nat)
    requires k <= |ids| && forall j | 0 <= j < |ids| :: ids[j] < |waits|
    requires (forall j | 0 <= j < k :: Dead(waits[ids[j]])) && (k < |ids| ==> !Dead(waits[ids[k]]))
    ensures FirstAlive(waits, ids) == k
  {
    if k == 0 {
    } else {
      assert forall j | 0 <= j < k - 1 :: ids[1..][j] == ids[j + 1];
      FirstAliveIs(waits, ids[1..], k - 1);
    }
  }

  function Queue(s: State, key: string): seq<nat> {
    if key in s.pending then s.pending[key] else []
  }

  function Settle(s: State, key: string, outcome: Future): State
    requires Valid(s)
  {
    var ids := Queue(s, key);
    assert key in s.pending ==> QueueValid(s.waits, key, ids);
    var i := FirstAlive(s.waits, ids);
    if i == |ids| then s.(pending := s.pending - {key})
    else State(Put(s.pending, key, ids[i + 1..]), s.waits[ids[i] := s.waits[ids[i]].(future := outcome)])
  }

  function Fail(w: Wait, error: string): Wait {
    if w.future.Undecided? then w.(future := Lost(error)) else w
  }

  function FailAll(s: State, error: string): (waits: seq<Wait>)
    ensures |waits| == |s.waits|
    ensures forall i | 0 <= i < |waits| ::
              waits[i] == if i in Queue(s, s.waits[i].key) then Fail(s.waits[i], error) else s.waits[i]
  {
    seq(|s.waits|, i requires 0 <= i < |s.waits| =>
      if i in Queue(s, s.waits[i].key) then Fail(s.waits[i], error) else s.waits[i])
  }

  function Apply(s: State, step: Step): State
    requires Valid(s)
  {
    match step
    case WaitFor(key) =>
      State(s.pending[key := Queue(s, key) + [|s.waits|]], s.waits + [Wait(key, Undecided, Running, false, false)])
    case Resolve(key, value) => Settle(s, key, Acked(value))
    case Reject(key, error) => Settle(s, key, Refused(error))
    case RejectAll(error) => State(map[], FailAll(s, error))
    case Remove(key, id) => if id < |s.waits| && s.waits[id].key == key then RemoveWait(s, key, id) else s
    case Begin(id) =>
      if id < |s.waits| && s.waits[id].task.Running? then s.(waits := s.waits[id := s.waits[id].(started := true)]) else s
    case Timeout(id) =>
      if id < |s.waits| && s.waits[id].started && s.waits[id].task.Running? && s.waits[id].future.Undecided?
      then s.(waits := s.waits[id := s.waits[id].(future := Cancelled)]) else s
    case CancelTask(id) => if id < |s.waits| then s.(waits := s.waits[id := CancelWait(s.waits[id])]) else s
    case Finish(id) =>
      if id < |s.waits| && (!s.waits[id].future.Undecided? || s.waits[id].task.Cancelling?)
      then s.(waits := s.waits[id := s.waits[id].(task := Finished)]) else s
  }

  /** A stored queue holds registered waits of its key, each once, in registration order. */
  ghost predicate QueueValid(waits: seq<Wait>, key: string, ids: seq<nat>) {
    && ids != []
    && (forall i | 0 <= i < |ids| :: ids[i] < |waits| && waits[ids[i]].key == key && !waits[ids[i]].withdrawn)
    && (forall i, j | 0 <= i < j < |ids| :: ids[i] < ids[j])
  }

  /** A wait that an acknowledgement can still complete. */
  predicate Live(w: Wait) {
    w.future == Undecided && w.task != Finished && !w.withdrawn
  }

  ghost predicate Valid(s: State) {
    && (forall key | key in s.pending :: QueueValid(s.waits, key, s.pending[key]))
    && (forall id | 0 <= id < |s.waits| && Live(s.waits[id]) :: id in Queue(s, s.waits[id].key))
  }

  // Every step keeps the queues valid: in particular none is ever empty.

  lemma {:induction false} WithoutKeepsOrder(ids: seq<nat>, id: nat)
    requires forall i, j | 0 <= i < j < |ids| :: ids[i] < ids[j]
    ensures forall i, j | 0 <= i < j < |Without(ids, id)| :: Without(ids, id)[i] < Without(ids, id)[j]
  {
    if ids == [] {
    } else {
      var init := ids[..|ids| - 1];
      WithoutKeepsOrder(init, id);
      forall x | x in Without(init, id) ensures x < ids[|ids| - 1] {
        var i :| 0 <= i < |init| && init[i] == x;
      }
      assert forall i | 0 <= i < |Without(init, id)| :: Without(init, id)[i] in Without(init, id);
    }
  }

  lemma RemoveKeepsValid(s: State, key: string, id: nat)
    requires Valid(s) && id < |s.waits| && s.waits[id].key == key
    ensures Valid(RemoveWait(s, key, id))
  {
    var r := RemoveWait(s, key, id);
    if key in s.pending {
      WithoutKeepsOrder(s.pending[key], id);
      var left := Without(s.pending[key], id);
      forall i | 0 <= i < |left| ensures left[i] < |r.waits| && r.waits[left[i]].key == key && !r.waits[left[i]].withdrawn {
        assert left[i] in s.pending[key];
      }
    }
    forall other | other in r.pending ensures QueueValid(r.waits, other, r.pending[other]) {
      if other != key {
        assert QueueValid(s.waits, other, s.pending[other]);
      }
    }
  }

  /** Changes to one wait's future or task that do not revive it keep the queues valid. */
  lemma ChangeKeepsValid(s: State, id: nat, w: Wait)
    requires Valid(s) && id < |s.waits|
    requires w.key == s.waits[id].key && w.withdrawn == s.waits[id].withdrawn && (Live(w) ==> Live(s.waits[id]))
    ensures Valid(s.(waits := s.waits[id := w]))
  {
    var r := s.(waits := s.waits[id := w]);
    forall key | key in r.pending ensures QueueValid(r.waits, key, r.pending[key]) {
      assert QueueValid(s.waits, key, s.pending[key]);
    }
  }

  lemma OutcomeKeepsQueue(waits: seq<Wait>, id: nat, outcome: Future, key: string, ids: seq<nat>)
    requires id < |waits| && QueueValid(waits, key, ids)
    ensures QueueValid(waits[id := waits[id].(future := outcome)], key, ids)
  {}

  lemma RestOfQueue(waits: seq<Wait>, key: string, ids: seq<nat>, i: nat)
    requires QueueValid(waits, key, ids) && i < |ids|
    ensures QueueValid(waits, key, ids[i..])
  {}

  lemma SettleKeepsOtherQueue(s: State, key: string, outcome: Future, other: string)
    requires Valid(s) && other in s.pending && other != key
    ensures QueueValid(Settle(s, key, outcome).waits, other, s.pending[other])
  {
    var ids := Queue(s, key);
    assert QueueValid(s.waits, other, s.pending[other]);
    assert key in s.pending ==> QueueValid(s.waits, key, ids);
    var i := FirstAlive(s.waits, ids);
    if i < |ids| {
      OutcomeKeepsQueue(s.waits, ids[i], outcome, other, s.pending[other]);
    }
  }

  lemma SettleKeepsOwnQueue(waits: seq<Wait>, key: string, ids: seq<nat>, i: nat, outcome: Future)
    requires QueueValid(waits, key, ids) && i + 1 < |ids|
    ensures QueueValid(waits[ids[i] := waits[ids[i]].(future := outcome)], key, ids[i + 1..])
  {
    OutcomeKeepsQueue(waits, ids[i], outcome, key, ids);
    RestOfQueue(waits[ids[i] := waits[ids[i]].(future := outcome)], key, ids, i + 1);
  }

  lemma SettleKeepsQueues(s: State, key: string, outcome: Future, other: string)
    requires Valid(s) && other in Settle(s, key, outcome).pending
    ensures QueueValid(Settle(s, key, outcome).waits, other, Settle(s, key, outcome).pending[other])
  {
    if other != key {
      SettleKeepsOtherQueue(s, key, outcome, other);
    } else {
      var ids := Queue(s, key);
      assert QueueValid(s.waits, key, ids);
      SettleKeepsOwnQueue(s.waits, key, ids, FirstAlive(s.waits, ids), outcome);
    }
  }

  lemma SettleKeepsLive(s: State, key: string, outcome: Future, id: nat)
    requires Valid(s) && !outcome.Undecided?
    requires id < |s.waits| && Live(Settle(s, key, outcome).waits[id])
    ensures id in Queue(Settle(s, key, outcome), s.waits[id].key)
  {
    var ids := Queue(s, key);
    assert key in s.pending ==> QueueValid(s.waits, key, ids);
    var i := FirstAlive(s.waits, ids);
    assert Live(s.waits[id]) && id in Queue(s, s.waits[id].key);
    if s.waits[id].key == key {
      var j :| 0 <= j < |ids| && ids[j] == id;
      assert i < j;
      assert ids[i + 1..][j - i - 1] == id;
    }
  }

  lemma SettleKeepsValid(s: State, key: string, outcome: Future)
    requires Valid(s) && !outcome.Undecided?
    ensures Valid(Settle(s, key, outcome))
  {
    var r := Settle(s, key, outcome);
    forall other | other in r.pending ensures QueueValid(r.waits, other, r.pending[other]) {
      SettleKeepsQueues(s, key, outcome, other);
    }
    forall id | 0 <= id < |r.waits| && Live(r.waits[id]) ensures id in Queue(r, r.waits[id].key) {
      SettleTouchesUndecided(s, key, outcome, id);
      SettleKeepsLive(s, key, outcome, id);
    }
  }

  lemma RegisterKeepsValid(s: State, key: string)
    requires Valid(s)
    ensures Valid(Apply(s, WaitFor(key)))
  {
    var r := Apply(s, WaitFor(key));
    forall other | other in r.pending ensures QueueValid(r.waits, other, r.pending[other]) {
      if other in s.pending {
        assert QueueValid(s.waits, other, s.pending[other]);
      }
    }
    forall id | 0 <= id < |r.waits| && Live(r.waits[id]) ensures id in Queue(r, r.waits[id].key) {
      assert id < |s.waits| ==> id in Queue(s, s.waits[id].key);
    }
  }

  lemma FailAllKeepsValid(s: State, error: string)
    requires Valid(s)
    ensures Valid(Apply(s, RejectAll(error)))
  {
    forall id | 0 <= id < |s.waits| ensures !Live(FailAll(s, error)[id]) {
      assert Live(s.waits[id]) ==> id in Queue(s, s.waits[id].key);
    }
  }

  lemma StepKeepsValid(s: State, step: Step)
    requires Valid(s)
    ensures Valid(Apply(s, step))
  {
    match step
    case WaitFor(key) => RegisterKeepsValid(s, key);
    case Resolve(key, value) => SettleKeepsValid(s, key, Acked(value));
    case Reject(key, error) => SettleKeepsValid(s, key, Refused(error));
    case RejectAll(error) => FailAllKeepsValid(s, error);
    case Remove(key, id) =>
      if id < |s.waits| && s.waits[id].key == key {
        RemoveKeepsValid(s, key, id);
      }
    case Begin(id) => if id < |s.waits| { ChangeKeepsValid(s, id, s.waits[id].(started := true)); }
    case Timeout(id) => if id < |s.waits| { ChangeKeepsValid(s, id, s.waits[id].(future := Cancelled)); }
    case CancelTask(id) => if id < |s.waits| { ChangeKeepsValid(s, id, CancelWait(s.waits[id])); }
    case Finish(id) => if id < |s.waits| { ChangeKeepsValid(s, id, s.waits[id].(task := Finished)); }
  }

  function Run(s: State, steps: seq<Step>): (r: State)
    requires Valid(s)
    ensures Valid(r)
    decreases |steps|
  {
    if steps == [] then s
    else
      StepKeepsValid(s, steps[0]);
      Run(Apply(s, steps[0]), steps[1..])
  }

  // Matching.

  /** The earliest registered wait of the key that can still be completed. */
  ghost predicate Earliest(s: State, key: string, id: nat) {
    && id < |s.waits| && s.waits[id].key == key && Live(s.waits[id])
    && forall j | 0 <= j < id && s.waits[j].key == key :: !Live(s.waits[j])
  }

  lemma EarliestIsFirst(s: State, key: string, id: nat)
    requires Valid(s) && Earliest(s, key, id)
    ensures forall i | 0 <= i < |Queue(s, key)| :: Queue(s, key)[i] < |s.waits|
    ensures var i := FirstAlive(s.waits, Queue(s, key)); i < |Queue(s, key)| && Queue(s, key)[i] == id
  {
    var ids := Queue(s, key);
    assert id in ids;
    assert QueueValid(s.waits, key, ids);
    var i := FirstAlive(s.waits, ids);
    var j :| 0 <= j < |ids| && ids[j] == id;
    assert i <= j;
    assert Live(s.waits[ids[i]]);
  }

  /** An acknowledgement or error completes exactly the earliest live wait of its key, or
      nobody; its future is undecided then, so completing it cannot fail. */
  lemma AckCompletesEarliest(s: State, key: string, outcome: Future)
    requires Valid(s)
    ensures var r := Settle(s, key, outcome).waits;
            && (forall id: nat | Earliest(s, key, id) ::
                  s.waits[id].future.Undecided? && r == s.waits[id := s.waits[id].(future := outcome)])
            && ((forall id | 0 <= id < |s.waits| && s.waits[id].key == key :: !Live(s.waits[id])) ==> r == s.waits)
  {
    var ids := Queue(s, key);
    assert key in s.pending ==> QueueValid(s.waits, key, ids);
    forall id: nat | Earliest(s, key, id)
      ensures Settle(s, key, outcome).waits == s.waits[id := s.waits[id].(future := outcome)]
    {
      EarliestIsFirst(s, key, id);
    }
    var i := FirstAlive(s.waits, ids);
    if i < |ids| {
      assert Live(s.waits[ids[i]]) && s.waits[ids[i]].key == key;
    }
  }

  /** A decided wait stays decided, with the same outcome, and a dead one never revives. */
  lemma StepKeepsDecided(s: State, step: Step, id: nat)
    requires Valid(s) && id < |s.waits|
    ensures var r := Apply(s, step);
            && id < |r.waits| && r.waits[id].key == s.waits[id].key
            && (!s.waits[id].future.Undecided? ==> r.waits[id].future == s.waits[id].future)
            && (!Live(s.waits[id]) ==> !Live(r.waits[id]))
  {
    match step
    case Resolve(key, value) => SettleTouchesUndecided(s, key, Acked(value), id);
    case Reject(key, error) => SettleTouchesUndecided(s, key, Refused(error), id);
    case _ =>
  }

  lemma SettleTouchesUndecided(s: State, key: string, outcome: Future, id: nat)
    requires Valid(s) && id < |s.waits| && !outcome.Undecided?
    ensures var w := Settle(s, key, outcome).waits[id];
            && w.key == s.waits[id].key && (w == s.waits[id] || (Live(s.waits[id]) && !Live(w)))
  {
    var ids := Queue(s, key);
    assert key in s.pending ==> QueueValid(s.waits, key, ids);
  }

  /** No wait is completed twice, in any interleaving. */
  lemma {:induction false} CompletedOnce(s: State, steps: seq<Step>, id: nat)
    requires Valid(s) && id < |s.waits| && !s.waits[id].future.Undecided?
    ensures id < |Run(s, steps).waits| && Run(s, steps).waits[id].future == s.waits[id].future
    decreases |steps|
  {
    if steps == [] {
    } else {
      StepKeepsValid(s, steps[0]);
      StepKeepsDecided(s, steps[0], id);
      CompletedOnce(Apply(s, steps[0]), steps[1..], id);
    }
  }

  predicate Answered(w: Wait) {
    w.future.Acked? || w.future.Refused?
  }

  /** First come, first served per key. */
  ghost predicate InOrder(s: State) {
    forall i, j | 0 <= i < j < |s.waits| && s.waits[i].key == s.waits[j].key && Answered(s.waits[j]) :: !Live(s.waits[i])
  }

  lemma StepAnswersEarliest(s: State, step: Step, id: nat)
    requires Valid(s) && id < |Apply(s, step).waits| && Answered(Apply(s, step).waits[id])
    ensures id < |s.waits|
    ensures Answered(s.waits[id]) || Earliest(s, s.waits[id].key, id)
  {
    match step
    case Resolve(key, value) => SettledIsEarliest(s, key, Acked(value), id);
    case Reject(key, error) => SettledIsEarliest(s, key, Refused(error), id);
    case _ => OthersAnswerNobody(s, step, id);
  }

  lemma OthersAnswerNobody(s: State, step: Step, id: nat)
    requires Valid(s) && !step.Resolve? && !step.Reject?
    requires id < |Apply(s, step).waits| && Answered(Apply(s, step).waits[id])
    ensures id < |s.waits| && Answered(s.waits[id])
  {}

  lemma SettledIsEarliest(s: State, key: string, outcome: Future, id: nat)
    requires Valid(s) && id < |s.waits|
    ensures Settle(s, key, outcome).waits[id] == s.waits[id] || Earliest(s, key, id)
  {
    var ids := Queue(s, key);
    assert key in s.pending ==> QueueValid(s.waits, key, ids);
    var i := FirstAlive(s.waits, ids);
    if i < |ids| && ids[i] == id {
      forall j | 0 <= j < id && s.waits[j].key == key ensures !Live(s.waits[j]) {
        assert Live(s.waits[j]) ==> j in ids;
      }
    }
  }

  /** Over every run, no wait is answered while an earlier one of its key still could be. */
  lemma {:induction false} FirstComeFirstServed(s: State, steps: seq<Step>)
    requires Valid(s) && InOrder(s)
    ensures InOrder(Run(s, steps))
    decreases |steps|
  {
    if steps == [] {
    } else {
      var next := Apply(s, steps[0]);
      StepKeepsValid(s, steps[0]);
      forall i, j | 0 <= i < j < |next.waits| && next.waits[i].key == next.waits[j].key && Answered(next.waits[j])
        ensures !Live(next.waits[i])
      {
        StepAnswersEarliest(s, steps[0], j);
        StepKeepsDecided(s, steps[0], i);
        StepKeepsDecided(s, steps[0], j);
      }
      FirstComeFirstServed(next, steps[1..]);
    }
  }

  /** Closing decides every wait that could still be answered, and changes no decided one. */
  lemma RejectAllDecidesAll(s: State, error: string, id: nat)
    requires Valid(s) && id < |s.waits|
    ensures var r := Apply(s, RejectAll(error));
            && r.pending == map[]
            && (Live(s.waits[id]) ==> r.waits[id].future == Lost(error))
            && (!s.waits[id].future.Undecided? ==> r.waits[id] == s.waits[id])
  {}

  /** An acknowledgement hands its value, and an error its error, to the earliest live wait. */
  lemma AckHandsOverItsValue(s: State, key: string, text: string, id: nat)
    requires Valid(s) && Earliest(s, key, id)
    ensures Apply(s, Resolve(key, text)).waits[id].future == Acked(text)
    ensures Apply(s, Reject(key, text)).waits[id].future == Refused(text)
  {
    AckCompletesEarliest(s, key, Acked(text));
    AckCompletesEarliest(s, key, Refused(text));
  }

  /** The step that a wait's outcome must come from. */
  ghost predicate ComesFrom(w: Wait, step: Step) {
    && (w.future.Acked? ==> step == Resolve(w.key, w.future.value))
    && (w.future.Refused? ==> step == Reject(w.key, w.future.error))
  }

  lemma SettledForItsKey(s: State, key: string, outcome: Future, id: nat)
    requires Valid(s) && id < |s.waits|
    ensures var w := Settle(s, key, outcome).waits[id];
            w == s.waits[id] || (w.key == key && w.future == outcome)
  {
    assert key in s.pending ==> QueueValid(s.waits, key, Queue(s, key));
  }

  lemma AnswerComesFromStep(s: State, step: Step, id: nat)
    requires Valid(s) && id < |Apply(s, step).waits|
    ensures var w := Apply(s, step).waits[id];
            Answered(w) ==> (id < |s.waits| && s.waits[id].key == w.key && s.waits[id].future == w.future) || ComesFrom(w, step)
  {
    match step
    case Resolve(key, value) => SettledForItsKey(s, key, Acked(value), id);
    case Reject(key, error) => SettledForItsKey(s, key, Refused(error), id);
    case _ =>
      if Answered(Apply(s, step).waits[id]) {
        OthersAnswerNobody(s, step, id);
      }
  }

  /** Over every run, whatever a wait was answered is what an acknowledgement or error of
      its own key said. */
  lemma {:induction false} AnswersComeFromSteps(s: State, steps: seq<Step>, id: nat)
    requires Valid(s) && id < |Run(s, steps).waits| && Answered(Run(s, steps).waits[id])
    requires id < |s.waits| ==> !Answered(s.waits[id])
    ensures exists i | 0 <= i < |steps| :: ComesFrom(Run(s, steps).waits[id], steps[i])
    decreases |steps|
  {
    if steps == [] {
    } else {
      var next := Apply(s, steps[0]);
      StepKeepsValid(s, steps[0]);
      if id < |next.waits| && Answered(next.waits[id]) {
        AnswerComesFromStep(s, steps[0], id);
        CompletedOnce(next, steps[1..], id);
        KeyKept(next, steps[1..], id);
        assert ComesFrom(Run(s, steps).waits[id], steps[0]);
      } else {
        AnswersComeFromSteps(next, steps[1..], id);
        var i :| 0 <= i < |steps| - 1 && ComesFrom(Run(s, steps).waits[id], steps[1..][i]);
        assert ComesFrom(Run(s, steps).waits[id], steps[i + 1]);
      }
    }
  }

  lemma {:induction false} KeyKept(s: State, steps: seq<Step>, id: nat)
    requires Valid(s) && id < |s.waits|
    ensures id < |Run(s, steps).waits| && Run(s, steps).waits[id].key == s.waits[id].key
    decreases |steps|
  {
    if steps == [] {
    } else {
      StepKeepsValid(s, steps[0]);
      StepKeepsDecided(s, steps[0], id);
      KeyKept(Apply(s, steps[0]), steps[1..], id);
    }
  }

  /** A wait that timed out is never answered, however late its acknowledgement comes. */
  lemma TimedOutIsNeverAnswered(s: State, id: nat, later: seq<Step>)
    requires Valid(s) && id < |s.waits| && Live(s.waits[id]) && s.waits[id].started && s.waits[id].task == Running
    ensures var r := Run(s, [Timeout(id)] + later);
            id < |r.waits| && r.waits[id].future == Cancelled
  {
    StepKeepsValid(s, Timeout(id));
    assert ([Timeout(id)] + later)[1..] == later;
    CompletedOnce(Apply(s, Timeout(id)), later, id);
  }

  /** Nor is one that its caller gave up; if it had begun, its future is cancelled at once. */
  lemma WithdrawnIsNeverAnswered(s: State, id: nat, later: seq<Step>)
    requires Valid(s) && id < |s.waits| && Live(s.waits[id])
    ensures var r := Run(s, [Remove(s.waits[id].key, id)] + later);
            id < |r.waits| && !Answered(r.waits[id]) && (s.waits[id].started ==> r.waits[id].future == Cancelled)
  {
    var removed := Apply(s, Remove(s.waits[id].key, id));
    StepKeepsValid(s, Remove(s.waits[id].key, id));
    assert ([Remove(s.waits[id].key, id)] + later)[1..] == later;
    NeverAnsweredOnceDead(removed, id, later);
    if s.waits[id].started {
      CompletedOnce(removed, later, id);
    }
  }

  /** Nor is one whose task was cancelled and has finished, begun or not. */
  lemma CancelledIsNeverAnswered(s: State, id: nat, later: seq<Step>)
    requires Valid(s) && id < |s.waits| && Live(s.waits[id])
    ensures var r := Run(s, [CancelTask(id), Finish(id)] + later);
            id < |r.waits| && !Answered(r.waits[id])
  {
    var cancelled := Apply(s, CancelTask(id));
    StepKeepsValid(s, CancelTask(id));
    StepKeepsValid(cancelled, Finish(id));
    assert ([CancelTask(id), Finish(id)] + later)[1..] == [Finish(id)] + later;
    assert ([Finish(id)] + later)[1..] == later;
    NeverAnsweredOnceDead(Apply(cancelled, Finish(id)), id, later);
  }

  lemma {:induction false} NeverAnsweredOnceDead(s: State, id: nat, steps: seq<Step>)
    requires Valid(s) && id < |s.waits| && !Live(s.waits[id]) && !Answered(s.waits[id])
    ensures id < |Run(s, steps).waits| && !Answered(Run(s, steps).waits[id])
    decreases |steps|
  {
    if steps == [] {
    } else {
      var next := Apply(s, steps[0]);
      StepKeepsValid(s, steps[0]);
      StepKeepsDecided(s, steps[0], id);
      if Answered(next.waits[id]) {
        StepAnswersEarliest(s, steps[0], id);
      }
      NeverAnsweredOnceDead(next, id, steps[1..]);
    }
  }

  // Keys. Two endpoints never share one; within one the rfq id must not contain a colon.

  function QuoteAckKey(rfqId: string): string {
    "ACK_RFQ_QUOTE:" + rfqId
  }

  const CANCEL_PREFIX := "ACK_RFQ_QUOTE_CANCEL:"
  const CONFIRMATION_PREFIX := "ACK_RFQ_CONFIRMATION_RESPONSE:"

  function QuoteCancelAckKey(rfqId: string, quoteId: string): string {
    CANCEL_PREFIX + rfqId + ":" + quoteId
  }

  function ConfirmationAckKey(rfqId: string, quoteId: string): string {
    CONFIRMATION_PREFIX + rfqId + ":" + quoteId
  }

  lemma KindsNeverShareAKey(a: string, b: string, c: string, d: string)
    ensures QuoteAckKey(a) != QuoteCancelAckKey(c, d)
    ensures QuoteAckKey(a) != ConfirmationAckKey(c, d)
    ensures QuoteCancelAckKey(a, b) != ConfirmationAckKey(c, d)
    ensures QuoteAckKey(a) != "auth" && QuoteCancelAckKey(a, b) != "auth" && ConfirmationAckKey(a, b) != "auth"
  {
    assert QuoteAckKey(a)[13] == ':' && QuoteCancelAckKey(c, d)[13] == '_';
    assert QuoteAckKey(a)[8] == 'Q' && ConfirmationAckKey(c, d)[8] == 'C';
    assert QuoteCancelAckKey(a, b)[8] == 'Q' && ConfirmationAckKey(c, d)[8] == 'C';
    assert QuoteAckKey(a)[0] == 'A' && QuoteCancelAckKey(a, b)[0] == 'A' && ConfirmationAckKey(a, b)[0] == 'A';
  }

  function Joined(r: string, q: string): string {
    r + ":" + q
  }

  lemma KeysEqualIff(prefix: string, r1: string, q1: string, r2: string, q2: string)
    ensures prefix + r1 + ":" + q1 == prefix + r2 + ":" + q2 <==> Joined(r1, q1) == Joined(r2, q2)
  {
    assert prefix + r1 + ":" + q1 == prefix + Joined(r1, q1);
    assert prefix + r2 + ":" + q2 == prefix + Joined(r2, q2);
    assert (prefix + Joined(r1, q1))[|prefix|..] == Joined(r1, q1);
    assert (prefix + Joined(r2, q2))[|prefix|..] == Joined(r2, q2);
  }

  lemma FirstColon(r: string, q: string)
    requires ':' !in r
    ensures Joined(r, q)[|r|] == ':'
    ensures forall i | 0 <= i < |r| :: Joined(r, q)[i] != ':'
  {
    assert forall i | 0 <= i < |r| :: Joined(r, q)[i] == r[i];
  }

  lemma JoinedSplits(r: string, q: string)
    ensures Joined(r, q)[..|r|] == r && Joined(r, q)[|r|] == ':' && Joined(r, q)[|r| + 1..] == q
  {}

  /** RFQ ids without a colon can be read back off the joined text. */
  lemma JoinedInjective(r1: string, q1: string, r2: string, q2: string)
    requires ':' !in r1 && ':' !in r2 && Joined(r1, q1) == Joined(r2, q2)
    ensures r1 == r2 && q1 == q2
  {
    FirstColon(r1, q1);
    FirstColon(r2, q2);
    assert |r1| == |r2|;
    JoinedSplits(r1, q1);
    JoinedSplits(r2, q2);
  }

  ghost predicate JoinedOnlyBy(r: string, q: string) {
    forall r2, q2 :: Joined(r2, q2) == Joined(r, q) ==> r2 == r && q2 == q
  }

  lemma ColonFreeJoinedOnlyBy(r: string, q: string)
    requires ':' !in r && ':' !in q
    ensures JoinedOnlyBy(r, q)
  {
    forall r2, q2 | Joined(r2, q2) == Joined(r, q) ensures r2 == r && q2 == q {
      JoinedSplits(r, q);
      JoinedSplits(r2, q2);
    }
  }

  lemma ColonInRfqIdSplitsEarlier(r: string, q: string, i: nat)
    requires i < |r| && r[i] == ':'
    ensures Joined(r[..i], r[i + 1..] + ":" + q) == Joined(r, q)
  {
    assert r == r[..i] + ":" + r[i + 1..];
  }

  lemma ColonInQuoteIdSplitsLater(r: string, q: string, i: nat)
    requires i < |q| && q[i] == ':'
    ensures Joined(r + ":" + q[..i], q[i + 1..]) == Joined(r, q)
  {
    assert q == q[..i] + ":" + q[i + 1..];
  }

  lemma JoinedOnlyByIff(r: string, q: string)
    ensures JoinedOnlyBy(r, q) <==> ':' !in r && ':' !in q
  {
    if ':' in r {
      var i :| 0 <= i < |r| && r[i] == ':';
      ColonInRfqIdSplitsEarlier(r, q, i);
    } else if ':' in q {
      var i :| 0 <= i < |q| && q[i] == ':';
      ColonInQuoteIdSplitsLater(r, q, i);
    } else {
      ColonFreeJoinedOnlyBy(r, q);
    }
  }

  /** A cancellation key stands for one pair of ids exactly when neither holds a colon. */
  lemma CancelKeyUniqueIff(r: string, q: string)
    ensures (forall r2, q2 :: QuoteCancelAckKey(r2, q2) == QuoteCancelAckKey(r, q) ==> r2 == r && q2 == q)
            <==> ':' !in r && ':' !in q
  {
    JoinedOnlyByIff(r, q);
    forall r2, q2 ensures QuoteCancelAckKey(r2, q2) == QuoteCancelAckKey(r, q) <==> Joined(r2, q2) == Joined(r, q) {
      KeysEqualIff(CANCEL_PREFIX, r2, q2, r, q);
    }
  }

  /** And so does a confirmation key. */
  lemma ConfirmationKeyUniqueIff(r: string, q: string)
    ensures (forall r2, q2 :: ConfirmationAckKey(r2, q2) == ConfirmationAckKey(r, q) ==> r2 == r && q2 == q)
            <==> ':' !in r && ':' !in q
  {
    JoinedOnlyByIff(r, q);
    forall r2, q2 ensures ConfirmationAckKey(r2, q2) == ConfirmationAckKey(r, q) <==> Joined(r2, q2) == Joined(r, q) {
      KeysEqualIff(CONFIRMATION_PREFIX, r2, q2, r, q);
    }
  }

  /** Among colon-free RFQ ids, whatever the quote ids, only equal pairs share a key. */
  lemma CancelKeyInjective(r1: string, q1: string, r2: string, q2: string)
    requires ':' !in r1 && ':' !in r2
    requires QuoteCancelAckKey(r1, q1) == QuoteCancelAckKey(r2, q2)
    ensures r1 == r2 && q1 == q2
  {
    KeysEqualIff(CANCEL_PREFIX, r1, q1, r2, q2);
    JoinedInjective(r1, q1, r2, q2);
  }

  lemma ConfirmationKeyInjective(r1: string, q1: string, r2: string, q2: string)
    requires ':' !in r1 && ':' !in r2
    requires ConfirmationAckKey(r1, q1) == ConfirmationAckKey(r2, q2)
    ensures r1 == r2 && q1 == q2
  {
    KeysEqualIff(CONFIRMATION_PREFIX, r1, q1, r2, q2);
    JoinedInjective(r1, q1, r2, q2);
  }

  lemma ColonInRfqIdCollides()
    ensures QuoteCancelAckKey("a:b", "c") == QuoteCancelAckKey("a", "b:c")
    ensures ConfirmationAckKey("a:b", "c") == ConfirmationAckKey("a", "b:c")
  {
    assert Joined("a:b", "c") == Joined("a", "b:c");
    KeysEqualIff(CANCEL_PREFIX, "a:b", "c", "a", "b:c");
    KeysEqualIff(CONFIRMATION_PREFIX, "a:b", "c", "a", "b:c");
  }

  // The session's map of queues, updated in place.

  class Session {
    var pending: map<string, seq<nat>>
    var waits: seq<Wait>

    ghost function View(): State
      reads this
    {
      State(pending, waits)
    }

    constructor ()
      ensures View() == INITIAL && Valid(View())
    {
      pending, waits := map[], [];
    }

    method Register(key: string) returns (id: nat)
      requires Valid(View())
      modifies this
      ensures View() == Apply(old(View()), WaitFor(key)) && Valid(View())
      ensures id == old(|waits|) && Live(waits[id])
    {
      StepKeepsValid(View(), WaitFor(key));
      id := |waits|;
      waits := waits + [Wait(key, Undecided, Running, false, false)];
      pending := pending[key := (if key in pending then pending[key] else []) + [id]];
    }

    method RemovePending(key: string, id: nat)
      requires Valid(View()) && id < |waits| && waits[id].key == key
      modifies this
      ensures View() == Apply(old(View()), Remove(key, id)) && Valid(View())
    {
      StepKeepsValid(View(), Remove(key, id));
      if key in pending {
        var remaining := Without(pending[key], id);
        if remaining != [] {
          pending := pending[key := remaining];
        } else {
          pending := pending - {key};
        }
      }
      waits := waits[id := CancelWait(waits[id]).(withdrawn := true)];
    }

    /** Drops dead waits from the front of the key's queue until one can be returned. */
    method PopPending(key: string) returns (popped: Option<nat>)
      requires Valid(View())
      modifies `pending
      ensures var ids := Queue(old(View()), key);
              && (forall j | 0 <= j < |ids| :: ids[j] < |waits|)
              && var i := FirstAlive(waits, ids);
                 if i == |ids| then popped.None? && pending == old(pending) - {key}
                 else popped == Some(ids[i]) && pending == Put(old(pending), key, ids[i + 1..])
    {
      if key !in pending {
        return None;
      }
      var entries := pending[key];
      assert QueueValid(waits, key, entries);
      ghost var ids, skipped := entries, 0;
      while entries != []
        invariant skipped <= |ids| && entries == ids[skipped..] && pending == old(pending)
        invariant forall j | 0 <= j < skipped :: Dead(waits[ids[j]])
        decreases |entries|
      {
        var id := entries[0];
        entries := entries[1..];
        if !Dead(waits[id]) {
          FirstAliveIs(waits, ids, skipped);
          pending := Put(pending, key, entries);
          return Some(id);
        }
        skipped := skipped + 1;
      }
      FirstAliveIs(waits, ids, skipped);
      pending := pending - {key};
      return None;
    }

    /** `_resolve` and `_reject`: the outcome goes to the popped wait, if there is one. */
    method Complete(key: string, outcome: Future) returns (completed: bool)
      requires Valid(View()) && !outcome.Undecided?
      modifies this
      ensures View() == Settle(old(View()), key, outcome) && Valid(View())
    {
      SettleKeepsValid(View(), key, outcome);
      var popped := PopPending(key);
      if popped.None? {
        return false;
      }
      waits := waits[popped.value := waits[popped.value].(future := outcome)];
      return true;
    }

    method RejectAllPending(error: string)
      requires Valid(View())
      modifies this
      ensures View() == Apply(old(View()), RejectAll(error)) && Valid(View())
    {
      StepKeepsValid(View(), RejectAll(error));
      ghost var before := View();
      var keys: set<string> := pending.Keys;
      while keys != {}
        invariant keys <= pending.Keys && pending == before.pending && |waits| == |before.waits|
        invariant forall i | 0 <= i < |waits| :: waits[i] == FailedOutside(before, keys, error, i)
        decreases keys
      {
        ghost var some := SomeElement(keys);
        var key: string :| key in keys;
        assert QueueValid(before.waits, key, pending[key]);
        waits := FailEntries(waits, pending[key], error);
        keys := keys - {key};
      }
      assert waits == FailAll(before, error);
      pending := map[];
    }
  }

  ghost function FailedOutside(s: State, keys: set<string>, error: string, i: nat): Wait
    requires i < |s.waits|
  {
    if s.waits[i].key !in keys && i in Queue(s, s.waits[i].key) then Fail(s.waits[i], error) else s.waits[i]
  }

  method FailEntries(waits: seq<Wait>, entries: seq<nat>, error: string) returns (r: seq<Wait>)
    requires forall j | 0 <= j < |entries| :: entries[j] < |waits|
    ensures |r| == |waits|
    ensures forall i | 0 <= i < |waits| :: r[i] == if i in entries then Fail(waits[i], error) else waits[i]
  {
    r := waits;
    for j := 0 to |entries|
      invariant |r| == |waits|
      invariant forall i | 0 <= i < |waits| :: r[i] == if i in entries[..j] then Fail(waits[i], error) else waits[i]
    {
      assert entries[..j + 1] == entries[..j] + [entries[j]];
      if r[entries[j]].future.Undecided? {
        r := r[entries[j] := r[entries[j]].(future := Lost(error))];
      }
    }
    assert entries[..|entries|] == entries;
  }
}
