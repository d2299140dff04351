/** Cancelling a batch of orders, retrying the ones still in flight
    (src/polymarket/_internal/perps_session.py). The server, the clocks and the
    jitter are arbitrary functions of the attempt number. */
module CancelRetry {
  import opened Wrappers
  import opened Numerals

  datatype Identifier = OrderId(n: int) | ClientId(s: string)

  datatype ErrorCode = OrderInFlight | OtherCode(text: string)

  datatype CancelResult =
    | Success(orderId: Option<int>, clientId: Option<string>)
    | Rejection(error: ErrorCode, orderId: Option<int>, clientId: Option<string>)
  {
    predicate InFlight() {
      Rejection? && error == OrderInFlight
    }
  }

  datatype Failure = SendFailed(reason: string) | RequestRejected(error: ErrorCode) | WrongLength | WrongIdentifier

  datatype Reply = Answered(results: seq<CancelResult>) | NoAnswer(failure: Failure)

  datatype Outcome =
    | Returned(results: seq<CancelResult>)
    | Raised(failure: Failure)
    | RetryRaised(stored: seq<Option<CancelResult>>, pendingIndexes: seq<nat>, failure: Failure)
    | NoFinalResult

  datatype Retry = NoRetry | Limits(maxAttempts: int, maxElapsedS: real)

  datatype Clock = Clock(loopS: real, wallMs: int)

  datatype Env = Env(
    startS: real,
    beforeSleep: nat -> Clock,
    afterSleep: nat -> Clock,
    draw: nat -> real,
    reply: (nat, seq<Identifier>) -> Reply)

  datatype Deadline = Never | At(s: real)

  // Time.

  const BASE_DELAY_S := 0.1
  const MAX_DELAY_S := 1.0

  function Min(a: real, b: real): real {
    if a <= b then a else b
  }

  function JitteredBackoff(attempt: nat, draw: real): real {
    var bounded := if attempt < 64 then attempt else 64;
    draw * Min(BASE_DELAY_S * Pow(2, bounded) as real, MAX_DELAY_S)
  }

  function DeadlineOf(retry: Retry, startS: real): Deadline {
    if retry.NoRetry? then Never else At(startS + retry.maxElapsedS)
  }

  function MaxAttempts(retry: Retry): int {
    if retry.NoRetry? then 1 else retry.maxAttempts
  }

  /** Seconds left to start a retry; None is no bound. */
  function Remaining(deadline: Deadline, expiresMs: Option<int>, now: Clock): Option<real> {
    match (deadline, expiresMs)
    case (Never, None) => None
    case (Never, Some(e)) => Some((e - now.wallMs) as real / 1000.0)
    case (At(s), None) => Some(s - now.loopS)
    case (At(s), Some(e)) => Some(Min(s - now.loopS, (e - now.wallMs) as real / 1000.0))
  }

  predicate Sleeps(env: Env, deadline: Deadline, expiresMs: Option<int>, attempts: nat, delay: real) {
    var left := Remaining(deadline, expiresMs, env.beforeSleep(attempts));
    left.None? || (left.value > 0.0 && delay < left.value)
  }

  predicate Wakes(env: Env, deadline: Deadline, expiresMs: Option<int>, attempts: nat) {
    var left := Remaining(deadline, expiresMs, env.afterSleep(attempts));
    left.None? || left.value > 0.0
  }

  // One command and its answer.

  function Answers(identifier: Identifier, result: CancelResult): bool {
    match identifier
    case OrderId(n) => result.orderId.None? || result.orderId.value == n
    case ClientId(s) => result.clientId.None? || result.clientId.value == s
  }

  /** One id-less rejection stands for the whole request, whatever was asked. */
  predicate RejectsRequest(results: seq<CancelResult>) {
    && |results| == 1 && results[0].Rejection?
    && results[0].orderId.None? && results[0].clientId.None?
  }

  predicate Accepted(command: seq<Identifier>, results: seq<CancelResult>) {
    && !RejectsRequest(results)
    && |results| == |command|
    && forall j | 0 <= j < |results| :: Answers(command[j], results[j])
  }

  /** What an accepted answer is, field by field. */
  lemma AcceptedExactly(command: seq<Identifier>, results: seq<CancelResult>)
    ensures Accepted(command, results) <==>
            && |results| == |command|
            && !(|results| == 1 && results[0].Rejection? && results[0].orderId.None? && results[0].clientId.None?)
            && (forall j | 0 <= j < |results| && command[j].OrderId? && results[j].orderId.Some? ::
                  results[j].orderId.value == command[j].n)
            && (forall j | 0 <= j < |results| && command[j].ClientId? && results[j].clientId.Some? ::
                  results[j].clientId.value == command[j].s)
  {
    forall j | 0 <= j < |results| && j < |command|
      ensures Answers(command[j], results[j]) <==>
              && (command[j].OrderId? && results[j].orderId.Some? ==> results[j].orderId.value == command[j].n)
              && (command[j].ClientId? && results[j].clientId.Some? ==> results[j].clientId.value == command[j].s)
    {
    }
  }

  /** Why an answer to the command is refused: the first check it fails. */
  ghost predicate FailsWith(command: seq<Identifier>, reply: Reply, failure: Failure) {
    match reply
    case NoAnswer(f) => failure == f
    case Answered(results) =>
      if RejectsRequest(results) then failure == RequestRejected(results[0].error)
      else if |results| != |command| then failure == WrongLength
      else failure == WrongIdentifier && exists j | 0 <= j < |results| :: !Answers(command[j], results[j])
  }

  method Validate(command: seq<Identifier>, reply: Reply) returns (r: Result<seq<CancelResult>, Failure>)
    ensures r.Success? <==> reply.Answered? && Accepted(command, reply.results)
    ensures r.Success? ==> r.value == reply.results
    ensures r.Failure? ==> FailsWith(command, reply, r.error)
  {
    if reply.NoAnswer? {
      return Result.Failure(reply.failure);
    }
    var results := reply.results;
    if RejectsRequest(results) {
      return Result.Failure(RequestRejected(results[0].error));
    }
    if |results| != |command| {
      return Result.Failure(WrongLength);
    }
    for j := 0 to |results|
      invariant forall i | 0 <= i < j :: Answers(command[i], results[i])
    {
      if !Answers(command[j], results[j]) {
        return Result.Failure(WrongIdentifier);
      }
    }
    return Result.Success(results);
  }

  // The history of a call: which positions each accepted command asked for, and
  // what it was answered.

  datatype Round = Round(positions: seq<nat>, answers: seq<CancelResult>)

  predicate WellFormed(round: Round) {
    |round.positions| == |round.answers|
  }

  /** The positions of a round that were answered ORDER_IN_FLIGHT, in order. */
  function InFlight(round: Round): seq<nat>
    requires WellFormed(round)
    decreases |round.positions|
  {
    if round.positions == [] then []
    else
      var last := |round.positions| - 1;
      var before := InFlight(Round(round.positions[..last], round.answers[..last]));
      if round.answers[last].InFlight() then before + [round.positions[last]] else before
  }

  function AllPositions(n: nat): seq<nat> {
    seq(n, i => i)
  }

  ghost predicate AllWellFormed(rounds: seq<Round>) {
    forall k | 0 <= k < |rounds| :: WellFormed(rounds[k])
  }

  /** What command `k` asks for, given the rounds before it. */
  ghost function AskedBy(n: nat, rounds: seq<Round>, k: nat): seq<nat>
    requires AllWellFormed(rounds) && k <= |rounds|
  {
    if k == 0 then AllPositions(n) else InFlight(rounds[k - 1])
  }

  ghost function NextPositions(n: nat, rounds: seq<Round>): seq<nat>
    requires AllWellFormed(rounds)
  {
    AskedBy(n, rounds, |rounds|)
  }

  ghost predicate IsHistory(n: nat, rounds: seq<Round>) {
    && AllWellFormed(rounds)
    && forall k {:trigger AskedBy(n, rounds, k)} | 0 <= k < |rounds| :: rounds[k].positions == AskedBy(n, rounds, k)
  }

  ghost predicate InRange(positions: seq<nat>, n: nat) {
    forall j | 0 <= j < |positions| :: positions[j] < n
  }

  /** The command lists the identifiers at these positions, in order. */
  ghost predicate Names(ids: seq<Identifier>, positions: seq<nat>, command: seq<Identifier>) {
    && |command| == |positions|
    && forall j | 0 <= j < |positions| :: positions[j] < |ids| && command[j] == ids[positions[j]]
  }

  ghost predicate Increasing(s: seq<nat>) {
    forall i, j | 0 <= i < j < |s| :: s[i] < s[j]
  }

  ghost predicate AnsweredIn(round: Round, p: nat, answer: CancelResult) {
    exists j | 0 <= j < |round.positions| && j < |round.answers| ::
      round.positions[j] == p && round.answers[j] == answer
  }

  /** `answer` is what the last command that asked for position `p` was told. */
  ghost predicate LastAnswered(rounds: seq<Round>, p: nat, answer: CancelResult) {
    exists k | 0 <= k < |rounds| ::
      && AnsweredIn(rounds[k], p, answer)
      && forall m | k < m < |rounds| :: p !in rounds[m].positions
  }

  // What every history keeps.

  lemma InFlightNext(positions: seq<nat>, answers: seq<CancelResult>, j: nat)
    requires |positions| == |answers| && j < |positions|
    ensures InFlight(Round(positions[..j + 1], answers[..j + 1])) ==
            InFlight(Round(positions[..j], answers[..j])) + if answers[j].InFlight() then [positions[j]] else []
  {
    assert positions[..j + 1][..j] == positions[..j] && answers[..j + 1][..j] == answers[..j];
  }

  /** The round asked for `p` and was told that it is still in flight. */
  ghost predicate AskedInFlight(round: Round, p: nat) {
    exists j | 0 <= j < |round.positions| && j < |round.answers| ::
      round.positions[j] == p && round.answers[j].Rejection? && round.answers[j].error == OrderInFlight
  }

  lemma {:induction false} InFlightMembers(round: Round)
    requires WellFormed(round)
    ensures forall p :: p in InFlight(round) <==> AskedInFlight(round, p)
    decreases |round.positions|
  {
    if round.positions == [] {
    } else {
      var last := |round.positions| - 1;
      var init := Round(round.positions[..last], round.answers[..last]);
      InFlightMembers(init);
      forall p ensures AskedInFlight(round, p) <==>
                       AskedInFlight(init, p) || (round.answers[last].InFlight() && p == round.positions[last])
      {
        if AskedInFlight(init, p) {
          var j :| 0 <= j < last && init.positions[j] == p && init.answers[j].InFlight();
          assert round.positions[j] == p && round.answers[j].InFlight();
        }
        if j :| 0 <= j < last && round.positions[j] == p && round.answers[j].InFlight() {
          assert init.positions[j] == p && init.answers[j].InFlight();
        }
      }
    }
  }

  lemma {:induction false} InFlightIncreasing(round: Round)
    requires WellFormed(round) && Increasing(round.positions)
    ensures Increasing(InFlight(round))
    decreases |round.positions|
  {
    if round.positions == [] {
    } else {
      var last := |round.positions| - 1;
      var init := Round(round.positions[..last], round.answers[..last]);
      InFlightIncreasing(init);
      InFlightMembers(init);
      forall i | 0 <= i < |InFlight(init)| ensures InFlight(init)[i] < round.positions[last] {
        assert InFlight(init)[i] in InFlight(init);
      }
    }
  }

  /** Positions stay in range and in increasing order, whatever is asked next. */
  lemma {:induction false} AskedIncreasing(n: nat, rounds: seq<Round>, k: nat)
    requires IsHistory(n, rounds) && k <= |rounds|
    ensures Increasing(AskedBy(n, rounds, k)) && InRange(AskedBy(n, rounds, k), n)
    decreases k
  {
    if k == 0 {
    } else {
      var round := rounds[k - 1];
      AskedIncreasing(n, rounds, k - 1);
      InFlightIncreasing(round);
      InFlightMembers(round);
      forall i | 0 <= i < |InFlight(round)| ensures InFlight(round)[i] < n {
        assert AskedInFlight(round, InFlight(round)[i]);
      }
    }
  }

  /** Each command asks for exactly the positions its predecessor found in flight. */
  lemma NextCommand(n: nat, rounds: seq<Round>, k: nat)
    requires IsHistory(n, rounds) && k < |rounds|
    ensures Increasing(rounds[k].positions)
    ensures forall p :: p in AskedBy(n, rounds, k + 1) <==> AskedInFlight(rounds[k], p)
  {
    AskedIncreasing(n, rounds, k);
    InFlightMembers(rounds[k]);
  }

  lemma TerminalNotNext(n: nat, rounds: seq<Round>, k: nat, j: nat)
    requires IsHistory(n, rounds) && k < |rounds|
    requires j < |rounds[k].positions| && !rounds[k].answers[j].InFlight()
    ensures rounds[k].positions[j] !in AskedBy(n, rounds, k + 1)
  {
    NextCommand(n, rounds, k);
    OnlyAt(rounds[k].positions, j);
    assert !AskedInFlight(rounds[k], rounds[k].positions[j]);
  }

  lemma OnlyAt(s: seq<nat>, j: nat)
    requires j < |s| && Increasing(s)
    ensures forall i | 0 <= i < |s| && s[i] == s[j] :: i == j
  {}

  /** Once answered terminally, a position is never asked for again. */
  lemma {:induction false} TerminalNeverResent(n: nat, rounds: seq<Round>, k: nat, j: nat, m: nat)
    requires IsHistory(n, rounds) && k < m <= |rounds|
    requires j < |rounds[k].positions| && !rounds[k].answers[j].InFlight()
    ensures rounds[k].positions[j] !in AskedBy(n, rounds, m)
    decreases m
  {
    if k == m - 1 {
      TerminalNotNext(n, rounds, k, j);
    } else {
      TerminalNeverResent(n, rounds, k, j, m - 1);
      assert rounds[m - 1].positions == AskedBy(n, rounds, m - 1);
      NextCommand(n, rounds, m - 1);
      assert !AskedInFlight(rounds[m - 1], rounds[k].positions[j]);
    }
  }

  /** The positions still pending are exactly those whose last answer is in flight. */
  lemma PendingIffStoredInFlight(n: nat, rounds: seq<Round>, p: nat, answer: CancelResult)
    requires IsHistory(n, rounds) && LastAnswered(rounds, p, answer)
    ensures p in NextPositions(n, rounds) <==> answer.InFlight()
  {
    var k :| 0 <= k < |rounds| && AnsweredIn(rounds[k], p, answer) && forall m | k < m < |rounds| :: p !in rounds[m].positions;
    var j :| 0 <= j < |rounds[k].positions| && j < |rounds[k].answers| && rounds[k].positions[j] == p && rounds[k].answers[j] == answer;
    if answer.InFlight() {
      NextCommand(n, rounds, k);
      assert AskedInFlight(rounds[k], p);
      assert k + 1 == |rounds|;
    } else {
      TerminalNeverResent(n, rounds, k, j, |rounds|);
    }
  }

  lemma HistoryExtends(n: nat, rounds: seq<Round>, round: Round)
    requires IsHistory(n, rounds) && WellFormed(round) && round.positions == NextPositions(n, rounds)
    ensures IsHistory(n, rounds + [round])
  {
    var longer := rounds + [round];
    forall k | 0 <= k < |longer| ensures longer[k].positions == AskedBy(n, longer, k) {
      if k < |rounds| {
        assert longer[k] == rounds[k] && rounds[k].positions == AskedBy(n, rounds, k);
        assert AskedBy(n, longer, k) == AskedBy(n, rounds, k);
      }
    }
  }

  lemma LastAnsweredKept(rounds: seq<Round>, round: Round, p: nat, answer: CancelResult)
    requires LastAnswered(rounds, p, answer) && p !in round.positions
    ensures LastAnswered(rounds + [round], p, answer)
  {
    var k :| 0 <= k < |rounds| && AnsweredIn(rounds[k], p, answer) && forall m | k < m < |rounds| :: p !in rounds[m].positions;
    assert (rounds + [round])[k] == rounds[k];
  }

  lemma LastAnsweredNew(rounds: seq<Round>, round: Round, j: nat)
    requires WellFormed(round) && j < |round.positions|
    ensures LastAnswered(rounds + [round], round.positions[j], round.answers[j])
  {
    assert AnsweredIn((rounds + [round])[|rounds|], round.positions[j], round.answers[j]);
  }

  // The call.

  datatype Pending = Pending(index: nat, identifier: Identifier)

  function PendingAt(ids: seq<Identifier>, positions: seq<nat>): seq<Pending>
    requires forall j | 0 <= j < |positions| :: positions[j] < |ids|
  {
    seq(|positions|, j requires 0 <= j < |positions| => Pending(positions[j], ids[positions[j]]))
  }

  function Identifiers(pending: seq<Pending>): seq<Identifier> {
    seq(|pending|, j requires 0 <= j < |pending| => pending[j].identifier)
  }

  function Indexes(pending: seq<Pending>): seq<nat> {
    seq(|pending|, j requires 0 <= j < |pending| => pending[j].index)
  }

  /** Slots of the stored results that a round overwrites take its answers; the others
      keep theirs. */
  ghost predicate Overwritten(before: seq<Option<CancelResult>>, after: seq<Option<CancelResult>>, round: Round)
    requires WellFormed(round)
  {
    match round
    case Round(positions, answers) =>
      && |after| == |before|
      && (forall j | 0 <= j < |positions| :: positions[j] < |after| && after[positions[j]] == Some(answers[j]))
      && forall p | 0 <= p < |after| && p !in positions :: after[p] == before[p]
  }

  lemma OverwriteNext(before: seq<Option<CancelResult>>, after: seq<Option<CancelResult>>,
                      positions: seq<nat>, answers: seq<CancelResult>, j: nat)
    requires |positions| == |answers| && j < |positions|
    requires Increasing(positions) && InRange(positions, |before|)
    requires Overwritten(before, after, Round(positions[..j], answers[..j]))
    ensures Overwritten(before, after[positions[j] := Some(answers[j])], Round(positions[..j + 1], answers[..j + 1]))
  {
    var longer := positions[..j + 1];
    assert longer == positions[..j] + [positions[j]];
    assert longer[j] in longer;
  }

  lemma PendingAppend(ids: seq<Identifier>, positions: seq<nat>, p: nat)
    requires InRange(positions, |ids|) && p < |ids|
    ensures PendingAt(ids, positions + [p]) == PendingAt(ids, positions) + [Pending(p, ids[p])]
  {}

  method StoreAnswers(ids: seq<Identifier>, stored: seq<Option<CancelResult>>, ghost positions: seq<nat>,
                      pending: seq<Pending>, answers: seq<CancelResult>, mayRetry: bool)
    returns (after: seq<Option<CancelResult>>, retryable: seq<Pending>)
    requires |stored| == |ids| && |answers| == |pending| == |positions|
    requires Increasing(positions) && InRange(positions, |ids|) && pending == PendingAt(ids, positions)
    ensures Overwritten(stored, after, Round(positions, answers))
    ensures InRange(InFlight(Round(positions, answers)), |ids|)
    ensures retryable == if mayRetry then PendingAt(ids, InFlight(Round(positions, answers))) else []
  {
    after, retryable := stored, [];
    ghost var kept: seq<nat> := [];
    for j := 0 to |pending|
      invariant Overwritten(stored, after, Round(positions[..j], answers[..j]))
      invariant kept == InFlight(Round(positions[..j], answers[..j])) && InRange(kept, |ids|)
      invariant retryable == if mayRetry then PendingAt(ids, kept) else []
    {
      InFlightNext(positions, answers, j);
      OverwriteNext(stored, after, positions, answers, j);
      after := after[pending[j].index := Some(answers[j])];
      if answers[j].InFlight() {
        PendingAppend(ids, kept, positions[j]);
        kept := kept + [positions[j]];
        if mayRetry {
          retryable := retryable + [pending[j]];
        }
      }
    }
    assert positions[..|positions|] == positions && answers[..|positions|] == answers;
  }

  ghost predicate StoredIsLast(n: nat, rounds: seq<Round>, stored: seq<Option<CancelResult>>) {
    && |stored| == n
    && forall p | 0 <= p < n ::
         if rounds == [] then stored[p].None? else stored[p].Some? && LastAnswered(rounds, p, stored[p].value)
  }

  lemma AllAskedFirst(n: nat, rounds: seq<Round>, p: nat)
    requires IsHistory(n, rounds) && p < n && p !in NextPositions(n, rounds)
    ensures rounds != []
  {
    assert AllPositions(n)[p] == p;
  }

  lemma StoredStaysLast(n: nat, rounds: seq<Round>, round: Round,
                        before: seq<Option<CancelResult>>, after: seq<Option<CancelResult>>)
    requires IsHistory(n, rounds) && WellFormed(round) && round.positions == NextPositions(n, rounds)
    requires StoredIsLast(n, rounds, before) && Overwritten(before, after, round)
    ensures StoredIsLast(n, rounds + [round], after)
  {
    forall p | 0 <= p < n ensures after[p].Some? && LastAnswered(rounds + [round], p, after[p].value) {
      if p in round.positions {
        var j :| 0 <= j < |round.positions| && round.positions[j] == p;
        LastAnsweredNew(rounds, round, j);
      } else {
        AllAskedFirst(n, rounds, p);
        LastAnsweredKept(rounds, round, p, before[p].value);
      }
    }
  }

  /** Every command sent: the accepted rounds and, when the last one failed, it too. */
  ghost predicate SentFor(ids: seq<Identifier>, rounds: seq<Round>, commands: seq<seq<Identifier>>)
    requires IsHistory(|ids|, rounds)
  {
    && |rounds| <= |commands| <= |rounds| + 1
    && (forall k | 0 <= k < |rounds| :: Names(ids, rounds[k].positions, commands[k]))
    && (|rounds| < |commands| ==> Names(ids, NextPositions(|ids|, rounds), commands[|rounds|]))
  }

  /** Each round holds the server's accepted answer to its command. */
  ghost predicate ServerAnswered(env: Env, rounds: seq<Round>, commands: seq<seq<Identifier>>)
    requires |rounds| <= |commands|
  {
    forall k | 0 <= k < |rounds| ::
      env.reply(k, commands[k]) == Answered(rounds[k].answers) && Accepted(commands[k], rounds[k].answers)
  }

  /** The longest delay before a retry: a tenth of a second, doubled for each earlier
      retry up to one second. */
  function DelayBound(earlier: nat): real {
    if earlier == 0 then 0.1
    else if DelayBound(earlier - 1) < 0.5 then 2.0 * DelayBound(earlier - 1)
    else 1.0
  }

  /** Neither before nor after its delay does a retry reach the deadline or the expiry,
      and the delay itself does not reach them. */
  ghost predicate TimeLeft(env: Env, retry: Retry, expiresMs: Option<int>, attempts: nat)
    requires attempts > 0
  {
    var before, after := env.beforeSleep(attempts), env.afterSleep(attempts);
    var delay := env.draw(attempts) * DelayBound(attempts - 1);
    && (retry.Limits? ==>
          var deadline := env.startS + retry.maxElapsedS;
          before.loopS < deadline && before.loopS + delay < deadline && after.loopS < deadline)
    && (expiresMs.Some? ==>
          && before.wallMs < expiresMs.value && after.wallMs < expiresMs.value
          && before.wallMs as real + 1000.0 * delay < expiresMs.value as real)
  }

  ghost predicate AllLastAnswers(n: nat, rounds: seq<Round>, results: seq<CancelResult>) {
    && |results| == n
    && forall p | 0 <= p < n :: LastAnswered(rounds, p, results[p])
  }

  ghost predicate HoldsInFlight(stored: seq<Option<CancelResult>>, p: nat) {
    p < |stored| && stored[p].Some? && stored[p].value.Rejection? && stored[p].value.error == OrderInFlight
  }

  /** What the caller learns, against the history of the call. */
  ghost predicate Explains(env: Env, ids: seq<Identifier>, retry: Retry, expiresMs: Option<int>,
                           rounds: seq<Round>, commands: seq<seq<Identifier>>, outcome: Outcome)
    requires IsHistory(|ids|, rounds)
  {
    match outcome
    case Returned(results) =>
      && |commands| == |rounds|
      && AllLastAnswers(|ids|, rounds, results)
      && (NextPositions(|ids|, rounds) == []
          || |rounds| >= (if retry.NoRetry? then 1 else retry.maxAttempts)
          || (rounds != [] && !TimeLeft(env, retry, expiresMs, |rounds|)))
    case Raised(failure) =>
      rounds == [] && |commands| == 1 && FailsWith(commands[0], env.reply(0, commands[0]), failure)
    case RetryRaised(stored, pendingIndexes, failure) =>
      && rounds != [] && |commands| == |rounds| + 1
      && FailsWith(commands[|rounds|], env.reply(|rounds|, commands[|rounds|]), failure)
      && StoredIsLast(|ids|, rounds, stored)
      && Increasing(pendingIndexes)
      && (forall p: nat :: p in pendingIndexes <==> HoldsInFlight(stored, p))
    case NoFinalResult => false
  }

  /** The report of a failed retry: every slot has its last answer, and the pending
      indexes are the in-flight ones. */
  lemma FailureReport(env: Env, ids: seq<Identifier>, retry: Retry, expiresMs: Option<int>,
                      rounds: seq<Round>, commands: seq<seq<Identifier>>, stored: seq<Option<CancelResult>>, failure: Failure)
    requires IsHistory(|ids|, rounds) && StoredIsLast(|ids|, rounds, stored)
    requires rounds != [] && |commands| == |rounds| + 1
    requires FailsWith(commands[|rounds|], env.reply(|rounds|, commands[|rounds|]), failure)
    ensures Explains(env, ids, retry, expiresMs, rounds, commands,
                     RetryRaised(stored, NextPositions(|ids|, rounds), failure))
  {
    var next := NextPositions(|ids|, rounds);
    AskedIncreasing(|ids|, rounds, |rounds|);
    forall p: nat ensures p in next <==> HoldsInFlight(stored, p) {
      if p < |ids| {
        PendingIffStoredInFlight(|ids|, rounds, p, stored[p].value);
      }
    }
  }

  lemma NamesPending(ids: seq<Identifier>, positions: seq<nat>)
    requires forall j | 0 <= j < |positions| :: positions[j] < |ids|
    ensures Names(ids, positions, Identifiers(PendingAt(ids, positions)))
    ensures Indexes(PendingAt(ids, positions)) == positions
  {}

  lemma {:induction false} DelayBoundSaturates(earlier: nat)
    requires earlier >= 4
    ensures DelayBound(earlier) == 1.0
  {
    if earlier == 4 {
      assert DelayBound(1) == 0.2 && DelayBound(2) == 0.4 && DelayBound(3) == 0.8;
    } else {
      DelayBoundSaturates(earlier - 1);
    }
  }

  lemma PowersSaturate(bounded: nat)
    requires bounded >= 4
    ensures Min(BASE_DELAY_S * Pow(2, bounded) as real, MAX_DELAY_S) == 1.0
  {
    PowMonotone(2, 4, bounded);
    assert Pow(2, 4) == 16;
  }

  /** The backoff draws a fraction of the bound. */
  lemma BackoffIsBounded(earlier: nat, draw: real)
    ensures JitteredBackoff(earlier, draw) == draw * DelayBound(earlier)
  {
    if earlier < 4 {
      assert Pow(2, 0) == 1 && Pow(2, 1) == 2 && Pow(2, 2) == 4 && Pow(2, 3) == 8;
      assert DelayBound(1) == 0.2 && DelayBound(2) == 0.4 && DelayBound(3) == 0.8;
    } else {
      DelayBoundSaturates(earlier);
      PowersSaturate(if earlier < 64 then earlier else 64);
    }
  }

  lemma MillisecondsLeft(expiresMs: int, nowMs: int, delay: real)
    ensures (expiresMs - nowMs) as real / 1000.0 > 0.0 <==> nowMs < expiresMs
    ensures delay < (expiresMs - nowMs) as real / 1000.0 <==> nowMs as real + 1000.0 * delay < expiresMs as real
  {}

  lemma RemainingExceeds(retry: Retry, startS: real, expiresMs: Option<int>, now: Clock, delay: real)
    ensures var left := Remaining(DeadlineOf(retry, startS), expiresMs, now);
            && (left.None? || left.value > 0.0 <==>
                  && (retry.Limits? ==> now.loopS < startS + retry.maxElapsedS)
                  && (expiresMs.Some? ==> now.wallMs < expiresMs.value))
            && (left.None? || delay < left.value <==>
                  && (retry.Limits? ==> now.loopS + delay < startS + retry.maxElapsedS)
                  && (expiresMs.Some? ==> now.wallMs as real + 1000.0 * delay < expiresMs.value as real))
  {
    if expiresMs.Some? {
      MillisecondsLeft(expiresMs.value, now.wallMs, delay);
    }
  }

  lemma RetriesIffTimeLeft(env: Env, retry: Retry, expiresMs: Option<int>, attempts: nat, delay: real)
    requires attempts > 0 && delay == env.draw(attempts) * DelayBound(attempts - 1)
    ensures var deadline := DeadlineOf(retry, env.startS);
            Sleeps(env, deadline, expiresMs, attempts, delay) && Wakes(env, deadline, expiresMs, attempts)
            <==> TimeLeft(env, retry, expiresMs, attempts)
  {
    RemainingExceeds(retry, env.startS, expiresMs, env.beforeSleep(attempts), delay);
    RemainingExceeds(retry, env.startS, expiresMs, env.afterSleep(attempts), 0.0);
  }

  /** What holds between two commands. */
  ghost predicate Progress(env: Env, ids: seq<Identifier>, rounds: seq<Round>, commands: seq<seq<Identifier>>,
                           stored: seq<Option<CancelResult>>)
  {
    && |rounds| == |commands|
    && IsHistory(|ids|, rounds)
    && SentFor(ids, rounds, commands)
    && ServerAnswered(env, rounds, commands)
    && StoredIsLast(|ids|, rounds, stored)
    && InRange(NextPositions(|ids|, rounds), |ids|)
  }

  lemma ProgressStarts(env: Env, ids: seq<Identifier>, stored: seq<Option<CancelResult>>)
    requires |stored| == |ids| && forall p | 0 <= p < |ids| :: stored[p].None?
    ensures Progress(env, ids, [], [], stored)
  {}

  lemma SentExtends(ids: seq<Identifier>, rounds: seq<Round>, commands: seq<seq<Identifier>>,
                    round: Round, command: seq<Identifier>)
    requires IsHistory(|ids|, rounds) && IsHistory(|ids|, rounds + [round])
    requires |rounds| == |commands| && SentFor(ids, rounds, commands) && Names(ids, round.positions, command)
    ensures SentFor(ids, rounds + [round], commands + [command])
  {
    forall k | 0 <= k <= |rounds| ensures Names(ids, (rounds + [round])[k].positions, (commands + [command])[k]) {
      assert k < |rounds| ==> Names(ids, rounds[k].positions, commands[k]);
    }
  }

  lemma AnsweredExtends(env: Env, rounds: seq<Round>, commands: seq<seq<Identifier>>, round: Round, command: seq<Identifier>)
    requires |rounds| == |commands| && ServerAnswered(env, rounds, commands)
    requires env.reply(|rounds|, command) == Answered(round.answers) && Accepted(command, round.answers)
    ensures ServerAnswered(env, rounds + [round], commands + [command])
  {}

  lemma ProgressContinues(env: Env, ids: seq<Identifier>, rounds: seq<Round>, commands: seq<seq<Identifier>>,
                          stored: seq<Option<CancelResult>>,
                          round: Round, command: seq<Identifier>, after: seq<Option<CancelResult>>)
    requires Progress(env, ids, rounds, commands, stored)
    requires WellFormed(round) && round.positions == NextPositions(|ids|, rounds)
    requires Names(ids, round.positions, command)
    requires env.reply(|rounds|, command) == Answered(round.answers) && Accepted(command, round.answers)
    requires Overwritten(stored, after, round) && InRange(InFlight(round), |ids|)
    ensures Progress(env, ids, rounds + [round], commands + [command], after)
  {
    StoredStaysLast(|ids|, rounds, round, stored, after);
    HistoryExtends(|ids|, rounds, round);
    SentExtends(ids, rounds, commands, round, command);
    AnsweredExtends(env, rounds, commands, round, command);
  }

  method Resolve(stored: seq<Option<CancelResult>>) returns (resolved: Option<seq<CancelResult>>)
    ensures resolved.None? <==> exists p | 0 <= p < |stored| :: stored[p].None?
    ensures resolved.Some? ==>
              && |resolved.value| == |stored|
              && forall p | 0 <= p < |stored| :: stored[p] == Some(resolved.value[p])
  {
    var results: seq<CancelResult> := [];
    for i := 0 to |stored|
      invariant |results| == i
      invariant forall p | 0 <= p < i :: stored[p] == Some(results[p])
    {
      if stored[i].None? {
        return None;
      }
      results := results + [stored[i].value];
    }
    return Some(results);
  }

  /** Whether another command goes out after the backoff. */
  method AwaitRetry(env: Env, retry: Retry, expiresMs: Option<int>, attempts: nat) returns (go: bool)
    requires attempts > 0
    ensures go <==> TimeLeft(env, retry, expiresMs, attempts)
  {
    var delay := JitteredBackoff(attempts - 1, env.draw(attempts));
    BackoffIsBounded(attempts - 1, env.draw(attempts));
    RetriesIffTimeLeft(env, retry, expiresMs, attempts, delay);
    var deadline := DeadlineOf(retry, env.startS);
    if !Sleeps(env, deadline, expiresMs, attempts, delay) {
      return false;
    }
    if !Wakes(env, deadline, expiresMs, attempts) {
      return false;
    }
    return true;
  }

  ghost predicate AllInTime(env: Env, retry: Retry, expiresMs: Option<int>, sent: nat) {
    forall k: nat | 1 <= k < sent :: TimeLeft(env, retry, expiresMs, k)
  }

  lemma OneMoreInTime(env: Env, retry: Retry, expiresMs: Option<int>, sent: nat)
    requires AllInTime(env, retry, expiresMs, sent) && (sent > 0 ==> TimeLeft(env, retry, expiresMs, sent))
    ensures AllInTime(env, retry, expiresMs, sent + 1)
  {}

  /** The contract of a whole call: the commands are the successive in-flight sub-lists,
      they go out in time and within the attempts, and every reported slot holds that
      order's last answer. */
  ghost predicate CallContract(env: Env, ids: seq<Identifier>, retry: Retry, expiresMs: Option<int>,
                               rounds: seq<Round>, commands: seq<seq<Identifier>>, outcome: Outcome)
  {
    && IsHistory(|ids|, rounds)
    && SentFor(ids, rounds, commands)
    && ServerAnswered(env, rounds, commands)
    && |commands| <= (if retry.Limits? && retry.maxAttempts > 1 then retry.maxAttempts else 1)
    && AllInTime(env, retry, expiresMs, |commands|)
    && Explains(env, ids, retry, expiresMs, rounds, commands, outcome)
  }

  lemma FirstFailureContract(env: Env, ids: seq<Identifier>, retry: Retry, expiresMs: Option<int>,
                             command: seq<Identifier>, failure: Failure)
    requires Names(ids, AllPositions(|ids|), command) && FailsWith(command, env.reply(0, command), failure)
    ensures CallContract(env, ids, retry, expiresMs, [], [command], Raised(failure))
  {}

  lemma LaterFailureContract(env: Env, ids: seq<Identifier>, retry: Retry, expiresMs: Option<int>,
                             rounds: seq<Round>, commands: seq<seq<Identifier>>, stored: seq<Option<CancelResult>>,
                             command: seq<Identifier>, failure: Failure)
    requires Progress(env, ids, rounds, commands, stored) && rounds != []
    requires Names(ids, NextPositions(|ids|, rounds), command)
    requires FailsWith(command, env.reply(|rounds|, command), failure)
    requires |rounds| < MaxAttempts(retry) && AllInTime(env, retry, expiresMs, |commands| + 1)
    ensures CallContract(env, ids, retry, expiresMs, rounds, commands + [command],
                         RetryRaised(stored, NextPositions(|ids|, rounds), failure))
  {
    FailureReport(env, ids, retry, expiresMs, rounds, commands + [command], stored, failure);
  }

  lemma ReturnContract(env: Env, ids: seq<Identifier>, retry: Retry, expiresMs: Option<int>,
                       rounds: seq<Round>, commands: seq<seq<Identifier>>, stored: seq<Option<CancelResult>>,
                       results: Option<seq<CancelResult>>)
    requires Progress(env, ids, rounds, commands, stored)
    requires |commands| <= (if MaxAttempts(retry) < 1 then 1 else MaxAttempts(retry))
    requires AllInTime(env, retry, expiresMs, |commands|)
    requires NextPositions(|ids|, rounds) == []
             || (rounds != [] && (|rounds| >= MaxAttempts(retry) || !TimeLeft(env, retry, expiresMs, |rounds|)))
    requires results.None? <==> exists p | 0 <= p < |stored| :: stored[p].None?
    requires results.Some? ==> |results.value| == |stored| && forall p | 0 <= p < |stored| :: stored[p] == Some(results.value[p])
    ensures results.Some? && CallContract(env, ids, retry, expiresMs, rounds, commands, Returned(results.value))
  {
    NoSlotUnanswered(|ids|, rounds, stored);
  }

  lemma NoSlotUnanswered(n: nat, rounds: seq<Round>, stored: seq<Option<CancelResult>>)
    requires IsHistory(n, rounds) && StoredIsLast(n, rounds, stored)
    requires rounds == [] ==> NextPositions(n, rounds) == []
    ensures forall p | 0 <= p < |stored| :: stored[p].Some?
  {
    assert rounds == [] ==> |AllPositions(n)| == n;
  }

  /** One command for the pending orders; its accepted answers are stored. */
  method Attempt(ids: seq<Identifier>, env: Env, mayRetry: bool, attempts: nat, stored: seq<Option<CancelResult>>,
                 pending: seq<Pending>, ghost rounds: seq<Round>, ghost commands: seq<seq<Identifier>>)
    returns (failure: Option<Failure>, command: seq<Identifier>, after: seq<Option<CancelResult>>,
             retryable: seq<Pending>, ghost round: Round)
    requires Progress(env, ids, rounds, commands, stored) && attempts == |rounds|
    requires pending == PendingAt(ids, NextPositions(|ids|, rounds))
    ensures Names(ids, NextPositions(|ids|, rounds), command)
    ensures failure.Some? ==> FailsWith(command, env.reply(attempts, command), failure.value)
    ensures failure.None? ==>
              && Progress(env, ids, rounds + [round], commands + [command], after)
              && retryable == if mayRetry then PendingAt(ids, NextPositions(|ids|, rounds + [round])) else []
  {
    ghost var positions := NextPositions(|ids|, rounds);
    AskedIncreasing(|ids|, rounds, |rounds|);
    NamesPending(ids, positions);
    command := Identifiers(pending);
    var answer := Validate(command, env.reply(attempts, command));
    if answer.Failure? {
      return Some(answer.error), command, stored, pending, Round([], []);
    }
    round := Round(positions, answer.value);
    failure := None;
    after, retryable := StoreAnswers(ids, stored, positions, pending, answer.value, mayRetry);
    ProgressContinues(env, ids, rounds, commands, stored, round, command, after);
  }

  /** Giving up is never for nothing: a call that returns an order in flight with attempts
      left was out of time, as a clock reading or its delay shows. */
  lemma GivingUpIsOutOfTime(env: Env, ids: seq<Identifier>, retry: Retry, expiresMs: Option<int>, rounds: seq<Round>,
                            commands: seq<seq<Identifier>>, results: seq<CancelResult>, p: nat)
    requires CallContract(env, ids, retry, expiresMs, rounds, commands, Returned(results))
    requires p < |results| && results[p].Rejection? && results[p].error == OrderInFlight
    requires retry.Limits? && |commands| < retry.maxAttempts
    ensures |commands| > 0
    ensures var k := |commands|;
            var before, after, deadline := env.beforeSleep(k), env.afterSleep(k), env.startS + retry.maxElapsedS;
            var delay := env.draw(k) * DelayBound(k - 1);
            || before.loopS >= deadline || after.loopS >= deadline || before.loopS + delay >= deadline
            || (expiresMs.Some? &&
                  (|| before.wallMs >= expiresMs.value || after.wallMs >= expiresMs.value
                   || before.wallMs as real + 1000.0 * delay >= expiresMs.value as real))
  {
    PendingIffStoredInFlight(|ids|, rounds, p, results[p]);
  }

  method CancelOrdersWithRetry(ids: seq<Identifier>, retry: Retry, expiresMs: Option<int>, env: Env)
    returns (outcome: Outcome, commands: seq<seq<Identifier>>)
    ensures exists rounds :: CallContract(env, ids, retry, expiresMs, rounds, commands, outcome)
  {
    var maxAttempts := MaxAttempts(retry);
    var stored: seq<Option<CancelResult>> := seq(|ids|, _ => None);
    var pending := PendingAt(ids, AllPositions(|ids|));
    var attempts := 0;
    commands := [];
    ghost var rounds: seq<Round> := [];
    ProgressStarts(env, ids, stored);

    while pending != []
      invariant attempts == |rounds| && Progress(env, ids, rounds, commands, stored)
      invariant attempts <= if maxAttempts < 1 then 1 else maxAttempts
      invariant pending == if attempts == 0 || attempts < maxAttempts then PendingAt(ids, NextPositions(|ids|, rounds)) else []
      invariant AllInTime(env, retry, expiresMs, |commands|)
      decreases if attempts == 0 then 1 else 0, maxAttempts - attempts
    {
      if attempts > 0 {
        var go := AwaitRetry(env, retry, expiresMs, attempts);
        if !go {
          break;
        }
      }
      OneMoreInTime(env, retry, expiresMs, attempts);
      var failure, command, after, retryable, round :=
        Attempt(ids, env, attempts + 1 < maxAttempts, attempts, stored, pending, rounds, commands);
      if failure.Some? {
        if attempts == 0 {
          FirstFailureContract(env, ids, retry, expiresMs, command, failure.value);
          return Raised(failure.value), [command];
        }
        LaterFailureContract(env, ids, retry, expiresMs, rounds, commands, stored, command, failure.value);
        NamesPending(ids, NextPositions(|ids|, rounds));
        return RetryRaised(stored, Indexes(pending), failure.value), commands + [command];
      }
      attempts, stored, pending := attempts + 1, after, retryable;
      commands, rounds := commands + [command], rounds + [round];
    }

    var resolved := Resolve(stored);
    ReturnContract(env, ids, retry, expiresMs, rounds, commands, stored, resolved);
    return if resolved.Some? then Returned(resolved.value) else NoFinalResult, commands;
  }
}
