/** The stream of events a session emits, and what its bounded queue does to it. */
module SessionStream {
  import opened Wrappers
  import opened SessionState

  /** What has happened to events so far: emitted by the session, pushed to the queue
      before the end, taken by the consumer (each with its place among the pushed), and
      whether the end itself evicted one. */
  datatype Book = Book(
    emitted: seq<Event>,
    pushed: seq<Event>,
    taken: seq<Item>,
    takenAt: seq<nat>,
    endEvicted: bool)

  const EMPTY_BOOK := Book([], [], [], [], false)

  datatype History = History(session: Session, book: Book)

  function EventsOf(s: Session, atom: Atom): seq<Event> {
    match atom
    case Arrival(wire) => Emissions(s.sequences, wire)
    case Reconnect => [RECONNECTED]
    case _ => []
  }

  function Waiting(s: Session): nat {
    if s.ended && s.queue != [] then |s.queue| - 1 else |s.queue|
  }

  function Record(s: Session, b: Book, atom: Atom): Book {
    match atom
    case Take =>
      if s.queue == [] then b
      else if s.queue[0].End? then b.(taken := b.taken + [End])
      else b.(taken := b.taken + [s.queue[0]],
              takenAt := b.takenAt + [if Waiting(s) <= |b.pushed| then |b.pushed| - Waiting(s) else 0])
    case FinishClose => b.(endEvicted := b.endEvicted || (!s.ended && |s.queue| >= QUEUE_SIZE))
    case _ =>
      b.(emitted := b.emitted + EventsOf(s, atom), pushed := if s.ended then b.pushed else b.pushed + EventsOf(s, atom))
  }

  function Next(h: History, atom: Atom): History {
    History(Step(h.session, atom), Record(h.session, h.book, atom))
  }

  /** The session and its book after any sequence of steps from the start. */
  function Play(atoms: seq<Atom>): History {
    if atoms == [] then History(INITIAL, EMPTY_BOOK)
    else Next(Play(atoms[..|atoms| - 1]), atoms[|atoms| - 1])
  }

  lemma {:induction false} PlayIsRun(atoms: seq<Atom>)
    ensures Play(atoms).session == Run(INITIAL, atoms)
  {
    if atoms == [] {
    } else {
      var init, last := atoms[..|atoms| - 1], atoms[|atoms| - 1];
      PlayIsRun(init);
      assert atoms == init + [last];
      RunConcat(INITIAL, init, [last]);
      assert Run(Run(INITIAL, init), [last]) == Run(Step(Run(INITIAL, init), last), []) by {
        assert [last][1..] == [];
      }
    }
  }

  // Gap markers.

  predicate On(e: Event, channel: string) {
    e.Update? && e.channel == channel
  }

  /** The channels whose gaps the client reports; on the other two the server does. */
  predicate Watched(channel: string) {
    channel != "notifications" && channel != "builderFills"
  }

  lemma TrackedAreWatched(channel: string)
    ensures Tracked(channel) <==> Watched(channel)
  {}

  predicate IsReconnect(e: Event) {
    e.Resync? && e.reason == Reconnected
  }

  predicate IsGap(e: Event, channel: string) {
    e.Resync? && e.reason == SequenceGap && e.channelName == Some(channel)
  }

  /** Two successive events of a channel, with no reconnect between them. */
  ghost predicate Adjacent(es: seq<Event>, i: nat, j: nat, channel: string) {
    && i < j < |es| && On(es[i], channel) && On(es[j], channel)
    && forall k | i < k < j :: !On(es[k], channel) && !IsReconnect(es[k])
  }

  /** The events follow on and no marker stands between them, or exactly one does,
      right before the second, naming both sequences. */
  ghost predicate MarkedExactly(es: seq<Event>, i: nat, j: nat, channel: string)
    requires Adjacent(es, i, j, channel)
  {
    if es[j].sequence == es[i].sequence + 1 then
      forall k | i < k < j :: !IsGap(es[k], channel)
    else
      && es[j - 1] == Resync(SequenceGap, Some(channel), Some(es[i].sequence), Some(es[j].sequence))
      && forall k | i < k < j - 1 :: !IsGap(es[k], channel)
  }

  ghost predicate Justified(es: seq<Event>, k: nat, channel: string) {
    && Watched(channel) && k + 1 < |es|
    && exists i: nat ::
         && Adjacent(es, i, k + 1, channel)
         && es[k + 1].sequence != es[i].sequence + 1
         && es[k] == Resync(SequenceGap, Some(channel), Some(es[i].sequence), Some(es[k + 1].sequence))
  }

  /** Gap markers are complete and sound. */
  ghost predicate GapsExact(es: seq<Event>) {
    && (forall channel, i: nat, j: nat | Watched(channel) && Adjacent(es, i, j, channel) :: MarkedExactly(es, i, j, channel))
    && (forall channel, k: nat | k < |es| && IsGap(es[k], channel) :: Justified(es, k, channel))
  }

  /** `i` is the channel's last event since the last reconnect. */
  ghost predicate Latest(es: seq<Event>, i: nat, channel: string) {
    && i < |es| && On(es[i], channel)
    && forall k | i < k < |es| :: !On(es[k], channel) && !IsReconnect(es[k])
  }

  /** The session remembers the sequence of each tracked channel's latest event. */
  ghost predicate Remembers(sequences: map<string, int>, es: seq<Event>) {
    forall channel | Watched(channel) ::
      && (channel in sequences ==> exists i: nat :: Latest(es, i, channel) && es[i].sequence == sequences[channel])
      && (channel !in sequences ==> forall i: nat :: !Latest(es, i, channel))
  }

  lemma NoGapAfterLatest(es: seq<Event>, i: nat, channel: string)
    requires GapsExact(es) && Latest(es, i, channel)
    ensures forall k | i < k < |es| :: !IsGap(es[k], channel)
  {
    forall k: nat | i < k < |es| ensures !IsGap(es[k], channel) {
      assert !Justified(es, k, channel);
    }
  }

  lemma LatestUnique(es: seq<Event>, i: nat, j: nat, channel: string)
    requires Latest(es, i, channel) && Latest(es, j, channel)
    ensures i == j
  {}

  /** Old pairs and markers are judged as before when the stream grows. */
  lemma OldPairsKept(es: seq<Event>, more: seq<Event>)
    requires GapsExact(es)
    ensures forall channel, i: nat, j: nat | Watched(channel) && j < |es| && Adjacent(es + more, i, j, channel) ::
              MarkedExactly(es + more, i, j, channel)
    ensures forall channel, k: nat | k < |es| && IsGap((es + more)[k], channel) :: Justified(es + more, k, channel)
  {
    var longer := es + more;
    forall channel, i: nat, j: nat | Watched(channel) && j < |es| && Adjacent(longer, i, j, channel)
      ensures MarkedExactly(longer, i, j, channel)
    {
      AdjacentInPrefix(es, more, i, j, channel);
      assert MarkedExactly(es, i, j, channel);
    }
    forall channel, k: nat | k < |es| && IsGap(longer[k], channel) ensures Justified(longer, k, channel) {
      assert longer[k] == es[k];
      assert Justified(es, k, channel);
      var i: nat :| Adjacent(es, i, k + 1, channel) && es[k + 1].sequence != es[i].sequence + 1
                    && es[k] == Gap(channel, es[i].sequence, es[k + 1].sequence);
      AdjacentInPrefix(es, more, i, k + 1, channel);
    }
  }

  lemma AdjacentInPrefix(es: seq<Event>, more: seq<Event>, i: nat, j: nat, channel: string)
    requires j < |es|
    ensures Adjacent(es, i, j, channel) <==> Adjacent(es + more, i, j, channel)
  {
    var longer := es + more;
    assert forall k | 0 <= k < |es| :: longer[k] == es[k];
  }

  lemma NewPair(es: seq<Event>, e: Event, i: nat, channel: string)
    ensures Adjacent(es + [e], i, |es|, channel) <==> On(e, channel) && Latest(es, i, channel)
  {
    assert forall k | 0 <= k < |es| :: (es + [e])[k] == es[k];
  }

  lemma LatestAfter(es: seq<Event>, e: Event, i: nat, channel: string)
    requires !On(e, channel) && !IsReconnect(e)
    ensures Latest(es + [e], i, channel) <==> Latest(es, i, channel)
  {
    assert forall k | 0 <= k < |es| :: (es + [e])[k] == es[k];
  }

  lemma LatestIsNew(es: seq<Event>, e: Event, i: nat, channel: string)
    requires On(e, channel)
    ensures Latest(es + [e], i, channel) <==> i == |es|
  {
    assert (es + [e])[|es|] == e;
  }

  /** An event of no tracked channel, nor a gap marker, changes nothing that is judged. */
  lemma AppendBystander(es: seq<Event>, e: Event)
    requires GapsExact(es)
    requires forall channel | Watched(channel) :: !On(e, channel)
    requires forall channel :: !IsGap(e, channel)
    ensures GapsExact(es + [e])
  {
    OldPairsKept(es, [e]);
  }

  /** A channel's event that follows on, or has nothing to follow. */
  lemma AppendFollowing(es: seq<Event>, e: Event)
    requires GapsExact(es) && e.Update?
    requires forall i: nat | Latest(es, i, e.channel) :: e.sequence == es[i].sequence + 1
    ensures GapsExact(es + [e])
  {
    var longer := es + [e];
    OldPairsKept(es, [e]);
    forall channel, i: nat, j: nat | Watched(channel) && Adjacent(longer, i, j, channel)
      ensures MarkedExactly(longer, i, j, channel)
    {
      if j == |es| {
        NewPair(es, e, i, channel);
        NoGapAfterLatest(es, i, channel);
        assert forall k | 0 <= k < |es| :: longer[k] == es[k];
      }
    }
  }

  /** A channel's event that skips: its marker comes right before it. */
  lemma AppendSkipping(es: seq<Event>, i: nat, e: Event)
    requires GapsExact(es) && e.Update? && Watched(e.channel)
    requires Latest(es, i, e.channel) && e.sequence != es[i].sequence + 1
    ensures GapsExact(es + [Gap(e.channel, es[i].sequence, e.sequence), e])
  {
    var gap := Gap(e.channel, es[i].sequence, e.sequence);
    var longer := es + [gap, e];
    var n := |es|;
    assert longer == (es + [gap]) + [e];
    assert forall k | 0 <= k < n :: longer[k] == es[k];
    OldPairsKept(es, [gap, e]);
    LatestAfter(es, gap, i, e.channel);
    NewPair(es + [gap], e, i, e.channel);
    assert Justified(longer, n, e.channel);
    forall channel, h: nat, j: nat | Watched(channel) && Adjacent(longer, h, j, channel)
      ensures MarkedExactly(longer, h, j, channel)
    {
      if j == n + 1 {
        NewPair(es + [gap], e, h, channel);
        LatestAfter(es, gap, h, channel);
        LatestUnique(es, h, i, channel);
        NoGapAfterLatest(es, i, channel);
      }
    }
  }

  lemma RememberedLatest(sequences: map<string, int>, es: seq<Event>, channel: string, i: nat)
    requires Remembers(sequences, es) && Watched(channel) && Latest(es, i, channel)
    ensures channel in sequences && es[i].sequence == sequences[channel]
  {
    if channel in sequences {
      var j: nat :| Latest(es, j, channel) && es[j].sequence == sequences[channel];
      LatestUnique(es, i, j, channel);
    }
  }

  lemma RememberBystander(sequences: map<string, int>, es: seq<Event>, e: Event)
    requires Remembers(sequences, es) && !IsReconnect(e)
    requires forall channel | Watched(channel) :: !On(e, channel)
    ensures Remembers(sequences, es + [e])
  {
    forall channel, i: nat | Watched(channel)
      ensures Latest(es + [e], i, channel) <==> Latest(es, i, channel)
    {
      LatestAfter(es, e, i, channel);
    }
    forall channel | Watched(channel) && channel in sequences
      ensures exists i: nat :: Latest(es + [e], i, channel) && (es + [e])[i].sequence == sequences[channel]
    {
      var i: nat :| Latest(es, i, channel) && es[i].sequence == sequences[channel];
      assert Latest(es + [e], i, channel);
    }
  }

  lemma RememberUpdate(sequences: map<string, int>, es: seq<Event>, e: Event)
    requires Remembers(sequences, es) && e.Update? && Watched(e.channel)
    ensures Remembers(sequences[e.channel := e.sequence], es + [e])
  {
    forall channel, i: nat | Watched(channel)
      ensures Latest(es + [e], i, channel) <==> if channel == e.channel then i == |es| else Latest(es, i, channel)
    {
      if channel == e.channel {
        LatestIsNew(es, e, i, channel);
      } else {
        LatestAfter(es, e, i, channel);
      }
    }
    var updated := sequences[e.channel := e.sequence];
    forall channel | Watched(channel) && channel in updated
      ensures exists i: nat :: Latest(es + [e], i, channel) && (es + [e])[i].sequence == updated[channel]
    {
      if channel == e.channel {
        assert Latest(es + [e], |es|, channel);
      } else {
        var i: nat :| Latest(es, i, channel) && es[i].sequence == sequences[channel];
        assert Latest(es + [e], i, channel);
      }
    }
  }

  lemma RememberReconnect(es: seq<Event>)
    ensures Remembers(map[], es + [RECONNECTED])
  {
    assert (es + [RECONNECTED])[|es|] == RECONNECTED;
  }

  lemma ArrivalKeepsGaps(sequences: map<string, int>, es: seq<Event>, wire: Wire)
    requires GapsExact(es) && Remembers(sequences, es)
    ensures GapsExact(es + Emissions(sequences, wire))
    ensures Remembers(TrackedSequences(sequences, wire), es + Emissions(sequences, wire))
  {
    var e := EventOf(wire);
    TrackedAreWatched(wire.channel);
    if wire.WireResync? || !Tracked(wire.channel) {
      AppendBystander(es, e);
      RememberBystander(sequences, es, e);
    } else if wire.channel !in sequences || wire.sequence == sequences[wire.channel] + 1 {
      forall i: nat | Latest(es, i, e.channel) ensures e.sequence == es[i].sequence + 1 {
        RememberedLatest(sequences, es, e.channel, i);
      }
      AppendFollowing(es, e);
      RememberUpdate(sequences, es, e);
    } else {
      var i: nat :| Latest(es, i, e.channel) && es[i].sequence == sequences[e.channel];
      var gap := Gap(e.channel, es[i].sequence, e.sequence);
      AppendSkipping(es, i, e);
      RememberBystander(sequences, es, gap);
      RememberUpdate(sequences, es + [gap], e);
      assert es + [gap, e] == es + [gap] + [e];
    }
  }

  /** Gap markers are exact, and the session remembers what it needs to keep them so. */
  ghost predicate GapsKept(h: History) {
    GapsExact(h.book.emitted) && Remembers(h.session.sequences, h.book.emitted)
  }

  lemma ArrivalKeepsGapsKept(h: History, wire: Wire)
    requires GapsKept(h)
    ensures GapsKept(Next(h, Arrival(wire)))
  {
    ArrivalKeepsGaps(h.session.sequences, h.book.emitted, wire);
    ArrivalOnly(h.session, wire);
  }

  lemma ReconnectKeepsGapsKept(h: History)
    requires GapsKept(h)
    ensures GapsKept(Next(h, Reconnect))
  {
    AppendBystander(h.book.emitted, RECONNECTED);
    RememberReconnect(h.book.emitted);
  }

  lemma SilentStep(h: History, atom: Atom)
    requires !atom.Arrival? && !atom.Reconnect?
    ensures Next(h, atom).book.emitted == h.book.emitted && Next(h, atom).session.sequences == h.session.sequences
  {
    assert h.book.emitted + [] == h.book.emitted;
  }

  lemma StepKeepsGapsKept(h: History, atom: Atom)
    requires GapsKept(h)
    ensures GapsKept(Next(h, atom))
  {
    match atom
    case Arrival(wire) => ArrivalKeepsGapsKept(h, wire);
    case Reconnect => ReconnectKeepsGapsKept(h);
    case _ => SilentStep(h, atom);
  }

  lemma {:induction false} RunKeepsGapsKept(atoms: seq<Atom>)
    ensures GapsKept(Play(atoms))
  {
    if atoms == [] {
    } else {
      RunKeepsGapsKept(atoms[..|atoms| - 1]);
      StepKeepsGapsKept(Play(atoms[..|atoms| - 1]), atoms[|atoms| - 1]);
    }
  }

  /** Gap detection, over every run with any number of reconnects. On every channel but the
      two that the server watches, two successive events with no reconnect between them
      follow on, or exactly one marker stands right before the second; every gap marker is
      one of these, and none names those two channels. */
  lemma GapDetection(atoms: seq<Atom>)
    ensures var es := Play(atoms).book.emitted;
            && (forall channel, i: nat, j: nat |
                  channel != "notifications" && channel != "builderFills" && Adjacent(es, i, j, channel) ::
                  MarkedExactly(es, i, j, channel))
            && (forall channel, k: nat | k < |es| && IsGap(es[k], channel) ::
                  channel != "notifications" && channel != "builderFills" && Justified(es, k, channel))
    ensures var h := Play(atoms);
            forall channel | channel != "notifications" && channel != "builderFills" ::
              && (channel in h.session.sequences ==>
                    exists i: nat :: Latest(h.book.emitted, i, channel) && h.book.emitted[i].sequence == h.session.sequences[channel])
              && (channel !in h.session.sequences ==> forall i: nat :: !Latest(h.book.emitted, i, channel))
  {
    RunKeepsGapsKept(atoms);
  }

  // The stream without its markers is what arrived.

  /** The events of a stream that are neither gap nor reconnect markers. */
  function Unmarked(es: seq<Event>): seq<Event> {
    if es == [] then []
    else
      var before, last := Unmarked(es[..|es| - 1]), es[|es| - 1];
      if last.Resync? && last.reason != ServerReport then before else before + [last]
  }

  /** What the server sent, in order: channel, sequence and payload as received. */
  function Arrivals(atoms: seq<Atom>): seq<Event> {
    if atoms == [] then []
    else
      var before := Arrivals(atoms[..|atoms| - 1]);
      match atoms[|atoms| - 1]
      case Arrival(WireUpdate(channel, sequence, payload)) => before + [Update(channel, sequence, payload)]
      case Arrival(WireResync(channel, sequence)) => before + [Resync(ServerReport, Some(channel), None, Some(sequence))]
      case _ => before
  }

  lemma UnmarkedAppend(es: seq<Event>, e: Event)
    ensures Unmarked(es + [e]) == if e.Resync? && e.reason != ServerReport then Unmarked(es) else Unmarked(es) + [e]
  {
    assert (es + [e])[..|es|] == es;
  }

  lemma EmissionsDeliver(sequences: map<string, int>, es: seq<Event>, wire: Wire)
    ensures Unmarked(es + Emissions(sequences, wire)) == Unmarked(es) + [EventOf(wire)]
  {
    var e := EventOf(wire);
    if |Emissions(sequences, wire)| == 2 {
      var gap := Gap(wire.channel, sequences[wire.channel], wire.sequence);
      UnmarkedAppend(es, gap);
      UnmarkedAppend(es + [gap], e);
      assert es + [gap, e] == es + [gap] + [e];
    } else {
      UnmarkedAppend(es, e);
    }
  }

  /** Over every run, dropping the markers from the emitted stream leaves exactly the
      events that arrived, in order and intact. */
  lemma {:induction false} ArrivalsDelivered(atoms: seq<Atom>)
    ensures Unmarked(Play(atoms).book.emitted) == Arrivals(atoms)
  {
    if atoms == [] {
    } else {
      var h, last := Play(atoms[..|atoms| - 1]), atoms[|atoms| - 1];
      ArrivalsDelivered(atoms[..|atoms| - 1]);
      match last
      case Arrival(wire) => EmissionsDeliver(h.session.sequences, h.book.emitted, wire);
      case Reconnect => UnmarkedAppend(h.book.emitted, RECONNECTED);
      case _ => SilentStep(h, last);
    }
  }

  // The bounded queue.

  function TakenEvents(s: Session, b: Book): int {
    if s.ended && s.queue == [] then |b.taken| - 1 else |b.taken|
  }

  /** The queue holds the newest pushed events in order; the end, once there, stands last. */
  ghost predicate QueueInOrder(s: Session, b: Book) {
    && |s.queue| <= QUEUE_SIZE
    && (s.ended && s.queue != [] ==> s.queue[|s.queue| - 1] == End)
    && Waiting(s) <= |b.pushed|
    && (forall i | 0 <= i < Waiting(s) :: s.queue[i] == Queued(b.pushed[|b.pushed| - Waiting(s) + i]))
  }

  /** What the consumer took is an ordered selection of what was pushed before what is
      queued; after the end it takes nothing more. */
  ghost predicate TakenInOrder(s: Session, b: Book) {
    && Waiting(s) <= |b.pushed|
    && (s.ended && s.queue == [] ==> b.taken != [] && b.taken[|b.taken| - 1] == End)
    && |b.takenAt| == TakenEvents(s, b)
    && (forall i | 0 <= i < |b.takenAt| ::
          && b.takenAt[i] < |b.pushed| - Waiting(s)
          && b.taken[i] == Queued(b.pushed[b.takenAt[i]]))
    && (forall i, j | 0 <= i < j < |b.takenAt| :: b.takenAt[i] < b.takenAt[j])
  }

  /** Every pushed event is taken, queued or counted as dropped, save the one that the
      end itself may evict. */
  ghost predicate Counted(s: Session, b: Book) {
    && |b.pushed| == |b.takenAt| + Waiting(s) + s.dropped + (if b.endEvicted then 1 else 0)
    && (b.endEvicted ==> s.ended)
    && (!s.ended ==> b.pushed == b.emitted)
    && b.pushed <= b.emitted
  }

  ghost predicate Accounts(s: Session, b: Book) {
    QueueInOrder(s, b) && TakenInOrder(s, b) && Counted(s, b)
  }

  function Noted(b: Book, ended: bool, events: seq<Event>): Book {
    b.(emitted := b.emitted + events, pushed := if ended then b.pushed else b.pushed + events)
  }

  lemma PushQueueInOrder(s: Session, b: Book, e: Event)
    requires QueueInOrder(s, b)
    ensures QueueInOrder(Push(s, e), Noted(b, s.ended, [e]))
  {}

  lemma PushTakenInOrder(s: Session, b: Book, e: Event)
    requires TakenInOrder(s, b)
    ensures TakenInOrder(Push(s, e), Noted(b, s.ended, [e]))
  {}

  lemma PushAccounts(s: Session, b: Book, e: Event)
    requires Accounts(s, b)
    ensures Accounts(Push(s, e), Noted(b, s.ended, [e]))
  {
    PushQueueInOrder(s, b, e);
    PushTakenInOrder(s, b, e);
  }

  lemma EmitAccounts(s: Session, b: Book, e: Event)
    requires Accounts(s, b)
    ensures Accounts(Emit(s, e), Noted(b, s.ended, [e]))
    ensures Emit(s, e).ended == s.ended
  {
    PushAccounts(s.(waiterFutures := Notify(s.waiters, s.waiterFutures, e)), b, e);
  }

  lemma NotedTwice(b: Book, ended: bool, first: seq<Event>, rest: seq<Event>)
    ensures Noted(Noted(b, ended, first), ended, rest) == Noted(b, ended, first + rest)
  {
    assert b.emitted + first + rest == b.emitted + (first + rest);
    assert b.pushed + first + rest == b.pushed + (first + rest);
  }

  lemma {:induction false} EmitAllAccounts(s: Session, b: Book, events: seq<Event>, r: Session, c: Book)
    requires Accounts(s, b) && r == EmitAll(s, events) && c == Noted(b, s.ended, events)
    ensures Accounts(r, c)
    decreases |events|
  {
    if events == [] {
      assert b.emitted + [] == b.emitted && b.pushed + [] == b.pushed;
      assert c == b && r == s;
    } else {
      EmitAccounts(s, b, events[0]);
      NotedTwice(b, s.ended, [events[0]], events[1..]);
      assert [events[0]] + events[1..] == events;
      EmitAllAccounts(Emit(s, events[0]), Noted(b, s.ended, [events[0]]), events[1..], r, c);
    }
  }

  lemma TakeQueueInOrder(s: Session, b: Book)
    requires QueueInOrder(s, b)
    ensures QueueInOrder(Step(s, Take), Record(s, b, Take))
  {}

  lemma TakeTakenInOrder(s: Session, b: Book)
    requires QueueInOrder(s, b) && TakenInOrder(s, b)
    ensures TakenInOrder(Step(s, Take), Record(s, b, Take))
  {}

  lemma TakeAccounts(s: Session, b: Book)
    requires Accounts(s, b)
    ensures Accounts(Step(s, Take), Record(s, b, Take))
  {
    TakeQueueInOrder(s, b);
    TakeTakenInOrder(s, b);
  }

  /** The queue after `_end` runs on a session that was not ended. */
  lemma EndQueueInOrder(s: Session, b: Book, r: Session)
    requires QueueInOrder(s, b) && !s.ended && r.ended
    requires r.queue == (if |s.queue| >= QUEUE_SIZE then s.queue[1..] else s.queue) + [End]
    ensures QueueInOrder(r, b) && Waiting(r) == |r.queue| - 1
  {}

  lemma EndTakenInOrder(s: Session, b: Book, r: Session)
    requires TakenInOrder(s, b) && !s.ended && r.ended && r.queue != [] && Waiting(r) <= Waiting(s)
    ensures TakenInOrder(r, b)
  {}

  lemma EndCounted(s: Session, b: Book, r: Session)
    requires Counted(s, b) && !s.ended && r.ended && r.dropped == s.dropped && !b.endEvicted
    requires Waiting(r) == Waiting(s) - if |s.queue| >= QUEUE_SIZE then 1 else 0
    ensures Counted(r, b.(endEvicted := |s.queue| >= QUEUE_SIZE))
  {}

  lemma EndAccounts(s: Session, b: Book, torn: Session)
    requires Accounts(s, b) && torn.queue == s.queue && torn.dropped == s.dropped && torn.ended == s.ended
    ensures Accounts(Finish(torn), Record(s, b, FinishClose))
  {
    if s.ended {
      AlikeAccounts(s, torn, b);
    } else {
      var r := Finish(torn);
      EndQueueInOrder(s, b, r);
      EndTakenInOrder(s, b, r);
      EndCounted(s, b, r);
    }
  }

  lemma AlikeAccounts(s: Session, r: Session, b: Book)
    requires Accounts(s, b) && r.queue == s.queue && r.dropped == s.dropped && r.ended == s.ended
    ensures Accounts(r, b)
  {}

  lemma ArrivalAccounts(s: Session, b: Book, wire: Wire)
    requires Accounts(s, b)
    ensures Accounts(Step(s, Arrival(wire)), Noted(b, s.ended, Emissions(s.sequences, wire)))
  {
    var tracking, events := s.(sequences := TrackedSequences(s.sequences, wire)), Emissions(s.sequences, wire);
    AlikeAccounts(s, tracking, b);
    EmitAllAccounts(tracking, b, events, EmitAll(tracking, events), Noted(b, s.ended, events));
  }

  lemma StepAccounts(s: Session, b: Book, atom: Atom)
    requires Accounts(s, b)
    ensures Accounts(Step(s, atom), Record(s, b, atom))
  {
    match atom
    case Arrival(wire) => ArrivalAccounts(s, b, wire);
    case Reconnect =>
      AlikeAccounts(s, s.(sequences := map[]), b);
      PushAccounts(s.(sequences := map[]), b, RECONNECTED);
    case Take => TakeAccounts(s, b);
    case FinishClose => EndAccounts(s, b, RejectWaiters(RejectPending(s, SessionClosed), SessionClosed));
    case _ =>
      assert b.emitted + [] == b.emitted && b.pushed + [] == b.pushed;
      AlikeAccounts(s, Step(s, atom), b);
  }

  /** Conservation over every run. */
  lemma {:induction false} QueueConservation(atoms: seq<Atom>)
    ensures Accounts(Play(atoms).session, Play(atoms).book)
  {
    if atoms == [] {
    } else {
      var h := Play(atoms[..|atoms| - 1]);
      QueueConservation(atoms[..|atoms| - 1]);
      StepAccounts(h.session, h.book, atoms[|atoms| - 1]);
    }
  }

  /** `dropped_events` accounts for every pushed event that is neither taken nor queued. */
  ghost predicate CountExact(h: History) {
    |h.book.pushed| == |h.book.takenAt| + Waiting(h.session) + h.session.dropped
  }

  lemma CountExactBeforeEnd(atoms: seq<Atom>)
    requires !Play(atoms).session.ended
    ensures CountExact(Play(atoms))
  {
    QueueConservation(atoms);
  }

  lemma PlayAppend(atoms: seq<Atom>, atom: Atom)
    ensures Play(atoms + [atom]) == Next(Play(atoms), atom)
  {
    assert (atoms + [atom])[..|atoms|] == atoms;
  }

  lemma StepKeepsEnd(h: History, atom: Atom)
    requires h.session.ended
    ensures Next(h, atom).session.ended && Next(h, atom).book.endEvicted == h.book.endEvicted
  {
    if atom.Arrival? {
      ArrivalOnly(h.session, atom.wire);
    }
  }

  ghost predicate SameEnd(h: History, later: History) {
    later.session.ended && later.book.endEvicted == h.book.endEvicted
  }

  lemma StepKeepsSameEnd(h: History, before: seq<Atom>, atom: Atom)
    requires SameEnd(h, Play(before))
    ensures SameEnd(h, Play(before + [atom]))
  {
    StepKeepsEnd(Play(before), atom);
    PlayAppend(before, atom);
  }

  lemma {:induction false} EndedStaysEnded(atoms: seq<Atom>, rest: seq<Atom>)
    requires Play(atoms).session.ended
    ensures SameEnd(Play(atoms), Play(atoms + rest))
    decreases |rest|
  {
    if rest == [] {
      assert atoms + rest == atoms;
    } else {
      var longer := atoms + rest[..|rest| - 1];
      EndedStaysEnded(atoms, rest[..|rest| - 1]);
      StepKeepsSameEnd(Play(atoms), longer, rest[|rest| - 1]);
      assert atoms + rest == longer + [rest[|rest| - 1]];
    }
  }

  /** The count stays exact after the end if and only if the queue was not full when the
      session ended: `_end` evicts one event from a full queue without counting it. */
  lemma DroppedCountExact(before: seq<Atom>, after: seq<Atom>)
    requires !Play(before).session.ended
    ensures CountExact(Play(before + [FinishClose] + after)) <==> |Play(before).session.queue| < 1024
  {
    QueueConservation(before);
    PlayAppend(before, FinishClose);
    EndedStaysEnded(before + [FinishClose], after);
    QueueConservation(before + [FinishClose] + after);
  }

  function Repeated(atom: Atom, n: nat): seq<Atom> {
    seq(n, _ => atom)
  }

  /** The full queue at the end, reached by a run: 1024 untaken frames, then close. */
  lemma {:induction false} FilledQueue(n: nat)
    requires n <= QUEUE_SIZE
    ensures var h := Play(Repeated(Arrival(WireResync("notifications", 0)), n));
            |h.session.queue| == n && !h.session.ended && h.session.dropped == 0 && !h.book.endEvicted
  {
    var atoms := Repeated(Arrival(WireResync("notifications", 0)), n);
    if n == 0 {
    } else {
      assert atoms[..n - 1] == Repeated(Arrival(WireResync("notifications", 0)), n - 1);
      FilledQueue(n - 1);
      ResyncFrameQueues(Play(atoms[..n - 1]).session);
    }
  }

  lemma ResyncFrameQueues(s: Session)
    requires !s.ended && |s.queue| < QUEUE_SIZE
    ensures var r := Step(s, Arrival(WireResync("notifications", 0)));
            |r.queue| == |s.queue| + 1 && !r.ended && r.dropped == s.dropped
  {
    var e := EventOf(WireResync("notifications", 0));
    assert [e][1..] == [];
    assert EmitAll(Emit(s, e), []) == Emit(s, e);
    assert Step(s, Arrival(WireResync("notifications", 0))) == EmitAll(s, [e]) == Emit(s, e);
  }

  lemma EndCanLoseAnEventSilently()
    ensures var h := Play(Repeated(Arrival(WireResync("notifications", 0)), 1024) + [FinishClose]);
            h.session.dropped == 0 && h.book.endEvicted
  {
    var full := Repeated(Arrival(WireResync("notifications", 0)), QUEUE_SIZE);
    FilledQueue(QUEUE_SIZE);
    assert (full + [FinishClose])[..QUEUE_SIZE] == full;
  }

  lemma {:induction false} AllTakenInOrder(at: seq<nat>, n: nat)
    requires |at| == n
    requires forall i | 0 <= i < n :: at[i] < n
    requires forall i, j | 0 <= i < j < n :: at[i] < at[j]
    ensures forall i | 0 <= i < n :: at[i] == i
  {
    if n == 0 {
    } else {
      forall i | 0 <= i < n - 1 ensures at[i] < n - 1 {
        assert at[i] < at[n - 1];
      }
      AllTakenInOrder(at[..n - 1], n - 1);
      assert n > 1 ==> at[..n - 1][n - 2] == at[n - 2] < at[n - 1];
    }
  }

  /** A consumer that sees nothing dropped and no eviction at the end has taken a prefix of
      the emitted stream, so the gap markers it saw are exact for what it saw. */
  lemma LosslessConsumer(atoms: seq<Atom>)
    requires Play(atoms).session.dropped == 0 && !Play(atoms).book.endEvicted
    ensures var b := Play(atoms).book;
            && |b.takenAt| <= |b.emitted| && |b.takenAt| <= |b.taken|
            && (forall i | 0 <= i < |b.takenAt| :: b.taken[i] == Queued(b.emitted[i]))
            && (forall channel, i: nat, j: nat |
                  channel != "notifications" && channel != "builderFills"
                  && j < |b.takenAt| && Adjacent(b.emitted, i, j, channel) ::
                  MarkedExactly(b.emitted, i, j, channel))
  {
    QueueConservation(atoms);
    GapDetection(atoms);
    var h := Play(atoms);
    AllTakenInOrder(h.book.takenAt, |h.book.takenAt|);
  }
}
