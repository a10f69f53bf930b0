/**
 The split ring as a protocol between a driver and the block daemon, one memory access
 at a time, in any interleaving.

 Counters in memory are 16 bits wide and slots are taken modulo the queue size; the logs
 kept here are unbounded, and the invariant ties the two together.
 */
module RingProtocol {
  import opened Words
  import opened GuestMemory
  import opened Virtqueue
  import opened RingLayout

  /** Where the daemon stands between two accesses to shared memory. */
  datatype Phase =
    | Idle                                        // no notification in hand
    | Loaded                                      // the notify register was read and was not idle
    | Rearmed                                     // the notify register is idle again; the callback is next
    | ReadIndex(left: nat)                        // about to read the available index, `left` retries remain
    | ReadSlot                                    // the index differed; about to read the slot
    | Serving(head: u16)                          // inside `process_chain`
    | ReadUsed(head: u16, len: u32)               // `virtio_add_used`, before its first access
    | PutId(head: u16, len: u32, idx: u16)
    | PutLen(head: u16, len: u32, idx: u16)
    | PutIdx(head: u16, len: u32, idx: u16)
    | Advance                                     // about to step `last_avail_idx`
    | Leave                                       // out of the loop, interrupt being requested
    | Dead                                        // the notification failed and the daemon stopped
  {
    /** An access to the available index still lies ahead in this notification. */
    predicate PollsAgain() {
      !Idle? && !Leave? && !Dead?
    }
  }

  /**
   Shared memory and registers, the daemon's phase, and the logs: heads published, filled in
   and not yet published, and kicked, elements put on the used ring, elements the driver has collected from it.
   */
  datatype State = State(ram: Ram, q: Queue, notify: u32, phase: Phase,
                         published: seq<u16>, filled: seq<u16>, kicked: nat,
                         used: seq<Elem>, collected: seq<Elem>)

  datatype Event =
    | DriverWrites | FillNext(head: u16) | Expose(count: nat) | Kick | Collect
    | Wake | Rearm | Enter | Call | Poll | Take | ChainWrites | ChainDone(len: u32)
    | StartUsed | StoreId | StoreLen | StoreIdx | Step | Finish | Fail

  ghost predicate DriverStep(s: State, e: Event, t: State)
    requires QueueSize(s.q.num)
  {
    match e
    case DriverWrites => t == s.(ram := t.ram) && RingsKept(s.q, s.ram, t.ram)
    case FillNext(h) =>
      && |s.published| + |s.filled| < |s.collected| + s.q.num
      && s.ram.Write(AvailSlotAt(s.q, |s.published| + |s.filled|), Store16(h)) == Some(t.ram)
      && t == s.(ram := t.ram, filled := s.filled + [h])
    case Expose(n) =>
      && n <= |s.filled|
      && s.ram.Write(AvailIdxAt(s.q), Store16(Wrapped(|s.published| + n))) == Some(t.ram)
      && t == s.(ram := t.ram, published := s.published + s.filled[..n], filled := s.filled[n..])
    case Kick => t == s.(notify := 0, kicked := |s.published|)
    case Collect =>
      var n := |s.collected|;
      var id := s.ram.Read(UsedIdAt(s.q, n), 4);
      var len := s.ram.Read(UsedLenAt(s.q, n), 4);
      && s.ram.Read16(UsedIdxAt(s.q)) != Some(Wrapped(n))
      && id.Some? && len.Some? && |id.value| == |len.value| == 4
      && t == s.(collected := s.collected + [Elem(Load32(id.value), Load32(len.value))])
    case _ => false
  }

  /** The scan and the notification loop; every guard and every access is the code's own. */
  ghost predicate DaemonStep(s: State, e: Event, t: State)
    requires QueueSize(s.q.num)
  {
    match (e, s.phase)
    case (Wake, Idle) => t == s.(phase := if s.notify == NOTIFY_IDLE then Idle else Loaded)
    case (Rearm, Loaded) => t == s.(notify := NOTIFY_IDLE, phase := Rearmed)
    case (Enter, Rearmed) => t == s.(phase := ReadIndex(RETRIES))
    case (Call, Idle) => t == s.(phase := ReadIndex(RETRIES))   // a fabric without a notify register
    case (Poll, ReadIndex(left)) =>
      var idx := s.ram.Read16(AvailIdxAt(s.q));
      && idx.Some?
      && t == s.(phase := if idx.value != s.q.lastAvail then ReadSlot else if left > 0 then ReadIndex(left - 1)
          else Leave)
    case (Take, ReadSlot) =>
      var head := s.ram.Read16(AvailSlotAddr(s.q, s.q.lastAvail));
      head.Some? && t == s.(phase := Serving(head.value))
    case (ChainWrites, Serving(h)) => t == s.(ram := t.ram) && RingsKept(s.q, s.ram, t.ram)
    case (ChainDone(len), Serving(h)) => t == s.(phase := ReadUsed(h, len))
    case (StartUsed, ReadUsed(h, len)) =>
      var idx := s.ram.Read16(UsedIdxAt(s.q));
      idx.Some? && t == s.(phase := PutId(h, len, idx.value))
    case (StoreId, PutId(h, len, idx)) =>
      && s.ram.Write(UsedElemAddr(s.q, idx), Store32(h)) == Some(t.ram)
      && t == s.(ram := t.ram, phase := PutLen(h, len, idx))
    case (StoreLen, PutLen(h, len, idx)) =>
      && s.ram.Write(Add64(UsedElemAddr(s.q, idx), 4), Store32(len)) == Some(t.ram)
      && t == s.(ram := t.ram, phase := PutIdx(h, len, idx))
    case (StoreIdx, PutIdx(h, len, idx)) =>
      && s.ram.Write(UsedIdxAt(s.q), Store16(Add16(idx, 1))) == Some(t.ram)
      && t == s.(ram := t.ram, phase := Phase.Advance, used := s.used + [Elem(h, len)])
    case (Step, Advance) =>
      t == s.(q := s.q.(lastAvail := Add16(s.q.lastAvail, 1)), phase := ReadIndex(RETRIES))
    case (Finish, Leave) => t == s.(phase := Idle)
    case (Fail, _) =>
      && (s.phase.ReadIndex? || s.phase.ReadSlot? || s.phase.Serving? || s.phase.ReadUsed?
          || s.phase.PutId? || s.phase.PutLen? || s.phase.PutIdx?)
      && t == s.(phase := Dead)
    case _ => false
  }

  ghost predicate Next(s: State, e: Event, t: State) {
    QueueSize(s.q.num) && (DriverStep(s, e, t) || DaemonStep(s, e, t))
  }

  /** Freshly set up: both rings zeroed, cursor at zero, notify register idle. */
  ghost predicate Init(s: State) {
    && Placed(s.ram, s.q) && s.q.lastAvail == 0
    && s.ram.Read16(AvailIdxAt(s.q)) == Some(0) && s.ram.Read16(UsedIdxAt(s.q)) == Some(0)
    && s.notify == NOTIFY_IDLE && s.phase == Idle
    && s.published == [] && s.filled == [] && s.kicked == 0 && s.used == [] && s.collected == []
  }

  // ---- Invariant ----

  /** Nothing is served before it is published, in any other order, or twice. */
  ghost predicate Ordered(s: State) {
    && |s.collected| <= |s.used| <= |s.published| && |s.published| + |s.filled| <= |s.collected| + s.q.num
    && s.kicked <= |s.published|
    && s.collected == s.used[..|s.collected|]
    && forall i :: 0 <= i < |s.used| ==> s.used[i].id == s.published[i]
  }

  /** Memory shows the logs: wrapped counts in the indices, pending entries in their slots. */
  ghost predicate Shown(s: State)
    requires QueueSize(s.q.num)
  {
    && s.ram.Read16(AvailIdxAt(s.q)) == Some(Wrapped(|s.published|))
    && s.ram.Read16(UsedIdxAt(s.q)) == Some(Wrapped(|s.used|))
    && AvailHolds(s.ram, s.q, |s.used|, s.published + s.filled)
    && UsedHolds(s.ram, s.q, |s.collected|, s.used)
  }

  /** The daemon's locals agree with the logs, and its cursor with the used log. */
  ghost predicate Tracked(s: State)
    requires QueueSize(s.q.num)
  {
    var n := |s.used|;
    && (match s.phase
        case Advance => n > 0 && s.q.lastAvail == Wrapped(n - 1)
        case _ => s.q.lastAvail == Wrapped(n))
    && match s.phase
       case ReadSlot => n < |s.published|
       case Serving(h) => n < |s.published| && h == s.published[n]
       case ReadUsed(h, _) => n < |s.published| && h == s.published[n]
       case PutId(h, _, idx) => n < |s.published| && h == s.published[n] && idx == Wrapped(n)
       case PutLen(h, _, idx) =>
         && n < |s.published| && h == s.published[n] && idx == Wrapped(n)
         && s.ram.Read(UsedIdAt(s.q, n), 4) == Some(Store32(h))
       case PutIdx(h, len, idx) =>
         && n < |s.published| && h == s.published[n] && idx == Wrapped(n)
         && UsedAt(s.ram, s.q, n, Elem(h, len))
       case _ => true
  }

  /** Whatever was kicked is served, or the register still shows a kick, or a poll is still to come. */
  ghost predicate NoLostKick(s: State) {
    s.phase.Dead? || s.kicked <= |s.used| || s.notify != NOTIFY_IDLE || s.phase.PollsAgain()
  }

  ghost predicate Inv(s: State) {
    Placed(s.ram, s.q) && Ordered(s) && Shown(s) && Tracked(s) && NoLostKick(s)
  }

  lemma InitInv(s: State)
    requires Init(s)
    ensures Inv(s)
  {
  }

  lemma DriverStepInv(s: State, e: Event, t: State)
    requires Inv(s) && DriverStep(s, e, t)
    ensures Inv(t)
  {
    match e
    case DriverWrites => RingsKeptInv(s, t);
    case FillNext(h) => FillInv(s, h, t);
    case Expose(n) => ExposeInv(s, n, t);
    case Kick =>
    case Collect => CollectInv(s, t);
    case _ =>
  }

  lemma RingsKeptInv(s: State, t: State)
    requires Inv(s) && t == s.(ram := t.ram) && RingsKept(s.q, s.ram, t.ram)
    ensures Inv(t)
  {
    hide AvailSlotAddr, UsedElemAddr, Add64, Ram.Read, Ram.Read16, Ram.Write;
    AvailKept(s.q, s.ram, t.ram, |s.used|, s.published + s.filled);
    UsedKept(s.q, s.ram, t.ram, |s.collected|, s.used);
  }

  lemma FillInv(s: State, h: u16, t: State)
    requires Inv(s) && DriverStep(s, FillNext(h), t)
    ensures Inv(t)
  {
    hide AvailSlotAddr, UsedElemAddr, Add64, Ram.Read, Ram.Read16, Ram.Write;
    FillSlot(s.q, s.ram, t.ram, |s.used|, s.published + s.filled, h);
    assert t.published + t.filled == s.published + s.filled + [h];
    UsedKept(s.q, s.ram, t.ram, |s.collected|, s.used);
  }

  lemma ExposeInv(s: State, n: nat, t: State)
    requires Inv(s) && DriverStep(s, Expose(n), t)
    ensures Inv(t)
  {
    hide AvailSlotAddr, UsedElemAddr, Add64, Ram.Read, Ram.Read16, Ram.Write;
    MoveAvailIdx(s.q, s.ram, t.ram, |s.used|, s.published + s.filled, Wrapped(|s.published| + n));
    assert t.published + t.filled == s.published + s.filled;
    UsedKept(s.q, s.ram, t.ram, |s.collected|, s.used);
  }

  lemma CollectInv(s: State, t: State)
    requires Inv(s) && DriverStep(s, Collect, t)
    ensures Inv(t)
  {
    hide AvailSlotAddr, UsedElemAddr, Add64, Ram.Read, Ram.Read16, Ram.Write;
    assert |s.collected| < |s.used|;
    assert UsedAt(s.ram, s.q, |s.collected|, s.used[|s.collected|]);
  }

  lemma DaemonStepInv(s: State, e: Event, t: State)
    requires Inv(s) && DaemonStep(s, e, t)
    ensures Inv(t)
  {
    hide AvailSlotAddr, UsedElemAddr, Add64, Ram.Read, Ram.Read16, Ram.Write;
    match (e, s.phase)
    case (Poll, ReadIndex(left)) => PollInv(s, t);
    case (Take, ReadSlot) => assert s.ram.Read16(AvailSlotAt(s.q, |s.used|)) ==
        Some((s.published + s.filled)[|s.used|]);
    case (ChainWrites, Serving(h)) => RingsKeptInv(s, t);
    case (StoreId, PutId(h, len, idx)) => StoreIdInv(s, t);
    case (StoreLen, PutLen(h, len, idx)) => StoreLenInv(s, t);
    case (StoreIdx, PutIdx(h, len, idx)) => StoreIdxInv(s, t);
    case (Step, Advance) => StepInv(s, t);
    case _ =>
  }

  lemma StepInv(s: State, t: State)
    requires Inv(s) && DaemonStep(s, Step, t) && s.phase.Advance?
    ensures Inv(t)
  {
    hide Ram.Read, Ram.Read16, Ram.Write;
    WrappedNext(|s.used| - 1);
    forall i: nat
      ensures AvailSlotAt(t.q, i) == AvailSlotAt(s.q, i)
      ensures UsedIdAt(t.q, i) == UsedIdAt(s.q, i) && UsedLenAt(t.q, i) == UsedLenAt(s.q, i)
    {
    }
  }

  lemma PollInv(s: State, t: State)
    requires Inv(s) && DaemonStep(s, Poll, t) && s.phase.ReadIndex?
    ensures Inv(t)
  {
    hide AvailSlotAddr, UsedElemAddr, Add64, Ram.Read, Ram.Read16, Ram.Write;
    if Wrapped(|s.published|) == Wrapped(|s.used|) {
      WrappedApart(|s.used|, |s.published|);
    }
  }

  lemma StoreIdInv(s: State, t: State)
    requires Inv(s) && DaemonStep(s, StoreId, t) && s.phase.PutId?
    ensures Inv(t)
  {
    hide AvailSlotAddr, UsedElemAddr, Add64, Ram.Read, Ram.Read16, Ram.Write;
    WriteElem(s.q, s.ram, t.ram, |s.collected|, s.used, true, s.phase.head);
    AvailKept(s.q, s.ram, t.ram, |s.used|, s.published + s.filled);
  }

  lemma StoreLenInv(s: State, t: State)
    requires Inv(s) && DaemonStep(s, StoreLen, t) && s.phase.PutLen?
    ensures Inv(t)
  {
    hide AvailSlotAddr, UsedElemAddr, Add64, Ram.Read, Ram.Read16, Ram.Write;
    WriteElem(s.q, s.ram, t.ram, |s.collected|, s.used, false, s.phase.len);
    AvailKept(s.q, s.ram, t.ram, |s.used|, s.published + s.filled);
  }

  lemma StoreIdxInv(s: State, t: State)
    requires Inv(s) && DaemonStep(s, StoreIdx, t) && s.phase.PutIdx?
    ensures Inv(t)
  {
    hide Shown, Placed, Ram.Read, Ram.Write, UsedAt, Wrapped, Add16, UsedElemAddr, AvailSlotAddr, Add64, Store16,
        Store32;
    StoreIdxShown(s, t);
  }

  lemma StoreIdxShown(s: State, t: State)
    requires Inv(s) && DaemonStep(s, StoreIdx, t) && s.phase.PutIdx?
    ensures Placed(t.ram, t.q) && Shown(t)
  {
    hide AvailSlotAddr, UsedElemAddr, Add64, Ram.Read, Ram.Read16, Ram.Write;
    WrappedNext(|s.used|);
    hide Wrapped, Add16;
    MoveUsedIdx(s.q, s.ram, t.ram, |s.collected|, s.used, Wrapped(|s.used| + 1));
    AvailKept(s.q, s.ram, t.ram, |s.used|, s.published + s.filled);
    assert UsedAt(t.ram, s.q, |s.used|, Elem(s.phase.head, s.phase.len));
    assert UsedHolds(t.ram, s.q, |s.collected|, t.used);
  }

  lemma NextInv(s: State, e: Event, t: State)
    requires Inv(s) && Next(s, e, t)
    ensures Inv(t)
  {
    hide Inv, DriverStep, DaemonStep;
    if DriverStep(s, e, t) {
      DriverStepInv(s, e, t);
    } else {
      DaemonStepInv(s, e, t);
    }
  }

  // ---- Runs ----

  ghost predicate Run(states: seq<State>, events: seq<Event>) {
    && |states| == |events| + 1 && Init(states[0])
    && forall i :: 0 <= i < |events| ==> Next(states[i], events[i], states[i + 1])
  }

  lemma {:induction false} RunKeepsInv(states: seq<State>, events: seq<Event>, i: nat)
    requires Run(states, events) && i < |states|
    ensures Inv(states[i])
  {
    hide Inv, Next, Init;
    if i == 0 {
      InitInv(states[0]);
    } else {
      RunKeepsInv(states, events, i - 1);
      NextInv(states[i - 1], events[i - 1], states[i]);
    }
  }

  /**
   In every run, however its steps interleave and however often the counters wrap: the
   used elements are the published heads in order, each once; what the driver collects
   from memory is a prefix of them; and at the loop head and at every exit, failed ones
   included, the daemon's cursor equals the used index in memory.
   */
  lemma UsedFollowsAvailable(states: seq<State>, events: seq<Event>, i: nat)
    requires Run(states, events) && i < |states|
    ensures var s := states[i];
            && |s.used| <= |s.published|
            && (forall k :: 0 <= k < |s.used| ==> s.used[k].id == s.published[k])
            && s.collected <= s.used
            && (s.phase.ReadIndex? || s.phase.Idle? || s.phase.Leave? || s.phase.Dead? ==>
                  s.ram.Read16(UsedIdxAt(s.q)) == Some(s.q.lastAvail))
  {
    RunKeepsInv(states, events, i);
  }

  /** In every run, a published and kicked entry that is not served cannot be forgotten by a live daemon. */
  lemma KickIsNeverLost(states: seq<State>, events: seq<Event>, i: nat)
    requires Run(states, events) && i < |states| && !states[i].phase.Dead?
    requires |states[i].used| < states[i].kicked
    ensures states[i].notify != NOTIFY_IDLE || states[i].phase.PollsAgain()
  {
    RunKeepsInv(states, events, i);
  }

  /** A daemon at rest, nothing announced to it, has served every entry that was ever kicked. */
  lemma RestMeansServed(states: seq<State>, events: seq<Event>, i: nat)
    requires Run(states, events) && i < |states|
    requires states[i].phase == Idle && states[i].notify == NOTIFY_IDLE
    ensures states[i].kicked <= |states[i].used|
  {
    RunKeepsInv(states, events, i);
  }

  lemma OnlyPollsLeave(s: State, e: Event, t: State)
    requires Next(s, e, t) && s.phase.PollsAgain() && !t.phase.PollsAgain() && !t.phase.Dead?
    ensures e == Poll
  {
    hide Ram.Read, Ram.Read16, Ram.Write, AvailSlotAddr, UsedElemAddr, Add64, Add16;
  }

  /** From a phase with a poll still ahead no run comes to the end of the notification without polling. */
  lemma {:induction false} PollLiesAhead(states: seq<State>, events: seq<Event>, i: nat, j: nat) returns (k: nat)
    requires Run(states, events) && i < j < |states|
    requires states[i].phase.PollsAgain() && !states[j].phase.PollsAgain() && !states[j].phase.Dead?
    ensures i <= k < j && events[k] == Poll
    decreases j
  {
    hide Next, Init;
    assert Next(states[j - 1], events[j - 1], states[j]);
    if states[j - 1].phase.PollsAgain() {
      OnlyPollsLeave(states[j - 1], events[j - 1], states[j]);
      k := j - 1;
    } else {
      if states[j - 1].phase.Dead? {
        DeadStays(states[j - 1], events[j - 1], states[j]);
      }
      k := PollLiesAhead(states, events, i, j - 1);
    }
  }

  lemma DeadStays(s: State, e: Event, t: State)
    requires Next(s, e, t) && s.phase.Dead?
    ensures t.phase.Dead?
  {
    hide Ram.Read, Ram.Read16, Ram.Write, AvailSlotAddr, UsedElemAddr, Add64, Add16;
  }
}
