/** Concrete runs and chains on which the console daemon does less than one would expect. */
module ConsoleWitness {
  import opened Words
  import opened GuestMemory
  import opened Virtqueue
  import opened RingLayout
  import opened BlockTransfer
  import opened Console
  import opened ConsoleRun
  import RP = RingProtocol

  /** Two descriptors of one byte each. */
  const CHAIN: seq<Desc> := [Desc(32, 1, 1, 1), Desc(33, 1, 0, 0)]

  /** A ring of one entry behind the table and the two bytes. */
  const QUEUE := Queue(1, 1, 0, 34, 40, 0)

  /** The two bytes, then available flags, index and slot, then the used ring. */
  function Tail(a: u8, b: u8, idx: u16): (t: seq<u8>)
    ensures |t| == 20
  {
    [a, b, 0, 0] + Store16(idx) + [0, 0] + seq(12, _ => 0)
  }

  function Memory(a: u8, b: u8, idx: u16): (ram: Ram)
    ensures ram.base == 0 && |ram.bytes| == 52
  {
    Ram(0, Table(CHAIN) + Tail(a, b, idx))
  }

  lemma TailHolds(a: u8, b: u8, idx: u16)
    ensures var t := Tail(a, b, idx);
            t[0] == a && t[1] == b && t[4..6] == Store16(idx) && t[6..8] == [0, 0] && t[10..12] == [0, 0]
  {
    hide Store16;
  }

  lemma MemoryReads(a: u8, b: u8, idx: u16)
    ensures var ram := Memory(a, b, idx);
            && ReadDesc(ram, QUEUE, 0) == Some(CHAIN[0]) && ReadDesc(ram, QUEUE, 1) == Some(CHAIN[1])
            && ram.Read(32, 1) == Some([a]) && ram.Read(33, 1) == Some([b])
            && ram.Read16(36) == Some(idx) && ram.Read16(38) == Some(0) && ram.Read16(42) == Some(0)
  {
    TableRead(CHAIN, Tail(a, b, idx), QUEUE, 0);
    TableRead(CHAIN, Tail(a, b, idx), QUEUE, 1);
    hide Table, ReadDesc, Store16, Tail;
    var bytes, tail := Memory(a, b, idx).bytes, Tail(a, b, idx);
    TailHolds(a, b, idx);
    assert bytes[32..33] == [a] && bytes[33..34] == [b];
    assert bytes[36..38] == tail[4..6] && bytes[38..40] == tail[6..8] && bytes[42..44] == tail[10..12];
  }

  /** Writing the slot, the index, or the two bytes. */
  lemma MemoryWrites(a: u8, b: u8, idx: u16)
    ensures Memory(a, b, 0).Write(38, Store16(0)) == Some(Memory(a, b, 0))
    ensures Memory(a, b, 0).Write(36, Store16(idx)) == Some(Memory(a, b, idx))
    ensures forall c: u8, d: u8 :: RingsKept(QUEUE, Memory(a, b, idx), Memory(c, d, idx))
  {
    hide Table;
    assert Store16(0) == [0, 0];
    hide Store16;
    assert Splice(Memory(a, b, 0).bytes, 38, Store16(0)) == Memory(a, b, 0).bytes;
    assert Splice(Memory(a, b, 0).bytes, 36, Store16(idx)) == Memory(a, b, idx).bytes;
  }

  lemma TextsRead(a: u8, b: u8, idx: u16)
    ensures Text(Memory(a, b, idx), CHAIN[0]) == Some([a]) && Text(Memory(a, b, idx), CHAIN[1]) == Some([b])
  {
    MemoryReads(a, b, idx);
    hide Memory;
  }

  lemma RingAddresses()
    ensures QueueSize(QUEUE.num) && AvailIdxAt(QUEUE) == 36 && UsedIdxAt(QUEUE) == 42
    ensures AvailSlotAt(QUEUE, 0) == 38 == AvailSlotAddr(QUEUE, 0)
  {
  }

  /** What the chain says, with the two bytes as they are. */
  lemma ChainSays(a: u8, b: u8, idx: u16)
    ensures ChainText(Memory(a, b, idx), QUEUE, 0) == [a, b]
  {
    hide ReadDesc, Memory;
    MemoryReads(a, b, idx);
    TextsRead(a, b, idx);
    FollowTwo(Memory(a, b, idx), WALK_MAX);
    var l := Follow(Memory(a, b, idx), QUEUE, 0, WALK_MAX);
    assert Descs(l) == [CHAIN[0], CHAIN[1]] && Descs(l)[1..] == [CHAIN[1]] && [CHAIN[1]][1..] == [];
    SplitsOff(Memory(a, b, idx), Descs(l));
    SplitsOff(Memory(a, b, idx), [CHAIN[1]]);
  }

  lemma FollowTwo(ram: Ram, n: nat)
    requires n >= 2 && ReadDesc(ram, QUEUE, 0) == Some(CHAIN[0]) && ReadDesc(ram, QUEUE, 1) == Some(CHAIN[1])
    ensures Follow(ram, QUEUE, 0, n) == Links([0, 1], [CHAIN[0]], Some(CHAIN[1]))
  {
    hide ReadDesc;
    assert Follow(ram, QUEUE, 1, n - 1) == Links([1], [], Some(CHAIN[1]));
  }

  /** The ring before and after the one entry is published. */
  function Start(): RP.State {
    RP.State(Memory(65, 66, 0), QUEUE, NOTIFY_IDLE, RP.Idle, [], [], 0, [], [])
  }

  function Published(phase: RP.Phase): RP.State {
    RP.State(Memory(65, 66, 1), QUEUE, NOTIFY_IDLE, phase, [0], [], 0, [], [])
  }

  function Quietly(s: RP.State): Con {
    Con(s, Resting, Service(s.ram, [], 0), [], [], [], [])
  }

  lemma StartIsInitial()
    ensures ConsoleRun.Init(Quietly(Start()))
  {
    hide Memory, Ram.Read, Ram.Read16, AvailIdxAt, UsedIdxAt, AvailSlotAt, AvailSlotAddr, ReadDesc;
    MemoryReads(65, 66, 0);
    RingAddresses();
  }

  // ---- The driver publishes, the daemon takes the chain ----

  lemma FillStep()
    ensures RP.Next(Start(), RP.FillNext(0), Start().(filled := [0]))
  {
    hide Memory, Ram.Write, Store16, AvailSlotAt, AvailSlotAddr, RingsKept;
    MemoryWrites(65, 66, 1);
    RingAddresses();
  }

  lemma ExposeStep()
    ensures RP.Next(Start().(filled := [0]), RP.Expose(1), Published(RP.Idle))
  {
    hide Memory, Ram.Write, Store16, AvailIdxAt, AvailSlotAt, AvailSlotAddr, RingsKept;
    MemoryWrites(65, 66, 1);
    RingAddresses();
    assert [0][..1] == [0] && [0][1..] == [];
  }

  lemma PollStep()
    ensures RP.Next(Published(RP.ReadIndex(RETRIES)), RP.Poll, Published(RP.ReadSlot))
  {
    hide Memory, Ram.Read, Ram.Read16, AvailIdxAt, AvailSlotAt, AvailSlotAddr, ReadDesc;
    MemoryReads(65, 66, 1);
    RingAddresses();
  }

  lemma TakeStep()
    ensures RP.Next(Published(RP.ReadSlot), RP.Take, Published(RP.Serving(0)))
  {
    hide Memory, Ram.Read, Ram.Read16, AvailIdxAt, AvailSlotAt, AvailSlotAddr, ReadDesc;
    MemoryReads(65, 66, 1);
    RingAddresses();
  }

  /** The driver overwrites both bytes in the midst of the service. */
  lemma OverwriteStep()
    ensures RP.Next(Published(RP.Serving(0)), RP.DriverWrites, Published(RP.Serving(0)).(ram := Memory(67, 68, 1)))
  {
    hide Memory, RingsKept;
    MemoryWrites(65, 66, 1);
    RingAddresses();
  }

  // ---- The walk ----

  const FIRST := Piece(0, 0, CHAIN[0], [65])
  const SECOND := Piece(0, 1, CHAIN[1], [68])

  /** The daemon with the chain in service, some of it written. */
  function Serving(ram: Ram, walk: Walk, pieces: seq<Piece>, out: seq<u8>): Con {
    Con(Published(RP.Serving(0)).(ram := ram), walk, Service(Memory(65, 66, 1), [], |pieces|), out, pieces, [], [])
  }

  lemma DescStep(ram: Ram, index: u16, d: Desc, total: u32, pieces: seq<Piece>, out: seq<u8>)
    requires ReadDesc(ram, QUEUE, index) == Some(d)
    ensures ConsoleRun.Next(Serving(ram, AtDesc(index, total), pieces, out), ReadsDesc,
                            Serving(ram, AtText(index, d, total), pieces, out))
  {
    hide Memory, ReadDesc;
  }

  lemma TextStep(ram: Ram, index: u16, d: Desc, total: u32, pieces: seq<Piece>, out: seq<u8>, b: u8)
    requires Text(ram, d) == Some([b])
    ensures ConsoleRun.Next(Serving(ram, AtText(index, d, total), pieces, out), ReadsText,
                            Serving(ram, if d.HasNext() then AtDesc(d.next, Counted(d, total))
                                else Ended(Counted(d, total)),
                                    pieces + [Piece(0, index, d, [b])], out + [b]))
  {
    hide Memory, Text, Counted;
  }

  // ---- The whole run ----

  ghost function At(i: nat): Con {
    var before := Quietly(Start());
    var m, m' := Memory(65, 66, 1), Memory(67, 68, 1);
    if i == 0 then before
    else if i == 1 then before.(s := Start().(filled := [0]))
    else if i == 2 then before.(s := Published(RP.Idle))
    else if i == 3 then before.(s := Published(RP.ReadIndex(RETRIES)))
    else if i == 4 then before.(s := Published(RP.ReadSlot))
    else if i == 5 then Serving(m, AtDesc(0, 0), [], [])
    else if i == 6 then Serving(m, AtText(0, CHAIN[0], 0), [], [])
    else if i == 7 then Serving(m, AtDesc(1, 1), [FIRST], [65])
    else if i == 8 then Serving(m', AtDesc(1, 1), [FIRST], [65])
    else if i == 9 then Serving(m', AtText(1, CHAIN[1], 1), [FIRST], [65])
    else if i == 10 then Serving(m', Ended(2), [FIRST, SECOND], [65, 68])
    else Serving(m', Resting, [FIRST, SECOND], [65, 68])
         .(s := Published(RP.ReadUsed(0, 2)).(ram := m'), texts := [ChainText(m, QUEUE, 0)])
  }

  const EVENTS: seq<Event> :=
    [Ring(RP.FillNext(0)), Ring(RP.Expose(1)), Ring(RP.Call), Ring(RP.Poll), Ring(RP.Take), ReadsDesc, ReadsText,
     Ring(RP.DriverWrites), ReadsDesc, ReadsText, Ring(RP.ChainDone(2))]

  lemma RingSteps(i: nat)
    requires i < 5 || i == 7 || i == 10
    ensures EVENTS[i].Ring? && RP.Next(At(i).s, EVENTS[i].e, At(i + 1).s)
  {
    hide Memory, ChainText;
    if i == 0 {
      FillStep();
    } else if i == 1 {
      ExposeStep();
    } else if i == 3 {
      PollStep();
    } else if i == 4 {
      TakeStep();
    } else if i == 7 {
      OverwriteStep();
    }
  }

  lemma Moves(i: nat)
    requires i < 5 || i == 7 || i == 10
    ensures EVENTS[i].Ring? && RingMove(At(i), EVENTS[i].e, At(i + 1))
  {
    hide Memory, ChainText;
  }

  lemma Steps(i: nat)
    requires i < 11
    ensures ConsoleRun.Next(At(i), EVENTS[i], At(i + 1))
  {
    hide Memory, ReadDesc, ChainText, RP.Next;
    if i < 5 || i == 7 || i == 10 {
      hide At, RingMove;
      RingSteps(i);
      Moves(i);
    } else {
      WalkSteps(i);
    }
  }

  lemma WalkSteps(i: nat)
    requires i == 5 || i == 6 || i == 8 || i == 9
    ensures ConsoleRun.Next(At(i), EVENTS[i], At(i + 1))
  {
    hide Memory, ReadDesc, ConsoleRun.Next, Text, Serving;
    MemoryReads(65, 66, 1);
    MemoryReads(67, 68, 1);
    TextsRead(65, 66, 1);
    TextsRead(67, 68, 1);
    var m, m' := Memory(65, 66, 1), Memory(67, 68, 1);
    if i == 5 {
      DescStep(m, 0, CHAIN[0], 0, [], []);
    } else if i == 6 {
      TextStep(m, 0, CHAIN[0], 0, [], [], 65);
      assert [] + [FIRST] == [FIRST] && [] + [65] == [65];
    } else if i == 8 {
      DescStep(m', 1, CHAIN[1], 1, [FIRST], [65]);
    } else {
      TextStep(m', 1, CHAIN[1], 1, [FIRST], [65], 68);
      assert [FIRST] + [SECOND] == [FIRST, SECOND] && [65] + [68] == [65, 68];
    }
  }

  /**
   A whole run from a fresh ring in which the driver overwrites the chain while it is
   served: the output is neither what the chain said when it was taken nor what it says
   when it is done.
   */
  lemma RacingDriverMixesTexts() returns (states: seq<Con>, events: seq<Event>)
    ensures Run(states, events) && |events| == 11
    ensures events[4] == Ring(RP.Take) && events[10] == Ring(RP.ChainDone(2))
    ensures states[10].out == [65, 68]
    ensures ChainText(states[4].s.ram, states[4].s.q, 0) == [65, 66]
    ensures ChainText(states[10].s.ram, states[10].s.q, 0) == [67, 68]
  {
    hide Memory, ChainText, ConsoleRun.Next, ConsoleRun.Init;
    states, events := seq(12, i requires 0 <= i < 12 => At(i)), EVENTS;
    StartIsInitial();
    ChainSays(65, 66, 1);
    ChainSays(67, 68, 1);
    forall i | 0 <= i < 11
      ensures ConsoleRun.Next(states[i], events[i], states[i + 1])
    {
      Steps(i);
    }
  }

  // ---- A chain without end ----

  /** A descriptor linked to itself. */
  const LOOP: seq<Desc> := [Desc(0, 0, 1, 0)]

  /** The transmit walk of a queue whose first descriptor is linked to itself never stops. */
  lemma SelfLinkNeverStops(out: seq<u8>)
    ensures var ram := Ram(0, Table(LOOP));
            !Acyclic(ram, QUEUE, 0) && !Console.Stops(ram, QUEUE, 0, out)
  {
    var ram := Ram(0, Table(LOOP));
    assert Table(LOOP) + [] == Table(LOOP);
    TableRead(LOOP, [], QUEUE, 0);
    hide ReadDesc, Table;
    assert Console.At(ram, QUEUE, 0, 0) == Some(0);
    assert Console.At(ram, QUEUE, 0, 1) == Some(0);
    hide Console.At;
    StopsWhenAcyclic(ram, QUEUE, 0, out);
  }
}
