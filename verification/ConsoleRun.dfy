/**
 The console daemon against a driver that goes on writing: the ring protocol, with the
 walk of a transmit chain split into its single accesses to guest memory.
 */
module ConsoleRun {
  import opened Words
  import opened GuestMemory
  import opened Virtqueue
  import opened BlockTransfer
  import opened RingLayout
  import opened Console
  import RP = RingProtocol

  /** Where the walk of the chain in service stands, between two accesses to guest memory. */
  datatype Walk =
    | Resting                                        // no chain in service
    | AtDesc(index: u16, total: u32)                 // about to read a descriptor
    | AtText(index: u16, d: Desc, total: u32)        // about to read what it points to
    | Ended(total: u32)                              // past the last descriptor

  /** One descriptor of a chain: as it was when it was read, and its text as it was when that was read. */
  datatype Piece = Piece(chain: nat, index: u16, d: Desc, text: seq<u8>)

  /** Memory and output when the chain in service was taken from the ring, and its turns since. */
  datatype Service = Service(ram: Ram, out: seq<u8>, turns: nat)

  /**
   The ring protocol, the walk, the output; and the logs: the pieces written, the part of a
   piece that the console took before it refused, and what each finished chain said in
   memory when it was taken.
   */
  datatype Con = Con(s: RP.State, walk: Walk, service: Service, out: seq<u8>,
                     pieces: seq<Piece>, torn: seq<u8>, texts: seq<seq<u8>>)

  datatype Event = Ring(e: RP.Event) | ReadsDesc | ReadsText | Refuses(taken: nat)

  function Counted(d: Desc, total: u32): u32 {
    if d.DeviceWritable() then total else Add32(total, d.len)
  }

  /** The daemon cannot go on: a descriptor or its text is out of reach. */
  ghost predicate Blocked(u: Con) {
    match u.walk
    case AtDesc(index, _) => ReadDesc(u.s.ram, u.s.q, index).None?
    case AtText(_, d, _) => Text(u.s.ram, d).None?
    case _ => false
  }

  /** What a step of the ring protocol does to the rest; the walk itself writes nothing. */
  ghost predicate RingMove(u: Con, e: RP.Event, v: Con) {
    && !e.ChainWrites?
    && if e.Take? then
         v.s.phase.Serving?
         && v == u.(s := v.s, walk := AtDesc(v.s.phase.head, 0), service := Service(u.s.ram, u.out, 0))
       else if e.ChainDone? then
         u.s.phase.Serving? && u.walk == Ended(e.len)
         && v == u.(s := v.s, walk := Resting, texts := u.texts + [ChainText(u.service.ram, u.s.q, u.s.phase.head)])
       else
         (e.Fail? && u.s.phase.Serving? ==> Blocked(u)) && v == u.(s := v.s)
  }

  ghost predicate Next(u: Con, e: Event, v: Con) {
    match e
    case Ring(r) => RP.Next(u.s, r, v.s) && RingMove(u, r, v)
    case ReadsDesc =>
      && u.s.phase.Serving? && u.walk.AtDesc?
      && var d := ReadDesc(u.s.ram, u.s.q, u.walk.index);
         d.Some? && v == u.(walk := AtText(u.walk.index, d.value, u.walk.total))
    case ReadsText =>
      && u.s.phase.Serving? && u.walk.AtText?
      && var d, text := u.walk.d, Text(u.s.ram, u.walk.d);
         && text.Some?
         && v == u.(walk := if d.HasNext() then AtDesc(d.next, Counted(d, u.walk.total))
             else Ended(Counted(d, u.walk.total)),
                    service := u.service.(turns := u.service.turns + 1),
                    out := u.out + text.value,
                    pieces := u.pieces + [Piece(|u.s.used|, u.walk.index, d, text.value)])
    case Refuses(taken) =>
      && u.s.phase.Serving? && u.walk.AtText?
      && var text := Text(u.s.ram, u.walk.d);
         && text.Some? && taken < |text.value| && RP.Next(u.s, RP.Fail, v.s)
         && v == u.(s := v.s, out := u.out + text.value[..taken], torn := text.value[..taken])
  }

  ghost predicate Init(u: Con) {
    && RP.Init(u.s) && u.walk == Resting
    && u.out == [] && u.pieces == [] && u.torn == [] && u.texts == []
  }

  ghost predicate Run(states: seq<Con>, events: seq<Event>) {
    && |states| == |events| + 1 && Init(states[0])
    && forall i :: 0 <= i < |events| ==> Next(states[i], events[i], states[i + 1])
  }

  // ---- Pieces in ring and chain order ----

  /** The last piece, if any, ended its chain. */
  predicate Between(pieces: seq<Piece>) {
    pieces == [] || !pieces[|pieces| - 1].d.HasNext()
  }

  /** The chain the next piece belongs to, which is how many chains are written whole. */
  function Chain(pieces: seq<Piece>): nat {
    if pieces == [] then 0
    else pieces[|pieces| - 1].chain + if Between(pieces) then 1 else 0
  }

  /** The descriptor the next piece is read from: a published head, or the successor of the last. */
  ghost predicate Expected(pieces: seq<Piece>, published: seq<u16>, index: u16) {
    && Chain(pieces) < |published|
    && index == if Between(pieces) then published[Chain(pieces)] else pieces[|pieces| - 1].d.next
  }

  /** Each piece is the one expected after those before it. */
  ghost predicate InOrder(pieces: seq<Piece>, published: seq<u16>) {
    forall j :: 0 <= j < |pieces| ==>
      pieces[j].chain == Chain(pieces[..j]) && Expected(pieces[..j], published, pieces[j].index)
  }

  function Spelled(pieces: seq<Piece>): seq<u8> {
    if pieces == [] then [] else Spelled(pieces[..|pieces| - 1]) + pieces[|pieces| - 1].text
  }

  /** The chain in hand has been written but is not on the used ring yet. */
  predicate Posting(p: RP.Phase) {
    p.ReadUsed? || p.PutId? || p.PutLen? || p.PutIdx?
  }

  /** The walk is where the pieces written so far leave it. */
  ghost predicate OnTrack(u: Con) {
    && (u.s.phase.Serving? <==> !u.walk.Resting?)
    && Chain(u.pieces) == |u.s.used| + (if Posting(u.s.phase) || u.walk.Ended? then 1 else 0)
    && match u.walk
       case AtDesc(index, _) => Expected(u.pieces, u.s.published, index)
       case AtText(index, _, _) => Expected(u.pieces, u.s.published, index)
       case _ => Between(u.pieces)
  }

  ghost predicate Inv(u: Con) {
    && RP.Inv(u.s) && InOrder(u.pieces, u.s.published)
    && u.out == Spelled(u.pieces) + u.torn
    && (!u.s.phase.Dead? ==> u.torn == [] && OnTrack(u))
  }

  lemma Appended(pieces: seq<Piece>, published: seq<u16>, p: Piece)
    requires InOrder(pieces, published) && p.chain == Chain(pieces) && Expected(pieces, published, p.index)
    ensures InOrder(pieces + [p], published) && Spelled(pieces + [p]) == Spelled(pieces) + p.text
  {
    var all := pieces + [p];
    assert all[..|pieces|] == pieces;
    forall j | 0 <= j < |all|
      ensures all[j].chain == Chain(all[..j]) && Expected(all[..j], published, all[j].index)
    {
      if j < |pieces| {
        assert all[..j] == pieces[..j];
      }
    }
  }

  lemma MorePublished(pieces: seq<Piece>, published: seq<u16>, more: seq<u16>)
    requires InOrder(pieces, published) && published <= more
    ensures InOrder(pieces, more)
    ensures forall index: u16 :: Expected(pieces, published, index) ==> Expected(pieces, more, index)
  {
    forall j | 0 <= j < |pieces|
      ensures Expected(pieces[..j], more, pieces[j].index)
    {
      assert Expected(pieces[..j], published, pieces[j].index);
    }
  }

  /** What a step of the ring protocol changes of the counts and the phase. */
  lemma RingCounts(s: RP.State, e: RP.Event, t: RP.State)
    requires RP.Next(s, e, t) && !s.phase.Dead?
    ensures s.published <= t.published
    ensures !t.phase.Dead? && !e.Take? && !e.ChainDone? ==>
              && !e.Fail? && (t.phase.Serving? <==> s.phase.Serving?)
              && |t.used| + (if Posting(t.phase) then 1 else 0) == |s.used| + if Posting(s.phase) then 1 else 0
    ensures e.ChainDone? ==> s.phase.Serving? && t.phase.ReadUsed? && |t.used| == |s.used|
    ensures s.phase.Serving? && t.phase.Serving? ==> t.phase == s.phase && t.q == s.q
  {
    hide Ram.Read, Ram.Read16, Ram.Write, AvailSlotAddr, UsedElemAddr, Add64, Add16, Wrapped, RingsKept;
  }

  lemma TakeCounts(s: RP.State, t: RP.State)
    requires RP.Next(s, RP.Take, t) && RP.Inv(t)
    ensures s.phase.ReadSlot? && t.phase.Serving? && s.published == t.published
    ensures |t.used| == |s.used| < |t.published| && t.phase.head == t.published[|t.used|]
  {
    hide Ram.Read, Ram.Read16, AvailHolds, UsedHolds, AvailSlotAddr, UsedElemAddr, Add64;
  }

  /** After the daemon has died nothing more is written. */
  lemma DeadRests(s: RP.State, e: RP.Event, t: RP.State)
    requires RP.Inv(s) && RP.Next(s, e, t) && s.phase.Dead?
    ensures t.phase.Dead? && s.published <= t.published && !e.Take? && !e.ChainDone?
  {
    RP.DeadStays(s, e, t);
    hide Ram.Read, Ram.Read16, Ram.Write, AvailHolds, UsedHolds, AvailSlotAddr, UsedElemAddr, Add64, Add16, RP.Inv;
  }

  lemma RingInv(u: Con, e: RP.Event, v: Con)
    requires Inv(u) && Next(u, Ring(e), v)
    ensures Inv(v)
  {
    hide RP.Inv, RP.Next, InOrder, Expected, Spelled, ChainText, Blocked;
    RP.NextInv(u.s, e, v.s);
    if u.s.phase.Dead? {
      DeadRests(u.s, e, v.s);
    } else {
      RingCounts(u.s, e, v.s);
      if e.Take? {
        TakeCounts(u.s, v.s);
        TakeExpects(u, v);
      }
    }
    MorePublished(u.pieces, u.s.published, v.s.published);
  }

  lemma TakeExpects(u: Con, v: Con)
    requires RP.Next(u.s, RP.Take, v.s) && u.s.phase.ReadSlot? && v.s.phase.Serving?
    requires |v.s.used| < |v.s.published| && v.s.phase.head == v.s.published[|v.s.used|]
    requires Between(u.pieces) && Chain(u.pieces) == |v.s.used|
    ensures Expected(u.pieces, v.s.published, v.s.phase.head)
  {
    hide RP.Next;
  }

  lemma TextInv(u: Con, v: Con)
    requires Inv(u) && Next(u, ReadsText, v)
    ensures Inv(v)
  {
    hide RP.Inv, Text, Counted, InOrder, Spelled, Expected, Chain, Between;
    LiveWhileServing(u);
    LinkedOn(u, v);
    ChainInService(u);
    hide OnTrack;
    Appended(u.pieces, u.s.published, v.pieces[|u.pieces|]);
    assert u.out == Spelled(u.pieces);
    assert v.out == Spelled(v.pieces) + [];
  }

  lemma ChainInService(u: Con)
    requires OnTrack(u) && u.s.phase.Serving? && u.walk.AtText?
    ensures Chain(u.pieces) == |u.s.used| && Expected(u.pieces, u.s.published, u.walk.index)
  {
  }

  lemma LiveWhileServing(u: Con)
    requires Inv(u) && u.s.phase.Serving?
    ensures OnTrack(u) && u.torn == []
  {
    hide RP.Inv;
  }

  /** A piece that is linked on leads to its successor in the same chain. */
  lemma LinkedOn(u: Con, v: Con)
    requires OnTrack(u) && Next(u, ReadsText, v)
    ensures OnTrack(v)
  {
    hide Text, Counted;
  }

  lemma NextInv(u: Con, e: Event, v: Con)
    requires Inv(u) && Next(u, e, v)
    ensures Inv(v)
  {
    match e
    case Ring(r) => RingInv(u, r, v);
    case ReadsDesc => DescInv(u, v);
    case ReadsText => TextInv(u, v);
    case Refuses(taken) => RefusesInv(u, taken, v);
  }

  lemma DescInv(u: Con, v: Con)
    requires Inv(u) && Next(u, ReadsDesc, v)
    ensures Inv(v)
  {
    hide RP.Inv, ReadDesc, InOrder, Expected, Spelled;
  }

  lemma RefusesInv(u: Con, taken: nat, v: Con)
    requires Inv(u) && Next(u, Refuses(taken), v)
    ensures Inv(v)
  {
    hide InOrder, Expected, Spelled, Text;
    RP.NextInv(u.s, RP.Fail, v.s);
    FailKills(u.s, v.s);
    hide RP.Inv, RP.Next;
  }

  lemma FailKills(s: RP.State, t: RP.State)
    requires RP.Next(s, RP.Fail, t)
    ensures t == s.(phase := RP.Dead)
  {
  }

  lemma {:induction false} RunInv(states: seq<Con>, events: seq<Event>, i: nat)
    requires Run(states, events) && i < |states|
    ensures Inv(states[i])
  {
    hide Next, RP.Inv;
    if i == 0 {
      RP.InitInv(states[0].s);
    } else {
      hide Inv, Init;
      RunInv(states, events, i - 1);
      NextInv(states[i - 1], events[i - 1], states[i]);
    }
  }

  // ---- Where each piece comes from ----

  /** At step `m` the daemon read descriptor `d` from `index`, with `j` pieces written. */
  ghost predicate DescReadAt(states: seq<Con>, events: seq<Event>, m: nat, j: nat, index: u16, d: Desc) {
    && m < |events| && m < |states| && events[m] == ReadsDesc && |states[m].pieces| == j
    && ReadDesc(states[m].s.ram, states[m].s.q, index) == Some(d)
  }

  /** At step `m` it read the text of `d`, as piece `j`. */
  ghost predicate TextReadAt(states: seq<Con>, events: seq<Event>, m: nat, j: nat, d: Desc, text: seq<u8>) {
    && m < |events| && m < |states| && events[m] == ReadsText && |states[m].pieces| == j
    && if d.DeviceWritable() then text == [] else states[m].s.ram.Read(d.addr, d.len) == Some(text)
  }

  /** Piece `j` was read from memory in two accesses before state `i`, the descriptor first. */
  ghost predicate WasRead(states: seq<Con>, events: seq<Event>, i: nat, j: nat, p: Piece) {
    exists m: nat, n: nat :: m < n < i
      && DescReadAt(states, events, m, j, p.index, p.d) && TextReadAt(states, events, n, j, p.d, p.text)
  }

  lemma {:induction false} HeldDescWasRead(states: seq<Con>, events: seq<Event>, i: nat) returns (m: nat)
    requires Run(states, events) && i < |states| && states[i].walk.AtText?
    ensures m < i && DescReadAt(states, events, m, |states[i].pieces|, states[i].walk.index, states[i].walk.d)
  {
    hide RP.Next, RP.Init, ReadDesc, Text, ChainText, Blocked;
    assert i > 0;
    assert Next(states[i - 1], events[i - 1], states[i]);
    if events[i - 1] == ReadsDesc {
      m := i - 1;
    } else {
      m := HeldDescWasRead(states, events, i - 1);
    }
  }

  lemma {:induction false} PieceWasRead(states: seq<Con>, events: seq<Event>, i: nat, j: nat)
    requires Run(states, events) && i < |states| && j < |states[i].pieces|
    ensures WasRead(states, events, i, j, states[i].pieces[j])
  {
    hide RP.Next, RP.Init, ReadDesc, Text, Ram.Read, ChainText, Blocked;
    assert i > 0;
    var u, v := states[i - 1], states[i];
    assert Next(u, events[i - 1], v);
    if j < |u.pieces| {
      PieceWasRead(states, events, i - 1, j);
      var m: nat, n: nat :| m < n < i - 1
        && DescReadAt(states, events, m, j, u.pieces[j].index, u.pieces[j].d)
        && TextReadAt(states, events, n, j, u.pieces[j].d, u.pieces[j].text);
      assert v.pieces[j] == u.pieces[j];
    } else {
      var m := HeldDescWasRead(states, events, i - 1);
      TextIsRead(u.s.ram, v.pieces[j].d);
      assert TextReadAt(states, events, i - 1, j, v.pieces[j].d, v.pieces[j].text);
    }
  }

  /**
   Over every run, however the driver's writes fall between the daemon's accesses: the
   output is the pieces read, end to end, and nothing else, but for the part of one more
   that a console took before it refused; the pieces follow the published heads in ring
   order and each chain's links in chain order, none skipped and none twice; and each
   piece's descriptor and text were in memory when the daemon read them.
   */
  lemma OutputIsPiecesInOrder(states: seq<Con>, events: seq<Event>, i: nat)
    requires Run(states, events) && i < |states|
    ensures var u := states[i];
            && u.out == Spelled(u.pieces) + u.torn && (!u.s.phase.Dead? ==> u.torn == [])
            && InOrder(u.pieces, u.s.published)
            && (!u.s.phase.Dead? && !u.s.phase.Serving? ==>
                  Between(u.pieces) && Chain(u.pieces) == |u.s.used| + if Posting(u.s.phase) then 1 else 0)
            && forall j :: 0 <= j < |u.pieces| ==> WasRead(states, events, i, j, u.pieces[j])
  {
    RunInv(states, events, i);
    hide RP.Inv, InOrder, Spelled, WasRead, Run;
    forall j | 0 <= j < |states[i].pieces|
      ensures WasRead(states, events, i, j, states[i].pieces[j])
    {
      PieceWasRead(states, events, i, j);
    }
  }

  // ---- Chains that the driver leaves alone while they are served ----

  /** The descriptors of a chain and the buffers it is to be read from are as they were. */
  ghost predicate Undisturbed(r: Ram, s: Ram, q: Queue, head: u16) {
    && r.base == s.base && |r.bytes| == |s.bytes|
    && forall j: nat :: At(r, q, head, j).Some? ==> DescKept(r, s, q, At(r, q, head, j).value)
  }

  ghost predicate DescKept(r: Ram, s: Ram, q: Queue, index: u16) {
    && r.AgreesOn(s, DescAddr(q, index), 16)
    && match ReadDesc(r, q, index)
       case None => true
       case Some(d) => d.DeviceWritable() || r.AgreesOn(s, d.addr, d.len)
  }

  /** The driver has left the chain in service alone since it was taken. */
  ghost predicate Quiet(u: Con) {
    u.s.phase.Serving? ==> Undisturbed(u.service.ram, u.s.ram, u.s.q, u.s.phase.head)
  }

  lemma KeptReads(r: Ram, s: Ram, q: Queue, index: u16)
    requires DescKept(r, s, q, index)
    ensures ReadDesc(s, q, index) == ReadDesc(r, q, index)
    ensures ReadDesc(r, q, index).Some? ==> Text(s, ReadDesc(r, q, index).value) == Text(r, ReadDesc(r, q, index).value)
  {
    ReadAgrees(r, s, DescAddr(q, index), 16);
    if ReadDesc(r, q, index).Some? {
      var d := ReadDesc(r, q, index).value;
      if !d.DeviceWritable() {
        ReadAgrees(r, s, d.addr, d.len);
      }
    }
  }

  /** The walk of the chain in service over memory as it was when the chain was taken. */
  function Walked(u: Con): Tx
    requires u.s.phase.Serving?
  {
    TxTurns(u.service.ram, u.s.q, Reading(u.s.phase.head, u.service.out, 0), u.service.turns)
  }

  /** The interleaved walk is where the undisturbed one would be. */
  ghost predicate Tracks(u: Con)
    requires u.s.phase.Serving?
  {
    match u.walk
    case AtDesc(index, total) => Walked(u) == Reading(index, u.out, total)
    case AtText(index, d, total) =>
      Walked(u) == Reading(index, u.out, total) && ReadDesc(u.service.ram, u.s.q, index) == Some(d)
    case Ended(total) => Walked(u) == TxDone(u.out, total)
    case Resting => false
  }

  lemma StillThere(u: Con, index: u16, total: u32)
    requires u.s.phase.Serving? && Quiet(u) && Walked(u) == Reading(index, u.out, total)
    ensures DescKept(u.service.ram, u.s.ram, u.s.q, index)
  {
    hide At, TxTurns, DescKept;
    TurnsFollowLinks(u.service.ram, u.s.q, u.s.phase.head, u.service.out, u.service.turns);
    assert At(u.service.ram, u.s.q, u.s.phase.head, u.service.turns) == Some(index);
  }

  lemma DescTracks(u: Con, v: Con)
    requires u.s.phase.Serving? && Tracks(u) && Quiet(u) && Next(u, ReadsDesc, v)
    ensures Tracks(v)
  {
    hide TxTurns, ReadDesc, Undisturbed, DescKept;
    StillThere(u, u.walk.index, u.walk.total);
    KeptReads(u.service.ram, u.s.ram, u.s.q, u.walk.index);
  }

  lemma TextTracks(u: Con, v: Con)
    requires u.s.phase.Serving? && Tracks(u) && Quiet(u) && Next(u, ReadsText, v)
    ensures Tracks(v)
  {
    hide TxTurns, TxTurn, ReadDesc, Undisturbed, DescKept, Text;
    var r, q, start := u.service.ram, u.s.q, Reading(u.s.phase.head, u.service.out, 0);
    StillThere(u, u.walk.index, u.walk.total);
    KeptReads(r, u.s.ram, q, u.walk.index);
    OneMore(r, q, start, u.service.turns);
    TurnSpeaks(r, q, u.walk.index, u.out, u.walk.total, u.walk.d);
  }

  /** While a chain is served undisturbed, whatever step comes next keeps the walk on track. */
  lemma NextTracks(u: Con, e: Event, v: Con)
    requires Next(u, e, v) && u.s.phase.Serving? && v.s.phase.Serving? && Tracks(u) && Quiet(u)
    ensures Tracks(v) && v.s.phase == u.s.phase && v.s.q == u.s.q
    ensures v.service == u.service.(turns := v.service.turns) && v.texts == u.texts
  {
    hide TxTurns, Undisturbed, ReadDesc, Text, RP.Next;
    match e
    case ReadsDesc => DescTracks(u, v);
    case ReadsText => TextTracks(u, v);
    case Ring(r) => RingCounts(u.s, r, v.s); if r.Take? { TakeElsewhere(u.s, v.s); }
    case Refuses(_) => RingCounts(u.s, RP.Fail, v.s); FailKills(u.s, v.s);
  }

  lemma TakeElsewhere(s: RP.State, t: RP.State)
    requires RP.Next(s, RP.Take, t)
    ensures s.phase.ReadSlot?
  {
  }

  /** A walk that is done is done within as many turns as there are indices. */
  lemma DoneInTime(ram: Ram, q: Queue, head: u16, out: seq<u8>, n: nat)
    requires TxTurns(ram, q, Reading(head, out, 0), n).TxDone?
    ensures TxTurns(ram, q, Reading(head, out, 0), WALK_MAX) == TxTurns(ram, q, Reading(head, out, 0), n)
    ensures var l := Follow(ram, q, head, WALK_MAX);
            && l.last.Some? && Readable(ram, Descs(l))
            && TxTurns(ram, q, Reading(head, out, 0), n) ==
               TxDone(out + ChainText(ram, q, head), Total(Outgoing(Descs(l))) % 0x1_0000_0000)
  {
    hide TxTurns, Acyclic, Readable, Gather, Total, Outgoing;
    assert Stops(ram, q, head, out);
    StopsWhenAcyclic(ram, q, head, out);
    var start := Reading(head, out, 0);
    if n <= WALK_MAX {
      TxStays(ram, q, start, n, WALK_MAX);
    } else {
      TxStays(ram, q, start, WALK_MAX, n);
    }
    DoneMeansChain(ram, q, head, out, 0, WALK_MAX);
    TxWritesChain(ram, q, head, out, 0, WALK_MAX);
  }

  lemma TakeTracks(u: Con, v: Con)
    requires Next(u, Ring(RP.Take), v)
    ensures v.s.phase.Serving? && Tracks(v) && v.service == Service(u.s.ram, u.out, 0) && v.texts == u.texts
    ensures v.s.used == u.s.used && v.s.q == u.s.q && !u.s.phase.Serving? && !Posting(u.s.phase)
  {
    NoTurns(v.service.ram, v.s.q, Reading(v.s.phase.head, v.service.out, 0));
    hide TxTurns;
  }

  lemma {:induction false} ServiceTracks(states: seq<Con>, events: seq<Event>, a: nat, i: nat)
    requires Run(states, events) && a < i < |states| && events[a] == Ring(RP.Take)
    requires forall m :: a < m <= i ==> states[m].s.phase.Serving? && Quiet(states[m])
    ensures Tracks(states[i]) && states[i].s.phase == states[a + 1].s.phase && states[i].s.q == states[a].s.q
    ensures states[i].service == Service(states[a].s.ram, states[a].out, states[i].service.turns)
  {
    hide Next, Tracks, Quiet, Init;
    if i == a + 1 {
      assert Next(states[a], events[a], states[a + 1]);
      TakeTracks(states[a], states[a + 1]);
    } else {
      ServiceTracks(states, events, a, i - 1);
      assert Next(states[i - 1], events[i - 1], states[i]);
      NextTracks(states[i - 1], events[i - 1], states[i]);
    }
  }

  /**
   In any run: a chain whose descriptors and buffers the driver leaves alone from the
   moment it is taken until it is done adds to the output exactly the bytes that its
   device-readable segments held when it was taken, end to end, and the length reported
   for it is theirs, as far as 32 bits go.
   */
  lemma QuietChainSpeaks(states: seq<Con>, events: seq<Event>, a: nat, i: nat, len: u32)
    requires Run(states, events) && a < i < |events|
    requires events[a] == Ring(RP.Take) && events[i] == Ring(RP.ChainDone(len))
    requires forall m :: a < m <= i ==> states[m].s.phase.Serving? && Quiet(states[m])
    ensures var ram, q, head := states[a].s.ram, states[a].s.q, states[i].s.phase.head;
            var l := Follow(ram, q, head, WALK_MAX);
            && l.last.Some? && Readable(ram, Descs(l))
            && states[i].out == states[a].out + Gather(ram, Outgoing(Descs(l)))
            && len == Total(Outgoing(Descs(l))) % 0x1_0000_0000
  {
    hide TxTurns, Quiet, RP.Next, Init, Follow, Descs, Outgoing, Readable, Gather, Total;
    assert Next(states[i], events[i], states[i + 1]);
    ServiceTracks(states, events, a, i);
    var u := states[i];
    DoneInTime(u.service.ram, u.s.q, u.s.phase.head, u.service.out, u.service.turns);
  }

  function Joined(texts: seq<seq<u8>>): seq<u8> {
    if texts == [] then [] else Joined(texts[..|texts| - 1]) + texts[|texts| - 1]
  }

  /** One text per finished chain, and the output before the chain in service is these texts. */
  ghost predicate QuietInv(u: Con) {
    !u.s.phase.Dead? ==>
      && |u.texts| == |u.s.used| + (if Posting(u.s.phase) then 1 else 0)
      && (u.s.phase.Serving? ==> Tracks(u) && u.service.out == Joined(u.texts))
      && (!u.s.phase.Serving? ==> u.out == Joined(u.texts))
  }

  lemma DoneJoins(u: Con, len: u32, v: Con)
    requires QuietInv(u) && u.s.phase.Serving? && Next(u, Ring(RP.ChainDone(len)), v)
    ensures QuietInv(v)
  {
    hide TxTurns, ChainText, Joined, RP.Next;
    RingCounts(u.s, RP.ChainDone(len), v.s);
    DoneInTime(u.service.ram, u.s.q, u.s.phase.head, u.service.out, u.service.turns);
    JoinedMore(u.texts, v.texts[|u.texts|]);
  }

  lemma JoinedMore(texts: seq<seq<u8>>, text: seq<u8>)
    ensures Joined(texts + [text]) == Joined(texts) + text
  {
    assert (texts + [text])[..|texts|] == texts;
  }

  lemma QuietNext(u: Con, e: Event, v: Con)
    requires Inv(u) && QuietInv(u) && Quiet(u) && Next(u, e, v)
    ensures QuietInv(v)
  {
    hide RP.Inv, RP.Next, Tracks, Undisturbed, Joined, ChainText, ReadDesc, Text, Blocked;
    if v.s.phase.Dead? {
      return;
    }
    var r := match e case Ring(r) => r case _ => RP.Fail;
    if e.Ring? && u.s.phase.Dead? {
      RP.DeadStays(u.s, r, v.s);
    } else if e.Refuses? {
      FailKills(u.s, v.s);
    } else if e.Ring? && r.Take? {
      TakeTracks(u, v);
    } else if e.Ring? && r.ChainDone? {
      DoneJoins(u, r.len, v);
    } else {
      if e.Ring? {
        RingCounts(u.s, r, v.s);
      }
      if u.s.phase.Serving? {
        NextTracks(u, e, v);
      }
    }
  }

  lemma {:induction false} QuietRunInv(states: seq<Con>, events: seq<Event>, i: nat)
    requires Run(states, events) && i < |states| && forall m :: 0 <= m < i ==> Quiet(states[m])
    ensures QuietInv(states[i])
  {
    hide Next, Quiet, Inv;
    if i > 0 {
      QuietRunInv(states, events, i - 1);
      RunInv(states, events, i - 1);
      QuietNext(states[i - 1], events[i - 1], states[i]);
    }
  }

  /** At step `m` the chain numbered `k` was taken from the ring, and memory made it say `text`. */
  ghost predicate TakenAt(states: seq<Con>, events: seq<Event>, m: nat, k: nat, head: u16, text: seq<u8>) {
    && m + 1 < |states| && m < |events| && events[m] == Ring(RP.Take)
    && |states[m].texts| == k && states[m + 1].s.phase == RP.Serving(head)
    && text == ChainText(states[m].s.ram, states[m].s.q, head)
  }

  ghost predicate WasTaken(states: seq<Con>, events: seq<Event>, i: nat, k: nat, head: u16, text: seq<u8>) {
    exists m: nat :: m < i && TakenAt(states, events, m, k, head, text)
  }

  /** The chain in service, as it was when it was taken. */
  lemma {:induction false} ServiceBegan(states: seq<Con>, events: seq<Event>, i: nat) returns (m: nat)
    requires Run(states, events) && i < |states| && states[i].s.phase.Serving?
    ensures var u := states[i];
            && m < i
            && TakenAt(states, events, m, |u.texts|, u.s.phase.head, ChainText(u.service.ram, u.s.q, u.s.phase.head))
  {
    hide RP.Next, ReadDesc, Text, ChainText, Blocked;
    assert i > 0;
    var u, e, v := states[i - 1], events[i - 1], states[i];
    assert Next(u, e, v);
    if e == Ring(RP.Take) {
      TakeTracks(u, v);
      m := i - 1;
    } else {
      var r := match e case Ring(r) => r case _ => RP.Fail;
      if e.Ring? && u.s.phase.Dead? {
        RP.DeadStays(u.s, r, v.s);
      } else if e.Refuses? {
        FailKills(u.s, v.s);
      } else if e.Ring? {
        RingCounts(u.s, r, v.s);
      }
      m := ServiceBegan(states, events, i - 1);
    }
  }

  lemma DoneHead(u: Con, len: u32, v: Con)
    requires Inv(u) && QuietInv(u) && Next(u, Ring(RP.ChainDone(len)), v)
    ensures u.s.phase.Serving? && |u.texts| < |u.s.published| && u.s.phase.head == u.s.published[|u.texts|]
    ensures v.s.published == u.s.published
  {
    hide Ram.Read, Ram.Read16, AvailHolds, UsedHolds, AvailSlotAddr, UsedElemAddr, Add64, Tracks, Joined, InOrder,
        Spelled;
  }

  lemma {:induction false} TextWasTaken(states: seq<Con>, events: seq<Event>, i: nat, k: nat)
    requires Run(states, events) && i < |states| && forall m :: 0 <= m < i ==> Quiet(states[m])
    requires k < |states[i].texts|
    ensures k < |states[i].s.published|
    ensures WasTaken(states, events, i, k, states[i].s.published[k], states[i].texts[k])
  {
    hide RP.Next, ReadDesc, Text, ChainText, Blocked, TakenAt, Quiet, QuietInv, Inv, Init;
    assert i > 0 by {
      Nothing(states[0], states, events);
    }
    var u, e, v := states[i - 1], events[i - 1], states[i];
    assert Next(u, e, v);
    RunInv(states, events, i - 1);
    QuietRunInv(states, events, i - 1);
    PublishedGrows(u, e, v);
    if k < |u.texts| {
      TextWasTaken(states, events, i - 1, k);
      var m: nat :| m < i - 1 && TakenAt(states, events, m, k, u.s.published[k], u.texts[k]);
      assert TakenAt(states, events, m, k, v.s.published[k], v.texts[k]);
    } else {
      DoneHead(u, e.e.len, v);
      var m := ServiceBegan(states, events, i - 1);
      assert TakenAt(states, events, m, k, v.s.published[k], v.texts[k]);
    }
  }

  lemma Nothing(u: Con, states: seq<Con>, events: seq<Event>)
    requires Run(states, events) && u == states[0]
    ensures u.texts == []
  {
  }

  lemma PublishedGrows(u: Con, e: Event, v: Con)
    requires Inv(u) && Next(u, e, v)
    ensures u.s.published <= v.s.published
  {
    hide RP.Inv, RP.Next, ReadDesc, Text, ChainText, Blocked, InOrder, Spelled;
    match e
    case Ring(r) => if u.s.phase.Dead? { DeadRests(u.s, r, v.s); } else { RingCounts(u.s, r, v.s); }
    case Refuses(_) => FailKills(u.s, v.s);
    case _ =>
  }

  /**
   In a run whose driver leaves each chain alone while it is served: between chains the
   output of a live daemon is what the published chains said in memory when they were
   taken, in ring order, each once, and nothing else.
   */
  lemma QuietOutputIsRingOrder(states: seq<Con>, events: seq<Event>, i: nat)
    requires Run(states, events) && i < |states| && forall m :: 0 <= m < i ==> Quiet(states[m])
    ensures var u := states[i];
            && (!u.s.phase.Dead? ==> |u.texts| == |u.s.used| + if Posting(u.s.phase) then 1 else 0)
            && (!u.s.phase.Dead? && !u.s.phase.Serving? ==> u.out == Joined(u.texts))
            && |u.texts| <= |u.s.published|
            && forall k :: 0 <= k < |u.texts| ==> WasTaken(states, events, i, k, u.s.published[k], u.texts[k])
  {
    hide Run, Quiet, Joined, WasTaken;
    QuietRunInv(states, events, i);
    var u := states[i];
    forall k | 0 <= k < |u.texts|
      ensures k < |u.s.published| && WasTaken(states, events, i, k, u.s.published[k], u.texts[k])
    {
      TextWasTaken(states, events, i, k);
    }
    if u.texts != [] {
      TextWasTaken(states, events, i, |u.texts| - 1);
    }
  }
}
