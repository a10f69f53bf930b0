/** The daemon's notification loop, run against a ring that keeps the protocol, empties it in order. */
module RingDrain {
  import opened Words
  import opened GuestMemory
  import opened Virtqueue
  import opened BlockImage
  import opened BlockRequest
  import opened BlockTransfer
  import opened BlockRefinement
  import opened BlockDaemon
  import opened RingLayout
  import RP = RingProtocol

  // ---- A request keeps every range its buffers stay clear of ----

  lemma {:induction false} TransferFrame(req: Request, w: Work, segs: seq<Desc>, a: int, n: nat)
    requires forall d :: d in segs && d.DeviceWritable() ==> Apart(d.addr, d.len, a, n)
    ensures w.ram.AgreesOn(Transfer(req, w, segs).work.ram, a, n)
    decreases |segs|
  {
    hide Segment;
    if segs != [] && Segment(req, w, segs[0]).Some? {
      assert segs[0] in segs;
      SegmentFrame(req, w, segs[0], a, n);
      TransferFrame(req, Segment(req, w, segs[0]).value, segs[1..], a, n);
    }
  }

  /** Buffers and status byte outside a range of guest memory leave that range alone. */
  lemma ChainFrame(ram: Ram, disk: Disk, q: Queue, head: u16, flushOk: bool, l: Layout, a: int, n: nat)
    requires q.num != 0xffff_ffff && Parse(ram, q, head) == Some(l)
    requires l.kind == T_IN && l.HeaderStatus() == S_OK ==> ChainApart(q, l.links)
    requires forall d :: d in l.links.segs && d.DeviceWritable() ==> Apart(d.addr, d.len, a, n)
    requires l.links.last.Some? ==> Apart(l.links.last.value.addr, 1, a, n)
    ensures ram.AgreesOn(ProcessChain(ram, disk, q, head, flushOk).ram, a, n)
  {
    hide Parse, Segment;
    ChainIsTransfer(ram, disk, q, head, flushOk, l);
    TransferFrame(l.Decoded(), Work(ram, disk, l.HeaderStatus(), 0), l.links.segs, a, n);
    var m := Run(ram, disk, l);
    if m.Finished? && l.links.last.Some? {
      var c := Complete(l.Decoded(), m.work, l.links.last.value, flushOk);
      if c.ok {
        ReadAfterWrite(m.work.ram, c.ram, l.links.last.value.addr, [c.status]);
      }
    }
  }

  // ---- One turn of the loop, as steps of the protocol ----

  /** The daemon's state seen as a state of the protocol at its loop head. */
  ghost predicate AtLoopHead(s: RP.State, d: Daemon) {
    RP.Inv(s) && s.phase == RP.ReadIndex(RETRIES) && s.ram == d.ram && s.q == d.queue
  }

  lemma RingWritesFit(ram: Ram, q: Queue, i: nat)
    requires Placed(ram, q)
    ensures ram.InRange(UsedIdAt(q, i), 4) && ram.InRange(UsedLenAt(q, i), 4) && ram.InRange(UsedIdxAt(q), 2)
  {
    Addresses(ram, q, i);
  }

  lemma BeginUsed(s: RP.State, len: u32) returns (t: RP.State)
    requires RP.Inv(s) && s.phase.Serving?
    ensures RP.Inv(t) && t.phase.PutId? && t == s.(phase := RP.PutId(s.phase.head, len, t.phase.idx))
    ensures s.ram.Read16(UsedIdxAt(s.q)) == Some(t.phase.idx)
  {
    hide AvailSlotAddr, UsedElemAddr, Add64, Ram.Read, Ram.Read16;
    var s1 := s.(phase := RP.ReadUsed(s.phase.head, len));
    RP.DaemonStepInv(s, RP.ChainDone(len), s1);
    t := s.(phase := RP.PutId(s.phase.head, len, Wrapped(|s.used|)));
    RP.DaemonStepInv(s1, RP.StartUsed, t);
  }

  lemma PutId(s: RP.State) returns (t: RP.State)
    requires RP.Inv(s) && s.phase.PutId?
    ensures s.q.num % 0x1_0000 != 0 && RP.Inv(t)
    ensures s.ram.Write(UsedElemAddr(s.q, s.phase.idx), Store32(s.phase.head)) == Some(t.ram)
    ensures t == s.(ram := t.ram, phase := RP.PutLen(s.phase.head, s.phase.len, s.phase.idx))
  {
    hide AvailSlotAddr, UsedElemAddr, Add64, Ram.Read, Ram.Read16;
    RingWritesFit(s.ram, s.q, |s.used|);
    var r := s.ram.Write(UsedElemAddr(s.q, s.phase.idx), Store32(s.phase.head)).value;
    t := s.(ram := r, phase := RP.PutLen(s.phase.head, s.phase.len, s.phase.idx));
    RP.DaemonStepInv(s, RP.StoreId, t);
  }

  lemma PutLen(s: RP.State) returns (t: RP.State)
    requires RP.Inv(s) && s.phase.PutLen?
    ensures s.q.num % 0x1_0000 != 0 && RP.Inv(t)
    ensures s.ram.Write(Add64(UsedElemAddr(s.q, s.phase.idx), 4), Store32(s.phase.len)) == Some(t.ram)
    ensures t == s.(ram := t.ram, phase := RP.PutIdx(s.phase.head, s.phase.len, s.phase.idx))
  {
    hide AvailSlotAddr, UsedElemAddr, Add64, Ram.Read, Ram.Read16;
    RingWritesFit(s.ram, s.q, |s.used|);
    var r := s.ram.Write(Add64(UsedElemAddr(s.q, s.phase.idx), 4), Store32(s.phase.len)).value;
    t := s.(ram := r, phase := RP.PutIdx(s.phase.head, s.phase.len, s.phase.idx));
    RP.DaemonStepInv(s, RP.StoreLen, t);
  }

  lemma PutIdx(s: RP.State) returns (t: RP.State)
    requires RP.Inv(s) && s.phase.PutIdx?
    ensures RP.Inv(t) && s.ram.Write(UsedIdxAt(s.q), Store16(Add16(s.phase.idx, 1))) == Some(t.ram)
    ensures t == s.(ram := t.ram, phase := RP.Phase.Advance, used := s.used + [Elem(s.phase.head, s.phase.len)])
  {
    hide AvailSlotAddr, UsedElemAddr, Add64, Ram.Read, Ram.Read16;
    RingWritesFit(s.ram, s.q, |s.used|);
    t := s.(ram := s.ram.Write(UsedIdxAt(s.q), Store16(Add16(s.phase.idx, 1))).value, phase := RP.Phase.Advance,
            used := s.used + [Elem(s.phase.head, s.phase.len)]);
    RP.DaemonStepInv(s, RP.StoreIdx, t);
  }

  /** `virtio_add_used` on a ring that keeps the protocol is the protocol's own steps, and succeeds. */
  lemma AddUsedIsSteps(s: RP.State, head: u16, len: u32) returns (t: RP.State)
    requires RP.Inv(s) && s.phase == RP.Serving(head) && s.q.num % 0x1_0000 != 0
    ensures AddUsed(s.ram, s.q, head, len) == Posted(true, t.ram) && RP.Inv(t)
    ensures t == s.(ram := t.ram, phase := RP.Phase.Advance, used := s.used + [Elem(head, len)])
  {
    hide RP.Inv, UsedElemAddr, Ram.Read, Ram.Read16, Ram.Write, Add64, Add16;
    var s1 := BeginUsed(s, len);
    var s2 := PutId(s1);
    var s3 := PutLen(s2);
    t := PutIdx(s3);
  }

  /** A request served between two loop heads adds its head and used length to the used log and nothing else. */
  lemma ServeIsSteps(s: RP.State, d: Daemon, flushOk: bool) returns (t: RP.State)
    requires AtLoopHead(s, d) && d.Sized() && NextAvail(d.ram, d.queue).Head?
    requires var r := ProcessChain(d.ram, d.disk, d.queue, NextAvail(d.ram, d.queue).head, flushOk);
             r.ok && RingsKept(d.queue, d.ram, r.ram)
    ensures var l := ServeOne(d, NextAvail(d.ram, d.queue).head, flushOk);
            var r := ProcessChain(d.ram, d.disk, d.queue, NextAvail(d.ram, d.queue).head, flushOk);
            && l.Looping? && AtLoopHead(t, l.d)
            && t.published == s.published && t.collected == s.collected
            && t.used == s.used + [Elem(NextAvail(d.ram, d.queue).head, r.usedLen)]
  {
    hide RP.Inv, ProcessChain, AddUsed, UsedElemAddr, Ram.Read, Ram.Write, Add64, Add16;
    var h := NextAvail(d.ram, d.queue).head;
    var r := ProcessChain(d.ram, d.disk, d.queue, h, flushOk);
    Sizes(s);
    var s1 := s.(phase := RP.ReadSlot);
    RP.DaemonStepInv(s, RP.Poll, s1);
    var s2 := s.(phase := RP.Serving(h));
    RP.DaemonStepInv(s1, RP.Take, s2);
    var s3 := s2.(ram := r.ram);
    RP.DaemonStepInv(s2, RP.ChainWrites, s3);
    var s4 := AddUsedIsSteps(s3, h, r.usedLen);
    t := s4.(q := s4.q.(lastAvail := Add16(s4.q.lastAvail, 1)), phase := RP.ReadIndex(RETRIES));
    RP.DaemonStepInv(s4, RP.Step, t);
  }

  lemma Sizes(s: RP.State)
    requires RP.Inv(s)
    ensures QueueSize(s.q.num)
  {
  }

  // ---- What a chain reads and what it writes ----

  datatype Span = Span(at: int, len: nat)

  function DescSpans(q: Queue, at: seq<u16>): seq<Span> {
    seq(|at|, i requires 0 <= i < |at| => Span(DescAddr(q, at[i]), 16))
  }

  /** The bytes that say what a request is: its descriptors and its header. */
  ghost function Footprint(ram: Ram, q: Queue, head: u16): seq<Span>
    requires Parse(ram, q, head).Some?
  {
    [Span(DescAddr(q, head), 16), Span(ReadDesc(ram, q, head).value.addr, 16)]
    + DescSpans(q, Parse(ram, q, head).value.links.at)
  }

  ghost predicate Untouched(r: Ram, s: Ram, span: Span) {
    r.AgreesOn(s, span.at, span.len)
  }

  /** Neither a buffer the device may write nor the status byte lies in the span. */
  ghost predicate Clear(l: Layout, span: Span) {
    && (forall d :: d in l.links.segs && d.DeviceWritable() ==> Apart(d.addr, d.len, span.at, span.len))
    && (l.links.last.Some? ==> Apart(l.links.last.value.addr, 1, span.at, span.len))
  }

  ghost predicate ClearOfAll(ls: seq<Layout>, span: Span) {
    forall i :: 0 <= i < |ls| ==> Clear(ls[i], span)
  }

  function AvailSpan(q: Queue): Span {
    Span(q.avail + 2, 2 + 2 * q.num)
  }

  function UsedSpan(q: Queue): Span {
    Span(q.used, 4 + 8 * q.num)
  }

  ghost predicate OffUsed(q: Queue, span: Span) {
    Apart(q.used, 4 + 8 * q.num, span.at, span.len)
  }

  lemma FollowCursor(ram: Ram, q: Queue, q': Queue, index: u16, budget: nat)
    requires q'.desc == q.desc
    ensures Follow(ram, q', index, budget) == Follow(ram, q, index, budget)
    decreases budget
  {
    hide DecodeDesc, Ram.Read;
    if budget > 0 && ReadDesc(ram, q, index).Some? && ReadDesc(ram, q, index).value.HasNext() {
      FollowCursor(ram, q, q', ReadDesc(ram, q, index).value.next, budget - 1);
    }
  }

  /** Memory that agrees on a request's footprint holds the same request, wherever the cursor stands. */
  lemma ParseAgrees(r: Ram, s: Ram, q: Queue, q': Queue, head: u16)
    requires Parse(r, q, head).Some? && q'.desc == q.desc && q'.num == q.num
    requires forall f :: f in Footprint(r, q, head) ==> Untouched(r, s, f)
    ensures Parse(s, q', head) == Parse(r, q, head)
  {
    var spans := Footprint(r, q, head);
    var d := ReadDesc(r, q, head).value;
    var at := Parse(r, q, head).value.links.at;
    assert spans[0] == Span(DescAddr(q, head), 16) && spans[1] == Span(d.addr, 16);
    assert Untouched(r, s, spans[0]) && Untouched(r, s, spans[1]);
    ReadAgrees(r, s, DescAddr(q, head), 16);
    ReadAgrees(r, s, d.addr, 16);
    forall a | a in at
      ensures r.AgreesOn(s, DescAddr(q, a), 16)
    {
      var i :| 0 <= i < |at| && at[i] == a;
      assert spans[i + 2] == Span(DescAddr(q, a), 16);
      assert Untouched(r, s, spans[i + 2]);
    }
    FollowAgrees(r, s, q, d.next, q.num);
    FollowCursor(s, q, q', d.next, q.num);
  }

  lemma WriteInUsed(r: Ram, s: Ram, q: Queue, at: u64, data: seq<u8>, span: Span)
    requires r.Write(at, data) == Some(s) && q.used <= at && at + |data| <= q.used + 4 + 8 * q.num && OffUsed(q, span)
    ensures Untouched(r, s, span)
  {
    ReadAfterWrite(r, s, at, data);
  }

  lemma UntouchedTwice(r: Ram, s: Ram, t: Ram, span: Span)
    requires Untouched(r, s, span) && Untouched(s, t, span)
    ensures Untouched(r, t, span)
  {
  }

  /** A used element changes memory inside the used ring only. */
  lemma AddUsedFrame(ram: Ram, q: Queue, i: nat, head: u16, len: u32, span: Span)
    requires Placed(ram, q) && ram.Read16(UsedIdxAt(q)) == Some(Wrapped(i)) && OffUsed(q, span)
    ensures q.num % 0x1_0000 != 0 && Untouched(ram, AddUsed(ram, q, head, len).ram, span)
  {
    Addresses(ram, q, i);
    hide UsedElemAddr, Ram.Read16, Ram.Write, Slot, Add64, Add16, Store32, Store16, OffUsed;
    var elem := UsedElemAddr(q, Wrapped(i));
    var w1 := ram.Write(elem, Store32(head));
    if w1.None? {
      return;
    }
    WriteInUsed(ram, w1.value, q, elem, Store32(head), span);
    hide Untouched;
    var w2 := w1.value.Write(Add64(elem, 4), Store32(len));
    if w2.None? {
      return;
    }
    WriteInUsed(w1.value, w2.value, q, Add64(elem, 4), Store32(len), span);
    UntouchedTwice(ram, w1.value, w2.value, span);
    var idx := Store16(Add16(Wrapped(i), 1));
    var w3 := w2.value.Write(UsedIdxAt(q), idx);
    if w3.Some? {
      WriteInUsed(w2.value, w3.value, q, UsedIdxAt(q), idx, span);
      UntouchedTwice(ram, w2.value, w3.value, span);
    }
  }

  // ---- The driver's side of a notification ----

  /**
   Pending requests that do not disturb each other's description, read off memory before
   the kick: each parses, and no chain writes the rings, nor any pending chain's
   descriptors or header, its own included; nor does the used ring lie on those.
   */
  ghost predicate Tidy(ram: Ram, q: Queue, heads: seq<u16>, ls: seq<Layout>) {
    && |ls| == |heads|
    && (forall i :: 0 <= i < |heads| ==> Parse(ram, q, heads[i]) == Some(ls[i]))
    && ClearOfAll(ls, AvailSpan(q)) && ClearOfAll(ls, UsedSpan(q))
    && (forall i, f :: 0 <= i < |heads| && f in Footprint(ram, q, heads[i]) ==> ClearOfAll(ls, f) && OffUsed(q, f))
  }

  /** What serving the chains `ls` may not have changed. */
  ghost predicate KeptOutside(r: Ram, s: Ram, q: Queue, ls: seq<Layout>) {
    forall span :: ClearOfAll(ls, span) && OffUsed(q, span) ==> Untouched(r, s, span)
  }

  ghost function Pending(s: RP.State): seq<u16>
    requires |s.used| <= |s.published|
  {
    s.published[|s.used|..]
  }

  /** `t` is at a loop head of `d`'s, reached from `s` by serving `k` requests. */
  ghost predicate Served(s: RP.State, t: RP.State, d: Daemon, k: nat) {
    && AtLoopHead(t, d) && t.published == s.published && t.collected == s.collected
    && |t.used| == |s.used| + k && t.used[..|s.used|] == s.used
    && d.queue.(lastAvail := 0) == s.q.(lastAvail := 0)
  }

  /** The head a poll finds is the next one published. */
  lemma HeadIsNext(t: RP.State, d: Daemon)
    requires AtLoopHead(t, d) && d.Sized()
    ensures |t.used| <= |t.published|
    ensures match NextAvail(d.ram, d.queue)
            case DmaError => false
            case Empty => |t.used| == |t.published|
            case Head(h) => |t.used| < |t.published| && h == t.published[|t.used|]
  {
    hide Ram.Read, Ram.Read16, AvailSlotAddr, UsedElemAddr, Add64;
    if |t.used| < |t.published| {
      assert d.ram.Read16(AvailSlotAt(t.q, |t.used|)) == Some(t.published[|t.used|]);
    }
    if NextAvail(d.ram, d.queue) == Empty {
      WrappedApart(|t.used|, |t.published|);
    }
  }

  /** A tidy chain, still as it was parsed, leaves alone whatever it is clear of. */
  lemma ChainKeeps(ram: Ram, disk: Disk, q: Queue, head: u16, flushOk: bool, l: Layout, span: Span)
    requires q.num != 0xffff_ffff && Parse(ram, q, head) == Some(l)
    requires forall f :: f in Footprint(ram, q, head) ==> Clear(l, f)
    requires Clear(l, span)
    ensures Untouched(ram, ProcessChain(ram, disk, q, head, flushOk).ram, span)
  {
    hide Parse;
    forall i, j | 0 <= i < |l.links.segs| && 0 <= j < |l.links.at| && l.links.segs[i].DeviceWritable()
      ensures Apart(l.links.segs[i].addr, l.links.segs[i].len, DescAddr(q, l.links.at[j]), 16)
    {
      assert Footprint(ram, q, head)[j + 2] == Span(DescAddr(q, l.links.at[j]), 16);
      assert Clear(l, Span(DescAddr(q, l.links.at[j]), 16));
      assert l.links.segs[i] in l.links.segs;
    }
    ChainFrame(ram, disk, q, head, flushOk, l, span.at, span.len);
  }

  /** The next request is in memory as it was when the notification began. */
  lemma StillParses(ram: Ram, ram': Ram, q: Queue, q': Queue, heads: seq<u16>, ls: seq<Layout>, k: nat)
    requires Tidy(ram, q, heads, ls) && k < |heads| && KeptOutside(ram, ram', q, ls[..k])
    requires q'.(lastAvail := 0) == q.(lastAvail := 0)
    ensures Parse(ram', q', heads[k]) == Some(ls[k])
    ensures Footprint(ram', q', heads[k]) == Footprint(ram, q, heads[k])
  {
    hide Parse, Footprint;
    forall f | f in Footprint(ram, q, heads[k])
      ensures Untouched(ram, ram', f)
    {
      assert ClearOfAll(ls, f) && OffUsed(q, f);
      assert ClearOfAll(ls[..k], f);
    }
    ParseAgrees(ram, ram', q, q', heads[k]);
    SameFootprint(ram, ram', q, q', heads[k]);
  }

  lemma SameFootprint(r: Ram, s: Ram, q: Queue, q': Queue, head: u16)
    requires Parse(r, q, head).Some? && Parse(s, q', head) == Parse(r, q, head) && q'.desc == q.desc
    requires forall f :: f in Footprint(r, q, head) ==> Untouched(r, s, f)
    ensures Footprint(s, q', head) == Footprint(r, q, head)
  {
    assert Footprint(r, q, head)[0] == Span(DescAddr(q, head), 16);
    assert Untouched(r, s, Span(DescAddr(q, head), 16));
    ReadAgrees(r, s, DescAddr(q, head), 16);
  }

  /** A tidy chain leaves the rings alone, and its used element everything but the used ring. */
  lemma PostKeeps(t: RP.State, d: Daemon, flushOk: bool, l: Layout, head: u16, span: Span)
    requires AtLoopHead(t, d) && d.Sized() && Parse(d.ram, d.queue, head) == Some(l)
    requires forall f :: f in Footprint(d.ram, d.queue, head) ==> Clear(l, f)
    requires Clear(l, AvailSpan(d.queue)) && Clear(l, UsedSpan(d.queue)) && OffUsed(d.queue, span)
    ensures var r := ProcessChain(d.ram, d.disk, d.queue, head, flushOk);
            && RingsKept(d.queue, d.ram, r.ram)
            && Untouched(r.ram, AddUsed(r.ram, d.queue, head, r.usedLen).ram, span)
  {
    hide ProcessChain, Parse, Footprint, AddUsed;
    var q, r := d.queue, ProcessChain(d.ram, d.disk, d.queue, head, flushOk);
    ChainKeeps(d.ram, d.disk, q, head, flushOk, l, AvailSpan(q));
    ChainKeeps(d.ram, d.disk, q, head, flushOk, l, UsedSpan(q));
    hide Clear, Ram.Read, Ram.Read16, AvailHolds, UsedHolds;
    UsedKept(q, d.ram, r.ram, 0, []);
    AddUsedFrame(r.ram, q, |t.used|, head, r.usedLen, span);
  }

  /** One more request keeps whatever its chain is clear of and the used ring does not cover. */
  lemma ServeKeeps(t: RP.State, d: Daemon, flushOk: bool, l: Layout, head: u16, span: Span)
    requires AtLoopHead(t, d) && d.Sized() && Parse(d.ram, d.queue, head) == Some(l)
    requires forall f :: f in Footprint(d.ram, d.queue, head) ==> Clear(l, f)
    requires Clear(l, AvailSpan(d.queue)) && Clear(l, UsedSpan(d.queue)) && Clear(l, span) && OffUsed(d.queue, span)
    ensures Untouched(d.ram, ServeOne(d, head, flushOk).d.ram, span)
  {
    hide ProcessChain, Parse, Footprint, AddUsed, RP.Inv, Clear;
    PostKeeps(t, d, flushOk, l, head, span);
    ChainKeeps(d.ram, d.disk, d.queue, head, flushOk, l, span);
  }

  /**
   Every turn of the loop that goes on has served the next published head, in the
   protocol's own steps, and changed nothing outside that head's chain and the used ring.
   */
  lemma {:induction false} AfterTurns(s: RP.State, d: Daemon, flushes: nat -> bool, ls: seq<Layout>, k: nat)
      returns (t: RP.State)
    requires d.Sized() && AtLoopHead(s, d) && |s.used| <= |s.published| && Tidy(d.ram, d.queue, Pending(s), ls)
    ensures var l := LoopTurns(d, flushes, k);
            l.Looping? ==> k <= |ls| && Served(s, t, l.d, k) && KeptOutside(d.ram, l.d.ram, d.queue, ls[..k])
  {
    hide RP.Inv, ProcessChain, NextAvail, RingsKept, AddUsed, Tidy, ServeOne;
    t := s;
    if k > 0 && LoopTurns(d, flushes, k).Looping? {
      var l := LoopTurns(d, flushes, k - 1);
      t := AfterTurns(s, d, flushes, ls, k - 1);
      HeadIsNext(t, l.d);
      TidyLength(d.ram, d.queue, Pending(s), ls);
      t := OneMoreTurn(s, t, d, l.d, flushes(k - 1), ls, k - 1);
    }
  }

  lemma TidyLength(ram: Ram, q: Queue, heads: seq<u16>, ls: seq<Layout>)
    requires Tidy(ram, q, heads, ls)
    ensures |ls| == |heads|
  {
  }

  /** The turn that serves request `k`, if its chain does not fail. */
  lemma OneMoreTurn(s: RP.State, t: RP.State, d: Daemon, e: Daemon, flushOk: bool, ls: seq<Layout>, k: nat)
      returns (t': RP.State)
    requires |s.used| <= |s.published| && Tidy(d.ram, d.queue, Pending(s), ls) && k < |ls|
    requires d.queue == s.q && Served(s, t, e, k) && e.Sized() && KeptOutside(d.ram, e.ram, d.queue, ls[..k])
    ensures |t.used| < |s.published| && NextAvail(e.ram, e.queue) == Head(Pending(s)[k])
    ensures var l := ServeOne(e, Pending(s)[k], flushOk);
            var r := ProcessChain(e.ram, e.disk, e.queue, Pending(s)[k], flushOk);
            && l.Looping? == r.ok
            && (r.ok ==> && Served(s, t', l.d, k + 1) && KeptOutside(d.ram, l.d.ram, d.queue, ls[..k + 1])
                         && t'.used == t.used + [Elem(Pending(s)[k], r.usedLen)])
  {
    hide RP.Inv, ProcessChain, NextAvail, RingsKept, AddUsed, Parse, Footprint;
    var h := Pending(s)[k];
    HeadIsNext(t, e);
    var r := ProcessChain(e.ram, e.disk, e.queue, h, flushOk);
    StillParses(d.ram, e.ram, d.queue, e.queue, Pending(s), ls, k);
    ClearChain(d.ram, e.ram, d.queue, e.queue, Pending(s), ls, k);
    PostKeeps(t, e, flushOk, ls[k], h, Span(0, 0));
    t' := t;
    if r.ok {
      t' := ServeIsSteps(t, e, flushOk);
      var after := ServeOne(e, h, flushOk).d.ram;
      forall span | ClearOfAll(ls[..k + 1], span) && OffUsed(d.queue, span)
        ensures Untouched(d.ram, after, span)
      {
        assert ls[..k + 1][k] == ls[k] && Clear(ls[k], span);
        assert ClearOfAll(ls[..k], span) by {
          assert forall i :: 0 <= i < k ==> ls[..k][i] == ls[..k + 1][i];
        }
        assert Untouched(d.ram, e.ram, span);
        ServeKeeps(t, e, flushOk, ls[k], h, span);
      }
    }
  }

  lemma ClearChain(ram: Ram, ram': Ram, q: Queue, q': Queue, heads: seq<u16>, ls: seq<Layout>, k: nat)
    requires Tidy(ram, q, heads, ls) && k < |heads| && q'.(lastAvail := 0) == q.(lastAvail := 0)
    requires Parse(ram', q', heads[k]).Some? && Footprint(ram', q', heads[k]) == Footprint(ram, q, heads[k])
    ensures forall f :: f in Footprint(ram', q', heads[k]) ==> Clear(ls[k], f)
    ensures Clear(ls[k], AvailSpan(q')) && Clear(ls[k], UsedSpan(q')) && OffUsed(q', Span(0, 0))
  {
    hide Parse, Footprint;
    forall f | f in Footprint(ram, q, heads[k])
      ensures Clear(ls[k], f)
    {
      assert ClearOfAll(ls, f);
    }
  }

  /**
   A notification on a ring that keeps the protocol, with tidy requests pending, ends
   after at most one turn for each of them and one more; and unless a request fails,
   every entry published before it is on the used ring after it, in order.
   */
  lemma NotificationDrainsRing(s: RP.State, d: Daemon, flushes: nat -> bool, ls: seq<Layout>) returns (t: RP.State)
    requires d.Sized() && AtLoopHead(s, d) && |s.used| <= |s.published| && Tidy(d.ram, d.queue, Pending(s), ls)
    ensures var l := LoopTurns(d, flushes, |ls| + 1);
            && !l.Looping?
            && (l.Drained? ==> && AtLoopHead(t, l.d) && t.published == s.published && |t.used| == |s.published|
                               && forall i :: 0 <= i < |s.published| ==> t.used[i].id == s.published[i])
  {
    hide ProcessChain, NextAvail, LoopTurns, UsedHolds, AvailHolds, Ram.Read, Ram.Read16, Tidy;
    t := AfterTurns(s, d, flushes, ls, |ls| + 1);
    if LoopTurns(d, flushes, |ls| + 1).Drained? {
      t := DrainedMeansCaughtUp(s, d, flushes, ls, |ls| + 1);
    }
  }

  lemma {:induction false} DrainedMeansCaughtUp(s: RP.State, d: Daemon, flushes: nat -> bool, ls: seq<Layout>, n: nat)
    returns (t: RP.State)
    requires d.Sized() && AtLoopHead(s, d) && |s.used| <= |s.published| && Tidy(d.ram, d.queue, Pending(s), ls)
    requires LoopTurns(d, flushes, n).Drained?
    ensures AtLoopHead(t, LoopTurns(d, flushes, n).d)
    ensures t.published == s.published && |t.used| == |s.published|
  {
    hide RP.Inv, ProcessChain, NextAvail, Tidy, ServeOne;
    var l := LoopTurns(d, flushes, n - 1);
    TurnEnds(l, flushes(n - 1));
    if l.Looping? {
      t := AfterTurns(s, d, flushes, ls, n - 1);
      HeadIsNext(t, l.d);
    } else {
      t := DrainedMeansCaughtUp(s, d, flushes, ls, n - 1);
    }
  }

  lemma TurnEnds(l: Loop, flushOk: bool)
    requires (l.Looping? ==> l.d.Sized()) && LoopTurn(l, flushOk).Drained?
    ensures LoopTurn(l, flushOk).d == l.d && (l.Looping? ==> NextAvail(l.d.ram, l.d.queue) == Empty) && !l.Broken?
  {
    hide ProcessChain, NextAvail, AddUsed;
  }
}
