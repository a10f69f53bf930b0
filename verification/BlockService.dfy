/**
 A whole notification as the driver sees it: every pending request, in ring order, as if
 each had been carried out alone on one flat image.
 */
module BlockService {
  import opened Words
  import opened GuestMemory
  import opened Virtqueue
  import opened BlockImage
  import opened BlockRequest
  import opened BlockTransfer
  import opened BlockRefinement
  import opened BlockDaemon
  import opened RingLayout
  import opened RingDrain
  import RP = RingProtocol

  // ---- The reference: requests on a flat image, one after the other ----

  /** One request on the image: a write lays down its segments up to the first bad one, nothing else changes it. */
  ghost function Stored(ram: Ram, disk: Disk, l: Layout): (r: Disk)
    ensures r.readonly == disk.readonly && |r.data| == |disk.data|
  {
    var k := GoodPrefix(T_OUT, ExtentOf(ram, disk), 512 * l.sector, l.links.segs);
    if l.kind != T_OUT || l.HeaderStatus() != S_OK then disk
    else
      GoodPrefixFits(T_OUT, ram, disk, 512 * l.sector, l.links.segs);
      disk.(data := Overlay(disk.data, 512 * l.sector, Gather(ram, l.links.segs[..k])))
  }

  /** The image after the first `k` requests, their data taken from memory as it was before any of them. */
  ghost function ImageAfter(ram: Ram, disk: Disk, ls: seq<Layout>, k: nat): (r: Disk)
    requires k <= |ls|
    ensures r.readonly == disk.readonly && |r.data| == |disk.data|
  {
    if k == 0 then disk else Stored(ram, ImageAfter(ram, disk, ls, k - 1), ls[k - 1])
  }

  /** Whether a request ends with a good status. */
  ghost predicate Accepted(l: Layout, e: Extent, flushOk: bool) {
    if l.kind == T_FLUSH then l.HeaderStatus() == S_OK && flushOk else Good(l, e)
  }

  /** The status byte a request deserves: a kind that is none of the three gets 2, every other refusal 1. */
  ghost function Verdict(l: Layout, e: Extent, flushOk: bool): u8 {
    if Accepted(l, e, flushOk) then 0 else if l.kind != 0 && l.kind != 1 && l.kind != 4 then 2 else 1
  }

  /** The used length of a request: what the device wrote, as far as 32 bits go. */
  function UsedLen(l: Layout): u32 {
    if l.kind == T_IN then (Total(l.links.segs) + 1) % 0x1_0000_0000 else 1
  }

  /** The used elements of the first `k` requests. */
  function Elems(heads: seq<u16>, ls: seq<Layout>, k: nat): seq<Elem>
    requires k <= |heads| && k <= |ls|
  {
    seq(k, i requires 0 <= i < k => Elem(heads[i], UsedLen(ls[i])))
  }

  /** What the driver finds in memory of a request that was served on the image `disk`. */
  ghost predicate Answered(ram: Ram, l: Layout, disk: Disk, flushOk: bool) {
    var accepted := Accepted(l, ExtentOf(ram, disk), flushOk);
    && l.links.last.Some?
    && ram.Read(l.links.last.value.addr, 1) == Some([Verdict(l, ExtentOf(ram, disk), flushOk)])
    && (accepted && l.kind == T_IN && l.links.segs != [] ==>
          && Reachable(ram, l.links.segs) && 512 * l.sector + Total(l.links.segs) <= |disk.data|
          && Gather(ram, l.links.segs) == disk.data[512 * l.sector..512 * l.sector + Total(l.links.segs)])
  }

  // ---- What the driver keeps apart ----

  function SegSpans(segs: seq<Desc>): seq<Span> {
    seq(|segs|, i requires 0 <= i < |segs| => Span(segs[i].addr, segs[i].len))
  }

  /** The buffers and the status byte of a request. */
  function Owned(l: Layout): seq<Span> {
    SegSpans(l.links.segs) + if l.links.last.Some? then [Span(l.links.last.value.addr, 1)] else []
  }

  /** A request that can be carried out: its chain ends, its memory exists, its counts fit. */
  ghost predicate WellFormed(ram: Ram, l: Layout) {
    && l.links.last.Some? && Reachable(ram, l.links.segs) && ram.InRange(l.links.last.value.addr, 1)
    && (l.kind == T_OUT ==> CountedWrite(l))
    && (l.kind == T_IN ==> CountedRead(l) && Separate(l))
  }

  /** No request writes what another one owns, and the used ring lies on nobody's buffers. */
  ghost predicate Exclusive(q: Queue, ls: seq<Layout>) {
    forall i, span :: 0 <= i < |ls| && span in Owned(ls[i]) ==>
      && OffUsed(q, span)
      && forall j :: 0 <= j < |ls| && j != i ==> Clear(ls[j], span)
  }

  lemma OthersKeepOff(q: Queue, ls: seq<Layout>, i: nat, j: nat, span: Span)
    requires Exclusive(q, ls) && i < |ls| && j < |ls| && i != j && span in Owned(ls[i])
    ensures Clear(ls[j], span) && OffUsed(q, span)
  {
    assert OffUsed(q, span);
    assert Clear(ls[j], span);
  }

  ghost predicate AllWellFormed(ram: Ram, ls: seq<Layout>) {
    forall i :: 0 <= i < |ls| ==> WellFormed(ram, ls[i])
  }

  // ---- One request ----

  /** The status a completed request reports is the byte it leaves in memory. */
  lemma StatusInMemory(ram: Ram, disk: Disk, q: Queue, head: u16, flushOk: bool, l: Layout)
    requires q.num != 0xffff_ffff && Parse(ram, q, head) == Some(l) && (l.kind == T_IN ==> ChainApart(q, l.links))
    requires l.links.last.Some?
    ensures var r := ProcessChain(ram, disk, q, head, flushOk);
            r.ok ==> r.ram.Read(l.links.last.value.addr, 1) == Some([r.status])
  {
    hide Parse, Transfer;
    ChainIsTransfer(ram, disk, q, head, flushOk, l);
    var m := Run(ram, disk, l);
    if m.Finished? {
      var c := Complete(l.Decoded(), m.work, l.links.last.value, flushOk);
      if c.ok {
        ReadAfterWrite(m.work.ram, c.ram, l.links.last.value.addr, [c.status]);
      }
    }
  }

  /** Flushes and unsupported requests touch neither image nor buffers. */
  lemma OtherRequest(ram: Ram, disk: Disk, q: Queue, head: u16, flushOk: bool, l: Layout)
    requires q.num != 0xffff_ffff && Parse(ram, q, head) == Some(l) && l.kind != T_IN && l.kind != T_OUT
    requires l.links.last.Some?
    ensures var r := ProcessChain(ram, disk, q, head, flushOk);
            && r.disk == disk && r.usedLen == 1
            && r.status == Verdict(l, ExtentOf(ram, disk), flushOk)
  {
    ChainIsTransfer(ram, disk, q, head, flushOk, l);
    OtherKindsMoveNothing(l.Decoded(), Work(ram, disk, l.HeaderStatus(), 0), l.links.segs);
    hide Transfer, Follow, ReadDesc;
  }

  /** One well-formed request, its data as it was in `ram0`: image, status and data are the reference's. */
  lemma RequestServed(ram0: Ram, ram: Ram, disk: Disk, q: Queue, head: u16, flushOk: bool, l: Layout)
    requires q.num != 0xffff_ffff && Parse(ram, q, head) == Some(l) && disk.Valid() && WellFormed(ram, l)
    requires l.kind == T_IN ==> ChainApart(q, l.links)
    requires forall d :: d in l.links.segs ==> ram0.AgreesOn(ram, d.addr, d.len)
    requires ram0.base == ram.base && |ram0.bytes| == |ram.bytes|
    ensures var r := ProcessChain(ram, disk, q, head, flushOk);
            && r.ok && r.disk == Stored(ram0, disk, l) && r.usedLen == UsedLen(l)
            && ExtentOf(r.ram, r.disk) == ExtentOf(ram, disk)
            && Answered(r.ram, l, disk, flushOk)
  {
    hide ProcessChain, Parse, GoodPrefix, Gather, Total, Reachable, Overlay;
    var r := ProcessChain(ram, disk, q, head, flushOk);
    CompletesWhenChainEnds(ram, disk, q, head, flushOk, l);
    StatusInMemory(ram, disk, q, head, flushOk, l);
    KeepsExtent(ram, disk, q, head, flushOk, l);
    if l.kind == T_OUT {
      WriteRefinesFlatImage(ram, disk, q, head, flushOk, l);
      WriteIsStored(ram0, ram, disk, q, head, flushOk, l);
    } else if l.kind == T_IN {
      ReadRefinesFlatImage(ram, disk, q, head, flushOk, l);
    } else {
      OtherRequest(ram, disk, q, head, flushOk, l);
    }
  }

  lemma KeepsExtent(ram: Ram, disk: Disk, q: Queue, head: u16, flushOk: bool, l: Layout)
    requires q.num != 0xffff_ffff && Parse(ram, q, head) == Some(l) && (l.kind == T_IN ==> ChainApart(q, l.links))
    ensures var r := ProcessChain(ram, disk, q, head, flushOk);
            r.ram.base == ram.base && |r.ram.bytes| == |ram.bytes|
  {
    hide Parse, Transfer;
    ChainIsTransfer(ram, disk, q, head, flushOk, l);
    TransferKeepsRam(l.Decoded(), Work(ram, disk, l.HeaderStatus(), 0), l.links.segs);
  }

  lemma WriteIsStored(ram0: Ram, ram: Ram, disk: Disk, q: Queue, head: u16, flushOk: bool, l: Layout)
    requires q.num != 0xffff_ffff && Parse(ram, q, head) == Some(l) && disk.Valid() && CountedWrite(l)
    requires forall d :: d in l.links.segs ==> ram0.AgreesOn(ram, d.addr, d.len)
    requires ram0.base == ram.base && |ram0.bytes| == |ram.bytes|
    ensures ProcessChain(ram, disk, q, head, flushOk).disk == Stored(ram0, disk, l)
  {
    hide ProcessChain, Parse, GoodPrefix, Gather, Total, Reachable, Overlay;
    WriteLeavesPrefix(ram, disk, q, head, flushOk, l);
    var k := GoodPrefix(T_OUT, ExtentOf(ram, disk), 512 * l.sector, l.links.segs);
    assert ExtentOf(ram0, disk) == ExtentOf(ram, disk);
    GoodPrefixFits(T_OUT, ram0, disk, 512 * l.sector, l.links.segs);
    GatherAgrees(ram0, ram, l.links.segs[..k]);
  }

  // ---- All of them ----

  /** An answer survives whatever leaves the request's buffers and status byte alone. */
  lemma AnswerKept(r: Ram, s: Ram, l: Layout, disk: Disk, flushOk: bool)
    requires Answered(r, l, disk, flushOk) && r.base == s.base && |r.bytes| == |s.bytes|
    requires forall span :: span in Owned(l) ==> Untouched(r, s, span)
    ensures Answered(s, l, disk, flushOk)
  {
    var own := Owned(l);
    var last := |l.links.segs|;
    assert own[last] == Span(l.links.last.value.addr, 1);
    assert Untouched(r, s, own[last]);
    ReadAgrees(r, s, l.links.last.value.addr, 1);
    hide GoodPrefix, Total, Ram.Read;
    forall d | d in l.links.segs
      ensures r.AgreesOn(s, d.addr, d.len)
    {
      var i :| 0 <= i < last && l.links.segs[i] == d;
      assert own[i] == Span(d.addr, d.len);
      assert Untouched(r, s, own[i]);
    }
    if Accepted(l, ExtentOf(r, disk), flushOk) && l.kind == T_IN && l.links.segs != [] {
      GatherAgrees(r, s, l.links.segs);
    }
  }

  /** The daemon after `k` requests: the reference's image, and every answer so far in place. */
  ghost predicate ServedAll(d: Daemon, e: Daemon, flushes: nat -> bool, ls: seq<Layout>, k: nat)
    requires k <= |ls|
  {
    && e.disk == ImageAfter(d.ram, d.disk, ls, k)
    && e.ram.base == d.ram.base && |e.ram.bytes| == |d.ram.bytes|
    && forall i :: 0 <= i < k ==> Answered(e.ram, ls[i], ImageAfter(d.ram, d.disk, ls, i), flushes(i))
  }

  /** Which memory exists does not depend on what it holds. */
  lemma WellFormedKept(r: Ram, s: Ram, l: Layout)
    requires WellFormed(r, l) && r.base == s.base && |r.bytes| == |s.bytes|
    ensures WellFormed(s, l)
  {
    hide Separate;
    forall d | d in l.links.segs
      ensures s.Read(d.addr, d.len).Some?
    {
      assert r.Read(d.addr, d.len).Some?;
    }
  }

  /** The buffers of a request still to be served are as they were. */
  lemma BuffersKept(ram: Ram, ram': Ram, q: Queue, ls: seq<Layout>, k: nat)
    requires Exclusive(q, ls) && k < |ls| && KeptOutside(ram, ram', q, ls[..k])
    ensures forall d :: d in ls[k].links.segs ==> ram.AgreesOn(ram', d.addr, d.len)
  {
    hide Clear, OffUsed;
    forall d | d in ls[k].links.segs
      ensures ram.AgreesOn(ram', d.addr, d.len)
    {
      var i :| 0 <= i < |ls[k].links.segs| && ls[k].links.segs[i] == d;
      var span := Owned(ls[k])[i];
      assert span == Span(d.addr, d.len) && span in Owned(ls[k]);
      forall j | 0 <= j < k
        ensures Clear(ls[..k][j], span)
      {
        OthersKeepOff(q, ls, k, j, span);
      }
      assert ClearOfAll(ls[..k], span);
      assert Untouched(ram, ram', span);
    }
  }

  /** A chain whose writes avoid its own footprint avoids its own descriptors. */
  lemma OwnChainApart(ram: Ram, q: Queue, head: u16, l: Layout)
    requires Parse(ram, q, head) == Some(l)
    requires forall f :: f in Footprint(ram, q, head) ==> Clear(l, f)
    ensures ChainApart(q, l.links)
  {
    hide Parse;
    forall i, j | 0 <= i < |l.links.segs| && 0 <= j < |l.links.at| && l.links.segs[i].DeviceWritable()
      ensures Apart(l.links.segs[i].addr, l.links.segs[i].len, DescAddr(q, l.links.at[j]), 16)
    {
      assert Footprint(ram, q, head)[j + 2] == Span(DescAddr(q, l.links.at[j]), 16);
      assert Clear(l, Span(DescAddr(q, l.links.at[j]), 16));
      assert l.links.segs[i] in l.links.segs;
    }
  }

  /** All that is asked of the requests pending at a kick. */
  ghost predicate Proper(d: Daemon, heads: seq<u16>, ls: seq<Layout>) {
    && d.Sized() && d.disk.Valid() && Tidy(d.ram, d.queue, heads, ls)
    && AllWellFormed(d.ram, ls) && Exclusive(d.queue, ls)
  }

  /** The daemon is at its loop head, and the request it finds there is tidy. */
  ghost predicate Ready(t: RP.State, e: Daemon, head: u16, l: Layout) {
    && AtLoopHead(t, e) && e.Sized() && Parse(e.ram, e.queue, head) == Some(l)
    && (forall f :: f in Footprint(e.ram, e.queue, head) ==> Clear(l, f))
    && Clear(l, AvailSpan(e.queue)) && Clear(l, UsedSpan(e.queue))
  }

  lemma ServedDaemon(e: Daemon, head: u16, flushOk: bool)
    requires e.Sized()
    ensures var r, l := ProcessChain(e.ram, e.disk, e.queue, head, flushOk), ServeOne(e, head, flushOk);
            l.Looping? ==>
              l.usedAny && l.d.ram == AddUsed(r.ram, e.queue, head, r.usedLen).ram && l.d.disk == r.disk
  {
    hide ProcessChain, AddUsed;
  }

  /** The used element does not disturb the answer of its own request. */
  lemma OwnAnswer(t: RP.State, e: Daemon, flushOk: bool, head: u16, ls: seq<Layout>, k: nat)
    requires k < |ls| && Ready(t, e, head, ls[k]) && Exclusive(e.queue, ls)
    requires var r := ProcessChain(e.ram, e.disk, e.queue, head, flushOk);
             Answered(r.ram, ls[k], e.disk, flushOk)
    requires ServeOne(e, head, flushOk).Looping?
    ensures Answered(ServeOne(e, head, flushOk).d.ram, ls[k], e.disk, flushOk)
  {
    hide RP.Inv, ProcessChain, Parse, Footprint, AddUsed, Clear, OffUsed, Owned, Answered, ServeOne;
    var r := ProcessChain(e.ram, e.disk, e.queue, head, flushOk);
    ServedDaemon(e, head, flushOk);
    forall span | span in Owned(ls[k])
      ensures Untouched(r.ram, ServeOne(e, head, flushOk).d.ram, span)
    {
      PostKeeps(t, e, flushOk, ls[k], head, span);
    }
    SameSize(t, e, flushOk, ls[k], head);
    AnswerKept(r.ram, ServeOne(e, head, flushOk).d.ram, ls[k], e.disk, flushOk);
  }

  /** Serving a request does not disturb the answer of another. */
  lemma OtherAnswer(t: RP.State, e: Daemon, flushOk: bool, head: u16, ls: seq<Layout>, k: nat, i: nat, disk: Disk,
      outcome: bool)
    requires k < |ls| && i < |ls| && i != k && Ready(t, e, head, ls[k]) && Exclusive(e.queue, ls)
    requires Answered(e.ram, ls[i], disk, outcome) && ServeOne(e, head, flushOk).Looping?
    ensures Answered(ServeOne(e, head, flushOk).d.ram, ls[i], disk, outcome)
  {
    hide RP.Inv, ProcessChain, Parse, Footprint, AddUsed, Clear, OffUsed, Owned, Answered, ServeOne;
    ServedDaemon(e, head, flushOk);
    forall span | span in Owned(ls[i])
      ensures Untouched(e.ram, ServeOne(e, head, flushOk).d.ram, span)
    {
      OthersKeepOff(e.queue, ls, i, k, span);
      ServeKeeps(t, e, flushOk, ls[k], head, span);
    }
    SameSize(t, e, flushOk, ls[k], head);
    AnswerKept(e.ram, ServeOne(e, head, flushOk).d.ram, ls[i], disk, outcome);
  }

  lemma ReadySized(t: RP.State, e: Daemon, head: u16, l: Layout)
    ensures Ready(t, e, head, l) ==> e.Sized()
  {
  }

  lemma ImageStep(d: Daemon, ls: seq<Layout>, k: nat)
    requires k < |ls|
    ensures ImageAfter(d.ram, d.disk, ls, k + 1) == Stored(d.ram, ImageAfter(d.ram, d.disk, ls, k), ls[k])
  {
  }

  /** One turn adds the answer of its request to those before it. */
  lemma AnswersKept(t: RP.State, d: Daemon, e: Daemon, flushes: nat -> bool, head: u16, ls: seq<Layout>, k: nat)
    requires k < |ls| && Ready(t, e, head, ls[k]) && Exclusive(e.queue, ls) && ServedAll(d, e, flushes, ls, k)
    requires var r := ProcessChain(e.ram, e.disk, e.queue, head, flushes(k));
             r.disk == Stored(d.ram, e.disk, ls[k]) && Answered(r.ram, ls[k], e.disk, flushes(k))
    requires ServeOne(e, head, flushes(k)).Looping?
    ensures ServedAll(d, ServeOne(e, head, flushes(k)).d, flushes, ls, k + 1)
  {
    hide ProcessChain, AddUsed, Ready, Exclusive, Stored, Answered, ServeOne, ImageAfter;
    ReadySized(t, e, head, ls[k]);
    ServedDaemon(e, head, flushes(k));
    ImageStep(d, ls, k);
    SameSize(t, e, flushes(k), ls[k], head);
    OwnAnswer(t, e, flushes(k), head, ls, k);
    forall i | 0 <= i < k
      ensures Answered(ServeOne(e, head, flushes(k)).d.ram, ls[i], ImageAfter(d.ram, d.disk, ls, i), flushes(i))
    {
      OtherAnswer(t, e, flushes(k), head, ls, k, i, ImageAfter(d.ram, d.disk, ls, i), flushes(i));
    }
  }

  lemma SameSize(t: RP.State, e: Daemon, flushOk: bool, l: Layout, head: u16)
    requires Ready(t, e, head, l)
    ensures var r := ProcessChain(e.ram, e.disk, e.queue, head, flushOk);
            var after := AddUsed(r.ram, e.queue, head, r.usedLen).ram;
            && r.ram.base == e.ram.base == after.base && |r.ram.bytes| == |e.ram.bytes| == |after.bytes|
  {
    hide RP.Inv, ProcessChain, Parse, Footprint, AddUsed, Clear;
    PostKeeps(t, e, flushOk, l, head, Span(0, 0));
    ChainKeeps(e.ram, e.disk, e.queue, head, flushOk, l, AvailSpan(e.queue));
  }

  /** After `k` turns: `k` requests served, each as the reference says. */
  lemma {:induction false} TurnsServe(s: RP.State, d: Daemon, flushes: nat -> bool, ls: seq<Layout>, k: nat)
      returns (t: RP.State)
    requires AtLoopHead(s, d) && |s.used| <= |s.published| && Proper(d, Pending(s), ls) && k <= |ls|
    ensures var l := LoopTurns(d, flushes, k);
            && l.Looping? && l.usedAny == (k > 0) && Served(s, t, l.d, k)
            && KeptOutside(d.ram, l.d.ram, d.queue, ls[..k]) && ServedAll(d, l.d, flushes, ls, k)
    ensures k <= |Pending(s)| && t.used == s.used + Elems(Pending(s), ls, k)
  {
    hide RP.Inv, LoopTurn, Proper, ServedAll, KeptOutside, UsedLen;
    ProperSized(d, Pending(s), ls);
    if k == 0 {
      NothingServed(d, flushes, ls);
      t := s;
    } else {
      var t' := TurnsServe(s, d, flushes, ls, k - 1);
      t := TurnServes(s, t', d, LoopTurns(d, flushes, k - 1), flushes, ls, k - 1);
    }
  }

  lemma NothingServed(d: Daemon, flushes: nat -> bool, ls: seq<Layout>)
    ensures ServedAll(d, d, flushes, ls, 0) && KeptOutside(d.ram, d.ram, d.queue, ls[..0])
  {
  }

  lemma TurnServes(s: RP.State, t: RP.State, d: Daemon, l: Loop, flushes: nat -> bool, ls: seq<Layout>, k: nat)
      returns (t': RP.State)
    requires d.queue == s.q && |s.used| <= |s.published| && Proper(d, Pending(s), ls) && k < |ls|
    requires l.Looping? && Served(s, t, l.d, k) && l.d.Sized()
    requires KeptOutside(d.ram, l.d.ram, d.queue, ls[..k]) && ServedAll(d, l.d, flushes, ls, k)
    ensures var l' := LoopTurn(l, flushes(k));
            && l'.Looping? && l'.usedAny && Served(s, t', l'.d, k + 1)
            && KeptOutside(d.ram, l'.d.ram, d.queue, ls[..k + 1]) && ServedAll(d, l'.d, flushes, ls, k + 1)
    ensures |Pending(s)| == |ls| && t'.used == t.used + [Elem(Pending(s)[k], UsedLen(ls[k]))]
  {
    hide ProcessChain, NextAvail, ServeOne, Tidy, Exclusive, AllWellFormed, ServedAll, KeptOutside, Served;
    TidyLength(d.ram, d.queue, Pending(s), ls);
    t' := OneMoreTurn(s, t, d, l.d, flushes(k), ls, k);
    NextServed(s, t, d, l.d, flushes, ls, k);
    ServedDaemon(l.d, Pending(s)[k], flushes(k));
  }

  /** The next request, on the image the earlier ones left. */
  lemma NextServed(s: RP.State, t: RP.State, d: Daemon, e: Daemon, flushes: nat -> bool, ls: seq<Layout>, k: nat)
    requires d.queue == s.q && |s.used| <= |s.published| && Proper(d, Pending(s), ls) && k < |ls|
    requires Served(s, t, e, k) && e.Sized() && KeptOutside(d.ram, e.ram, d.queue, ls[..k])
        && ServedAll(d, e, flushes, ls, k)
    requires ServeOne(e, Pending(s)[k], flushes(k)).Looping? ==
        ProcessChain(e.ram, e.disk, e.queue, Pending(s)[k], flushes(k)).ok
    ensures ServeOne(e, Pending(s)[k], flushes(k)).Looping?
    ensures ProcessChain(e.ram, e.disk, e.queue, Pending(s)[k], flushes(k)).usedLen == UsedLen(ls[k])
    ensures ServedAll(d, ServeOne(e, Pending(s)[k], flushes(k)).d, flushes, ls, k + 1)
  {
    hide RP.Inv, ProcessChain, ServeOne, Answered, Stored, Parse, Footprint, Clear, OffUsed, Owned;
    var h := Pending(s)[k];
    StillParses(d.ram, e.ram, d.queue, e.queue, Pending(s), ls, k);
    ClearChain(d.ram, e.ram, d.queue, e.queue, Pending(s), ls, k);
    OwnChainApart(e.ram, e.queue, h, ls[k]);
    WellFormedKept(d.ram, e.ram, ls[k]);
    BuffersKept(d.ram, e.ram, d.queue, ls, k);
    RequestServed(d.ram, e.ram, e.disk, e.queue, h, flushes(k), ls[k]);
    SameExclusive(d.queue, e.queue, ls);
    AnswersKept(t, d, e, flushes, h, ls, k);
  }

  lemma SameExclusive(q: Queue, q': Queue, ls: seq<Layout>)
    requires Exclusive(q, ls) && q'.(lastAvail := 0) == q.(lastAvail := 0)
    ensures Exclusive(q', ls)
  {
    hide Clear, Owned;
    forall i, span | 0 <= i < |ls| && span in Owned(ls[i])
      ensures OffUsed(q', span) && forall j :: 0 <= j < |ls| && j != i ==> Clear(ls[j], span)
    {
      assert OffUsed(q, span);
    }
  }

  /**
   A notification with proper requests pending serves them all. It ends with the ring
   empty; the used ring has, for each head in order, the length the device wrote; the
   image is the fold of the pending requests over the flat image, in ring order; and each
   request finds in memory the status it deserves and, if it reads, the bytes of the image
   as the requests before it left it, whatever the others did to memory.
   */
  lemma NotificationIsSequential(s: RP.State, d: Daemon, flushes: nat -> bool, ls: seq<Layout>) returns (t: RP.State)
    requires AtLoopHead(s, d) && |s.used| <= |s.published| && Proper(d, Pending(s), ls)
    ensures |Pending(s)| == |ls|
    ensures var l := LoopTurns(d, flushes, |ls| + 1);
            && l.Drained? && l.usedAny == (ls != []) && AtLoopHead(t, l.d)
            && t.published == s.published && t.used == s.used + Elems(Pending(s), ls, |ls|)
            && QueueSize(l.d.queue.num) && UsedHolds(l.d.ram, l.d.queue, |s.collected|, t.used)
            && l.d.disk == ImageAfter(d.ram, d.disk, ls, |ls|)
            && forall i :: 0 <= i < |ls| ==> Answered(l.d.ram, ls[i], ImageAfter(d.ram, d.disk, ls, i), flushes(i))
  {
    hide RP.Inv, ProcessChain, NextAvail, ServeOne, Tidy, Exclusive, AllWellFormed, Answered, Stored, UsedHolds, Elems;
    t := TurnsServe(s, d, flushes, ls, |ls|);
    TidyLength(d.ram, d.queue, Pending(s), ls);
    HeadIsNext(t, LoopTurns(d, flushes, |ls|).d);
    UsedShown(t);
  }

  lemma UsedShown(t: RP.State)
    requires RP.Inv(t)
    ensures QueueSize(t.q.num) && UsedHolds(t.ram, t.q, |t.collected|, t.used)
  {
  }

  /**
   The notification as a whole: it succeeds, sets the used-buffer bit exactly when there
   was something to serve, and leaves the line asserted exactly when that bit is set.
   */
  lemma NotificationInterrupts(s: RP.State, d: Daemon, flushes: nat -> bool, ls: seq<Layout>)
    requires AtLoopHead(s, d) && |s.used| <= |s.published| && Proper(d, Pending(s), ls) && d.queue.ready != 0
    ensures !LoopTurns(d, flushes, |ls| + 1).Looping?
    ensures var (ok, d') := Notify(d, 0, flushes, |ls| + 1);
            && ok && d'.(isr := 0, irq := None) == LoopTurns(d, flushes, |ls| + 1).d.(isr := 0, irq := None)
            && d'.isr == (if ls != [] then WithBit0(d.isr) else d.isr)
            && d'.irq == Some(d'.isr % 2 == 1)
  {
    hide LoopTurns, Proper;
    var t := NotificationIsSequential(s, d, flushes, ls);
    ProperSized(d, Pending(s), ls);
    QueueKept(d, flushes, |ls| + 1);
  }

  lemma ProperSized(d: Daemon, heads: seq<u16>, ls: seq<Layout>)
    requires Proper(d, heads, ls)
    ensures d.Sized() && |heads| == |ls|
  {
  }
}
