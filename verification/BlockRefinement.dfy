/** Whole block requests against the flat image: what is stored, what is delivered, what reads back. */
module BlockRefinement {
  import opened Words
  import opened GuestMemory
  import opened Virtqueue
  import opened BlockImage
  import opened BlockRequest
  import opened BlockTransfer

  /** A request as the guest laid it out before the device touched anything. */
  datatype Layout = Layout(kind: u32, sector: u64, links: Links) {
    /** The status its header deserves: 2 for a kind that is none of the three, 1 for a place past 64 bits. */
    function HeaderStatus(): u8 {
      if kind != 0 && kind != 1 && kind != 4 then 2
      else if 512 * sector >= 0x1_0000_0000_0000_0000 then 1
      else 0
    }

    function Decoded(): Request {
      Request(kind, if 512 * sector < 0x1_0000_0000_0000_0000 then 512 * sector else 0, HeaderStatus())
    }
  }

  /** The request at `head`: kind and sector as the 16 header bytes give them, and the chain behind them. */
  function Parse(ram: Ram, q: Queue, head: u16): Option<Layout> {
    match ReadDesc(ram, q, head)
    case None => None
    case Some(d) =>
      if !d.HasNext() then None
      else match ram.Read(d.addr, 16)
        case None => None
        case Some(b) => Some(Layout(Load32(b[..4]), Load64(b[8..]), Follow(ram, q, d.next, q.num)))
  }

  /** The daemon decodes the header to the place and the status that its kind and sector mean. */
  lemma HeaderIsDecoded(ram: Ram, q: Queue, head: u16)
    ensures var h, l := ReadHeader(ram, q, head), Parse(ram, q, head);
            && (h.None? <==> l.None?)
            && (h.Some? ==> h.value.0 == l.value.Decoded() && l.value.links == Follow(ram, q, h.value.1, q.num))
  {
    hide ReadDesc, Follow, Load32, Load64;
    if Parse(ram, q, head).Some? {
      var b := ram.Read(ReadDesc(ram, q, head).value.addr, 16).value;
      assert b[0..4] == b[..4] && b[8..16] == b[8..];
    }
  }

  /** The request's data segments, and what the transfer makes of them from the start. */
  function Run(ram: Ram, disk: Disk, l: Layout): Moved {
    Transfer(l.Decoded(), Work(ram, disk, l.HeaderStatus(), 0), l.links.segs)
  }

  lemma ChainIsTransfer(ram: Ram, disk: Disk, q: Queue, head: u16, flushOk: bool, l: Layout)
    requires q.num != 0xffff_ffff && Parse(ram, q, head) == Some(l)
    requires l.kind == T_IN && l.HeaderStatus() == S_OK ==> ChainApart(q, l.links)
    ensures ProcessChain(ram, disk, q, head, flushOk) ==
            match Outcome(Run(ram, disk, l), l.links.last)
            case Aborted(w) => Failed(w.ram, w.disk)
            case AtStatus(w, last) => Complete(l.Decoded(), w, last, flushOk)
            case Walking(w, _, _) => Failed(w.ram, w.disk)
  {
    hide ReadDesc, Parse, ReadHeader;
    HeaderIsDecoded(ram, q, head);
    var first := ReadHeader(ram, q, head).value.1;
    WalkIsTransfer(q, l.Decoded(), Work(ram, disk, l.HeaderStatus(), 0), first, 0);
  }

  /**
   A request whose memory accesses all succeed is completed exactly when its chain ends
   within `num` descriptors; a cyclic chain never does.
   */
  lemma CompletesWhenChainEnds(ram: Ram, disk: Disk, q: Queue, head: u16, flushOk: bool, l: Layout)
    requires q.num != 0xffff_ffff && Parse(ram, q, head) == Some(l)
    requires l.kind == T_IN && l.HeaderStatus() == S_OK ==> ChainApart(q, l.links)
    requires Reachable(ram, l.links.segs)
    requires l.links.last.Some? ==> ram.InRange(l.links.last.value.addr, 1)
    ensures ProcessChain(ram, disk, q, head, flushOk).ok <==> l.links.last.Some?
  {
    ChainIsTransfer(ram, disk, q, head, flushOk, l);
    ReachableFinishes(l.Decoded(), Work(ram, disk, l.HeaderStatus(), 0), l.links.segs);
  }

  lemma {:induction false} ReachableFinishes(req: Request, w: Work, segs: seq<Desc>)
    requires Reachable(w.ram, segs)
    ensures var m := Transfer(req, w, segs);
            m.Finished? && m.work.ram.base == w.ram.base && |m.work.ram.bytes| == |w.ram.bytes|
    decreases |segs|
  {
    if segs != [] {
      assert w.ram.Read(segs[0].addr, segs[0].len).Some?;
      ReachableFinishes(req, Segment(req, w, segs[0]).value, segs[1..]);
    }
  }

  /** A good header, and every segment good: all that decides whether a request can be served. */
  ghost predicate Good(l: Layout, e: Extent) {
    l.HeaderStatus() == S_OK && GoodPrefix(l.kind, e, 512 * l.sector, l.links.segs) == |l.links.segs|
  }

  /** A write in which the 32-bit count tells the place of every byte. */
  ghost predicate CountedWrite(l: Layout) {
    l.kind == T_OUT && Ahead(l.links.segs) < 0x1_0000_0000
  }

  /** A read in which the 32-bit count tells the place of every byte. */
  ghost predicate CountedRead(l: Layout) {
    l.kind == T_IN && Ahead(l.links.segs) < 0x1_0000_0000
  }

  /**
   However a write request ends, the image is the old one with the data of the segments
   before the first bad one laid over it from the sector's offset; after a bad header it
   is the old one.
   */
  lemma WriteLeavesPrefix(ram: Ram, disk: Disk, q: Queue, head: u16, flushOk: bool, l: Layout)
    requires q.num != 0xffff_ffff && Parse(ram, q, head) == Some(l) && disk.Valid() && CountedWrite(l)
    ensures var after := ProcessChain(ram, disk, q, head, flushOk).disk;
            if l.HeaderStatus() == S_OK then Landed(T_OUT, ram, disk, 512 * l.sector, l.links.segs, after)
                else after == disk
  {
    ChainIsTransfer(ram, disk, q, head, flushOk, l);
    if l.HeaderStatus() == S_OK {
      OutTransfer(l.Decoded(), Work(ram, disk, S_OK, 0), l.links.segs, 512 * l.sector);
    } else {
      BadStatusMovesNothing(l.Decoded(), Work(ram, disk, l.HeaderStatus(), 0), l.links.segs);
    }
  }

  /**
   A write request is acknowledged as good exactly when its header and every segment are
   good, and then the image is the old one with all its data, in order, at the sector's
   offset. Guest memory changes in the status byte only.
   */
  lemma WriteRefinesFlatImage(ram: Ram, disk: Disk, q: Queue, head: u16, flushOk: bool, l: Layout)
    requires q.num != 0xffff_ffff && Parse(ram, q, head) == Some(l) && disk.Valid() && CountedWrite(l)
    requires l.links.last.Some? && ram.InRange(l.links.last.value.addr, 1)
    ensures var r := ProcessChain(ram, disk, q, head, flushOk);
            var segs := l.links.segs;
            var good := Good(l, ExtentOf(ram, disk));
            && (r.ok && r.status == S_OK <==> good)
            && (r.ok && !good ==> r.status == S_IOERR)
            && (good ==> && Reachable(ram, segs)
                         && (segs == [] || 512 * l.sector + Total(segs) <= |disk.data|)
                         && r.disk.data == Overlay(disk.data, 512 * l.sector, Gather(ram, segs)))
            && (r.ok ==> r.usedLen == 1 && ram.Write(l.links.last.value.addr, [r.status]) == Some(r.ram))
  {
    ChainIsTransfer(ram, disk, q, head, flushOk, l);
    StatusOrIoError(l.Decoded(), Work(ram, disk, l.HeaderStatus(), 0), l.links.segs);
    if l.HeaderStatus() == S_OK {
      OutTransfer(l.Decoded(), Work(ram, disk, S_OK, 0), l.links.segs, 512 * l.sector);
      assert l.links.segs[..|l.links.segs|] == l.links.segs;
    } else {
      BadStatusMovesNothing(l.Decoded(), Work(ram, disk, l.HeaderStatus(), 0), l.links.segs);
    }
  }

  // ---- Writes past 4 GiB ----

  /** A good write on this image stores all its data where the request puts it. */
  ghost predicate LandsRight(ram: Ram, disk: Disk, q: Queue, head: u16, l: Layout)
    requires q.num != 0xffff_ffff
  {
    && Reachable(ram, l.links.segs)
    && (l.links.segs == [] || 512 * l.sector + Total(l.links.segs) <= |disk.data|)
    && ProcessChain(ram, disk, q, head, true).disk.data == Overlay(disk.data, 512 * l.sector, Gather(ram, l.links.segs))
  }

  /**
   A good write whose count wraps before its last byte is acknowledged as good all the
   same, and that byte is not written.
   */
  lemma WrappedWriteMissesLastByte(ram: Ram, disk: Disk, q: Queue, head: u16, l: Layout)
    requires q.num != 0xffff_ffff && Parse(ram, q, head) == Some(l) && disk.Valid() && l.kind == T_OUT
    requires Good(l, ExtentOf(ram, disk)) && Ahead(l.links.segs) >= 0x1_0000_0000
    requires l.links.last.Some? && ram.InRange(l.links.last.value.addr, 1)
    ensures var r := ProcessChain(ram, disk, q, head, true);
            var end := 512 * l.sector + Total(l.links.segs);
            && r.ok && r.status == S_OK
            && 512 * l.sector < end <= |disk.data| == |r.disk.data|
            && r.disk.data[end - 1] == disk.data[end - 1]
  {
    hide Parse, Transfer, GoodPrefix, Ahead, Total;
    ChainIsTransfer(ram, disk, q, head, true, l);
    AheadMeansBytes(l.links.segs);
    WrappedTransfer(l.Decoded(), Work(ram, disk, S_OK, 0), l.links.segs, 0);
  }

  lemma AheadMeansBytes(segs: seq<Desc>)
    ensures Ahead(segs) > 0 ==> segs != [] && Total(segs) > 0
  {
  }

  /**
   The exact bound: a good write stores its data on every image of its size if and only
   if less than 4 GiB precede its last non-empty segment.
   */
  lemma WriteLandsUpToFourGigabytes(ram: Ram, size: nat, q: Queue, head: u16, l: Layout)
    requires q.num != 0xffff_ffff && Parse(ram, q, head) == Some(l) && size <= INT64_MAX && l.kind == T_OUT
    requires Good(l, Extent(ram.base, |ram.bytes|, size, false))
    requires l.links.last.Some? && ram.InRange(l.links.last.value.addr, 1)
    ensures (forall disk: Disk :: |disk.data| == size && !disk.readonly ==> LandsRight(ram, disk, q, head, l))
       <==> Ahead(l.links.segs) < 0x1_0000_0000
  {
    hide ProcessChain, Parse;
    if Ahead(l.links.segs) < 0x1_0000_0000 {
      forall disk: Disk | |disk.data| == size && !disk.readonly
        ensures LandsRight(ram, disk, q, head, l)
      {
        WriteRefinesFlatImage(ram, disk, q, head, true, l);
      }
    } else {
      WrongImage(ram, size, q, head, l);
    }
  }

  /** An image on which the missing byte shows. */
  lemma WrongImage(ram: Ram, size: nat, q: Queue, head: u16, l: Layout)
    requires q.num != 0xffff_ffff && Parse(ram, q, head) == Some(l) && size <= INT64_MAX && l.kind == T_OUT
    requires Good(l, Extent(ram.base, |ram.bytes|, size, false)) && Ahead(l.links.segs) >= 0x1_0000_0000
    requires l.links.last.Some? && ram.InRange(l.links.last.value.addr, 1)
    ensures exists disk: Disk :: |disk.data| == size && !disk.readonly && !LandsRight(ram, disk, q, head, l)
  {
    hide ProcessChain, Parse, Ahead, GoodPrefix;
    var segs := l.links.segs;
    var blank := Disk(seq(size, _ => 0), false);
    assert ExtentOf(ram, blank) == Extent(ram.base, |ram.bytes|, size, false);
    GoodPrefixFits(T_OUT, ram, blank, 512 * l.sector, segs);
    assert segs[..|segs|] == segs;
    var data := Gather(ram, segs);
    var wrong: u8 := if data == [] || data[|data| - 1] == 0 then 1 else 0;
    var disk := Disk(seq(size, _ => wrong), false);
    WrappedWriteMissesLastByte(ram, disk, q, head, l);
    assert !LandsRight(ram, disk, q, head, l);
  }

  /** The status byte lies outside every data segment, and the segments outside each other. */
  ghost predicate Separate(l: Layout) {
    && PairwiseApart(l.links.segs)
    && l.links.last.Some?
    && forall d :: d in l.links.segs ==> Apart(d.addr, d.len, l.links.last.value.addr, 1)
  }

  lemma {:induction false} GatherAgrees(r: Ram, s: Ram, segs: seq<Desc>)
    requires Reachable(r, segs)
    requires forall d :: d in segs ==> r.AgreesOn(s, d.addr, d.len)
    ensures Reachable(s, segs) && Gather(s, segs) == Gather(r, segs)
    decreases |segs|
  {
    forall d | d in segs
      ensures s.Read(d.addr, d.len) == r.Read(d.addr, d.len)
    {
      ReadAgrees(r, s, d.addr, d.len);
    }
    if segs != [] {
      GatherAgrees(r, s, segs[1..]);
    }
  }

  /**
   A read request is acknowledged as good exactly when its header and every segment are
   good, and then the guest finds the image's bytes from the sector's offset in its
   segments, end to end. The used length is the data and the status byte exactly when
   that fits in 32 bits.
   */
  lemma ReadRefinesFlatImage(ram: Ram, disk: Disk, q: Queue, head: u16, flushOk: bool, l: Layout)
    requires q.num != 0xffff_ffff && Parse(ram, q, head) == Some(l) && disk.Valid() && CountedRead(l)
    requires ChainApart(q, l.links) && Separate(l) && ram.InRange(l.links.last.value.addr, 1)
    ensures var r := ProcessChain(ram, disk, q, head, flushOk);
            var segs := l.links.segs;
            var good := Good(l, ExtentOf(ram, disk));
            && r.ok && r.disk == disk
            && r.status == (if good then S_OK else S_IOERR)
            && r.usedLen == (Total(segs) + 1) % 0x1_0000_0000
            && (r.usedLen == Total(segs) + 1 <==> Total(segs) < 0xffff_ffff)
            && (good ==> && Reachable(r.ram, segs)
                         && (segs == [] || 512 * l.sector + Total(segs) <= |disk.data|)
                         && Gather(r.ram, segs) == if segs == [] then []
                             else disk.data[512 * l.sector..512 * l.sector + Total(segs)])
  {
    hide ProcessChain, Complete, Transfer, Parse, GoodPrefix, Total, Gather, Reachable, Ram.Read;
    var segs := l.links.segs;
    var w := Work(ram, disk, l.HeaderStatus(), 0);
    ReadEnds(ram, disk, q, head, flushOk, l);
    if l.HeaderStatus() != S_OK {
      BadStatusMovesNothing(l.Decoded(), w, segs);
      return;
    }
    InTransfer(l.Decoded(), w, segs, 512 * l.sector);
    if Transfer(l.Decoded(), w, segs).work.status == S_OK {
      Delivered(l.Decoded(), w, segs, l.links.last.value.addr);
    }
  }

  /** A read whose chain ends is its transfer, and then its status byte. */
  lemma ReadEnds(ram: Ram, disk: Disk, q: Queue, head: u16, flushOk: bool, l: Layout)
    requires q.num != 0xffff_ffff && Parse(ram, q, head) == Some(l) && l.kind == T_IN
    requires ChainApart(q, l.links) && l.links.last.Some? && ram.InRange(l.links.last.value.addr, 1)
    ensures var r, m := ProcessChain(ram, disk, q, head, flushOk), Run(ram, disk, l);
            && r.ok && m.Finished? && r.disk == m.work.disk && r.status == m.work.status
            && (r.status == l.HeaderStatus() || r.status == S_IOERR)
            && m.work.ram.InRange(l.links.last.value.addr, 1)
            && m.work.ram.Write(l.links.last.value.addr, [r.status]) == Some(r.ram)
            && r.usedLen == (Total(l.links.segs) + 1) % 0x1_0000_0000
  {
    hide ProcessChain, Transfer, Parse, Total, ChainApart;
    var w := Work(ram, disk, l.HeaderStatus(), 0);
    ChainIsTransfer(ram, disk, q, head, flushOk, l);
    TransferKeepsRam(l.Decoded(), w, l.links.segs);
    ReadsCountBytes(l.Decoded(), w, l.links.segs);
    StatusOrIoError(l.Decoded(), w, l.links.segs);
  }

  /** The segments of a good read hold the image's bytes, the status byte notwithstanding. */
  lemma Delivered(req: Request, w: Work, segs: seq<Desc>, addr: u64)
    requires req.kind == T_IN && w.status == S_OK && w.dataLen == 0 && w.disk.Valid() && Ahead(segs) < 0x1_0000_0000
    requires PairwiseApart(segs) && forall d :: d in segs ==> Apart(d.addr, d.len, addr, 1)
    requires Transfer(req, w, segs).work.status == S_OK && Transfer(req, w, segs).work.ram.InRange(addr, 1)
    ensures var r := Transfer(req, w, segs).work.ram.Write(addr, [S_OK]).value;
            && Reachable(r, segs)
            && (segs == [] || req.offset + Total(segs) <= |w.disk.data|)
            && Gather(r, segs) == if segs == [] then [] else w.disk.data[req.offset..req.offset + Total(segs)]
  {
    hide Transfer, GoodPrefix, Total, Gather, Reachable, Ram.Write, Ram.Read;
    InTransfer(req, w, segs, req.offset);
    FilledHoldsImage(w.ram, w.disk, req.offset, segs, Transfer(req, w, segs).work.ram);
    StatusKeepsData(Transfer(req, w, segs).work.ram, segs, addr, S_OK);
  }

  lemma FilledHoldsImage(ram: Ram, disk: Disk, pos: nat, segs: seq<Desc>, out: Ram)
    requires Filled(ram, disk, pos, segs, out) && GoodPrefix(T_IN, ExtentOf(ram, disk), pos, segs) == |segs|
    requires PairwiseApart(segs)
    ensures && Reachable(out, segs)
            && (segs == [] || pos + Total(segs) <= |disk.data|)
            && Gather(out, segs) == if segs == [] then [] else disk.data[pos..pos + Total(segs)]
  {
    hide GoodPrefix, Ram.Read, Ram.Write, Scatter, Fill;
    if segs != [] {
      assert segs[..|segs|] == segs;
      GoodPrefixFits(T_IN, ram, disk, pos, segs);
      hide Total, Gather, Reachable;
      FillIsScatter(ram, disk.data, pos, segs);
      GatherScatter(ram, segs, disk.data[pos..pos + Total(segs)]);
    }
  }

  lemma {:induction false} TransferKeepsRam(req: Request, w: Work, segs: seq<Desc>)
    ensures var m := Transfer(req, w, segs);
            m.work.ram.base == w.ram.base && |m.work.ram.bytes| == |w.ram.bytes|
    decreases |segs|
  {
    if segs != [] && Segment(req, w, segs[0]).Some? {
      TransferKeepsRam(req, Segment(req, w, segs[0]).value, segs[1..]);
    }
  }

  lemma StatusKeepsData(ram: Ram, segs: seq<Desc>, addr: u64, status: u8)
    requires Reachable(ram, segs) && ram.InRange(addr, 1)
    requires forall d :: d in segs ==> Apart(d.addr, d.len, addr, 1)
    ensures var r := ram.Write(addr, [status]).value;
            Reachable(r, segs) && Gather(r, segs) == Gather(ram, segs)
  {
    var r := ram.Write(addr, [status]).value;
    ReadAfterWrite(ram, r, addr, [status]);
    GatherAgrees(ram, r, segs);
  }

  // ---- Reads past 4 GiB ----

  /** A good read on this image delivers all its data. */
  ghost predicate DeliversRight(ram: Ram, disk: Disk, q: Queue, head: u16, l: Layout)
    requires q.num != 0xffff_ffff
  {
    var r, segs := ProcessChain(ram, disk, q, head, true), l.links.segs;
    && Reachable(r.ram, segs)
    && (segs == [] || 512 * l.sector + Total(segs) <= |disk.data|)
    && Gather(r.ram, segs) == if segs == [] then [] else disk.data[512 * l.sector..512 * l.sector + Total(segs)]
  }

  /**
   The exact bound: a good read delivers the image's bytes, on every image of its size,
   if and only if less than 4 GiB precede its last non-empty segment.
   */
  lemma ReadDeliversUpToFourGigabytes(ram: Ram, size: nat, readonly: bool, q: Queue, head: u16, l: Layout)
    requires q.num != 0xffff_ffff && Parse(ram, q, head) == Some(l) && size <= INT64_MAX && l.kind == T_IN
    requires Good(l, Extent(ram.base, |ram.bytes|, size, readonly))
    requires ChainApart(q, l.links) && Separate(l) && ram.InRange(l.links.last.value.addr, 1)
    ensures (forall disk: Disk :: |disk.data| == size && disk.readonly == readonly ==>
               DeliversRight(ram, disk, q, head, l))
       <==> Ahead(l.links.segs) < 0x1_0000_0000
  {
    hide ProcessChain, Parse;
    if Ahead(l.links.segs) < 0x1_0000_0000 {
      forall disk: Disk | |disk.data| == size && disk.readonly == readonly
        ensures DeliversRight(ram, disk, q, head, l)
      {
        ReadRefinesFlatImage(ram, disk, q, head, true, l);
      }
    } else {
      WrongDelivery(ram, size, readonly, q, head, l);
    }
  }

  /** An image on which the last byte delivered is not the one asked for: zero but for that one. */
  lemma WrongDelivery(ram: Ram, size: nat, readonly: bool, q: Queue, head: u16, l: Layout)
    requires q.num != 0xffff_ffff && Parse(ram, q, head) == Some(l) && size <= INT64_MAX && l.kind == T_IN
    requires Good(l, Extent(ram.base, |ram.bytes|, size, readonly)) && Ahead(l.links.segs) >= 0x1_0000_0000
    requires ChainApart(q, l.links) && Separate(l) && ram.InRange(l.links.last.value.addr, 1)
    ensures exists disk: Disk ::
              |disk.data| == size && disk.readonly == readonly && !DeliversRight(ram, disk, q, head, l)
  {
    hide Parse, Ahead, GoodPrefix, Total, Gather, Reachable, Transfer, Separate, ProcessChain;
    var segs := l.links.segs;
    AheadMeansBytes(segs);
    var end := 512 * l.sector + Total(segs);
    var disk := Disk(seq(size, p => if p == end - 1 then 1 else 0), readonly);
    assert ExtentOf(ram, disk) == Extent(ram.base, |ram.bytes|, size, readonly);
    GoodPrefixFits(T_IN, ram, disk, 512 * l.sector, segs);
    assert segs[..|segs|] == segs;
    WrappedReadEnds(ram, disk, q, head, l);
    var r := ProcessChain(ram, disk, q, head, true);
    assert disk.data[512 * l.sector..end][Total(segs) - 1] == 1;
    assert !DeliversRight(ram, disk, q, head, l);
  }

  /** Acknowledged as good all the same, a read whose count wraps delivers a byte from elsewhere in the last place. */
  lemma WrappedReadEnds(ram: Ram, disk: Disk, q: Queue, head: u16, l: Layout)
    requires q.num != 0xffff_ffff && Parse(ram, q, head) == Some(l) && disk.Valid() && l.kind == T_IN
    requires Good(l, ExtentOf(ram, disk)) && Ahead(l.links.segs) >= 0x1_0000_0000
    requires ChainApart(q, l.links) && Separate(l) && ram.InRange(l.links.last.value.addr, 1)
    requires ZeroBefore(disk, 512 * l.sector + Total(l.links.segs) - 1)
    ensures var r, segs := ProcessChain(ram, disk, q, head, true), l.links.segs;
            && r.ok && r.status == S_OK
            && Total(segs) > 0 && Reachable(r.ram, segs) && Gather(r.ram, segs)[Total(segs) - 1] == 0
  {
    hide Parse, Ahead, GoodPrefix, Total, Gather, Reachable, Transfer, ZeroBefore;
    var segs := l.links.segs;
    AheadMeansBytes(segs);
    ChainIsTransfer(ram, disk, q, head, true, l);
    WrappedInTransfer(l.Decoded(), Work(ram, disk, S_OK, 0), segs, 0);
    StatusKeepsData(Transfer(l.Decoded(), Work(ram, disk, S_OK, 0), segs).work.ram, segs, l.links.last.value.addr,
        S_OK);
  }

  /**
   Data written under one segmentation reads back under any other: a good write at an
   offset followed by a good read of as many bytes at the same offset delivers exactly
   what the writer's segments held, whatever the guest did to its memory in between.
   */
  lemma WrittenReadsBack(ram1: Ram, disk: Disk, q: Queue, head1: u16, l1: Layout, ram2: Ram, head2: u16, l2: Layout,
      flushOk: bool)
    requires q.num != 0xffff_ffff
    requires disk.Valid() && Parse(ram1, q, head1) == Some(l1) && CountedWrite(l1)
    requires l1.links.last.Some? && ram1.InRange(l1.links.last.value.addr, 1)
    requires Parse(ram2, q, head2) == Some(l2) && CountedRead(l2)
    requires ChainApart(q, l2.links) && Separate(l2) && ram2.InRange(l2.links.last.value.addr, 1)
    requires 512 * l1.sector == 512 * l2.sector && Total(l1.links.segs) == Total(l2.links.segs)
    ensures var w := ProcessChain(ram1, disk, q, head1, flushOk);
            var r := ProcessChain(ram2, w.disk, q, head2, flushOk);
            w.ok && w.status == S_OK && r.status == S_OK ==>
              && Reachable(ram1, l1.links.segs) && Reachable(r.ram, l2.links.segs)
              && Gather(r.ram, l2.links.segs) == Gather(ram1, l1.links.segs)
  {
    hide ProcessChain, Parse;
    var w := ProcessChain(ram1, disk, q, head1, flushOk);
    WriteRefinesFlatImage(ram1, disk, q, head1, flushOk, l1);
    WriteLeavesPrefix(ram1, disk, q, head1, flushOk, l1);
    ReadRefinesFlatImage(ram2, w.disk, q, head2, flushOk, l2);
    if w.ok && w.status == S_OK && Total(l1.links.segs) != 0 {
      var o, data := 512 * l1.sector, Gather(ram1, l1.links.segs);
      assert Splice(disk.data, o, data)[o..o + |data|] == data;
    }
  }
}
