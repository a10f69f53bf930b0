/**
 Block requests from their header bytes: the kind in the first four, the sector in the
 last eight, 512 bytes to a sector, and the status bytes 0, 1 and 2.
 */
module BlockSector {
  import opened Words
  import opened GuestMemory
  import opened Virtqueue
  import opened BlockImage
  import opened BlockRequest
  import opened BlockTransfer
  import opened BlockRefinement

  /** The bytes of a header for this kind and sector are where the descriptor at `head` says. */
  predicate HeaderAt(ram: Ram, q: Queue, head: u16, kind: u32, sector: u64) {
    match ReadDesc(ram, q, head)
    case None => false
    case Some(d) =>
      d.HasNext() &&
      match ram.Read(d.addr, 16)
      case None => false
      case Some(b) => b[..4] == Store32(kind) && b[8..] == Store64(sector)
  }

  /** The descriptors behind the header. */
  function ChainBehind(ram: Ram, q: Queue, head: u16): Links
    requires ReadDesc(ram, q, head).Some?
  {
    Follow(ram, q, ReadDesc(ram, q, head).value.next, q.num)
  }

  /** A header written as bytes is read back as the request it asks for. */
  lemma HeaderParses(ram: Ram, q: Queue, head: u16, kind: u32, sector: u64)
    requires HeaderAt(ram, q, head, kind, sector)
    ensures Parse(ram, q, head) == Some(Layout(kind, sector, ChainBehind(ram, q, head)))
  {
    hide ReadDesc, Follow, Store32, Store64;
  }

  /**
   A write of kind 1 at a sector: acknowledged with 0 exactly when every segment fits the
   image from byte 512 * sector on, and then the image is the old one with the segments
   laid over it there; refused with 1 otherwise.
   */
  lemma WriteAtSector(ram: Ram, disk: Disk, q: Queue, head: u16, flushOk: bool, sector: u64)
    requires q.num != 0xffff_ffff && disk.Valid() && HeaderAt(ram, q, head, 1, sector)
    requires var links := ChainBehind(ram, q, head);
             links.last.Some? && ram.InRange(links.last.value.addr, 1) && Ahead(links.segs) < 0x1_0000_0000
    ensures var r, links := ProcessChain(ram, disk, q, head, flushOk), ChainBehind(ram, q, head);
            var segs := links.segs;
            var good := 512 * sector < 0x1_0000_0000_0000_0000
                        && GoodPrefix(1, ExtentOf(ram, disk), 512 * sector, segs) == |segs|;
            && (r.ok && r.status == 0 <==> good)
            && (r.ok && !good ==> r.status == 1)
            && (good ==> && Reachable(ram, segs) && (segs == [] || 512 * sector + Total(segs) <= |disk.data|)
                         && r.disk == disk.(data := Overlay(disk.data, 512 * sector, Gather(ram, segs))))
            && (r.ok ==> r.usedLen == 1 && ram.Write(links.last.value.addr, [r.status]) == Some(r.ram))
  {
    hide ReadDesc, ProcessChain, Parse, GoodPrefix, Overlay, Gather, Total, Reachable, Ahead;
    HeaderParses(ram, q, head, 1, sector);
    var l := Layout(1, sector, ChainBehind(ram, q, head));
    WriteRefinesFlatImage(ram, disk, q, head, flushOk, l);
    WriteLeavesPrefix(ram, disk, q, head, flushOk, l);
  }

  /**
   A read of kind 0 at a sector: acknowledged with 0 exactly when every segment fits the
   image from byte 512 * sector on, and then the segments hold the image's bytes from
   there; refused with 1 otherwise.
   */
  lemma ReadAtSector(ram: Ram, disk: Disk, q: Queue, head: u16, flushOk: bool, sector: u64)
    requires q.num != 0xffff_ffff && disk.Valid() && HeaderAt(ram, q, head, 0, sector)
    requires var links := ChainBehind(ram, q, head);
             && Ahead(links.segs) < 0x1_0000_0000 && ChainApart(q, links) && Separate(Layout(0, sector, links))
             && ram.InRange(links.last.value.addr, 1)
    ensures var r, segs := ProcessChain(ram, disk, q, head, flushOk), ChainBehind(ram, q, head).segs;
            var good := 512 * sector < 0x1_0000_0000_0000_0000
                        && GoodPrefix(0, ExtentOf(ram, disk), 512 * sector, segs) == |segs|;
            && r.ok && r.disk == disk && r.status == (if good then 0 else 1)
            && r.usedLen == (Total(segs) + 1) % 0x1_0000_0000
            && (good ==> && Reachable(r.ram, segs) && (segs == [] || 512 * sector + Total(segs) <= |disk.data|)
                         && Gather(r.ram, segs) == if segs == [] then []
                             else disk.data[512 * sector..512 * sector + Total(segs)])
  {
    hide ReadDesc, ProcessChain, Parse, GoodPrefix, Gather, Total, Reachable, Ahead, Separate, ChainApart;
    HeaderParses(ram, q, head, 0, sector);
    ReadRefinesFlatImage(ram, disk, q, head, flushOk, Layout(0, sector, ChainBehind(ram, q, head)));
  }

  /**
   A kind that is none of the three gets 2, a sector past the last 64-bit byte offset gets
   1, and nothing moves: the image is as it was and memory changes in the status byte only.
   */
  lemma RefusedByHeader(ram: Ram, disk: Disk, q: Queue, head: u16, flushOk: bool, kind: u32, sector: u64)
    requires q.num != 0xffff_ffff && HeaderAt(ram, q, head, kind, sector)
    requires kind !in {0, 1, 4} || 512 * sector >= 0x1_0000_0000_0000_0000
    requires var links := ChainBehind(ram, q, head);
             links.last.Some? && ram.InRange(links.last.value.addr, 1)
    ensures var r, links := ProcessChain(ram, disk, q, head, flushOk), ChainBehind(ram, q, head);
            && r.ok && r.status == (if kind in {0, 1, 4} then 1 else 2) && r.disk == disk
            && ram.Write(links.last.value.addr, [r.status]) == Some(r.ram)
            && r.usedLen == if kind == 0 then (Total(links.segs) + 1) % 0x1_0000_0000 else 1
  {
    hide ReadDesc, ProcessChain, Parse, Transfer, Total;
    HeaderParses(ram, q, head, kind, sector);
    var l := Layout(kind, sector, ChainBehind(ram, q, head));
    var w := Work(ram, disk, l.HeaderStatus(), 0);
    ChainIsTransfer(ram, disk, q, head, flushOk, l);
    BadStatusMovesNothing(l.Decoded(), w, l.links.segs);
    StatusOrIoError(l.Decoded(), w, l.links.segs);
    if kind == 0 {
      ReadsCountBytes(l.Decoded(), w, l.links.segs);
    }
  }

  /** A flush, kind 4, moves nothing and gets 0 exactly when the host's flush succeeds. */
  lemma FlushAnswers(ram: Ram, disk: Disk, q: Queue, head: u16, flushOk: bool, sector: u64)
    requires q.num != 0xffff_ffff && HeaderAt(ram, q, head, 4, sector) && 512 * sector < 0x1_0000_0000_0000_0000
    requires var links := ChainBehind(ram, q, head);
             links.last.Some? && ram.InRange(links.last.value.addr, 1)
    ensures var r, links := ProcessChain(ram, disk, q, head, flushOk), ChainBehind(ram, q, head);
            && r.ok && r.status == (if flushOk then 0 else 1) && r.disk == disk && r.usedLen == 1
            && ram.Write(links.last.value.addr, [r.status]) == Some(r.ram)
  {
    hide ReadDesc, ProcessChain, Parse, Transfer;
    HeaderParses(ram, q, head, 4, sector);
    var l := Layout(4, sector, ChainBehind(ram, q, head));
    ChainIsTransfer(ram, disk, q, head, flushOk, l);
    OtherKindsMoveNothing(l.Decoded(), Work(ram, disk, 0, 0), l.links.segs);
  }
}
