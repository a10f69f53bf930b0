/** A request in guest memory, byte by byte, that the daemon acknowledges as good and does not store. */
module BlockWitness {
  import opened Words
  import opened GuestMemory
  import opened Virtqueue
  import opened BlockImage
  import opened BlockRequest
  import opened BlockTransfer
  import opened BlockRefinement

  const HALF: u32 := 0x8000_0000

  /** Header, two buffers of 2 GiB, one byte more, status. */
  const CHAIN: seq<Desc> :=
    [Desc(80, 16, 1, 1), Desc(96, HALF, 1, 2), Desc(96, HALF, 1, 3), Desc(96, 1, 1, 4), Desc(96, 1, 2, 0)]

  const HEADER: seq<u8> := Store32(T_OUT) + Store32(0) + Store64(0)

  const QUEUE := Queue(8, 1, 0, 0, 0, 0)

  ghost function Memory(): Ram {
    Ram(0, Table(CHAIN) + (HEADER + seq(HALF, _ => 0)))
  }

  lemma ChainFollows()
    ensures Follow(Memory(), QUEUE, 1, 8) == Links([1, 2, 3, 4], CHAIN[1..4], Some(CHAIN[4]))
  {
    hide ReadDesc, Table;
    var ram, tail := Memory(), HEADER + seq(HALF, _ => 0);
    forall i | 0 <= i < 5
      ensures ReadDesc(ram, QUEUE, i) == Some(CHAIN[i])
    {
      TableRead(CHAIN, tail, QUEUE, i);
    }
    assert Follow(ram, QUEUE, 4, 5) == Links([4], [], Some(CHAIN[4]));
    assert Follow(ram, QUEUE, 3, 6) == Links([3, 4], [CHAIN[3]], Some(CHAIN[4]));
    assert Follow(ram, QUEUE, 2, 7) == Links([2, 3, 4], [CHAIN[2], CHAIN[3]], Some(CHAIN[4]));
    assert CHAIN[1..4] == [CHAIN[1], CHAIN[2], CHAIN[3]];
  }

  lemma RequestParses()
    ensures Parse(Memory(), QUEUE, 0) ==
        Some(Layout(T_OUT, 0, Links([1, 2, 3, 4], CHAIN[1..4], Some(CHAIN[4]))))
  {
    hide ReadDesc, Table, Follow, Load32, Load64;
    TableRead(CHAIN, HEADER + seq(HALF, _ => 0), QUEUE, 0);
    ChainFollows();
    HeaderDecodes();
    hide HEADER;
    assert Memory().bytes[80..96] == HEADER;
  }

  lemma HeaderDecodes()
    ensures |HEADER| == 16 && Load32(HEADER[..4]) == T_OUT && Load64(HEADER[8..]) == 0
  {
    hide Load32, Load64, Store32, Store64;
    assert HEADER[..4] == Store32(T_OUT) && HEADER[8..] == Store64(0);
  }

  lemma ChainCounts(segs: seq<Desc>, e: Extent)
    requires segs == CHAIN[1..4] && e.base == 0 && e.ramLen >= 96 + HALF && e.imageLen == 0x1_0000_0001 && !e.readonly
    ensures Total(segs) == 0x1_0000_0001 && Ahead(segs) == 0x1_0000_0000
    ensures GoodPrefix(T_OUT, e, 0, segs) == 3 == |segs|
  {
    var two, one := segs[1..], segs[2..];
    assert segs == [CHAIN[1], CHAIN[2], CHAIN[3]] && two == [CHAIN[2], CHAIN[3]] && one == [CHAIN[3]];
    assert two[1..] == one && one[1..] == [];
    assert Total(one) == 1 && Ahead(one) == 0 && GoodPrefix(T_OUT, e, 0x1_0000_0000, one) == 1;
    assert Total(two) == HALF + 1 && Ahead(two) == HALF && GoodPrefix(T_OUT, e, HALF, two) == 2;
  }

  /** A whole request of 4 GiB and one byte: acknowledged as good, and not on the image. */
  lemma FourGigabyteWriteIsLost() returns (ram: Ram, disk: Disk, q: Queue, l: Layout)
    ensures q.num != 0xffff_ffff && Parse(ram, q, 0) == Some(l) && disk.Valid()
    ensures Total(l.links.segs) == 0x1_0000_0001 <= |disk.data|
    ensures var r := ProcessChain(ram, disk, q, 0, true);
            r.ok && r.status == S_OK && !LandsRight(ram, disk, q, 0, l)
  {
    hide ProcessChain, Parse, Table, LandsRight, Ram.Read;
    ram, q := Memory(), QUEUE;
    RequestParses();
    l := Parse(ram, q, 0).value;
    var segs := l.links.segs;
    var e := Extent(0, |ram.bytes|, 0x1_0000_0001, false);
    ChainCounts(segs, e);
    WrongImage(ram, 0x1_0000_0001, q, 0, l);
    disk :| |disk.data| == 0x1_0000_0001 && !disk.readonly && !LandsRight(ram, disk, q, 0, l);
    assert ExtentOf(ram, disk) == e;
    WrappedWriteMissesLastByte(ram, disk, q, 0, l);
  }
}
