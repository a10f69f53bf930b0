/** The split-virtqueue primitives of the backend: descriptor reads, ring polling, used elements. */
module Virtqueue {
  import opened Words
  import opened GuestMemory

  /** How often an empty ring is polled again before a notification ends. */
  const RETRIES := 20

  /** What the notify register holds while nothing is announced. */
  const NOTIFY_IDLE: u32 := 0xffff_ffff

  datatype Queue = Queue(num: u32, ready: u32, desc: u64, avail: u64, used: u64, lastAvail: u16)

  datatype Desc = Desc(addr: u64, len: u32, flags: u16, next: u16) {
    predicate HasNext() {
      flags % 2 == 1
    }

    predicate DeviceWritable() {
      flags / 2 % 2 == 1
    }
  }

  /** What `virtio_next_avail` reports. */
  datatype Poll = DmaError | Empty | Head(head: u16)

  /** Guest memory after a call that may stop half way. */
  datatype Posted = Posted(ok: bool, ram: Ram)

  function DescAddr(q: Queue, index: u16): u64 {
    Add64(q.desc, index as nat * 16)
  }

  function DecodeDesc(b: seq<u8>): Desc
    requires |b| == 16
  {
    Desc(Load64(b[0..8]), Load32(b[8..12]), Load16(b[12..14]), Load16(b[14..16]))
  }

  /** A descriptor as the driver lays it down. */
  function EncodeDesc(d: Desc): (b: seq<u8>)
    ensures |b| == 16
  {
    Store64(d.addr) + Store32(d.len) + Store16(d.flags) + Store16(d.next)
  }

  lemma DecodeEncodeDesc(d: Desc)
    ensures DecodeDesc(EncodeDesc(d)) == d
  {
    var b := EncodeDesc(d);
    assert b[0..8] == Store64(d.addr) && b[8..12] == Store32(d.len);
    assert b[12..14] == Store16(d.flags) && b[14..16] == Store16(d.next);
  }

  /** A descriptor byte by byte: address, length, flags, successor; bit 0 of the flags links, bit 1 gives it away. */
  lemma DescBytes(b: seq<u8>)
    requires |b| == 16
    ensures var d := DecodeDesc(b);
            && d.addr == Little(b[0..8]) && d.len == Little(b[8..12])
            && d.flags == Little(b[12..14]) && d.next == Little(b[14..16])
            && (d.HasNext() <==> b[12] % 2 == 1) && (d.DeviceWritable() <==> b[12] / 2 % 2 == 1)
  {
    hide Little, Load64, Load32, Load16;
    FlagBits(b[12..14]);
    LoadsAreLittle(b[0..8]);
    LoadsAreLittle(b[8..12]);
    LoadsAreLittle(b[12..14]);
    LoadsAreLittle(b[14..16]);
  }

  lemma FlagBits(b: seq<u8>)
    requires |b| == 2
    ensures Load16(b) % 2 == b[0] % 2 && Load16(b) / 2 % 2 == b[0] / 2 % 2
  {
  }

  function ReadDesc(ram: Ram, q: Queue, index: u16): Option<Desc> {
    match ram.Read(DescAddr(q, index), 16)
    case None => None
    case Some(b) => Some(DecodeDesc(b))
  }

  /** A descriptor table as it lies in memory. */
  function Table(descs: seq<Desc>): (b: seq<u8>)
    ensures |b| == 16 * |descs|
  {
    if descs == [] then [] else EncodeDesc(descs[0]) + Table(descs[1..])
  }

  lemma {:induction false} TableAt(descs: seq<Desc>, i: nat)
    requires i < |descs|
    ensures Table(descs)[16 * i..16 * i + 16] == EncodeDesc(descs[i])
  {
    hide EncodeDesc;
    var rest := Table(descs[1..]);
    if i > 0 {
      TableAt(descs[1..], i - 1);
      assert Table(descs) == EncodeDesc(descs[0]) + rest && |EncodeDesc(descs[0])| == 16;
      assert Table(descs)[16 * i..16 * i + 16] == rest[16 * (i - 1)..16 * (i - 1) + 16];
    }
  }

  /** Memory from address zero that starts with a table holds its descriptors. */
  lemma TableRead(descs: seq<Desc>, tail: seq<u8>, q: Queue, i: nat)
    requires q.desc == 0 && i < |descs| <= 0x1_0000
    ensures ReadDesc(Ram(0, Table(descs) + tail), q, i) == Some(descs[i])
  {
    hide DecodeDesc, EncodeDesc, Table;
    TableAt(descs, i);
    DecodeEncodeDesc(descs[i]);
    assert DescAddr(q, i) == 16 * i;
    var ram := Ram(0, Table(descs) + tail);
    assert ram.bytes[16 * i..16 * i + 16] == Table(descs)[16 * i..16 * i + 16];
  }

  /** The ring slot of a 16-bit counter; the queue size is truncated to 16 bits first. */
  function Slot(q: Queue, counter: u16): nat
    requires q.num % 0x1_0000 != 0
  {
    counter % (q.num % 0x1_0000)
  }

  function AvailSlotAddr(q: Queue, counter: u16): u64
    requires q.num % 0x1_0000 != 0
  {
    Add64(q.avail, 4 + Slot(q, counter) * 2)
  }

  function UsedElemAddr(q: Queue, counter: u16): u64
    requires q.num % 0x1_0000 != 0
  {
    Add64(q.used, 4 + Slot(q, counter) * 8)
  }

  function NextAvail(ram: Ram, q: Queue): Poll
    requires q.num % 0x1_0000 != 0
  {
    match ram.Read16(Add64(q.avail, 2))
    case None => DmaError
    case Some(idx) =>
      if idx == q.lastAvail then Empty
      else match ram.Read16(AvailSlotAddr(q, q.lastAvail))
        case None => DmaError
        case Some(head) => Head(head)
  }

  /** Element id, element length, then the index: each write may fail and leaves the earlier ones. */
  function AddUsed(ram: Ram, q: Queue, head: u16, len: u32): Posted
    requires q.num % 0x1_0000 != 0
  {
    match ram.Read16(Add64(q.used, 2))
    case None => Posted(false, ram)
    case Some(idx) =>
      var elem := UsedElemAddr(q, idx);
      match ram.Write(elem, Store32(head))
      case None => Posted(false, ram)
      case Some(r1) =>
        match r1.Write(Add64(elem, 4), Store32(len))
        case None => Posted(false, r1)
        case Some(r2) =>
          match r2.Write(Add64(q.used, 2), Store16(Add16(idx, 1)))
          case None => Posted(false, r2)
          case Some(r3) => Posted(true, r3)
  }

  method VirtioReadDesc(q: Queue, io: DmaWindow, index: u16) returns (r: Option<Desc>)
    ensures r == ReadDesc(io.Value(), q, index)
  {
    var data := io.DmaReadInto(DescAddr(q, index), 16);
    match data {
      case None => r := None;
      case Some(b) => r := Some(DecodeDesc(b));
    }
  }

  method VirtioNextAvail(q: Queue, io: DmaWindow) returns (r: Poll)
    requires q.num % 0x1_0000 != 0
    ensures r == NextAvail(io.Value(), q)
  {
    var idx := io.DmaReadU16(Add64(q.avail, 2));
    if idx.None? {
      return DmaError;
    }
    if q.lastAvail == idx.value {
      return Empty;
    }
    var head := io.DmaReadU16(AvailSlotAddr(q, q.lastAvail));
    if head.None? {
      return DmaError;
    }
    r := Head(head.value);
  }

  method VirtioAddUsed(q: Queue, io: DmaWindow, head: u16, len: u32) returns (ok: bool)
    requires q.num % 0x1_0000 != 0
    modifies io.mem
    ensures Posted(ok, io.Value()) == AddUsed(old(io.Value()), q, head, len)
  {
    var idx := io.DmaReadU16(Add64(q.used, 2));
    if idx.None? {
      return false;
    }
    var elem := UsedElemAddr(q, idx.value);
    ok := io.DmaWrite(elem, Store32(head));
    if !ok {
      return;
    }
    ok := io.DmaWrite(Add64(elem, 4), Store32(len));
    if !ok {
      return;
    }
    ok := io.DmaWrite(Add64(q.used, 2), Store16(Add16(idx.value, 1)));
  }
}
