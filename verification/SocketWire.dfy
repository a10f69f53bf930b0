/** The wire format between QEMU and a backend daemon, and transfers that the kernel may split. */
module SocketWire {
  import opened Words
  import opened KernelIo

  const MMIO_WRITE: u16 := 5
  const IRQ_ASSERT: u16 := 6
  const IRQ_DEASSERT: u16 := 7
  const DMA_READ: u16 := 8
  const DMA_READ_REPLY: u16 := 9
  const DMA_WRITE: u16 := 10
  const ERROR: u16 := 0xffff

  const HEADER_LEN := 24

  datatype Header = Header(kind: u16, flags: u16, window: u32, offset: u64, length: u32)

  /** The header either side sends with no flags and window zero. */
  function Msg(kind: u16, offset: u64, length: u32): Header {
    Header(kind, 0, 0, offset, length)
  }

  /** A header and the four bytes that fill it up to a whole struct; a receiver ignores those. */
  function Encode(h: Header, pad: seq<u8>): (b: seq<u8>)
    requires |pad| == 4
    ensures |b| == HEADER_LEN
  {
    Store16(h.kind) + Store16(h.flags) + Store32(h.window) + Store64(h.offset) + Store32(h.length) + pad
  }

  function Decode(b: seq<u8>): Header
    requires |b| == HEADER_LEN
  {
    Header(Load16(b[0..2]), Load16(b[2..4]), Load32(b[4..8]), Load64(b[8..16]), Load32(b[16..20]))
  }

  lemma DecodeEncode(h: Header, pad: seq<u8>)
    requires |pad| == 4
    ensures Decode(Encode(h, pad)) == h
  {
    var b := Encode(h, pad);
    assert b[0..2] == Store16(h.kind) && b[2..4] == Store16(h.flags) && b[4..8] == Store32(h.window);
    assert b[8..16] == Store64(h.offset) && b[16..20] == Store32(h.length);
  }

  /** The messages as they go out: a kind of two bytes, no flags, window zero. */
  lemma MessageBytes(offset: u64, length: u32, pad: seq<u8>)
    requires |pad| == 4
    ensures forall kind: u16 :: kind < 0x100 ==>
              Encode(Msg(kind, offset, length), pad) ==
              [kind, 0, 0, 0, 0, 0, 0, 0] + Store64(offset) + Store32(length) + pad
    ensures [MMIO_WRITE, IRQ_ASSERT, IRQ_DEASSERT, DMA_READ, DMA_READ_REPLY, DMA_WRITE, ERROR]
         == [5, 6, 7, 8, 9, 10, 0xffff]
  {
    hide Store64;
    assert Store32(0) == [0, 0, 0, 0];
  }

  /** A header byte by byte: kind, flags, window, offset, length, and four bytes of no meaning. */
  lemma HeaderBytes(b: seq<u8>)
    requires |b| == 24
    ensures var h := Decode(b);
            && h.kind == Little(b[0..2]) && h.flags == Little(b[2..4]) && h.window == Little(b[4..8])
            && h.offset == Little(b[8..16]) && h.length == Little(b[16..20])
  {
    hide Little, Load64, Load32, Load16;
    LoadsAreLittle(b[0..2]);
    LoadsAreLittle(b[2..4]);
    LoadsAreLittle(b[4..8]);
    LoadsAreLittle(b[8..16]);
    LoadsAreLittle(b[16..20]);
  }

  /** The payload of a register write: the low bytes of the value. */
  function ValueBytes(value: u64, size: nat): (b: seq<u8>)
    requires size <= 8
    ensures |b| == size
  {
    Store64(value)[..size]
  }

  /** `read_value`: missing high bytes are zero. */
  function ValueOf(b: seq<u8>): u64
    requires |b| <= 8
  {
    Load64(b + seq(8 - |b|, _ => 0))
  }

  /** The number of values `size` bytes can hold. */
  function Values(size: nat): nat {
    if size == 0 then 1 else 0x100 * Values(size - 1)
  }

  lemma HighBytesOfWord(v: u32, size: nat, k: nat)
    requires size <= k < 4 && v < Values(size)
    ensures Store32(v)[k] == 0
  {
    assert Store32(v) == Store16(v % 0x1_0000) + Store16(v / 0x1_0000);
    assert Values(1) == 0x100 && Values(2) == 0x1_0000 && Values(3) == 0x100_0000;
  }

  lemma {:induction false} ValuesAbove(size: nat)
    requires size >= 4
    ensures Values(size) == 0x1_0000_0000 * Values(size - 4)
  {
    if size > 4 {
      ValuesAbove(size - 1);
    } else {
      assert Values(1) == 0x100 && Values(2) == 0x1_0000 && Values(3) == 0x100_0000;
    }
  }

  lemma {:induction false} ValuesBelow(size: nat)
    requires size <= 4
    ensures Values(size) <= 0x1_0000_0000
  {
    assert Values(1) == 0x100 && Values(2) == 0x1_0000 && Values(3) == 0x100_0000;
  }

  lemma HighBytesAreZero(value: u64, size: nat, k: nat)
    requires size <= k < 8 && value < Values(size)
    ensures Store64(value)[k] == 0
  {
    hide Store32, Values;
    var low, high := value % 0x1_0000_0000, value / 0x1_0000_0000;
    assert Store64(value) == Store32(low) + Store32(high);
    if size <= 4 {
      ValuesBelow(size);
      if k < 4 {
        HighBytesOfWord(low, size, k);
      } else {
        OneValue();
        HighBytesOfWord(high, 0, k - 4);
      }
    } else {
      ValuesAbove(size);
      HighBytesOfWord(high, size - 4, k - 4);
    }
  }

  lemma OneValue()
    ensures Values(0) == 1
  {
  }

  /** A value that fits the access width survives the wire, at every width. */
  lemma ValueRoundTrip(value: u64, size: nat)
    requires size <= 8 && value < Values(size)
    ensures ValueOf(ValueBytes(value, size)) == value
  {
    hide Store64, Load64, Values;
    var full := ValueBytes(value, size) + seq(8 - size, _ => 0);
    forall k | 0 <= k < 8
      ensures full[k] == Store64(value)[k]
    {
      if size <= k {
        HighBytesAreZero(value, size, k);
      }
    }
    assert full == Store64(value);
  }

  /**
   `io_all` for writing: the whole buffer goes on the stream however the kernel splits or
   interrupts it; if the kernel refuses, the leading bytes did and the caller is told.
   */
  method SendAll(stream: seq<u8>, buf: seq<u8>, kernel: seq<Answer>) returns (ok: bool, out: seq<u8>)
    ensures ok <==> BytesMoved(kernel, |buf|) == |buf|
    ensures out == stream + buf[..BytesMoved(kernel, |buf|)]
  {
    out := stream;
    var done, rest := 0, kernel;
    while done < |buf|
      invariant 0 <= done <= |buf| && out == stream + buf[..done]
      invariant done + BytesMoved(rest, |buf| - done) == BytesMoved(kernel, |buf|)
      decreases |buf| - done, |rest|
    {
      var ret: Option<nat>;
      ret, rest := Call(rest, |buf| - done);
      if ret.None? {
        return false, out;
      }
      out := out + buf[done..done + ret.value];
      assert buf[..done] + buf[done..done + ret.value] == buf[..done + ret.value];
      done := done + ret.value;
    }
    ok := true;
  }

  /**
   `io_all` for reading: exactly the next `len` bytes, in order; or fewer and a failure,
   when the kernel refuses or the peer has closed a stream that holds no more.
   */
  method RecvAll(stream: seq<u8>, len: nat, kernel: seq<Answer>) returns (ok: bool, buf: seq<u8>, rest: seq<u8>)
    ensures var m := BytesMoved(kernel, if len < |stream| then len else |stream|);
            && (ok <==> m == len)
            && buf == stream[..m] && rest == stream[m..]
  {
    var all := if len < |stream| then len else |stream|;
    var done, answers := 0, kernel;
    while done < all
      invariant 0 <= done <= all && done + BytesMoved(answers, all - done) == BytesMoved(kernel, all)
      decreases all - done, |answers|
    {
      var ret: Option<nat>;
      ret, answers := Call(answers, all - done);
      if ret.None? {
        break;
      }
      done := done + ret.value;
    }
    ok, buf, rest := done == len, stream[..done], stream[done..];
  }
}
