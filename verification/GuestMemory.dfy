/**
 The guest RAM that a backend reaches through the UIO DMA aperture: `Ram` is the
 value, `DmaWindow` the mapped buffer that the daemon changes in place.
 */
module GuestMemory {
  import opened Words

  /** `data` written over `s` at position `at`. */
  function Splice(s: seq<u8>, at: nat, data: seq<u8>): (r: seq<u8>)
    requires at + |data| <= |s|
    ensures |r| == |s|
    ensures forall i :: 0 <= i < |s| ==> r[i] == if at <= i < at + |data| then data[i - at] else s[i]
  {
    s[..at] + data + s[at + |data|..]
  }

  /** Two byte ranges that share no address; empty ranges share nothing. */
  predicate Apart(a: int, n: nat, b: int, m: nat) {
    n == 0 || m == 0 || a + n <= b || b + m <= a
  }

  datatype Ram = Ram(base: u64, bytes: seq<u8>) {
    /** The bounds calculation of `dma_offset`: no sum is formed, so nothing can wrap. */
    predicate InRange(gpa: u64, len: nat) {
      gpa >= base && gpa - base <= |bytes| && len <= |bytes| - (gpa - base)
    }

    function Read(gpa: u64, len: nat): Option<seq<u8>> {
      if len == 0 then Some([])
      else if InRange(gpa, len) then Some(bytes[gpa - base..gpa - base + len])
      else None
    }

    function Write(gpa: u64, data: seq<u8>): Option<Ram> {
      if data == [] then Some(this)
      else if InRange(gpa, |data|) then Some(Ram(base, Splice(bytes, gpa - base, data)))
      else None
    }

    function Read16(gpa: u64): Option<u16> {
      match Read(gpa, 2)
      case None => None
      case Some(b) => Some(Load16(b))
    }

    /** Same aperture, and equal bytes at every guest address of the range. */
    ghost predicate AgreesOn(other: Ram, gpa: int, len: nat) {
      && base == other.base && |bytes| == |other.bytes|
      && forall i :: 0 <= i < |bytes| && gpa <= base + i < gpa + len ==> bytes[i] == other.bytes[i]
    }
  }

  lemma ReadAgrees(r: Ram, s: Ram, gpa: u64, len: nat)
    requires r.AgreesOn(s, gpa, len)
    ensures r.Read(gpa, len) == s.Read(gpa, len)
  {
    if len > 0 && r.InRange(gpa, len) {
      var o := gpa - r.base;
      assert r.bytes[o..o + len] == s.bytes[o..o + len];
    }
  }

  /** A write is seen by a read of the same range and by no read apart from it. */
  lemma ReadAfterWrite(r: Ram, s: Ram, gpa: u64, data: seq<u8>)
    requires r.Write(gpa, data) == Some(s)
    ensures s.Read(gpa, |data|) == Some(data)
    ensures s.base == r.base && |s.bytes| == |r.bytes|
    ensures forall a: int, n: nat :: Apart(gpa, |data|, a, n) ==> r.AgreesOn(s, a, n)
  {
    if data != [] {
      var o := gpa - r.base;
      assert s.bytes[o..o + |data|] == data;
    }
  }

  /** A mapped aperture: the base address never changes, the bytes are updated in place. */
  class DmaWindow {
    const base: u64
    const mem: array<u8>

    constructor (base: u64, size: nat)
      ensures this.base == base && fresh(mem) && mem.Length == size
    {
      this.base := base;
      mem := new u8[size](_ => 0);
    }

    ghost function Value(): Ram
      reads mem
    {
      Ram(base, mem[..])
    }

    method DmaOffset(gpa: u64, len: nat) returns (ok: bool, offset: nat)
      ensures ok == Value().InRange(gpa, len)
      ensures ok ==> offset == gpa - base && offset + len <= mem.Length
    {
      offset := 0;
      if gpa < base {
        return false, 0;
      }
      offset := gpa - base;
      ok := offset <= mem.Length && len <= mem.Length - offset;
    }

    method DmaReadInto(gpa: u64, len: nat) returns (r: Option<seq<u8>>)
      ensures r == Value().Read(gpa, len)
    {
      if len == 0 {
        return Some([]);
      }
      var ok, offset := DmaOffset(gpa, len);
      if !ok {
        return None;
      }
      r := Some(mem[offset..offset + len]);
    }

    method DmaReadU16(gpa: u64) returns (r: Option<u16>)
      ensures r == Value().Read16(gpa)
    {
      var data := DmaReadInto(gpa, 2);
      match data {
        case None => r := None;
        case Some(b) => r := Some(Load16(b));
      }
    }

    method DmaWrite(gpa: u64, data: seq<u8>) returns (ok: bool)
      modifies mem
      ensures ok == old(Value()).Write(gpa, data).Some?
      ensures Value() == if ok then old(Value()).Write(gpa, data).value else old(Value())
    {
      if |data| == 0 {
        return true;
      }
      var inside, offset := DmaOffset(gpa, |data|);
      if !inside {
        return false;
      }
      forall i | 0 <= i < |data| {
        mem[offset + i] := data[i];
      }
      assert mem[..] == Splice(old(mem[..]), offset, data);
      ok := true;
    }
  }
}
