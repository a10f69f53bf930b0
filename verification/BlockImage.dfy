/** The disk image behind virtio-blk: a flat byte array with bounds-checked positioned access. */
module BlockImage {
  import opened Words
  import opened GuestMemory
  import opened KernelIo

  const SECTOR_SIZE := 512
  const INT64_MAX := 0x7fff_ffff_ffff_ffff

  datatype Disk = Disk(data: seq<u8>, readonly: bool) {
    /** The image length comes from `st_size`, an `off_t`. */
    ghost predicate Valid() {
      |data| <= INT64_MAX
    }

    function Read(offset: u64, len: nat): Option<seq<u8>> {
      if offset > |data| || len > |data| - offset || offset > INT64_MAX then None
      else Some(data[offset..offset + len])
    }

    function Write(offset: u64, buf: seq<u8>): Option<Disk> {
      if readonly || offset > |data| || |buf| > |data| - offset || offset > INT64_MAX then None
      else Some(Disk(Splice(data, offset, buf), readonly))
    }
  }

  /** The open image file. The kernel may split, interrupt or refuse any transfer. */
  class ImageFile {
    const data: array<u8>
    const readonly: bool

    constructor (contents: seq<u8>, readonly: bool)
      requires |contents| <= INT64_MAX
      ensures Value() == Disk(contents, readonly) && fresh(data)
    {
      this.readonly := readonly;
      data := new u8[|contents|](i requires 0 <= i < |contents| => contents[i]);
    }

    ghost function Value(): Disk
      reads data
    {
      Disk(data[..], readonly)
    }

    /** Reads as far as the kernel lets it: all `len` bytes, or the leading ones and a failure. */
    method PreadAll(dst: array<u8>, at: nat, len: nat, offset: nat, kernel: seq<Answer>) returns (ok: bool)
      requires dst != data && at + len <= dst.Length && offset + len <= data.Length
      modifies dst
      ensures ok <==> BytesMoved(kernel, len) == len
      ensures dst[..] == Splice(old(dst[..]), at, data[offset..offset + BytesMoved(kernel, len)])
    {
      var done, rest := 0, kernel;
      while done < len
        invariant 0 <= done <= len && done + BytesMoved(rest, len - done) == BytesMoved(kernel, len)
        invariant forall i :: 0 <= i < dst.Length ==>
                    dst[i] == if at <= i < at + done then data[offset + (i - at)] else old(dst[i])
        decreases len - done, |rest|
      {
        var ret: Option<nat>;
        ret, rest := Call(rest, len - done);
        if ret.None? {
          return false;
        }
        forall i | 0 <= i < ret.value {
          dst[at + done + i] := data[offset + done + i];
        }
        done := done + ret.value;
      }
      ok := true;
    }

    /** Writes as far as the kernel lets it: the whole buffer, or its leading bytes and a failure. */
    method PwriteAll(buf: seq<u8>, offset: nat, kernel: seq<Answer>) returns (ok: bool)
      requires offset + |buf| <= data.Length
      modifies data
      ensures ok <==> BytesMoved(kernel, |buf|) == |buf|
      ensures data[..] == Splice(old(data[..]), offset, buf[..BytesMoved(kernel, |buf|)])
    {
      var done, rest := 0, kernel;
      while done < |buf|
        invariant 0 <= done <= |buf| && done + BytesMoved(rest, |buf| - done) == BytesMoved(kernel, |buf|)
        invariant forall i :: 0 <= i < data.Length ==>
                    data[i] == if offset <= i < offset + done then buf[i - offset] else old(data[i])
        decreases |buf| - done, |rest|
      {
        var ret: Option<nat>;
        ret, rest := Call(rest, |buf| - done);
        if ret.None? {
          return false;
        }
        forall i | 0 <= i < ret.value {
          data[offset + done + i] := buf[done + i];
        }
        done := done + ret.value;
      }
      ok := true;
    }

    method BlockRead(offset: u64, dst: array<u8>, at: nat, len: nat, kernel: seq<Answer>) returns (ok: bool)
      requires dst != data && at + len <= dst.Length
      modifies dst
      ensures ok <==> Value().Read(offset, len).Some? && BytesMoved(kernel, len) == len
      ensures dst[..] == match Value().Read(offset, len)
                         case None => old(dst[..])
                         case Some(b) => Splice(old(dst[..]), at, b[..BytesMoved(kernel, len)])
    {
      if offset > data.Length || len > data.Length - offset || offset > INT64_MAX {
        return false;
      }
      ok := PreadAll(dst, at, len, offset, kernel);
      assert Value().Read(offset, len).value[..BytesMoved(kernel, len)] ==
          data[offset..offset + BytesMoved(kernel, len)];
    }

    method BlockWrite(offset: u64, buf: seq<u8>, kernel: seq<Answer>) returns (ok: bool)
      modifies data
      ensures ok <==> old(Value()).Write(offset, buf).Some? && BytesMoved(kernel, |buf|) == |buf|
      ensures Value() == match old(Value()).Write(offset, buf)
                         case None => old(Value())
                         case Some(_) => old(Value()).Write(offset, buf[..BytesMoved(kernel, |buf|)]).value
    {
      if readonly || offset > data.Length || |buf| > data.Length - offset || offset > INT64_MAX {
        return false;
      }
      ok := PwriteAll(buf, offset, kernel);
    }
  }
}
