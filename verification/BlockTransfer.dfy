/**
 A block request as a transfer between a list of guest segments and a flat image.

 `Follow` reads the linked descriptors off guest memory before anything moves; the
 theorems here say that walking and transferring at once comes to the same.
 */
module BlockTransfer {
  import opened Words
  import opened GuestMemory
  import opened Virtqueue
  import opened BlockImage
  import opened BlockRequest

  /** The descriptors linked from an index: where they sit, the data segments, the end if there is one. */
  datatype Links = Links(at: seq<u16>, segs: seq<Desc>, last: Option<Desc>)

  function Follow(ram: Ram, q: Queue, index: u16, budget: nat): Links
    decreases budget
  {
    if budget == 0 then Links([], [], None)
    else match ReadDesc(ram, q, index)
      case None => Links([], [], None)
      case Some(d) =>
        if !d.HasNext() then Links([index], [], Some(d))
        else
          var rest := Follow(ram, q, d.next, budget - 1);
          Links([index] + rest.at, [d] + rest.segs, rest.last)
  }

  /** The segment loop over a list that is already known. */
  datatype Moved = Abandoned(work: Work) | Finished(work: Work)

  function Transfer(req: Request, w: Work, segs: seq<Desc>): Moved
    decreases |segs|
  {
    if segs == [] then Finished(w)
    else match Segment(req, w, segs[0])
      case None => Abandoned(w)
      case Some(w') => Transfer(req, w', segs[1..])
  }

  function Outcome(m: Moved, last: Option<Desc>): Progress {
    match m
    case Abandoned(w) => Aborted(w)
    case Finished(w) => if last.Some? then AtStatus(w, last.value) else Aborted(w)
  }

  /** No segment the device may write overlaps a descriptor of its own chain. */
  ghost predicate ChainApart(q: Queue, l: Links) {
    forall i, j :: 0 <= i < |l.segs| && 0 <= j < |l.at| && l.segs[i].DeviceWritable()
      ==> Apart(l.segs[i].addr, l.segs[i].len, DescAddr(q, l.at[j]), 16)
  }

  lemma {:induction false} FollowAgrees(r: Ram, s: Ram, q: Queue, index: u16, budget: nat)
    requires r.base == s.base && |r.bytes| == |s.bytes|
    requires forall a :: a in Follow(r, q, index, budget).at ==> r.AgreesOn(s, DescAddr(q, a), 16)
    ensures Follow(s, q, index, budget) == Follow(r, q, index, budget)
    decreases budget
  {
    if budget > 0 {
      match ReadDesc(r, q, index)
      case None =>
        assert ReadDesc(s, q, index) == None;
      case Some(d) =>
        assert index in Follow(r, q, index, budget).at;
        ReadAgrees(r, s, DescAddr(q, index), 16);
        if d.HasNext() {
          FollowAgrees(r, s, q, d.next, budget - 1);
        }
    }
  }

  /** A segment changes guest memory only inside itself, and only when it is device-writable. */
  lemma SegmentFrame(req: Request, w: Work, d: Desc, a: int, n: nat)
    requires Segment(req, w, d).Some?
    requires req.kind == T_IN && w.status == S_OK && d.DeviceWritable() ==> Apart(d.addr, d.len, a, n)
    ensures w.ram.AgreesOn(Segment(req, w, d).value.ram, a, n)
  {
    if req.kind == T_IN && d.DeviceWritable() && w.status == S_OK {
      match w.disk.Read(Add64(req.offset, w.dataLen), d.len)
      case None =>
      case Some(b) =>
        if w.ram.Write(d.addr, b).Some? {
          ReadAfterWrite(w.ram, w.ram.Write(d.addr, b).value, d.addr, b);
        }
    }
  }

  /** Moving one segment leaves the rest of its chain linked as it was. */
  lemma FollowAfterSegment(q: Queue, req: Request, w: Work, d: Desc, w': Work, l: Links, index: u16, budget: nat)
    requires Segment(req, w, d) == Some(w')
    requires l.segs != [] && l.segs[0] == d && l.at != [] && l.at[1..] == Follow(w.ram, q, index, budget).at
    requires req.kind == T_IN && w.status == S_OK ==> ChainApart(q, l)
    ensures Follow(w'.ram, q, index, budget) == Follow(w.ram, q, index, budget)
  {
    forall a | a in Follow(w.ram, q, index, budget).at
      ensures w.ram.AgreesOn(w'.ram, DescAddr(q, a), 16)
    {
      assert a in l.at;
      SegmentFrame(req, w, d, DescAddr(q, a), 16);
    }
    SegmentFrame(req, w, d, 0, 0);
    FollowAgrees(w.ram, w'.ram, q, index, budget);
  }

  lemma WalkTurn(q: Queue, req: Request, w: Work, index: u16, seen: u32, d: Desc)
    requires q.num != 0xffff_ffff && seen < q.num && ReadDesc(w.ram, q, index) == Some(d)
    ensures Walk(q, req, Walking(w, index, seen)) ==
            if !d.HasNext() then AtStatus(w, d)
            else match Segment(req, w, d)
              case None => Aborted(w)
              case Some(w') => Walk(q, req, Walking(w', d.next, seen + 1))
  {
  }

  /** Walking the chain while data moves equals collecting the chain first and moving data after. */
  lemma {:induction false} WalkIsTransfer(q: Queue, req: Request, w: Work, index: u16, seen: u32)
    requires q.num != 0xffff_ffff && seen <= q.num
    requires req.kind == T_IN && w.status == S_OK ==> ChainApart(q, Follow(w.ram, q, index, q.num - seen))
    ensures var l := Follow(w.ram, q, index, q.num - seen);
            Walk(q, req, Walking(w, index, seen)) == Outcome(Transfer(req, w, l.segs), l.last)
    decreases q.num - seen
  {
    hide ReadDesc;
    if seen < q.num && ReadDesc(w.ram, q, index).Some? {
      var d := ReadDesc(w.ram, q, index).value;
      WalkTurn(q, req, w, index, seen, d);
      if d.HasNext() && Segment(req, w, d).Some? {
        var w' := Segment(req, w, d).value;
        var l := Follow(w.ram, q, index, q.num - seen);
        var rest := Follow(w.ram, q, d.next, q.num - seen - 1);
        assert l.segs[1..] == rest.segs && l.at[1..] == rest.at;
        FollowAfterSegment(q, req, w, d, w', l, d.next, q.num - seen - 1);
        TailApart(q, l, rest);
        WalkIsTransfer(q, req, w', d.next, seen + 1);
      }
    }
  }

  lemma TailApart(q: Queue, l: Links, rest: Links)
    requires l.segs != [] && l.at != [] && rest.segs == l.segs[1..] && rest.at == l.at[1..]
    ensures ChainApart(q, l) ==> ChainApart(q, rest)
  {
    if ChainApart(q, l) {
      forall i, j | 0 <= i < |rest.segs| && 0 <= j < |rest.at| && rest.segs[i].DeviceWritable()
        ensures Apart(rest.segs[i].addr, rest.segs[i].len, DescAddr(q, rest.at[j]), 16)
      {
        assert rest.segs[i] == l.segs[i + 1] && rest.at[j] == l.at[j + 1];
      }
    }
  }

  // ---- The flat reference ----

  function Total(segs: seq<Desc>): nat {
    if segs == [] then 0 else segs[0].len + Total(segs[1..])
  }

  ghost predicate Reachable(ram: Ram, segs: seq<Desc>) {
    forall d :: d in segs ==> ram.Read(d.addr, d.len).Some?
  }

  /** The bytes the guest sees in its segments, end to end. */
  function Gather(ram: Ram, segs: seq<Desc>): (b: seq<u8>)
    requires Reachable(ram, segs)
    ensures |b| == Total(segs)
  {
    if segs == [] then [] else ram.Read(segs[0].addr, segs[0].len).value + Gather(ram, segs[1..])
  }

  /** Bytes laid over a flat array; laying down nothing is always possible. */
  function Overlay(s: seq<u8>, at: nat, data: seq<u8>): seq<u8>
    requires data == [] || at + |data| <= |s|
  {
    if data == [] then s else Splice(s, at, data)
  }

  /** All that decides whether data can move: where memory and image end, never what they hold. */
  datatype Extent = Extent(base: u64, ramLen: nat, imageLen: nat, readonly: bool)

  function ExtentOf(ram: Ram, disk: Disk): Extent {
    Extent(ram.base, |ram.bytes|, |disk.data|, disk.readonly)
  }

  /** Whether a segment moves: right direction, inside guest memory, inside a suitable image. */
  predicate Movable(kind: u32, e: Extent, pos: nat, d: Desc) {
    && d.DeviceWritable() == (kind == T_IN)
    && (d.len == 0 || (e.base <= d.addr && d.addr + d.len <= e.base + e.ramLen))
    && pos + d.len <= e.imageLen
    && (kind == T_OUT ==> !e.readonly)
  }

  /** How many leading segments move, decided before any of them has. */
  function GoodPrefix(kind: u32, e: Extent, pos: nat, segs: seq<Desc>): (k: nat)
    ensures k <= |segs|
    decreases |segs|
  {
    if segs == [] || !Movable(kind, e, pos, segs[0]) then 0
    else 1 + GoodPrefix(kind, e, pos + segs[0].len, segs[1..])
  }

  lemma {:induction false} GoodPrefixFits(kind: u32, ram: Ram, disk: Disk, pos: nat, segs: seq<Desc>)
    ensures var k := GoodPrefix(kind, ExtentOf(ram, disk), pos, segs);
            && (k > 0 ==> pos + Total(segs[..k]) <= |disk.data|)
            && Reachable(ram, segs[..k])
            && (k > 0 && kind == T_OUT ==> !disk.readonly)
    decreases |segs|
  {
    if segs != [] && Movable(kind, ExtentOf(ram, disk), pos, segs[0]) {
      var k := GoodPrefix(kind, ExtentOf(ram, disk), pos, segs);
      GoodPrefixFits(kind, ram, disk, pos + segs[0].len, segs[1..]);
      assert segs[..k][1..] == segs[1..][..k - 1];
    }
  }

  lemma GoodPrefixCons(kind: u32, ram: Ram, disk: Disk, pos: nat, segs: seq<Desc>)
    requires segs != [] && Movable(kind, ExtentOf(ram, disk), pos, segs[0])
    ensures var k := GoodPrefix(kind, ExtentOf(ram, disk), pos, segs);
            && k == 1 + GoodPrefix(kind, ExtentOf(ram, disk), pos + segs[0].len, segs[1..])
            && Reachable(ram, segs[..k]) && Reachable(ram, segs[1..][..k - 1])
            && Gather(ram, segs[..k]) == ram.Read(segs[0].addr, segs[0].len).value + Gather(ram, segs[1..][..k - 1])
            && Total(segs[..k]) == segs[0].len + Total(segs[1..][..k - 1])
            && pos + Total(segs[..k]) <= |disk.data|
  {
    var k := GoodPrefix(kind, ExtentOf(ram, disk), pos, segs);
    GoodPrefixFits(kind, ram, disk, pos, segs);
    assert segs[..k][1..] == segs[1..][..k - 1];
  }

  /** Once the status is bad nothing moves: only the byte count goes on. */
  lemma {:induction false} BadStatusMovesNothing(req: Request, w: Work, segs: seq<Desc>)
    requires w.status != S_OK
    ensures var m := Transfer(req, w, segs);
            && m.Finished? && m.work.ram == w.ram && m.work.disk == w.disk && m.work.status != S_OK
            && (req.kind != T_IN && req.kind != T_OUT ==> m.work == w)
    decreases |segs|
  {
    if segs != [] {
      BadStatusMovesNothing(req, Segment(req, w, segs[0]).value, segs[1..]);
    }
  }

  /** Flushes and unsupported requests pass their segments over. */
  lemma {:induction false} OtherKindsMoveNothing(req: Request, w: Work, segs: seq<Desc>)
    requires req.kind != T_IN && req.kind != T_OUT
    ensures Transfer(req, w, segs) == Finished(w)
    decreases |segs|
  {
    if segs != [] {
      OtherKindsMoveNothing(req, w, segs[1..]);
    }
  }

  /** The only status a segment sets is the I/O error. */
  lemma {:induction false} StatusOrIoError(req: Request, w: Work, segs: seq<Desc>)
    ensures var m := Transfer(req, w, segs);
            m.work.status == w.status || m.work.status == S_IOERR
    decreases |segs|
  {
    hide Ram.Write, Ram.Read;
    if segs != [] && Segment(req, w, segs[0]).Some? {
      StatusOrIoError(req, Segment(req, w, segs[0]).value, segs[1..]);
    }
  }

  /** `out` is the image with the good segments laid over it, end to end, from `pos`. */
  ghost predicate Landed(kind: u32, ram: Ram, disk: Disk, pos: nat, segs: seq<Desc>, out: Disk) {
    var k := GoodPrefix(kind, ExtentOf(ram, disk), pos, segs);
    && Reachable(ram, segs[..k])
    && (k > 0 ==> pos + Total(segs[..k]) <= |disk.data|)
    && out == disk.(data := Overlay(disk.data, pos, Gather(ram, segs[..k])))
  }

  /** How a write request ends, decided by its first bad segment. */
  ghost predicate OutVerdict(req: Request, w: Work, segs: seq<Desc>, pos: nat) {
    var k := GoodPrefix(req.kind, ExtentOf(w.ram, w.disk), pos, segs);
    var m := Transfer(req, w, segs);
    && m.work.ram == w.ram
    && (m.Abandoned? <==> k < |segs| && !segs[k].DeviceWritable() && w.ram.Read(segs[k].addr, segs[k].len).None?)
    && (m.Finished? ==> (m.work.status == S_OK <==> k == |segs|))
  }

  /** The bytes before the last segment that is not empty: what the 32-bit count must still tell apart. */
  function Ahead(segs: seq<Desc>): (n: nat)
    ensures n <= Total(segs)
  {
    if segs == [] || Total(segs[1..]) == 0 then 0 else segs[0].len + Ahead(segs[1..])
  }

  /** The count gives the place of the next byte, or no byte follows and its place is on the image anyway. */
  ghost predicate InStep(req: Request, w: Work, pos: nat, segs: seq<Desc>) {
    || (pos == req.offset + w.dataLen < 0x1_0000_0000_0000_0000 && w.dataLen + Ahead(segs) < 0x1_0000_0000)
    || (Total(segs) == 0 && pos <= |w.disk.data| && Add64(req.offset, w.dataLen) <= |w.disk.data|)
  }

  /** A movable segment of a write request lands on the image; any other leaves memory and image alone. */
  lemma OutSegment(req: Request, w: Work, d: Desc, pos: nat)
    requires req.kind == T_OUT && w.status == S_OK && w.disk.Valid()
    requires pos == Add64(req.offset, w.dataLen)
          || (d.len == 0 && pos <= |w.disk.data| && Add64(req.offset, w.dataLen) <= |w.disk.data|)
    ensures Movable(req.kind, ExtentOf(w.ram, w.disk), pos, d)
        ==> Segment(req, w, d) ==
            Some(w.(disk := w.disk.(data := Splice(w.disk.data, pos, w.ram.Read(d.addr, d.len).value)),
                                          dataLen := Add32(w.dataLen, d.len)))
    ensures !Movable(req.kind, ExtentOf(w.ram, w.disk), pos, d)
        ==> match Segment(req, w, d)
            case None => !d.DeviceWritable() && w.ram.Read(d.addr, d.len).None?
            case Some(w') =>
              && (d.DeviceWritable() || w.ram.Read(d.addr, d.len).Some?)
              && w'.ram == w.ram && w'.disk == w.disk && w'.status != S_OK
  {
    if d.len == 0 && pos <= |w.disk.data| && Add64(req.offset, w.dataLen) <= |w.disk.data| {
      assert Splice(w.disk.data, pos, []) == w.disk.data == Splice(w.disk.data, Add64(req.offset, w.dataLen), []);
    }
  }

  /** Moving a segment keeps the count in step for the rest. */
  lemma StaysInStep(req: Request, w: Work, w': Work, pos: nat, segs: seq<Desc>)
    requires segs != [] && InStep(req, w, pos, segs) && w.disk.Valid()
    requires pos + segs[0].len <= |w.disk.data| == |w'.disk.data| && w'.dataLen == Add32(w.dataLen, segs[0].len)
    ensures InStep(req, w', pos + segs[0].len, segs[1..])
  {
  }

  /**
   A write request lays its leading good segments, end to end, over the image at the
   sector's offset, and moves nothing from the first bad segment on. It is abandoned
   exactly when that segment cannot be read from guest memory.
   */
  lemma {:induction false} OutTransfer(req: Request, w: Work, segs: seq<Desc>, pos: nat)
    requires req.kind == T_OUT && w.status == S_OK && w.disk.Valid() && InStep(req, w, pos, segs)
    ensures Landed(req.kind, w.ram, w.disk, pos, segs, Transfer(req, w, segs).work.disk)
    ensures OutVerdict(req, w, segs, pos)
    decreases |segs|
  {
    hide Segment, Ram.Write;
    if segs != [] {
      OutSegment(req, w, segs[0], pos);
      if Movable(req.kind, ExtentOf(w.ram, w.disk), pos, segs[0]) {
        var w' := Segment(req, w, segs[0]).value;
        StaysInStep(req, w, w', pos, segs);
        hide InStep;
        OutTransfer(req, w', segs[1..], pos + segs[0].len);
        LandedCons(req.kind, w.ram, w.disk, pos, segs, Transfer(req, w, segs).work.disk);
        OutMovedVerdict(req, w, w', segs, pos);
      } else if Segment(req, w, segs[0]).Some? {
        BadStatusMovesNothing(req, Segment(req, w, segs[0]).value, segs[1..]);
      }
    }
  }

  lemma LandedCons(kind: u32, ram: Ram, disk: Disk, pos: nat, segs: seq<Desc>, out: Disk)
    requires segs != [] && Movable(kind, ExtentOf(ram, disk), pos, segs[0])
    requires var disk' := disk.(data := Splice(disk.data, pos, ram.Read(segs[0].addr, segs[0].len).value));
             Landed(kind, ram, disk', pos + segs[0].len, segs[1..], out)
    ensures Landed(kind, ram, disk, pos, segs, out)
  {
    hide Splice, Overlay, Total, Gather, Reachable, GoodPrefix;
    var data := ram.Read(segs[0].addr, segs[0].len).value;
    var disk' := disk.(data := Splice(disk.data, pos, data));
    GoodPrefixCons(kind, ram, disk, pos, segs);
    var k := GoodPrefix(kind, ExtentOf(ram, disk), pos, segs);
    var tail := segs[1..][..k - 1];
    assert out == disk'.(data := Overlay(disk'.data, pos + |data|, Gather(ram, tail)));
    OverlayTwice(disk.data, pos, data, Gather(ram, tail));
    assert out.data == Overlay(disk.data, pos, Gather(ram, segs[..k]));
  }

  lemma OutMovedVerdict(req: Request, w: Work, w': Work, segs: seq<Desc>, pos: nat)
    requires segs != [] && Movable(req.kind, ExtentOf(w.ram, w.disk), pos, segs[0])
    requires Transfer(req, w, segs) == Transfer(req, w', segs[1..]) && w'.ram == w.ram
    requires w'.disk.readonly == w.disk.readonly && |w'.disk.data| == |w.disk.data|
    requires OutVerdict(req, w', segs[1..], pos + segs[0].len)
    ensures OutVerdict(req, w, segs, pos)
  {
    hide Transfer, Segment, Movable, Ram.Read;
  }

  // ---- Beyond 4 GiB ----

  /** What the 32-bit count is once `moved` bytes have gone by: right, or behind by at least one round. */
  predicate Wraps(count: u32, moved: nat) {
    if moved < 0x1_0000_0000 then count == moved else count + 0x1_0000_0000 <= moved
  }

  lemma WrapsOn(count: u32, moved: nat, len: u32)
    requires Wraps(count, moved)
    ensures Wraps(Add32(count, len), moved + len)
  {
  }

  /** A good segment lands where the count says, at or before its place, and its request goes on. */
  lemma WrappedSegment(req: Request, w: Work, d: Desc, moved: nat)
    requires req.kind == T_OUT && w.status == S_OK && w.disk.Valid() && Wraps(w.dataLen, moved)
    requires Movable(T_OUT, ExtentOf(w.ram, w.disk), req.offset + moved, d)
    ensures Segment(req, w, d).Some?
    ensures var w' := Segment(req, w, d).value;
            && w'.ram == w.ram && w'.status == S_OK && w'.dataLen == Add32(w.dataLen, d.len)
            && ExtentOf(w'.ram, w'.disk) == ExtentOf(w.ram, w.disk)
            && (d.len == 0 ==> w'.disk == w.disk)
            && forall p :: 0 <= p < |w.disk.data| && req.offset + w.dataLen + d.len <= p ==>
                 w'.disk.data[p] == w.disk.data[p]
  {
    if d.len == 0 {
      assert Splice(w.disk.data, Add64(req.offset, w.dataLen), []) == w.disk.data;
    }
  }

  /**
   Nothing at or past the true end of the data is written; and the last byte is not, if the
   count wrapped before it.
   */
  lemma {:induction false} WrappedTransfer(req: Request, w: Work, segs: seq<Desc>, moved: nat)
    requires req.kind == T_OUT && w.status == S_OK && w.disk.Valid() && Wraps(w.dataLen, moved)
    requires GoodPrefix(T_OUT, ExtentOf(w.ram, w.disk), req.offset + moved, segs) == |segs|
    ensures var m := Transfer(req, w, segs);
            var end := req.offset + moved + Total(segs);
            && m.Finished? && m.work.status == S_OK && m.work.ram == w.ram
            && ExtentOf(m.work.ram, m.work.disk) == ExtentOf(w.ram, w.disk)
            && (Total(segs) == 0 ==> m.work.disk == w.disk)
            && (forall p :: end <= p < |w.disk.data| ==> m.work.disk.data[p] == w.disk.data[p])
            && (Total(segs) > 0 && moved + Ahead(segs) >= 0x1_0000_0000 ==>
                  end <= |w.disk.data| && m.work.disk.data[end - 1] == w.disk.data[end - 1])
    decreases |segs|
  {
    hide Segment, Movable;
    if segs != [] {
      var d, rest := segs[0], segs[1..];
      WrappedSegment(req, w, d, moved);
      var w' := Segment(req, w, d).value;
      WrapsOn(w.dataLen, moved, d.len);
      WrappedTransfer(req, w', rest, moved + d.len);
      assert req.offset + moved + d.len <= |w.disk.data| by {
        MovableFits(T_OUT, ExtentOf(w.ram, w.disk), req.offset + moved, d);
      }
    }
  }

  lemma MovableFits(kind: u32, e: Extent, pos: nat, d: Desc)
    requires Movable(kind, e, pos, d)
    ensures pos + d.len <= e.imageLen
  {
  }

  lemma OverlayTwice(s: seq<u8>, at: nat, a: seq<u8>, b: seq<u8>)
    requires at + |a| + |b| <= |s|
    ensures Overlay(Splice(s, at, a), at + |a|, b) == Overlay(s, at, a + b)
  {
    if a + b == [] {
      assert Splice(s, at, a) == s;
    }
  }

  // ---- Reads ----

  /** Consecutive pieces of `data` written into the segments in order. */
  function Scatter(ram: Ram, segs: seq<Desc>, data: seq<u8>): Ram
    requires |data| == Total(segs)
    decreases |segs|
  {
    if segs == [] then ram
    else match ram.Write(segs[0].addr, data[..segs[0].len])
      case None => ram
      case Some(r) => Scatter(r, segs[1..], data[segs[0].len..])
  }

  lemma {:induction false} ScatterFrame(ram: Ram, segs: seq<Desc>, data: seq<u8>, a: int, n: nat)
    requires |data| == Total(segs)
    requires forall d :: d in segs ==> Apart(d.addr, d.len, a, n)
    ensures ram.AgreesOn(Scatter(ram, segs, data), a, n)
    decreases |segs|
  {
    if segs != [] {
      match ram.Write(segs[0].addr, data[..segs[0].len])
      case None =>
      case Some(r) =>
        assert segs[0] in segs;
        ReadAfterWrite(ram, r, segs[0].addr, data[..segs[0].len]);
        ScatterFrame(r, segs[1..], data[segs[0].len..], a, n);
    }
  }

  ghost predicate PairwiseApart(segs: seq<Desc>) {
    forall i, j :: 0 <= i < j < |segs| ==> Apart(segs[i].addr, segs[i].len, segs[j].addr, segs[j].len)
  }

  /** What was written first is still there after the later segments, apart from it, are written. */
  lemma ScatterKeepsHead(ram: Ram, r: Ram, d: Desc, data: seq<u8>, segs: seq<Desc>, rest: seq<u8>)
    requires ram.Write(d.addr, data) == Some(r) && |data| == d.len && |rest| == Total(segs)
    requires PairwiseApart([d] + segs)
    ensures Scatter(r, segs, rest).Read(d.addr, d.len) == Some(data)
  {
    ReadAfterWrite(ram, r, d.addr, data);
    forall e | e in segs
      ensures Apart(e.addr, e.len, d.addr, d.len)
    {
      var j :| 0 <= j < |segs| && segs[j] == e;
      var all := [d] + segs;
      assert all[0] == d && all[j + 1] == e;
    }
    ScatterFrame(r, segs, rest, d.addr, d.len);
    ReadAgrees(r, Scatter(r, segs, rest), d.addr, d.len);
  }

  lemma WrittenHead(ram: Ram, segs: seq<Desc>, head: seq<u8>) returns (r: Ram)
    requires segs != [] && Reachable(ram, segs) && |head| == segs[0].len
    ensures ram.Write(segs[0].addr, head) == Some(r) && Reachable(r, segs[1..])
  {
    assert segs[0] in segs;
    r := ram.Write(segs[0].addr, head).value;
    ReadAfterWrite(ram, r, segs[0].addr, head);
  }

  /** Bytes scattered over separate segments are gathered from them again. */
  lemma {:induction false} GatherScatter(ram: Ram, segs: seq<Desc>, data: seq<u8>)
    requires |data| == Total(segs) && Reachable(ram, segs) && PairwiseApart(segs)
    ensures var r := Scatter(ram, segs, data);
            Reachable(r, segs) && Gather(r, segs) == data
    decreases |segs|
  {
    hide Ram.Read, Ram.Write;
    if segs != [] {
      var d, head, rest := segs[0], data[..segs[0].len], data[segs[0].len..];
      assert segs == [d] + segs[1..];
      var r := WrittenHead(ram, segs, head);
      GatherScatter(r, segs[1..], rest);
      ScatterKeepsHead(ram, r, d, head, segs[1..], rest);
      assert data == head + rest;
    }
  }

  /** Each segment filled from the image in turn, starting at `pos`. */
  function Fill(ram: Ram, image: seq<u8>, pos: nat, segs: seq<Desc>): Ram
    requires segs == [] || pos + Total(segs) <= |image|
    decreases |segs|
  {
    if segs == [] then ram
    else match ram.Write(segs[0].addr, image[pos..pos + segs[0].len])
      case None => ram
      case Some(r) => Fill(r, image, pos + segs[0].len, segs[1..])
  }

  lemma {:induction false} FillIsScatter(ram: Ram, image: seq<u8>, pos: nat, segs: seq<Desc>)
    requires pos + Total(segs) <= |image|
    ensures Fill(ram, image, pos, segs) == Scatter(ram, segs, image[pos..pos + Total(segs)])
    decreases |segs|
  {
    if segs != [] {
      var data := image[pos..pos + Total(segs)];
      assert data[..segs[0].len] == image[pos..pos + segs[0].len];
      assert data[segs[0].len..] == image[pos + segs[0].len..pos + segs[0].len + Total(segs[1..])];
      match ram.Write(segs[0].addr, data[..segs[0].len])
      case None =>
      case Some(r) => FillIsScatter(r, image, pos + segs[0].len, segs[1..]);
    }
  }

  /** `out` is guest memory with the good segments filled, end to end, from the image at `pos`. */
  ghost predicate Filled(ram: Ram, disk: Disk, pos: nat, segs: seq<Desc>, out: Ram) {
    var k := GoodPrefix(T_IN, ExtentOf(ram, disk), pos, segs);
    && (k > 0 ==> pos + Total(segs[..k]) <= |disk.data|)
    && out == Fill(ram, disk.data, pos, segs[..k])
  }

  /** A movable segment of a read request is filled from the image; any other only spoils the status. */
  lemma InSegment(req: Request, w: Work, d: Desc, pos: nat)
    requires req.kind == T_IN && w.status == S_OK && w.disk.Valid()
    requires pos == Add64(req.offset, w.dataLen)
          || (d.len == 0 && pos <= |w.disk.data| && Add64(req.offset, w.dataLen) <= |w.disk.data|)
    ensures Movable(T_IN, ExtentOf(w.ram, w.disk), pos, d)
        ==> && w.ram.Write(d.addr, w.disk.data[pos..pos + d.len]).Some?
            && Segment(req, w, d) == Some(w.(ram := w.ram.Write(d.addr, w.disk.data[pos..pos + d.len]).value,
                                             dataLen := Add32(w.dataLen, d.len)))
    ensures !Movable(T_IN, ExtentOf(w.ram, w.disk), pos, d)
        ==> && Segment(req, w, d).Some?
            && var w' := Segment(req, w, d).value;
               w'.ram == w.ram && w'.disk == w.disk && w'.status != S_OK
  {
    if d.len == 0 && pos <= |w.disk.data| && Add64(req.offset, w.dataLen) <= |w.disk.data| {
      assert w.disk.data[pos..pos] == [] == w.disk.data[Add64(req.offset, w.dataLen)..Add64(req.offset, w.dataLen)];
    }
  }

  lemma SameBounds(r: Ram, s: Ram, addr: u64, data: seq<u8>)
    requires r.Write(addr, data) == Some(s)
    ensures s.base == r.base && |s.bytes| == |r.bytes|
  {
  }

  lemma FilledNone(ram: Ram, disk: Disk, pos: nat, segs: seq<Desc>)
    requires GoodPrefix(T_IN, ExtentOf(ram, disk), pos, segs) == 0
    ensures Filled(ram, disk, pos, segs, ram)
  {
  }

  lemma FilledCons(ram: Ram, disk: Disk, pos: nat, segs: seq<Desc>, r: Ram, out: Ram)
    requires segs != [] && Movable(T_IN, ExtentOf(ram, disk), pos, segs[0])
    requires ram.Write(segs[0].addr, disk.data[pos..pos + segs[0].len]) == Some(r)
    requires Filled(r, disk, pos + segs[0].len, segs[1..], out)
    ensures Filled(ram, disk, pos, segs, out)
  {
    hide Ram.Write, Movable, Reachable, Total, Gather;
    MovableFits(T_IN, ExtentOf(ram, disk), pos, segs[0]);
    GoodPrefixFits(T_IN, ram, disk, pos, segs);
    SameBounds(ram, r, segs[0].addr, disk.data[pos..pos + segs[0].len]);
    var k := GoodPrefix(T_IN, ExtentOf(ram, disk), pos, segs);
    var tail := segs[1..][..k - 1];
    assert segs[..k] == [segs[0]] + tail && segs[..k][1..] == tail;
    assert out == Fill(r, disk.data, pos + segs[0].len, tail);
  }

  /**
   A read request fills its leading good segments from the image at the sector's offset,
   writes nothing from the first bad segment on, and never touches the image.
   */
  lemma {:induction false} InTransfer(req: Request, w: Work, segs: seq<Desc>, pos: nat)
    requires req.kind == T_IN && w.status == S_OK && w.disk.Valid() && InStep(req, w, pos, segs)
    ensures var m := Transfer(req, w, segs);
            && m.Finished? && m.work.disk == w.disk
            && (m.work.status == S_OK <==> GoodPrefix(T_IN, ExtentOf(w.ram, w.disk), pos, segs) == |segs|)
    ensures Filled(w.ram, w.disk, pos, segs, Transfer(req, w, segs).work.ram)
    decreases |segs|
  {
    hide Segment, Filled, Ram.Write, Movable;
    if segs == [] || !Movable(T_IN, ExtentOf(w.ram, w.disk), pos, segs[0]) {
      FilledNone(w.ram, w.disk, pos, segs);
    }
    if segs != [] {
      InSegment(req, w, segs[0], pos);
      var w' := Segment(req, w, segs[0]).value;
      if Movable(T_IN, ExtentOf(w.ram, w.disk), pos, segs[0]) {
        MovableFits(T_IN, ExtentOf(w.ram, w.disk), pos, segs[0]);
        StaysInStep(req, w, w', pos, segs);
        hide InStep;
        SameBounds(w.ram, w'.ram, segs[0].addr, w.disk.data[pos..pos + segs[0].len]);
        InTransfer(req, w', segs[1..], pos + segs[0].len);
        FilledCons(w.ram, w.disk, pos, segs, w'.ram, Transfer(req, w, segs).work.ram);
      } else {
        BadStatusMovesNothing(req, w', segs[1..]);
      }
    }
  }

  /** A read counts the bytes of every segment, good or bad, modulo 2^32. */
  lemma {:induction false} ReadsCountBytes(req: Request, w: Work, segs: seq<Desc>)
    requires req.kind == T_IN
    ensures Transfer(req, w, segs).Finished?
    ensures Transfer(req, w, segs).work.dataLen == (w.dataLen + Total(segs)) % 0x1_0000_0000
    decreases |segs|
  {
    hide Ram.Write;
    if segs != [] {
      ReadsCountBytes(req, Segment(req, w, segs[0]).value, segs[1..]);
    }
  }

  /** A good segment of a read is filled from where the count says, at or before its place. */
  lemma WrappedInSegment(req: Request, w: Work, d: Desc, moved: nat)
    requires req.kind == T_IN && w.status == S_OK && w.disk.Valid() && Wraps(w.dataLen, moved)
    requires Movable(T_IN, ExtentOf(w.ram, w.disk), req.offset + moved, d)
    ensures Segment(req, w, d).Some?
    ensures var w', c := Segment(req, w, d).value, req.offset + w.dataLen;
            && w'.disk == w.disk && w'.status == S_OK && w'.dataLen == Add32(w.dataLen, d.len)
            && ExtentOf(w'.ram, w'.disk) == ExtentOf(w.ram, w.disk)
            && (d.len == 0 ==> w'.ram == w.ram)
            && c + d.len <= |w.disk.data| && w'.ram.Read(d.addr, d.len) == Some(w.disk.data[c..c + d.len])
  {
    var c := req.offset + w.dataLen;
    assert w.disk.Read(c, d.len) == Some(w.disk.data[c..c + d.len]);
    var s := w.ram.Write(d.addr, w.disk.data[c..c + d.len]);
    ReadAfterWrite(w.ram, s.value, d.addr, w.disk.data[c..c + d.len]);
  }

  /**
   Once the count has wrapped before the last segment that is not empty, that segment's
   last byte comes from before its place, and does not show what the image holds there.
   */
  lemma {:induction false} WrappedInTransfer(req: Request, w: Work, segs: seq<Desc>, moved: nat)
    requires req.kind == T_IN && w.status == S_OK && w.disk.Valid() && Wraps(w.dataLen, moved)
    requires GoodPrefix(T_IN, ExtentOf(w.ram, w.disk), req.offset + moved, segs) == |segs|
    ensures var m := Transfer(req, w, segs);
            && m.Finished? && m.work.status == S_OK && m.work.disk == w.disk
            && ExtentOf(m.work.ram, m.work.disk) == ExtentOf(w.ram, w.disk)
            && (Total(segs) == 0 ==> m.work.ram == w.ram)
            && Reachable(m.work.ram, segs)
    ensures var m := Transfer(req, w, segs);
            Total(segs) > 0 && moved + Ahead(segs) >= 0x1_0000_0000
            && ZeroBefore(w.disk, req.offset + moved + Total(segs) - 1) ==>
              Gather(m.work.ram, segs)[Total(segs) - 1] == 0
    decreases |segs|
  {
    hide Segment, Movable;
    if segs != [] {
      var d, rest := segs[0], segs[1..];
      WrappedInSegment(req, w, d, moved);
      var w' := Segment(req, w, d).value;
      WrapsOn(w.dataLen, moved, d.len);
      WrappedInTransfer(req, w', rest, moved + d.len);
      SameReach(w'.ram, Transfer(req, w, segs).work.ram, d);
    }
  }

  ghost predicate ZeroBefore(disk: Disk, end: int) {
    forall p :: 0 <= p < |disk.data| && p < end ==> disk.data[p] == 0
  }

  lemma SameReach(r: Ram, s: Ram, d: Desc)
    requires r.base == s.base && |r.bytes| == |s.bytes| && r.Read(d.addr, d.len).Some?
    ensures s.Read(d.addr, d.len).Some? && |s.Read(d.addr, d.len).value| == d.len
  {
  }
}
