/**
 Bounced mappings: pages of the aperture standing in for a buffer the device cannot
 reach, and the copies that keep the two alike. A mapping that is used by the rules of
 DMA ownership shows each side what one shared buffer would.
 */
module BounceBuffer {
  import opened Words
  import opened GuestMemory
  import opened DmaPool

  const MAPPING_ERROR: u64 := 0xffff_ffff_ffff_ffff

  /** The aperture's bytes, from `base`, and system memory, from address zero. */
  datatype Mem = Mem(base: u64, pool: seq<u8>, ram: seq<u8>) {
    /** Both ranges of a copy exist; otherwise remapping the buffer fails and nothing is copied. */
    predicate Copyable(handle: u64, phys: u64, n: nat) {
      base <= handle && handle - base + n <= |pool| && phys + n <= |ram|
    }

    function PoolAt(handle: u64, n: nat): seq<u8>
      requires base <= handle && handle - base + n <= |pool|
    {
      pool[handle - base..handle - base + n]
    }

    function RamAt(phys: u64, n: nat): seq<u8>
      requires phys + n <= |ram|
    {
      ram[phys..phys + n]
    }
  }

  function CopyToPool(m: Mem, handle: u64, phys: u64, n: nat): Mem {
    if m.Copyable(handle, phys, n) then m.(pool := Splice(m.pool, handle - m.base, m.RamAt(phys, n))) else m
  }

  function CopyToRam(m: Mem, handle: u64, phys: u64, n: nat): Mem {
    if m.Copyable(handle, phys, n) then m.(ram := Splice(m.ram, phys, m.PoolAt(handle, n))) else m
  }

  function Min(a: nat, b: nat): nat {
    if a < b then a else b
  }

  function SyncForDevice(m: Mem, bounces: seq<Bounce>, handle: u64, size: u64, dir: Direction): Mem {
    if dir.FromDevice? then m
    else match FindBounce(bounces, handle)
      case None => m
      case Some(b) => CopyToPool(m, handle, b.phys, Min(size, b.size))
  }

  function SyncForCpu(m: Mem, bounces: seq<Bounce>, handle: u64, size: u64, dir: Direction): Mem {
    if dir.ToDevice? then m
    else match FindBounce(bounces, handle)
      case None => m
      case Some(b) => CopyToRam(m, handle, b.phys, Min(size, b.size))
  }

  /** What mapping leaves: the address handed out, the pool, and memory. */
  datatype Mapped = Mapped(handle: u64, pool: Pool, m: Mem)

  /** `dma_map_phys`; `recordOk` is whether a record for the bounce could be allocated. */
  function MapPhys(p: Pool, m: Mem, phys: u64, size: u64, dir: Direction, recordOk: bool): Mapped
    requires p.Placed()
  {
    if size == 0 then Mapped(MAPPING_ERROR, p, m)
    else if PassesThrough(p, phys, size) then Mapped(phys, p, m)
    else if !recordOk then Mapped(MAPPING_ERROR, p, m)
    else match Alloc(p, size)
      case None => Mapped(MAPPING_ERROR, p, m)
      case Some((handle, bits)) =>
        var taken := p.(bitmap := bits);
        if !dir.FromDevice? && !m.Copyable(handle, phys, size) then
          Mapped(MAPPING_ERROR, taken.(bitmap := Free(taken, handle, size)), m)
        else
          Mapped(handle, taken.(bounces := [Bounce(handle, phys, size)] + p.bounces),
                 if dir.FromDevice? then m else CopyToPool(m, handle, phys, size))
  }

  /** `dma_unmap_phys`. */
  function UnmapPhys(p: Pool, m: Mem, handle: u64, size: u64, dir: Direction): (Pool, Mem) {
    if !PassesThrough(p, handle, size) then (p, m)
    else match FindBounce(p.bounces, handle)
      case None => (p, m)
      case Some(b) =>
        var unlisted := p.(bounces := Delisted(p.bounces, handle));
        (unlisted.(bitmap := Free(unlisted, handle, b.size)),
         if dir.ToDevice? then m else CopyToRam(m, handle, b.phys, Min(size, b.size)))
  }

  // ---- One mapping against one shared buffer ----

  datatype Side = Cpu | Device

  /**
   Memory and the bounce list; whose turn it is; the reference, one buffer that both
   sides would share; and the offsets at which the two are claimed to agree.
   */
  datatype Use = Use(m: Mem, bounces: seq<Bounce>, side: Side, shared: seq<u8>, agreed: seq<bool>)

  datatype Event =
    | CpuWrites(at: nat, data: seq<u8>)
    | DeviceWrites(at: nat, data: seq<u8>)
    | ToCpu(size: u64)                              // sync for the CPU
    | ToDevice(size: u64)                           // sync for the device
    | Elsewhere(m: Mem, bounces: seq<Bounce>)       // anything that leaves this mapping alone

  /** The mapping `b` is listed, and its two ranges exist. */
  ghost predicate InPlace(u: Use, b: Bounce) {
    && FindBounce(u.bounces, b.handle) == Some(b)
    && u.m.Copyable(b.handle, b.phys, b.size) && |u.shared| == |u.agreed| == b.size
  }

  ghost predicate Next(u: Use, b: Bounce, dir: Direction, e: Event, v: Use) {
    match e
    case CpuWrites(at, data) =>
      && u.side == Cpu && at + |data| <= b.size && b.phys + at + |data| <= |u.m.ram|
          && at + |data| <= |u.shared| == |u.agreed|
      && v == u.(m := u.m.(ram := Splice(u.m.ram, b.phys + at, data)),
                 shared := Splice(u.shared, at, data),
                 agreed := if dir.FromDevice? then Marked(u.agreed, at, |data|, false) else u.agreed)
    case DeviceWrites(at, data) =>
      && u.side == Device && dir != Direction.ToDevice && u.m.base <= b.handle
      && at + |data| <= b.size && b.handle - u.m.base + at + |data| <= |u.m.pool|
          && at + |data| <= |u.shared| == |u.agreed|
      && v == u.(m := u.m.(pool := Splice(u.m.pool, b.handle - u.m.base + at, data)),
                 shared := Splice(u.shared, at, data),
                 agreed := Marked(u.agreed, at, |data|, true))
    case ToCpu(size) =>
      && u.side == Device && size >= b.size
      && v == u.(m := SyncForCpu(u.m, u.bounces, b.handle, size, dir), side := Cpu)
    case ToDevice(size) =>
      && u.side == Cpu && size >= b.size
      && v == u.(m := SyncForDevice(u.m, u.bounces, b.handle, size, dir), side := Device)
    case Elsewhere(m, bounces) =>
      && v == u.(m := m, bounces := bounces)
      && FindBounce(bounces, b.handle) == Some(b)
      && m.base == u.m.base && |m.pool| == |u.m.pool| && |m.ram| == |u.m.ram|
      && u.m.Copyable(b.handle, b.phys, b.size)
      && m.PoolAt(b.handle, b.size) == u.m.PoolAt(b.handle, b.size)
      && m.RamAt(b.phys, b.size) == u.m.RamAt(b.phys, b.size)
  }

  /** The two copies against the reference, at one offset. */
  ghost predicate AgreesAt(u: Use, b: Bounce, dir: Direction, i: nat)
    requires InPlace(u, b) && i < b.size
  {
    && (u.side == Device || dir.FromDevice? ==> u.m.pool[b.handle - u.m.base + i] == u.shared[i])
    && (u.side == Cpu || dir.ToDevice? ==> u.m.ram[b.phys + i] == u.shared[i])
  }

  ghost predicate Inv(u: Use, b: Bounce, dir: Direction) {
    && InPlace(u, b)
    && (forall i :: 0 <= i < b.size && u.agreed[i] ==> AgreesAt(u, b, dir, i))
    && (!dir.FromDevice? ==> forall i :: 0 <= i < b.size ==> u.agreed[i])
  }

  /** A bounced buffer, mapped: what the device may read is already there. */
  lemma MapBegins(p: Pool, m: Mem, phys: u64, size: u64, dir: Direction)
    requires p.Placed() && p.base == m.base && |m.pool| == PAGE * |p.bitmap| && phys + size <= |m.ram|
    requires !PassesThrough(p, phys, size) && MapPhys(p, m, phys, size, dir, true).handle != MAPPING_ERROR
    ensures var r := MapPhys(p, m, phys, size, dir, true);
            var b := Bounce(r.handle, phys, size);
            var agreed := seq(size, _ => !dir.FromDevice?);
            Inv(Use(r.m, r.pool.bounces, Device, m.RamAt(phys, size), agreed), b, dir)
  {
    var (handle, bits) := Alloc(p, size).value;
    var s := FirstFit(p.bitmap, PagesFor(size), 0).value;
    assert handle - m.base + size <= |m.pool|;
    hide Alloc, Free;
  }

  lemma CpuWritesInv(u: Use, b: Bounce, dir: Direction, at: nat, data: seq<u8>, v: Use)
    requires Inv(u, b, dir) && Next(u, b, dir, CpuWrites(at, data), v)
    ensures Inv(v, b, dir)
  {
    forall i | 0 <= i < b.size && v.agreed[i]
      ensures AgreesAt(v, b, dir, i)
    {
      assert AgreesAt(u, b, dir, i);
    }
  }

  lemma DeviceWritesInv(u: Use, b: Bounce, dir: Direction, at: nat, data: seq<u8>, v: Use)
    requires Inv(u, b, dir) && Next(u, b, dir, DeviceWrites(at, data), v)
    ensures Inv(v, b, dir)
  {
    forall i | 0 <= i < b.size && v.agreed[i]
      ensures AgreesAt(v, b, dir, i)
    {
      assert u.agreed[i] ==> AgreesAt(u, b, dir, i);
    }
  }

  lemma SyncInv(u: Use, b: Bounce, dir: Direction, e: Event, v: Use)
    requires Inv(u, b, dir) && Next(u, b, dir, e, v) && (e.ToCpu? || e.ToDevice?)
    ensures Inv(v, b, dir)
  {
    hide FindBounce, Splice;
    assert Min(e.size, b.size) == b.size;
    forall i | 0 <= i < b.size && v.agreed[i]
      ensures AgreesAt(v, b, dir, i)
    {
      assert AgreesAt(u, b, dir, i);
    }
  }

  lemma ElsewhereInv(u: Use, b: Bounce, dir: Direction, m: Mem, bounces: seq<Bounce>, v: Use)
    requires Inv(u, b, dir) && Next(u, b, dir, Elsewhere(m, bounces), v)
    ensures Inv(v, b, dir)
  {
    hide FindBounce;
    forall i | 0 <= i < b.size && v.agreed[i]
      ensures AgreesAt(v, b, dir, i)
    {
      assert AgreesAt(u, b, dir, i);
      assert m.PoolAt(b.handle, b.size)[i] == u.m.PoolAt(b.handle, b.size)[i];
      assert m.RamAt(b.phys, b.size)[i] == u.m.RamAt(b.phys, b.size)[i];
    }
  }

  // ---- Main results ----

  ghost predicate Run(b: Bounce, dir: Direction, states: seq<Use>, events: seq<Event>) {
    && |states| == |events| + 1 && Inv(states[0], b, dir)
    && forall i :: 0 <= i < |events| ==> Next(states[i], b, dir, events[i], states[i + 1])
  }

  lemma {:induction false} RunInv(b: Bounce, dir: Direction, states: seq<Use>, events: seq<Event>, i: nat)
    requires Run(b, dir, states, events) && i < |states|
    ensures Inv(states[i], b, dir)
  {
    if i > 0 {
      hide Inv, Next;
      RunInv(b, dir, states, events, i - 1);
      var u, v := states[i - 1], states[i];
      assert Next(u, b, dir, events[i - 1], v);
      match events[i - 1]
      case CpuWrites(at, data) => CpuWritesInv(u, b, dir, at, data, v);
      case DeviceWrites(at, data) => DeviceWritesInv(u, b, dir, at, data, v);
      case ToCpu(size) => SyncInv(u, b, dir, events[i - 1], v);
      case ToDevice(size) => SyncInv(u, b, dir, events[i - 1], v);
      case Elsewhere(m, bounces) => ElsewhereInv(u, b, dir, m, bounces, v);
    }
  }

  /** What the side whose turn it is reads from its copy. */
  function Seen(u: Use, b: Bounce): seq<u8>
    requires u.m.Copyable(b.handle, b.phys, b.size)
  {
    if u.side == Device then u.m.PoolAt(b.handle, b.size) else u.m.RamAt(b.phys, b.size)
  }

  /**
   Throughout any run of writes and full-size syncs in which each side writes only in
   its turn, the side whose turn it is reads from its copy what it would read from one
   shared buffer; for a mapping from the device, wherever the device's byte is the last.
   */
  lemma BounceIsTransparent(b: Bounce, dir: Direction, states: seq<Use>, events: seq<Event>, i: nat)
    requires Run(b, dir, states, events) && i < |states|
    ensures var u := states[i];
            && InPlace(u, b)
            && (!dir.FromDevice? ==> Seen(u, b) == u.shared)
            && forall k :: 0 <= k < b.size && u.agreed[k] ==> Seen(u, b)[k] == u.shared[k]
  {
    RunInv(b, dir, states, events, i);
    var u := states[i];
    forall k | 0 <= k < b.size && u.agreed[k]
      ensures Seen(u, b)[k] == u.shared[k]
    {
      assert AgreesAt(u, b, dir, k);
    }
  }

  /** The buffer after an unmap holds the reference wherever it was claimed. */
  ghost predicate Returned(u: Use, b: Bounce, m: Mem)
    requires InPlace(u, b)
  {
    && |m.ram| == |u.m.ram|
    && forall k :: 0 <= k < b.size && u.agreed[k] ==> m.ram[b.phys + k] == u.shared[k]
  }

  /** Nothing the CPU wrote since its last sync differs from what the bounce pages hold. */
  ghost predicate Clean(u: Use, b: Bounce)
    requires InPlace(u, b)
  {
    forall k :: 0 <= k < b.size && u.agreed[k] ==> u.m.pool[b.handle - u.m.base + k] == u.m.ram[b.phys + k]
  }

  /**
   Unmapping returns the shared buffer to the CPU and touches nothing else. From the
   device's turn it always does; from the CPU's turn, without a sync back, it does
   exactly when there is no copy or the CPU's copy is still clean.
   */
  lemma UnmapReturnsBuffer(u: Use, p: Pool, b: Bounce, dir: Direction)
    requires Inv(u, b, dir) && u.bounces == p.bounces && PassesThrough(p, b.handle, b.size)
    ensures var m := UnmapPhys(p, u.m, b.handle, b.size, dir).1;
            && (Returned(u, b, m) <==> u.side == Device || dir.ToDevice? || Clean(u, b))
            && m.pool == u.m.pool && |m.ram| == |u.m.ram|
            && forall a :: 0 <= a < |m.ram| && !(b.phys <= a < b.phys + b.size) ==> m.ram[a] == u.m.ram[a]
  {
    hide UnmapPhys, FindBounce;
    var m := UnmapPhys(p, u.m, b.handle, b.size, dir).1;
    UnmapTouchesBuffer(u, p, b, dir);
    forall k | 0 <= k < b.size && u.agreed[k]
      ensures AgreesAt(u, b, dir, k)
      ensures m.ram[b.phys + k] == u.shared[k]
         <==> u.side == Device || dir.ToDevice? || u.m.pool[b.handle - u.m.base + k] == u.m.ram[b.phys + k]
    {
      UnmappedByte(u, p, b, dir, k);
      assert AgreesAt(u, b, dir, k);
    }
  }

  lemma UnmapTouchesBuffer(u: Use, p: Pool, b: Bounce, dir: Direction)
    requires InPlace(u, b) && u.bounces == p.bounces && PassesThrough(p, b.handle, b.size)
    ensures var m := UnmapPhys(p, u.m, b.handle, b.size, dir).1;
            && m.pool == u.m.pool && |m.ram| == |u.m.ram|
            && forall a :: 0 <= a < |m.ram| && !(b.phys <= a < b.phys + b.size) ==> m.ram[a] == u.m.ram[a]
  {
    hide FindBounce, Free, Delisted, Splice;
  }

  /** Unmapping brings back the bounce page's byte unless the mapping was only to the device. */
  lemma UnmappedByte(u: Use, p: Pool, b: Bounce, dir: Direction, k: nat)
    requires InPlace(u, b) && u.bounces == p.bounces && PassesThrough(p, b.handle, b.size) && k < b.size
    ensures var m := UnmapPhys(p, u.m, b.handle, b.size, dir).1;
            && |m.ram| == |u.m.ram|
            && m.ram[b.phys + k] == if dir.ToDevice? then u.m.ram[b.phys + k] else u.m.pool[b.handle - u.m.base + k]
  {
    hide FindBounce, Free, Delisted, Splice;
    assert u.m.PoolAt(b.handle, b.size)[k] == u.m.pool[b.handle - u.m.base + k];
  }

  /** A byte the CPU writes in its turn is lost when it unmaps without syncing back. */
  lemma UnsyncedWriteIsLost()
    ensures exists u: Use, v: Use, p: Pool, b: Bounce ::
              && Inv(u, b, Bidirectional) && Next(u, b, Bidirectional, CpuWrites(0, [1]), v) && Inv(v, b, Bidirectional)
              && v.bounces == p.bounces && PassesThrough(p, b.handle, b.size)
              && !Returned(v, b, UnmapPhys(p, v.m, b.handle, b.size, Bidirectional).1)
  {
    var b := Bounce(4096, 0, 1);
    var pool := seq(PAGE, _ => 0);
    var u := Use(Mem(4096, pool, [0]), [b], Cpu, [0], [true]);
    var v := Use(Mem(4096, pool, Splice([0], 0, [1])), [b], Cpu, Splice([0], 0, [1]), [true]);
    var p := Pool(4096, [true], [b]);
    assert FindBounce([b], 4096) == Some(b);
    assert AgreesAt(u, b, Bidirectional, 0);
    assert Inv(u, b, Bidirectional);
    assert Next(u, b, Bidirectional, CpuWrites(0, [1]), v);
    CpuWritesInv(u, b, Bidirectional, 0, [1], v);
    assert v.m.pool[0] == 0 && v.m.ram[0] == 1;
    assert v.agreed[0] && !Clean(v, b);
    UnmapReturnsBuffer(v, p, b, Bidirectional);
  }

  // ---- Exactly what is copied ----

  /** `s` is `r` with `n` bytes from `data[from..]` at `at`. */
  ghost predicate Moved(r: seq<u8>, s: seq<u8>, at: int, data: seq<u8>, from: int, n: nat) {
    && |s| == |r| && 0 <= from && from + n <= |data|
    && forall i :: 0 <= i < |r| ==> s[i] == if at <= i < at + n then data[from + i - at] else r[i]
  }

  /** A sync for the device of part of a mapping moves that part to the pages, and nothing else. */
  lemma SyncForDeviceMovesPart(m: Mem, bounces: seq<Bounce>, b: Bounce, size: u64, dir: Direction)
    requires FindBounce(bounces, b.handle) == Some(b) && m.Copyable(b.handle, b.phys, b.size)
    ensures var n := if size < b.size then size else b.size;
            var r := SyncForDevice(m, bounces, b.handle, size, dir);
            && r.ram == m.ram && r.base == m.base
            && Moved(m.pool, r.pool, b.handle - m.base, m.ram, b.phys, if dir.FromDevice? then 0 else n)
  {
    hide FindBounce;
  }

  /** A sync for the CPU moves that part back to the buffer, and nothing else. */
  lemma SyncForCpuMovesPart(m: Mem, bounces: seq<Bounce>, b: Bounce, size: u64, dir: Direction)
    requires FindBounce(bounces, b.handle) == Some(b) && m.Copyable(b.handle, b.phys, b.size)
    ensures var n := if size < b.size then size else b.size;
            var r := SyncForCpu(m, bounces, b.handle, size, dir);
            && r.pool == m.pool && r.base == m.base
            && Moved(m.ram, r.ram, b.phys, m.pool, b.handle - m.base, if dir.ToDevice? then 0 else n)
  {
    hide FindBounce;
  }

  /** A bounced mapping fills its pages with the buffer unless only the device is to write. */
  lemma MapMovesBuffer(p: Pool, m: Mem, phys: u64, size: u64, dir: Direction)
    requires p.Placed() && p.base == m.base && |m.pool| == PAGE * |p.bitmap| && phys + size <= |m.ram|
    requires !PassesThrough(p, phys, size) && MapPhys(p, m, phys, size, dir, true).handle != MAPPING_ERROR
    ensures var r := MapPhys(p, m, phys, size, dir, true);
            && r.m.ram == m.ram && r.m.base == m.base
            && Moved(m.pool, r.m.pool, r.handle - m.base, m.ram, phys, if dir.FromDevice? then 0 else size)
  {
    var s := FirstFit(p.bitmap, PagesFor(size), 0).value;
    assert PAGE * s + size <= |m.pool|;
  }

  /** Unmapping part of a bounced buffer brings that part back unless only the CPU has written. */
  lemma UnmapMovesPart(p: Pool, m: Mem, b: Bounce, size: u64, dir: Direction)
    requires FindBounce(p.bounces, b.handle) == Some(b) && m.Copyable(b.handle, b.phys, b.size)
    requires PassesThrough(p, b.handle, size)
    ensures var n := if size < b.size then size else b.size;
            var r := UnmapPhys(p, m, b.handle, size, dir).1;
            && r.pool == m.pool && r.base == m.base
            && Moved(m.ram, r.ram, b.phys, m.pool, b.handle - m.base, if dir.ToDevice? then 0 else n)
  {
    hide FindBounce, Free, Delisted;
  }

  /** A mapping that fails, for whatever reason and at whatever point, leaves pool and memory as they were. */
  lemma FailedMapLeavesNothing(p: Pool, m: Mem, phys: u64, size: u64, dir: Direction, recordOk: bool)
    requires p.Placed() && MapPhys(p, m, phys, size, dir, recordOk).handle == MAPPING_ERROR
    ensures var r := MapPhys(p, m, phys, size, dir, recordOk);
            r.pool == p && r.m == m
  {
    if size != 0 && !PassesThrough(p, phys, size) && recordOk && Alloc(p, size).Some? {
      var s := FirstFit(p.bitmap, PagesFor(size), 0).value;
      var (handle, bits) := Alloc(p, size).value;
      assert (handle - p.base) / PAGE == s;
      assert Free(p.(bitmap := bits), handle, size) == p.bitmap;
    }
  }

  // ---- In place ----

  /** The DMA operations of one device over its pool: aperture bytes and system memory change in place. */
  class AxiMmio {
    const pool: PoolMemory
    const bytes: array<u8>
    const ram: array<u8>

    constructor (pool: PoolMemory, bytes: array<u8>, ram: array<u8>)
      ensures this.pool == pool && this.bytes == bytes && this.ram == ram
    {
      this.pool, this.bytes, this.ram := pool, bytes, ram;
    }

    ghost function Value(): Mem
      reads bytes, ram
    {
      Mem(pool.base, bytes[..], ram[..])
    }

    method CopyPhysToPool(handle: u64, phys: u64, n: nat) returns (ok: bool)
      requires bytes != ram
      modifies bytes
      ensures ok == old(Value()).Copyable(handle, phys, n)
      ensures Value() == CopyToPool(old(Value()), handle, phys, n)
    {
      if handle < pool.base || handle - pool.base + n > bytes.Length || phys + n > ram.Length {
        return false;
      }
      var at := handle - pool.base;
      forall i | 0 <= i < n {
        bytes[at + i] := ram[phys + i];
      }
      assert bytes[..] == Splice(old(bytes[..]), at, ram[phys..phys + n]);
      ok := true;
    }

    method CopyPoolToPhys(handle: u64, phys: u64, n: nat) returns (ok: bool)
      requires bytes != ram
      modifies ram
      ensures ok == old(Value()).Copyable(handle, phys, n)
      ensures Value() == CopyToRam(old(Value()), handle, phys, n)
    {
      if handle < pool.base || handle - pool.base + n > bytes.Length || phys + n > ram.Length {
        return false;
      }
      var at := handle - pool.base;
      forall i | 0 <= i < n {
        ram[phys + i] := bytes[at + i];
      }
      assert ram[..] == Splice(old(ram[..]), phys, bytes[at..at + n]);
      ok := true;
    }

    method DmaSyncForDevice(handle: u64, size: u64, dir: Direction)
      requires bytes != ram
      modifies bytes
      ensures Value() == SyncForDevice(old(Value()), pool.bounces, handle, size, dir)
    {
      if dir.FromDevice? {
        return;
      }
      var bounce := pool.BounceFind(handle);
      if bounce.Some? {
        var ok := CopyPhysToPool(handle, bounce.value.phys, Min(size, bounce.value.size));
      }
    }

    method DmaSyncForCpu(handle: u64, size: u64, dir: Direction)
      requires bytes != ram
      modifies ram
      ensures Value() == SyncForCpu(old(Value()), pool.bounces, handle, size, dir)
    {
      if dir.ToDevice? {
        return;
      }
      var bounce := pool.BounceFind(handle);
      if bounce.Some? {
        var ok := CopyPoolToPhys(handle, bounce.value.phys, Min(size, bounce.value.size));
      }
    }

    method DmaMapPhys(phys: u64, size: u64, dir: Direction, recordOk: bool) returns (handle: u64)
      requires bytes != ram && pool.Value().Placed()
      modifies pool`bounces, pool.bitmap, bytes
      ensures Mapped(handle, pool.Value(), Value()) ==
          MapPhys(old(pool.Value()), old(Value()), phys, size, dir, recordOk)
    {
      hide Alloc, Free;
      if size == 0 {
        return MAPPING_ERROR;
      }
      var whole := PAGE * pool.bitmap.Length;
      if phys >= pool.base && size <= whole && phys - pool.base <= whole - size {
        return phys;
      }
      if !recordOk {
        return MAPPING_ERROR;
      }
      var taken := pool.PoolAlloc(size);
      if taken.None? {
        return MAPPING_ERROR;
      }
      handle := taken.value;
      if !dir.FromDevice? {
        var copied := CopyPhysToPool(handle, phys, size);
        if !copied {
          pool.PoolFree(handle, size);
          return MAPPING_ERROR;
        }
      }
      pool.ListBounce(Bounce(handle, phys, size));
    }

    method DmaUnmapPhys(handle: u64, size: u64, dir: Direction)
      requires bytes != ram
      modifies pool`bounces, pool.bitmap, ram
      ensures (pool.Value(), Value()) == UnmapPhys(old(pool.Value()), old(Value()), handle, size, dir)
    {
      hide Free;
      var bounce := pool.TakeBounce(handle, size);
      if bounce.None? {
        NothingDelisted(old(pool.bounces), handle);
        return;
      }
      if !dir.ToDevice? {
        var ok := CopyPoolToPhys(handle, bounce.value.phys, Min(size, bounce.value.size));
      }
      pool.PoolFree(handle, bounce.value.size);
    }
  }
}
