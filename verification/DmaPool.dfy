/** The restricted DMA aperture: a page bitmap allocated first fit, and the list of bounced mappings. */
module DmaPool {
  import opened Words

  const PAGE := 4096

  datatype Direction = ToDevice | FromDevice | Bidirectional

  /** A bounced mapping: the pages at `handle` stand in for `size` bytes at `phys`. */
  datatype Bounce = Bounce(handle: u64, phys: u64, size: u64)

  datatype Pool = Pool(base: u64, bitmap: seq<bool>, bounces: seq<Bounce>) {
    /** The probe admits page-aligned apertures only, and an aperture is addressable to its end. */
    predicate Placed() {
      base % PAGE == 0 && base + PAGE * |bitmap| <= 0x1_0000_0000_0000_0000
    }
  }

  /** `PAGE_ALIGN(size) >> PAGE_SHIFT`; an aligned size past the word wraps to no pages at all. */
  function PagesFor(size: u64): (n: nat)
    ensures n > 0 ==> size <= n * PAGE < size + PAGE
    ensures n == 0 <==> size == 0 || size > 0x1_0000_0000_0000_0000 - PAGE
  {
    Add64(size, PAGE - 1) / PAGE
  }

  /** Pages `[s, s + n)` exist and are clear. */
  predicate Clear(bitmap: seq<bool>, s: nat, n: nat) {
    s + n <= |bitmap| && forall i :: s <= i < s + n ==> !bitmap[i]
  }

  function Marked(bitmap: seq<bool>, s: nat, n: nat, v: bool): (r: seq<bool>)
    requires s + n <= |bitmap|
    ensures |r| == |bitmap|
    ensures forall i :: 0 <= i < |bitmap| ==> r[i] == if s <= i < s + n then v else bitmap[i]
  {
    seq(|bitmap|, i requires 0 <= i < |bitmap| => if s <= i < s + n then v else bitmap[i])
  }

  /** The lowest clear area at or after `from`. */
  function FirstFit(bitmap: seq<bool>, n: nat, from: nat): (r: Option<nat>)
    ensures r.Some? ==> from <= r.value && Clear(bitmap, r.value, n)
    ensures forall s :: from <= s < (if r.Some? then r.value else |bitmap| + 1) ==> !Clear(bitmap, s, n)
    decreases |bitmap| - from
  {
    if from + n > |bitmap| then None
    else if Clear(bitmap, from, n) then Some(from)
    else FirstFit(bitmap, n, from + 1)
  }

  /** A page-aligned handle and the bitmap with its pages taken. */
  function Alloc(p: Pool, size: u64): (r: Option<(u64, seq<bool>)>)
    requires p.Placed()
  {
    var n := PagesFor(size);
    if n == 0 then None
    else match FirstFit(p.bitmap, n, 0)
      case None => None
      case Some(s) => Some((p.base + s * PAGE, Marked(p.bitmap, s, n, true)))
  }

  /** The bitmap after a free; a range that is not wholly inside the aperture frees nothing. */
  function Free(p: Pool, handle: u64, size: u64): (r: seq<bool>)
    ensures |r| == |p.bitmap|
  {
    var n := PagesFor(size);
    if handle < p.base || n == 0 then p.bitmap
    else
      var s := (handle - p.base) / PAGE;
      if s + n > |p.bitmap| then p.bitmap else Marked(p.bitmap, s, n, false)
  }

  function FindBounce(bounces: seq<Bounce>, handle: u64): (r: Option<Bounce>)
    ensures r.Some? ==> r.value in bounces && r.value.handle == handle
    ensures r.None? ==> forall b :: b in bounces ==> b.handle != handle
  {
    if bounces == [] then None
    else if bounces[0].handle == handle then Some(bounces[0])
    else FindBounce(bounces[1..], handle)
  }

  /** The list without the first bounce for `handle`. */
  function Delisted(bounces: seq<Bounce>, handle: u64): seq<Bounce> {
    if bounces == [] then []
    else if bounces[0].handle == handle then bounces[1..]
    else [bounces[0]] + Delisted(bounces[1..], handle)
  }

  /** `dma_map_phys` hands an address wholly inside the aperture straight through. */
  predicate PassesThrough(p: Pool, phys: u64, size: u64) {
    var bytes := PAGE * |p.bitmap|;
    phys >= p.base && size <= bytes && phys - p.base <= bytes - size
  }

  /** The aperture with its bitmap in place. */
  class PoolMemory {
    const base: u64
    const bitmap: array<bool>
    var bounces: seq<Bounce>

    constructor (base: u64, pages: nat)
      ensures Value() == Pool(base, seq(pages, _ => false), []) && fresh(bitmap)
    {
      this.base := base;
      bitmap := new bool[pages](_ => false);
      bounces := [];
    }

    ghost function Value(): Pool
      reads this, bitmap
    {
      Pool(base, bitmap[..], bounces)
    }

    /** The kernel's search: skip to a clear page, look for a set one before the area's end, go past it. */
    method FindZeroArea(n: nat) returns (r: Option<nat>)
      ensures r == FirstFit(bitmap[..], n, 0)
    {
      var start := 0;
      while true
        invariant 0 <= start
        invariant FirstFit(bitmap[..], n, start) == FirstFit(bitmap[..], n, 0)
        decreases bitmap.Length - start
      {
        if start + n > bitmap.Length {
          return None;
        }
        var i := start;
        while i < start + n && !bitmap[i]
          invariant start <= i <= start + n
          invariant forall k :: start <= k < i ==> !bitmap[k]
        {
          i := i + 1;
        }
        if i == start + n {
          return Some(start);
        }
        SkipPast(bitmap[..], n, start, i);
        start := i + 1;
      }
    }

    method PoolAlloc(size: u64) returns (r: Option<u64>)
      requires Value().Placed()
      modifies bitmap
      ensures match Alloc(old(Value()), size)
              case None => r == None && Value() == old(Value())
              case Some((handle, bits)) => r == Some(handle) && Value() == old(Value()).(bitmap := bits)
    {
      var n := PagesFor(size);
      if n == 0 {
        return None;
      }
      var s := FindZeroArea(n);
      if s.None? {
        return None;
      }
      forall i | s.value <= i < s.value + n {
        bitmap[i] := true;
      }
      assert bitmap[..] == Marked(old(bitmap[..]), s.value, n, true);
      r := Some(base + s.value * PAGE);
    }

    method PoolFree(handle: u64, size: u64)
      modifies bitmap
      ensures Value() == old(Value()).(bitmap := Free(old(Value()), handle, size))
    {
      var n := PagesFor(size);
      if handle < base || n == 0 {
        return;
      }
      var s := (handle - base) / PAGE;
      if s + n > bitmap.Length {
        return;
      }
      forall i | s <= i < s + n {
        bitmap[i] := false;
      }
      assert bitmap[..] == Marked(old(bitmap[..]), s, n, false);
    }

    /** `axi_mmio_bounce_find_locked`: the list is walked from its head. */
    method BounceFind(handle: u64) returns (r: Option<Bounce>)
      ensures r == FindBounce(bounces, handle)
    {
      var i := 0;
      while i < |bounces|
        invariant 0 <= i <= |bounces|
        invariant FindBounce(bounces[i..], handle) == FindBounce(bounces, handle)
      {
        if bounces[i].handle == handle {
          return Some(bounces[i]);
        }
        i := i + 1;
      }
      r := None;
    }

    /** The locked part of `dma_map_phys`: the new bounce goes to the head of the list. */
    method ListBounce(b: Bounce)
      modifies this`bounces
      ensures bounces == [b] + old(bounces)
    {
      bounces := [b] + bounces;
    }

    /** The locked part of `dma_unmap_phys`, after its range check. */
    method TakeBounce(handle: u64, size: u64) returns (r: Option<Bounce>)
      modifies this`bounces
      ensures var p := old(Value());
              if PassesThrough(p, handle, size)
              then r == FindBounce(p.bounces, handle) && bounces == Delisted(p.bounces, handle)
              else r == None && bounces == p.bounces
    {
      var bytes := PAGE * bitmap.Length;
      if handle < base || size > bytes || handle - base > bytes - size {
        return None;
      }
      r := BounceFind(handle);
      var i := 0;
      while i < |bounces| && bounces[i].handle != handle
        invariant 0 <= i <= |bounces|
        invariant forall k :: 0 <= k < i ==> bounces[k].handle != handle
      {
        i := i + 1;
      }
      DelistedAt(bounces, handle, i);
      if i < |bounces| {
        bounces := bounces[..i] + bounces[i + 1..];
      }
    }
  }

  /** No area that covers a set page is clear, so the search may start after that page. */
  lemma {:induction false} SkipPast(bitmap: seq<bool>, n: nat, start: nat, set_: nat)
    requires start <= set_ < start + n <= |bitmap| && bitmap[set_]
    ensures FirstFit(bitmap, n, start) == FirstFit(bitmap, n, set_ + 1)
    decreases set_ - start
  {
    if start < set_ {
      if start + 1 + n <= |bitmap| {
        SkipPast(bitmap, n, start + 1, set_);
      }
    }
  }

  lemma {:induction false} DelistedAt(bounces: seq<Bounce>, handle: u64, i: nat)
    requires i <= |bounces| && forall k :: 0 <= k < i ==> bounces[k].handle != handle
    requires i < |bounces| ==> bounces[i].handle == handle
    ensures Delisted(bounces, handle) == if i < |bounces| then bounces[..i] + bounces[i + 1..] else bounces
  {
    if i > 0 {
      var rest := bounces[1..];
      DelistedAt(rest, handle, i - 1);
      assert Delisted(bounces, handle) == [bounces[0]] + Delisted(rest, handle);
      assert bounces == [bounces[0]] + rest;
      if i < |bounces| {
        assert [bounces[0]] + rest[..i - 1] == bounces[..i];
      }
    }
  }

  lemma {:induction false} NothingDelisted(bounces: seq<Bounce>, handle: u64)
    ensures FindBounce(bounces, handle).None? ==> Delisted(bounces, handle) == bounces
  {
    if bounces != [] {
      NothingDelisted(bounces[1..], handle);
    }
  }
}
