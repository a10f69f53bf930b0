/**
 Mapping and unmapping as a whole: the pages a bounce takes, what gives them back, and
 both as steps of the ownership protocol.
 */
module BounceSteps {
  import opened Words
  import opened DmaPool
  import opened BounceBuffer
  import opened PoolOwnership

  /** The whole pages that hold `size` bytes at `handle`. */
  ghost predicate Taken(p: Pool, handle: u64, size: u64, first: nat, n: nat) {
    && handle == p.base + 4096 * first && size <= 4096 * n < size + 4096
    && first + n <= |p.bitmap|
  }

  /** There is room for `n` pages in a row. */
  ghost predicate HasRoom(bitmap: seq<bool>, n: nat) {
    exists s: nat :: Clear(bitmap, s, n)
  }

  /**
   A buffer inside the aperture is handed through: its own address, nothing taken and
   nothing copied. Any other gets an address only by taking pages.
   */
  lemma InsideIsHandedThrough(p: Pool, m: Mem, phys: u64, size: u64, dir: Direction, recordOk: bool)
    requires p.Placed() && size != 0
    ensures var r := MapPhys(p, m, phys, size, dir, recordOk);
            if p.base <= phys && phys + size <= p.base + 4096 * |p.bitmap|
            then r == Mapped(phys, p, m)
            else r.handle != MAPPING_ERROR ==> r.pool.bitmap != p.bitmap && r.pool.bounces != p.bounces
  {
    var r := MapPhys(p, m, phys, size, dir, recordOk);
    if !PassesThrough(p, phys, size) && r.handle != MAPPING_ERROR {
      var first, n := BounceTakesLowestPages(p, m, phys, size, dir);
      assert r.pool.bitmap[first] && !p.bitmap[first];
      assert |r.pool.bounces| == |p.bounces| + 1;
    }
  }

  /**
   A bounced mapping takes the lowest run of clear pages that holds the buffer, marks
   exactly those and puts its record at the head of the list.
   */
  lemma BounceTakesLowestPages(p: Pool, m: Mem, phys: u64, size: u64, dir: Direction) returns (first: nat, n: nat)
    requires p.Placed() && !PassesThrough(p, phys, size)
    requires MapPhys(p, m, phys, size, dir, true).handle != MAPPING_ERROR
    ensures var r := MapPhys(p, m, phys, size, dir, true);
            && Taken(p, r.handle, size, first, n) && n > 0
            && Clear(p.bitmap, first, n) && (forall s :: 0 <= s < first ==> !Clear(p.bitmap, s, n))
            && |r.pool.bitmap| == |p.bitmap|
            && (forall page :: 0 <= page < |p.bitmap| ==>
                  r.pool.bitmap[page] == (p.bitmap[page] || first <= page < first + n))
            && r.pool.base == p.base && r.pool.bounces == [Bounce(r.handle, phys, size)] + p.bounces
            && PassesThrough(r.pool, r.handle, size)
  {
    n := PagesFor(size);
    first := FirstFit(p.bitmap, n, 0).value;
  }

  /** Such a mapping fails exactly when there is no record, no room, or no buffer to copy from. */
  lemma BounceFailsWhen(p: Pool, m: Mem, phys: u64, size: u64, dir: Direction, recordOk: bool)
    requires p.Placed() && !PassesThrough(p, phys, size)
    requires p.base == m.base && |m.pool| == PAGE * |p.bitmap|
    ensures MapPhys(p, m, phys, size, dir, recordOk).handle == MAPPING_ERROR <==>
            || !recordOk || size == 0 || size > 0x1_0000_0000_0000_0000 - 4096
            || !HasRoom(p.bitmap, (size + 4095) / 4096)
            || (dir != FromDevice && phys + size > |m.ram|)
  {
    var n := PagesFor(size);
    if n > 0 {
      assert n == (size + 4095) / 4096;
      var f := FirstFit(p.bitmap, n, 0);
      if f.None? {
        forall s: nat
          ensures !Clear(p.bitmap, s, n)
        {
          if s > |p.bitmap| {
            assert s + n > |p.bitmap|;
          }
        }
      } else {
        assert Clear(p.bitmap, f.value, n);
        assert p.base + f.value * PAGE - m.base + size <= |m.pool|;
      }
    }
  }

  lemma FreedIsAsBefore(p: Pool, size: u64)
    requires p.Placed() && Alloc(p, size).Some?
    ensures var (handle, bits) := Alloc(p, size).value;
            forall list :: Free(Pool(p.base, bits, list), handle, size) == p.bitmap
  {
    var s := FirstFit(p.bitmap, PagesFor(size), 0).value;
    var (handle, bits) := Alloc(p, size).value;
    assert (handle - p.base) / PAGE == s;
    forall list
      ensures Free(Pool(p.base, bits, list), handle, size) == p.bitmap
    {
      var r := Free(Pool(p.base, bits, list), handle, size);
      assert forall i :: 0 <= i < |p.bitmap| ==> r[i] == p.bitmap[i];
    }
  }

  /**
   Unmapping gives back what mapping took: the pool is the one before, bitmap and list,
   whatever became of memory meanwhile and however little of the buffer is copied back.
   */
  lemma UnmapUndoesMap(p: Pool, m: Mem, phys: u64, size: u64, dir: Direction, m': Mem, part: u64, dir': Direction)
    requires p.Placed() && !PassesThrough(p, phys, size) && part <= size
    requires MapPhys(p, m, phys, size, dir, true).handle != MAPPING_ERROR
    ensures var r := MapPhys(p, m, phys, size, dir, true);
            UnmapPhys(r.pool, m', r.handle, part, dir').0 == p
  {
    hide Alloc, Free, CopyToPool, CopyToRam;
    var r := MapPhys(p, m, phys, size, dir, true);
    var first, n := BounceTakesLowestPages(p, m, phys, size, dir);
    FreedIsAsBefore(p, size);
    assert r.pool.bounces[1..] == p.bounces;
    assert FindBounce(r.pool.bounces, r.handle) == Some(Bounce(r.handle, phys, size));
    assert Delisted(r.pool.bounces, r.handle) == p.bounces;
  }

  // ---- As steps of the ownership protocol ----

  /** A bounced mapping is an allocation by a new owner and then its listing. */
  lemma MapIsTakeThenList(s: State, id: nat, m: Mem, phys: u64, size: u64, dir: Direction)
      returns (t: State, u: State)
    requires s.pool.Placed() && id !in s.owners && !PassesThrough(s.pool, phys, size)
    requires MapPhys(s.pool, m, phys, size, dir, true).handle != MAPPING_ERROR
    ensures var r := MapPhys(s.pool, m, phys, size, dir, true);
            && PoolOwnership.Next(s, Take(id, Mapping, size, phys), t) && PoolOwnership.Next(t, List(id), u)
            && u == State(r.pool, s.owners[id := Owner(Listed, r.handle, size, phys)])
  {
    var (handle, bits) := Alloc(s.pool, size).value;
    var o := Owner(Mapping, handle, size, phys);
    t := State(s.pool.(bitmap := bits), s.owners[id := o]);
    u := State(t.pool.(bounces := [Bounce(handle, phys, size)] + t.pool.bounces), t.owners[id := o.(kind := Listed)]);
    AllocInside(s.pool, size, o, t.pool);
    hide Alloc;
    assert u.owners == s.owners[id := o.(kind := Listed)];
  }

  /** A mapping whose copy fails is an allocation and its release, which leaves the pool as it was. */
  lemma FailedCopyIsTakeThenRelease(s: State, id: nat, m: Mem, phys: u64, size: u64, dir: Direction)
      returns (t: State)
    requires s.pool.Placed() && id !in s.owners && !PassesThrough(s.pool, phys, size) && size != 0
    requires Alloc(s.pool, size).Some? && MapPhys(s.pool, m, phys, size, dir, true).handle == MAPPING_ERROR
    ensures PoolOwnership.Next(s, Take(id, Mapping, size, phys), t) && PoolOwnership.Next(t, Release(id), s)
    ensures MapPhys(s.pool, m, phys, size, dir, true) == Mapped(MAPPING_ERROR, s.pool, m)
  {
    var (handle, bits) := Alloc(s.pool, size).value;
    var o := Owner(Mapping, handle, size, phys);
    t := State(s.pool.(bitmap := bits), s.owners[id := o]);
    AllocInside(s.pool, size, o, t.pool);
    FreedIsAsBefore(s.pool, size);
    FailedMapLeavesNothing(s.pool, m, phys, size, dir, true);
    hide Alloc, Free;
    assert t.owners - {id} == s.owners;
  }

  /**
   Unmapping a listed handle is its unlisting and then its release: exactly the owner's
   pages are cleared, and no other record leaves the list.
   */
  lemma UnmapIsUnlistThenRelease(s: State, id: nat, m: Mem, size: u64, dir: Direction) returns (t: State, u: State)
    requires PoolOwnership.Inv(s) && id in s.owners && s.owners[id].kind == Listed
    requires PassesThrough(s.pool, s.owners[id].handle, size)
    ensures PoolOwnership.Next(s, Unlist(id), t) && PoolOwnership.Next(t, Release(id), u)
    ensures var o, r := s.owners[id], UnmapPhys(s.pool, m, s.owners[id].handle, size, dir).0;
            && u == State(r, s.owners - {id})
            && |r.bitmap| == |s.pool.bitmap|
            && (forall page :: 0 <= page < |r.bitmap| ==>
                  (r.bitmap[page] <==> s.pool.bitmap[page] && !Holds(s.pool, o, page)))
            && (forall b :: b in r.bounces <==> b in s.pool.bounces && b.handle != o.handle)
  {
    hide Free, Exclusive, Accounted, CopyToRam, Delisted, FindBounce, PassesThrough, OnList;
    var o := s.owners[id];
    var unlisted := s.pool.(bounces := Delisted(s.pool.bounces, o.handle));
    t := State(unlisted, s.owners[id := o.(kind := Unmapping)]);
    var freed := unlisted.(bitmap := Free(unlisted, o.handle, o.size));
    u := State(freed, t.owners - {id});
    UnmapFindsItsBounce(s, id);
    DelistedHas(s.pool.bounces, o.handle);
    FreeInside(unlisted, o, freed);
    assert u.owners == s.owners - {id};
  }
}
