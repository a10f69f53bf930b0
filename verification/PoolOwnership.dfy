/**
 Page ownership in the aperture over every interleaving: each lock-protected region is
 one step, and an allocation in flight between two regions is an owner like any other.
 */
module PoolOwnership {
  import opened Words
  import opened DmaPool

  /** How pages are held: coherent memory, a mapping being made, in use or being unmade, a mapped segment. */
  datatype Kind = Coherent | Mapping | Listed | Unmapping | SgEntry

  datatype Owner = Owner(kind: Kind, handle: u64, size: u64, phys: u64)

  datatype State = State(pool: Pool, owners: map<nat, Owner>)

  function FirstPage(p: Pool, o: Owner): int {
    (o.handle - p.base) / PAGE
  }

  predicate Holds(p: Pool, o: Owner, page: int) {
    FirstPage(p, o) <= page < FirstPage(p, o) + PagesFor(o.size)
  }

  // ---- Steps ----

  datatype Event =
    | Take(id: nat, kind: Kind, size: u64, phys: u64)   // `pool_alloc` on behalf of a new owner
    | List(id: nat)                                     // `map_phys` puts its bounce on the list
    | Unlist(id: nat)                                   // `unmap_phys` takes a bounce off the list
    | UnmapOther(handle: u64, size: u64)                // `unmap_phys` of an address that is no bounce
    | Release(id: nat)                                  // `pool_free` by the owner

  ghost predicate Next(s: State, e: Event, t: State) {
    s.pool.Placed() &&
    match e
    case Take(id, kind, size, phys) =>
      && id !in s.owners && kind != Listed && kind != Unmapping
      && (match Alloc(s.pool, size)
          case None => t == s
          case Some((handle, bits)) =>
            t == State(s.pool.(bitmap := bits), s.owners[id := Owner(kind, handle, size, phys)]))
    case List(id) =>
      && id in s.owners && s.owners[id].kind == Mapping
      && var o := s.owners[id];
         t == State(s.pool.(bounces := [Bounce(o.handle, o.phys, o.size)] + s.pool.bounces),
                    s.owners[id := o.(kind := Listed)])
    case Unlist(id) =>
      && id in s.owners && s.owners[id].kind == Listed
      && var o := s.owners[id];
         t == State(s.pool.(bounces := Delisted(s.pool.bounces, o.handle)), s.owners[id := o.(kind := Unmapping)])
    case UnmapOther(handle, size) =>
      && FindBounce(s.pool.bounces, handle) == None
      && t == s.(pool := s.pool.(bounces := Delisted(s.pool.bounces, handle)))
    case Release(id) =>
      && id in s.owners && s.owners[id].kind != Listed
      && var o := s.owners[id];
         t == State(s.pool.(bitmap := Free(s.pool, o.handle, o.size)), s.owners - {id})
  }

  // ---- Invariant ----

  /** A handle names whole pages inside the aperture. */
  ghost predicate Inside(p: Pool, o: Owner) {
    && p.base <= o.handle && (o.handle - p.base) % PAGE == 0 && PagesFor(o.size) > 0
    && FirstPage(p, o) + PagesFor(o.size) <= |p.bitmap|
  }

  ghost predicate Exclusive(s: State) {
    forall id, other, page ::
      id in s.owners && other in s.owners && id != other && Holds(s.pool, s.owners[id], page) ==>
        !Holds(s.pool, s.owners[other], page)
  }

  ghost predicate Held(s: State, page: int) {
    exists id :: id in s.owners && Holds(s.pool, s.owners[id], page)
  }

  /** Exactly the pages that somebody holds are marked. */
  ghost predicate Accounted(s: State) {
    forall page :: 0 <= page < |s.pool.bitmap| ==> (s.pool.bitmap[page] <==> Held(s, page))
  }

  ghost predicate OnList(s: State, b: Bounce) {
    exists id :: id in s.owners && s.owners[id].kind == Listed
      && b == Bounce(s.owners[id].handle, s.owners[id].phys, s.owners[id].size)
  }

  /** The bounce list holds the listed owners, each handle once. */
  ghost predicate ListAgrees(s: State) {
    && (forall b :: b in s.pool.bounces ==> OnList(s, b))
    && (forall id :: id in s.owners && s.owners[id].kind == Listed ==>
          Bounce(s.owners[id].handle, s.owners[id].phys, s.owners[id].size) in s.pool.bounces)
    && (forall i, j :: 0 <= i < j < |s.pool.bounces| ==> s.pool.bounces[i].handle != s.pool.bounces[j].handle)
  }

  ghost predicate Inv(s: State) {
    && s.pool.Placed()
    && (forall id :: id in s.owners ==> Inside(s.pool, s.owners[id]))
    && Exclusive(s) && Accounted(s) && ListAgrees(s)
  }

  /** Owners with the same handle share their first page, so they are one owner. */
  lemma HandleIdentifies(s: State, id: nat, other: nat)
    requires Inv(s) && id in s.owners && other in s.owners && s.owners[id].handle == s.owners[other].handle
    ensures id == other
  {
    var page := FirstPage(s.pool, s.owners[id]);
    assert Holds(s.pool, s.owners[id], page) && Holds(s.pool, s.owners[other], page);
  }

  lemma TakeInv(s: State, t: State, id: nat, kind: Kind, size: u64, phys: u64)
    requires Inv(s) && Next(s, Take(id, kind, size, phys), t)
    ensures Inv(t)
  {
    match Alloc(s.pool, size)
    case None =>
    case Some((handle, bits)) =>
      var o := Owner(kind, handle, size, phys);
      AllocInside(s.pool, size, o, t.pool);
      hide Alloc, Holds, FirstPage, Marked, Inside;
      TakeExclusive(s, t, id, o);
      TakeAccounted(s, t, id, o);
      TakeList(s, t, id, o);
  }

  /** A successful allocation names pages that exist, were clear, and are now marked. */
  lemma AllocInside(p: Pool, size: u64, o: Owner, q: Pool)
    requires p.Placed() && Alloc(p, size).Some? && o.handle == Alloc(p, size).value.0 && o.size == size
    requires q == p.(bitmap := Alloc(p, size).value.1)
    ensures q.Placed() && |q.bitmap| == |p.bitmap| && Inside(q, o)
    ensures forall page :: Holds(q, o, page) ==> 0 <= page < |p.bitmap| && !p.bitmap[page]
    ensures forall page :: 0 <= page < |p.bitmap| ==> (q.bitmap[page] <==> p.bitmap[page] || Holds(q, o, page))
  {
    var first := FirstFit(p.bitmap, PagesFor(size), 0).value;
    assert o.handle - p.base == first * PAGE;
    assert FirstPage(q, o) == first;
  }

  lemma TakeExclusive(s: State, t: State, id: nat, o: Owner)
    requires Inv(s) && id !in s.owners && t.owners == s.owners[id := o] && t.pool.base == s.pool.base
    requires |t.pool.bitmap| == |s.pool.bitmap|
    requires forall page :: Holds(t.pool, o, page) ==> 0 <= page < |s.pool.bitmap| && !s.pool.bitmap[page]
    ensures Exclusive(t)
    ensures forall x :: x in s.owners ==> Inside(t.pool, s.owners[x])
  {
    forall other, page | other in s.owners && Holds(s.pool, s.owners[other], page)
      ensures !Holds(t.pool, o, page)
    {
      assert Held(s, page);
    }
    forall x, page | x in s.owners
      ensures Holds(t.pool, s.owners[x], page) == Holds(s.pool, s.owners[x], page)
    {
    }
  }

  lemma TakeAccounted(s: State, t: State, id: nat, o: Owner)
    requires Accounted(s) && id !in s.owners && t.owners == s.owners[id := o] && t.pool.base == s.pool.base
    requires |t.pool.bitmap| == |s.pool.bitmap|
    requires forall page :: 0 <= page < |s.pool.bitmap| ==>
               (t.pool.bitmap[page] <==> s.pool.bitmap[page] || Holds(t.pool, o, page))
    ensures Accounted(t)
  {
    forall page | 0 <= page < |t.pool.bitmap|
      ensures t.pool.bitmap[page] <==> Held(t, page)
    {
      TakeHeld(s, t, id, o, page);
    }
  }

  lemma TakeHeld(s: State, t: State, id: nat, o: Owner, page: int)
    requires id !in s.owners && t.owners == s.owners[id := o] && t.pool.base == s.pool.base
    ensures Held(t, page) <==> Held(s, page) || Holds(t.pool, o, page)
  {
    if Held(s, page) {
      var x :| x in s.owners && Holds(s.pool, s.owners[x], page);
      assert x in t.owners && Holds(t.pool, t.owners[x], page);
    }
    if Holds(t.pool, o, page) {
      assert id in t.owners && Holds(t.pool, t.owners[id], page);
    }
    if Held(t, page) {
      var x :| x in t.owners && Holds(t.pool, t.owners[x], page);
      assert x != id ==> x in s.owners && Holds(s.pool, s.owners[x], page);
    }
  }

  lemma TakeList(s: State, t: State, id: nat, o: Owner)
    requires ListAgrees(s) && id !in s.owners && o.kind != Listed
    requires t.owners == s.owners[id := o] && t.pool.bounces == s.pool.bounces
    ensures ListAgrees(t)
  {
    forall b | b in t.pool.bounces
      ensures OnList(t, b)
    {
      assert OnList(s, b);
      var x :| x in s.owners && s.owners[x].kind == Listed
        && b == Bounce(s.owners[x].handle, s.owners[x].phys, s.owners[x].size);
      assert x in t.owners && t.owners[x] == s.owners[x];
    }
  }

  /** Changing an owner's kind moves no page. */
  lemma SamePages(s: State, t: State, id: nat, kind: Kind)
    requires Inv(s) && id in s.owners && t.owners == s.owners[id := s.owners[id].(kind := kind)]
    requires t.pool.base == s.pool.base && t.pool.bitmap == s.pool.bitmap
    ensures t.pool.Placed() && Exclusive(t) && Accounted(t)
    ensures forall x :: x in t.owners ==> Inside(t.pool, t.owners[x])
  {
    forall x, page | x in s.owners
      ensures x in t.owners && Holds(t.pool, t.owners[x], page) == Holds(s.pool, s.owners[x], page)
    {
    }
    forall page | 0 <= page < |t.pool.bitmap|
      ensures Held(t, page) <==> Held(s, page)
    {
      if Held(s, page) {
        var x :| x in s.owners && Holds(s.pool, s.owners[x], page);
        assert x in t.owners && Holds(t.pool, t.owners[x], page);
      }
      if Held(t, page) {
        var x :| x in t.owners && Holds(t.pool, t.owners[x], page);
        assert x in s.owners && Holds(s.pool, s.owners[x], page);
      }
    }
  }

  lemma StaysListed(s: State, t: State, id: nat, c: Bounce)
    requires Inv(s) && Next(s, List(id), t) && c in s.pool.bounces
    ensures OnList(t, c) && c.handle != s.owners[id].handle
  {
    assert OnList(s, c);
    var x :| x in s.owners && s.owners[x].kind == Listed
      && c == Bounce(s.owners[x].handle, s.owners[x].phys, s.owners[x].size);
    assert x in t.owners && t.owners[x] == s.owners[x];
    if c.handle == s.owners[id].handle {
      HandleIdentifies(s, x, id);
    }
  }

  lemma ListInv(s: State, t: State, id: nat)
    requires Inv(s) && Next(s, List(id), t)
    ensures Inv(t)
  {
    var o := s.owners[id];
    SamePages(s, t, id, Listed);
    hide Inside, Exclusive, Accounted;
    forall c | c in s.pool.bounces
      ensures OnList(t, c) && c.handle != o.handle
    {
      StaysListed(s, t, id, c);
    }
    Prepended(s.pool.bounces, Bounce(o.handle, o.phys, o.size));
    assert t.owners[id].kind == Listed && OnList(t, Bounce(o.handle, o.phys, o.size));
  }

  lemma Prepended(bounces: seq<Bounce>, b: Bounce)
    requires forall i, j :: 0 <= i < j < |bounces| ==> bounces[i].handle != bounces[j].handle
    requires forall c :: c in bounces ==> c.handle != b.handle
    ensures var r := [b] + bounces;
            && (forall c :: c in r <==> c == b || c in bounces)
            && (forall i, j :: 0 <= i < j < |r| ==> r[i].handle != r[j].handle)
  {
  }

  lemma DelistedStep(bounces: seq<Bounce>, handle: u64)
    requires bounces != []
    ensures Delisted(bounces, handle)
         == if bounces[0].handle == handle then bounces[1..] else [bounces[0]] + Delisted(bounces[1..], handle)
  {
  }

  ghost predicate Distinct(bounces: seq<Bounce>) {
    forall i, j :: 0 <= i < j < |bounces| ==> bounces[i].handle != bounces[j].handle
  }

  lemma DistinctTail(bounces: seq<Bounce>)
    requires bounces != [] && Distinct(bounces)
    ensures Distinct(bounces[1..]) && forall b :: b in bounces[1..] ==> b.handle != bounces[0].handle
  {
    var rest := bounces[1..];
    assert forall i :: 0 <= i < |rest| ==> rest[i] == bounces[i + 1];
  }

  lemma DistinctCons(b: Bounce, rest: seq<Bounce>)
    requires Distinct(rest) && forall c :: c in rest ==> c.handle != b.handle
    ensures Distinct([b] + rest)
  {
    var all := [b] + rest;
    assert forall i :: 1 <= i < |all| ==> all[i] == rest[i - 1] && all[i] in rest;
  }

  lemma {:induction false} DelistedHas(bounces: seq<Bounce>, handle: u64)
    requires Distinct(bounces)
    ensures forall b :: b in Delisted(bounces, handle) <==> b in bounces && b.handle != handle
    ensures Distinct(Delisted(bounces, handle))
  {
    hide Distinct;
    if bounces == [] {
      assert Delisted(bounces, handle) == [];
    } else {
      var rest := bounces[1..];
      DistinctTail(bounces);
      DelistedHas(rest, handle);
      DelistedStep(bounces, handle);
      hide Delisted;
      assert forall b :: b in bounces <==> b == bounces[0] || b in rest;
      if bounces[0].handle != handle {
        DistinctCons(bounces[0], Delisted(rest, handle));
      }
    }
  }

  lemma UnlistInv(s: State, t: State, id: nat)
    requires Inv(s) && Next(s, Unlist(id), t)
    ensures Inv(t)
  {
    var o := s.owners[id];
    SamePages(s, t, id, Unmapping);
    DelistedHas(s.pool.bounces, o.handle);
    forall c | c in t.pool.bounces
      ensures OnList(t, c)
    {
      assert OnList(s, c);
      var x :| x in s.owners && s.owners[x].kind == Listed
        && c == Bounce(s.owners[x].handle, s.owners[x].phys, s.owners[x].size);
      assert x != id && x in t.owners && t.owners[x] == s.owners[x];
    }
    forall x | x in t.owners && t.owners[x].kind == Listed
      ensures Bounce(t.owners[x].handle, t.owners[x].phys, t.owners[x].size) in t.pool.bounces
    {
      assert x != id && t.owners[x] == s.owners[x];
      if s.owners[x].handle == o.handle {
        HandleIdentifies(s, x, id);
      }
    }
  }

  lemma ReleaseInv(s: State, t: State, id: nat)
    requires Inv(s) && Next(s, Release(id), t)
    ensures Inv(t)
  {
    var o := s.owners[id];
    FreeInside(s.pool, o, t.pool);
    hide Free, Holds, FirstPage, Marked;
    ReleaseExclusive(s, t, id);
    ReleaseAccounted(s, t, id, o);
    ReleaseList(s, t, id);
  }

  /** Freeing an owner's handle clears exactly the owner's pages. */
  lemma FreeInside(p: Pool, o: Owner, q: Pool)
    requires p.Placed() && Inside(p, o) && q == p.(bitmap := Free(p, o.handle, o.size))
    ensures q.Placed()
    ensures forall page :: 0 <= page < |p.bitmap| ==> (q.bitmap[page] <==> p.bitmap[page] && !Holds(p, o, page))
  {
  }

  lemma ReleaseExclusive(s: State, t: State, id: nat)
    requires Inv(s) && t.owners == s.owners - {id} && t.pool.base == s.pool.base
    requires |t.pool.bitmap| == |s.pool.bitmap|
    ensures Exclusive(t)
    ensures forall x :: x in t.owners ==> Inside(t.pool, t.owners[x])
  {
    forall x, page | x in t.owners
      ensures x in s.owners && Holds(t.pool, t.owners[x], page) == Holds(s.pool, s.owners[x], page)
    {
    }
  }

  lemma ReleaseAccounted(s: State, t: State, id: nat, o: Owner)
    requires Exclusive(s) && Accounted(s) && id in s.owners && s.owners[id] == o && t.owners == s.owners - {id}
    requires t.pool.base == s.pool.base && |t.pool.bitmap| == |s.pool.bitmap|
    requires forall page :: 0 <= page < |s.pool.bitmap| ==>
               (t.pool.bitmap[page] <==> s.pool.bitmap[page] && !Holds(s.pool, o, page))
    ensures Accounted(t)
  {
    forall page | 0 <= page < |t.pool.bitmap|
      ensures t.pool.bitmap[page] <==> Held(t, page)
    {
      if t.pool.bitmap[page] {
        assert Held(s, page);
        var x :| x in s.owners && Holds(s.pool, s.owners[x], page);
        assert x in t.owners && Holds(t.pool, t.owners[x], page);
      }
      if Held(t, page) {
        var x :| x in t.owners && Holds(t.pool, t.owners[x], page);
        assert x in s.owners && Holds(s.pool, s.owners[x], page) && Held(s, page);
      }
    }
  }

  lemma ReleaseList(s: State, t: State, id: nat)
    requires ListAgrees(s) && id in s.owners && s.owners[id].kind != Listed
    requires t.owners == s.owners - {id} && t.pool.bounces == s.pool.bounces
    ensures ListAgrees(t)
  {
    forall c | c in t.pool.bounces
      ensures OnList(t, c)
    {
      assert OnList(s, c);
      var x :| x in s.owners && s.owners[x].kind == Listed
        && c == Bounce(s.owners[x].handle, s.owners[x].phys, s.owners[x].size);
      assert x in t.owners && t.owners[x] == s.owners[x];
    }
  }

  lemma UnmapOtherChangesNothing(s: State, t: State, handle: u64, size: u64)
    requires Next(s, UnmapOther(handle, size), t)
    ensures t == s
  {
    NothingDelisted(s.pool.bounces, handle);
  }

  lemma NextInv(s: State, e: Event, t: State)
    requires Inv(s) && Next(s, e, t)
    ensures Inv(t)
  {
    hide Inv, Next;
    match e
    case Take(id, kind, size, phys) => TakeInv(s, t, id, kind, size, phys);
    case List(id) => ListInv(s, t, id);
    case Unlist(id) => UnlistInv(s, t, id);
    case UnmapOther(handle, size) => UnmapOtherChangesNothing(s, t, handle, size);
    case Release(id) => ReleaseInv(s, t, id);
  }

  // ---- Main results ----

  ghost predicate Init(s: State) {
    && s.pool.Placed() && s.owners == map[] && s.pool.bounces == []
    && forall page :: 0 <= page < |s.pool.bitmap| ==> !s.pool.bitmap[page]
  }

  ghost predicate Run(states: seq<State>, events: seq<Event>) {
    && |states| == |events| + 1 && Init(states[0])
    && forall i :: 0 <= i < |events| ==> Next(states[i], events[i], states[i + 1])
  }

  lemma {:induction false} RunInv(states: seq<State>, events: seq<Event>, i: nat)
    requires Run(states, events) && i < |states|
    ensures Inv(states[i])
  {
    hide Next;
    if i > 0 {
      hide Inv;
      RunInv(states, events, i - 1);
      NextInv(states[i - 1], events[i - 1], states[i]);
    }
  }

  /**
   In every interleaving of allocations, maps, unmaps and frees by owners: the marked
   pages are exactly the disjoint union of the pages held, in-flight holders included;
   every handle's bytes lie inside the aperture; and bounce handles are unique.
   */
  lemma PagesAreAccountedFor(states: seq<State>, events: seq<Event>, i: nat)
    requires Run(states, events) && i < |states|
    ensures var s := states[i];
            && (forall page :: 0 <= page < |s.pool.bitmap| ==>
                  (s.pool.bitmap[page] <==> exists id :: id in s.owners && Holds(s.pool, s.owners[id], page)))
            && (forall id, other, page ::
                  id in s.owners && other in s.owners && Holds(s.pool, s.owners[id], page)
                      && Holds(s.pool, s.owners[other], page) ==>
                    id == other)
            && (forall id :: id in s.owners ==>
                  s.pool.base <= s.owners[id].handle
                  && s.owners[id].handle + s.owners[id].size <= s.pool.base + PAGE * |s.pool.bitmap|)
            && (forall j, k :: 0 <= j < k < |s.pool.bounces| ==> s.pool.bounces[j].handle != s.pool.bounces[k].handle)
  {
    RunInv(states, events, i);
    var s := states[i];
    forall id | id in s.owners
      ensures s.owners[id].handle + s.owners[id].size <= s.pool.base + PAGE * |s.pool.bitmap|
    {
      var o := s.owners[id];
      assert Inside(s.pool, o);
      assert o.handle - s.pool.base == PAGE * FirstPage(s.pool, o);
    }
    assert forall page :: 0 <= page < |s.pool.bitmap| ==> (s.pool.bitmap[page] <==> Held(s, page));
  }

  /** Unmapping a bounced handle finds its owner's record and no other. */
  lemma UnmapFindsItsBounce(s: State, id: nat)
    requires Inv(s) && id in s.owners && s.owners[id].kind == Listed
    ensures var o := s.owners[id];
            FindBounce(s.pool.bounces, o.handle) == Some(Bounce(o.handle, o.phys, o.size))
  {
    var o := s.owners[id];
    var r := FindBounce(s.pool.bounces, o.handle);
    assert Bounce(o.handle, o.phys, o.size) in s.pool.bounces;
    assert OnList(s, r.value);
    var x :| x in s.owners && s.owners[x].kind == Listed
      && r.value == Bounce(s.owners[x].handle, s.owners[x].phys, s.owners[x].size);
    HandleIdentifies(s, x, id);
  }

  /** Unmapping any address inside memory that is not a bounce finds no bounce and frees nothing. */
  lemma PassThroughFreesNothing(s: State, id: nat, addr: u64, size: u64)
    requires Inv(s) && id in s.owners && s.owners[id].kind != Listed
    requires var o := s.owners[id];
             o.handle <= addr < o.handle + PAGE * PagesFor(o.size)
    ensures FindBounce(s.pool.bounces, addr) == None
    ensures forall t :: Next(s, UnmapOther(addr, size), t) ==> t == s
  {
    var r := FindBounce(s.pool.bounces, addr);
    if r.Some? {
      assert OnList(s, r.value);
      var x :| x in s.owners && s.owners[x].kind == Listed
        && r.value == Bounce(s.owners[x].handle, s.owners[x].phys, s.owners[x].size);
      AddressPage(s.pool, s.owners[id], addr);
      var page := FirstPage(s.pool, s.owners[x]);
      assert Inside(s.pool, s.owners[x]) && Holds(s.pool, s.owners[x], page);
      assert Holds(s.pool, s.owners[id], page);
    }
    forall t | Next(s, UnmapOther(addr, size), t)
      ensures t == s
    {
      UnmapOtherChangesNothing(s, t, addr, size);
    }
  }

  lemma AddressPage(p: Pool, o: Owner, addr: u64)
    requires Inside(p, o) && o.handle <= addr < o.handle + PAGE * PagesFor(o.size)
    ensures Holds(p, o, (addr - p.base) / PAGE)
  {
    assert o.handle - p.base == PAGE * FirstPage(p, o);
  }
}
