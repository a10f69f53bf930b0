/**
 The shared list of DMA pools: get and put by any number of callers in any interleaving.
 Each locked region is a step; a pool under construction, or taken off the list and not
 yet freed, is between two of them.
 */
module PoolRegistry {
  import opened Words

  /** On the list, private to the caller that is building it, or about to be freed by the caller that gave it up. */
  datatype Place = Listed | Building(caller: nat) | Releasing(caller: nat)

  datatype Rec = Rec(base: u64, size: u64, refs: nat, place: Place)

  /**
   The list, head first, and the pools that exist; which caller holds which pool; every
   pool identity ever used, and the releases so far.
   */
  datatype State = State(list: seq<nat>, pools: map<nat, Rec>, holders: map<nat, nat>, ever: set<nat>,
      released: seq<nat>)

  predicate Matches(pools: map<nat, Rec>, id: nat, base: u64, size: u64) {
    id in pools && pools[id].base == base && pools[id].size == size
  }

  /** The first listed pool for an aperture. */
  function Find(list: seq<nat>, pools: map<nat, Rec>, base: u64, size: u64): (f: Option<nat>)
    ensures f.Some? ==> f.value in list && Matches(pools, f.value, base, size)
    ensures f.None? ==> forall id :: id in list ==> !Matches(pools, id, base, size)
  {
    if list == [] then None
    else if Matches(pools, list[0], base, size) then Some(list[0])
    else Find(list[1..], pools, base, size)
  }

  function WithRefs(pools: map<nat, Rec>, id: nat, refs: nat): map<nat, Rec>
    requires id in pools
  {
    pools[id := pools[id].(refs := refs)]
  }

  /** The records once `caller` alone has to free `id`. */
  function GivenUp(pools: map<nat, Rec>, id: nat, caller: nat): map<nat, Rec>
    requires id in pools
  {
    pools[id := pools[id].(refs := 0, place := Releasing(caller))]
  }

  function Without(list: seq<nat>, id: nat): seq<nat> {
    if list == [] then []
    else if list[0] == id then list[1..]
    else [list[0]] + Without(list[1..], id)
  }

  datatype Event =
    | GetListed(caller: nat, base: u64, size: u64)          // the first lookup hits
    | Build(caller: nat, base: u64, size: u64, id: nat)     // it misses; construction starts, unlocked
    | BuildFails(caller: nat, id: nat)                      // a mapping or the bitmap could not be had
    | GetRaced(caller: nat, id: nat)                        // the second lookup hits; the new pool is given up
    | Publish(caller: nat, id: nat)                         // it misses; the new pool is listed
    | Put(caller: nat)
    | Free(caller: nat, id: nat)                            // what this caller gave up, outside the lock

  ghost predicate Next(s: State, e: Event, t: State) {
    match e
    case GetListed(caller, base, size) =>
      var f := Find(s.list, s.pools, base, size);
      && caller !in s.holders && f.Some?
      && t == s.(pools := WithRefs(s.pools, f.value, s.pools[f.value].refs + 1),
          holders := s.holders[caller := f.value])
    case Build(caller, base, size, id) =>
      && Find(s.list, s.pools, base, size).None? && id !in s.ever
      && t == s.(pools := s.pools[id := Rec(base, size, 1, Building(caller))], ever := s.ever + {id})
    case BuildFails(caller, id) =>
      && id in s.pools && s.pools[id].place == Building(caller)
      && t == s.(pools := GivenUp(s.pools, id, caller))
    case GetRaced(caller, id) =>
      && caller !in s.holders && id in s.pools && s.pools[id].place == Building(caller)
      && var f := Find(s.list, s.pools, s.pools[id].base, s.pools[id].size);
         && f.Some?
         && t == s.(pools := GivenUp(WithRefs(s.pools, f.value, s.pools[f.value].refs + 1), id, caller),
                    holders := s.holders[caller := f.value])
    case Publish(caller, id) =>
      && caller !in s.holders && id in s.pools && s.pools[id].place == Building(caller)
      && Find(s.list, s.pools, s.pools[id].base, s.pools[id].size).None?
      && t == s.(list := [id] + s.list, pools := s.pools[id := s.pools[id].(place := Listed)],
                 holders := s.holders[caller := id])
    case Put(caller) =>
      && caller in s.holders && s.holders[caller] in s.pools && s.pools[s.holders[caller]].refs > 0
      && var id := s.holders[caller];
         var refs := s.pools[id].refs - 1;
         t == if refs > 0 then s.(pools := WithRefs(s.pools, id, refs), holders := s.holders - {caller})
              else s.(list := Without(s.list, id), pools := GivenUp(s.pools, id, caller),
                  holders := s.holders - {caller})
    case Free(caller, id) =>
      && id in s.pools && s.pools[id].place == Releasing(caller)
      && t == s.(pools := s.pools - {id}, released := s.released + [id])
  }

  // ---- Invariant ----

  ghost function HoldersOf(holders: map<nat, nat>, id: nat): set<nat> {
    set c | c in holders && holders[c] == id
  }

  ghost predicate NoDup(ids: seq<nat>) {
    forall i, j :: 0 <= i < j < |ids| ==> ids[i] != ids[j]
  }

  /** The list is the listed pools, each once, no two for the same aperture. */
  ghost predicate ListSound(list: seq<nat>, pools: map<nat, Rec>) {
    && NoDup(list)
    && (forall id :: id in list <==> id in pools && pools[id].place == Listed)
    && (forall a, b :: a in list && b in list && a != b ==> !Matches(pools, a, pools[b].base, pools[b].size))
  }

  /** Only listed pools are held, and their reference counts are the numbers of their holders. */
  ghost predicate RefsSound(pools: map<nat, Rec>, holders: map<nat, nat>) {
    && (forall c :: c in holders ==> holders[c] in pools && pools[holders[c]].place == Listed)
    && (forall id :: id in pools && pools[id].place == Listed ==> pools[id].refs == |HoldersOf(holders, id)| > 0)
    && (forall id :: id in pools && pools[id].place.Building? ==> pools[id].refs == 1)
  }

  /** No identity is used again; whatever was built either exists or was released, and that once. */
  ghost predicate ReleasesSound(pools: map<nat, Rec>, ever: set<nat>, released: seq<nat>) {
    && (forall id :: id in ever <==> id in pools || id in released)
    && (forall id :: id in pools ==> id !in released)
    && NoDup(released)
  }

  ghost predicate Inv(s: State) {
    ListSound(s.list, s.pools) && RefsSound(s.pools, s.holders) && ReleasesSound(s.pools, s.ever, s.released)
  }

  // ---- Steps keep it ----

  /** A holder more, or a holder less, changes one pool's holders by one. */
  lemma HolderAdded(holders: map<nat, nat>, c: nat, id: nat)
    requires c !in holders
    ensures |HoldersOf(holders[c := id], id)| == |HoldersOf(holders, id)| + 1
    ensures forall x :: x != id ==> HoldersOf(holders[c := id], x) == HoldersOf(holders, x)
  {
    assert HoldersOf(holders[c := id], id) == HoldersOf(holders, id) + {c};
  }

  lemma HolderDropped(holders: map<nat, nat>, c: nat)
    requires c in holders
    ensures |HoldersOf(holders - {c}, holders[c])| == |HoldersOf(holders, holders[c])| - 1
    ensures forall x :: x != holders[c] ==> HoldersOf(holders - {c}, x) == HoldersOf(holders, x)
  {
    assert HoldersOf(holders - {c}, holders[c]) == HoldersOf(holders, holders[c]) - {c};
  }

  lemma {:induction false} WithoutHas(list: seq<nat>, id: nat)
    requires NoDup(list)
    ensures forall x :: x in Without(list, id) <==> x in list && x != id
    ensures NoDup(Without(list, id))
  {
    if list != [] {
      var rest := list[1..];
      assert forall i :: 0 <= i < |rest| ==> rest[i] == list[i + 1];
      assert NoDup(rest) && list[0] !in rest && list == [list[0]] + rest;
      WithoutHas(rest, id);
      var w, r := Without(rest, id), Without(list, id);
      forall x
        ensures x in r <==> x in list && x != id
      {
        assert x in list <==> x == list[0] || x in rest;
        assert list[0] != id ==> (x in [list[0]] + w <==> x == list[0] || x in w);
      }
      if list[0] != id {
        assert r == [list[0]] + w && list[0] !in w;
        forall i, j | 0 <= i < j < |r|
          ensures r[i] != r[j]
        {
          assert r[j] == w[j - 1] && (i > 0 ==> r[i] == w[i - 1] && w[i - 1] != w[j - 1]);
        }
      } else {
        assert r == rest;
      }
    }
  }

  /** The list stays sound while listed pools keep their aperture and place, and no other is listed. */
  lemma ListKept(list: seq<nat>, pools: map<nat, Rec>, pools': map<nat, Rec>)
    requires ListSound(list, pools)
    requires forall id :: id in list ==>
               && id in pools' && pools'[id].place == Listed
               && pools'[id].base == pools[id].base && pools'[id].size == pools[id].size
    requires forall id :: id in pools' && pools'[id].place == Listed ==> id in list
    ensures ListSound(list, pools')
  {
  }

  lemma TakeRef(s: State, t: State, caller: nat, id: nat)
    requires Inv(s) && id in s.list && caller !in s.holders
    requires t == s.(pools := WithRefs(s.pools, id, s.pools[id].refs + 1), holders := s.holders[caller := id])
    ensures Inv(t)
  {
    ListKept(s.list, s.pools, t.pools);
    HolderAdded(s.holders, caller, id);
    hide HoldersOf, ListSound;
  }

  /** A pool that is not listed may be given up without disturbing list or counts. */
  lemma Unlisted(s: State, t: State, id: nat, caller: nat)
    requires Inv(s) && id in s.pools && id !in s.list && t == s.(pools := GivenUp(s.pools, id, caller))
    ensures Inv(t)
  {
    ListKept(s.list, s.pools, t.pools);
    hide HoldersOf;
  }

  lemma BuildInv(s: State, t: State, caller: nat, base: u64, size: u64, id: nat)
    requires Inv(s) && Next(s, Build(caller, base, size, id), t)
    ensures Inv(t)
  {
    ListKept(s.list, s.pools, t.pools);
    hide HoldersOf, ListSound, Find;
  }

  lemma PublishInv(s: State, t: State, caller: nat, id: nat)
    requires Inv(s) && Next(s, Publish(caller, id), t)
    ensures Inv(t)
  {
    Prepended(s, t, id);
    PublishRefs(s, t, caller, id);
    hide RefsSound, ListSound, Find;
  }

  lemma PublishRefs(s: State, t: State, caller: nat, id: nat)
    requires RefsSound(s.pools, s.holders) && caller !in s.holders && id in s.pools && s.pools[id].place.Building?
    requires t.pools == s.pools[id := s.pools[id].(place := Listed)] && t.holders == s.holders[caller := id]
    ensures RefsSound(t.pools, t.holders)
  {
    HolderAdded(s.holders, caller, id);
    assert HoldersOf(s.holders, id) == {};
    hide HoldersOf;
  }

  lemma Prepended(s: State, t: State, id: nat)
    requires ListSound(s.list, s.pools) && id in s.pools && s.pools[id].place.Building?
    requires Find(s.list, s.pools, s.pools[id].base, s.pools[id].size).None?
    requires t.list == [id] + s.list && t.pools == s.pools[id := s.pools[id].(place := Listed)]
    ensures ListSound(t.list, t.pools)
  {
    hide Find;
    assert forall x :: x in t.list <==> x == id || x in s.list;
    assert forall i :: 1 <= i < |t.list| ==> t.list[i] == s.list[i - 1] && t.list[i] in s.list;
  }

  lemma PutInv(s: State, t: State, caller: nat)
    requires Inv(s) && Next(s, Put(caller), t)
    ensures Inv(t)
  {
    hide HoldersOf, Without;
    var id := s.holders[caller];
    if s.pools[id].refs == 1 {
      PutLast(s, t, id, caller);
      PutLastRefs(s, t, caller);
    } else {
      ListKept(s.list, s.pools, t.pools);
      PutOneRefs(s, t, caller);
    }
    hide ListSound, RefsSound;
  }

  lemma PutOneRefs(s: State, t: State, caller: nat)
    requires RefsSound(s.pools, s.holders) && caller in s.holders && s.pools[s.holders[caller]].refs > 1
    requires t.pools == WithRefs(s.pools, s.holders[caller], s.pools[s.holders[caller]].refs - 1)
    requires t.holders == s.holders - {caller}
    ensures RefsSound(t.pools, t.holders)
  {
    HolderDropped(s.holders, caller);
    hide HoldersOf;
  }

  lemma PutLastRefs(s: State, t: State, caller: nat)
    requires RefsSound(s.pools, s.holders) && caller in s.holders && s.pools[s.holders[caller]].refs == 1
    requires var id := s.holders[caller];
             t.pools == GivenUp(s.pools, id, caller)
    requires t.holders == s.holders - {caller}
    ensures RefsSound(t.pools, t.holders)
  {
    LastHolder(s, caller);
    HolderDropped(s.holders, caller);
    hide HoldersOf;
  }

  lemma PutLast(s: State, t: State, id: nat, caller: nat)
    requires ListSound(s.list, s.pools) && id in s.list && t.list == Without(s.list, id)
    requires t.pools == GivenUp(s.pools, id, caller)
    ensures ListSound(t.list, t.pools)
  {
    WithoutHas(s.list, id);
  }

  /** The holder whose put brings the count to zero is the only holder there was. */
  lemma LastHolder(s: State, caller: nat)
    requires RefsSound(s.pools, s.holders) && caller in s.holders && s.pools[s.holders[caller]].refs == 1
    ensures forall c :: c in s.holders && s.holders[c] == s.holders[caller] ==> c == caller
  {
    var all := HoldersOf(s.holders, s.holders[caller]);
    assert caller in all && |all| == 1;
    assert |all - {caller}| == 0;
    assert all == {caller};
    forall c | c in s.holders && s.holders[c] == s.holders[caller]
      ensures c == caller
    {
      assert c in all;
    }
  }

  lemma FreedRefs(pools: map<nat, Rec>, pools': map<nat, Rec>, holders: map<nat, nat>, id: nat)
    requires RefsSound(pools, holders) && id in pools && pools[id].place.Releasing? && pools' == pools - {id}
    ensures RefsSound(pools', holders)
  {
    hide HoldersOf;
  }

  lemma FreeInv(s: State, t: State, caller: nat, id: nat)
    requires Inv(s) && Next(s, Free(caller, id), t)
    ensures Inv(t)
  {
    ListKept(s.list, s.pools, t.pools);
    FreedRefs(s.pools, t.pools, s.holders, id);
    hide RefsSound, ListSound;
    assert forall x :: x in t.released <==> x in s.released || x == id;
  }

  lemma NextInv(s: State, e: Event, t: State)
    requires Inv(s) && Next(s, e, t)
    ensures Inv(t)
  {
    hide HoldersOf, RefsSound, ReleasesSound, Find, Without;
    match e
    case GetListed(caller, base, size) =>
      TakeRef(s, t, caller, Find(s.list, s.pools, base, size).value);
    case Build(caller, base, size, id) => BuildInv(s, t, caller, base, size, id);
    case BuildFails(caller, id) => Unlisted(s, t, id, caller);
    case GetRaced(caller, id) =>
      var f := Find(s.list, s.pools, s.pools[id].base, s.pools[id].size).value;
      var u := s.(pools := WithRefs(s.pools, f, s.pools[f].refs + 1), holders := s.holders[caller := f]);
      TakeRef(s, u, caller, f);
      Unlisted(u, t, id, caller);
    case Publish(caller, id) => PublishInv(s, t, caller, id);
    case Put(caller) => PutInv(s, t, caller);
    case Free(caller, id) => FreeInv(s, t, caller, id);
  }

  // ---- Main results ----

  ghost predicate Run(states: seq<State>, events: seq<Event>) {
    && |states| == |events| + 1 && states[0] == State([], map[], map[], {}, [])
    && forall i :: 0 <= i < |events| ==> Next(states[i], events[i], states[i + 1])
  }

  lemma {:induction false} RunInv(states: seq<State>, events: seq<Event>, i: nat)
    requires Run(states, events) && i < |states|
    ensures Inv(states[i])
  {
    if i > 0 {
      hide Inv, Next;
      RunInv(states, events, i - 1);
      NextInv(states[i - 1], events[i - 1], states[i]);
    }
  }

  /**
   In every interleaving of get and put, constructions racing included: at most one
   listed pool exists per aperture, its reference count is its number of holders, and
   what callers hold is listed.
   */
  lemma OnePoolPerAperture(states: seq<State>, events: seq<Event>, i: nat)
    requires Run(states, events) && i < |states|
    ensures var s := states[i];
            && (forall a, b ::
                  a in s.list && b in s.list ==>
                    && a in s.pools && b in s.pools
                    && (s.pools[a].base == s.pools[b].base && s.pools[a].size == s.pools[b].size ==> a == b))
            && (forall id :: id in s.list ==> s.pools[id].refs == |HoldersOf(s.holders, id)| > 0)
            && (forall c :: c in s.holders ==> s.holders[c] in s.list)
  {
    RunInv(states, events, i);
  }

  /**
   In every interleaving no pool is lost and none is released twice: whatever was ever
   built is released, exactly once, or still exists; and while it exists somebody
   answers for it, a holder, its builder, or the caller that is about to free it.
   */
  lemma ReleasedExactlyOnce(states: seq<State>, events: seq<Event>, i: nat, id: nat)
    requires Run(states, events) && i < |states| && id in states[i].ever
    ensures var s := states[i];
            && NoDup(s.released)
            && (id in s.pools <==> id !in s.released)
            && (id in s.pools ==>
                  match s.pools[id].place
                  case Listed => HoldersOf(s.holders, id) != {}
                  case Building(_) => id !in s.list && HoldersOf(s.holders, id) == {}
                  case Releasing(_) => id !in s.list && HoldersOf(s.holders, id) == {})
  {
    RunInv(states, events, i);
  }

  /** The step at which `caller` is left to free `id`: its put was the last, or its construction lost or failed. */
  ghost predicate GivesUp(s: State, e: Event, caller: nat, id: nat) {
    || e == BuildFails(caller, id)
    || e == GetRaced(caller, id)
    || (e == Put(caller) && caller in s.holders && s.holders[caller] == id && HoldersOf(s.holders, id) == {caller})
  }

  lemma StepGivesUp(s: State, e: Event, t: State, caller: nat, id: nat)
    requires Inv(s) && Next(s, e, t) && id in t.pools && t.pools[id].place == Releasing(caller)
    ensures id in s.pools && (s.pools[id].place == Releasing(caller) || GivesUp(s, e, caller, id))
  {
    if e == Put(caller) && s.holders[caller] == id && s.pools[id].refs == 1 {
      LastHolder(s, caller);
      assert HoldersOf(s.holders, id) == {caller};
    }
    hide HoldersOf, ListSound, ReleasesSound;
  }

  lemma {:induction false} SomebodyGaveUp(states: seq<State>, events: seq<Event>, i: nat, caller: nat, id: nat)
      returns (k: nat)
    requires Run(states, events) && i < |states|
    requires id in states[i].pools && states[i].pools[id].place == Releasing(caller)
    ensures k < i && GivesUp(states[k], events[k], caller, id)
  {
    assert i > 0;
    RunInv(states, events, i - 1);
    StepGivesUp(states[i - 1], events[i - 1], states[i], caller, id);
    hide Inv, Next;
    if GivesUp(states[i - 1], events[i - 1], caller, id) {
      k := i - 1;
    } else {
      k := SomebodyGaveUp(states, events, i - 1, caller, id);
    }
  }

  /** In every run, whoever frees a pool is its last holder, or the builder that lost the race or failed. */
  lemma ReleaserGaveUp(states: seq<State>, events: seq<Event>, i: nat) returns (k: nat)
    requires Run(states, events) && i < |events| && events[i].Free?
    ensures k < i && GivesUp(states[k], events[k], events[i].caller, events[i].id)
    ensures states[i + 1].released == states[i].released + [events[i].id]
  {
    assert Next(states[i], events[i], states[i + 1]);
    k := SomebodyGaveUp(states, events, i, events[i].caller, events[i].id);
  }

  /** A put takes a pool off the list exactly when its caller was the pool's last holder. */
  lemma LastPutDelists(states: seq<State>, events: seq<Event>, i: nat)
    requires Run(states, events) && i < |events| && events[i].Put?
    ensures var s, t, c := states[i], states[i + 1], events[i].caller;
            var id := s.holders[c];
            (id !in t.list <==> forall d :: d in s.holders && s.holders[d] == id ==> d == c)
  {
    RunInv(states, events, i);
    RunInv(states, events, i + 1);
    var s, t, c := states[i], states[i + 1], events[i].caller;
    var id := s.holders[c];
    assert Next(s, events[i], t);
    if s.pools[id].refs == 1 {
      LastHolder(s, c);
    } else {
      HolderDropped(s.holders, c);
      assert HoldersOf(t.holders, id) != {};
      var d :| d in HoldersOf(t.holders, id);
      assert d in s.holders && s.holders[d] == id && d != c;
    }
  }

  // ---- The list in place ----

  /**
   The list and the records, changed by the locked regions of get and put. Who holds what,
   and which identities were used and released, is known to the callers only.
   */
  class PoolList {
    var list: seq<nat>
    var pools: map<nat, Rec>
    ghost var holders: map<nat, nat>
    ghost var ever: set<nat>
    ghost var released: seq<nat>

    ghost function Value(): State
      reads this
    {
      State(list, pools, holders, ever, released)
    }

    /** The locked walk of the list: the first pool for the aperture. */
    method Lookup(base: u64, size: u64) returns (f: Option<nat>)
      ensures f == Find(list, pools, base, size)
    {
      f := None;
      var i := 0;
      while i < |list| && f.None?
        invariant 0 <= i <= |list|
        invariant f.None? ==> Find(list[i..], pools, base, size) == Find(list, pools, base, size)
        invariant f.Some? ==> f == Find(list, pools, base, size)
      {
        if list[i] in pools && pools[list[i]].base == base && pools[list[i]].size == size {
          f := Some(list[i]);
        }
        i := i + 1;
      }
    }

    /** The first locked region of get: a hit takes a reference before the lock is dropped. */
    method LookupAndRef(caller: nat, base: u64, size: u64) returns (f: Option<nat>)
      requires caller !in holders
      modifies this
      ensures f == Find(old(list), old(pools), base, size)
      ensures if f.Some? then Next(old(Value()), GetListed(caller, base, size), Value()) else Value() == old(Value())
    {
      f := Lookup(base, size);
      if f.Some? {
        pools := WithRefs(pools, f.value, pools[f.value].refs + 1);
        holders := holders[caller := f.value];
      }
    }

    /** The second locked region of get: join a pool that was listed meanwhile, or list the new one. */
    method PublishOrJoin(caller: nat, id: nat) returns (got: nat)
      requires caller !in holders && id in pools && pools[id].place == Building(caller)
      modifies this
      ensures if Find(old(list), old(pools), old(pools)[id].base, old(pools)[id].size).Some?
              then Next(old(Value()), GetRaced(caller, id), Value())
              else Next(old(Value()), Publish(caller, id), Value())
      ensures caller in holders && got == holders[caller]
    {
      var f := Lookup(pools[id].base, pools[id].size);
      if f.Some? {
        pools := GivenUp(WithRefs(pools, f.value, pools[f.value].refs + 1), id, caller);
        holders := holders[caller := f.value];
        return f.value;
      }
      pools := pools[id := pools[id].(place := Listed)];
      list := [id] + list;
      holders := holders[caller := id];
      got := id;
    }

    /** The locked region of put; the caller frees the pool when this was the last reference. */
    method PutLocked(caller: nat, id: nat) returns (last: bool)
      requires caller in holders && holders[caller] == id && id in pools && pools[id].refs > 0
      modifies this
      ensures Next(old(Value()), Put(caller), Value())
      ensures last <==> old(pools)[id].refs == 1
    {
      holders := holders - {caller};
      var refs := pools[id].refs - 1;
      last := refs == 0;
      if !last {
        pools := WithRefs(pools, id, refs);
        return;
      }
      Delist(id);
      pools := GivenUp(pools, id, caller);
    }

    /** `list_del`: the entry leaves the list, its neighbours close up. */
    method Delist(id: nat)
      modifies this`list
      ensures list == Without(old(list), id)
    {
      var i := 0;
      while i < |list| && list[i] != id
        invariant 0 <= i <= |list| && id !in list[..i]
      {
        i := i + 1;
      }
      WithoutAt(list, id, i);
      if i < |list| {
        list := list[..i] + list[i + 1..];
      }
    }
  }

  lemma {:induction false} WithoutAt(list: seq<nat>, id: nat, i: nat)
    requires i <= |list| && id !in list[..i] && (i < |list| ==> list[i] == id)
    ensures Without(list, id) == if i < |list| then list[..i] + list[i + 1..] else list
  {
    if i > 0 {
      var rest := list[1..];
      assert list == [list[0]] + rest && list[0] == list[..i][0] && list[..i] == [list[0]] + rest[..i - 1];
      WithoutAt(rest, id, i - 1);
    }
  }
}
