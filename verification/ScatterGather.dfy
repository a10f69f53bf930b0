/**
 Scatter-gather mapping with rollback, while other threads allocate and free between any
 two of its lock-protected regions.

 Pages are tagged with what holds them for this caller, so that ownership can be told
 apart from the bitmap, which others change too.
 */
module ScatterGather {
  import opened Words
  import opened DmaPool
  import opened BounceBuffer
  import opened GuestMemory

  /** A list entry: its buffer, and the mapping recorded in it. */
  datatype Sg = Sg(buf: seq<u8>, dmaAddr: u64, dmaLen: u32) {
    /** The length of an entry is 32 bits wide. */
    predicate Sized() {
      |buf| < 0x1_0000_0000
    }

    predicate IsMapped() {
      dmaAddr != MAPPING_ERROR && dmaLen != 0
    }

    function Unmapped(): Sg {
      this.(dmaAddr := MAPPING_ERROR, dmaLen := 0)
    }
  }

  /** A page of nobody's, or of this caller's from before; pages of list entry `k` are tagged `k`. */
  const NOT_MINE := -1
  const EARLIER := -2

  function Tagged(tags: seq<int>, s: nat, n: nat, tag: int): (r: seq<int>)
    requires s + n <= |tags|
    ensures |r| == |tags|
    ensures forall p :: 0 <= p < |tags| ==> r[p] == if s <= p < s + n then tag else tags[p]
  {
    seq(|tags|, p requires 0 <= p < |tags| => if s <= p < s + n then tag else tags[p])
  }

  predicate Covers(base: u64, sg: Sg, page: int) {
    sg.IsMapped() && (sg.dmaAddr - base) / PAGE <= page < (sg.dmaAddr - base) / PAGE + PagesFor(sg.dmaLen)
  }

  /** A recorded mapping names whole pages of the aperture. */
  predicate Fits(base: u64, pages: nat, sg: Sg) {
    sg.IsMapped() ==>
      && base <= sg.dmaAddr && (sg.dmaAddr - base) % PAGE == 0
      && PagesFor(sg.dmaLen) > 0 && (sg.dmaAddr - base) / PAGE + PagesFor(sg.dmaLen) <= pages
  }

  /** Entries before `n` are tagged exactly where they are mapped. */
  ghost predicate TagsMatch(base: u64, tags: seq<int>, list: seq<Sg>, n: nat)
    requires n <= |list|
  {
    && (forall k :: 0 <= k < n ==> Fits(base, |tags|, list[k]))
    && (forall k, p :: 0 <= k < n && 0 <= p < |tags| ==> (tags[p] == k <==> Covers(base, list[k], p)))
  }

  /** The entry's pages, among the aperture's bytes, hold the entry's data. */
  ghost predicate LoadedIn(base: u64, bytes: seq<u8>, sg: Sg) {
    && sg.IsMapped() && sg.dmaLen == |sg.buf| && base <= sg.dmaAddr && sg.dmaAddr - base + |sg.buf| <= |bytes|
    && bytes[sg.dmaAddr - base..sg.dmaAddr - base + |sg.buf|] == sg.buf
  }

  /** Every byte of a mapped entry lies in a page that the entry covers. */
  lemma ByteIsCovered(base: u64, pages: nat, sg: Sg, t: nat)
    requires sg.IsMapped() && Fits(base, pages, sg) && t < sg.dmaLen
    ensures Covers(base, sg, (sg.dmaAddr - base + t) / PAGE)
    ensures sg.dmaAddr - base + t < PAGE * pages
  {
    var first := (sg.dmaAddr - base) / PAGE;
    assert sg.dmaAddr - base == PAGE * first;
    assert t / PAGE < PagesFor(sg.dmaLen);
    assert (PAGE * first + t) / PAGE == first + t / PAGE;
  }

  /** Whatever keeps the bytes of this caller's pages keeps its entries loaded. */
  lemma LoadedKept(base: u64, before: seq<u8>, after: seq<u8>, tags: seq<int>, list: seq<Sg>, i: nat)
    requires i <= |list| && |before| == |after| == PAGE * |tags| && TagsMatch(base, tags, list, i)
    requires forall a :: 0 <= a < |before| && tags[a / PAGE] != NOT_MINE ==> before[a] == after[a]
    requires forall k :: 0 <= k < i ==> LoadedIn(base, before, list[k])
    ensures forall k :: 0 <= k < i ==> LoadedIn(base, after, list[k])
  {
    forall k | 0 <= k < i
      ensures LoadedIn(base, after, list[k])
    {
      var at := list[k].dmaAddr - base;
      forall a | at <= a < at + |list[k].buf|
        ensures after[a] == before[a]
      {
        assert Fits(base, |tags|, list[k]);
        ByteIsCovered(base, |tags|, list[k], a - at);
        assert tags[a / PAGE] == k;
      }
      assert after[at..at + |list[k].buf|] == before[at..at + |list[k].buf|];
    }
  }

  // ---- The reference: entries placed one after the other ----

  /** What others hold, or try to, before each step of a call. */
  type Others = (nat, nat) -> bool

  /** The bitmap an allocation finds: this caller's pages, and those that others hold at that step. */
  function Found(tags: seq<int>, others: Others, step: nat): seq<bool> {
    seq(|tags|, p requires 0 <= p < |tags| => tags[p] != NOT_MINE || others(step, p))
  }

  /** The pages held after the first `k` entries have gone, each in turn, to the lowest clear area that holds it. */
  ghost function Fitted(tags: seq<int>, list: seq<Sg>, others: Others, k: nat): (r: Option<seq<int>>)
    requires k <= |list| && forall j :: 0 <= j < |list| ==> list[j].Sized()
    ensures r.Some? ==> |r.value| == |tags|
  {
    if k == 0 then Some(tags)
    else match Fitted(tags, list, others, k - 1)
      case None => None
      case Some(t) =>
        var n := PagesFor(|list[k - 1].buf|);
        match FirstFit(Found(t, others, k - 1), n, 0)
        case None => None
        case Some(s) => if n == 0 then None else Some(Tagged(t, s, n, k - 1))
  }

  /** Entry `k` is the one that finds no room: it is empty, or no area of its size is clear. */
  ghost predicate NoRoomAt(tags: seq<int>, list: seq<Sg>, others: Others, k: nat)
    requires k < |list| && forall j :: 0 <= j < |list| ==> list[j].Sized()
  {
    var t := Fitted(tags, list, others, k);
    t.Some? &&
    (list[k].buf == [] || forall s: nat :: !Clear(Found(t.value, others, k), s, PagesFor(|list[k].buf|)))
  }

  /** The pages that all entries from `k` on need. */
  function Needed(list: seq<Sg>, k: nat): nat
    requires k <= |list| && forall j :: 0 <= j < |list| ==> list[j].Sized()
    decreases |list| - k
  {
    if k == |list| then 0
    else
      assert list[k].Sized();
      PagesFor(|list[k].buf|) + Needed(list, k + 1)
  }

  ghost predicate NeverTaken(others: Others, p: nat) {
    forall step: nat :: !others(step, p)
  }

  /** A run of pages that this caller does not hold and others never will. */
  ghost predicate LeftClear(tags: seq<int>, others: Others, a: nat, n: nat) {
    a + n <= |tags| && forall p :: a <= p < a + n ==> tags[p] == NOT_MINE && NeverTaken(others, p)
  }

  class SgPool {
    const pool: PoolMemory
    const bytes: array<u8>
    ghost var tags: seq<int>
    var theirs: seq<bool>

    constructor (pool: PoolMemory, bytes: array<u8>)
      requires pool.Value().Placed() && bytes.Length == PAGE * pool.bitmap.Length
      requires forall p :: 0 <= p < pool.bitmap.Length ==> !pool.bitmap[p]
      ensures this.pool == pool && this.bytes == bytes && Valid()
      ensures forall p :: 0 <= p < pool.bitmap.Length ==> tags[p] == NOT_MINE
    {
      this.pool, this.bytes := pool, bytes;
      tags := seq(pool.bitmap.Length, _ => NOT_MINE);
      theirs := seq(pool.bitmap.Length, _ => false);
    }

    /** The marked pages are the disjoint union of this caller's and everyone else's. */
    ghost predicate Valid()
      reads this, pool, pool.bitmap
    {
      && pool.Value().Placed() && bytes.Length == PAGE * pool.bitmap.Length
      && |tags| == |theirs| == pool.bitmap.Length
      && forall p :: 0 <= p < |tags| ==>
           && !(tags[p] != NOT_MINE && theirs[p])
           && (pool.bitmap[p] <==> tags[p] != NOT_MINE || theirs[p])
    }

    /**
     Other threads run: of the pages this caller does not hold they take what they want
     and free the rest, and of memory they may change anything but the pages it holds.
     */
    method OthersRun(others: Others, step: nat)
      requires Valid()
      modifies this`theirs, pool.bitmap, pool`bounces, bytes
      ensures Valid() && tags == old(tags) && pool.bitmap[..] == Found(tags, others, step)
      ensures forall a :: 0 <= a < bytes.Length && tags[a / PAGE] != NOT_MINE ==> bytes[a] == old(bytes[a])
    {
      var bits, was := pool.bitmap[..], theirs;
      theirs := seq(|bits|, p requires 0 <= p < |bits| <= |was| => (was[p] || !bits[p]) && others(step, p));
      forall p | 0 <= p < |bits| && (was[p] || !bits[p]) {
        pool.bitmap[p] := others(step, p);
      }
    }

    /** `pool_alloc` as one step of this caller's, for list entry `tag`: the lowest clear area, if there is one. */
    method Take(size: u64, ghost tag: nat) returns (r: Option<u64>)
      requires Valid()
      modifies this`tags, pool.bitmap
      ensures Valid()
      ensures r.None? <==> PagesFor(size) == 0 || FirstFit(old(pool.bitmap[..]), PagesFor(size), 0).None?
      ensures r.None? ==> tags == old(tags)
      ensures r.Some? ==>
                && pool.base <= r.value
                && (r.value - pool.base) / PAGE == FirstFit(old(pool.bitmap[..]), PagesFor(size), 0).value
      ensures r.Some? ==> && PagesFor(size) > 0 && pool.base <= r.value && (r.value - pool.base) % PAGE == 0
                          && var s := (r.value - pool.base) / PAGE;
                             && s + PagesFor(size) <= |tags|
                             && (forall p :: s <= p < s + PagesFor(size) ==> old(tags)[p] == NOT_MINE)
                             && tags == Tagged(old(tags), s, PagesFor(size), tag)
    {
      r := pool.PoolAlloc(size);
      if r.Some? {
        ghost var s := FirstFit(old(pool.bitmap[..]), PagesFor(size), 0).value;
        assert r.value - pool.base == s * PAGE && (r.value - pool.base) / PAGE == s;
        assert pool.bitmap[..] == Marked(old(pool.bitmap[..]), s, PagesFor(size), true);
        tags := Tagged(tags, s, PagesFor(size), tag);
      }
    }

    /** `pool_free` of pages this caller holds. */
    method Give(handle: u64, size: u64)
      requires Valid() && pool.base <= handle && PagesFor(size) > 0
      requires (handle - pool.base) / PAGE + PagesFor(size) <= |tags|
      requires forall p :: (handle - pool.base) / PAGE <= p < (handle - pool.base) / PAGE + PagesFor(size) ==>
                 tags[p] != NOT_MINE
      modifies this`tags, pool.bitmap
      ensures Valid()
      ensures tags == Tagged(old(tags), (handle - pool.base) / PAGE, PagesFor(size), NOT_MINE)
    {
      ghost var s := (handle - pool.base) / PAGE;
      pool.PoolFree(handle, size);
      assert pool.bitmap[..] == Marked(old(pool.bitmap[..]), s, PagesFor(size), false);
      tags := Tagged(tags, s, PagesFor(size), NOT_MINE);
    }

    /** Before and after a call, every page of this caller's predates it. */
    ghost predicate Quiet()
      reads this
    {
      forall p :: 0 <= p < |tags| ==> tags[p] == NOT_MINE || tags[p] == EARLIER
    }

    method CopyIn(handle: u64, buf: seq<u8>)
      requires pool.base <= handle && handle - pool.base + |buf| <= bytes.Length
      modifies bytes
      ensures bytes[..] == Splice(old(bytes[..]), handle - pool.base, buf)
    {
      var at := handle - pool.base;
      forall i | 0 <= i < |buf| {
        bytes[at + i] := buf[i];
      }
    }

    /** The first `i` entries are mapped, and nothing else of this caller's has changed since `before`. */
    ghost predicate Partly(list: seq<Sg>, i: nat, before: seq<int>)
      requires i <= |list|
      reads this
    {
      && |tags| == |before| && TagsMatch(pool.base, tags, list, i)
      && (forall p :: 0 <= p < |tags| ==> EARLIER <= tags[p] < i && (before[p] == EARLIER <==> tags[p] == EARLIER))
    }

    ghost predicate Carried(list: seq<Sg>, i: nat, dir: Direction)
      requires i <= |list|
      reads bytes
    {
      && (forall k :: 0 <= k < i ==> list[k].IsMapped() && list[k].dmaLen == |list[k].buf|)
      && (!dir.FromDevice? ==> forall k :: 0 <= k < i ==> LoadedIn(pool.base, bytes[..], list[k]))
    }

    /** Fills the new entry's pages; what was loaded before stays loaded. */
    method LoadEntry(sg: Sg, ghost held: seq<int>, ghost list: seq<Sg>, ghost i: nat)
      requires i <= |list| && bytes.Length == PAGE * |held|
      requires sg.IsMapped() && Fits(pool.base, |held|, sg) && sg.dmaLen == |sg.buf|
      requires pool.base <= sg.dmaAddr && sg.dmaAddr - pool.base + |sg.buf| <= bytes.Length
      requires forall p :: 0 <= p < |held| && Covers(pool.base, sg, p) ==> held[p] == NOT_MINE
      requires TagsMatch(pool.base, held, list, i) && forall k :: 0 <= k < i ==> LoadedIn(pool.base, bytes[..], list[k])
      modifies bytes
      ensures LoadedIn(pool.base, bytes[..], sg)
      ensures forall k :: 0 <= k < i ==> LoadedIn(pool.base, bytes[..], list[k])
    {
      ghost var b := bytes[..];
      hide Covers, Fits, TagsMatch, LoadedIn, PagesFor;
      CopyIn(sg.dmaAddr, sg.buf);
      CopyElsewhere(pool.base, sg, b, bytes[..], held);
      LoadedKept(pool.base, b, bytes[..], held, list, i);
    }

    /** One turn of the mapping loop: it fails exactly when its entry finds no room. */
    method MapEntry(list: array<Sg>, i: nat, dir: Direction, others: Others, ghost before: seq<int>)
        returns (ok: bool)
      requires Valid() && i < list.Length && list[i].Sized()
      requires Partly(list[..], i, before) && Carried(list[..], i, dir)
      modifies this`tags, this`theirs, pool.bitmap, pool`bounces, bytes, list
      ensures Valid()
      ensures var n, found := PagesFor(|old(list[i]).buf|), Found(old(tags), others, i);
              && (ok <==> n > 0 && FirstFit(found, n, 0).Some?)
              && (ok ==> tags == Tagged(old(tags), FirstFit(found, n, 0).value, n, i))
      ensures !ok ==> list[..] == old(list[..]) && Partly(list[..], i, before)
      ensures ok ==> && list[..] == old(list[..])[i := list[i]] && list[i].buf == old(list[i]).buf && list[i].buf != []
                     && Partly(list[..], i + 1, before) && Carried(list[..], i + 1, dir)
    {
      hide Covers, Fits, TagsMatch, LoadedIn, PagesFor, FirstFit, Found;
      ghost var start := bytes[..];
      OthersRun(others, i);
      ghost var l, held := list[..], tags;
      if !dir.FromDevice? {
        LoadedKept(pool.base, start, bytes[..], tags, l, i);
      }
      var addr := Take(|list[i].buf|, i);
      if addr.None? {
        return false;
      }
      var sg := list[i].(dmaAddr := addr.value, dmaLen := |list[i].buf|);
      NewEntry(pool.base, |tags|, sg);
      if !dir.FromDevice? {
        LoadEntry(sg, held, l, i);
      }
      TagsExtend(pool.base, held, tags, l, i, sg);
      list[i] := sg;
      assert list[..] == l[i := sg];
      ok := true;
    }

    /** Frees the pages of a mapped entry and marks the entry unmapped. */
    method GiveEntry(list: array<Sg>, k: nat, ghost n: nat)
      requires Valid() && k < n <= list.Length && list[k].IsMapped() && TagsMatch(pool.base, tags, list[..], n)
      modifies this`tags, pool.bitmap, list
      ensures Valid() && TagsMatch(pool.base, tags, list[..], n)
      ensures |tags| == |old(tags)|
      ensures forall p :: 0 <= p < |tags| ==> tags[p] == if old(tags)[p] == k then NOT_MINE else old(tags)[p]
      ensures list[..] == old(list[..])[k := old(list[k]).Unmapped()]
    {
      ghost var before, l := tags, list[..];
      var sg := list[k];
      CoveredPages(pool.base, before, l, n, k);
      Give(sg.dmaAddr, sg.dmaLen);
      list[k] := sg.Unmapped();
      TagsShrink(pool.base, before, tags, l, n, k);
      assert list[..] == l[k := sg.Unmapped()];
    }

    /** The failure path of `dma_map_sg`: every entry mapped so far is given back. */
    method Rollback(list: array<Sg>, i: nat, others: Others, ghost before: seq<int>)
      requires Valid() && i <= list.Length && Partly(list[..], i, before)
      requires forall p :: 0 <= p < |before| ==> before[p] == NOT_MINE || before[p] == EARLIER
      requires forall k :: 0 <= k < i ==> list[k].IsMapped()
      modifies this`tags, this`theirs, pool.bitmap, pool`bounces, bytes, list
      ensures Valid() && tags == before
      ensures forall k :: 0 <= k < list.Length ==> list[k] == if k < i then old(list[k]).Unmapped() else old(list[k])
    {
      hide TagsMatch, Covers, Fits, PagesFor;
      for j := 0 to i
        invariant Valid() && Partly(list[..], i, before)
        invariant forall p :: 0 <= p < |tags| ==> tags[p] < 0 || tags[p] >= j
        invariant forall k :: 0 <= k < list.Length ==>
                    list[k] == if k < j then old(list[k]).Unmapped() else old(list[k])
      {
        OthersRun(others, i + j);
        GiveEntry(list, j, i);
      }
      assert forall p :: 0 <= p < |tags| ==> tags[p] == before[p];
    }

    /**
     `dma_map_sg`. All or nothing: it maps every entry, each in turn to the lowest area
     clear at that moment, on separate pages loaded with its data where the device is to
     read it; or entry `k` finds no room, and then the caller's pages are as they were,
     the entries before `k` are marked unmapped and the others are untouched.
     */
    method DmaMapSg(list: array<Sg>, dir: Direction, others: Others) returns (n: int, ghost k: nat)
      requires Valid() && Quiet() && forall j :: 0 <= j < list.Length ==> list[j].Sized()
      modifies this`tags, this`theirs, pool.bitmap, pool`bounces, bytes, list
      ensures Valid() && forall j :: 0 <= j < list.Length ==> list[j].buf == old(list[j]).buf
      ensures n < 0 ==>
                && k < list.Length && NoRoomAt(old(tags), old(list[..]), others, k) && tags == old(tags)
                && forall j :: 0 <= j < list.Length ==>
                     list[j] == if j < k then old(list[j]).Unmapped() else old(list[j])
      ensures n >= 0 ==>
                && n == list.Length && Partly(list[..], n, old(tags)) && Carried(list[..], n, dir)
                && Fitted(old(tags), old(list[..]), others, n) == Some(tags)
      ensures (exists j :: 0 <= j < list.Length && old(list[j]).buf == []) ==> n < 0
    {
      hide TagsMatch, Covers, Fits, PagesFor, LoadedIn, Found, FirstFit, Fitted, NoRoomAt;
      ghost var before, was := tags, list[..];
      EmptyMatch(pool.base, tags, list[..]);
      NoneFitted(tags, list[..], others);
      var i := 0;
      k := 0;
      while i < list.Length
        invariant 0 <= i <= list.Length && Valid() && Partly(list[..], i, before) && Carried(list[..], i, dir)
        invariant forall j :: 0 <= j < list.Length ==> list[j].buf == was[j].buf
        invariant forall j :: i <= j < list.Length ==> list[j] == was[j]
        invariant forall j :: 0 <= j < i ==> was[j].buf != []
        invariant Fitted(before, was, others, i) == Some(tags)
      {
        FittedNext(before, was, others, i);
        var ok := MapEntry(list, i, dir, others, before);
        if !ok {
          k := i;
          NothingFits(before, was, others, k);
          Rollback(list, i, others, before);
          return -12, k;
        }
        i := i + 1;
      }
      n := list.Length;
    }

    /** Reads back what the device left in an entry's pages. */
    method CopyOut(sg: Sg) returns (buf: seq<u8>)
      requires pool.base <= sg.dmaAddr && sg.dmaAddr - pool.base + sg.dmaLen <= bytes.Length && sg.dmaLen <= |sg.buf|
      ensures buf == bytes[sg.dmaAddr - pool.base..sg.dmaAddr - pool.base + sg.dmaLen] + sg.buf[sg.dmaLen..]
    {
      var at := sg.dmaAddr - pool.base;
      buf := bytes[at..at + sg.dmaLen] + sg.buf[sg.dmaLen..];
    }

    /** The entry after an unmap that began with the aperture holding `start`. */
    ghost function Returned(start: seq<u8>, sg: Sg, dir: Direction): Sg
      requires |start| == bytes.Length
    {
      if !sg.IsMapped() then sg
      else if dir.ToDevice?
          || !(pool.base <= sg.dmaAddr && sg.dmaAddr - pool.base + sg.dmaLen <= |start| && sg.dmaLen <= |sg.buf|)
      then sg.Unmapped()
      else sg.Unmapped().(buf := start[sg.dmaAddr - pool.base..sg.dmaAddr - pool.base + sg.dmaLen]
          + sg.buf[sg.dmaLen..])
    }

    /**
     `dma_unmap_sg`: every mapped entry gets back what its pages held when the call
     began, whatever other threads did meanwhile, and gives its pages up; entries that
     are not mapped are passed over.
     */
    method DmaUnmapSg(list: array<Sg>, dir: Direction, others: Others)
      requires Valid() && TagsMatch(pool.base, tags, list[..], list.Length)
      requires forall k :: 0 <= k < list.Length ==> list[k].IsMapped() ==> list[k].dmaLen <= |list[k].buf|
      modifies this`tags, this`theirs, pool.bitmap, pool`bounces, bytes, list
      ensures Valid() && |tags| == |old(tags)|
      ensures forall p :: 0 <= p < |tags| ==>
                tags[p] == if 0 <= old(tags)[p] < list.Length then NOT_MINE else old(tags)[p]
      ensures forall k :: 0 <= k < list.Length ==> list[k] == Returned(old(bytes[..]), old(list[k]), dir)
      ensures forall k :: 0 <= k < list.Length && old(list[k]).IsMapped() ==>
                var sg, at := old(list[k]), old(list[k]).dmaAddr - pool.base;
                && 0 <= at && at + sg.dmaLen <= bytes.Length
                && list[k].dmaAddr == 0xffff_ffff_ffff_ffff && list[k].dmaLen == 0
                && list[k].buf == if dir == Direction.ToDevice then sg.buf
                                  else old(bytes[..])[at..at + sg.dmaLen] + sg.buf[sg.dmaLen..]
      ensures TagsMatch(pool.base, tags, list[..], list.Length)
      ensures forall k :: 0 <= k < list.Length ==> !list[k].IsMapped()
    {
      hide Covers, Fits, PagesFor, TagsMatch;
      ghost var start, before := bytes[..], tags;
      MappedInside(pool.base, tags, list[..], |start|);
      for i := 0 to list.Length
        invariant Valid() && |tags| == |before| && TagsMatch(pool.base, tags, list[..], list.Length)
        invariant forall p :: 0 <= p < |tags| ==> tags[p] == if 0 <= before[p] < i then NOT_MINE else before[p]
        invariant forall k :: 0 <= k < list.Length ==>
                    list[k] == if k < i then Returned(start, old(list[k]), dir) else old(list[k])
        invariant forall a :: 0 <= a < |start| && tags[a / PAGE] != NOT_MINE ==> bytes[a] == start[a]
      {
        OthersRun(others, i);
        UnmapEntry(list, i, dir, start);
      }
    }

    method UnmapEntry(list: array<Sg>, i: nat, dir: Direction, ghost start: seq<u8>)
      requires Valid() && i < list.Length && TagsMatch(pool.base, tags, list[..], list.Length)
          && |start| == bytes.Length
      requires list[i].IsMapped() ==> list[i].dmaLen <= |list[i].buf|
      requires forall a :: 0 <= a < |start| && tags[a / PAGE] != NOT_MINE ==> bytes[a] == start[a]
      modifies this`tags, pool.bitmap, list
      ensures Valid() && |tags| == |old(tags)| && TagsMatch(pool.base, tags, list[..], list.Length)
      ensures forall p :: 0 <= p < |tags| ==> tags[p] == if old(tags)[p] == i then NOT_MINE else old(tags)[p]
      ensures list[..] == old(list[..])[i := Returned(start, old(list[i]), dir)]
    {
      ghost var l := list[..];
      if !list[i].IsMapped() {
        Untagged(pool.base, tags, l, i);
        return;
      }
      HeldBytes(pool.base, tags, l, i, bytes[..], start);
      if !dir.ToDevice? {
        var buf := CopyOut(list[i]);
        RefillMatch(pool.base, tags, l, i, buf);
        list[i] := list[i].(buf := buf);
        assert list[..] == l[i := l[i].(buf := buf)];
      }
      GiveEntry(list, i, list.Length);
      assert list[..] == l[i := Returned(start, l[i], dir)];
    }

    /** With one clear run as long as all entries together, and none empty, the call maps the whole list. */
    method MapWithRoom(list: array<Sg>, dir: Direction, others: Others, ghost a: nat) returns (n: int)
      requires Valid() && Quiet() && forall j :: 0 <= j < list.Length ==> list[j].Sized() && list[j].buf != []
      requires LeftClear(tags, others, a, Needed(list[..], 0))
      modifies this`tags, this`theirs, pool.bitmap, pool`bounces, bytes, list
      ensures n == list.Length && Partly(list[..], n, old(tags)) && Carried(list[..], n, dir)
    {
      hide LeftClear, NoRoomAt, Needed, Partly, Carried, Fitted;
      ghost var before, was := tags, list[..];
      ghost var k;
      n, k := DmaMapSg(list, dir, others);
      if n < 0 {
        NeverWithoutRoom(before, was, others, a, k);
      }
    }

    /** A mapping undone restores the caller's pages, and undoing it again frees nothing more. */
    method MapThenUnmapTwice(list: array<Sg>, dir: Direction, others: Others) returns (n: int)
      requires Valid() && Quiet() && forall k :: 0 <= k < list.Length ==> list[k].Sized()
      modifies this`tags, this`theirs, pool.bitmap, pool`bounces, bytes, list
      ensures Valid() && tags == old(tags)
    {
      hide Covers, Fits, PagesFor, TagsMatch, LoadedIn;
      ghost var k;
      n, k := DmaMapSg(list, dir, others);
      if n >= 0 {
        DmaUnmapSg(list, dir, others);
        assert forall p :: 0 <= p < |tags| ==> tags[p] == old(tags)[p];
        DmaUnmapSg(list, dir, others);
        assert forall p :: 0 <= p < |tags| ==> tags[p] == old(tags)[p];
      }
    }
  }

  lemma NoneFitted(tags: seq<int>, list: seq<Sg>, others: Others)
    requires forall j :: 0 <= j < |list| ==> list[j].Sized()
    ensures Fitted(tags, list, others, 0) == Some(tags)
  {
  }

  /** The next entry goes to the lowest area clear by then, or nowhere. */
  lemma FittedNext(tags: seq<int>, list: seq<Sg>, others: Others, k: nat)
    requires k < |list| && forall j :: 0 <= j < |list| ==> list[j].Sized()
    requires Fitted(tags, list, others, k).Some?
    ensures var t, n := Fitted(tags, list, others, k).value, PagesFor(|list[k].buf|);
            var f := FirstFit(Found(t, others, k), n, 0);
            Fitted(tags, list, others, k + 1) == if n > 0 && f.Some? then Some(Tagged(t, f.value, n, k)) else None
  {
  }

  lemma NothingFits(tags: seq<int>, list: seq<Sg>, others: Others, k: nat)
    requires k < |list| && forall j :: 0 <= j < |list| ==> list[j].Sized()
    requires var t, n := Fitted(tags, list, others, k), PagesFor(|list[k].buf|);
             t.Some? && (n == 0 || FirstFit(Found(t.value, others, k), n, 0).None?)
    ensures NoRoomAt(tags, list, others, k)
  {
    hide Fitted, Found;
    var found, n := Found(Fitted(tags, list, others, k).value, others, k), PagesFor(|list[k].buf|);
    if n > 0 {
      forall s: nat
        ensures !Clear(found, s, n)
      {
        if s > |found| {
          assert s + n > |found|;
        }
      }
    }
  }

  // ---- When mapping succeeds ----

  /** A placement leaves all that the later entries need of a clear run, wherever it begins. */
  lemma RunShrinks(tags: seq<int>, others: Others, step: nat, a: nat, room: nat, n: nat, tag: nat)
      returns (b: nat)
    requires LeftClear(tags, others, a, room) && 0 < n <= room
    ensures var f := FirstFit(Found(tags, others, step), n, 0);
            f.Some? && f.value + n <= |tags| && LeftClear(Tagged(tags, f.value, n, tag), others, b, room - n)
  {
    var found := Found(tags, others, step);
    forall p | a <= p < a + n
      ensures !found[p]
    {
      assert NeverTaken(others, p);
    }
    assert Clear(found, a, n);
    hide Found;
    var s := FirstFit(found, n, 0).value;
    assert s <= a;
    b := if s + n <= a then a else s + n;
    hide FirstFit, NeverTaken, Clear;
  }

  /**
   If one run of pages as long as all entries together stays clear of the caller and of
   others, no entry empty, every entry finds room: first fit never wastes the run.
   */
  lemma {:induction false} RunSuffices(tags: seq<int>, list: seq<Sg>, others: Others, a: nat, k: nat)
      returns (b: nat)
    requires k <= |list| && forall j :: 0 <= j < |list| ==> list[j].Sized() && list[j].buf != []
    requires LeftClear(tags, others, a, Needed(list, 0))
    ensures var t := Fitted(tags, list, others, k);
            t.Some? && LeftClear(t.value, others, b, Needed(list, k))
  {
    hide Found, LeftClear, FirstFit;
    if k == 0 {
      b := a;
    } else {
      var c := RunSuffices(tags, list, others, a, k - 1);
      var t := Fitted(tags, list, others, k - 1).value;
      b := RunShrinks(t, others, k - 1, c, Needed(list, k - 1), PagesFor(|list[k - 1].buf|), k - 1);
    }
  }

  /** So on such a list no entry can be the one that finds no room, and the call maps it all. */
  lemma NeverWithoutRoom(tags: seq<int>, list: seq<Sg>, others: Others, a: nat, k: nat)
    requires k < |list| && forall j :: 0 <= j < |list| ==> list[j].Sized() && list[j].buf != []
    requires LeftClear(tags, others, a, Needed(list, 0))
    ensures !NoRoomAt(tags, list, others, k)
  {
    hide LeftClear;
    var b := RunSuffices(tags, list, others, a, k + 1);
  }

  /** A freshly taken, page-aligned range is a proper mapping: it is never the error address. */
  lemma NewEntry(base: u64, pages: nat, sg: Sg)
    requires base % PAGE == 0 && base <= sg.dmaAddr && (sg.dmaAddr - base) % PAGE == 0
    requires sg.dmaLen == |sg.buf| && PagesFor(sg.dmaLen) > 0
        && (sg.dmaAddr - base) / PAGE + PagesFor(sg.dmaLen) <= pages
    ensures sg.IsMapped() && Fits(base, pages, sg) && sg.dmaAddr - base + |sg.buf| <= PAGE * pages
    ensures forall p :: Covers(base, sg, p) <==>
              (sg.dmaAddr - base) / PAGE <= p < (sg.dmaAddr - base) / PAGE + PagesFor(sg.dmaLen)
  {
    if sg.dmaLen > 0 {
      ByteIsCovered(base, pages, sg, sg.dmaLen - 1);
    }
  }

  /** Filling the new entry's pages leaves the bytes of pages held before alone. */
  lemma CopyElsewhere(base: u64, sg: Sg, before: seq<u8>, after: seq<u8>, held: seq<int>)
    requires sg.IsMapped() && Fits(base, |held|, sg) && sg.dmaLen == |sg.buf|
    requires |before| == PAGE * |held| && sg.dmaAddr - base + |sg.buf| <= |before|
    requires after == Splice(before, sg.dmaAddr - base, sg.buf)
    requires forall p :: 0 <= p < |held| && Covers(base, sg, p) ==> held[p] == NOT_MINE
    ensures forall a :: 0 <= a < |before| && held[a / PAGE] != NOT_MINE ==> before[a] == after[a]
    ensures LoadedIn(base, after, sg)
  {
    forall a | 0 <= a < |before|
      ensures before[a] == after[a] || held[a / PAGE] == NOT_MINE
    {
      var at := sg.dmaAddr - base;
      if at <= a < at + |sg.buf| {
        ByteIsCovered(base, |held|, sg, a - at);
      }
    }
    assert after[sg.dmaAddr - base..sg.dmaAddr - base + |sg.buf|] == sg.buf;
  }

  lemma TagsExtend(base: u64, held: seq<int>, tags: seq<int>, list: seq<Sg>, i: nat, sg: Sg)
    requires i < |list| && TagsMatch(base, held, list, i) && Fits(base, |held|, sg) && sg.IsMapped()
    requires forall p :: 0 <= p < |held| ==> held[p] < i && (Covers(base, sg, p) ==> held[p] == NOT_MINE)
    requires |tags| == |held| && forall p :: 0 <= p < |held| ==> tags[p] == if Covers(base, sg, p) then i else held[p]
    ensures TagsMatch(base, tags, list[i := sg], i + 1)
  {
    var longer := list[i := sg];
    forall k, p | 0 <= k < i + 1 && 0 <= p < |tags|
      ensures tags[p] == k <==> Covers(base, longer[k], p)
    {
      assert k < i ==> (held[p] == k <==> Covers(base, list[k], p));
    }
  }

  lemma EmptyMatch(base: u64, tags: seq<int>, list: seq<Sg>)
    ensures TagsMatch(base, tags, list, 0)
  {
  }

  lemma CoveredPages(base: u64, tags: seq<int>, list: seq<Sg>, n: nat, k: nat)
    requires k < n <= |list| && TagsMatch(base, tags, list, n) && list[k].IsMapped()
    ensures Fits(base, |tags|, list[k])
    ensures forall p :: 0 <= p < |tags| ==> (tags[p] == k <==> Covers(base, list[k], p))
  {
  }

  lemma TagsShrink(base: u64, before: seq<int>, tags: seq<int>, list: seq<Sg>, n: nat, k: nat)
    requires k < n <= |list| && TagsMatch(base, before, list, n) && |tags| == |before|
    requires forall p :: 0 <= p < |tags| ==> tags[p] == if before[p] == k then NOT_MINE else before[p]
    ensures TagsMatch(base, tags, list[k := list[k].Unmapped()], n)
  {
    var fewer := list[k := list[k].Unmapped()];
    forall j, p | 0 <= j < n && 0 <= p < |tags|
      ensures tags[p] == j <==> Covers(base, fewer[j], p)
    {
      assert before[p] == j <==> Covers(base, list[j], p);
    }
  }

  lemma MappedInside(base: u64, tags: seq<int>, list: seq<Sg>, bytes: nat)
    requires TagsMatch(base, tags, list, |list|) && bytes == PAGE * |tags|
    ensures forall k :: 0 <= k < |list| && list[k].IsMapped() ==>
              0 <= list[k].dmaAddr - base && list[k].dmaAddr - base + list[k].dmaLen <= bytes
  {
    forall k | 0 <= k < |list| && list[k].IsMapped()
      ensures 0 <= list[k].dmaAddr - base && list[k].dmaAddr - base + list[k].dmaLen <= bytes
    {
      assert Fits(base, |tags|, list[k]);
      ByteIsCovered(base, |tags|, list[k], list[k].dmaLen - 1);
    }
  }

  lemma Untagged(base: u64, tags: seq<int>, list: seq<Sg>, k: nat)
    requires k < |list| && TagsMatch(base, tags, list, |list|) && !list[k].IsMapped()
    ensures forall p :: 0 <= p < |tags| ==> tags[p] != k
  {
    forall p | 0 <= p < |tags|
      ensures tags[p] != k
    {
      assert !Covers(base, list[k], p);
    }
  }

  /** The bytes of a held entry are what they were when the caller last looked. */
  lemma HeldBytes(base: u64, tags: seq<int>, list: seq<Sg>, k: nat, bytes: seq<u8>, start: seq<u8>)
    requires k < |list| && TagsMatch(base, tags, list, |list|) && list[k].IsMapped()
    requires |bytes| == |start| == PAGE * |tags|
    requires forall a :: 0 <= a < |start| && tags[a / PAGE] != NOT_MINE ==> bytes[a] == start[a]
    ensures base <= list[k].dmaAddr && list[k].dmaAddr - base + list[k].dmaLen <= |bytes|
    ensures var at := list[k].dmaAddr - base;
            bytes[at..at + list[k].dmaLen] == start[at..at + list[k].dmaLen]
  {
    var at := list[k].dmaAddr - base;
    assert Fits(base, |tags|, list[k]);
    ByteIsCovered(base, |tags|, list[k], list[k].dmaLen - 1);
    forall a | at <= a < at + list[k].dmaLen
      ensures bytes[a] == start[a]
    {
      ByteIsCovered(base, |tags|, list[k], a - at);
      assert tags[a / PAGE] == k;
    }
  }

  lemma RefillMatch(base: u64, tags: seq<int>, list: seq<Sg>, k: nat, buf: seq<u8>)
    requires k < |list| && TagsMatch(base, tags, list, |list|)
    ensures TagsMatch(base, tags, list[k := list[k].(buf := buf)], |list|)
  {
    var other := list[k := list[k].(buf := buf)];
    forall j, p | 0 <= j < |list| && 0 <= p < |tags|
      ensures tags[p] == j <==> Covers(base, other[j], p)
    {
      assert Covers(base, other[j], p) == Covers(base, list[j], p);
    }
  }
}
