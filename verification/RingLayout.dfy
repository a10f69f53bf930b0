/** Where the fields of a split ring lie, and why slots and wrapped counters never collide. */
module RingLayout {
  import opened Words
  import opened GuestMemory
  import opened Virtqueue

  /** Section 2.7 of VIRTIO 1.2: a queue size is a power of two, at most 32768. */
  predicate QueueSize(n: nat) {
    n in {1, 2, 4, 8, 16, 32, 64, 128, 256, 512, 1024, 2048, 4096, 8192, 16384, 32768}
  }

  /** Both rings lie inside the aperture and apart from each other. */
  ghost predicate Placed(ram: Ram, q: Queue) {
    && QueueSize(q.num)
    && ram.base + |ram.bytes| <= 0x1_0000_0000_0000_0000
    && ram.base <= q.avail && q.avail + 4 + 2 * q.num <= ram.base + |ram.bytes|
    && ram.base <= q.used && q.used + 4 + 8 * q.num <= ram.base + |ram.bytes|
    && Apart(q.avail, 4 + 2 * q.num, q.used, 4 + 8 * q.num)
  }

  /** Memory changed nowhere in the rings; the available flags, which the daemon never reads, may change. */
  ghost predicate RingsKept(q: Queue, ram: Ram, ram': Ram) {
    && ram.AgreesOn(ram', q.avail + 2, 2 + 2 * q.num)
    && ram.AgreesOn(ram', q.used, 4 + 8 * q.num)
  }

  // ---- Slots and counters ----

  /** A counter as it is stored in 16 bits. */
  function Wrapped(i: nat): u16 {
    i % 0x1_0000
  }

  lemma WrappedNext(i: nat)
    ensures Add16(Wrapped(i), 1) == Wrapped(i + 1)
  {
  }

  /** Counters less than 65536 apart are told apart by their low 16 bits. */
  lemma WrappedApart(i: nat, j: nat)
    requires i <= j < i + 0x1_0000 && Wrapped(i) == Wrapped(j)
    ensures i == j
  {
  }

  /** Wrapping at 16 bits does not disturb the slot, because the size divides 65536. */
  lemma SlotOfWrapped(q: Queue, i: nat)
    requires QueueSize(q.num)
    ensures Slot(q, Wrapped(i)) == i % q.num < q.num
  {
    assert 0x1_0000 % q.num == 0;
    DivisorKeepsSlot(q.num, i);
  }

  lemma DivisorKeepsSlot(n: nat, i: nat)
    requires n > 0 && 0x1_0000 % n == 0
    ensures Wrapped(i) % n == i % n
  {
    var k := 0x1_0000 / n;
    assert n * k == 0x1_0000;
    var a, r := i / 0x1_0000, i % 0x1_0000;
    assert i == n * (k * a) + r by {
      assert n * (k * a) == (n * k) * a;
    }
    ModShift(n, k * a, r);
  }

  /**
   The device accepts any size whose low 16 bits are not zero. Successive positions keep
   to successive slots over every wrap of the counter exactly when that size divides 65536.
   */
  lemma SlotsSurviveWrapping(q: Queue)
    requires q.num % 0x1_0000 != 0
    ensures (forall i: nat :: Slot(q, Wrapped(i)) == i % (q.num % 0x1_0000)) <==> 0x1_0000 % (q.num % 0x1_0000) == 0
  {
    var n := q.num % 0x1_0000;
    if 0x1_0000 % n == 0 {
      forall i: nat
        ensures Slot(q, Wrapped(i)) == i % n
      {
        DivisorKeepsSlot(n, i);
      }
    } else {
      assert Slot(q, Wrapped(0x1_0000)) == 0;
    }
  }

  /** In a ring of three, the entries on either side of the counter's wrap share a slot. */
  lemma ThreeEntriesCollide()
    ensures var q := Queue(3, 1, 0, 0, 0, 0);
            Slot(q, Wrapped(0xffff)) == Slot(q, Wrapped(0x1_0000)) == 0 && 0x1_0000 % 3 == 1
  {
  }

  lemma ModShift(n: nat, a: nat, r: nat)
    requires n > 0
    ensures (n * a + r) % n == r % n
  {
    var b := r / n;
    assert n * a + r == n * (a + b) + r % n;
    ModUnique(n, n * a + r, a + b, r % n);
  }

  /** A quotient and a remainder below the divisor are determined by the number they make up. */
  lemma ModUnique(n: nat, x: nat, c: nat, r: nat)
    requires n > 0 && r < n && x == n * c + r
    ensures x % n == r
  {
    Quotients(n, c, r, x / n, x % n);
  }

  lemma Quotients(n: nat, a: nat, r: nat, b: nat, s: nat)
    requires r < n && s < n && n * a + r == n * b + s
    ensures a == b && r == s
  {
    if a < b {
      MulGap(n, a, b);
    } else if b < a {
      MulGap(n, b, a);
    }
  }

  lemma MulGap(n: nat, a: nat, b: nat)
    requires a < b
    ensures n * a + n <= n * b
  {
    var d := b - a - 1;
    assert n * b == n * a + n + n * d;
    assert n * d >= 0;
  }

  /** Two positions less than a ring apart never share a slot. */
  lemma SlotsDistinct(n: nat, i: nat, j: nat)
    requires n > 0 && i < j < i + n
    ensures i % n != j % n
  {
    var a, b := i / n, j / n;
    if a < b && i % n == j % n {
      MulGap(n, a, b);
    } else if b < a {
      MulGap(n, b, a);
    }
  }

  // ---- Field addresses ----

  function AvailIdxAt(q: Queue): u64 {
    Add64(q.avail, 2)
  }

  function UsedIdxAt(q: Queue): u64 {
    Add64(q.used, 2)
  }

  function AvailSlotAt(q: Queue, i: nat): u64
    requires QueueSize(q.num)
  {
    AvailSlotAddr(q, Wrapped(i))
  }

  function UsedIdAt(q: Queue, i: nat): u64
    requires QueueSize(q.num)
  {
    UsedElemAddr(q, Wrapped(i))
  }

  function UsedLenAt(q: Queue, i: nat): u64
    requires QueueSize(q.num)
  {
    Add64(UsedElemAddr(q, Wrapped(i)), 4)
  }

  /** The addresses of position `i`, without wrap-around. */
  lemma Addresses(ram: Ram, q: Queue, i: nat)
    requires Placed(ram, q)
    ensures AvailIdxAt(q) == q.avail + 2 && UsedIdxAt(q) == q.used + 2
    ensures AvailSlotAt(q, i) == q.avail + 4 + 2 * (i % q.num) && i % q.num < q.num
    ensures UsedIdAt(q, i) == q.used + 4 + 8 * (i % q.num)
    ensures UsedLenAt(q, i) == q.used + 8 + 8 * (i % q.num)
  {
    SlotOfWrapped(q, i);
  }

  /** The published heads from position `lo` on are in their slots. */
  ghost predicate AvailHolds(ram: Ram, q: Queue, lo: nat, heads: seq<u16>)
    requires QueueSize(q.num)
  {
    forall i :: lo <= i < |heads| ==> ram.Read16(AvailSlotAt(q, i)) == Some(heads[i])
  }

  datatype Elem = Elem(id: u32, len: u32)

  ghost predicate UsedAt(ram: Ram, q: Queue, i: nat, e: Elem)
    requires QueueSize(q.num)
  {
    && ram.Read(UsedIdAt(q, i), 4) == Some(Store32(e.id))
    && ram.Read(UsedLenAt(q, i), 4) == Some(Store32(e.len))
  }

  /** The used elements from position `lo` on are in their slots. */
  ghost predicate UsedHolds(ram: Ram, q: Queue, lo: nat, elems: seq<Elem>)
    requires QueueSize(q.num)
  {
    forall i :: lo <= i < |elems| ==> UsedAt(ram, q, i, elems[i])
  }

  lemma Read16Agrees(r: Ram, s: Ram, gpa: u64)
    requires r.AgreesOn(s, gpa, 2)
    ensures r.Read16(gpa) == s.Read16(gpa)
  {
    ReadAgrees(r, s, gpa, 2);
  }

  /** A change that keeps the available area keeps everything that is read from it. */
  lemma AvailKept(q: Queue, r: Ram, s: Ram, lo: nat, heads: seq<u16>)
    requires Placed(r, q) && r.AgreesOn(s, q.avail + 2, 2 + 2 * q.num)
    ensures s.Read16(AvailIdxAt(q)) == r.Read16(AvailIdxAt(q))
    ensures s.Read16(AvailSlotAt(q, |heads|)) == r.Read16(AvailSlotAt(q, |heads|))
    ensures AvailHolds(r, q, lo, heads) ==> AvailHolds(s, q, lo, heads)
  {
    forall i: nat
      ensures s.Read16(AvailSlotAt(q, i)) == r.Read16(AvailSlotAt(q, i))
    {
      Addresses(r, q, i);
      Read16Agrees(r, s, AvailSlotAt(q, i));
    }
    Addresses(r, q, 0);
    Read16Agrees(r, s, AvailIdxAt(q));
  }

  /** A change that keeps the used area keeps everything that is read from it. */
  lemma UsedKept(q: Queue, r: Ram, s: Ram, lo: nat, elems: seq<Elem>)
    requires Placed(r, q) && r.AgreesOn(s, q.used, 4 + 8 * q.num)
    ensures s.Read16(UsedIdxAt(q)) == r.Read16(UsedIdxAt(q))
    ensures s.Read(UsedIdAt(q, |elems|), 4) == r.Read(UsedIdAt(q, |elems|), 4)
    ensures s.Read(UsedLenAt(q, |elems|), 4) == r.Read(UsedLenAt(q, |elems|), 4)
    ensures UsedHolds(r, q, lo, elems) ==> UsedHolds(s, q, lo, elems)
  {
    forall i: nat
      ensures s.Read(UsedIdAt(q, i), 4) == r.Read(UsedIdAt(q, i), 4)
      ensures s.Read(UsedLenAt(q, i), 4) == r.Read(UsedLenAt(q, i), 4)
    {
      Addresses(r, q, i);
      ReadAgrees(r, s, UsedIdAt(q, i), 4);
      ReadAgrees(r, s, UsedLenAt(q, i), 4);
    }
    Addresses(r, q, 0);
    Read16Agrees(r, s, UsedIdxAt(q));
  }

  /** Filling the slot after the last published head disturbs nothing that is still pending. */
  lemma FillSlot(q: Queue, r: Ram, s: Ram, lo: nat, heads: seq<u16>, h: u16)
    requires Placed(r, q) && lo <= |heads| < lo + q.num
    requires r.Write(AvailSlotAt(q, |heads|), Store16(h)) == Some(s)
    ensures Placed(s, q) && r.AgreesOn(s, q.used, 4 + 8 * q.num)
    ensures s.Read16(AvailIdxAt(q)) == r.Read16(AvailIdxAt(q))
    ensures s.Read16(AvailSlotAt(q, |heads|)) == Some(h)
    ensures AvailHolds(r, q, lo, heads) ==> AvailHolds(s, q, lo, heads)
  {
    var n := |heads|;
    ReadAfterWrite(r, s, AvailSlotAt(q, n), Store16(h));
    Addresses(r, q, n);
    Read16Agrees(r, s, AvailIdxAt(q));
    forall i | lo <= i < n
      ensures s.Read16(AvailSlotAt(q, i)) == r.Read16(AvailSlotAt(q, i))
    {
      Addresses(r, q, i);
      SlotsDistinct(q.num, i, n);
      Read16Agrees(r, s, AvailSlotAt(q, i));
    }
  }

  /** Moving the available index exposes the filled slot and disturbs nothing. */
  lemma MoveAvailIdx(q: Queue, r: Ram, s: Ram, lo: nat, heads: seq<u16>, v: u16)
    requires Placed(r, q) && r.Write(AvailIdxAt(q), Store16(v)) == Some(s)
    ensures Placed(s, q) && r.AgreesOn(s, q.used, 4 + 8 * q.num)
    ensures s.Read16(AvailIdxAt(q)) == Some(v)
    ensures s.Read16(AvailSlotAt(q, |heads|)) == r.Read16(AvailSlotAt(q, |heads|))
    ensures AvailHolds(r, q, lo, heads) ==> AvailHolds(s, q, lo, heads)
  {
    ReadAfterWrite(r, s, AvailIdxAt(q), Store16(v));
    forall i: nat
      ensures s.Read16(AvailSlotAt(q, i)) == r.Read16(AvailSlotAt(q, i))
    {
      Addresses(r, q, i);
      Read16Agrees(r, s, AvailSlotAt(q, i));
    }
    Addresses(r, q, 0);
  }

  /** Writing half of the next used element disturbs no element the driver has yet to collect. */
  lemma WriteElem(q: Queue, r: Ram, s: Ram, lo: nat, elems: seq<Elem>, first: bool, v: u32)
    requires Placed(r, q) && lo <= |elems| < lo + q.num
    requires r.Write(if first then UsedIdAt(q, |elems|) else UsedLenAt(q, |elems|), Store32(v)) == Some(s)
    ensures Placed(s, q) && r.AgreesOn(s, q.avail + 2, 2 + 2 * q.num)
    ensures s.Read16(UsedIdxAt(q)) == r.Read16(UsedIdxAt(q))
    ensures s.Read(if first then UsedIdAt(q, |elems|) else UsedLenAt(q, |elems|), 4) == Some(Store32(v))
    ensures !first ==> s.Read(UsedIdAt(q, |elems|), 4) == r.Read(UsedIdAt(q, |elems|), 4)
    ensures UsedHolds(r, q, lo, elems) ==> UsedHolds(s, q, lo, elems)
  {
    var n := |elems|;
    var at := if first then UsedIdAt(q, n) else UsedLenAt(q, n);
    ReadAfterWrite(r, s, at, Store32(v));
    Addresses(r, q, n);
    Read16Agrees(r, s, UsedIdxAt(q));
    if !first {
      ReadAgrees(r, s, UsedIdAt(q, n), 4);
    }
    forall i | lo <= i < n
      ensures s.Read(UsedIdAt(q, i), 4) == r.Read(UsedIdAt(q, i), 4)
      ensures s.Read(UsedLenAt(q, i), 4) == r.Read(UsedLenAt(q, i), 4)
    {
      Addresses(r, q, i);
      SlotsDistinct(q.num, i, n);
      ReadAgrees(r, s, UsedIdAt(q, i), 4);
      ReadAgrees(r, s, UsedLenAt(q, i), 4);
    }
  }

  /** Moving the used index exposes the finished element and disturbs nothing. */
  lemma MoveUsedIdx(q: Queue, r: Ram, s: Ram, lo: nat, elems: seq<Elem>, v: u16)
    requires Placed(r, q) && r.Write(UsedIdxAt(q), Store16(v)) == Some(s)
    ensures Placed(s, q) && r.AgreesOn(s, q.avail + 2, 2 + 2 * q.num)
    ensures s.Read16(UsedIdxAt(q)) == Some(v)
    ensures s.Read(UsedIdAt(q, |elems|), 4) == r.Read(UsedIdAt(q, |elems|), 4)
    ensures s.Read(UsedLenAt(q, |elems|), 4) == r.Read(UsedLenAt(q, |elems|), 4)
    ensures UsedHolds(r, q, lo, elems) ==> UsedHolds(s, q, lo, elems)
  {
    ReadAfterWrite(r, s, UsedIdxAt(q), Store16(v));
    forall i: nat
      ensures s.Read(UsedIdAt(q, i), 4) == r.Read(UsedIdAt(q, i), 4)
      ensures s.Read(UsedLenAt(q, i), 4) == r.Read(UsedLenAt(q, i), 4)
    {
      Addresses(r, q, i);
      ReadAgrees(r, s, UsedIdAt(q, i), 4);
      ReadAgrees(r, s, UsedLenAt(q, i), 4);
    }
    Addresses(r, q, 0);
  }
}
