/**
 First queue set-up through the shadow registers, against the same writes made directly
 to the device. The scan delivers only what changed, and a select clears what was there,
 so the two agree only under the order in which a driver sets its queues up.
 */
module UioSetup {
  import opened Words
  import opened Virtqueue
  import opened Registers
  import opened DeviceBinding
  import opened UioScan

  // ---- A queue as the registers that program it ----

  function RegOf(q: Queue, off: u64): u32 {
    if off == QUEUE_NUM then q.num
    else if off == QUEUE_READY then q.ready
    else if off == QUEUE_DESC_LOW then q.desc % 0x1_0000_0000
    else if off == QUEUE_DESC_HIGH then q.desc / 0x1_0000_0000
    else if off == QUEUE_AVAIL_LOW then q.avail % 0x1_0000_0000
    else if off == QUEUE_AVAIL_HIGH then q.avail / 0x1_0000_0000
    else if off == QUEUE_USED_LOW then q.used % 0x1_0000_0000
    else q.used / 0x1_0000_0000
  }

  lemma RegOfWrite(q: Queue, off: u64, v: u32, other: u64)
    requires IsQueueRegister(off) && IsQueueRegister(other)
    ensures RegOf(QueueWrite(q, off, v), other) == if other == off then v else RegOf(q, other)
    ensures QueueWrite(q, off, v).lastAvail == q.lastAvail
  {
    HalvesOf(q.desc, v);
    HalvesOf(q.avail, v);
    HalvesOf(q.used, v);
    hide WithLow, WithHigh;
  }

  lemma HalvesOf(x: u64, v: u32)
    ensures WithLow(x, v) % 0x1_0000_0000 == v && WithLow(x, v) / 0x1_0000_0000 == x / 0x1_0000_0000
    ensures WithHigh(x, v) % 0x1_0000_0000 == x % 0x1_0000_0000 && WithHigh(x, v) / 0x1_0000_0000 == v
  {
  }

  /** Queues with the same cursor and equal registers are equal. */
  lemma RegsDetermine(p: Queue, q: Queue)
    requires p.lastAvail == q.lastAvail
    requires forall i :: 0 <= i < COUNT && IsQueueIndex(i) ==> RegOf(p, WRITE_OFFSETS[i]) == RegOf(q, WRITE_OFFSETS[i])
    ensures p == q
  {
    assert RegOf(p, WRITE_OFFSETS[4]) == RegOf(q, WRITE_OFFSETS[4]);
    assert RegOf(p, WRITE_OFFSETS[5]) == RegOf(q, WRITE_OFFSETS[5]);
    assert RegOf(p, WRITE_OFFSETS[6]) == RegOf(q, WRITE_OFFSETS[6]);
    assert RegOf(p, WRITE_OFFSETS[7]) == RegOf(q, WRITE_OFFSETS[7]);
    assert RegOf(p, WRITE_OFFSETS[8]) == RegOf(q, WRITE_OFFSETS[8]);
    assert RegOf(p, WRITE_OFFSETS[9]) == RegOf(q, WRITE_OFFSETS[9]);
    assert RegOf(p, WRITE_OFFSETS[10]) == RegOf(q, WRITE_OFFSETS[10]);
    assert RegOf(p, WRITE_OFFSETS[11]) == RegOf(q, WRITE_OFFSETS[11]);
  }

  function Word(u: Uio, i: nat): u32
    requires u.Shaped() && i < COUNT
  {
    At(u.words, WRITE_OFFSETS[i])
  }

  // ---- What a scan delivers ----

  /** Only queue registers differ from their shadows. */
  ghost predicate OnlyQueuePending(u: Uio) {
    u.Shaped() && forall i :: 0 <= i < COUNT && !IsQueueIndex(i) ==> Word(u, i) == u.shadow[i]
  }

  /** A scan that is already at register `a`, carried on to register `k`. */
  function ScanOn(u: Uio, size: u32, a: nat, k: nat, n: Serving): (s: Scan)
    requires u.Shaped() && a <= k <= COUNT
    ensures s.u.Shaped()
    decreases k - a
  {
    if k == a then Scan(true, u)
    else
      var s := ScanOn(u, size, a, k - 1, n);
      if s.ok then ScanOne(s.u, size, k - 1, n) else s
  }

  lemma {:induction false} ScanFromStart(u: Uio, size: u32, k: nat, n: Serving)
    requires u.Shaped() && k <= COUNT
    ensures ScanOn(u, size, 0, k, n) == ScanUpTo(u, size, k, n)
  {
    hide ScanOne;
    if k > 0 {
      ScanFromStart(u, size, k - 1, n);
    }
  }

  /** The selected queue's register after registers `a` to `k` of a scan from `u`. */
  function Delivered(u: Uio, q: Queue, a: nat, k: nat, i: nat): u32
    requires u.Shaped() && i < COUNT
  {
    if a <= i < k && Word(u, i) != u.shadow[i] then Word(u, i) else RegOf(q, WRITE_OFFSETS[i])
  }

  /** `v` is `u` after registers `a` to `k` of a scan. */
  ghost predicate Scanned(u: Uio, v: Uio, a: nat, k: nat) {
    && u.Shaped() && v.Shaped() && v.words == u.words && v.pending == u.pending
    && v.regs == u.regs.(queues := v.regs.queues) && |v.regs.queues| == |u.regs.queues|
    && (forall i :: 0 <= i < COUNT ==> v.shadow[i] == if a <= i < k then Word(u, i) else u.shadow[i])
    && (forall q :: 0 <= q < |u.regs.queues| && q != u.regs.queueSel ==> v.regs.queues[q] == u.regs.queues[q])
    && (u.regs.queueSel < |u.regs.queues| ==>
          var p, q := u.regs.queues[u.regs.queueSel], v.regs.queues[u.regs.queueSel];
          && q.lastAvail == p.lastAvail
          && forall i :: 0 <= i < COUNT && IsQueueIndex(i) ==> RegOf(q, WRITE_OFFSETS[i]) == Delivered(u, p, a, k, i))
  }

  lemma QueueOffsets(i: nat)
    requires i < COUNT
    ensures IsQueueRegister(WRITE_OFFSETS[i]) <==> IsQueueIndex(i)
    ensures WRITE_OFFSETS[i] < 0x1000 && WRITE_OFFSETS[i] % 4 == 0
    ensures WRITE_OFFSETS[i] == QUEUE_SEL <==> i == SEL
  {
  }

  lemma OffsetsDistinct(i: nat, j: nat)
    requires i < j < COUNT
    ensures WRITE_OFFSETS[i] != WRITE_OFFSETS[j] && WRITE_OFFSETS[i] / 4 != WRITE_OFFSETS[j] / 4
  {
  }

  /** A changed queue register goes to the selected queue; nothing else happens. */
  lemma QueueDispatch(u: Uio, size: u32, i: nat, n: Serving)
    requires u.Shaped() && i < COUNT && IsQueueIndex(i) && Word(u, i) != u.shadow[i]
    ensures var sel := u.regs.queueSel;
            var queues := if sel < |u.regs.queues|
                          then u.regs.queues[sel := QueueWrite(u.regs.queues[sel], WRITE_OFFSETS[i], Word(u, i))]
                          else u.regs.queues;
            ScanOne(u, size, i, n) ==
                Scan(true, u.(shadow := u.shadow[i := Word(u, i)], regs := u.regs.(queues := queues)))
  {
    hide QueueWrite;
    QueueOffsets(i);
  }

  lemma ScanStep(u: Uio, v: Uio, size: u32, a: nat, k: nat, n: Serving)
    requires OnlyQueuePending(u) && a <= k < COUNT && Scanned(u, v, a, k)
    ensures ScanOne(v, size, k, n).ok && Scanned(u, ScanOne(v, size, k, n).u, a, k + 1)
  {
    hide QueueWrite, RegOf;
    if Word(v, k) != v.shadow[k] {
      hide ScanOne;
      QueueDispatch(v, size, k, n);
      var sel := u.regs.queueSel;
      if sel < |u.regs.queues| {
        forall i | 0 <= i < COUNT && IsQueueIndex(i)
          ensures RegOf(QueueWrite(v.regs.queues[sel], WRITE_OFFSETS[k], Word(v, k)), WRITE_OFFSETS[i])
               == Delivered(u, u.regs.queues[sel], a, k + 1, i)
          ensures QueueWrite(v.regs.queues[sel], WRITE_OFFSETS[k], Word(v, k)).lastAvail == v.regs.queues[sel].lastAvail
        {
          QueueOffsets(i);
          QueueOffsets(k);
          if i < k {
            OffsetsDistinct(i, k);
          } else if k < i {
            OffsetsDistinct(k, i);
          }
          RegOfWrite(v.regs.queues[sel], WRITE_OFFSETS[k], Word(v, k), WRITE_OFFSETS[i]);
        }
      }
    }
  }

  /** A scan in which only queue registers changed delivers exactly those it has yet to pass, in order. */
  lemma {:induction false} ScanOnDelivers(u: Uio, size: u32, a: nat, k: nat, n: Serving)
    requires OnlyQueuePending(u) && a <= k <= COUNT
    ensures ScanOn(u, size, a, k, n).ok && Scanned(u, ScanOn(u, size, a, k, n).u, a, k)
    decreases k - a
  {
    hide ScanOne;
    if k > a {
      ScanOnDelivers(u, size, a, k - 1, n);
      ScanStep(u, ScanOn(u, size, a, k - 1, n).u, size, a, k - 1, n);
    }
  }

  /** From its start it delivers all of them. */
  lemma ScanDelivers(u: Uio, size: u32, k: nat, n: Serving)
    requires OnlyQueuePending(u) && k <= COUNT
    ensures ScanUpTo(u, size, k, n).ok && Scanned(u, ScanUpTo(u, size, k, n).u, 0, k)
  {
    hide ScanOn, ScanUpTo;
    ScanFromStart(u, size, k, n);
    ScanOnDelivers(u, size, 0, k, n);
  }

  // ---- Set-up ----

  /** A guest write as the frontend makes it: selecting a queue clears the queue registers of the window. */
  function GuestWrite(u: Uio, i: nat, v: u32): (r: Uio)
    requires u.Shaped() && i < COUNT
    ensures r.Shaped() && r == u.(words := r.words)
  {
    var words := Put(u.words, WRITE_OFFSETS[i], v);
    u.(words := if i == SEL then Cleared(words) else words)
  }

  function Cleared(words: seq<u32>): (r: seq<u32>)
    requires |words| == WINDOW_WORDS
    ensures |r| == WINDOW_WORDS
  {
    seq(WINDOW_WORDS, k requires 0 <= k < WINDOW_WORDS => if IsQueueRegister(4 * k) then 0 else words[k])
  }

  lemma WordAfterWrite(u: Uio, i: nat, v: u32, j: nat)
    requires u.Shaped() && i < COUNT && j < COUNT
    ensures Word(GuestWrite(u, i, v), j) ==
            if i == SEL && IsQueueIndex(j) then 0 else if i == j then v else Word(u, j)
  {
    QueueOffsets(i);
    QueueOffsets(j);
    if i < j {
      OffsetsDistinct(i, j);
    } else if j < i {
      OffsetsDistinct(j, i);
    }
    var at := WRITE_OFFSETS[j] / 4;
    assert 4 * at == WRITE_OFFSETS[j];
  }

  datatype Action =
    | Select(queue: u32)             // written between scans, and waited for
    | Set(index: nat, value: u32)    // written at any moment, scans under way included
    | Begin                          // a scan starts
    | Step                           // and looks at its next register
    | MarkReady(value: u32)          // written between scans, and waited for

  datatype Stage = Untouched | Programming | Readied

  /**
   The transport, the device written directly, how far the driver has got, and how far the
   scan, if one is under way.
   */
  datatype Joint = Joint(u: Uio, direct: Regs, stage: Stage, selected: set<u32>, at: nat)

  /** Each queue is selected once, programmed, then made ready; sizes are not zero. */
  ghost predicate Allowed(j: Joint, a: Action) {
    match a
    case Select(q) => j.at == COUNT && j.stage != Programming && q !in j.selected
    case Set(i, v) => j.stage == Programming && 4 <= i < READY && (i == 4 ==> v != 0)
    case Begin => j.at == COUNT
    case Step => j.at < COUNT
    case MarkReady(_) => j.at == COUNT && j.stage == Programming
  }

  /** The window once the guest's part of the action is done. */
  function Before(j: Joint, a: Action): (u: Uio)
    requires j.u.Shaped() && (a.Set? ==> a.index < COUNT)
    ensures u.Shaped()
  {
    match a
    case Select(q) => GuestWrite(j.u, SEL, q)
    case Set(i, v) => GuestWrite(j.u, i, v)
    case Begin => j.u
    case Step => j.u
    case MarkReady(v) => GuestWrite(j.u, READY, v)
  }

  function Direct(r: Regs, size: u32, a: Action): Regs
    requires a.Set? ==> a.index < COUNT
  {
    match a
    case Select(q) => RegWrite(r, size, QUEUE_SEL, q)
    case Set(i, v) => RegWrite(r, size, WRITE_OFFSETS[i], v)
    case Begin => r
    case Step => r
    case MarkReady(v) => RegWrite(r, size, QUEUE_READY, v)
  }

  /**
   Selecting and making ready wait for a whole scan; programming does not, and a scan goes
   on register by register.
   */
  function Act(j: Joint, size: u32, n: Serving, a: Action): (k: Joint)
    requires j.u.Shaped() && (a.Set? ==> a.index < COUNT) && (a.Step? ==> j.at < COUNT)
    ensures k.u.Shaped()
  {
    var u := Before(j, a);
    match a
    case Select(q) => Joint(PollWrites(u, size, n).u, Direct(j.direct, size, a), Programming, j.selected + {q}, COUNT)
    case Set(_, _) => j.(u := u, direct := Direct(j.direct, size, a))
    case Begin => j.(at := 0)
    case Step => j.(u := ScanOne(u, size, j.at, n).u, at := j.at + 1)
    case MarkReady(_) => j.(u := PollWrites(u, size, n).u, direct := Direct(j.direct, size, a), stage := Readied)
  }

  // ---- Invariant ----

  /** The selected queue lags behind the window by what has not been scanned. */
  ghost predicate Lagging(u: Uio, dev: Queue, direct: Queue, size: u32) {
    && u.Shaped() && dev.lastAvail == direct.lastAvail
    && (forall i :: 4 < i <= READY ==>
          RegOf(dev, WRITE_OFFSETS[i]) == u.shadow[i] && RegOf(direct, WRITE_OFFSETS[i]) == Word(u, i))
    && dev.num == (if u.shadow[4] == 0 then size else u.shadow[4])
    && direct.num == (if Word(u, 4) == 0 then size else Word(u, 4))
    && (Word(u, 4) == 0 ==> u.shadow[4] == 0)
  }

  ghost predicate Synced(u: Uio) {
    u.Shaped() && forall i :: 0 <= i < COUNT ==> Word(u, i) == u.shadow[i]
  }

  ghost predicate Inv(j: Joint, size: u32) {
    var u, r, d := j.u, j.u.regs, j.direct;
    && OnlyQueuePending(u) && j.at <= COUNT
    && r == d.(queues := r.queues) && |r.queues| == |d.queues| && r.queueSel == u.shadow[SEL]
    && (forall q :: 0 <= q < |r.queues| && q !in j.selected ==> r.queues[q] == FreshQueue(size))
    && (forall q :: 0 <= q < |r.queues| && q != r.queueSel ==> r.queues[q] == d.queues[q])
    && (j.stage != Untouched ==> r.queueSel in j.selected)
    && (j.stage == Programming ==>
          && Word(u, READY) == u.shadow[READY] == 0
          && (r.queueSel < |r.queues| ==> Lagging(u, r.queues[r.queueSel], d.queues[r.queueSel], size)))
    && (j.stage != Programming ==> Synced(u) && r.queues == d.queues)
    && (j.stage == Untouched ==> forall i :: 0 <= i < COUNT && IsQueueIndex(i) ==> u.shadow[i] == 0)
  }

  /** Fresh queues, a window that agrees with its shadows, and zeroed queue registers. */
  ghost predicate Connected(j: Joint, size: u32) {
    && Synced(j.u) && j.u.regs == j.direct && j.direct.queueSel == j.u.shadow[SEL]
    && (forall q :: 0 <= q < |j.direct.queues| ==> j.direct.queues[q] == FreshQueue(size))
    && (forall i :: 0 <= i < COUNT && IsQueueIndex(i) ==> j.u.shadow[i] == 0)
    && j.stage == Untouched && j.selected == {} && j.at == COUNT
  }

  lemma ConnectedInv(j: Joint, size: u32)
    requires Connected(j, size)
    ensures Inv(j, size)
  {
  }

  /** A lagging queue has caught up once the scan is past the ready register. */
  lemma CaughtUp(u: Uio, v: Uio, direct: Queue, size: u32, k: nat)
    requires Scanned(u, v, 0, k) && READY < k <= COUNT && u.regs.queueSel < |u.regs.queues|
    requires Lagging(u, u.regs.queues[u.regs.queueSel], direct, size)
    ensures v.regs.queues[u.regs.queueSel] == direct
  {
    hide RegOf;
    var q := v.regs.queues[u.regs.queueSel];
    NumIsRegister(u.regs.queues[u.regs.queueSel]);
    NumIsRegister(direct);
    forall i | 0 <= i < COUNT && IsQueueIndex(i)
      ensures RegOf(q, WRITE_OFFSETS[i]) == RegOf(direct, WRITE_OFFSETS[i])
    {
      assert RegOf(q, WRITE_OFFSETS[i]) == Delivered(u, u.regs.queues[u.regs.queueSel], 0, k, i);
    }
    RegsDetermine(q, direct);
  }

  lemma NumIsRegister(q: Queue)
    ensures RegOf(q, WRITE_OFFSETS[4]) == q.num
    ensures RegOf(q, WRITE_OFFSETS[READY]) == q.ready
  {
  }

  /** The device lags behind direct writes at most in the queue that is selected. */
  ghost predicate Behind(u: Uio, d: Regs, size: u32) {
    var r := u.regs;
    && OnlyQueuePending(u) && r == d.(queues := r.queues) && |r.queues| == |d.queues|
    && (forall q :: 0 <= q < |r.queues| && q != r.queueSel ==> r.queues[q] == d.queues[q])
    && (r.queueSel < |r.queues| ==> Lagging(u, r.queues[r.queueSel], d.queues[r.queueSel], size))
  }

  /** After a scan the device is where direct writes would have put it. */
  lemma ScanCatchesUp(u: Uio, d: Regs, size: u32, n: Serving)
    requires Behind(u, d, size)
    ensures var v := PollWrites(u, size, n).u;
            v.regs == d && Synced(v) && v.words == u.words && v.pending == u.pending
            && forall i :: 0 <= i < COUNT ==> v.shadow[i] == Word(u, i)
  {
    hide ScanUpTo, Lagging;
    ScanDelivers(u, size, COUNT, n);
    var v := PollWrites(u, size, n).u;
    var sel := u.regs.queueSel;
    if sel < |u.regs.queues| {
      CaughtUp(u, v, d.queues[sel], size, COUNT);
    }
    forall q | 0 <= q < |v.regs.queues|
      ensures v.regs.queues[q] == d.queues[q]
    {
    }
  }

  lemma {:induction false} SyncedScan(u: Uio, size: u32, k: nat, n: Serving)
    requires Synced(u) && k <= COUNT
    ensures ScanUpTo(u, size, k, n) == Scan(true, u)
  {
    if k > 0 {
      SyncedScan(u, size, k - 1, n);
    }
  }

  // ---- Selecting ----

  /** Registers that equal their shadows are passed over. */
  lemma {:induction false} ScanPasses(u: Uio, size: u32, k: nat, n: Serving)
    requires u.Shaped() && k <= COUNT && forall i :: 0 <= i < k ==> Word(u, i) == u.shadow[i]
    ensures ScanUpTo(u, size, k, n) == Scan(true, u)
  {
    if k > 0 {
      ScanPasses(u, size, k - 1, n);
    }
  }

  lemma {:induction false} ScanRests(u: Uio, v: Uio, size: u32, k: nat, m: nat, n: Serving)
    requires u.Shaped() && k <= m <= COUNT && ScanUpTo(u, size, k, n) == Scan(true, v) && Synced(v)
    ensures ScanUpTo(u, size, m, n) == Scan(true, v)
  {
    hide ScanOne;
    if k < m {
      ScanRests(u, v, size, k, m - 1, n);
      PassedOver(v, size, m - 1, n);
    }
  }

  lemma PassedOver(u: Uio, size: u32, i: nat, n: Serving)
    requires u.Shaped() && i < COUNT && Word(u, i) == u.shadow[i]
    ensures ScanOne(u, size, i, n) == Scan(true, u)
  {
    hide Callback, Reload;
  }

  /** A select is delivered alone, and the shadows of the queue registers are taken from the cleared window. */
  lemma SelectScan(u: Uio, size: u32, n: Serving)
    requires u.Shaped() && Word(u, SEL) != u.shadow[SEL]
    requires forall i :: 0 <= i < COUNT && i != SEL && !IsQueueIndex(i) ==> Word(u, i) == u.shadow[i]
    ensures var v := PollWrites(u, size, n).u;
            && v == u.(shadow := v.shadow, regs := u.regs.(queueSel := Word(u, SEL)))
            && Synced(v)
  {
    ScanPasses(u, size, SEL, n);
    SelectStep(u, size, n);
    hide ScanOne;
    ScanRests(u, ScanOne(u, size, SEL, n).u, size, SEL + 1, COUNT, n);
  }

  lemma SelectStep(u: Uio, size: u32, n: Serving)
    requires u.Shaped() && Word(u, SEL) != u.shadow[SEL]
    ensures ScanOne(u, size, SEL, n) == Scan(true, u.(shadow := Reload(u.words, u.shadow[SEL := Word(u, SEL)]),
                                                     regs := u.regs.(queueSel := Word(u, SEL))))
  {
    hide Reload;
  }

  lemma FreshLags(u: Uio, size: u32)
    requires u.Shaped() && forall i :: 0 <= i < COUNT && IsQueueIndex(i) ==> Word(u, i) == u.shadow[i] == 0
    ensures Lagging(u, FreshQueue(size), FreshQueue(size), size)
  {
  }

  lemma SelectInv(j: Joint, size: u32, n: Serving, q: u32)
    requires Inv(j, size) && Allowed(j, Select(q))
    ensures Inv(Act(j, size, n, Select(q)), size)
  {
    hide ScanUpTo, Lagging, RegOf, GuestWrite;
    var u := Before(j, Select(q));
    forall i | 0 <= i < COUNT
      ensures Word(u, i) == if IsQueueIndex(i) then 0 else if i == SEL then q else Word(j.u, i)
    {
      WordAfterWrite(j.u, SEL, q, i);
    }
    var v := PollWrites(u, size, n).u;
    if q == j.u.shadow[SEL] {
      SyncedScan(u, size, COUNT, n);
    } else {
      SelectScan(u, size, n);
    }
    FreshLags(v, size);
  }

  // ---- Programming ----

  lemma DirectQueueWrite(d: Regs, size: u32, i: nat, v: u32)
    requires i < COUNT && IsQueueIndex(i)
    ensures RegWrite(d, size, WRITE_OFFSETS[i], v) ==
            if d.queueSel < |d.queues|
            then d.(queues := d.queues[d.queueSel := QueueWrite(d.queues[d.queueSel], WRITE_OFFSETS[i], v)])
            else d
  {
    hide QueueWrite;
    QueueOffsets(i);
  }

  /** A queue register written to window and device keeps the lag exact. */
  lemma WriteLags(u: Uio, dev: Queue, direct: Queue, size: u32, i: nat, v: u32)
    requires Lagging(u, dev, direct, size) && i < COUNT && IsQueueIndex(i) && (i == 4 ==> v != 0)
    ensures Lagging(GuestWrite(u, i, v), dev, QueueWrite(direct, WRITE_OFFSETS[i], v), size)
  {
    hide RegOf, QueueWrite, GuestWrite;
    var w := GuestWrite(u, i, v);
    var q := QueueWrite(direct, WRITE_OFFSETS[i], v);
    forall k | 0 <= k < COUNT && IsQueueIndex(k)
      ensures Word(w, k) == if k == i then v else Word(u, k)
      ensures RegOf(q, WRITE_OFFSETS[k]) == if k == i then v else RegOf(direct, WRITE_OFFSETS[k])
      ensures q.lastAvail == direct.lastAvail
    {
      WordAfterWrite(u, i, v, k);
      QueueOffsets(i);
      QueueOffsets(k);
      if i < k {
        OffsetsDistinct(i, k);
      } else if k < i {
        OffsetsDistinct(k, i);
      }
      RegOfWrite(direct, WRITE_OFFSETS[i], v, WRITE_OFFSETS[k]);
    }
    assert q.lastAvail == direct.lastAvail by {
      assert IsQueueIndex(4);
    }
    NumIsRegister(direct);
    NumIsRegister(q);
  }

  /** A guest write of a queue register leaves the device at most behind in the selected queue. */
  lemma WriteKeepsBehind(u: Uio, d: Regs, size: u32, i: nat, v: u32)
    requires Behind(u, d, size) && i < COUNT && IsQueueIndex(i) && (i == 4 ==> v != 0)
    ensures Behind(GuestWrite(u, i, v), RegWrite(d, size, WRITE_OFFSETS[i], v), size)
  {
    hide Lagging, RegOf, QueueWrite, GuestWrite, RegWrite;
    DirectQueueWrite(d, size, i, v);
    forall k | 0 <= k < COUNT && !IsQueueIndex(k)
      ensures Word(GuestWrite(u, i, v), k) == Word(u, k)
    {
      WordAfterWrite(u, i, v, k);
    }
    if d.queueSel < |d.queues| {
      WriteLags(u, u.regs.queues[d.queueSel], d.queues[d.queueSel], size, i, v);
    }
  }

  lemma SetInv(j: Joint, size: u32, n: Serving, i: nat, v: u32)
    requires Inv(j, size) && Allowed(j, Set(i, v))
    ensures Inv(Act(j, size, n, Set(i, v)), size)
  {
    hide Lagging, RegOf, QueueWrite, RegWrite;
    WriteKeepsBehind(j.u, j.direct, size, i, v);
    DirectQueueWrite(j.direct, size, i, v);
    WordAfterWrite(j.u, i, v, READY);
  }

  /** Passing one register moves its value to shadow and device alike. */
  lemma StepLags(u: Uio, v: Uio, dev: Queue, dev': Queue, direct: Queue, size: u32, i: nat)
    requires Lagging(u, dev, direct, size) && i < COUNT && IsQueueIndex(i) && Word(u, i) != u.shadow[i]
    requires v == u.(shadow := u.shadow[i := Word(u, i)], regs := v.regs)
    requires dev' == QueueWrite(dev, WRITE_OFFSETS[i], Word(u, i))
    ensures Lagging(v, dev', direct, size)
  {
    hide RegOf, QueueWrite;
    forall k | 0 <= k < COUNT && IsQueueIndex(k)
      ensures RegOf(dev', WRITE_OFFSETS[k]) == if k == i then Word(u, i) else RegOf(dev, WRITE_OFFSETS[k])
      ensures dev'.lastAvail == dev.lastAvail
    {
      QueueOffsets(i);
      QueueOffsets(k);
      if i < k {
        OffsetsDistinct(i, k);
      } else if k < i {
        OffsetsDistinct(k, i);
      }
      RegOfWrite(dev, WRITE_OFFSETS[i], Word(u, i), WRITE_OFFSETS[k]);
    }
    assert dev'.lastAvail == dev.lastAvail by {
      assert IsQueueIndex(4);
    }
    NumIsRegister(dev);
    NumIsRegister(dev');
  }

  lemma StepInv(j: Joint, size: u32, n: Serving)
    requires Inv(j, size) && j.at < COUNT
    ensures Inv(Act(j, size, n, Step), size)
  {
    hide Lagging, RegOf, QueueWrite, Reload, Callback;
    if Word(j.u, j.at) != j.u.shadow[j.at] {
      QueueDispatch(j.u, size, j.at, n);
      hide ScanOne;
      var sel := j.direct.queueSel;
      if sel < |j.direct.queues| {
        var v := ScanOne(j.u, size, j.at, n).u;
        StepLags(j.u, v, j.u.regs.queues[sel], v.regs.queues[sel], j.direct.queues[sel], size, j.at);
      }
    }
  }

  lemma MarkReadyInv(j: Joint, size: u32, n: Serving, v: u32)
    requires Inv(j, size) && Allowed(j, MarkReady(v))
    ensures Inv(Act(j, size, n, MarkReady(v)), size)
    ensures Act(j, size, n, MarkReady(v)).u.regs == Act(j, size, n, MarkReady(v)).direct
  {
    hide Lagging, RegOf, QueueWrite, RegWrite, ScanUpTo, GuestWrite;
    WriteKeepsBehind(j.u, j.direct, size, READY, v);
    DirectQueueWrite(j.direct, size, READY, v);
    ScanCatchesUp(GuestWrite(j.u, READY, v), RegWrite(j.direct, size, QUEUE_READY, v), size, n);
  }

  // ---- Main results ----

  lemma ActInv(j: Joint, size: u32, n: Serving, a: Action)
    requires Inv(j, size) && Allowed(j, a)
    ensures Inv(Act(j, size, n, a), size)
    ensures a.Select? || a.MarkReady? ==> Act(j, size, n, a).u.regs == Act(j, size, n, a).direct
  {
    hide Inv, Lagging, ScanUpTo, RegWrite, GuestWrite;
    match a
    case Select(q) => SelectInv(j, size, n, q); SelectMatches(j, size, n, q);
    case Set(i, v) => SetInv(j, size, n, i, v);
    case Begin => BeginInv(j, size);
    case Step => StepInv(j, size, n);
    case MarkReady(v) => MarkReadyInv(j, size, n, v);
  }

  lemma BeginInv(j: Joint, size: u32)
    requires Inv(j, size)
    ensures Inv(j.(at := 0), size)
  {
    hide Lagging, RegOf;
  }

  lemma SelectMatches(j: Joint, size: u32, n: Serving, q: u32)
    requires Inv(j, size) && Allowed(j, Select(q))
    ensures Act(j, size, n, Select(q)).u.regs == Act(j, size, n, Select(q)).direct
  {
    hide ScanUpTo, GuestWrite;
    var u := Before(j, Select(q));
    forall i | 0 <= i < COUNT
      ensures Word(u, i) == if IsQueueIndex(i) then 0 else if i == SEL then q else Word(j.u, i)
    {
      WordAfterWrite(j.u, SEL, q, i);
    }
    if q == j.u.shadow[SEL] {
      SyncedScan(u, size, COUNT, n);
    } else {
      SelectScan(u, size, n);
    }
  }

  ghost predicate SetupRun(size: u32, n: Serving, states: seq<Joint>, actions: seq<Action>) {
    && |states| == |actions| + 1 && Connected(states[0], size)
    && forall i :: 0 <= i < |actions| ==>
         && states[i].u.Shaped() && Allowed(states[i], actions[i])
         && states[i + 1] == Act(states[i], size, n, actions[i])
  }

  lemma {:induction false} SetupKeepsInv(size: u32, n: Serving, states: seq<Joint>, actions: seq<Action>, i: nat)
    requires SetupRun(size, n, states, actions) && i < |states|
    ensures Inv(states[i], size)
  {
    hide Inv, Act;
    if i == 0 {
      ConnectedInv(states[0], size);
    } else {
      SetupKeepsInv(size, n, states, actions, i - 1);
      ActInv(states[i - 1], size, n, actions[i - 1]);
    }
  }

  /**
   However the guest orders and repeats the size and address writes of its queues, and
   wherever scans fall between them or they in the midst of scans, the device is after
   every select and every ready write exactly the device that the same writes would have
   made of it directly.
   */
  lemma SetupMatchesDirectWrites(size: u32, n: Serving, states: seq<Joint>, actions: seq<Action>, i: nat)
    requires SetupRun(size, n, states, actions) && i < |actions| && (actions[i].Select? || actions[i].MarkReady?)
    ensures states[i + 1].u.regs == states[i + 1].direct
  {
    hide Inv, Act;
    SetupKeepsInv(size, n, states, actions, i);
    ActInv(states[i], size, n, actions[i]);
  }

  /** So it is after any scan that no write fell into. */
  lemma QuietScanMatches(size: u32, n: Serving, states: seq<Joint>, actions: seq<Action>, i: nat)
    requires SetupRun(size, n, states, actions) && i < |states|
    ensures states[i].u.Shaped() && PollWrites(states[i].u, size, n).u.regs == states[i].direct
  {
    hide Lagging, ScanUpTo;
    SetupKeepsInv(size, n, states, actions, i);
    var j := states[i];
    if j.stage == Programming {
      ScanCatchesUp(j.u, j.direct, size, n);
    } else {
      SyncedScan(j.u, size, COUNT, n);
    }
  }

  /** Part of a scan: a ready queue behind direct writes would have to be ready already. */
  lemma BehindReady(u: Uio, d: Regs, size: u32, n: Serving, k: nat, q: nat)
    requires Behind(u, d, size) && u.shadow[READY] == 0 && k <= COUNT && q < |d.queues|
    requires q == u.regs.queueSel || u.regs.queues[q] == d.queues[q]
    ensures var v := ScanUpTo(u, size, k, n).u;
            |v.regs.queues| == |d.queues| && (v.regs.queues[q].ready != 0 ==> v.regs.queues[q] == d.queues[q])
  {
    hide RegOf, ScanUpTo;
    ScanDelivers(u, size, k, n);
    var v := ScanUpTo(u, size, k, n).u;
    if q == u.regs.queueSel {
      NumIsRegister(v.regs.queues[q]);
      if k > READY {
        CaughtUp(u, v, d.queues[q], size, k);
      } else {
        assert IsQueueIndex(READY);
        assert RegOf(v.regs.queues[q], WRITE_OFFSETS[READY]) == Delivered(u, u.regs.queues[q], 0, k, READY);
      }
    }
  }

  lemma SelectPartial(j: Joint, size: u32, n: Serving, a: u32, k: nat)
    requires Inv(j, size) && Allowed(j, Select(a)) && k <= COUNT
    ensures ScanUpTo(Before(j, Select(a)), size, k, n).u.regs.queues == j.direct.queues
  {
    hide ScanUpTo, GuestWrite;
    var u := Before(j, Select(a));
    forall i | 0 <= i < COUNT
      ensures Word(u, i) == if IsQueueIndex(i) then 0 else if i == SEL then a else Word(j.u, i)
    {
      WordAfterWrite(j.u, SEL, a, i);
    }
    if a == j.u.shadow[SEL] {
      SyncedScan(u, size, k, n);
    } else if k <= SEL {
      ScanPasses(u, size, k, n);
    } else {
      SelectRests(u, size, n, k);
    }
  }

  lemma SelectRests(u: Uio, size: u32, n: Serving, k: nat)
    requires u.Shaped() && Word(u, SEL) != u.shadow[SEL] && SEL < k <= COUNT
    requires forall i :: 0 <= i < COUNT && i != SEL && !IsQueueIndex(i) ==> Word(u, i) == u.shadow[i]
    ensures ScanUpTo(u, size, k, n).u.regs.queues == u.regs.queues
  {
    ScanPasses(u, size, SEL, n);
    SelectStep(u, size, n);
    hide ScanOne;
    ScanRests(u, ScanOne(u, size, SEL, n).u, size, SEL + 1, k, n);
  }

  /**
   At no state of a run does the device hold a queue that is ready before all its
   registers are what the guest wrote; nor does it at any point of the scan that a select
   or a ready write waits for.
   */
  lemma NeverReadyEarly(size: u32, n: Serving, states: seq<Joint>, actions: seq<Action>, i: nat, k: nat, q: nat)
    requires SetupRun(size, n, states, actions) && i < |states| && k <= COUNT && q < |states[i].direct.queues|
    ensures var j := states[i];
            && |j.u.regs.queues| == |j.direct.queues|
            && (j.u.regs.queues[q].ready != 0 ==> j.u.regs.queues[q] == j.direct.queues[q])
    ensures i < |actions| && (actions[i].Select? || actions[i].MarkReady?) ==>
              var v := ScanUpTo(Before(states[i], actions[i]), size, k, n).u;
              var d := Direct(states[i].direct, size, actions[i]);
              && |v.regs.queues| == |d.queues| == |states[i].direct.queues|
              && (v.regs.queues[q].ready != 0 ==> v.regs.queues[q] == d.queues[q])
  {
    hide Lagging, ScanUpTo, GuestWrite, RegOf, QueueWrite;
    SetupKeepsInv(size, n, states, actions, i);
    var j := states[i];
    if j.stage == Programming && q == j.u.regs.queueSel {
      LaggingReady(j.u, j.u.regs.queues[q], j.direct.queues[q], size);
    }
    if i < |actions| && actions[i].Select? {
      SelectPartial(j, size, n, actions[i].queue, k);
    } else if i < |actions| && actions[i].MarkReady? {
      WriteKeepsBehind(j.u, j.direct, size, READY, actions[i].value);
      DirectQueueWrite(j.direct, size, READY, actions[i].value);
      BehindReady(GuestWrite(j.u, READY, actions[i].value), RegWrite(j.direct, size, QUEUE_READY, actions[i].value),
          size, n, k, q);
    }
  }

  lemma LaggingReady(u: Uio, dev: Queue, direct: Queue, size: u32)
    requires Lagging(u, dev, direct, size)
    ensures dev.ready == u.shadow[READY]
  {
    NumIsRegister(dev);
  }

  // ---- A ready write that does not wait ----

  /** No register the scan has passed is still to be delivered; a size equal to the default may be. */
  ghost predicate PassedAreDelivered(u: Uio, size: u32, a: nat) {
    && u.Shaped()
    && forall i :: 4 <= i < a && i < READY ==>
         Word(u, i) == u.shadow[i] || (i == 4 && Word(u, 4) == size && u.shadow[4] == 0)
  }

  /** The selected queue after the rest of a scan: undelivered registers are the device's own. */
  lemma RestOfScan(u: Uio, d: Regs, size: u32, n: Serving, a: nat)
    requires Behind(u, d, size) && a <= READY && u.regs.queueSel < |u.regs.queues|
    ensures var v := ScanOn(u, size, a, COUNT, n).u;
            && |v.regs.queues| == |u.regs.queues|
            && (v.regs.queues[u.regs.queueSel] == d.queues[u.regs.queueSel] <==> PassedAreDelivered(u, size, a))
  {
    hide RegOf, ScanOn;
    ScanOnDelivers(u, size, a, COUNT, n);
    var sel := u.regs.queueSel;
    var v, dev, direct := ScanOn(u, size, a, COUNT, n).u, u.regs.queues[sel], d.queues[sel];
    var q := v.regs.queues[sel];
    NumIsRegister(dev);
    NumIsRegister(direct);
    if PassedAreDelivered(u, size, a) {
      forall i | 0 <= i < COUNT && IsQueueIndex(i)
        ensures RegOf(q, WRITE_OFFSETS[i]) == RegOf(direct, WRITE_OFFSETS[i])
      {
        assert RegOf(q, WRITE_OFFSETS[i]) == Delivered(u, dev, a, COUNT, i);
      }
      RegsDetermine(q, direct);
    } else {
      var i :| 4 <= i < a && i < READY && Word(u, i) != u.shadow[i]
          && !(i == 4 && Word(u, 4) == size && u.shadow[4] == 0);
      assert IsQueueIndex(i);
      assert RegOf(q, WRITE_OFFSETS[i]) == Delivered(u, dev, a, COUNT, i);
      assert RegOf(q, WRITE_OFFSETS[i]) != RegOf(direct, WRITE_OFFSETS[i]);
    }
  }

  /**
   A ready write that falls into a scan, instead of between two, is safe exactly when the
   scan is already past the ready register or has nothing undelivered behind it.
   */
  lemma ReadyIntoScan(u: Uio, d: Regs, size: u32, n: Serving, a: nat, value: u32)
    requires Behind(u, d, size) && Word(u, READY) == u.shadow[READY] == 0 && value != 0
    requires a <= COUNT && u.regs.queueSel < |u.regs.queues|
    ensures var v := ScanOn(GuestWrite(u, READY, value), size, a, COUNT, n).u;
            var direct := RegWrite(d, size, QUEUE_READY, value);
            var sel := u.regs.queueSel;
            && |v.regs.queues| == |direct.queues| == |u.regs.queues|
            && ((v.regs.queues[sel].ready != 0 ==> v.regs.queues[sel] == direct.queues[sel])
                <==> READY < a || PassedAreDelivered(u, size, a))
  {
    hide RegOf, ScanOn, QueueWrite, Lagging, GuestWrite;
    var w, direct, sel := GuestWrite(u, READY, value), RegWrite(d, size, QUEUE_READY, value), u.regs.queueSel;
    WriteKeepsBehind(u, d, size, READY, value);
    DirectQueueWrite(d, size, READY, value);
    ScanOnDelivers(w, size, a, COUNT, n);
    var v := ScanOn(w, size, a, COUNT, n).u;
    NumIsRegister(v.regs.queues[sel]);
    NumIsRegister(w.regs.queues[sel]);
    WordAfterWrite(u, READY, value, READY);
    LaggingReady(w, w.regs.queues[sel], direct.queues[sel], size);
    assert IsQueueIndex(READY);
    assert RegOf(v.regs.queues[sel], WRITE_OFFSETS[READY]) == Delivered(w, w.regs.queues[sel], a, COUNT, READY);
    if a <= READY {
      forall i | 4 <= i < READY
        ensures Word(w, i) == Word(u, i)
      {
        WordAfterWrite(u, READY, value, i);
      }
      RestOfScan(w, direct, size, n, a);
    }
  }

  /** A device and a window as they are before any set-up. */
  function BeforeSetup(size: u32): (u: Uio)
    ensures u.Shaped()
  {
    Uio(seq(WINDOW_WORDS, _ => 0), seq(COUNT, _ => 0), Ident(0, 0, 0, []), Initial(1, size), None)
  }

  /**
   There: the scan is past the size register when the guest writes a size of eight and
   then makes the queue ready. The device has the queue ready with its default size.
   */
  lemma ReadyBeforeItsSize(size: u32, n: Serving)
    requires size != 8
    ensures var u := GuestWrite(GuestWrite(BeforeSetup(size), 4, 8), READY, 1);
            var q := ScanOn(u, size, 5, COUNT, n).u.regs.queues;
            |q| == 1 && q[0].ready == 1 && q[0].num == size
  {
    hide ScanOn, GuestWrite, RegWrite, QueueWrite, RegOf;
    var u0 := BeforeSetup(size);
    FreshLags(u0, size);
    hide Lagging;
    assert Behind(u0, u0.regs, size);
    WriteKeepsBehind(u0, u0.regs, size, 4, 8);
    var u := GuestWrite(u0, 4, 8);
    WordAfterWrite(u0, 4, 8, 4);
    WordAfterWrite(u0, 4, 8, READY);
    var w := GuestWrite(u, READY, 1);
    WordAfterWrite(u, READY, 1, READY);
    WriteKeepsBehind(u, RegWrite(u0.regs, size, QUEUE_NUM, 8), size, READY, 1);
    ScanOnDelivers(w, size, 5, COUNT, n);
    var q := ScanOn(w, size, 5, COUNT, n).u.regs.queues[0];
    NumIsRegister(q);
    NumIsRegister(u0.regs.queues[0]);
    assert IsQueueIndex(4) && IsQueueIndex(READY);
    assert RegOf(q, WRITE_OFFSETS[4]) == Delivered(w, u0.regs.queues[0], 5, COUNT, 4);
    assert RegOf(q, WRITE_OFFSETS[READY]) == Delivered(w, u0.regs.queues[0], 5, COUNT, READY);
  }

  // ---- Beyond set-up ----

  /** Selecting the queue that is selected clears the window unseen, and the scan takes the zeros for writes. */
  ghost predicate ReselectIsHarmless(u: Uio, v: u32)
    requires u.Shaped()
  {
    && u.regs.queueSel == v
    && (v < |u.regs.queues| ==>
          forall j :: 0 <= j < COUNT && IsQueueIndex(j) ==>
            u.shadow[j] == 0 || RegOf(u.regs.queues[v], WRITE_OFFSETS[j]) == 0)
  }

  lemma ReselectScan(u: Uio, size: u32, n: Serving, v: u32)
    requires Synced(u) && v == u.shadow[SEL]
    ensures PollWrites(GuestWrite(u, SEL, v), size, n).u.regs == u.regs.(queueSel := v) <==> ReselectIsHarmless(u, v)
  {
    hide RegOf, GuestWrite, ScanUpTo;
    var w := GuestWrite(u, SEL, v);
    forall k | 0 <= k < COUNT
      ensures Word(w, k) == if IsQueueIndex(k) then 0 else u.shadow[k]
    {
      WordAfterWrite(u, SEL, v, k);
    }
    ScanDelivers(w, size, COUNT, n);
    var r, sel := PollWrites(w, size, n).u.regs, u.regs.queueSel;
    if sel < |u.regs.queues| {
      forall j | 0 <= j < COUNT && IsQueueIndex(j)
        ensures RegOf(r.queues[sel], WRITE_OFFSETS[j]) == if u.shadow[j] != 0 then 0
            else RegOf(u.regs.queues[sel], WRITE_OFFSETS[j])
      {
        assert RegOf(r.queues[sel], WRITE_OFFSETS[j]) == Delivered(w, u.regs.queues[sel], 0, COUNT, j);
      }
      if ReselectIsHarmless(u, v) {
        RegsDetermine(r.queues[sel], u.regs.queues[sel]);
      }
    }
    if ReselectIsHarmless(u, v) {
      assert r.queues == u.regs.queues;
    }
  }

  /**
   In general a write through the window has the effect of the same write made directly
   exactly when it changes the register's shadow, or when the direct effect is none and,
   if it is a select, clearing the window changes nothing either.
   */
  lemma DeliveryIsExact(u: Uio, size: u32, n: Serving, i: nat, v: u32)
    requires Synced(u) && i < COUNT
    ensures var direct := Callback(u.regs, size, WRITE_OFFSETS[i], v, n).regs;
            (PollWrites(GuestWrite(u, i, v), size, n).u.regs == direct
             <==> v != u.shadow[i] || if i == SEL then ReselectIsHarmless(u, v) else direct == u.regs)
  {
    hide RegWrite, GuestWrite, Reload, NotifyReply, ReselectIsHarmless;
    var w := GuestWrite(u, i, v);
    QueueOffsets(i);
    if i == SEL {
      SelectDirect(u.regs, size, v, n);
      if v == u.shadow[SEL] {
        ReselectScan(u, size, n, v);
      } else {
        forall k | 0 <= k < COUNT
          ensures Word(w, k) == if IsQueueIndex(k) then 0 else if k == SEL then v else Word(u, k)
        {
          WordAfterWrite(u, SEL, v, k);
        }
        hide ScanUpTo, Callback;
        SelectScan(w, size, n);
      }
      return;
    }
    forall k | 0 <= k < COUNT
      ensures Word(w, k) == if k == i then v else Word(u, k)
    {
      WordAfterWrite(u, i, v, k);
    }
    if v == u.shadow[i] {
      SyncedScan(w, size, COUNT, n);
    } else {
      ScanPasses(w, size, i, n);
      DeliveredAlone(u, w, size, n, i, v);
    }
  }

  lemma SelectDirect(r: Regs, size: u32, v: u32, n: Serving)
    ensures Callback(r, size, QUEUE_SEL, v, n).regs == r.(queueSel := v)
  {
  }

  /** A write to any other register is delivered alone, whether its callback succeeds or not. */
  lemma DeliveredAlone(u: Uio, w: Uio, size: u32, n: Serving, i: nat, v: u32)
    requires Synced(u) && w.Shaped() && w == u.(words := w.words) && i < COUNT && i != SEL && v != u.shadow[i]
    requires forall k :: 0 <= k < COUNT ==> Word(w, k) == if k == i then v else Word(u, k)
    requires ScanUpTo(w, size, i, n) == Scan(true, w)
    ensures PollWrites(w, size, n).u.regs == Callback(u.regs, size, WRITE_OFFSETS[i], v, n).regs
  {
    hide Callback;
    QueueOffsets(i);
    var s := ScanOne(w, size, i, n);
    assert s.u.regs == Callback(u.regs, size, WRITE_OFFSETS[i], v, n).regs;
    if s.ok {
      forall k | 0 <= k < COUNT
        ensures Word(s.u, k) == s.u.shadow[k]
      {
        if k < i {
          OffsetsDistinct(k, i);
        } else if i < k {
          OffsetsDistinct(i, k);
        }
      }
      ScanRests(w, s.u, size, i + 1, COUNT, n);
    } else {
      ScanStays(w, size, i + 1, COUNT, n);
    }
  }

  /** Selecting a ready queue that is already selected takes its readiness away; written directly it does nothing. */
  lemma ReselectWipesQueue(u: Uio, size: u32, n: Serving)
    requires Synced(u) && u.regs.queueSel == u.shadow[SEL] < |u.regs.queues| && u.shadow[READY] != 0
    ensures var sel := u.regs.queueSel;
            var v := PollWrites(GuestWrite(u, SEL, sel), size, n).u;
            && RegWrite(u.regs, size, QUEUE_SEL, sel) == u.regs
            && |v.regs.queues| == |u.regs.queues| && v.regs.queues[sel].ready == 0
  {
    hide RegOf, GuestWrite, ScanUpTo;
    var sel := u.regs.queueSel;
    var w := GuestWrite(u, SEL, sel);
    forall k | 0 <= k < COUNT
      ensures Word(w, k) == if IsQueueIndex(k) then 0 else u.shadow[k]
    {
      WordAfterWrite(u, SEL, sel, k);
    }
    ScanDelivers(w, size, COUNT, n);
    var v := PollWrites(w, size, n).u;
    NumIsRegister(v.regs.queues[sel]);
    assert IsQueueIndex(READY);
    assert RegOf(v.regs.queues[sel], WRITE_OFFSETS[READY]) == Delivered(w, u.regs.queues[sel], 0, COUNT, READY);
  }

  /** A device whose low feature word is in, and whose driver has selected the high bank. */
  function HalfNegotiated(size: u32): (u: Uio)
    ensures u.Shaped()
  {
    Uio(seq(WINDOW_WORDS, k => if k == DRIVER_FEATURES / 4 || k == DRIVER_FEATURES_SEL / 4 then 1 else 0),
        seq(COUNT, j => if j == 1 || j == 2 then 1 else 0),
        Ident(0, 0, 0, []), Initial(1, size).(driverFeaturesSel := 1, driverFeatures := 1), None)
  }

  lemma HalfNegotiatedIsSynced(size: u32)
    ensures Synced(HalfNegotiated(size))
  {
    var u := HalfNegotiated(size);
    assert WRITE_OFFSETS[1] == DRIVER_FEATURES && WRITE_OFFSETS[2] == DRIVER_FEATURES_SEL;
    forall i | 0 <= i < COUNT
      ensures Word(u, i) == u.shadow[i]
    {
      if i < 1 || 2 < i {
        OffsetsDistinct(if i < 1 then i else 1, if i < 1 then 1 else i);
        OffsetsDistinct(if i < 1 then i else 2, if i < 1 then 2 else i);
      }
    }
  }

  lemma FeatureDirect(r: Regs, size: u32, v: u32, n: Serving)
    ensures Callback(r, size, DRIVER_FEATURES, v, n).regs == RegWrite(r, size, DRIVER_FEATURES, v)
  {
  }

  /** A feature word that repeats the other bank's word never reaches the device. */
  lemma RepeatedFeatureWordIsLost(size: u32, n: Serving)
    ensures exists u: Uio ::
              && Synced(u) && u.regs.driverFeaturesSel == 1
              && PollWrites(GuestWrite(u, 1, 1), size, n).u.regs != RegWrite(u.regs, size, DRIVER_FEATURES, 1)
  {
    hide GuestWrite, ScanUpTo, Callback, ReselectIsHarmless, Synced;
    var u := HalfNegotiated(size);
    HalfNegotiatedIsSynced(size);
    assert WRITE_OFFSETS[1] == DRIVER_FEATURES;
    FeatureDirect(u.regs, size, 1, n);
    DeliveryIsExact(u, size, n, 1, 1);
  }
}
