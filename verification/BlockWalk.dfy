/** The descriptor walk on arbitrary guest memory: when it stops, and what it can never touch. */
module BlockWalk {
  import opened Words
  import opened GuestMemory
  import opened Virtqueue
  import opened BlockImage
  import opened BlockRequest

  /** The walk after `n` turns of the descriptor loop. */
  function Turns(q: Queue, req: Request, p: Progress, n: nat): Progress {
    if n == 0 then p else WalkStep(q, req, Turns(q, req, p, n - 1))
  }

  /** The descriptor loop as a whole is its turns, carried on until it stops. */
  lemma {:induction false} WalkIsTurns(q: Queue, req: Request, p: Progress, n: nat)
    requires q.num != 0xffff_ffff
    requires p.Walking? ==> p.seen <= q.num
    requires !Turns(q, req, p, n).Walking?
    ensures Walk(q, req, p) == Turns(q, req, p, n)
    decreases n
  {
    if p.Walking? {
      TurnsShift(q, req, p, n);
      WalkIsTurns(q, req, WalkStep(q, req, p), n - 1);
    } else {
      Stopped(q, req, p, n);
    }
  }

  lemma {:induction false} TurnsShift(q: Queue, req: Request, p: Progress, n: nat)
    requires n > 0
    ensures Turns(q, req, p, n) == Turns(q, req, WalkStep(q, req, p), n - 1)
  {
    if n > 1 {
      TurnsShift(q, req, p, n - 1);
    }
  }

  lemma {:induction false} Stopped(q: Queue, req: Request, p: Progress, n: nat)
    requires !p.Walking?
    ensures Turns(q, req, p, n) == p
  {
    if n > 0 {
      Stopped(q, req, p, n - 1);
    }
  }

  /**
   Every turn that leaves the walk running has read exactly one descriptor, so a walk
   still running after `n` turns has read `n` of them, and never more than `num`.
   */
  lemma {:induction false} ReadsAreCounted(q: Queue, req: Request, w: Work, first: u16, n: nat)
    requires q.num != 0xffff_ffff
    ensures var p := Turns(q, req, Walking(w, first, 0), n);
            p.Walking? ==> p.seen == n <= q.num
  {
    if n > 0 {
      ReadsAreCounted(q, req, w, first, n - 1);
      OneTurn(q, req, Turns(q, req, Walking(w, first, 0), n - 1));
    }
  }

  lemma OneTurn(q: Queue, req: Request, p: Progress)
    ensures var r := WalkStep(q, req, p);
            r.Walking? ==> p.Walking? && r.seen == Add32(p.seen, 1) <= q.num
  {
  }

  /** With the wrapping size a self-linked descriptor keeps the walk running for ever. */
  lemma {:induction false} SelfLinkNeverStops(q: Queue, req: Request, w: Work, index: u16, n: nat)
    requires q.num == 0xffff_ffff && req.kind == T_FLUSH
    requires ReadDesc(w.ram, q, index) == Some(Desc(0, 0, 1, index))
    ensures var p := Turns(q, req, Walking(w, index, 0), n);
            p.Walking? && p.work == w && p.index == index
  {
    if n > 0 {
      SelfLinkNeverStops(q, req, w, index, n - 1);
      SelfLinkTurn(q, req, w, index, Turns(q, req, Walking(w, index, 0), n - 1).seen);
    }
  }

  lemma SelfLinkTurn(q: Queue, req: Request, w: Work, index: u16, seen: u32)
    requires q.num == 0xffff_ffff && req.kind == T_FLUSH
    requires ReadDesc(w.ram, q, index) == Some(Desc(0, 0, 1, index))
    ensures WalkStep(q, req, Walking(w, index, seen)) == Walking(w, index, Add32(seen, 1))
  {
  }

  ghost predicate Stops(q: Queue, req: Request, w: Work, first: u16) {
    exists n: nat :: !Turns(q, req, Walking(w, first, 0), n).Walking?
  }

  /**
   The walk stops on every guest memory, cyclic chains included, exactly when the
   programmed queue size is not the one value that the 32-bit descriptor count cannot exceed.
   */
  lemma StopsOnEveryMemory(q: Queue)
    ensures q.num != 0xffff_ffff
       <==> forall req: Request, w: Work, first: u16 :: Stops(q, req, w, first)
  {
    if q.num != 0xffff_ffff {
      forall req: Request, w: Work, first: u16
        ensures Stops(q, req, w, first)
      {
        ReadsAreCounted(q, req, w, first, q.num + 1);
        assert !Turns(q, req, Walking(w, first, 0), q.num + 1).Walking?;
      }
    } else {
      var loop := Store64(0) + Store32(0) + Store16(1) + Store16(0);
      assert loop[0..8] == Store64(0) && loop[8..12] == Store32(0);
      assert loop[12..14] == Store16(1) && loop[14..16] == Store16(0);
      var w := Work(Ram(q.desc, loop), Disk([], false), S_OK, 0);
      var req := Request(T_FLUSH, 0, S_OK);
      assert w.ram.bytes[0..16] == loop;
      assert ReadDesc(w.ram, q, 0) == Some(Desc(0, 0, 1, 0));
      forall n: nat
        ensures Turns(q, req, Walking(w, 0, 0), n).Walking?
      {
        SelfLinkNeverStops(q, req, w, 0, n);
      }
      assert !Stops(q, req, w, 0);
    }
  }

  /** The aperture and the image keep their extent, and a read-only image keeps its contents. */
  ghost predicate SameExtent(w: Work, v: Work) {
    && v.ram.base == w.ram.base && |v.ram.bytes| == |w.ram.bytes|
    && v.disk.readonly == w.disk.readonly && |v.disk.data| == |w.disk.data|
    && (w.disk.readonly ==> v.disk == w.disk)
  }

  lemma StepKeepsExtent(q: Queue, req: Request, p: Progress)
    ensures SameExtent(p.work, WalkStep(q, req, p).work)
  {
    hide ReadDesc;
  }

  /** For every queue, sizes on which the walk is endless included, no number of turns leaves aperture or image. */
  lemma {:induction false} TurnsKeepExtent(q: Queue, req: Request, p: Progress, n: nat)
    ensures SameExtent(p.work, Turns(q, req, p, n).work)
  {
    hide WalkStep;
    if n > 0 {
      TurnsKeepExtent(q, req, p, n - 1);
      StepKeepsExtent(q, req, Turns(q, req, p, n - 1));
    }
  }

  /** So does the status byte at the end of a chain. */
  lemma CompleteKeepsExtent(req: Request, w: Work, last: Desc, flushOk: bool)
    ensures var r := Complete(req, w, last, flushOk);
            SameExtent(w, Work(r.ram, r.disk, 0, 0))
  {
  }
}
