/**
 A whole transmit notification as the driver sees it: every pending chain, in ring order,
 said once and reported with its length, and memory otherwise left alone.
 */
module ConsoleService {
  import opened Words
  import opened GuestMemory
  import opened Virtqueue
  import opened BlockImage
  import opened BlockTransfer
  import opened RingLayout
  import opened RingDrain
  import opened Console
  import BlockDaemon
  import BlockRefinement
  import RP = RingProtocol

  /** The transmit loop at its head, as a state of the ring protocol. */
  ghost predicate AtTxHead(s: RP.State, ram: Ram, q: Queue) {
    RP.Inv(s) && s.phase == RP.ReadIndex(RETRIES) && s.ram == ram && s.q == q
  }

  /** The chain ends, can be read, and neither its descriptors nor its text lie on the used ring. */
  ghost predicate Speakable(ram: Ram, q: Queue, head: u16) {
    var l := Follow(ram, q, head, WALK_MAX);
    && l.last.Some? && Readable(ram, Descs(l))
    && (forall a :: a in l.at ==> OffUsed(q, Span(DescAddr(q, a), 16)))
    && (forall d :: d in Outgoing(Descs(l)) ==> OffUsed(q, Span(d.addr, d.len)))
  }

  ghost predicate AllSpeakable(ram: Ram, q: Queue, heads: seq<u16>) {
    forall i :: 0 <= i < |heads| ==> Speakable(ram, q, heads[i])
  }

  /** What the first `k` chains say, end to end. */
  ghost function Speech(ram: Ram, q: Queue, heads: seq<u16>, k: nat): seq<u8>
    requires k <= |heads|
  {
    if k == 0 then [] else Speech(ram, q, heads, k - 1) + ChainText(ram, q, heads[k - 1])
  }

  /** Their used elements: each head with the length of what it said, as far as 32 bits go. */
  ghost function Reports(ram: Ram, q: Queue, heads: seq<u16>, k: nat): (r: seq<Elem>)
    requires k <= |heads|
    ensures |r| == k
  {
    seq(k, i requires 0 <= i < k => Elem(heads[i], |ChainText(ram, q, heads[i])| % 0x1_0000_0000))
  }

  /** Memory may differ on the used ring only. */
  ghost predicate SameOffUsed(r: Ram, s: Ram, q: Queue) {
    forall span :: OffUsed(q, span) ==> Untouched(r, s, span)
  }

  // ---- A chain is as it was ----

  lemma StillSpeakable(r: Ram, s: Ram, q: Queue, q': Queue, head: u16)
    requires Speakable(r, q, head) && SameOffUsed(r, s, q) && q'.(lastAvail := 0) == q.(lastAvail := 0)
    ensures Speakable(s, q', head) && ChainText(s, q', head) == ChainText(r, q, head)
  {
    hide Follow, Outgoing, Descs, Gather, Ram.Read;
    var l := Follow(r, q, head, WALK_MAX);
    forall a | a in l.at
      ensures r.AgreesOn(s, DescAddr(q, a), 16)
    {
      assert Untouched(r, s, Span(DescAddr(q, a), 16));
    }
    assert Untouched(r, s, Span(0, 0));
    FollowAgrees(r, s, q, head, WALK_MAX);
    FollowCursor(s, q, q', head, WALK_MAX);
    forall d | d in Outgoing(Descs(l))
      ensures r.AgreesOn(s, d.addr, d.len)
    {
      assert Untouched(r, s, Span(d.addr, d.len));
    }
    BlockRefinement.GatherAgrees(r, s, Outgoing(Descs(l)));
  }

  // ---- One turn ----

  /** The walk of a speakable chain is what it says and how long that is. */
  lemma WalkSpeaks(ram: Ram, q: Queue, head: u16, out: seq<u8>)
    requires Speakable(ram, q, head)
    ensures var text := ChainText(ram, q, head);
            TxTurns(ram, q, Reading(head, out, 0), WALK_MAX) == TxDone(out + text, |text| % 0x1_0000_0000)
  {
    hide TxTurns, Follow, Outgoing, Reachable, OffUsed;
    TxWritesChain(ram, q, head, out, 0, WALK_MAX);
  }

  /** A chain served between two loop heads: its text, its used element, the cursor. */
  lemma TurnServes(s: RP.State, ram: Ram, q: Queue, out: seq<u8>, usedAny: bool) returns (t: RP.State)
    requires AtTxHead(s, ram, q) && |s.used| < |s.published| && Speakable(ram, q, s.published[|s.used|])
    ensures q.num % 0x1_0000 != 0
    ensures var head := s.published[|s.used|];
            var text := ChainText(ram, q, head);
            && LoopTurn(Looping(ram, out, q, usedAny)) == Looping(t.ram, out + text, t.q, true)
            && AtTxHead(t, t.ram, t.q) && t.published == s.published && t.collected == s.collected
            && t.used == s.used + [Elem(head, |text| % 0x1_0000_0000)]
            && t.q.(lastAvail := 0) == q.(lastAvail := 0) && SameOffUsed(ram, t.ram, q)
  {
    hide RP.Inv, TxTurns, NextAvail, AddUsed, Speakable, ChainText, SameOffUsed;
    var head := s.published[|s.used|];
    Sizes(s);
    NextIsHead(s, ram, q);
    WalkSpeaks(ram, q, head, out);
    t := PostText(s, head, |ChainText(ram, q, head)| % 0x1_0000_0000);
  }

  /** At a loop head with something pending, the poll finds the next published head. */
  lemma NextIsHead(s: RP.State, ram: Ram, q: Queue)
    requires AtTxHead(s, ram, q)
    ensures q.num % 0x1_0000 != 0 && |s.used| <= |s.published|
    ensures NextAvail(ram, q) ==
            if |s.used| < |s.published| then Head(s.published[|s.used|]) else Empty
  {
    hide RP.Inv, NextAvail;
    Sizes(s);
    HeadIsNext(s, BlockDaemon.Daemon(ram, Disk([], false), q, 0, None));
  }

  lemma PostText(s: RP.State, head: u16, len: u32) returns (t: RP.State)
    requires RP.Inv(s) && s.phase == RP.ReadIndex(RETRIES) && s.q.num % 0x1_0000 != 0
    requires NextAvail(s.ram, s.q) == Head(head)
    ensures AddUsed(s.ram, s.q, head, len) == Posted(true, t.ram)
    ensures t.q == s.q.(lastAvail := Add16(s.q.lastAvail, 1)) && AtTxHead(t, t.ram, t.q)
    ensures t.published == s.published && t.collected == s.collected && t.used == s.used + [Elem(head, len)]
    ensures SameOffUsed(s.ram, t.ram, s.q)
  {
    hide RP.Inv, AddUsed, UsedElemAddr, Ram.Read, Ram.Write, Add64, Add16, SameOffUsed;
    Sizes(s);
    var s1 := s.(phase := RP.ReadSlot);
    RP.DaemonStepInv(s, RP.Poll, s1);
    var s2 := s.(phase := RP.Serving(head));
    RP.DaemonStepInv(s1, RP.Take, s2);
    var s3 := AddUsedIsSteps(s2, head, len);
    t := s3.(q := s3.q.(lastAvail := Add16(s3.q.lastAvail, 1)), phase := RP.ReadIndex(RETRIES));
    RP.DaemonStepInv(s3, RP.Step, t);
    PostKeepsRest(s, head, len);
  }

  lemma PostKeepsRest(s: RP.State, head: u16, len: u32)
    requires RP.Inv(s) && s.q.num % 0x1_0000 != 0
    ensures SameOffUsed(s.ram, AddUsed(s.ram, s.q, head, len).ram, s.q)
  {
    hide AddUsed, OffUsed, Untouched;
    forall span | OffUsed(s.q, span)
      ensures Untouched(s.ram, AddUsed(s.ram, s.q, head, len).ram, span)
    {
      AddUsedFrame(s.ram, s.q, |s.used|, head, len, span);
    }
  }

  // ---- All of them ----

  /** After `k` turns: `k` chains said and reported, nothing else changed off the used ring. */
  ghost predicate SaidAll(s: RP.State, out: seq<u8>, l: Loop, t: RP.State, k: nat) {
    && |s.used| <= |s.published| && k <= |Pending(s)|
    && l == Looping(t.ram, out + Speech(s.ram, s.q, Pending(s), k), t.q, k > 0)
    && AtTxHead(t, t.ram, t.q) && t.published == s.published && t.collected == s.collected
    && t.used == s.used + Reports(s.ram, s.q, Pending(s), k)
    && t.q.(lastAvail := 0) == s.q.(lastAvail := 0) && SameOffUsed(s.ram, t.ram, s.q)
  }

  lemma OneMoreSaid(s: RP.State, out: seq<u8>, l: Loop, t: RP.State, k: nat) returns (t': RP.State)
    requires SaidAll(s, out, l, t, k) && AllSpeakable(s.ram, s.q, Pending(s)) && k < |Pending(s)|
    ensures l.q.num % 0x1_0000 != 0 && SaidAll(s, out, LoopTurn(l), t', k + 1)
  {
    hide RP.Inv, LoopTurn, Speakable, ChainText;
    var heads := Pending(s);
    var head := heads[k];
    assert Speakable(s.ram, s.q, head);
    hide SameOffUsed;
    StillSpeakable(s.ram, t.ram, s.q, t.q, head);
    assert t.published[|t.used|] == head;
    t' := TurnServes(t, t.ram, t.q, l.out, l.usedAny);
    assert Reports(s.ram, s.q, heads, k + 1) ==
        Reports(s.ram, s.q, heads, k) + [Elem(head, |ChainText(s.ram, s.q, head)| % 0x1_0000_0000)];
    SameTwice(s.ram, t.ram, t'.ram, s.q, t.q);
  }

  lemma SameTwice(r: Ram, s: Ram, t: Ram, q: Queue, q': Queue)
    requires SameOffUsed(r, s, q) && SameOffUsed(s, t, q') && q'.(lastAvail := 0) == q.(lastAvail := 0)
    ensures SameOffUsed(r, t, q)
  {
    hide Untouched;
    forall span | OffUsed(q, span)
      ensures Untouched(r, t, span)
    {
      assert OffUsed(q', span);
      UntouchedTwice(r, s, t, span);
    }
  }

  lemma {:induction false} TurnsSay(s: RP.State, out: seq<u8>, k: nat) returns (t: RP.State)
    requires RP.Inv(s) && s.phase == RP.ReadIndex(RETRIES) && s.q.num % 0x1_0000 != 0 && |s.used| <= |s.published|
    requires AllSpeakable(s.ram, s.q, Pending(s)) && k <= |Pending(s)|
    ensures SaidAll(s, out, LoopTurns(Looping(s.ram, out, s.q, false), k), t, k)
  {
    hide RP.Inv, LoopTurn, Speakable, ChainText;
    if k == 0 {
      t := s;
      assert out + Speech(s.ram, s.q, Pending(s), 0) == out;
      assert s.used + Reports(s.ram, s.q, Pending(s), 0) == s.used;
    } else {
      hide SaidAll, AllSpeakable;
      var t1 := TurnsSay(s, out, k - 1);
      t := OneMoreSaid(s, out, LoopTurns(Looping(s.ram, out, s.q, false), k - 1), t1, k - 1);
    }
  }

  /**
   A transmit notification whose pending chains end and can be read says them all, in ring
   order, each once, and stops with the ring empty. The used ring has each head with the
   length of what it said; memory off the used ring is as it was; the cursor has moved past
   everything published.
   */
  lemma TransmitIsSequential(s: RP.State, out: seq<u8>) returns (t: RP.State)
    requires RP.Inv(s) && s.phase == RP.ReadIndex(RETRIES) && s.q.num % 0x1_0000 != 0 && |s.used| <= |s.published|
    requires AllSpeakable(s.ram, s.q, Pending(s))
    ensures var heads := Pending(s);
            && LoopTurns(Looping(s.ram, out, s.q, false), |heads| + 1) ==
               Drained(t.ram, out + Speech(s.ram, s.q, heads, |heads|), t.q, heads != [])
            && t.used == s.used + Reports(s.ram, s.q, heads, |heads|)
            && QueueSize(t.q.num) && UsedHolds(t.ram, t.q, |s.collected|, t.used)
            && SameOffUsed(s.ram, t.ram, s.q)
            && t.q == s.q.(lastAvail := Wrapped(|s.published|))
  {
    hide RP.Inv, NextAvail, Speech, Reports, TxTurns, AddUsed, SameOffUsed, UsedHolds, QueueSize, AllSpeakable;
    t := TurnsSay(s, out, |Pending(s)|);
    NextIsHead(t, t.ram, t.q);
    LoopHeadShows(t);
  }

  lemma LoopHeadShows(t: RP.State)
    requires RP.Inv(t) && t.phase.ReadIndex?
    ensures QueueSize(t.q.num) && UsedHolds(t.ram, t.q, |t.collected|, t.used) && t.q.lastAvail == Wrapped(|t.used|)
  {
  }
}
