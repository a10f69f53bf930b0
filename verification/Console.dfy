/** The console daemon: transmit chains written out in ring order, receive buffers left pending. */
module Console {
  import opened Words
  import opened GuestMemory
  import opened KernelIo
  import opened Virtqueue
  import opened BlockTransfer

  // ---- One transmit chain ----

  /** `process_tx_chain` under way: the next descriptor, the output so far, the 32-bit byte count. */
  datatype Tx =
    | Reading(index: u16, out: seq<u8>, total: u32)
    | TxFailed(out: seq<u8>)
    | TxDone(out: seq<u8>, total: u32)

  /** As many descriptors as an index can name. */
  const WALK_MAX := 0x1_0000

  /** The bytes a descriptor contributes: device-writable and empty ones contribute none. */
  function Text(ram: Ram, d: Desc): Option<seq<u8>> {
    if d.DeviceWritable() || d.len == 0 then Some([]) else ram.Read(d.addr, d.len)
  }

  /** Reading nothing always succeeds, so what is not device-writable is simply read. */
  lemma TextIsRead(ram: Ram, d: Desc)
    ensures Text(ram, d) == if d.DeviceWritable() then Some([]) else ram.Read(d.addr, d.len)
  {
  }

  function TxTurn(ram: Ram, q: Queue, t: Tx): Tx {
    if !t.Reading? then t
    else match ReadDesc(ram, q, t.index)
      case None => TxFailed(t.out)
      case Some(d) =>
        match Text(ram, d)
        case None => TxFailed(t.out)
        case Some(b) =>
          var total := if d.DeviceWritable() then t.total else Add32(t.total, d.len);
          if d.HasNext() then Reading(d.next, t.out + b, total) else TxDone(t.out + b, total)
  }

  function TxTurns(ram: Ram, q: Queue, t: Tx, n: nat): Tx {
    if n == 0 then t else TxTurn(ram, q, TxTurns(ram, q, t, n - 1))
  }

  /** The descriptor the walk is at after `n` links, if it gets that far. */
  function At(ram: Ram, q: Queue, head: u16, n: nat): Option<u16> {
    if n == 0 then Some(head)
    else match At(ram, q, head, n - 1)
      case None => None
      case Some(i) => Linked(ram, q, i)
  }

  /** The successor of a descriptor that can be read, with its text, and has one. */
  function Linked(ram: Ram, q: Queue, index: u16): Option<u16> {
    match ReadDesc(ram, q, index)
    case None => None
    case Some(d) => if Text(ram, d).Some? && d.HasNext() then Some(d.next) else None
  }

  /** No descriptor is met twice. */
  ghost predicate Acyclic(ram: Ram, q: Queue, head: u16) {
    forall i: nat, j: nat :: i < j && At(ram, q, head, i).Some? && At(ram, q, head, j).Some? ==>
      At(ram, q, head, i) != At(ram, q, head, j)
  }

  lemma {:induction false} TurnsFollowLinks(ram: Ram, q: Queue, head: u16, out: seq<u8>, n: nat)
    ensures var t := TxTurns(ram, q, Reading(head, out, 0), n);
            (t.Reading? <==> At(ram, q, head, n).Some?) && (t.Reading? ==> At(ram, q, head, n) == Some(t.index))
  {
    hide ReadDesc, Text;
    if n > 0 {
      TurnsFollowLinks(ram, q, head, out, n - 1);
    }
  }

  /** Numbers below `k`, all different, are at most `k` many. */
  lemma {:induction false} Pigeonhole(s: set<nat>, k: nat)
    requires forall x :: x in s ==> x < k
    ensures |s| <= k
  {
    if k == 0 {
      assert s == {};
    } else if k - 1 in s {
      Pigeonhole(s - {k - 1}, k - 1);
    } else {
      Pigeonhole(s, k - 1);
    }
  }

  /** The descriptors met in the first `n` turns. */
  ghost function Visited(ram: Ram, q: Queue, head: u16, n: nat): set<nat> {
    if n == 0 then {}
    else Visited(ram, q, head, n - 1) + match At(ram, q, head, n - 1)
                                        case None => {}
                                        case Some(i) => {i as nat}
  }

  ghost predicate Met(ram: Ram, q: Queue, head: u16, n: nat, x: nat) {
    exists i: nat :: i < n && At(ram, q, head, i) == Some(x)
  }

  lemma EarlierAt(ram: Ram, q: Queue, head: u16, n: nat)
    requires n > 0 && At(ram, q, head, n).Some?
    ensures At(ram, q, head, n - 1).Some?
  {
    hide Linked;
  }

  lemma {:induction false} VisitedCounts(ram: Ram, q: Queue, head: u16, n: nat)
    requires Acyclic(ram, q, head) && At(ram, q, head, n).Some?
    ensures |Visited(ram, q, head, n)| == n
    ensures forall x :: x in Visited(ram, q, head, n) ==> x < 0x1_0000
    ensures forall x :: x in Visited(ram, q, head, n) ==> Met(ram, q, head, n, x)
  {
    hide Linked;
    if n > 0 {
      EarlierAt(ram, q, head, n);
      VisitedCounts(ram, q, head, n - 1);
      var last := At(ram, q, head, n - 1).value;
      assert !Met(ram, q, head, n - 1, last);
      forall x | x in Visited(ram, q, head, n)
        ensures Met(ram, q, head, n, x)
      {
        if x == last {
          assert At(ram, q, head, n - 1) == Some(x);
        } else {
          assert Met(ram, q, head, n - 1, x);
          var i: nat :| i < n - 1 && At(ram, q, head, i) == Some(x);
          assert i < n && At(ram, q, head, i) == Some(x);
        }
      }
    }
  }

  lemma TooManyVisited(ram: Ram, q: Queue, head: u16)
    requires At(ram, q, head, WALK_MAX).Some?
    ensures !Acyclic(ram, q, head)
  {
    hide Linked, At;
    if Acyclic(ram, q, head) {
      VisitedCounts(ram, q, head, WALK_MAX);
      var last := At(ram, q, head, WALK_MAX).value;
      assert !Met(ram, q, head, WALK_MAX, last);
      Pigeonhole(Visited(ram, q, head, WALK_MAX) + {last}, WALK_MAX);
    }
  }

  /** From a repeated descriptor on, the walk goes round. */
  lemma {:induction false} GoesRound(ram: Ram, q: Queue, head: u16, i: nat, j: nat, n: nat)
    requires i < j && At(ram, q, head, i).Some? && At(ram, q, head, i) == At(ram, q, head, j)
    ensures At(ram, q, head, n).Some?
    decreases n
  {
    hide Linked;
    if n <= j {
      Before(ram, q, head, n, j);
    } else {
      GoesRound(ram, q, head, i, j, n - (j - i));
      Shift(ram, q, head, i, j, n - j);
    }
  }

  lemma {:induction false} Before(ram: Ram, q: Queue, head: u16, n: nat, j: nat)
    requires n <= j && At(ram, q, head, j).Some?
    ensures At(ram, q, head, n).Some?
    decreases j - n
  {
    hide Linked;
    if n < j {
      EarlierAt(ram, q, head, j);
      Before(ram, q, head, n, j - 1);
    }
  }

  lemma {:induction false} Shift(ram: Ram, q: Queue, head: u16, i: nat, j: nat, k: nat)
    requires At(ram, q, head, i).Some? && At(ram, q, head, i) == At(ram, q, head, j)
    ensures At(ram, q, head, i + k) == At(ram, q, head, j + k)
  {
    hide Linked;
    if k > 0 {
      Shift(ram, q, head, i, j, k - 1);
    }
  }

  ghost predicate Stops(ram: Ram, q: Queue, head: u16, out: seq<u8>) {
    exists n: nat :: !TxTurns(ram, q, Reading(head, out, 0), n).Reading?
  }

  /**
   The transmit walk has no descriptor count: it stops exactly when no descriptor is met
   twice, and then within 65536 turns, having no unvisited descriptor left.
   */
  lemma StopsWhenAcyclic(ram: Ram, q: Queue, head: u16, out: seq<u8>)
    ensures Stops(ram, q, head, out) <==> Acyclic(ram, q, head)
    ensures Acyclic(ram, q, head) ==> !TxTurns(ram, q, Reading(head, out, 0), WALK_MAX).Reading?
  {
    hide TxTurn, Linked;
    if Acyclic(ram, q, head) {
      TurnsFollowLinks(ram, q, head, out, WALK_MAX);
      if At(ram, q, head, WALK_MAX).Some? {
        TooManyVisited(ram, q, head);
      }
    } else {
      var i: nat, j: nat :| i < j && At(ram, q, head, i).Some? && At(ram, q, head, j).Some?
        && At(ram, q, head, i) == At(ram, q, head, j);
      forall n: nat
        ensures TxTurns(ram, q, Reading(head, out, 0), n).Reading?
      {
        GoesRound(ram, q, head, i, j, n);
        TurnsFollowLinks(ram, q, head, out, n);
      }
    }
  }

  // ---- The chain as the guest linked it ----

  /** The descriptors of a chain that ends. */
  function Descs(l: Links): seq<Desc>
    requires l.last.Some?
  {
    l.segs + [l.last.value]
  }

  /** The descriptors that the device reads from. */
  function Outgoing(descs: seq<Desc>): seq<Desc> {
    if descs == [] then []
    else (if descs[0].DeviceWritable() then [] else [descs[0]]) + Outgoing(descs[1..])
  }

  ghost predicate Readable(ram: Ram, descs: seq<Desc>) {
    Reachable(ram, Outgoing(descs))
  }

  /** The first descriptor's text, and the rest. */
  lemma SplitsOff(ram: Ram, descs: seq<Desc>)
    requires descs != []
    ensures Readable(ram, descs) <==> Text(ram, descs[0]).Some? && Readable(ram, descs[1..])
    ensures Readable(ram, descs) ==>
              Gather(ram, Outgoing(descs)) == Text(ram, descs[0]).value + Gather(ram, Outgoing(descs[1..]))
    ensures Total(Outgoing(descs)) ==
            (if descs[0].DeviceWritable() then 0 else descs[0].len) + Total(Outgoing(descs[1..]))
  {
    hide Text, Ram.Read, Desc.DeviceWritable;
    var d, rest := descs[0], Outgoing(descs[1..]);
    TextIsRead(ram, d);
    if d.DeviceWritable() {
      assert Outgoing(descs) == rest;
    } else {
      assert Outgoing(descs) == [d] + rest && Outgoing(descs)[1..] == rest;
      assert forall e :: e in Outgoing(descs) <==> e == d || e in rest;
    }
  }

  lemma {:induction false} TxShift(ram: Ram, q: Queue, t: Tx, n: nat)
    requires n > 0
    ensures TxTurns(ram, q, t, n) == TxTurns(ram, q, TxTurn(ram, q, t), n - 1)
  {
    hide TxTurn;
    if n > 1 {
      TxShift(ram, q, t, n - 1);
    }
  }

  lemma {:induction false} TxRests(ram: Ram, q: Queue, t: Tx, n: nat)
    requires !t.Reading?
    ensures TxTurns(ram, q, t, n) == t
  {
    hide ReadDesc, Text;
    if n > 0 {
      TxRests(ram, q, t, n - 1);
    }
  }

  /**
   A transmit chain that ends within `n` descriptors, all of it readable, is written out
   as its device-readable segments, end to end, and nothing else; the count is their
   length, as far as 32 bits go.
   */
  lemma {:induction false} TxWritesChain(ram: Ram, q: Queue, head: u16, out: seq<u8>, total: u32, n: nat)
    requires var l := Follow(ram, q, head, n);
             l.last.Some? && Readable(ram, Descs(l))
    ensures var segs := Outgoing(Descs(Follow(ram, q, head, n)));
            TxTurns(ram, q, Reading(head, out, total), n)
            == TxDone(out + Gather(ram, segs), (total + Total(segs)) % 0x1_0000_0000)
    decreases n
  {
    hide ReadDesc, TxTurn, TxTurns, Follow, Text, Descs, Outgoing, Reachable, Gather, Total;
    ChainSplits(ram, q, head, n);
    var d := ReadDesc(ram, q, head).value;
    var descs := Descs(Follow(ram, q, head, n));
    SplitsOff(ram, descs);
    TurnSpeaks(ram, q, head, out, total, d);
    TxShift(ram, q, Reading(head, out, total), n);
    var t, b := TxTurn(ram, q, Reading(head, out, total)), Text(ram, d).value;
    if d.HasNext() {
      var rest := Descs(Follow(ram, q, d.next, n - 1));
      assert descs[1..] == rest;
      TxWritesChain(ram, q, d.next, out + b, t.total, n - 1);
      assert out + b + Gather(ram, Outgoing(rest)) == out + (b + Gather(ram, Outgoing(rest)));
    } else {
      assert descs[1..] == [];
      NothingOutgoing(ram);
      TxRests(ram, q, t, n - 1);
    }
  }

  lemma NothingOutgoing(ram: Ram)
    ensures Readable(ram, []) && Gather(ram, Outgoing([])) == [] && Total(Outgoing([])) == 0
  {
  }

  /** A chain that ends is its first descriptor and, if that is linked on, the rest. */
  lemma ChainSplits(ram: Ram, q: Queue, head: u16, n: nat)
    requires Follow(ram, q, head, n).last.Some?
    ensures n > 0 && ReadDesc(ram, q, head).Some?
    ensures var d, descs := ReadDesc(ram, q, head).value, Descs(Follow(ram, q, head, n));
            if d.HasNext()
            then Follow(ram, q, d.next, n - 1).last.Some? && descs == [d] + Descs(Follow(ram, q, d.next, n - 1))
            else descs == [d]
  {
    hide ReadDesc;
  }

  /** A turn on a readable descriptor writes what it says. */
  lemma TurnSpeaks(ram: Ram, q: Queue, head: u16, out: seq<u8>, total: u32, d: Desc)
    requires ReadDesc(ram, q, head) == Some(d) && Text(ram, d).Some?
    ensures var t, b := TxTurn(ram, q, Reading(head, out, total)), Text(ram, d).value;
            t == if d.HasNext() then Reading(d.next, out + b, if d.DeviceWritable() then total else Add32(total, d.len))
                 else TxDone(out + b, if d.DeviceWritable() then total else Add32(total, d.len))
  {
    hide ReadDesc, Text;
  }

  /** What a chain says; nothing, if it does not end or cannot be read. */
  ghost function ChainText(ram: Ram, q: Queue, head: u16): seq<u8> {
    var l := Follow(ram, q, head, WALK_MAX);
    if l.last.Some? && Readable(ram, Descs(l)) then Gather(ram, Outgoing(Descs(l))) else []
  }

  /** A walk that is done has followed a readable chain to its end. */
  lemma {:induction false} DoneMeansChain(ram: Ram, q: Queue, head: u16, out: seq<u8>, total: u32, n: nat)
    requires TxTurns(ram, q, Reading(head, out, total), n).TxDone?
    ensures var l := Follow(ram, q, head, n);
            l.last.Some? && Readable(ram, Descs(l))
    decreases n
  {
    hide ReadDesc, Outgoing, Readable, Text;
    TxShift(ram, q, Reading(head, out, total), n);
    var t := TxTurn(ram, q, Reading(head, out, total));
    if t.TxFailed? {
      TxRests(ram, q, t, n - 1);
    } else {
      var d := ReadDesc(ram, q, head).value;
      NothingOutgoing(ram);
      if d.HasNext() {
        DoneMeansChain(ram, q, d.next, t.out, t.total, n - 1);
        assert Descs(Follow(ram, q, head, n)) == [d] + Descs(Follow(ram, q, d.next, n - 1));
      }
      var descs := Descs(Follow(ram, q, head, n));
      assert d.HasNext() || descs[1..] == [];
      SplitsOff(ram, descs);
    }
  }

  /** The chain's device-readable segments, end to end, have been added to the output, and counted. */
  ghost predicate Transmitted(ram: Ram, q: Queue, head: u16, before: seq<u8>, n: nat, after: seq<u8>, count: u32) {
    var l := Follow(ram, q, head, n);
    && l.last.Some? && Readable(ram, Descs(l))
    && after == before + Gather(ram, Outgoing(Descs(l))) && count == Total(Outgoing(Descs(l))) % 0x1_0000_0000
  }

  lemma DoneTransmits(ram: Ram, q: Queue, head: u16, before: seq<u8>, n: nat)
    ensures var t := TxTurns(ram, q, Reading(head, before, 0), n);
            t.TxDone? ==> Transmitted(ram, q, head, before, n, t.out, t.total)
  {
    hide TxTurns, Follow, Outgoing, Gather, Total, Reachable, Descs;
    if TxTurns(ram, q, Reading(head, before, 0), n).TxDone? {
      DoneMeansChain(ram, q, head, before, 0, n);
      TxWritesChain(ram, q, head, before, 0, n);
    }
  }

  // ---- The daemon in place ----

  /** The transmit loop: going on, given up on, out of work, or caught in a chain without end. */
  datatype Loop =
    | Looping(ram: Ram, out: seq<u8>, q: Queue, usedAny: bool)
    | Broken(ram: Ram, out: seq<u8>, q: Queue)
    | Drained(ram: Ram, out: seq<u8>, q: Queue, usedAny: bool)
    | Endless

  function LoopTurn(l: Loop): Loop
    requires l.Looping? ==> l.q.num % 0x1_0000 != 0
  {
    if !l.Looping? then l
    else match NextAvail(l.ram, l.q)
      case DmaError => Broken(l.ram, l.out, l.q)
      case Empty => Drained(l.ram, l.out, l.q, l.usedAny)
      case Head(h) =>
        match TxTurns(l.ram, l.q, Reading(h, l.out, 0), WALK_MAX)
        case Reading(_, _, _) => Endless
        case TxFailed(out) => Broken(l.ram, out, l.q)
        case TxDone(out, total) =>
          var posted := AddUsed(l.ram, l.q, h, total);
          if posted.ok then Looping(posted.ram, out, l.q.(lastAvail := Add16(l.q.lastAvail, 1)), true)
          else Broken(posted.ram, out, l.q)
  }

  lemma TurnKeepsSize(l: Loop)
    requires l.Looping? ==> l.q.num % 0x1_0000 != 0
    ensures LoopTurn(l).Looping? ==> l.Looping? && LoopTurn(l).q.num == l.q.num
  {
    hide NextAvail, AddUsed, TxTurns;
  }

  function LoopTurns(l: Loop, n: nat): (r: Loop)
    requires l.Looping? ==> l.q.num % 0x1_0000 != 0
    ensures r.Looping? ==> r.q.num % 0x1_0000 != 0
  {
    if n == 0 then l
    else
      TurnKeepsSize(LoopTurns(l, n - 1));
      LoopTurn(LoopTurns(l, n - 1))
  }

  lemma {:induction false} LoopStays(l: Loop, n: nat, m: nat)
    requires (l.Looping? ==> l.q.num % 0x1_0000 != 0) && n <= m && !LoopTurns(l, n).Looping?
    ensures LoopTurns(l, m) == LoopTurns(l, n)
  {
    hide NextAvail, AddUsed, TxTurns;
    if n < m {
      LoopStays(l, n, m - 1);
    }
  }

  class Consoled {
    const window: DmaWindow
    const queues: array<Queue>
    var output: seq<u8>
    var isr: u32
    var irq: Option<bool>

    constructor (window: DmaWindow, queues: array<Queue>)
      ensures this.window == window && this.queues == queues && output == [] && isr == 0 && irq == None
    {
      this.window, this.queues, output, isr, irq := window, queues, [], 0, None;
    }

    /** `write_all` to the console: everything, or the leading bytes and a failure. */
    method ConsoleWrite(buf: seq<u8>, kernel: seq<Answer>) returns (ok: bool, rest: seq<Answer>)
      modifies this`output
      ensures ok <==> BytesMoved(kernel, |buf|) == |buf|
      ensures output == old(output) + buf[..BytesMoved(kernel, |buf|)]
      ensures Refused !in kernel ==> Refused !in rest
    {
      var done := 0;
      rest := kernel;
      while done < |buf|
        invariant 0 <= done <= |buf| && output == old(output) + buf[..done]
        invariant done + BytesMoved(rest, |buf| - done) == BytesMoved(kernel, |buf|)
        invariant Refused !in kernel ==> Refused !in rest
        decreases |buf| - done, |rest|
      {
        var ret: Option<nat>;
        ret, rest := Call(rest, |buf| - done);
        if ret.None? {
          return false, rest;
        }
        output := output + buf[done..done + ret.value];
        assert buf[..done] + buf[done..done + ret.value] == buf[..done + ret.value];
        done := done + ret.value;
      }
      ok := true;
    }

    /**
     `process_tx_chain`; `n` witnesses that the walk stops. A console that refuses to
     take more ends the walk, with a leading part of its output written.
     */
    method ProcessTxChain(q: Queue, head: u16, kernel: seq<Answer>, ghost n: nat) returns (ok: bool, usedLen: u32)
      requires !TxTurns(window.Value(), q, Reading(head, output, 0), n).Reading?
      modifies this`output
      ensures var end := TxTurns(window.Value(), q, Reading(head, old(output), 0), n);
              && old(output) <= output <= end.out
              && (ok ==> end == TxDone(output, usedLen))
              && (Refused !in kernel ==> output == end.out && (ok <==> end.TxDone?))
      ensures ok ==> Transmitted(window.Value(), q, head, old(output), n, output, usedLen)
    {
      hide ReadDesc, TxTurns, Transmitted;
      ghost var ram, start := window.Value(), Reading(head, output, 0);
      ghost var i := 0;
      var index, total: u32, answers := head, 0, kernel;
      ok, usedLen := false, 0;
      NoTurns(ram, q, start);
      while true
        invariant 0 <= i <= n && TxTurns(ram, q, start, i) == Reading(index, output, total) && old(output) <= output
        invariant Refused !in kernel ==> Refused !in answers
        decreases n - i
      {
        if n <= i {
          assert false;
        }
        var next := VirtioReadDesc(q, window, index);
        OneMore(ram, q, start, i);
        i := i + 1;
        TxGrows(ram, q, start, i, n);
        if next.None? {
          TxStays(ram, q, start, i, n);
          return;
        }
        var desc := next.value;
        if !desc.DeviceWritable() && desc.len != 0 {
          var data := window.DmaReadInto(desc.addr, desc.len);
          if data.None? {
            TxStays(ram, q, start, i, n);
            return;
          }
          ghost var before := output;
          ok, answers := ConsoleWrite(data.value, answers);
          assert output <= before + data.value;
          if !ok {
            return;
          }
          assert output == before + data.value;
          ok := false;
          total := Add32(total, desc.len);
        }
        if !desc.HasNext() {
          TxStays(ram, q, start, i, n);
          break;
        }
        index := desc.next;
      }
      DoneTransmits(ram, q, head, old(output), n);
      ok, usedLen := true, total;
    }

    /**
     `cond_virtio_notify_queue`: a notification of any queue but a ready transmit queue
     touches neither memory nor cursors, so receive buffers stay pending; a ready
     transmit queue is served until it is empty or fails.
     */
    method NotifyQueue(index: u32, ghost n: nat) returns (ok: bool)
      requires queues.Length == 2
      requires index == 1 && queues[1].ready != 0 ==>
                 && queues[1].num % 0x1_0000 != 0
                 && var l := LoopTurns(Looping(window.Value(), output, queues[1], false), n);
                    l.Broken? || l.Drained?
      modifies this, window.mem, queues
      ensures queues[0] == old(queues[0])
      ensures index != 1 || old(queues[1]).ready == 0 ==>
                && ok && window.Value() == old(window.Value()) && output == old(output) && queues[1] == old(queues[1])
                && isr == old(isr) && irq == Some(isr % 2 == 1)
      ensures index == 1 && old(queues[1]).ready != 0 ==>
                match LoopTurns(Looping(old(window.Value()), old(output), old(queues[1]), false), n)
                case Broken(ram, out, q) =>
                  !ok && window.Value() == ram && output == out && queues[1] == q && isr == old(isr) && irq == old(irq)
                case Drained(ram, out, q, usedAny) =>
                  && ok && window.Value() == ram && output == out && queues[1] == q
                  && isr == (if usedAny then WithBit0(old(isr)) else old(isr)) && irq == Some(isr % 2 == 1)
                case _ => false
    {
      hide NextAvail, AddUsed, TxTurns;
      if index >= 2 || queues[index].ready == 0 || index == 0 {
        irq := Some(isr % 2 == 1);
        return true;
      }
      ghost var start := Looping(window.Value(), output, queues[1], false);
      ghost var i := 0;
      var usedAny := false;
      while true
        invariant 0 <= i <= n && queues[0] == old(queues[0]) && isr == old(isr) && irq == old(irq)
        invariant LoopTurns(start, i) == Looping(window.Value(), output, queues[1], usedAny)
        decreases n - i
      {
        if n <= i {
          assert false;
        }
        i := i + 1;
        var polled := PollTx();
        if !polled.Head? {
          LoopStays(start, i, n);
          if polled.DmaError? {
            return false;
          }
          break;
        }
        TurnStops(start, i, n);
        var used := ServeTx(polled.head, []);
        if !used {
          LoopStays(start, i, n);
          return false;
        }
        usedAny := true;
      }
      if usedAny {
        isr := WithBit0(isr);
        irq := Some(true);
      } else {
        irq := Some(isr % 2 == 1);
      }
      ok := true;
    }

    method PollTx() returns (r: Virtqueue.Poll)
      requires queues.Length == 2 && queues[1].num % 0x1_0000 != 0
      ensures r == NextAvail(window.Value(), queues[1])
    {
      r := VirtioNextAvail(queues[1], window);
      var retries := 0;
      while r.Empty? && retries < RETRIES
        invariant r == NextAvail(window.Value(), queues[1])
      {
        retries := retries + 1;
        r := VirtioNextAvail(queues[1], window);
      }
    }

    /** One chain: the walk, the used element, the cursor; a console that refuses ends it like any failure. */
    method ServeTx(head: u16, kernel: seq<Answer>) returns (ok: bool)
      requires queues.Length == 2 && queues[1].num % 0x1_0000 != 0
      requires !TxTurns(window.Value(), queues[1], Reading(head, output, 0), WALK_MAX).Reading?
      modifies this`output, window.mem, queues
      ensures queues[0] == old(queues[0])
      ensures var end := TxTurns(old(window.Value()), old(queues[1]), Reading(head, old(output), 0), WALK_MAX);
              && old(output) <= output <= end.out
              && (ok ==> end.TxDone? && output == end.out)
              && (!ok ==> queues[1] == old(queues[1]))
              && (!ok && !(end.TxDone? && output == end.out) ==> window.Value() == old(window.Value()))
      ensures Refused !in kernel ==>
              match TxTurns(old(window.Value()), old(queues[1]), Reading(head, old(output), 0), WALK_MAX)
              case TxFailed(out) => !ok && window.Value() == old(window.Value()) && output == out
                  && queues[1] == old(queues[1])
              case TxDone(out, total) =>
                var posted := AddUsed(old(window.Value()), old(queues[1]), head, total);
                && ok == posted.ok && window.Value() == posted.ram && output == out
                && queues[1] == if ok then old(queues[1]).(lastAvail := Add16(old(queues[1]).lastAvail, 1))
                    else old(queues[1])
              case _ => false
    {
      hide AddUsed, TxTurns;
      var usedLen: u32;
      ok, usedLen := ProcessTxChain(queues[1], head, kernel, WALK_MAX);
      if !ok {
        return;
      }
      ok := VirtioAddUsed(queues[1], window, head, usedLen);
      if ok {
        queues[1] := queues[1].(lastAvail := Add16(queues[1].lastAvail, 1));
      }
    }
  }

  lemma NoTurns(ram: Ram, q: Queue, t: Tx)
    ensures TxTurns(ram, q, t, 0) == t
  {
  }

  lemma OneMore(ram: Ram, q: Queue, t: Tx, n: nat)
    ensures TxTurns(ram, q, t, n + 1) == TxTurn(ram, q, TxTurns(ram, q, t, n))
  {
  }

  /** Output is only ever added to. */
  lemma {:induction false} TxGrows(ram: Ram, q: Queue, t: Tx, n: nat, m: nat)
    requires n <= m
    ensures TxTurns(ram, q, t, n).out <= TxTurns(ram, q, t, m).out
  {
    hide ReadDesc, Text;
    if n < m {
      TxGrows(ram, q, t, n, m - 1);
    }
  }

  lemma {:induction false} TxStays(ram: Ram, q: Queue, t: Tx, n: nat, m: nat)
    requires n <= m && !TxTurns(ram, q, t, n).Reading?
    ensures TxTurns(ram, q, t, m) == TxTurns(ram, q, t, n)
  {
    hide ReadDesc, Text;
    if n < m {
      TxStays(ram, q, t, n, m - 1);
    }
  }

  /** A loop that ends well never meets a chain without end. */
  lemma TurnStops(l: Loop, i: nat, n: nat)
    requires (l.Looping? ==> l.q.num % 0x1_0000 != 0) && 0 < i <= n
    requires LoopTurns(l, n).Broken? || LoopTurns(l, n).Drained?
    ensures !LoopTurns(l, i).Endless?
  {
    hide NextAvail, AddUsed, TxTurns;
    if LoopTurns(l, i).Endless? {
      LoopStays(l, i, n);
    }
  }
}
