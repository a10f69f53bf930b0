/**
 A register write carried over the socket: QEMU sends it and then serves the backend's
 memory and interrupt requests until the backend says it is finished. Two processes, two
 byte streams, any interleaving.
 */
module SocketRpc {
  import opened Words
  import opened GuestMemory
  import opened SocketWire

  // ---- The callback, and running it on local memory ----

  /** What a device callback asks of its fabric next. */
  datatype Act = Read(gpa: u64, len: u32) | Write(gpa: u64, data: seq<u8>) | Raise | Lower | Done

  /** A device callback: its state decides the next request, and an answer resumes it. */
  datatype Prog<!C> = Prog(act: C -> Act, resume: (C, seq<u8>) -> C, start: (C, u64, u64) -> C)

  datatype Local<C> = Local(c: C, mem: seq<u8>, irq: bool)

  predicate InRange(mem: seq<u8>, gpa: u64, len: nat) {
    gpa + len <= |mem|
  }

  predicate Allowed(a: Act, mem: seq<u8>) {
    match a
    case Read(gpa, len) => len == 0 || InRange(mem, gpa, len)
    case Write(gpa, data) => |data| < 0x1_0000_0000 && (data == [] || InRange(mem, gpa, |data|))
    case _ => true
  }

  function MemRead(mem: seq<u8>, gpa: u64, len: nat): seq<u8>
    requires len == 0 || InRange(mem, gpa, len)
  {
    if len == 0 then [] else mem[gpa..gpa + len]
  }

  function MemWrite(mem: seq<u8>, gpa: u64, data: seq<u8>): (r: seq<u8>)
    requires data == [] || InRange(mem, gpa, |data|)
    ensures |r| == |mem|
  {
    if data == [] then mem else Splice(mem, gpa, data)
  }

  /** One request served at once from local memory. */
  function LocalStep<C>(p: Prog<C>, l: Local<C>): Local<C>
    requires Allowed(p.act(l.c), l.mem)
  {
    match p.act(l.c)
    case Read(gpa, len) => l.(c := p.resume(l.c, MemRead(l.mem, gpa, len)))
    case Write(gpa, data) => l.(c := p.resume(l.c, []), mem := MemWrite(l.mem, gpa, data))
    case Raise => l.(c := p.resume(l.c, []), irq := true)
    case Lower => l.(c := p.resume(l.c, []), irq := false)
    case Done => l
  }

  /** The callback, run locally, is done after `n` requests, all of them in range, and leaves `end`. */
  ghost predicate Finishes<C(!new)>(p: Prog<C>, l: Local<C>, n: nat, end: Local<C>)
    decreases n
  {
    if p.act(l.c).Done? then n == 0 && end == l
    else n > 0 && Allowed(p.act(l.c), l.mem) && Finishes(p, LocalStep(p, l), n - 1, end)
  }

  // ---- The two processes ----

  datatype Qemu =
    | SendWrite(addr: u64, value: u64, size: nat)  // `axi_write`, before its header
    | SendValue(value: u64, size: nat)             // after the header
    | Service                                      // `axi_service_backend`, reading a header
    | SendData(data: seq<u8>)                      // read reply header sent, bytes to follow
    | RecvData(gpa: u64, len: u32)                 // write header read, bytes to come
    | Returned                                     // the guest's access is complete
    | QClosed

  datatype Backend<C> =
    | Waiting(c: C)                                // `serve_connection`, reading a header
    | RecvValue(c: C, offset: u64, len: u32)
    | Running(c: C)                                // inside the callback
    | Asserting(c: C)                              // raising: the line is lowered, the assertion to follow
    | AwaitReply(c: C, len: u32)
    | AwaitData(c: C, len: u32)
    | SendPayload(c: C, data: seq<u8>)
    | AwaitAck(c: C)
    | BClosed

  datatype Sys<C> = Sys(q: Qemu, b: Backend<C>, toB: seq<u8>, toQ: seq<u8>, mem: seq<u8>, irq: bool)

  const NO_PAD: seq<u8> := [0, 0, 0, 0]

  /** QEMU's next move, if it can make one; a header it cannot accept closes the connection. */
  function QemuMove<C>(s: Sys<C>, pad: seq<u8>): Option<Sys<C>>
    requires |pad| == 4
  {
    match s.q
    case SendWrite(addr, value, size) =>
      if size > 8 then None
      else Some(s.(q := SendValue(value, size), toB := s.toB + Encode(Msg(MMIO_WRITE, addr, size), pad)))
    case SendValue(value, size) =>
      if size > 8 then None else Some(s.(q := Service, toB := s.toB + ValueBytes(value, size)))
    case Service =>
      if |s.toQ| < HEADER_LEN then None
      else
        var h := Decode(s.toQ[..HEADER_LEN]);
        Some(Serve(s.(toQ := s.toQ[HEADER_LEN..]), h, pad))
    case SendData(data) => Some(s.(q := Service, toB := s.toB + data))
    case RecvData(gpa, len) =>
      if |s.toQ| < len then None
      else
        var data := s.toQ[..len];
        if data != [] && !InRange(s.mem, gpa, len) then Some(s.(q := QClosed))
        else Some(s.(q := Service, toQ := s.toQ[len..], mem := MemWrite(s.mem, gpa, data),
                     toB := s.toB + Encode(Msg(ERROR, 0, 0), pad)))
    case Returned => None
    case QClosed => None
  }

  function Serve<C>(s: Sys<C>, h: Header, pad: seq<u8>): Sys<C>
    requires |pad| == 4
  {
    if h.kind == ERROR then s.(q := Returned)
    else if h.kind == IRQ_ASSERT then s.(irq := true)
    else if h.kind == IRQ_DEASSERT then s.(irq := false)
    else if h.kind == DMA_READ then
      if h.length == 0 then s.(toB := s.toB + Encode(Msg(DMA_READ_REPLY, h.offset, 0), pad))
      else if !InRange(s.mem, h.offset, h.length) then s.(q := QClosed)
      else s.(q := SendData(MemRead(s.mem, h.offset, h.length)),
              toB := s.toB + Encode(Msg(DMA_READ_REPLY, h.offset, h.length), pad))
    else if h.kind == DMA_WRITE then s.(q := RecvData(h.offset, h.length))
    else s.(q := QClosed)
  }

  /** `access_in_range` for a device window of `window` bytes at bus address zero. */
  predicate AccessInRange(h: Header, window: nat) {
    h.window == 0 && h.length <= 8 && h.offset <= window && h.length <= window - h.offset
  }

  /** The backend's next move, if it can make one. */
  function BackendMove<C>(p: Prog<C>, s: Sys<C>, window: nat): Option<Sys<C>> {
    match s.b
    case Waiting(c) =>
      if |s.toB| < HEADER_LEN then None
      else
        var h := Decode(s.toB[..HEADER_LEN]);
        if AccessInRange(h, window) && h.kind == MMIO_WRITE
        then Some(s.(b := RecvValue(c, h.offset, h.length), toB := s.toB[HEADER_LEN..]))
        else Some(s.(b := BClosed))
    case RecvValue(c, offset, len) =>
      if |s.toB| < len || len > 8 then None
      else Some(s.(b := Running(p.start(c, offset, ValueOf(s.toB[..len]))), toB := s.toB[len..]))
    case Running(c) => Some(Request(p, s, c))
    case Asserting(c) => Some(s.(b := Running(p.resume(c, [])), toQ := s.toQ + Encode(Msg(IRQ_ASSERT, 0, 0), NO_PAD)))
    case AwaitReply(c, len) =>
      if |s.toB| < HEADER_LEN then None
      else
        var h := Decode(s.toB[..HEADER_LEN]);
        var rest := s.(toB := s.toB[HEADER_LEN..]);
        if h.kind != DMA_READ_REPLY || h.length != len then Some(rest.(b := BClosed))
        else if len == 0 then Some(rest.(b := Running(p.resume(c, []))))
        else Some(rest.(b := AwaitData(c, len)))
    case AwaitData(c, len) =>
      if |s.toB| < len then None
      else Some(s.(b := Running(p.resume(c, s.toB[..len])), toB := s.toB[len..]))
    case SendPayload(c, data) => Some(s.(b := AwaitAck(c), toQ := s.toQ + data))
    case AwaitAck(c) =>
      if |s.toB| < HEADER_LEN then None
      else
        var rest := s.(toB := s.toB[HEADER_LEN..]);
        if Decode(s.toB[..HEADER_LEN]).kind == ERROR then Some(rest.(b := Running(p.resume(c, []))))
        else Some(rest.(b := BClosed))
    case BClosed => None
  }

  function Request<C>(p: Prog<C>, s: Sys<C>, c: C): Sys<C> {
    match p.act(c)
    case Done => s.(b := Waiting(c), toQ := s.toQ + Encode(Msg(ERROR, 0, 0), NO_PAD))
    case Raise => s.(b := Asserting(c), toQ := s.toQ + Encode(Msg(IRQ_DEASSERT, 0, 0), NO_PAD))
    case Lower => s.(b := Running(p.resume(c, [])), toQ := s.toQ + Encode(Msg(IRQ_DEASSERT, 0, 0), NO_PAD))
    case Read(gpa, len) => s.(b := AwaitReply(c, len), toQ := s.toQ + Encode(Msg(DMA_READ, gpa, len), NO_PAD))
    case Write(gpa, data) =>
      if |data| >= 0x1_0000_0000 then s.(b := BClosed)
      else s.(b := if data == [] then AwaitAck(c) else SendPayload(c, data),
              toQ := s.toQ + Encode(Msg(DMA_WRITE, gpa, |data|), NO_PAD))
  }

  // ---- Invariant ----

  /** One register write: the callback, the sender's padding, the device window, and the access. */
  datatype Access<!C> = Access(p: Prog<C>, pad: seq<u8>, window: nat, c: C, addr: u64, value: u64, size: nat)
  {
    ghost predicate Fits() {
      |pad| == 4 && 1 <= size <= 8 && addr + size <= window
    }

    function Started(): C
      requires size <= 8
    {
      p.start(c, addr, ValueOf(ValueBytes(value, size)))
    }
  }

  function IrqMsg(level: bool): seq<u8> {
    Encode(Msg(if level then IRQ_ASSERT else IRQ_DEASSERT, 0, 0), NO_PAD)
  }

  /** Interrupt messages on their way to QEMU, and the level they will leave. */
  function IrqBytes(pend: seq<bool>): seq<u8> {
    if pend == [] then [] else IrqMsg(pend[0]) + IrqBytes(pend[1..])
  }

  function Settled(irq: bool, pend: seq<bool>): bool {
    if pend == [] then irq else pend[|pend| - 1]
  }

  datatype Stage = Starting | Middle | Ending

  /** Where the local run stands that the two processes are imitating: its state, and requests left. */
  datatype Trace<C> = Trace(stage: Stage, l: Local<C>, pend: seq<bool>, left: nat)

  ghost predicate InStart<C>(a: Access<C>, s: Sys<C>, t: Trace<C>)
    requires a.Fits()
  {
    var hdr := Encode(Msg(MMIO_WRITE, a.addr, a.size), a.pad);
    var val := ValueBytes(a.value, a.size);
    && t.pend == [] && s.toQ == [] && t.l == Local(a.Started(), s.mem, s.irq)
    && (match s.q
        case SendWrite(addr, value, size) => addr == a.addr && value == a.value && size == a.size && s.b == Waiting(a.c)
        case SendValue(value, size) => value == a.value && size == a.size
        case Service => true
        case _ => false)
    && (match s.b
        case Waiting(c) => c == a.c
            && s.toB == (if s.q.SendWrite? then [] else hdr) + (if s.q.Service? then val else [])
        case RecvValue(c, offset, len) =>
          && c == a.c && offset == a.addr && len == a.size && !s.q.SendWrite?
          && s.toB == if s.q.Service? then val else []
        case _ => false)
  }

  /** Memory and line are where the local run has them, pending messages counted. */
  ghost predicate Agrees<C>(s: Sys<C>, t: Trace<C>) {
    s.mem == t.l.mem && Settled(s.irq, t.pend) == t.l.irq
  }

  ghost predicate InRunning<C>(s: Sys<C>, t: Trace<C>) {
    s.b == Running(t.l.c) && s.q == Service && s.toB == [] && s.toQ == IrqBytes(t.pend) && Agrees(s, t)
  }

  ghost predicate InAsserting<C>(a: Access<C>, s: Sys<C>, t: Trace<C>) {
    && s.b == Asserting(t.l.c) && a.p.act(t.l.c) == Raise
    && s.q == Service && s.toB == [] && s.toQ == IrqBytes(t.pend) && s.mem == t.l.mem
  }

  ghost predicate InRead<C>(a: Access<C>, s: Sys<C>, t: Trace<C>)
    requires a.Fits()
  {
    var act := a.p.act(t.l.c);
    && act.Read? && Allowed(act, t.l.mem) && Agrees(s, t)
    && var reply := Encode(Msg(DMA_READ_REPLY, act.gpa, act.len), a.pad);
       var data := MemRead(t.l.mem, act.gpa, act.len);
       match s.b
       case AwaitReply(c, len) =>
         && c == t.l.c && len == act.len
         && (match s.q
             case Service =>
               || (s.toB == [] && s.toQ == IrqBytes(t.pend) + Encode(Msg(DMA_READ, act.gpa, len), NO_PAD))
               || (t.pend == [] && s.toQ == [] && s.toB == reply + data)
             case SendData(d) => len > 0 && d == data && t.pend == [] && s.toQ == [] && s.toB == reply
             case _ => false)
       case AwaitData(c, len) =>
         && c == t.l.c && len == act.len > 0 && t.pend == [] && s.toQ == []
         && (match s.q
             case Service => s.toB == data
             case SendData(d) => d == data && s.toB == []
             case _ => false)
       case _ => false
  }

  ghost predicate InWrite<C>(a: Access<C>, s: Sys<C>, t: Trace<C>)
    requires a.Fits()
  {
    var act := a.p.act(t.l.c);
    && act.Write? && Allowed(act, t.l.mem) && Settled(s.irq, t.pend) == t.l.irq
    && var n := |act.data|;
       var hdr := Encode(Msg(DMA_WRITE, act.gpa, n), NO_PAD);
       match s.b
       case SendPayload(c, d) =>
         && c == t.l.c && d == act.data != [] && s.toB == [] && s.mem == t.l.mem
         && (match s.q
             case Service => s.toQ == IrqBytes(t.pend) + hdr
             case RecvData(gpa, len) => gpa == act.gpa && len == n && t.pend == [] && s.toQ == []
             case _ => false)
       case AwaitAck(c) =>
         && c == t.l.c
         && (match s.q
             case Service =>
               || (s.toB == [] && s.toQ == IrqBytes(t.pend) + (hdr + act.data) && s.mem == t.l.mem)
               || (t.pend == [] && s.toQ == [] && s.toB == Encode(Msg(ERROR, 0, 0), a.pad)
                   && s.mem == MemWrite(t.l.mem, act.gpa, act.data))
             case RecvData(gpa, len) =>
               gpa == act.gpa && len == n && t.pend == [] && s.toB == [] && s.toQ == act.data && s.mem == t.l.mem
             case _ => false)
       case _ => false
  }

  ghost predicate InEnding<C>(a: Access<C>, s: Sys<C>, t: Trace<C>) {
    && s.b == Waiting(t.l.c) && a.p.act(t.l.c).Done? && Agrees(s, t) && s.toB == []
    && (match s.q
        case Service => s.toQ == IrqBytes(t.pend) + Encode(Msg(ERROR, 0, 0), NO_PAD)
        case Returned => s.toQ == [] && t.pend == []
        case _ => false)
  }

  ghost predicate Inv<C(!new)>(a: Access<C>, s: Sys<C>, t: Trace<C>, end: Local<C>) {
    && a.Fits() && Finishes(a.p, t.l, t.left, end)
    && match t.stage
       case Starting => InStart(a, s, t)
       case Middle =>
         (match s.b
          case Running(_) => InRunning(s, t)
          case Asserting(_) => InAsserting(a, s, t)
          case AwaitReply(_, _) => InRead(a, s, t)
          case AwaitData(_, _) => InRead(a, s, t)
          case SendPayload(_, _) => InWrite(a, s, t)
          case AwaitAck(_) => InWrite(a, s, t)
          case _ => false)
       case Ending => InEnding(a, s, t)
  }

  /** A bound on the moves still to come. */
  ghost function Work<C>(s: Sys<C>, t: Trace<C>): nat {
    var rest := 6 * t.left + |t.pend|;
    match t.stage
    case Starting => 8 + rest + (match s.q
                                 case SendWrite(_, _, _) => 5
                                 case SendValue(_, _) => if s.b.Waiting? then 4 else 3
                                 case _ => if s.b.Waiting? then 3 else 2)
    case Middle =>
      rest + (match s.b
              case Running(_) => 8
              case Asserting(_) => 5
              case AwaitReply(_, _) => if s.q.SendData? then 6 else if s.toB == [] then 7 else 5
              case AwaitData(_, _) => if s.q.SendData? then 5 else 4
              case SendPayload(_, _) => if s.q.RecvData? then 6 else 7
              case AwaitAck(_) => if s.q.RecvData? then 5 else if s.toB == [] then 6 else 4
              case _ => 0)
    case Ending => if s.q.Returned? then 0 else 1 + |t.pend|
  }

  // ---- Streams ----

  lemma HeaderFirst(h: Header, pad: seq<u8>, rest: seq<u8>)
    requires |pad| == 4
    ensures var b := Encode(h, pad) + rest;
            |b| >= HEADER_LEN && Decode(b[..HEADER_LEN]) == h && b[HEADER_LEN..] == rest
  {
    DecodeEncode(h, pad);
    var b := Encode(h, pad) + rest;
    assert b[..HEADER_LEN] == Encode(h, pad);
  }

  lemma NoIrq()
    ensures IrqBytes([]) == []
  {
  }

  lemma {:induction false} IrqAppend(pend: seq<bool>, level: bool)
    ensures IrqBytes(pend + [level]) == IrqBytes(pend) + IrqMsg(level)
  {
    if pend == [] {
      assert [level][1..] == [];
      assert IrqBytes([level]) == IrqMsg(level) + [];
    } else {
      assert (pend + [level])[1..] == pend[1..] + [level];
      IrqAppend(pend[1..], level);
    }
  }

  /** The oldest interrupt message is the next thing QEMU reads. */
  lemma IrqFirst(pend: seq<bool>, rest: seq<u8>)
    requires pend != []
    ensures var b := IrqBytes(pend) + rest;
            && |b| >= HEADER_LEN && b[HEADER_LEN..] == IrqBytes(pend[1..]) + rest
            && Decode(b[..HEADER_LEN]) == Msg(if pend[0] then IRQ_ASSERT else IRQ_DEASSERT, 0, 0)
  {
    hide Encode, Decode;
    var tail := IrqBytes(pend[1..]);
    HeaderFirst(Msg(if pend[0] then IRQ_ASSERT else IRQ_DEASSERT, 0, 0), NO_PAD, tail + rest);
    assert IrqBytes(pend) == IrqMsg(pend[0]) + tail;
    hide IrqBytes;
    assert IrqMsg(pend[0]) + tail + rest == IrqMsg(pend[0]) + (tail + rest);
  }

  // ---- Every move keeps the invariant and uses up work ----

  ghost predicate Advances<C(!new)>(a: Access<C>, s: Sys<C>, t: Trace<C>, s': Sys<C>, t': Trace<C>, end: Local<C>) {
    Inv(a, s', t', end) && Work(s', t') < Work(s, t)
  }

  lemma StartBackend<C(!new)>(a: Access<C>, s: Sys<C>, t: Trace<C>, end: Local<C>) returns (t': Trace<C>)
    requires Inv(a, s, t, end) && t.stage == Starting && BackendMove(a.p, s, a.window).Some?
    ensures Advances(a, s, t, BackendMove(a.p, s, a.window).value, t', end)
  {
    hide Encode, Decode, Finishes, Store64, ValueOf, Request;
    t' := t;
    var val := ValueBytes(a.value, a.size);
    if s.b.Waiting? {
      HeaderFirst(Msg(MMIO_WRITE, a.addr, a.size), a.pad, if s.q.Service? then val else []);
    } else {
      assert s.q.Service? && s.toB[..a.size] == val && s.toB[a.size..] == [];
      t' := t.(stage := Middle);
    }
  }

  /** The callback's next request, or its end, as the backend puts it on the wire. */
  lemma RunningBackend<C(!new)>(a: Access<C>, s: Sys<C>, t: Trace<C>, end: Local<C>) returns (t': Trace<C>)
    requires Inv(a, s, t, end) && t.stage == Middle && s.b.Running?
    ensures BackendMove(a.p, s, a.window).Some?
    ensures Advances(a, s, t, BackendMove(a.p, s, a.window).value, t', end)
  {
    hide Encode, Decode, IrqBytes;
    match a.p.act(t.l.c)
    case Done => t' := t.(stage := Ending);
    case Raise =>
      IrqAppend(t.pend, false);
      t' := t.(pend := t.pend + [false]);
    case Lower =>
      IrqAppend(t.pend, false);
      t' := t.(pend := t.pend + [false], l := LocalStep(a.p, t.l), left := t.left - 1);
    case Read(gpa, len) => t' := t;
    case Write(gpa, data) =>
      t' := t;
      var hdr := Encode(Msg(DMA_WRITE, gpa, |data|), NO_PAD);
      assert data == [] ==> hdr == hdr + data;
  }

  lemma AssertingBackend<C(!new)>(a: Access<C>, s: Sys<C>, t: Trace<C>, end: Local<C>) returns (t': Trace<C>)
    requires Inv(a, s, t, end) && t.stage == Middle && s.b.Asserting?
    ensures Advances(a, s, t, BackendMove(a.p, s, a.window).value, t', end)
  {
    hide Encode, Decode, IrqBytes;
    IrqAppend(t.pend, true);
    t' := t.(pend := t.pend + [true], l := LocalStep(a.p, t.l), left := t.left - 1);
  }

  lemma ReadBackend<C(!new)>(a: Access<C>, s: Sys<C>, t: Trace<C>, end: Local<C>) returns (t': Trace<C>)
    requires Inv(a, s, t, end) && t.stage == Middle && (s.b.AwaitReply? || s.b.AwaitData?)
    requires BackendMove(a.p, s, a.window).Some?
    ensures Advances(a, s, t, BackendMove(a.p, s, a.window).value, t', end)
  {
    hide Encode, Decode, IrqBytes;
    NoIrq();
    var act := a.p.act(t.l.c);
    var data := MemRead(t.l.mem, act.gpa, act.len);
    var next := t.(l := LocalStep(a.p, t.l), left := t.left - 1);
    if s.b.AwaitReply? {
      HeaderFirst(Msg(DMA_READ_REPLY, act.gpa, act.len), a.pad, if s.q.SendData? then [] else data);
      assert s.q.SendData? ==> s.toB == s.toB + [];
      t' := if act.len == 0 then next else t;
    } else {
      assert s.toB[..act.len] == data && s.toB[act.len..] == [];
      t' := next;
    }
  }

  lemma WriteBackend<C(!new)>(a: Access<C>, s: Sys<C>, t: Trace<C>, end: Local<C>) returns (t': Trace<C>)
    requires Inv(a, s, t, end) && t.stage == Middle && (s.b.SendPayload? || s.b.AwaitAck?)
    requires BackendMove(a.p, s, a.window).Some?
    ensures Advances(a, s, t, BackendMove(a.p, s, a.window).value, t', end)
  {
    hide Encode, Decode, IrqBytes;
    NoIrq();
    var act := a.p.act(t.l.c);
    if s.b.SendPayload? {
      var hdr := Encode(Msg(DMA_WRITE, act.gpa, |act.data|), NO_PAD);
      assert s.q.Service? ==> IrqBytes(t.pend) + hdr + act.data == IrqBytes(t.pend) + (hdr + act.data);
      t' := t;
    } else {
      HeaderFirst(Msg(ERROR, 0, 0), a.pad, []);
      assert s.toB == s.toB + [];
      t' := t.(l := LocalStep(a.p, t.l), left := t.left - 1);
    }
  }

  lemma StartQemu<C(!new)>(a: Access<C>, s: Sys<C>, t: Trace<C>, end: Local<C>)
    requires Inv(a, s, t, end) && t.stage == Starting && QemuMove(s, a.pad).Some?
    ensures Advances(a, s, t, QemuMove(s, a.pad).value, t, end)
  {
    hide Encode, Decode, Finishes;
    var hdr := Encode(Msg(MMIO_WRITE, a.addr, a.size), a.pad);
    assert [] + hdr == hdr == hdr + [];
  }

  /** What follows the pending interrupt messages on the way to QEMU. */
  ghost function AfterIrqs<C>(a: Access<C>, s: Sys<C>, t: Trace<C>): seq<u8> {
    if t.stage == Ending then Encode(Msg(ERROR, 0, 0), NO_PAD)
    else match a.p.act(t.l.c)
      case Read(gpa, len) => if s.b.AwaitReply? then Encode(Msg(DMA_READ, gpa, len), NO_PAD) else []
      case Write(gpa, data) =>
        if |data| >= 0x1_0000_0000 then []
        else if s.b.SendPayload? then Encode(Msg(DMA_WRITE, gpa, |data|), NO_PAD)
        else if s.b.AwaitAck? then Encode(Msg(DMA_WRITE, gpa, |data|), NO_PAD) + data
        else []
      case _ => []
  }

  lemma PendingFirst<C(!new)>(a: Access<C>, s: Sys<C>, t: Trace<C>, end: Local<C>)
    requires Inv(a, s, t, end) && t.pend != []
    ensures s.q == Service && s.toB == [] && s.toQ == IrqBytes(t.pend) + AfterIrqs(a, s, t)
  {
    hide Encode, Decode, IrqBytes, Finishes;
  }

  lemma IrqQemu<C(!new)>(a: Access<C>, s: Sys<C>, t: Trace<C>, end: Local<C>) returns (t': Trace<C>)
    requires Inv(a, s, t, end) && t.pend != []
    ensures QemuMove(s, a.pad).Some? && Advances(a, s, t, QemuMove(s, a.pad).value, t', end)
  {
    hide Encode, Decode, IrqBytes, Finishes;
    PendingFirst(a, s, t, end);
    IrqFirst(t.pend, AfterIrqs(a, s, t));
    t' := t.(pend := t.pend[1..]);
    assert QemuMove(s, a.pad) == Some(s.(irq := t.pend[0], toQ := IrqBytes(t'.pend) + AfterIrqs(a, s, t)));
  }

  /** With no interrupt pending, QEMU reads the request itself, or the end of the callback. */
  lemma RequestQemu<C(!new)>(a: Access<C>, s: Sys<C>, t: Trace<C>, end: Local<C>)
    requires Inv(a, s, t, end) && t.stage != Starting && t.pend == [] && s.q == Service && QemuMove(s, a.pad).Some?
    ensures Advances(a, s, t, QemuMove(s, a.pad).value, t, end)
  {
    hide Encode, Decode, IrqBytes, Finishes;
    NoIrq();
    var tail := AfterIrqs(a, s, t);
    assert [] + tail == tail;
    if t.stage == Ending {
      HeaderFirst(Msg(ERROR, 0, 0), NO_PAD, []);
      assert tail + [] == tail;
    } else {
      match a.p.act(t.l.c)
      case Read(gpa, len) =>
        HeaderFirst(Msg(DMA_READ, gpa, len), NO_PAD, []);
        assert tail + [] == tail;
        ReplyAlone(Encode(Msg(DMA_READ_REPLY, gpa, len), a.pad));
      case Write(gpa, data) =>
        HeaderFirst(Msg(DMA_WRITE, gpa, |data|), NO_PAD, if s.b.SendPayload? then [] else data);
        assert Encode(Msg(DMA_WRITE, gpa, |data|), NO_PAD) + [] == Encode(Msg(DMA_WRITE, gpa, |data|), NO_PAD);
      case _ =>
    }
  }

  lemma ReplyAlone(reply: seq<u8>)
    ensures [] + reply == reply == reply + []
  {
  }

  lemma SendDataQemu<C(!new)>(a: Access<C>, s: Sys<C>, t: Trace<C>, end: Local<C>)
    requires Inv(a, s, t, end) && s.q.SendData? && QemuMove(s, a.pad).Some?
    ensures Advances(a, s, t, QemuMove(s, a.pad).value, t, end)
  {
    hide Encode, Decode, IrqBytes, Finishes;
    assert [] + s.q.data == s.q.data;
  }

  lemma RecvDataQemu<C(!new)>(a: Access<C>, s: Sys<C>, t: Trace<C>, end: Local<C>)
    requires Inv(a, s, t, end) && s.q.RecvData? && QemuMove(s, a.pad).Some?
    ensures Advances(a, s, t, QemuMove(s, a.pad).value, t, end)
  {
    hide Encode, Decode, IrqBytes, Finishes;
    assert s.toQ[..s.q.len] == a.p.act(t.l.c).data && s.toQ[s.q.len..] == [];
    ReplyAlone(Encode(Msg(ERROR, 0, 0), a.pad));
  }

  // ---- Main results ----

  ghost predicate Move<C>(a: Access<C>, s: Sys<C>, s': Sys<C>)
    requires |a.pad| == 4
  {
    QemuMove(s, a.pad) == Some(s') || BackendMove(a.p, s, a.window) == Some(s')
  }

  lemma MoveAdvances<C(!new)>(a: Access<C>, s: Sys<C>, t: Trace<C>, s': Sys<C>, end: Local<C>) returns (t': Trace<C>)
    requires Inv(a, s, t, end) && Move(a, s, s')
    ensures Advances(a, s, t, s', t', end)
  {
    hide Encode, Decode, IrqBytes, Finishes, Advances, Serve, Request;
    if QemuMove(s, a.pad) == Some(s') {
      if t.stage == Starting {
        StartQemu(a, s, t, end);
        t' := t;
      } else if t.pend != [] {
        t' := IrqQemu(a, s, t, end);
      } else {
        t' := t;
        if s.q == Service {
          RequestQemu(a, s, t, end);
        } else if s.q.SendData? {
          SendDataQemu(a, s, t, end);
        } else {
          RecvDataQemu(a, s, t, end);
        }
      }
    } else if t.stage == Starting {
      t' := StartBackend(a, s, t, end);
    } else {
      match s.b
      case Running(_) => t' := RunningBackend(a, s, t, end);
      case Asserting(_) => t' := AssertingBackend(a, s, t, end);
      case AwaitReply(_, _) => t' := ReadBackend(a, s, t, end);
      case AwaitData(_, _) => t' := ReadBackend(a, s, t, end);
      case SendPayload(_, _) => t' := WriteBackend(a, s, t, end);
      case AwaitAck(_) => t' := WriteBackend(a, s, t, end);
      case _ => t' := t;
    }
  }

  /** Until the guest's access is complete, one side or the other can move. */
  lemma NeverStuck<C(!new)>(a: Access<C>, s: Sys<C>, t: Trace<C>, end: Local<C>)
    requires Inv(a, s, t, end) && s.q != Returned
    ensures QemuMove(s, a.pad).Some? || BackendMove(a.p, s, a.window).Some?
  {
    hide Encode, Decode, IrqBytes, Finishes, Serve, Request;
    if t.pend != [] {
      var t' := IrqQemu(a, s, t, end);
    } else {
      NoIrq();
    }
  }

  ghost predicate Run<C>(a: Access<C>, mem: seq<u8>, irq: bool, states: seq<Sys<C>>)
    requires |a.pad| == 4
  {
    && |states| > 0 && states[0] == Sys(SendWrite(a.addr, a.value, a.size), Waiting(a.c), [], [], mem, irq)
    && forall i :: 0 <= i < |states| - 1 ==> Move(a, states[i], states[i + 1])
  }

  lemma {:induction false} RunInv<C(!new)>(a: Access<C>, mem: seq<u8>, irq: bool, states: seq<Sys<C>>, n: nat,
      end: Local<C>, i: nat)
    returns (t: Trace<C>)
    requires a.Fits() && Finishes(a.p, Local(a.Started(), mem, irq), n, end)
    requires Run(a, mem, irq, states) && i < |states|
    ensures Inv(a, states[i], t, end) && Work(states[i], t) + i <= 6 * n + 13
  {
    hide Encode, Finishes, QemuMove, BackendMove;
    if i == 0 {
      t := Trace(Starting, Local(a.Started(), mem, irq), [], n);
    } else {
      hide Inv, Work;
      t := RunInv(a, mem, irq, states, n, end, i - 1);
      assert Move(a, states[i - 1], states[i]);
      t := MoveAdvances(a, states[i - 1], t, states[i], end);
    }
  }

  /**
   A register write over the socket is transparent. If the callback, run on local
   memory, finishes after `n` requests, then in every interleaving of the two processes:
   the run is over within 6n + 13 moves; until QEMU has returned somebody can move, and
   neither side has dropped the connection; and once it has returned, the callback is
   finished, memory, device state and interrupt line are those of the local run, and
   both streams are empty.
   */
  lemma RemoteIsLocal<C(!new)>(a: Access<C>, mem: seq<u8>, irq: bool, states: seq<Sys<C>>, n: nat, end: Local<C>,
      i: nat)
    requires a.Fits() && Finishes(a.p, Local(a.Started(), mem, irq), n, end)
    requires Run(a, mem, irq, states) && i < |states|
    ensures i <= 6 * n + 13
    ensures var s := states[i];
            && !s.q.QClosed? && !s.b.BClosed?
            && (s.q != Returned ==> QemuMove(s, a.pad).Some? || BackendMove(a.p, s, a.window).Some?)
            && (s.q == Returned ==> s == Sys(Returned, Waiting(end.c), [], [], end.mem, end.irq))
  {
    hide Encode, Decode, IrqBytes, QemuMove, BackendMove;
    var t := RunInv(a, mem, irq, states, n, end, i);
    if states[i].q != Returned {
      NeverStuck(a, states[i], t, end);
    }
  }
}
