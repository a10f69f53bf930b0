/** The virtio-mmio register machine: what a register write does to transport, device and queues. */
module Registers {
  import opened Words
  import opened Virtqueue

  const MAGIC_VALUE := 0x000
  const VERSION := 0x004
  const DEVICE_ID := 0x008
  const VENDOR_ID := 0x00c
  const DEVICE_FEATURES := 0x010
  const DEVICE_FEATURES_SEL := 0x014
  const DRIVER_FEATURES := 0x020
  const DRIVER_FEATURES_SEL := 0x024
  const QUEUE_SEL := 0x030
  const QUEUE_NUM_MAX := 0x034
  const QUEUE_NUM := 0x038
  const QUEUE_READY := 0x044
  const QUEUE_NOTIFY := 0x050
  const INTERRUPT_STATUS := 0x060
  const INTERRUPT_ACK := 0x064
  const STATUS := 0x070
  const QUEUE_DESC_LOW := 0x080
  const QUEUE_DESC_HIGH := 0x084
  const QUEUE_AVAIL_LOW := 0x090
  const QUEUE_AVAIL_HIGH := 0x094
  const QUEUE_USED_LOW := 0x0a0
  const QUEUE_USED_HIGH := 0x0a4
  const CONFIG_GENERATION := 0x0fc
  const CONFIG := 0x100
  const MAGIC_NUMBER := 0x7472_6976

  datatype Regs = Regs(deviceFeaturesSel: u32, driverFeaturesSel: u32, queueSel: u32,
                       driverFeatures: u64, status: u32, isr: u32, queues: seq<Queue>)

  /** What a device offers and never changes: identity, features, and its configuration words. */
  datatype Ident = Ident(deviceId: u32, vendorId: u32, features: u64, config: seq<u32>)

  /** The low 32 bits of a written value, which is all a register keeps. */
  function Low(raw: u64): u32 {
    raw % 0x1_0000_0000
  }

  function WithLow(x: u64, v: u32): u64 {
    x / 0x1_0000_0000 * 0x1_0000_0000 + v
  }

  function WithHigh(x: u64, v: u32): u64 {
    x % 0x1_0000_0000 + 0x1_0000_0000 * v as int
  }

  /** The 64-bit value with the given halves. */
  function Halves(low: u32, high: u32): u64 {
    low + 0x1_0000_0000 * high as int
  }

  function FreshQueue(size: u32): Queue {
    Queue(size, 0, 0, 0, 0, 0)
  }

  /** The state after initialization or reset of a device with `count` queues. */
  function Initial(count: nat, size: u32): Regs {
    Regs(0, 0, 0, 0, 0, 0, seq(count, _ => FreshQueue(size)))
  }

  predicate IsQueueRegister(off: u64) {
    off == QUEUE_NUM || off == QUEUE_READY || off == QUEUE_DESC_LOW || off == QUEUE_DESC_HIGH
    || off == QUEUE_AVAIL_LOW || off == QUEUE_AVAIL_HIGH || off == QUEUE_USED_LOW || off == QUEUE_USED_HIGH
  }

  /** The effect of a queue register on the queue it addresses. */
  function QueueWrite(q: Queue, off: u64, v: u32): Queue {
    if off == QUEUE_NUM then q.(num := v)
    else if off == QUEUE_READY then q.(ready := v)
    else if off == QUEUE_DESC_LOW then q.(desc := WithLow(q.desc, v))
    else if off == QUEUE_DESC_HIGH then q.(desc := WithHigh(q.desc, v))
    else if off == QUEUE_AVAIL_LOW then q.(avail := WithLow(q.avail, v))
    else if off == QUEUE_AVAIL_HIGH then q.(avail := WithHigh(q.avail, v))
    else if off == QUEUE_USED_LOW then q.(used := WithLow(q.used, v))
    else if off == QUEUE_USED_HIGH then q.(used := WithHigh(q.used, v))
    else q
  }

  /** `virtio_mmio_write`: `size` is the device's default queue size. */
  function RegWrite(r: Regs, size: u32, off: u64, raw: u64): Regs {
    var v := Low(raw);
    if off == DEVICE_FEATURES_SEL then r.(deviceFeaturesSel := v)
    else if off == DRIVER_FEATURES then
      if r.driverFeaturesSel == 0 then r.(driverFeatures := WithLow(r.driverFeatures, v))
      else if r.driverFeaturesSel == 1 then r.(driverFeatures := WithHigh(r.driverFeatures, v))
      else r
    else if off == DRIVER_FEATURES_SEL then r.(driverFeaturesSel := v)
    else if off == QUEUE_SEL then r.(queueSel := v)
    else if IsQueueRegister(off) then
      if r.queueSel < |r.queues|
      then r.(queues := r.queues[r.queueSel := QueueWrite(r.queues[r.queueSel], off, v)])
      else r
    else if off == INTERRUPT_ACK then r.(isr := AndNot(r.isr, v))
    else if off == STATUS then
      if v == 0 then Initial(|r.queues|, size) else r.(status := v)
    else r
  }

  /** `virtio_mmio_read`, four bytes wide. */
  function RegRead(r: Regs, d: Ident, size: u32, off: u64): u32 {
    if off == MAGIC_VALUE then MAGIC_NUMBER
    else if off == VERSION then 2
    else if off == DEVICE_ID then d.deviceId
    else if off == VENDOR_ID then d.vendorId
    else if off == DEVICE_FEATURES then
      if r.deviceFeaturesSel == 0 then Low(d.features) else d.features / 0x1_0000_0000
    else if off == DEVICE_FEATURES_SEL then r.deviceFeaturesSel
    else if off == DRIVER_FEATURES then
      if r.driverFeaturesSel == 0 then Low(r.driverFeatures) else r.driverFeatures / 0x1_0000_0000
    else if off == DRIVER_FEATURES_SEL then r.driverFeaturesSel
    else if off == QUEUE_SEL then r.queueSel
    else if off == QUEUE_NUM_MAX then if r.queueSel < |r.queues| then size else 0
    else if off == QUEUE_NUM then if r.queueSel < |r.queues| then r.queues[r.queueSel].num else 0
    else if off == QUEUE_READY then if r.queueSel < |r.queues| then r.queues[r.queueSel].ready else 0
    else if off == INTERRUPT_STATUS then r.isr
    else if off == STATUS then r.status
    else if off >= CONFIG && off % 4 == 0 && (off - CONFIG) / 4 < |d.config| then d.config[(off - CONFIG) / 4]
    else 0
  }

  /** A register write, or device activity, which moves queue cursors and interrupt bits only. */
  datatype Event = Write(off: u64, value: u64) | Activity(isr: u32, cursors: seq<u16>)

  function Apply(r: Regs, size: u32, e: Event): (s: Regs)
    ensures |s.queues| == |r.queues|
  {
    match e
    case Write(off, v) => RegWrite(r, size, off, v)
    case Activity(isr, cursors) =>
      r.(isr := isr,
         queues := seq(|r.queues|, i requires 0 <= i < |r.queues| =>
           if i < |cursors| then r.queues[i].(lastAvail := cursors[i]) else r.queues[i]))
  }

  function After(count: nat, size: u32, history: seq<Event>): (r: Regs)
    ensures |r.queues| == count
  {
    if history == [] then Initial(count, size)
    else Apply(After(count, size, history[..|history| - 1]), size, history[|history| - 1])
  }

  // ---- The reference: what the register map says a history of writes means ----

  predicate IsReset(e: Event) {
    e.Write? && e.off == 0x070 && Low(e.value) == 0
  }

  /** The value last written to a register since the last reset; zero, if none was. */
  function Latest(history: seq<Event>, off: u64): u32 {
    if history == [] then 0
    else
      var e := history[|history| - 1];
      if IsReset(e) then 0
      else if e.Write? && e.off == off then Low(e.value)
      else Latest(history[..|history| - 1], off)
  }

  /** The queue that the writes since the last reset leave selected. */
  function Selected(history: seq<Event>): u32 {
    Latest(history, 0x030)
  }

  /** The interrupt causes pending: as the device last left them, without those acknowledged since. */
  function Causes(history: seq<Event>): u32 {
    if history == [] then 0
    else
      var e := history[|history| - 1];
      var earlier := history[..|history| - 1];
      if IsReset(e) then 0
      else if e.Activity? then e.isr
      else if e.off == 0x064 then AndNot(Causes(earlier), Low(e.value))
      else Causes(earlier)
  }

  /** The queue-register writes made while `q` was selected, since the last reset, in order. */
  function Addressed(history: seq<Event>, q: nat): seq<(u64, u32)> {
    if history == [] then []
    else
      var e := history[|history| - 1];
      var earlier := history[..|history| - 1];
      if IsReset(e) then []
      else if e.Write? && IsQueueRegister(e.off) && Selected(earlier) == q
      then Addressed(earlier, q) + [(e.off, Low(e.value))]
      else Addressed(earlier, q)
  }

  /** The last value a list of register writes gives to an offset. */
  function LastValue(writes: seq<(u64, u32)>, off: u64, default: u32): u32 {
    if writes == [] then default
    else if writes[|writes| - 1].0 == off then writes[|writes| - 1].1
    else LastValue(writes[..|writes| - 1], off, default)
  }

  /** A queue whose every register holds the last value written to it. */
  function Programmed(size: u32, writes: seq<(u64, u32)>, cursor: u16): Queue {
    Queue(LastValue(writes, 0x038, size),
          LastValue(writes, 0x044, 0),
          Halves(LastValue(writes, 0x080, 0), LastValue(writes, 0x084, 0)),
          Halves(LastValue(writes, 0x090, 0), LastValue(writes, 0x094, 0)),
          Halves(LastValue(writes, 0x0a0, 0), LastValue(writes, 0x0a4, 0)),
          cursor)
  }

  lemma HalvesReplaced(low: u32, high: u32, v: u32)
    ensures WithLow(Halves(low, high), v) == Halves(v, high)
    ensures WithHigh(Halves(low, high), v) == Halves(low, v)
  {
  }

  /** One more write to a programmed queue programs it with one more write. */
  lemma ProgrammedNext(size: u32, writes: seq<(u64, u32)>, cursor: u16, off: u64, v: u32)
    requires IsQueueRegister(off)
    ensures QueueWrite(Programmed(size, writes, cursor), off, v) == Programmed(size, writes + [(off, v)], cursor)
  {
    hide WithLow, WithHigh, Halves;
    var more := writes + [(off, v)];
    assert more[..|more| - 1] == writes;
    HalvesReplaced(LastValue(writes, QUEUE_DESC_LOW, 0), LastValue(writes, QUEUE_DESC_HIGH, 0), v);
    HalvesReplaced(LastValue(writes, QUEUE_AVAIL_LOW, 0), LastValue(writes, QUEUE_AVAIL_HIGH, 0), v);
    HalvesReplaced(LastValue(writes, QUEUE_USED_LOW, 0), LastValue(writes, QUEUE_USED_HIGH, 0), v);
  }

  /**
   After any history, each queue holds the last value written to each of its registers
   while it was selected since the last reset, whatever order the halves of an address
   came in and whatever was written to the other queues.
   */
  lemma {:induction false} QueuesHoldTheirOwnHistory(count: nat, size: u32, history: seq<Event>)
    ensures var r := After(count, size, history);
            forall q :: 0 <= q < count ==> r.queues[q] == Programmed(size, Addressed(history, q), r.queues[q].lastAvail)
  {
    hide Programmed, RegWrite, Apply, Addressed;
    if history == [] {
      FreshIsProgrammed(size);
    } else {
      var earlier := history[..|history| - 1];
      QueuesHoldTheirOwnHistory(count, size, earlier);
      SelectionFollows(count, size, earlier);
      forall q | 0 <= q < count
        ensures var r := After(count, size, history);
                r.queues[q] == Programmed(size, Addressed(history, q), r.queues[q].lastAvail)
      {
        OneMoreEvent(count, size, history, q);
      }
    }
  }

  lemma {:induction false} SelectionFollows(count: nat, size: u32, history: seq<Event>)
    ensures var r := After(count, size, history);
            && r.queueSel == Selected(history)
            && r.deviceFeaturesSel == Latest(history, 0x014)
            && r.status == Latest(history, 0x070)
            && r.isr == Causes(history)
  {
    if history != [] {
      SelectionFollows(count, size, history[..|history| - 1]);
    }
  }

  lemma FreshIsProgrammed(size: u32)
    ensures FreshQueue(size) == Programmed(size, [], 0)
    ensures forall q: nat :: Addressed([], q) == []
  {
  }

  lemma ProgrammedCursor(size: u32, writes: seq<(u64, u32)>, c: u16, d: u16)
    ensures Programmed(size, writes, c).(lastAvail := d) == Programmed(size, writes, d)
    ensures Programmed(size, writes, c).lastAvail == c
  {
  }

  lemma OneMoreEvent(count: nat, size: u32, history: seq<Event>, q: nat)
    requires history != [] && q < count
    requires var r := After(count, size, history[..|history| - 1]);
             && r.queueSel == Selected(history[..|history| - 1])
             && r.queues[q] == Programmed(size, Addressed(history[..|history| - 1], q), r.queues[q].lastAvail)
    ensures var r := After(count, size, history);
            r.queues[q] == Programmed(size, Addressed(history, q), r.queues[q].lastAvail)
  {
    hide Programmed, WithLow, WithHigh, Halves;
    var earlier := history[..|history| - 1];
    var r := After(count, size, earlier);
    var e := history[|history| - 1];
    var writes := Addressed(earlier, q);
    FreshIsProgrammed(size);
    match e
    case Activity(isr, cursors) =>
      if q < |cursors| {
        ProgrammedCursor(size, writes, r.queues[q].lastAvail, cursors[q]);
      }
    case Write(off, v) =>
      if IsQueueRegister(off) {
        ProgrammedNext(size, writes, r.queues[q].lastAvail, off, Low(v));
        ProgrammedCursor(size, writes + [(off, Low(v))], r.queues[q].lastAvail, 0);
      }
  }

  /** The feature bank that the writes since the last reset leave selected. */
  function SelectedBank(history: seq<Event>): u32 {
    Latest(history, 0x024)
  }

  /** The last feature word written while `bank` was selected, since the last reset. */
  function FeatureWord(history: seq<Event>, bank: u32): u32 {
    if history == [] then 0
    else
      var e := history[|history| - 1];
      var earlier := history[..|history| - 1];
      if IsReset(e) then 0
      else if e.Write? && e.off == 0x020 && SelectedBank(earlier) == bank then Low(e.value)
      else FeatureWord(earlier, bank)
  }

  /** The driver's features are the last words of banks zero and one; other banks hold nothing. */
  lemma {:induction false} FeaturesHoldTheirBanks(count: nat, size: u32, history: seq<Event>)
    ensures var r := After(count, size, history);
            && r.driverFeaturesSel == SelectedBank(history)
            && r.driverFeatures == Halves(FeatureWord(history, 0), FeatureWord(history, 1))
  {
    hide Halves, WithLow, WithHigh, QueueWrite;
    if history == [] {
      NoFeatures();
    } else {
      var earlier, e := history[..|history| - 1], history[|history| - 1];
      FeaturesHoldTheirBanks(count, size, earlier);
      NoFeatures();
      if e.Write? {
        HalvesReplaced(FeatureWord(earlier, 0), FeatureWord(earlier, 1), Low(e.value));
      }
    }
  }

  lemma NoFeatures()
    ensures Halves(0, 0) == 0
  {
  }

  /** A zero written to the status register returns every state, reachable or not, to the initial one. */
  lemma ZeroStatusIsInitial(count: nat, size: u32, history: seq<Event>, raw: u64)
    requires raw % 0x1_0000_0000 == 0
    ensures After(count, size, history + [Write(STATUS, raw)]) == Initial(count, size)
  {
    var more := history + [Write(STATUS, raw)];
    assert more[..|more| - 1] == history;
  }

  // ---- Reading back ----

  /** The half of a 64-bit value that a bank selects: the low half in bank zero, the high half in any other. */
  function Bank(x: u64, bank: u32): u32 {
    if bank == 0 then x % 0x1_0000_0000 else x / 0x1_0000_0000
  }

  /**
   What a driver reads after any history: identity and configuration words as the device
   offers them, selectors and status as last written, the selected half of the features
   offered and accepted, and of the selected queue the size offered and the values last
   written to it; a queue that does not exist reads as zero.
   */
  lemma ReadsShowHistory(count: nat, size: u32, d: Ident, history: seq<Event>)
    ensures var r, q := After(count, size, history), Selected(history);
            && RegRead(r, d, size, 0x000) == 0x7472_6976 && RegRead(r, d, size, 0x004) == 2
            && RegRead(r, d, size, 0x008) == d.deviceId && RegRead(r, d, size, 0x00c) == d.vendorId
            && RegRead(r, d, size, 0x010) == Bank(d.features, Latest(history, 0x014))
            && RegRead(r, d, size, 0x014) == Latest(history, 0x014)
            && RegRead(r, d, size, 0x020) == FeatureWord(history, if SelectedBank(history) == 0 then 0 else 1)
            && RegRead(r, d, size, 0x024) == SelectedBank(history)
            && RegRead(r, d, size, 0x030) == q
            && RegRead(r, d, size, 0x034) == (if q < count then size else 0)
            && RegRead(r, d, size, 0x038) == (if q < count then LastValue(Addressed(history, q), 0x038, size) else 0)
            && RegRead(r, d, size, 0x044) == (if q < count then LastValue(Addressed(history, q), 0x044, 0) else 0)
            && RegRead(r, d, size, 0x060) == Causes(history)
            && RegRead(r, d, size, 0x070) == Latest(history, 0x070)
            && RegRead(r, d, size, 0x0fc) == 0
  {
    hide After, Addressed, LastValue, Latest, Causes;
    QueuesHoldTheirOwnHistory(count, size, history);
    SelectionFollows(count, size, history);
    FeaturesHoldTheirBanks(count, size, history);
  }

  /** Configuration words read as offered, in order from 0x100 on, and as zero past the last. */
  lemma ReadsShowConfig(r: Regs, d: Ident, size: u32, word: nat)
    requires 0x100 + 4 * word < 0x1_0000_0000_0000_0000
    ensures RegRead(r, d, size, 0x100 + 4 * word) == if word < |d.config| then d.config[word] else 0
  {
  }

  /** The two banks of offered features make up the features, whatever was written before. */
  lemma OfferedFeaturesInFull(count: nat, size: u32, d: Ident, history: seq<Event>, bank: u32)
    requires bank != 0
    ensures var low := After(count, size, history + [Write(0x014, 0)]);
            var high := After(count, size, history + [Write(0x014, bank)]);
            Halves(RegRead(low, d, size, 0x010), RegRead(high, d, size, 0x010)) == d.features
  {
    ReadsShowHistory(count, size, d, history + [Write(0x014, 0)]);
    ReadsShowHistory(count, size, d, history + [Write(0x014, bank)]);
    hide After, RegRead;
  }

  /** The transport with its device: selectors, status and the driver-owned array of queues. */
  class VirtioMmio {
    var deviceFeaturesSel: u32
    var driverFeaturesSel: u32
    var queueSel: u32
    var driverFeatures: u64
    var status: u32
    var isr: u32
    const queues: array<Queue>
    const queueSize: u32
    const ident: Ident

    ghost function Value(): Regs
      reads this, queues
    {
      Regs(deviceFeaturesSel, driverFeaturesSel, queueSel, driverFeatures, status, isr, queues[..])
    }

    constructor (queues: array<Queue>, queueSize: u32, ident: Ident)
      modifies queues
      ensures this.queues == queues && this.queueSize == queueSize && this.ident == ident
      ensures Value() == Initial(queues.Length, queueSize)
    {
      this.queues, this.queueSize, this.ident := queues, queueSize, ident;
      new;
      Reset();
    }

    /** `virtio_mmio_reset`, with the loop over the device's queues. */
    method Reset()
      modifies this, queues
      ensures Value() == Initial(queues.Length, queueSize)
    {
      deviceFeaturesSel, driverFeaturesSel, queueSel, driverFeatures := 0, 0, 0, 0;
      for i := 0 to queues.Length
        invariant forall k :: 0 <= k < i ==> queues[k] == FreshQueue(queueSize)
        invariant deviceFeaturesSel == driverFeaturesSel == queueSel == driverFeatures == 0
      {
        queues[i] := Queue(queueSize, 0, 0, 0, 0, 0);
      }
      status, isr := 0, 0;
    }

    /** `virtio_mmio_read`, four bytes wide. */
    method Read(off: u64) returns (value: u32)
      ensures value == RegRead(Value(), ident, queueSize, off)
    {
      if off == MAGIC_VALUE {
        value := MAGIC_NUMBER;
      } else if off == VERSION {
        value := 2;
      } else if off == DEVICE_ID {
        value := ident.deviceId;
      } else if off == VENDOR_ID {
        value := ident.vendorId;
      } else if off == DEVICE_FEATURES {
        value := if deviceFeaturesSel == 0 then Low(ident.features) else ident.features / 0x1_0000_0000;
      } else if off == DEVICE_FEATURES_SEL {
        value := deviceFeaturesSel;
      } else if off == DRIVER_FEATURES {
        value := if driverFeaturesSel == 0 then Low(driverFeatures) else driverFeatures / 0x1_0000_0000;
      } else if off == DRIVER_FEATURES_SEL {
        value := driverFeaturesSel;
      } else if off == QUEUE_SEL {
        value := queueSel;
      } else if off == QUEUE_NUM_MAX {
        value := if queueSel < queues.Length then queueSize else 0;
      } else if off == QUEUE_NUM {
        value := if queueSel < queues.Length then queues[queueSel].num else 0;
      } else if off == QUEUE_READY {
        value := if queueSel < queues.Length then queues[queueSel].ready else 0;
      } else if off == INTERRUPT_STATUS {
        value := isr;
      } else if off == STATUS {
        value := status;
      } else {
        var word := off / 4 - CONFIG / 4;
        value := if off >= CONFIG && off % 4 == 0 && word < |ident.config| then ident.config[word] else 0;
      }
    }

    /** `virtio_mmio_write`: a queue register reaches the selected queue, if there is such a queue. */
    method Write(off: u64, raw: u64)
      modifies this, queues
      ensures Value() == RegWrite(old(Value()), queueSize, off, raw)
    {
      var value := Low(raw);
      if off == DEVICE_FEATURES_SEL {
        deviceFeaturesSel := value;
      } else if off == DRIVER_FEATURES {
        if driverFeaturesSel == 0 {
          driverFeatures := WithLow(driverFeatures, value);
        } else if driverFeaturesSel == 1 {
          driverFeatures := WithHigh(driverFeatures, value);
        }
      } else if off == DRIVER_FEATURES_SEL {
        driverFeaturesSel := value;
      } else if off == QUEUE_SEL {
        queueSel := value;
      } else if IsQueueRegister(off) {
        if queueSel < queues.Length {
          queues[queueSel] := QueueWrite(queues[queueSel], off, value);
        }
      } else if off == INTERRUPT_ACK {
        isr := AndNot(isr, value);
      } else if off == STATUS {
        if value == 0 {
          Reset();
        } else {
          status := value;
        }
      }
    }
  }
}
