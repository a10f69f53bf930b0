/** One virtio-blk request, from header to status byte, as a function of guest memory and image. */
module BlockRequest {
  import opened Words
  import opened GuestMemory
  import opened Virtqueue
  import opened BlockImage

  const T_IN := 0
  const T_OUT := 1
  const T_FLUSH := 4
  const S_OK := 0
  const S_IOERR := 1
  const S_UNSUPP := 2

  /** A decoded header: the byte offset of the sector and the status the walk starts with. */
  datatype Request = Request(kind: u32, offset: u64, status: u8)

  function DecodeHeader(b: seq<u8>): Request
    requires |b| == 16
  {
    var kind := Load32(b[0..4]);
    var sector := Load64(b[8..16]);
    var tooFar := sector > 0xffff_ffff_ffff_ffff / SECTOR_SIZE;
    Request(kind,
            if tooFar then 0 else sector as int * SECTOR_SIZE,
            if kind != T_IN && kind != T_OUT && kind != T_FLUSH then S_UNSUPP
            else if tooFar then S_IOERR
            else S_OK)
  }

  /** What the descriptor loop changes: guest memory, image, sticky status, 32-bit byte count. */
  datatype Work = Work(ram: Ram, disk: Disk, status: u8, dataLen: u32)

  /** A data segment of a read request. */
  function ReadSegment(req: Request, w: Work, d: Desc): Work {
    var moved :=
      if !d.DeviceWritable() then w.(status := S_IOERR)
      else if w.status != S_OK then w
      else match w.disk.Read(Add64(req.offset, w.dataLen), d.len)
        case None => w.(status := S_IOERR)
        case Some(b) =>
          match w.ram.Write(d.addr, b)
          case None => w.(status := S_IOERR)
          case Some(r) => w.(ram := r);
    moved.(dataLen := Add32(w.dataLen, d.len))
  }

  /** A data segment of a write request; `None` abandons the chain. */
  function WriteSegment(req: Request, w: Work, d: Desc): Option<Work> {
    var count := Add32(w.dataLen, d.len);
    if d.DeviceWritable() then Some(w.(status := S_IOERR, dataLen := count))
    else if w.status != S_OK then Some(w.(dataLen := count))
    else match w.ram.Read(d.addr, d.len)
      case None => None
      case Some(b) =>
        match w.disk.Write(Add64(req.offset, w.dataLen), b)
        case None => Some(w.(status := S_IOERR, dataLen := count))
        case Some(disk) => Some(w.(disk := disk, dataLen := count))
  }

  function Segment(req: Request, w: Work, d: Desc): Option<Work> {
    if req.kind == T_IN then Some(ReadSegment(req, w, d))
    else if req.kind == T_OUT then WriteSegment(req, w, d)
    else Some(w)
  }

  /** The descriptor loop: still walking, abandoned, or at the descriptor without a successor. */
  datatype Progress =
    | Walking(work: Work, index: u16, seen: u32)
    | Aborted(work: Work)
    | AtStatus(work: Work, last: Desc)

  function WalkStep(q: Queue, req: Request, p: Progress): Progress {
    if !p.Walking? then p
    else if Add32(p.seen, 1) > q.num then Aborted(p.work)
    else match ReadDesc(p.work.ram, q, p.index)
      case None => Aborted(p.work)
      case Some(d) =>
        if !d.HasNext() then AtStatus(p.work, d)
        else match Segment(req, p.work, d)
          case None => Aborted(p.work)
          case Some(w) => Walking(w, d.next, Add32(p.seen, 1))
  }

  /** The whole loop. The walk is bounded unless the guest programmed the one size that wraps the count. */
  function Walk(q: Queue, req: Request, p: Progress): (r: Progress)
    requires q.num != 0xffff_ffff
    requires p.Walking? ==> p.seen <= q.num
    ensures !r.Walking?
    decreases if p.Walking? then 1 + q.num - p.seen else 0
  {
    if p.Walking? then Walk(q, req, WalkStep(q, req, p)) else p
  }

  datatype Result = Result(ok: bool, usedLen: u32, status: u8, ram: Ram, disk: Disk)

  function Failed(ram: Ram, disk: Disk): Result {
    Result(false, 0, S_OK, ram, disk)
  }

  /** The flush outcome, the used length, and the status byte that ends a request. */
  function Complete(req: Request, w: Work, last: Desc, flushOk: bool): Result {
    var status := if req.kind == T_FLUSH && !flushOk then S_IOERR else w.status;
    var usedLen := if req.kind == T_IN then Add32(w.dataLen, 1) else 1;
    match w.ram.Write(last.addr, [status])
    case None => Result(false, usedLen, status, w.ram, w.disk)
    case Some(r) => Result(true, usedLen, status, r, w.disk)
  }

  /** A request header found at `head`: the decoded request and where its data descriptors begin. */
  function ReadHeader(ram: Ram, q: Queue, head: u16): Option<(Request, u16)> {
    match ReadDesc(ram, q, head)
    case None => None
    case Some(d) =>
      if !d.HasNext() then None
      else match ram.Read(d.addr, 16)
        case None => None
        case Some(b) => Some((DecodeHeader(b), d.next))
  }

  function Start(ram: Ram, disk: Disk, req: Request, first: u16): Progress {
    Walking(Work(ram, disk, req.status, 0), first, 0)
  }

  /** `process_chain`. */
  function ProcessChain(ram: Ram, disk: Disk, q: Queue, head: u16, flushOk: bool): Result
    requires q.num != 0xffff_ffff
  {
    match ReadHeader(ram, q, head)
    case None => Failed(ram, disk)
    case Some((req, first)) =>
      match Walk(q, req, Start(ram, disk, req, first))
      case Aborted(w) => Failed(w.ram, w.disk)
      case AtStatus(w, last) => Complete(req, w, last, flushOk)
  }
}
