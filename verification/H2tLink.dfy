/** The host-to-target link as a step system: the server and driver on one
    side, the debug IP retiring descriptors at any time on the other. A run is
    any sequence of steps; a step that is not enabled leaves the state alone. */
module H2tLink {
  import opened Words
  import opened Circular
  import opened Packets
  import opened DebugIp
  import opened H2tDriver

  /** What is left of a packet after a payload receive has failed: the wrapper
      reports OK all the same, so the second of two pieces is still received
      after the first was lost. */
  datatype Loss =
    | Intact
    | FirstLost(late: seq<byte>, stored: nat)  // bytes received and stored of the second piece
    | Lost

  /** Where the server is in `process_h2t_data`. */
  datatype Pc =
    | Receiving(n: nat)                                   // `n` header bytes received
    | Ready                                               // header complete, no buffer yet
    | Copying(addr: nat, got: seq<byte>, stored: nat, loss: Loss)
      // buffer at `addr`; payload bytes received and bytes stored to the IP
    | Pushing(got: seq<byte>)                             // first descriptor word written
    | Closed                                              // the session failed

  /** `rx` is what the client's H2T socket has delivered in this session, `fails`
      how many of its receives have failed. */
  datatype State = State(c: Config, rx: seq<byte>, fails: nat, hdr: seq<byte>, pc: Pc, waiting: bool,
                         count: nat, drv: Driver, hw: Hw)
  {
    predicate Ok() {
      && c.Valid() && |hdr| == HEADER_BYTES && drv.Ok() && |hw.mem| == c.window
      && (pc.Receiving? ==> pc.n < HEADER_BYTES)
    }

    function Head(): Packets.Header
      requires Ok()
    {
      Decode(hdr)
    }

    /** The length of the first of two pieces, 0 for a single piece. */
    function Boundary(): nat
      requires Ok() && pc.Copying?
    {
      WrapBoundary(c.base, c.span, pc.addr, Head().len)
    }

    function SecondLen(): nat
      requires Ok() && pc.Copying?
    {
      if Boundary() <= Head().len then Head().len - Boundary() else 0
    }

    /** The bytes being received, how many there will be, how many are stored,
        and their position in the payload. */
    function Source(): seq<byte>
      requires pc.Copying?
    {
      match pc.loss
      case Intact => pc.got
      case FirstLost(late, _) => late
      case Lost => []
    }

    function SourceLen(): nat
      requires Ok() && pc.Copying?
    {
      match pc.loss
      case Intact => Head().len
      case FirstLost(_, _) => SecondLen()
      case Lost => 0
    }

    function SourceStored(): nat
      requires pc.Copying?
    {
      match pc.loss
      case Intact => pc.stored
      case FirstLost(_, stored) => stored
      case Lost => 0
    }

    function SourceAt(): nat
      requires Ok() && pc.Copying?
    {
      if pc.loss.FirstLost? then Boundary() else 0
    }
  }

  datatype Step =
    | Recv(data: seq<byte>)        // one successful `recv`, any fragment
    | RecvFail
    | Alloc                        // `get_h2t_buffer`
    | StoreBytes(data: seq<byte>)  // one or more 64-bit stores, last word padded
    | PushHowLong                  // the two stores of `push_h2t_data`
    | PushConn
    | Retire                       // the IP finishes its oldest descriptor

  /** A session that starts with `h2t_waiting == waiting`, after `init_driver`. */
  predicate Initial(s: State, waiting: bool) {
    && s.Ok() && s.rx == [] && s.count == 0 && s.waiting == waiting
    && s.pc == (if waiting then Ready else Receiving(0))
    && s.drv == InitDriver(s.drv.chain, s.c.base, s.c.span, s.c.depth)
    && s.hw.queue == [] && s.hw.delivered == []
  }

  /** The bytes that the words stored from `stored` on must hold. */
  predicate StoresPayload(got: seq<byte>, len: nat, stored: nat, data: seq<byte>) {
    && stored + |data| <= Aligned(len)
    && (stored + |data| <= |got| || len <= |got|)
    && forall j :: 0 <= j < |data| && stored + j < len && stored + j < |got| ==> data[j] == got[stored + j]
  }

  // ---------- the packet being copied ----------

  function Received(pc: Pc, data: seq<byte>): (r: Pc)
    requires pc.Copying?
    ensures r.Copying? && r.addr == pc.addr
  {
    match pc.loss
    case Intact => pc.(got := pc.got + data)
    case FirstLost(late, stored) => pc.(loss := FirstLost(late + data, stored))
    case Lost => pc
  }

  function Advanced(pc: Pc, n: nat): (r: Pc)
    requires pc.Copying?
    ensures r.Copying? && r.addr == pc.addr
  {
    match pc.loss
    case Intact => pc.(stored := pc.stored + n)
    case FirstLost(late, stored) => pc.(loss := FirstLost(late, stored + n))
    case Lost => pc
  }

  /** A receive fails inside a piece; `boundary` ends the first of two. */
  function Failed(pc: Pc, boundary: nat): (r: Pc)
    requires pc.Copying?
    ensures r.Copying? && r.addr == pc.addr && !r.loss.Intact?
  {
    pc.(loss := if pc.loss.Intact? && |pc.got| < boundary then FirstLost([], 0) else Lost)
  }

  function RecvPayload(s: State, data: seq<byte>): (r: State)
    requires s.Ok() && s.pc.Copying?
    ensures r.Ok() && r == s.(rx := r.rx, pc := r.pc) && r.pc.Copying? && r.pc.addr == s.pc.addr
  {
    if !s.pc.loss.Lost? && |s.Source()| + |data| <= s.SourceLen()
    then s.(rx := s.rx + data, pc := Received(s.pc, data)) else s
  }

  function FailPayload(s: State): (r: State)
    requires s.Ok() && s.pc.Copying?
    ensures r.Ok() && r == s.(fails := r.fails, pc := r.pc) && r.pc.Copying? && r.pc.addr == s.pc.addr
  {
    if !s.pc.loss.Lost? && |s.Source()| < s.SourceLen()
    then s.(fails := s.fails + 1, pc := Failed(s.pc, s.Boundary())) else s
  }

  function StorePayload(s: State, data: seq<byte>): (r: State)
    requires s.Ok() && s.pc.Copying?
    ensures r.Ok() && r == s.(hw := s.hw.(mem := r.hw.mem), pc := r.pc) && r.pc.Copying? && r.pc.addr == s.pc.addr
  {
    if !s.pc.loss.Lost? && StoresPayload(s.Source(), s.SourceLen(), s.SourceStored(), data)
       && s.c.base <= s.pc.addr && |data| <= s.c.span then
      s.(hw := s.hw.(mem := Write(s.hw.mem, s.c.base, s.c.span,
                                  s.pc.addr - s.c.base + (s.SourceAt() + s.SourceStored()), data)),
         pc := Advanced(s.pc, |data|))
    else s
  }

  /** Everything was stored, or there is nothing more to wait for. */
  predicate Pushable(s: State)
    requires s.Ok() && s.pc.Copying?
  {
    |s.Source()| == s.SourceLen() && (s.pc.loss.Lost? || s.SourceStored() == Aligned(s.SourceLen()))
  }

  // ---------- the steps ----------

  function RecvHeader(s: State, data: seq<byte>): (r: State)
    requires s.Ok() && s.pc.Receiving? && s.pc.n + |data| <= HEADER_BYTES
    ensures r.Ok() && r == s.(rx := s.rx + data, hdr := r.hdr, pc := r.pc)
  {
    var n := s.pc.n + |data|;
    s.(rx := s.rx + data,
       hdr := s.hdr[..s.pc.n] + data + s.hdr[n..],
       pc := if n == HEADER_BYTES then Ready else Receiving(n))
  }

  function AllocBuffer(s: State): (r: State)
    requires s.Ok() && s.pc.Ready? && Polls(s.drv, AvailableSlots(s.c, s.hw))
    ensures r.Ok() && r == s.(drv := r.drv, waiting := r.waiting, count := r.count, pc := r.pc)
  {
    var (d, addr) := GetBuffer(s.drv, AvailableSlots(s.c, s.hw), s.Head().len);
    if addr == 0 then s.(drv := d, waiting := true)
    else s.(drv := d, waiting := false, count := s.count + 1, pc := Copying(addr, [], 0, Intact))
  }

  function Next(s: State, step: Step): (r: State)
    requires s.Ok()
    ensures r.Ok() && r.c == s.c
  {
    match step
    case Recv(data) =>
      if s.pc.Receiving? && s.pc.n + |data| <= HEADER_BYTES then RecvHeader(s, data)
      else if s.pc.Copying? then RecvPayload(s, data)
      else s
    case RecvFail =>
      if s.pc.Receiving? then s.(fails := s.fails + 1, pc := Closed)
      else if s.pc.Copying? then FailPayload(s)
      else s
    case Alloc => if s.pc.Ready? && Polls(s.drv, AvailableSlots(s.c, s.hw)) then AllocBuffer(s) else s
    case StoreBytes(data) => if s.pc.Copying? then StorePayload(s, data) else s
    case PushHowLong =>
      if s.pc.Copying? && Pushable(s) then
        s.(drv := s.drv.(slots := U16(s.drv.slots - 1)),
           hw := Write64(s.c, s.hw, H2T_HOW_LONG, HowLongWhere(s.Head().len, s.Head().Eop(), s.pc.addr)),
           pc := Pushing(s.pc.got))
      else s
    case PushConn =>
      if s.pc.Pushing? then
        s.(hw := Write64(s.c, s.hw, H2T_CONNECTION_ID, ConnChannel(s.Head().conn, s.Head().channel)),
           pc := Receiving(0))
      else s
    case Retire => s.(hw := DebugIp.Retire(s.c, s.hw))
  }

  function Exec(s: State, run: seq<Step>): (r: State)
    requires s.Ok()
    ensures r.Ok() && r.c == s.c
    decreases |run|
  {
    if run == [] then s else Exec(Next(s, run[0]), run[1..])
  }

  lemma {:induction false} ExecAppend(s: State, a: seq<Step>, b: seq<Step>)
    requires s.Ok()
    ensures Exec(s, a + b) == Exec(Exec(s, a), b)
    decreases |a|
  {
    if a == [] {
      assert a + b == b;
    } else {
      assert (a + b)[1..] == a[1..] + b;
      ExecAppend(Next(s, a[0]), a[1..], b);
    }
  }

  lemma ExecCons(s: State, a: Step, rest: seq<Step>)
    requires s.Ok()
    ensures Exec(s, [a] + rest) == Exec(Next(s, a), rest)
  {
    assert ([a] + rest)[1..] == rest;
  }

  lemma ExecOne(s: State, step: Step)
    requires s.Ok()
    ensures Exec(s, [step]) == Next(s, step)
  {
    assert [step] == [step] + [];
    ExecCons(s, step, []);
  }

  /** The step accepts a payload longer than the descriptor chain can record. */
  predicate Long(s: State, step: Step)
    requires s.Ok()
  {
    step.Alloc? && Next(s, step).count > s.count && s.Head().len > MAX_ALLOCATION
  }

  /** How many such payloads a run accepts. */
  function Longs(s: State, run: seq<Step>): nat
    requires s.Ok()
    decreases |run|
  {
    if run == [] then 0 else (if Long(s, run[0]) then 1 else 0) + Longs(Next(s, run[0]), run[1..])
  }

  /** The step does not fail a payload receive. */
  predicate GoodStep(s: State, step: Step)
    requires s.Ok()
  {
    step.RecvFail? ==> !s.pc.Copying?
  }

  predicate GoodRun(s: State, run: seq<Step>)
    requires s.Ok()
    decreases |run|
  {
    run == [] || (GoodStep(s, run[0]) && GoodRun(Next(s, run[0]), run[1..]))
  }

  /** The bytes received since the last pushed packet. */
  function Partial(s: State): seq<byte>
    requires s.Ok()
  {
    match s.pc
    case Receiving(n) => s.hdr[..n]
    case Ready => s.hdr
    case Copying(_, got, _, _) => s.hdr + got
    case Pushing(got) => s.hdr + got
    case Closed => []
  }

  /** The packets the IP still has to read, as it would read them now. */
  function InFlight(s: State): seq<Packet>
    requires s.Ok()
  {
    FetchAll(s.c, s.hw.mem, s.hw.queue)
  }

  // ---------- the structural invariant ----------

  function Pushed(s: State): nat { |s.hw.delivered| + |s.hw.queue| }

  /** An unretired descriptor names its allocation. */
  ghost predicate Names(c: Config, pos: seq<nat>, i: nat, d: Descriptor) {
    && i + 1 < |pos| && c.span > 0
    && d.where == Address(c.base, c.span, pos[i])
    && Aligned(d.len) == Size(pos, i)
    && d.conn < 256
  }

  ghost predicate QueueNames(c: Config, pos: seq<nat>, retired: nat, q: seq<Descriptor>) {
    forall k :: 0 <= k < |q| ==> Names(c, pos, retired + k, q[k])
  }

  ghost predicate Words8(pos: seq<nat>) {
    forall i :: 0 <= i < |pos| ==> IsWords(pos[i])
  }

  /** The packet at `where` owns the last allocation. */
  ghost predicate Newest(c: Config, pos: seq<nat>, where: nat, len: nat) {
    && |pos| >= 2 && c.span > 0
    && where == Address(c.base, c.span, pos[|pos| - 2])
    && Aligned(len) == Size(pos, |pos| - 2)
  }

  /** What holds however many payload receives have failed: where every
      allocation starts and ends (`pos`), how many were freed, and which
      descriptor owns which. */
  ghost predicate Shape(s: State, pos: seq<nat>, freed: nat) {
    && s.Ok()
    && Books(s.c, s.drv, pos, freed, Pushed(s) + (if s.pc.Pushing? then 1 else 0))
    && freed <= |s.hw.delivered|
    && |pos| == Pushed(s) + (if s.pc.Copying? || s.pc.Pushing? then 2 else 1)
    && Words8(pos)
    && QueueNames(s.c, pos, |s.hw.delivered|, s.hw.queue)
    && (s.pc.Copying? ==> Newest(s.c, pos, s.pc.addr, s.Head().len))
    && (s.pc.Pushing? ==>
          && Newest(s.c, pos, s.hw.where, s.Head().len)
          && Low31(s.hw.howLong) == s.Head().len && Bit31(s.hw.howLong) == s.Head().Eop())
    && s.count == |pos| - 1
    && (s.waiting ==> s.pc.Ready?)
  }

  // ---------- the content invariant ----------

  function Least(a: nat, b: nat): nat { if a < b then a else b }

  /** The first `n` bytes of the region at `start` are those of `got`. */
  ghost predicate Holds(c: Config, mem: Memory, start: nat, got: seq<byte>, n: nat) {
    && Fits(mem, c.base, c.span) && n <= |got|
    && Read(mem, c.base, c.span, start, n) == got[..n]
  }

  /** The stored words of the packet being copied hold the received bytes. */
  ghost predicate CopyOk(c: Config, mem: Memory, len: nat, pc: Pc, pos: seq<nat>)
    requires pc.Copying?
  {
    && |pos| >= 2 && pc.loss.Intact?
    && |pc.got| <= len && pc.stored <= Aligned(len)
    && (pc.stored <= |pc.got| || |pc.got| == len)
    && Holds(c, mem, pos[|pos| - 2], pc.got, Least(pc.stored, len))
  }

  /** The payload of the packet being pushed is in memory. */
  ghost predicate PushOk(c: Config, mem: Memory, len: nat, got: seq<byte>, pos: seq<nat>) {
    |pos| >= 2 && |got| == len && Holds(c, mem, pos[|pos| - 2], got, |got|)
  }

  /** What an observer of a session without losses remembers: the allocations,
      how many were freed, and the bytes of the pushed packets. */
  datatype History = History(pos: seq<nat>, freed: nat, done: seq<byte>)

  ghost predicate Content(s: State, h: History)
    requires s.Ok()
  {
    && (s.pc.Copying? ==> CopyOk(s.c, s.hw.mem, s.Head().len, s.pc, h.pos))
    && (s.pc.Pushing? ==> PushOk(s.c, s.hw.mem, s.Head().len, s.pc.got, h.pos))
    && Rest(h.done) == []
    && (!s.pc.Closed? ==> s.rx == h.done + Partial(s))
    && (s.pc.Closed? ==> h.done <= s.rx && Parse(s.rx) == Parse(h.done))
    && Parse(h.done) == s.hw.delivered + InFlight(s)
  }

  ghost predicate Rep(s: State, h: History) {
    Shape(s, h.pos, h.freed) && Content(s, h)
  }
}
