/** The target-to-host link as a step system: the debug IP produces descriptors
    at any time, the server polls the oldest one, sends it in any fragments and
    only then marks it done. */
module T2hLink {
  import opened Words
  import opened Circular
  import opened Packets

  /** A descriptor as the T2H registers show it; `where` is relative to the memory. */
  datatype Descriptor = Descriptor(where: nat, len: nat, last: bool, conn: byte, channel: nat)

  datatype Config = Config(base: nat, span: nat, window: nat) {
    predicate Valid() {
      span > 0 && IsWords(span) && IsWords(base) && base + span <= window && base + span <= B31
    }
  }

  datatype Pc =
    | Idle
    | Sending(addr: nat, len: nat, out: seq<byte>, loaded: nat)
      // payload at `addr`; `out` is left to send of the header or of the piece
      // staged last, `loaded` payload bytes have been staged
    | Closed

  /** `log` is what the IP has produced, `queue` what is not marked done. */
  datatype State = State(c: Config, mem: Memory, log: seq<Packet>, queue: seq<Descriptor>,
                         sop: bool, pc: Pc, count: nat, wire: seq<byte>)
  {
    predicate Ok() { c.Valid() && |mem| == c.window }
  }

  datatype Step =
    | Produce(d: Descriptor, m: Memory)  // the IP writes a payload and queues it
    | Acquire                            // `get_t2h_data`
    | Load(n: nat)                       // `memcpy64_fpga2host` of one piece
    | Send(n: nat)                       // one successful `send`, any fragment
    | SendFail
    | Complete                           // `t2h_data_complete`

  function PayloadOf(c: Config, m: Memory, d: Descriptor): (r: seq<byte>)
    requires c.Valid() && |m| == c.window
    ensures |r| == d.len
  {
    Read(m, c.base, c.span, d.where, d.len)
  }

  function PacketAt(c: Config, m: Memory, d: Descriptor): Packet
    requires c.Valid() && |m| == c.window
  {
    Packet(d.conn, d.channel, d.last, PayloadOf(c, m, d))
  }

  /** Where the IP may put a payload: on a word boundary of its memory. */
  predicate WellPlaced(c: Config, d: Descriptor) {
    d.where < c.span && IsWords(d.where) && d.len <= c.span
  }

  /** The IP may produce a packet into memory no queued descriptor uses. */
  predicate CanProduce(c: Config, mem: Memory, queue: seq<Descriptor>, d: Descriptor, m: Memory)
    requires c.Valid() && |mem| == c.window
  {
    && |m| == c.window && WellPlaced(c, d)
    && forall q :: q in queue ==> PayloadOf(c, m, q) == PayloadOf(c, mem, q)
  }

  /** The header `get_t2h_data` fills in: SOP from the driver's flag, EOP from
      the descriptor, the length as an `unsigned short`. */
  function HeaderOf(d: Descriptor, sop: bool): (h: Header)
    ensures h.Valid()
  {
    Header((if sop then 1 else 0) + (if d.last then 2 else 0), d.conn, U16(d.channel), U16(Low31(d.len)))
  }

  function Next(s: State, step: Step): (r: State)
    requires s.Ok()
    ensures r.Ok() && r.c == s.c
  {
    match step
    case Produce(d, m) =>
      if CanProduce(s.c, s.mem, s.queue, d, m) then
        s.(mem := m, log := s.log + [PacketAt(s.c, m, d)], queue := s.queue + [d])
      else s
    case Acquire =>
      if s.pc.Idle? && s.queue != [] && U16(Low31(s.queue[0].len)) != 0 then
        var d := s.queue[0];
        var h := HeaderOf(d, s.sop);
        s.(sop := d.last, count := s.count + 1, pc := Sending(U32(s.c.base + d.where), h.len, Encode(h), 0))
      else s
    case Load(n) =>
      if s.pc.Sending? && s.pc.out == [] && s.pc.loaded + n <= s.pc.len && s.c.base <= s.pc.addr then
        s.(pc := s.pc.(out := Read(s.mem, s.c.base, s.c.span, s.pc.addr - s.c.base + s.pc.loaded, n),
                       loaded := s.pc.loaded + n))
      else s
    case Send(n) =>
      if s.pc.Sending? && n <= |s.pc.out| then
        s.(wire := s.wire + s.pc.out[..n], pc := s.pc.(out := s.pc.out[n..]))
      else s
    case SendFail => if s.pc.Sending? then s.(pc := Closed) else s
    case Complete =>
      if s.pc.Sending? && s.pc.out == [] && s.pc.loaded == s.pc.len && s.queue != [] then
        s.(queue := s.queue[1..], pc := Idle)
      else s
  }

  function Exec(s: State, run: seq<Step>): (r: State)
    requires s.Ok()
    ensures r.Ok() && r.c == s.c
    decreases |run|
  {
    if run == [] then s else Exec(Next(s, run[0]), run[1..])
  }

  lemma {:induction false} ExecAppend(s: State, a: seq<Step>, b: seq<Step>)
    requires s.Ok()
    ensures Exec(s, a + b) == Exec(Exec(s, a), b)
    decreases |a|
  {
    if a == [] {
      assert a + b == b;
    } else {
      assert (a + b)[1..] == a[1..] + b;
      ExecAppend(Next(s, a[0]), a[1..], b);
    }
  }

  lemma ExecCons(s: State, step: Step, rest: seq<Step>)
    requires s.Ok()
    ensures Exec(s, [step] + rest) == Exec(Next(s, step), rest)
  {
    assert ([step] + rest)[1..] == rest;
  }

  lemma ExecOne(s: State, step: Step)
    requires s.Ok()
    ensures Exec(s, [step]) == Next(s, step)
  {
    assert [step][1..] == [];
  }

  /** The run continues with one step. */
  lemma ExecThen(s: State, run: seq<Step>, step: Step)
    requires s.Ok()
    ensures Exec(s, run + [step]) == Next(Exec(s, run), step)
  {
    ExecAppend(s, run, [step]);
    ExecOne(Exec(s, run), step);
  }

  predicate Initial(s: State) {
    && s.Ok() && s.log == [] && s.queue == [] && s.sop && s.pc == Idle && s.count == 0 && s.wire == []
  }

  // ---------- what the wire must carry ----------

  /** SOP for the packet that follows `ps`: it is the first one or follows an EOP. */
  function SopAfter(ps: seq<Packet>): bool {
    ps == [] || ps[|ps| - 1].eop
  }

  /** What a header with 16-bit channel and length fields lets through of a packet. */
  function Cut(p: Packet): (r: Packet) {
    Packet(p.conn, U16(p.channel), p.eop, p.payload[..U16(|p.payload|)])
  }

  predicate Fits16(p: Packet) { p.channel < B16 && |p.payload| < B16 }

  predicate AllFit(ps: seq<Packet>) {
    forall p :: p in ps ==> Fits16(p)
  }

  /** A length of which the header keeps nothing looks like an empty poll. */
  predicate Announced(p: Packet) { U16(|p.payload|) != 0 }

  function FrameBytes(p: Packet, sop: bool): seq<byte> {
    Encode(Header((if sop then 1 else 0) + (if p.eop then 2 else 0), p.conn, Cut(p).channel, |Cut(p).payload|))
    + Cut(p).payload
  }

  /** The stream of the packets, each with its SOP and EOP flags. */
  function Wire(ps: seq<Packet>): seq<byte> {
    if ps == [] then []
    else Wire(ps[..|ps| - 1]) + FrameBytes(ps[|ps| - 1], SopAfter(ps[..|ps| - 1]))
  }

  function Done(s: State): int { |s.log| - |s.queue| }

  /** A queued descriptor still describes the packet the IP produced. */
  ghost predicate Describes(c: Config, mem: Memory, d: Descriptor, p: Packet)
    requires c.Valid() && |mem| == c.window
  {
    d.where < c.span && PacketAt(c, mem, d) == p
  }

  ghost predicate Queued(c: Config, mem: Memory, queue: seq<Descriptor>, log: seq<Packet>)
    requires c.Valid() && |mem| == c.window
  {
    && |queue| <= |log|
    && forall k :: 0 <= k < |queue| ==> Describes(c, mem, queue[k], log[|log| - |queue| + k])
  }

  /** The bytes of the current packet that are not on the wire yet. */
  function Unsent(pc: Pc, p: Packet): seq<byte> {
    match pc
    case Sending(_, len, out, loaded) =>
      if loaded <= |Cut(p).payload| then out + Cut(p).payload[loaded..] else out
    case _ => []
  }

  /** The packet being sent is the oldest one, `before` is on the wire already,
      and `whole` will be. */
  ghost predicate InTransit(s: State, p: Packet, before: seq<byte>, whole: seq<byte>)
    requires s.pc.Sending? && s.queue != []
  {
    && s.sop == p.eop && s.pc.len == |Cut(p).payload| && s.pc.loaded <= s.pc.len
    && s.pc.addr == s.c.base + s.queue[0].where
    && before <= s.wire && s.wire + Unsent(s.pc, p) == whole
  }

  ghost predicate Inv(s: State) {
    && s.Ok() && Queued(s.c, s.mem, s.queue, s.log)
    && (forall k :: 0 <= k < Done(s) ==> Announced(s.log[k]))
    && (s.pc.Idle? ==> s.wire == Wire(s.log[..Done(s)]) && s.sop == SopAfter(s.log[..Done(s)]))
    && (!s.pc.Idle? ==> s.queue != [] && Announced(s.log[Done(s)]))
    && (s.pc.Sending? ==> InTransit(s, s.log[Done(s)], Wire(s.log[..Done(s)]), Wire(s.log[..Done(s) + 1])))
    && (s.pc.Closed? ==> Wire(s.log[..Done(s)]) <= s.wire <= Wire(s.log[..Done(s) + 1]))
    && s.count == Done(s) + if s.pc.Idle? then 0 else 1
  }

  // ---------- the steps ----------

  lemma WireLast(ps: seq<Packet>, k: nat)
    requires k < |ps|
    ensures Wire(ps[..k + 1]) == Wire(ps[..k]) + FrameBytes(ps[k], SopAfter(ps[..k]))
  {
    assert ps[..k + 1][..k] == ps[..k];
    assert ps[..k + 1] != [];
  }

  lemma ProduceInv(s: State, d: Descriptor, m: Memory)
    requires Inv(s)
    ensures Inv(Next(s, Produce(d, m)))
  {
    var r := Next(s, Produce(d, m));
    if CanProduce(s.c, s.mem, s.queue, d, m) {
      StillQueued(s.c, s.mem, s.queue, s.log, d, m);
      assert r.log[..Done(s)] == s.log[..Done(s)];
      assert s.queue != [] ==> r.log[..Done(s) + 1] == s.log[..Done(s) + 1];
    }
  }

  lemma StillQueued(c: Config, mem: Memory, queue: seq<Descriptor>, log: seq<Packet>, d: Descriptor, m: Memory)
    requires c.Valid() && |mem| == c.window && Queued(c, mem, queue, log) && CanProduce(c, mem, queue, d, m)
    ensures Queued(c, m, queue + [d], log + [PacketAt(c, m, d)])
  {
    forall k | 0 <= k < |queue| + 1
      ensures Describes(c, m, (queue + [d])[k], (log + [PacketAt(c, m, d)])[|log| - |queue| + k])
    {
      if k < |queue| {
        assert queue[k] in queue;
        assert Describes(c, mem, queue[k], log[|log| - |queue| + k]);
      }
    }
  }

  /** The header's length field is cut from 31 bits to 16. */
  lemma LowBits(n: nat)
    ensures U16(Low31(n)) == U16(n) <= n
  {
    var q, r := n / B31, n % B31;
    assert n == q * B31 + r;
    ModOf(n, B16, 32768 * q + r / B16, r % B16);
  }

  /** The oldest descriptor announces its packet. */
  lemma HeadPacket(s: State)
    requires Inv(s) && s.queue != []
    ensures var d, p := s.queue[0], s.log[Done(s)];
            && PayloadOf(s.c, s.mem, d) == p.payload && d.len == |p.payload| && d.last == p.eop
            && U16(Low31(d.len)) == |Cut(p).payload| && d.where < s.c.span
            && FrameBytes(p, s.sop) == Encode(HeaderOf(d, s.sop)) + Cut(p).payload
  {
    var d, p := s.queue[0], s.log[Done(s)];
    assert Describes(s.c, s.mem, d, s.log[|s.log| - |s.queue| + 0]);
    LowBits(d.len);
  }

  lemma HeadAddress(c: Config, where: nat)
    requires c.Valid() && where < c.span
    ensures U32(c.base + where) == c.base + where
  {
    ModSmall(c.base + where, B32);
  }

  lemma AcquireInv(s: State, r: State)
    requires Inv(s) && r == Next(s, Acquire)
    ensures Inv(r)
  {
    if r != s {
      HeadPacket(s);
      HeadAddress(s.c, s.queue[0].where);
      var p := s.log[Done(s)];
      Acquired(s, p, Encode(HeaderOf(s.queue[0], s.sop)), r);
    }
  }

  lemma Acquired(s: State, p: Packet, h: seq<byte>, r: State)
    requires Inv(s) && s.pc.Idle? && s.queue != [] && p == s.log[Done(s)] && Announced(p)
    requires FrameBytes(p, s.sop) == h + Cut(p).payload
    requires r == s.(sop := p.eop, count := s.count + 1,
                     pc := Sending(s.c.base + s.queue[0].where, |Cut(p).payload|, h, 0))
    ensures Inv(r)
  {
    WireLast(s.log, Done(s));
    NothingSent(r.pc, p);
    Starts(s, p, r);
  }

  lemma Starts(s: State, p: Packet, r: State)
    requires Inv(s) && s.pc.Idle? && s.queue != [] && p == s.log[Done(s)] && Announced(p)
    requires r.pc.Sending? && r.pc.addr == s.c.base + s.queue[0].where && r.pc.len == |Cut(p).payload| && r.pc.loaded == 0
    requires r == s.(sop := p.eop, count := s.count + 1, pc := r.pc)
    requires s.wire + Unsent(r.pc, p) == Wire(s.log[..Done(s) + 1])
    ensures Inv(r)
  {
  }

  lemma NothingSent(pc: Pc, p: Packet)
    requires pc.Sending? && pc.loaded == 0
    ensures Unsent(pc, p) == pc.out + Cut(p).payload
  {
    assert Cut(p).payload[0..] == Cut(p).payload;
  }

  lemma LoadInv(s: State, n: nat, r: State)
    requires Inv(s) && r == Next(s, Load(n))
    ensures Inv(r)
  {
    if r != s {
      HeadPacket(s);
      var p := s.log[Done(s)];
      LoadedBytes(s.c, s.mem, s.queue[0], p, s.pc.loaded, n);
      Loaded(s, p, n, r);
    }
  }

  lemma LoadedBytes(c: Config, mem: Memory, d: Descriptor, p: Packet, k: nat, n: nat)
    requires c.Valid() && |mem| == c.window && PayloadOf(c, mem, d) == p.payload && k + n <= |Cut(p).payload|
    ensures Read(mem, c.base, c.span, d.where + k, n) == Cut(p).payload[k..k + n]
  {
    ReadPart(mem, c.base, c.span, d.where, d.len, k, n);
    assert Cut(p).payload[k..k + n] == p.payload[k..k + n];
  }

  lemma Loaded(s: State, p: Packet, n: nat, r: State)
    requires Inv(s) && s.pc.Sending? && s.pc.out == [] && s.pc.loaded + n <= s.pc.len && p == s.log[Done(s)]
    requires r == s.(pc := s.pc.(out := Cut(p).payload[s.pc.loaded..s.pc.loaded + n], loaded := s.pc.loaded + n))
    ensures Inv(r)
  {
    LoadedUnsent(Cut(p).payload, s.pc.loaded, n);
    SameUnsent(s, p, r);
  }

  lemma LoadedUnsent(payload: seq<byte>, k: nat, n: nat)
    requires k + n <= |payload|
    ensures payload[k..k + n] + payload[k + n..] == [] + payload[k..]
  {
  }

  /** Staging moves bytes of the packet but none of them to the wire. */
  lemma SameUnsent(s: State, p: Packet, r: State)
    requires Inv(s) && s.pc.Sending? && p == s.log[Done(s)] && r.pc.Sending?
    requires r == s.(pc := s.pc.(out := r.pc.out, loaded := r.pc.loaded))
    requires r.pc.loaded <= s.pc.len && Unsent(r.pc, p) == Unsent(s.pc, p)
    ensures Inv(r)
  {
  }

  lemma ReadPart(mem: Memory, base: nat, span: nat, start: nat, len: nat, k: nat, n: nat)
    requires Fits(mem, base, span) && k + n <= len
    ensures Read(mem, base, span, start + k, n) == Read(mem, base, span, start, len)[k..k + n]
  {
    var part, whole := Read(mem, base, span, start + k, n), Read(mem, base, span, start, len);
    forall j | 0 <= j < n
      ensures part[j] == whole[k..k + n][j]
    {
      assert whole[k + j] == mem[Address(base, span, start + (k + j))];
      assert part[j] == mem[Address(base, span, start + k + j)];
    }
  }

  lemma SendInv(s: State, n: nat, r: State)
    requires Inv(s) && r == Next(s, Send(n))
    ensures Inv(r)
  {
    if r != s { Sent(s, s.log[Done(s)], n, r); }
  }

  lemma Sent(s: State, p: Packet, n: nat, r: State)
    requires Inv(s) && s.pc.Sending? && n <= |s.pc.out| && p == s.log[Done(s)]
    requires r == s.(wire := s.wire + s.pc.out[..n], pc := s.pc.(out := s.pc.out[n..]))
    ensures Inv(r)
  {
    SentBytes(s.wire, s.pc.out, n, Cut(p).payload[s.pc.loaded..]);
    assert Unsent(r.pc, p) == s.pc.out[n..] + Cut(p).payload[s.pc.loaded..];
  }

  lemma SentBytes(wire: seq<byte>, out: seq<byte>, n: nat, rest: seq<byte>)
    requires n <= |out|
    ensures (wire + out[..n]) + (out[n..] + rest) == wire + (out + rest)
  {
    assert out == out[..n] + out[n..];
  }

  lemma CompleteInv(s: State, r: State)
    requires Inv(s) && r == Next(s, Complete)
    ensures Inv(r)
  {
    if r != s {
      var p := s.log[Done(s)];
      assert Unsent(s.pc, p) == [] && s.wire + [] == s.wire;
      assert s.log[..Done(s) + 1] != [];
      LessQueued(s.c, s.mem, s.queue, s.log);
    }
  }

  lemma LessQueued(c: Config, mem: Memory, queue: seq<Descriptor>, log: seq<Packet>)
    requires c.Valid() && |mem| == c.window && queue != [] && Queued(c, mem, queue, log)
    ensures Queued(c, mem, queue[1..], log)
  {
    forall k | 0 <= k < |queue| - 1
      ensures Describes(c, mem, queue[1..][k], log[|log| - (|queue| - 1) + k])
    {
      assert Describes(c, mem, queue[k + 1], log[|log| - |queue| + (k + 1)]);
    }
  }

  lemma NextInv(s: State, step: Step)
    requires Inv(s)
    ensures Inv(Next(s, step))
  {
    match step
    case Produce(d, m) => ProduceInv(s, d, m);
    case Acquire => AcquireInv(s, Next(s, step));
    case Load(n) => LoadInv(s, n, Next(s, step));
    case Send(n) => SendInv(s, n, Next(s, step));
    case SendFail =>
    case Complete => CompleteInv(s, Next(s, step));
  }

  lemma {:induction false} ExecInv(s: State, run: seq<Step>)
    requires Inv(s)
    ensures Inv(Exec(s, run))
    decreases |run|
  {
    if run == [] {
    } else {
      NextInv(s, run[0]);
      ExecInv(Next(s, run[0]), run[1..]);
    }
  }
}
