/** Every step of the host-to-target link keeps the structural invariant
    `Shape`, and without losses the full invariant `Rep`. */
module H2tInvariant {
  import opened Words
  import opened Circular
  import opened Packets
  import opened Allocator
  import opened DebugIp
  import opened H2tDriver
  import opened H2tLink

  lemma InitShape(s: State, waiting: bool)
    requires Initial(s, waiting)
    ensures Shape(s, [0], 0)
  {
    ModSmall(0, s.c.span);
    assert U16(s.c.depth) == s.c.depth;
  }

  lemma InitRep(s: State)
    requires Initial(s, false)
    ensures Rep(s, History([0], 0, []))
  {
    InitShape(s, false);
  }

  // ---------- reading and writing by address rather than by position ----------

  lemma ReadMod(mem: Memory, base: nat, span: nat, start: nat, n: nat)
    requires Fits(mem, base, span)
    ensures Read(mem, base, span, Address(0, span, start), n) == Read(mem, base, span, start, n)
  {
    var off := Address(0, span, start);
    forall j | 0 <= j < n
      ensures Read(mem, base, span, off, n)[j] == Read(mem, base, span, start, n)[j]
    {
      ModAdd(start, j, span);
      assert Address(base, span, off + j) == Address(base, span, start + j);
    }
  }

  lemma WriteMod(mem: Memory, base: nat, span: nat, start: nat, k: nat, data: seq<byte>)
    requires Fits(mem, base, span) && |data| <= span
    ensures Write(mem, base, span, Address(0, span, start) + k, data) == Write(mem, base, span, start + k, data)
  {
    var off := Address(0, span, start);
    var m, m' := Write(mem, base, span, off + k, data), Write(mem, base, span, start + k, data);
    ModAdd(start, k, span);
    forall a | 0 <= a < |mem|
      ensures m[a] == m'[a]
    {
      WriteIs(mem, base, span, off + k, data, a);
      WriteIs(mem, base, span, start + k, data, a);
    }
  }

  /** The IP fetches a named descriptor from its allocation. */
  lemma FetchNamed(c: Config, mem: Memory, pos: seq<nat>, i: nat, d: Descriptor)
    requires c.Valid() && |mem| == c.window && Names(c, pos, i, d)
    ensures Fetch(c, mem, d) == Packet(d.conn, d.channel, d.last, Read(mem, c.base, c.span, pos[i], d.len))
  {
    ReadMod(mem, c.base, c.span, pos[i], d.len);
  }

  lemma ParseOne(hdr: seq<byte>, payload: seq<byte>)
    requires |hdr| == HEADER_BYTES && |payload| == Decode(hdr).len
    ensures Parse(hdr + payload) == [PacketOf(hdr, payload)] && Rest(hdr + payload) == []
  {
    var s := hdr + payload;
    assert s[..HEADER_BYTES] == hdr && s[HEADER_BYTES..] == payload;
    assert HasPacket(s) && FirstLen(s) == |s|;
    assert s[HEADER_BYTES..FirstLen(s)] == payload;
    assert s[|s|..] == [] && Parse(s[|s|..]) == [] && Rest(s[|s|..]) == [];
  }

  // ---------- the structural invariant ----------

  lemma PollShape(s: State, pos: seq<nat>, freed: nat, p: Driver)
    requires Shape(s, pos, freed) && s.pc.Ready?
    requires Polls(s.drv, AvailableSlots(s.c, s.hw)) ==> p == Poll(s.drv, AvailableSlots(s.c, s.hw))
    ensures Polls(s.drv, AvailableSlots(s.c, s.hw))
    ensures Books(s.c, p, pos, |s.hw.delivered|, Pushed(s))
  {
    PollBooks(s.c, s.drv, pos, freed, Pushed(s), |s.hw.delivered|);
  }

  /** A poll without room keeps the shape whatever the packet's length. */
  lemma WaitShape(s: State, pos: seq<nat>, freed: nat, r: State)
    requires Shape(s, pos, freed) && s.pc.Ready? && r == Next(s, Alloc) && r.count == s.count
    ensures Shape(r, pos, |s.hw.delivered|)
  {
    var p := if Polls(s.drv, AvailableSlots(s.c, s.hw)) then Poll(s.drv, AvailableSlots(s.c, s.hw)) else s.drv;
    PollShape(s, pos, freed, p);
    if HasRoom(p, s.Head().len) { RoomAddress(s.c, p, pos, |s.hw.delivered|, Pushed(s), s.Head().len); }
    WaitedShape(s, pos, freed, p, r);
  }

  /** A buffer address is never 0, which would mean no buffer. */
  lemma RoomAddress(c: Config, d: Driver, pos: seq<nat>, freed: nat, pushed: nat, len: nat)
    requires c.Valid() && Books(c, d, pos, freed, pushed) && HasRoom(d, len)
    ensures d.buff.NextAddress() == Address(c.base, c.span, Last(pos)) && d.buff.NextAddress() != 0
  {
    AllocTracks(d.buff, pos[freed], Last(pos), Leaked(pos, freed), Aligned(len));
  }

  lemma WaitedShape(s: State, pos: seq<nat>, freed: nat, p: Driver, r: State)
    requires Shape(s, pos, freed) && s.pc.Ready? && Books(s.c, p, pos, |s.hw.delivered|, Pushed(s))
    requires r == s.(drv := p, waiting := true)
    ensures Shape(r, pos, |s.hw.delivered|)
  {
  }

  lemma AcceptShape(s: State, pos: seq<nat>, freed: nat, r: State, pos': seq<nat>)
    requires Shape(s, pos, freed) && s.pc.Ready? && r == Next(s, Alloc) && r.count > s.count
    requires pos' == pos + [Last(pos) + Aligned(s.Head().len)]
    ensures Shape(r, pos', |s.hw.delivered|)
  {
    var p := AcceptIs(s, r);
    PollShape(s, pos, freed, p);
    AllocateBooks(s.c, p, pos, |s.hw.delivered|, Pushed(s), s.Head().len);
    Accepted(s, pos, |s.hw.delivered|, Allocate(p, s.Head().len), p.buff.NextAddress(), r, pos');
  }

  lemma AcceptIs(s: State, r: State) returns (p: Driver)
    requires s.Ok() && s.pc.Ready? && r == Next(s, Alloc) && r.count > s.count
    ensures Polls(s.drv, AvailableSlots(s.c, s.hw)) && p == Poll(s.drv, AvailableSlots(s.c, s.hw))
    ensures p.Ok() && HasRoom(p, s.Head().len)
    ensures r == s.(drv := Allocate(p, s.Head().len), waiting := false, count := s.count + 1,
                    pc := Copying(p.buff.NextAddress(), [], 0, Intact))
  {
    p := Poll(s.drv, AvailableSlots(s.c, s.hw));
  }

  lemma Accepted(s: State, pos: seq<nat>, retired: nat, d: Driver, addr: nat, r: State, pos': seq<nat>)
    requires s.Ok() && s.pc.Ready? && |pos| == Pushed(s) + 1 && s.count == |pos| - 1 && retired == |s.hw.delivered|
    requires Words8(pos) && QueueNames(s.c, pos, retired, s.hw.queue)
    requires pos' == pos + [Last(pos) + Aligned(s.Head().len)]
    requires Books(s.c, d, pos', retired, Pushed(s)) && addr == Address(s.c.base, s.c.span, Last(pos))
    requires r == s.(drv := d, waiting := false, count := s.count + 1, pc := Copying(addr, [], 0, Intact))
    ensures Shape(r, pos', retired)
  {
    AddWords(Last(pos), Aligned(s.Head().len));
    QueueExtends(s.c, pos, Last(pos'), retired, s.hw.queue);
  }

  lemma QueueExtends(c: Config, pos: seq<nat>, end: nat, retired: nat, q: seq<Descriptor>)
    requires QueueNames(c, pos, retired, q)
    ensures QueueNames(c, pos + [end], retired, q)
  {
    forall k | 0 <= k < |q|
      ensures Names(c, pos + [end], retired + k, q[k])
    {
      assert Names(c, pos, retired + k, q[k]);
    }
  }

  /** Receiving, failing and storing change neither the driver nor the queue. */
  lemma CopyingShape(s: State, pos: seq<nat>, freed: nat, r: State)
    requires Shape(s, pos, freed) && s.pc.Copying? && r.pc.Copying? && r.pc.addr == s.pc.addr && r.Ok()
    requires r == s.(rx := r.rx, fails := r.fails, pc := r.pc, hw := s.hw.(mem := r.hw.mem))
    ensures Shape(r, pos, freed)
  {
  }

  lemma PushHowLongShape(s: State, pos: seq<nat>, freed: nat, r: State)
    requires Shape(s, pos, freed) && s.pc.Copying? && r == Next(s, PushHowLong)
    ensures Shape(r, pos, freed)
    ensures r != s ==>
              r == s.(drv := r.drv, pc := Pushing(s.pc.got), hw := s.hw.(howLong := r.hw.howLong, where := s.pc.addr))
  {
    if Pushable(s) {
      HowLongLatched(s.c, s.hw, s.Head(), s.pc.addr);
      SlotTaken(s.c, s.drv, pos, freed, Pushed(s));
      Latched(s, pos, freed, r.drv, r.hw.howLong, r);
    }
  }

  lemma Latched(s: State, pos: seq<nat>, freed: nat, d: Driver, howLong: nat, r: State)
    requires Shape(s, pos, freed) && s.pc.Copying?
    requires Books(s.c, d, pos, freed, Pushed(s) + 1)
    requires Low31(howLong) == s.Head().len && Bit31(howLong) == s.Head().Eop()
    requires r == s.(drv := d, hw := s.hw.(howLong := howLong, where := s.pc.addr), pc := Pushing(s.pc.got))
    ensures Shape(r, pos, freed)
  {
  }

  lemma SlotTaken(c: Config, d: Driver, pos: seq<nat>, freed: nat, pushed: nat)
    requires c.Valid() && Books(c, d, pos, freed, pushed) && |pos| == pushed + 2
    ensures Books(c, d.(slots := U16(d.slots - 1)), pos, freed, pushed + 1)
  {
    ModSmall(d.slots - 1, B16);
  }

  lemma HowLongLatched(c: Config, hw: Hw, h: Header, payload: nat)
    requires h.Valid() && payload < B32
    ensures var r := Write64(c, hw, H2T_HOW_LONG, HowLongWhere(h.len, h.Eop(), payload));
            && r == hw.(howLong := r.howLong, where := payload)
            && Low31(r.howLong) == h.len && Bit31(r.howLong) == h.Eop()
  {
    var low := h.len + if h.Eop() then B31 else 0;
    ModOf(HowLongWhere(h.len, h.Eop(), payload), B32, payload, low);
    ModOf(low, B31, if h.Eop() then 1 else 0, h.len);
  }

  /** The descriptor that the last store of a push queues. */
  function Queued(s: State): Descriptor
    requires s.Ok()
  {
    Descriptor(s.Head().len, s.Head().Eop(), s.hw.where, s.Head().conn, s.Head().channel)
  }

  lemma PushConnShape(s: State, pos: seq<nat>, freed: nat, r: State)
    requires Shape(s, pos, freed) && s.pc.Pushing? && r == Next(s, PushConn)
    ensures r == s.(pc := Receiving(0), hw := s.hw.(conn := s.Head().conn, queue := s.hw.queue + [Queued(s)]))
    ensures Names(s.c, pos, |pos| - 2, Queued(s))
    ensures Shape(r, pos, freed)
  {
    ConnWritten(s.c, s.hw, s.Head(), Queued(s));
    QueuedShape(s, pos, freed, Queued(s), r);
  }

  lemma QueuedShape(s: State, pos: seq<nat>, freed: nat, d: Descriptor, r: State)
    requires Shape(s, pos, freed) && s.pc.Pushing? && Names(s.c, pos, |pos| - 2, d)
    requires r == s.(pc := Receiving(0), hw := s.hw.(conn := s.Head().conn, queue := s.hw.queue + [d]))
    ensures Shape(r, pos, freed)
  {
    assert Pushed(r) == Pushed(s) + 1;
  }

  lemma ConnWritten(c: Config, hw: Hw, h: Header, d: Descriptor)
    requires h.Valid() && |hw.queue| < c.depth
    requires d == Descriptor(Low31(hw.howLong), Bit31(hw.howLong), hw.where, h.conn, h.channel)
    ensures Write64(c, hw, H2T_CONNECTION_ID, ConnChannel(h.conn, h.channel))
         == hw.(conn := h.conn, queue := hw.queue + [d])
  {
    ModOf(ConnChannel(h.conn, h.channel), B32, h.channel, h.conn);
  }

  lemma RetireShape(s: State, pos: seq<nat>, freed: nat, r: State)
    requires Shape(s, pos, freed) && r == Next(s, Retire)
    ensures Shape(r, pos, freed) && Pushed(r) == Pushed(s)
  {
    if s.hw.queue != [] {
      QueueShift(s.c, pos, |s.hw.delivered|, s.hw.queue);
      RetiredShape(s, pos, freed, r);
    }
  }

  lemma RetiredShape(s: State, pos: seq<nat>, freed: nat, r: State)
    requires Shape(s, pos, freed) && s.hw.queue != [] && |r.hw.delivered| == |s.hw.delivered| + 1
    requires QueueNames(s.c, pos, |s.hw.delivered| + 1, s.hw.queue[1..])
    requires r == s.(hw := s.hw.(queue := s.hw.queue[1..], delivered := r.hw.delivered))
    ensures Shape(r, pos, freed) && Pushed(r) == Pushed(s)
  {
    assert Pushed(r) == Pushed(s);
  }

  lemma QueueShift(c: Config, pos: seq<nat>, retired: nat, q: seq<Descriptor>)
    requires QueueNames(c, pos, retired, q) && q != []
    ensures QueueNames(c, pos, retired + 1, q[1..])
  {
    forall k | 0 <= k < |q| - 1
      ensures Names(c, pos, retired + 1 + k, q[1..][k])
    {
      assert Names(c, pos, retired + (k + 1), q[k + 1]);
    }
  }

  /** The allocations and the freed count after a step. */
  function NextPos(s: State, pos: seq<nat>, step: Step): seq<nat>
    requires s.Ok() && |pos| > 0
  {
    if step.Alloc? && Next(s, step).count > s.count then pos + [Last(pos) + Aligned(s.Head().len)] else pos
  }

  function NextFreed(s: State, freed: nat, step: Step): nat {
    if step.Alloc? && s.pc.Ready? then |s.hw.delivered| else freed
  }

  lemma NextShape(s: State, pos: seq<nat>, freed: nat, step: Step)
    requires Shape(s, pos, freed)
    ensures Shape(Next(s, step), NextPos(s, pos, step), NextFreed(s, freed, step))
  {
    if step.Alloc? {
      AllocShape(s, pos, freed, Next(s, Alloc));
    } else {
      OtherShape(s, pos, freed, step, Next(s, step));
    }
  }

  lemma AllocShape(s: State, pos: seq<nat>, freed: nat, r: State)
    requires Shape(s, pos, freed) && r == Next(s, Alloc)
    ensures Shape(r, NextPos(s, pos, Alloc), NextFreed(s, freed, Alloc))
  {
    if s.pc.Ready? {
      if r.count > s.count {
        AcceptShape(s, pos, freed, r, NextPos(s, pos, Alloc));
      } else {
        WaitShape(s, pos, freed, r);
      }
    }
  }

  lemma OtherShape(s: State, pos: seq<nat>, freed: nat, step: Step, r: State)
    requires Shape(s, pos, freed) && !step.Alloc? && r == Next(s, step)
    ensures Shape(r, pos, freed)
  {
    match step
    case PushHowLong =>
      if s.pc.Copying? { PushHowLongShape(s, pos, freed, r); }
    case PushConn =>
      if s.pc.Pushing? { PushConnShape(s, pos, freed, r); }
    case Retire => RetireShape(s, pos, freed, r);
    case _ =>
      if s.pc.Copying? { CopyingShape(s, pos, freed, r); }
  }

  /** A long payload loses 65536 bytes. */
  lemma NextLeaked(s: State, pos: seq<nat>, step: Step)
    requires s.Ok() && |pos| > 0
    ensures var p := NextPos(s, pos, step);
            |p| > 0 && Leaked(p, |p| - 1) == Leaked(pos, |pos| - 1) + if Long(s, step) then B16 else 0
  {
    if step.Alloc? && Next(s, step).count > s.count {
      LeakedExtends(pos, Last(pos) + Aligned(s.Head().len), |pos| - 1);
      UnrecordedIs(s.Head().len);
    }
  }

  // ---------- the content invariant ----------

  lemma RecvContent(s: State, h: History, data: seq<byte>, r: State)
    requires Rep(s, h) && r == Next(s, Recv(data))
    ensures Content(r, h)
  {
    if r != s {
      RecvPartial(s, data, r);
      assert r.rx == h.done + (Partial(s) + data);
    }
  }

  lemma RecvPartial(s: State, data: seq<byte>, r: State)
    requires s.Ok() && r == Next(s, Recv(data)) && r != s && (s.pc.Copying? ==> s.pc.loss.Intact?)
    ensures Partial(r) == Partial(s) + data && r.rx == s.rx + data
    ensures r.hw == s.hw && r.c == s.c
  {
    if s.pc.Receiving? {
      assert r.hdr[..s.pc.n + |data|] == s.hdr[..s.pc.n] + data;
    }
  }

  lemma RecvFailContent(s: State, h: History)
    requires Rep(s, h) && !s.pc.Copying?
    ensures Content(Next(s, RecvFail), h)
  {
    if s.pc.Receiving? {
      ParseAppend(h.done, Partial(s));
      assert [] + Partial(s) == Partial(s);
    }
  }

  lemma WaitContent(s: State, h: History, r: State, h': History)
    requires Rep(s, h) && s.pc.Ready? && r == s.(drv := r.drv, waiting := true) && r.Ok() && h'.done == h.done
    ensures Content(r, h')
  {
    assert InFlight(r) == InFlight(s) && Partial(r) == Partial(s);
  }

  lemma AcceptContent(s: State, h: History, r: State, h': History)
    requires Rep(s, h) && s.pc.Ready? && r.Ok() && h'.done == h.done && Shape(r, h'.pos, h'.freed)
    requires r.pc.Copying? && r.pc == Copying(r.pc.addr, [], 0, Intact)
    requires r == s.(drv := r.drv, waiting := false, count := s.count + 1, pc := r.pc)
    ensures Content(r, h')
  {
    assert s.hdr + [] == s.hdr;
    assert InFlight(r) == InFlight(s) && Partial(r) == Partial(s);
  }

  /** The newest allocation lies within one lap of the oldest live one. */
  lemma NewestFits(s: State, pos: seq<nat>, freed: nat)
    requires Shape(s, pos, freed) && s.pc.Copying?
    ensures pos[|pos| - 2] + Aligned(s.Head().len) == Last(pos) <= pos[freed] + s.c.span
    ensures pos[freed] <= pos[|pos| - 2]
  {
  }

  /** What is in flight survives a store to the newest allocation. */
  lemma StoreKeepsInFlight(s: State, pos: seq<nat>, freed: nat, k: nat, data: seq<byte>)
    requires Shape(s, pos, freed) && s.pc.Copying?
    requires k + |data| <= Size(pos, |pos| - 2)
    ensures |data| <= s.c.span
    ensures FetchAll(s.c, Write(s.hw.mem, s.c.base, s.c.span, pos[|pos| - 2] + k, data), s.hw.queue) == InFlight(s)
  {
    NewestFits(s, pos, freed);
    FetchAllPastWrite(s.c, s.hw.mem, pos, freed, |s.hw.delivered|, s.hw.queue, pos[|pos| - 2] + k, data);
  }

  lemma FetchAllPastWrite(c: Config, mem: Memory, pos: seq<nat>, freed: nat, retired: nat, q: seq<Descriptor>,
                          start: nat, data: seq<byte>)
    requires c.Valid() && |mem| == c.window && |data| <= c.span
    requires Positions(pos) && QueueNames(c, pos, retired, q) && freed <= retired && retired + |q| < |pos|
    requires pos[retired + |q|] <= start && start + |data| <= pos[freed] + c.span
    ensures FetchAll(c, Write(mem, c.base, c.span, start, data), q) == FetchAll(c, mem, q)
  {
    forall i | 0 <= i < |q|
      ensures Fetch(c, Write(mem, c.base, c.span, start, data), q[i]) == Fetch(c, mem, q[i])
    {
      assert Names(c, pos, retired + i, q[i]);
      assert pos[freed] <= pos[retired + i] && pos[retired + i + 1] <= pos[retired + |q|];
      FetchPastWrite(c, mem, pos, retired + i, q[i], start, data);
    }
  }

  lemma FetchPastWrite(c: Config, mem: Memory, pos: seq<nat>, i: nat, d: Descriptor, start: nat, data: seq<byte>)
    requires c.Valid() && |mem| == c.window && Names(c, pos, i, d) && |data| <= c.span
    requires pos[i + 1] <= start && start + |data| <= pos[i] + c.span
    ensures Fetch(c, Write(mem, c.base, c.span, start, data), d) == Fetch(c, mem, d)
  {
    FetchNamed(c, Write(mem, c.base, c.span, start, data), pos, i, d);
    FetchNamed(c, mem, pos, i, d);
    ReadPastWrite(mem, c.base, c.span, start, data, pos[i], d.len);
  }

  /** A store, lossy packets included, by position rather than by address. */
  lemma NextStore(s: State, pos: seq<nat>, freed: nat, data: seq<byte>) returns (m: Memory)
    requires Shape(s, pos, freed) && s.pc.Copying? && Next(s, StoreBytes(data)) != s
    ensures !s.pc.loss.Lost? && StoresPayload(s.Source(), s.SourceLen(), s.SourceStored(), data) && |data| <= s.c.span
    ensures s.SourceAt() + s.SourceStored() + |data| <= Size(pos, |pos| - 2)
    ensures m == Write(s.hw.mem, s.c.base, s.c.span, pos[|pos| - 2] + (s.SourceAt() + s.SourceStored()), data)
    ensures Next(s, StoreBytes(data)) == s.(hw := s.hw.(mem := m), pc := Advanced(s.pc, |data|))
  {
    var start, k := pos[|pos| - 2], s.SourceAt() + s.SourceStored();
    assert s.pc.addr - s.c.base == Address(0, s.c.span, start);
    WriteMod(s.hw.mem, s.c.base, s.c.span, start, k, data);
    m := Write(s.hw.mem, s.c.base, s.c.span, start + k, data);
    if s.pc.loss.FirstLost? { SecondPieceFits(s, pos, freed); }
  }

  /** The second of two pieces starts on a word boundary and ends with the payload. */
  lemma SecondPieceFits(s: State, pos: seq<nat>, freed: nat)
    requires Shape(s, pos, freed) && s.pc.Copying?
    ensures s.Boundary() + Aligned(s.SecondLen()) <= Aligned(s.Head().len)
  {
    var start, len := pos[|pos| - 2], s.Head().len;
    NewestFits(s, pos, freed);
    WrapBoundarySplits(s.c.base, s.c.span, start, len);
    AlignedSplit(s.Boundary(), len);
  }

  lemma AlignedSplit(first: nat, len: nat)
    requires IsWords(first) && first <= len
    ensures first + Aligned(len - first) == Aligned(len)
  {
  }

  lemma StoreContent(s: State, h: History, data: seq<byte>, r: State)
    requires Rep(s, h) && r == Next(s, StoreBytes(data))
    ensures Content(r, h)
  {
    if r != s {
      var m := NextStore(s, h.pos, h.freed, data);
      StoreHolds(s, h.pos, h.freed, data, m);
      Stored(s, h, |data|, m, r);
    }
  }

  lemma StoreHolds(s: State, pos: seq<nat>, freed: nat, data: seq<byte>, m: Memory)
    requires Shape(s, pos, freed) && s.pc.Copying? && CopyOk(s.c, s.hw.mem, s.Head().len, s.pc, pos)
    requires StoresPayload(s.pc.got, s.Head().len, s.pc.stored, data) && |data| <= s.c.span
    requires s.pc.stored + |data| <= Size(pos, |pos| - 2)
    requires m == Write(s.hw.mem, s.c.base, s.c.span, pos[|pos| - 2] + s.pc.stored, data)
    ensures FetchAll(s.c, m, s.hw.queue) == InFlight(s)
    ensures Holds(s.c, m, pos[|pos| - 2], s.pc.got, Least(s.pc.stored + |data|, s.Head().len))
  {
    StoreKeepsInFlight(s, pos, freed, s.pc.stored, data);
    NewestFits(s, pos, freed);
    StoredBytes(s.c, s.hw.mem, pos[|pos| - 2], s.pc.got, s.Head().len, s.pc.stored, data, m);
  }

  lemma StoredBytes(c: Config, mem: Memory, start: nat, got: seq<byte>, len: nat, stored: nat, data: seq<byte>, m: Memory)
    requires c.Valid() && |mem| == c.window && |data| <= c.span && stored + |data| <= c.span
    requires StoresPayload(got, len, stored, data) && |got| <= len
    requires Least(stored, len) <= |got| && Holds(c, mem, start, got, Least(stored, len))
    requires m == Write(mem, c.base, c.span, start + stored, data)
    ensures Holds(c, m, start, got, Least(stored + |data|, len))
  {
    var n := Least(stored + |data|, len);
    forall j | 0 <= j < n
      ensures Read(m, c.base, c.span, start, n)[j] == got[j]
    {
      StoredByte(c, mem, start, got, len, stored, data, j);
      assert Read(m, c.base, c.span, start, n)[j] == m[Address(c.base, c.span, start + j)];
    }
  }

  lemma StoredByte(c: Config, mem: Memory, start: nat, got: seq<byte>, len: nat, stored: nat, data: seq<byte>, j: nat)
    requires c.Valid() && |mem| == c.window && |data| <= c.span && stored + |data| <= c.span
    requires StoresPayload(got, len, stored, data) && |got| <= len
    requires Least(stored, len) <= |got| && Holds(c, mem, start, got, Least(stored, len))
    requires j < stored + |data| && j < len
    ensures j < |got| && Write(mem, c.base, c.span, start + stored, data)[Address(c.base, c.span, start + j)] == got[j]
  {
    WriteAt(mem, c.base, c.span, start + stored, data, start + j);
    if j < stored {
      HeldByte(c, mem, start, got, Least(stored, len), j);
    } else {
      assert data[j - stored] == got[stored + (j - stored)];
    }
  }

  lemma HeldByte(c: Config, mem: Memory, start: nat, got: seq<byte>, n: nat, j: nat)
    requires Holds(c, mem, start, got, n) && j < n
    ensures mem[Address(c.base, c.span, start + j)] == got[j]
  {
    assert Read(mem, c.base, c.span, start, n)[j] == mem[Address(c.base, c.span, start + j)];
  }

  lemma Stored(s: State, h: History, n: nat, m: Memory, r: State)
    requires Rep(s, h) && s.pc.Copying? && |m| == |s.hw.mem|
    requires s.pc.stored + n <= Aligned(s.Head().len)
    requires s.pc.stored + n <= |s.pc.got| || |s.pc.got| == s.Head().len
    requires FetchAll(s.c, m, s.hw.queue) == InFlight(s)
    requires Holds(s.c, m, h.pos[|h.pos| - 2], s.pc.got, Least(s.pc.stored + n, s.Head().len))
    requires r == s.(hw := s.hw.(mem := m), pc := s.pc.(stored := s.pc.stored + n))
    ensures Content(r, h)
  {
    assert InFlight(r) == InFlight(s) && Partial(r) == Partial(s);
  }

  lemma PushHowLongContent(s: State, h: History, r: State)
    requires Rep(s, h) && s.pc.Copying? && r == Next(s, PushHowLong)
    ensures Content(r, h)
  {
    PushHowLongShape(s, h.pos, h.freed, r);
    if r != s {
      assert s.pc.got[..|s.pc.got|] == s.pc.got;
      assert InFlight(r) == InFlight(s) && Partial(r) == Partial(s);
    }
  }

  lemma PushConnContent(s: State, h: History, r: State, h': History)
    requires Rep(s, h) && s.pc.Pushing? && r == Next(s, PushConn) && h' == h.(done := h.done + (s.hdr + s.pc.got))
    ensures Content(r, h')
  {
    PushConnShape(s, h.pos, h.freed, r);
    PushedPacket(s, h, Queued(s));
    ParsePushed(h.done, s.hdr, s.pc.got);
    assert InFlight(r) == InFlight(s) + [PacketOf(s.hdr, s.pc.got)];
    assert Partial(r) == [] && h'.done + [] == h'.done;
  }

  /** The pushed descriptor stands for the packet just received. */
  lemma PushedPacket(s: State, h: History, d: Descriptor)
    requires Rep(s, h) && s.pc.Pushing? && d == Queued(s) && Names(s.c, h.pos, |h.pos| - 2, d)
    ensures Fetch(s.c, s.hw.mem, d) == PacketOf(s.hdr, s.pc.got)
  {
    FetchNamed(s.c, s.hw.mem, h.pos, |h.pos| - 2, d);
    assert s.pc.got[..|s.pc.got|] == s.pc.got;
  }

  lemma ParsePushed(done: seq<byte>, hdr: seq<byte>, payload: seq<byte>)
    requires Rest(done) == [] && |hdr| == HEADER_BYTES && |payload| == Decode(hdr).len
    ensures Rest(done + (hdr + payload)) == []
    ensures Parse(done + (hdr + payload)) == Parse(done) + [PacketOf(hdr, payload)]
  {
    ParseAppend(done, hdr + payload);
    ParseOne(hdr, payload);
    assert [] + (hdr + payload) == hdr + payload;
  }

  lemma FetchFirst(c: Config, mem: Memory, q: seq<Descriptor>)
    requires Fits(mem, c.base, c.span) && q != []
    ensures FetchAll(c, mem, q) == [Fetch(c, mem, q[0])] + FetchAll(c, mem, q[1..])
  {
  }

  lemma RetireContent(s: State, h: History, r: State)
    requires Rep(s, h) && r == Next(s, Retire)
    ensures Content(r, h)
  {
    if s.hw.queue != [] {
      FetchFirst(s.c, s.hw.mem, s.hw.queue);
      assert Partial(r) == Partial(s);
      assert s.hw.delivered + InFlight(s) == r.hw.delivered + InFlight(r);
    }
  }

  lemma NextRep(s: State, h: History, step: Step) returns (h': History)
    requires Rep(s, h) && GoodStep(s, step)
    ensures Rep(Next(s, step), h')
    ensures h'.done == if step.PushConn? && s.pc.Pushing? then h.done + (s.hdr + s.pc.got) else h.done
  {
    NextShape(s, h.pos, h.freed, step);
    h' := h.(pos := NextPos(s, h.pos, step), freed := NextFreed(s, h.freed, step));
    match step
    case Recv(data) => RecvContent(s, h, data, Next(s, step));
    case RecvFail => RecvFailContent(s, h);
    case Alloc => AllocContent(s, h, Next(s, step), h');
    case StoreBytes(data) => StoreContent(s, h, data, Next(s, step));
    case PushHowLong =>
      if s.pc.Copying? { PushHowLongContent(s, h, Next(s, step)); }
    case PushConn =>
      if s.pc.Pushing? {
        h' := h'.(done := h.done + (s.hdr + s.pc.got));
        PushConnContent(s, h, Next(s, step), h');
      }
    case Retire => RetireContent(s, h, Next(s, step));
  }

  lemma AllocContent(s: State, h: History, r: State, h': History)
    requires Rep(s, h) && r == Next(s, Alloc)
    requires h'.done == h.done && h'.pos == NextPos(s, h.pos, Alloc) && Shape(r, h'.pos, h'.freed)
    ensures Content(r, h')
  {
    AllocIs(s, r);
    if r.count > s.count {
      AcceptContent(s, h, r, h');
    } else if r != s {
      WaitContent(s, h, r, h');
    }
  }

  lemma AllocIs(s: State, r: State)
    requires s.Ok() && r == Next(s, Alloc)
    ensures r.count > s.count ==>
              && s.pc.Ready? && r.pc.Copying? && r.pc == Copying(r.pc.addr, [], 0, Intact)
              && r == s.(drv := r.drv, waiting := false, count := s.count + 1, pc := r.pc)
    ensures r.count == s.count && r != s ==> s.pc.Ready? && r == s.(drv := r.drv, waiting := true)
    ensures r.count >= s.count
  {
  }

  /** The allocations and the freed count after a run. */
  function RunPos(s: State, pos: seq<nat>, run: seq<Step>): (r: seq<nat>)
    requires s.Ok() && |pos| > 0
    ensures |r| > 0
    decreases |run|
  {
    if run == [] then pos else RunPos(Next(s, run[0]), NextPos(s, pos, run[0]), run[1..])
  }

  function RunFreed(s: State, freed: nat, run: seq<Step>): nat
    requires s.Ok()
    decreases |run|
  {
    if run == [] then freed else RunFreed(Next(s, run[0]), NextFreed(s, freed, run[0]), run[1..])
  }

  lemma {:induction false} ExecShape(s: State, pos: seq<nat>, freed: nat, run: seq<Step>)
    requires Shape(s, pos, freed)
    ensures |pos| > 0 && Shape(Exec(s, run), RunPos(s, pos, run), RunFreed(s, freed, run))
    decreases |run|
  {
    if run == [] {
    } else {
      NextShape(s, pos, freed, run[0]);
      ExecShape(Next(s, run[0]), NextPos(s, pos, run[0]), NextFreed(s, freed, run[0]), run[1..]);
    }
  }

  /** Long payloads lose 65536 bytes each, and nothing else is lost. */
  lemma {:induction false} RunLeaks(s: State, pos: seq<nat>, run: seq<Step>)
    requires s.Ok() && |pos| > 0
    ensures var p := RunPos(s, pos, run);
            Leaked(p, |p| - 1) == Leaked(pos, |pos| - 1) + B16 * Longs(s, run)
    decreases |run|
  {
    if run == [] {
    } else {
      NextLeaked(s, pos, run[0]);
      RunLeaks(Next(s, run[0]), NextPos(s, pos, run[0]), run[1..]);
    }
  }

  lemma {:induction false} ExecRep(s: State, h: History, run: seq<Step>) returns (h': History)
    requires Rep(s, h) && GoodRun(s, run)
    ensures Rep(Exec(s, run), h')
    decreases |run|
  {
    if run == [] {
      h' := h;
    } else {
      var h1 := NextRep(s, h, run[0]);
      h' := ExecRep(Next(s, run[0]), h1, run[1..]);
    }
  }
}
