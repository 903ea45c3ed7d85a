/** Where the host-to-target guarantees stop: for each, the exact condition
    under which the code keeps its promise. */
module H2tLimits {
  import opened Words
  import opened Circular
  import opened Packets
  import opened DebugIp
  import opened H2tDriver
  import opened H2tLink
  import opened H2tInvariant
  import opened H2tTheorems
  import opened H2tSafety

  // ---------- a failed payload receive is pushed all the same ----------

  /** Between packets nothing is in memory that a further step could change. */
  lemma {:induction false} Settled(s: State, run: seq<Step>)
    requires s.Ok() && (s.pc.Receiving? || s.pc.Ready? || s.pc.Closed?)
    requires Exec(s, run).pc == Receiving(0) && Exec(s, run).count == s.count
    ensures var r := Exec(s, run);
            && s.pc == Receiving(0) && r.rx == s.rx && r.fails == s.fails
            && r.hw.delivered + InFlight(r) == s.hw.delivered + InFlight(s)
    decreases |run|
  {
    if run == [] {
    } else {
      var s1 := Next(s, run[0]);
      CountGrows(s1, run[1..]);
      StepCount(s, run[0]);
      SettledStep(s, run[0], s1);
      Settled(s1, run[1..]);
    }
  }

  lemma SettledStep(s: State, step: Step, s1: State)
    requires s.Ok() && (s.pc.Receiving? || s.pc.Ready? || s.pc.Closed?) && s1 == Next(s, step) && s1.count == s.count
    ensures s1.pc.Receiving? || s1.pc.Ready? || s1.pc.Closed?
    ensures s1.pc == Receiving(0) ==> s.pc == Receiving(0) && s1.rx == s.rx && s1.fails == s.fails
    ensures s1.hw.delivered + InFlight(s1) == s.hw.delivered + InFlight(s)
  {
    if step.Retire? && s.hw.queue != [] {
      FetchFirst(s.c, s.hw.mem, s.hw.queue);
    } else {
      assert s1.hw == s.hw;
      if step.Recv? && s1 != s && s1.pc == Receiving(0) { assert step.data == []; }
    }
  }

  /** The packet after `done` has lost payload bytes: even with all of the second
      piece still to come, fewer bytes than announced will have been received. */
  ghost predicate ComesShort(s: State, done: seq<byte>)
    requires s.Ok()
  {
    && Rest(done) == [] && |Parse(done)| == Pushed(s) && done + s.hdr <= s.rx
    && (s.pc.Pushing? || (s.pc.Copying? && !s.pc.loss.Intact?))
    && (s.pc.Copying? && s.pc.loss.FirstLost? ==> |s.pc.loss.late| <= s.SecondLen())
    && |s.rx| + (if s.pc.Copying? && s.pc.loss.FirstLost? then s.SecondLen() - |s.pc.loss.late| else 0)
       < |done| + HEADER_BYTES + s.Head().len
  }

  lemma ComesShortStep(s: State, pos: seq<nat>, freed: nat, done: seq<byte>, step: Step, s1: State)
    requires Shape(s, pos, freed) && ComesShort(s, done) && s1 == Next(s, step)
    ensures s1.hdr == s.hdr && s1.fails >= s.fails && s1.count == s.count
    ensures ComesShort(s1, done)
            || (s1.pc == Receiving(0) && s1.rx == s.rx && Pushed(s1) == Pushed(s) + 1 && Partial(s1) == [])
  {
    match step
    case PushHowLong =>
      if s.pc.Copying? { PushHowLongShape(s, pos, freed, s1); }
    case PushConn =>
      if s.pc.Pushing? { PushConnShape(s, pos, freed, s1); }
    case Retire => RetireShape(s, pos, freed, s1);
    case Recv(data) =>
      if s.pc.Copying? && s1 != s { assert s1.rx == s.rx + data; }
    case _ =>
  }

  /** A packet whose payload is incomplete is not in the parsed stream. */
  lemma ShortParse(done: seq<byte>, hdr: seq<byte>, rx: seq<byte>)
    requires Rest(done) == [] && |hdr| == HEADER_BYTES && done + hdr <= rx
    requires |rx| < |done| + HEADER_BYTES + Decode(hdr).len
    ensures Parse(rx) == Parse(done)
  {
    var part := rx[|done|..];
    assert rx == done + part;
    assert part[..HEADER_BYTES] == (done + hdr)[|done|..] == hdr;
    ParseAppend(done, part);
    assert [] + part == part;
    assert !HasPacket(part);
  }

  lemma {:induction false} ShortOutcome(s: State, pos: seq<nat>, freed: nat, done: seq<byte>, run: seq<Step>)
    requires Shape(s, pos, freed) && ComesShort(s, done)
    requires Exec(s, run).pc == Receiving(0) && Exec(s, run).count == s.count
    ensures var r := Exec(s, run);
            !FifoLaw(r) && r.fails >= s.fails && |r.rx| < |done| + HEADER_BYTES + s.Head().len
    decreases |run|
  {
    if run == [] {
    } else {
      var s1 := Next(s, run[0]);
      ComesShortStep(s, pos, freed, done, run[0], s1);
      if ComesShort(s1, done) {
        NextShape(s, pos, freed, run[0]);
        ShortOutcome(s1, NextPos(s, pos, run[0]), NextFreed(s, freed, run[0]), done, run[1..]);
      } else {
        Settled(s1, run[1..]);
        ShortParse(done, s.hdr, s.rx);
        NotFifo(s1, Exec(s1, run[1..]), Parse(done));
      }
    }
  }

  lemma NotFifo(s: State, r: State, packets: seq<Packet>)
    requires s.Ok() && r.Ok() && r.pc == Receiving(0) && Parse(r.rx) == packets && |packets| < Pushed(s)
    requires r.hw.delivered + InFlight(r) == s.hw.delivered + InFlight(s)
    ensures !FifoLaw(r)
  {
    assert |r.hw.delivered + InFlight(r)| == Pushed(s);
  }

  /** The link is a FIFO over a packet exactly when its whole payload arrives:
      for every run from a state in which the packet is being copied to its
      push, with any fragments, retirements and second pieces in between. */
  lemma PayloadArrivalDecides(s: State, run: seq<Step>)
    requires Lossless(s) && s.Ok() && s.pc.Copying?
    requires Exec(s, run).pc == Receiving(0) && Exec(s, run).count == s.count
    ensures var r := Exec(s, run);
            && (FifoLaw(r) <==> |s.pc.got| + (|r.rx| - |s.rx|) == s.Head().len)
            && (FifoLaw(r) <==> r.fails == s.fails)
  {
    var h := Remember(s);
    assert |s.rx| == |h.done| + HEADER_BYTES + |s.pc.got|;
    Outcome(s, h, run);
  }

  /** What a run to the push does to the packet in progress. */
  ghost predicate Decided(s: State, h: History, r: State)
    requires s.Ok() && r.Ok()
  {
    var whole := |h.done| + HEADER_BYTES + s.Head().len;
    if FifoLaw(r) then |r.rx| == whole && r.fails == s.fails else |r.rx| < whole && r.fails > s.fails
  }

  lemma {:induction false} Outcome(s: State, h: History, run: seq<Step>)
    requires Rep(s, h) && (s.pc.Copying? || s.pc.Pushing?)
    requires Exec(s, run).pc == Receiving(0) && Exec(s, run).count == s.count
    ensures Decided(s, h, Exec(s, run))
    decreases |run|
  {
    if run == [] {
    } else {
      var s1 := Next(s, run[0]);
      CountGrows(s1, run[1..]);
      StepCount(s, run[0]);
      OutcomeStep(s, h, run[0], s1);
      if s1 == s {
        Outcome(s1, h, run[1..]);
      } else if run[0].RecvFail? {
        NextShape(s, h.pos, h.freed, run[0]);
        ShortOutcome(s1, h.pos, h.freed, h.done, run[1..]);
      } else {
        var h1 := NextRepSame(s, h, run[0]);
        if s1.pc.Copying? || s1.pc.Pushing? {
          Outcome(s1, h1, run[1..]);
        } else {
          Settled(s1, run[1..]);
        }
      }
    }
  }

  lemma OutcomeStep(s: State, h: History, step: Step, s1: State)
    requires Rep(s, h) && (s.pc.Copying? || s.pc.Pushing?) && s1 == Next(s, step)
    ensures s1.hdr == s.hdr && s1.count == s.count
    ensures !step.RecvFail? ==> s1.fails == s.fails
    ensures step.RecvFail? && s1 != s ==> s1.fails > s.fails && ComesShort(s1, h.done)
  {
    if step.RecvFail? && s1 != s { assert h.done + (s.hdr + s.pc.got) == (h.done + s.hdr) + s.pc.got; }
  }

  /** Until the push the pushed packets stay the same; the push completes them. */
  lemma NextRepSame(s: State, h: History, step: Step) returns (h1: History)
    requires Rep(s, h) && (s.pc.Copying? || s.pc.Pushing?) && !step.RecvFail?
    ensures Rep(Next(s, step), h1)
    ensures Next(s, step).pc.Copying? || Next(s, step).pc.Pushing? ==> h1.done == h.done
    ensures !(Next(s, step).pc.Copying? || Next(s, step).pc.Pushing?) ==>
              && Next(s, step).pc == Receiving(0) && FifoLaw(Next(s, step))
              && |Next(s, step).rx| == |h.done| + HEADER_BYTES + s.Head().len
  {
    h1 := NextRep(s, h, step);
    PushedStep(s, h, step, Next(s, step));
    if Next(s, step).pc.Receiving? { RepFifo(Next(s, step), h1); }
  }

  lemma PushedStep(s: State, h: History, step: Step, s1: State)
    requires Rep(s, h) && (s.pc.Copying? || s.pc.Pushing?) && s1 == Next(s, step)
    ensures (step.PushConn? && s.pc.Pushing?) || s1.pc.Copying? || s1.pc.Pushing?
    ensures step.PushConn? && s.pc.Pushing? ==>
              s1.pc == Receiving(0) && s1.rx == s.rx && |s.rx| == |h.done| + HEADER_BYTES + s.Head().len
  {
  }

  /** The wire form of a header that announces `len` payload bytes. */
  function Announce(len: nat): (h: seq<byte>)
    requires len < B16
    ensures |h| == HEADER_BYTES && Decode(h).len == len
  {
    Encode(PacketHeader(1, 1, 0, 0, len))
  }

  /** A fresh session accepts the first packet that fits the memory. */
  lemma FirstPacket(s0: State, len: nat) returns (s1: State)
    requires Initial(s0, false) && s0.c.depth > 0 && len < B16 && Aligned(len) <= s0.c.span
    ensures s1.Ok() && s1.pc == Ready && s1.Head().len == len && s1.count == 0
    ensures Lossless(s1) && Reached(s1, 0) && s1 == Next(s0, Recv(Announce(len)))
    ensures Next(s1, Alloc).pc == Copying(s0.c.base, [], 0, Intact) && Next(s1, Alloc).count == 1
  {
    var h := Announce(len);
    s1 := Next(s0, Recv(h));
    assert s0.hdr[..0] + h + s0.hdr[HEADER_BYTES..] == h;
    assert GoodRun(s0, []) && s0 == Exec(s0, []);
    NextLossless(s0, Recv(h));
    InitReached(s0, false);
    NextReachable(s0, 0, Recv(h));
    FreshAccepts(s1);
  }

  lemma FreshAccepts(s: State)
    requires s.Ok() && s.pc == Ready && s.hw.queue == [] && s.count == 0
    requires s.drv == InitDriver(s.drv.chain, s.c.base, s.c.span, s.c.depth)
    requires s.c.depth > 0 && Aligned(s.Head().len) <= s.c.span
    ensures Next(s, Alloc).pc == Copying(s.c.base, [], 0, Intact) && Next(s, Alloc).count == 1
    ensures Next(s, Alloc).rx == s.rx && Next(s, Alloc).hdr == s.hdr
  {
    assert s.drv.slots == U16(s.c.depth) == s.c.depth == AvailableSlots(s.c, s.hw);
    assert Poll(s.drv, s.c.depth) == s.drv;
    assert s.drv.buff.NextAddress() == U32(s.c.base) == s.c.base;
  }

  /** For instance: a client announces a payload and is gone. The IP is handed a
      packet that was never received. */
  lemma LostPayload(s0: State, len: nat)
    requires Initial(s0, false) && s0.c.depth > 0 && 0 < len < B16 && Aligned(len) <= s0.c.span
    ensures var s := Next(Next(s0, Recv(Announce(len))), Alloc);
            Lossless(s) && s.pc.Copying? && !FifoLaw(Exec(s, [RecvFail, PushHowLong, PushConn]))
  {
    var s1 := FirstPacket(s0, len);
    NextLossless(s1, Alloc);
    LostFrom(Next(s1, Alloc));
  }

  lemma LostFrom(s: State)
    requires Lossless(s) && s.Ok() && s.pc == Copying(s.c.base, [], 0, Intact)
    requires 0 < s.Head().len && Aligned(s.Head().len) <= s.c.span
    ensures !FifoLaw(Exec(s, [RecvFail, PushHowLong, PushConn]))
  {
    GivenUp(s);
    PayloadArrivalDecides(s, [RecvFail, PushHowLong, PushConn]);
  }

  lemma GivenUp(s: State)
    requires s.Ok() && s.pc == Copying(s.c.base, [], 0, Intact) && 0 < s.Head().len && Aligned(s.Head().len) <= s.c.span
    ensures var r := Exec(s, [RecvFail, PushHowLong, PushConn]);
            r.pc == Receiving(0) && r.count == s.count && r.rx == s.rx
  {
    BoundaryValue(s.c.base, s.c.span, 0, s.Head().len);
    var s1 := Next(s, RecvFail);
    assert s1.pc.loss.Lost?;
    ExecCons(s, RecvFail, [PushHowLong, PushConn]);
    PushBoth(s1, Exec(s1, [PushHowLong, PushConn]));
  }

  lemma PushBoth(s: State, r: State)
    requires s.Ok() && s.pc.Copying? && Pushable(s) && r == Exec(s, [PushHowLong, PushConn])
    ensures r.pc == Receiving(0) && r.count == s.count && r.rx == s.rx
  {
    ExecCons(s, PushHowLong, [PushConn]);
    ExecOne(Next(s, PushHowLong), PushConn);
  }

  /** For instance: the first packet of a session announces 65535 bytes. */
  lemma LongPayload(s0: State)
    requires Initial(s0, false) && s0.c.depth > 0 && s0.c.span >= B16
    ensures !Conservation(Next(Next(s0, Recv(Announce(65535))), Alloc), 0)
  {
    var s1 := FirstPacket(s0, 65535);
    NextReachable(s1, 0, Alloc);
    ChainEntryDecides(Next(s1, Alloc), 1);
  }

  // ---------- the 16-bit chain entry ----------

  /** Free space and live entries make up the span exactly as long as no payload
      of more than 65528 bytes was accepted. A longer one is rounded up to 65536,
      which the chain entry truncates to 0: its space is never freed. */
  lemma ChainEntryDecides(s: State, longs: nat)
    requires Reached(s, longs)
    ensures s.Ok() && (Conservation(s, 0) <==> longs == 0)
  {
    Conserved(s, longs);
  }

  // ---------- `h2t_waiting` across sessions ----------

  /** Headers received so far, for every accepted packet and the current one. */
  predicate HeadersReceived(s: State) {
    HEADER_BYTES * s.count + (match s.pc case Receiving(n) => n case Ready => HEADER_BYTES case _ => 0) <= |s.rx|
  }

  lemma {:induction false} HeadersCounted(s: State, run: seq<Step>)
    requires s.Ok() && HeadersReceived(s)
    ensures HeadersReceived(Exec(s, run))
    decreases |run|
  {
    if run == [] {
    } else {
      HeadersCounted(Next(s, run[0]), run[1..]);
    }
  }

  /** `connect_client` resets the packet counts and the driver but not
      `h2t_waiting`. At every moment of the session each counted packet has a
      header of this session, exactly unless the session starts with the flag
      set and the header left in the buffer can be served. */
  lemma WaitingFlagDecides(s: State, waiting: bool)
    requires Initial(s, waiting)
    ensures (forall run :: HEADER_BYTES * Exec(s, run).count <= |Exec(s, run).rx|)
       <==> !(waiting && s.c.depth > 0 && Aligned(s.Head().len) <= s.c.span)
  {
    if waiting && s.c.depth > 0 && Aligned(s.Head().len) <= s.c.span {
      FreshAccepts(s);
      ExecOne(s, Alloc);
      assert HEADER_BYTES * Exec(s, [Alloc]).count > |Exec(s, [Alloc]).rx|;
    } else {
      InitReached(s, waiting);
      forall run: seq<Step>
        ensures HEADER_BYTES * Exec(s, run).count <= |Exec(s, run).rx|
      {
        if waiting { NeverServed(s, 0, run); } else { HeadersCounted(s, run); }
      }
    }
  }
}
