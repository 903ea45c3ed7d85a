/** What every run of the host-to-target link guarantees. */
module H2tTheorems {
  import opened Words
  import opened Circular
  import opened Packets
  import opened DebugIp
  import opened H2tDriver
  import opened H2tLink
  import opened H2tInvariant

  /** A state that some run reaches, of a session that starts with either value
      of `h2t_waiting`; the run has accepted `longs` payloads of more than 65528
      bytes. Payload receives may have failed. */
  ghost predicate Reached(s: State, longs: nat) {
    exists s0: State, waiting: bool, run: seq<Step> ::
      Initial(s0, waiting) && s == Exec(s0, run) && longs == Longs(s0, run)
  }

  ghost predicate Reachable(s: State) {
    exists longs: nat :: Reached(s, longs)
  }

  lemma InitReached(s: State, waiting: bool)
    requires Initial(s, waiting)
    ensures Reached(s, 0)
  {
    assert s == Exec(s, []) && Longs(s, []) == 0;
  }

  lemma Shaped(s: State, longs: nat) returns (pos: seq<nat>, freed: nat)
    requires Reached(s, longs)
    ensures Shape(s, pos, freed) && Leaked(pos, |pos| - 1) == B16 * longs
  {
    var s0: State, waiting: bool, run: seq<Step> :|
      Initial(s0, waiting) && s == Exec(s0, run) && longs == Longs(s0, run);
    InitShape(s0, waiting);
    ExecShape(s0, [0], 0, run);
    RunLeaks(s0, [0], run);
    pos, freed := RunPos(s0, [0], run), RunFreed(s0, 0, run);
  }

  lemma {:induction false} LongsAppend(s: State, a: seq<Step>, b: seq<Step>)
    requires s.Ok()
    ensures Longs(s, a + b) == Longs(s, a) + Longs(Exec(s, a), b)
    decreases |a|
  {
    if a == [] {
      assert a + b == b;
    } else {
      assert (a + b)[1..] == a[1..] + b;
      LongsAppend(Next(s, a[0]), a[1..], b);
    }
  }

  lemma RunsStayReachable(s: State, longs: nat, run: seq<Step>)
    requires Reached(s, longs) && s.Ok()
    ensures Reached(Exec(s, run), longs + Longs(s, run))
  {
    var s0: State, waiting: bool, before: seq<Step> :|
      Initial(s0, waiting) && s == Exec(s0, before) && longs == Longs(s0, before);
    LongsAppend(s0, before, run);
    ExecAppend(s0, before, run);
  }

  lemma NextReachable(s: State, longs: nat, step: Step)
    requires Reached(s, longs) && s.Ok()
    ensures Reached(Next(s, step), longs + if Long(s, step) then 1 else 0)
  {
    ExecOne(s, step);
    LongsOne(s, step);
    RunsStayReachable(s, longs, [step]);
  }

  lemma LongsOne(s: State, step: Step)
    requires s.Ok()
    ensures Longs(s, [step]) == if Long(s, step) then 1 else 0
  {
    assert [step][1..] == [] && Longs(Next(s, step), []) == 0;
  }

  /** A reachable state of a session that starts with the flag clear and in which
      no payload receive has failed so far. */
  ghost predicate Lossless(s: State) {
    exists s0: State, run: seq<Step> :: Initial(s0, false) && GoodRun(s0, run) && s == Exec(s0, run)
  }

  lemma Remember(s: State) returns (h: History)
    requires Lossless(s)
    ensures Rep(s, h)
  {
    var s0: State, run: seq<Step> :| Initial(s0, false) && GoodRun(s0, run) && s == Exec(s0, run);
    InitRep(s0);
    h := ExecRep(s0, History([0], 0, []), run);
  }

  lemma {:induction false} GoodAppend(s: State, a: seq<Step>, b: seq<Step>)
    requires s.Ok() && GoodRun(s, a) && GoodRun(Exec(s, a), b)
    ensures GoodRun(s, a + b)
    decreases |a|
  {
    if a == [] {
      assert a + b == b;
    } else {
      assert (a + b)[1..] == a[1..] + b;
      GoodAppend(Next(s, a[0]), a[1..], b);
    }
  }

  lemma RunsStayLossless(s: State, run: seq<Step>)
    requires Lossless(s) && s.Ok() && GoodRun(s, run)
    ensures Lossless(Exec(s, run))
  {
    var s0: State, before: seq<Step> :| Initial(s0, false) && GoodRun(s0, before) && s == Exec(s0, before);
    GoodAppend(s0, before, run);
    ExecAppend(s0, before, run);
  }

  lemma NextLossless(s: State, step: Step)
    requires Lossless(s) && s.Ok() && GoodStep(s, step)
    ensures Lossless(Next(s, step))
  {
    ExecOne(s, step);
    assert [step][1..] == [];
    RunsStayLossless(s, [step]);
  }

  // ---------- the link is a FIFO ----------

  /** The packets of the received bytes are, in order, those the IP has read,
      those it will read from memory as it is now, and the one just received. */
  ghost predicate FifoLaw(s: State)
    requires s.Ok()
  {
    Parse(s.rx) == s.hw.delivered + InFlight(s) + Parse(Partial(s))
  }

  lemma Fifo(s: State)
    requires Lossless(s)
    ensures s.Ok() && FifoLaw(s)
  {
    var h := Remember(s);
    RepFifo(s, h);
  }

  lemma RepFifo(s: State, h: History)
    requires Rep(s, h)
    ensures FifoLaw(s)
  {
    ParseAppend(h.done, Partial(s));
    assert [] + Partial(s) == Partial(s);
  }

  /** Every receive that failed between `s0` and `s` was the one of a header that
      ended the session: what a caller can read off the sockets. */
  predicate NoPayloadLoss(s0: State, s: State) {
    s.fails == s0.fails + if s.pc.Closed? then 1 else 0
  }

  /** A failed receive is never forgotten, and the session ends only with one. */
  lemma {:induction false} FailsGrow(s: State, run: seq<Step>)
    requires s.Ok()
    ensures var r := Exec(s, run);
            && r.fails >= s.fails
            && (r.pc.Closed? && !s.pc.Closed? ==> r.fails > s.fails)
    decreases |run|
  {
    if run == [] {
    } else {
      FailsGrow(Next(s, run[0]), run[1..]);
    }
  }

  /** A step that does not fail a receive, up to the end of the session. */
  lemma LosslessStep(s: State, run: seq<Step>)
    requires s.Ok() && run != [] && !s.pc.Closed? && NoPayloadLoss(s, Exec(s, run))
    ensures run[0].RecvFail? ==> !s.pc.Copying? || Next(s, run[0]) == s
    ensures !Next(s, run[0]).pc.Closed? ==> NoPayloadLoss(Next(s, run[0]), Exec(s, run))
  {
    FailsGrow(Next(s, run[0]), run[1..]);
  }

  lemma {:induction false} RxGrows(s: State, run: seq<Step>)
    requires s.Ok()
    ensures s.rx <= Exec(s, run).rx
    decreases |run|
  {
    if run == [] {
    } else {
      assert s.rx <= Next(s, run[0]).rx;
      RxGrows(Next(s, run[0]), run[1..]);
    }
  }

  lemma {:induction false} ClosedStays(s: State, run: seq<Step>)
    requires s.Ok() && s.pc.Closed?
    ensures Exec(s, run) == s.(hw := Exec(s, run).hw) && GoodRun(s, run)
    decreases |run|
  {
    if run == [] {
    } else {
      ClosedStays(Next(s, run[0]), run[1..]);
    }
  }

  /** The observable hypothesis makes a run good, steps that change nothing aside. */
  lemma {:induction false} LosslessRunKeepsRep(s: State, h: History, run: seq<Step>) returns (h': History)
    requires Rep(s, h) && !s.pc.Closed? && NoPayloadLoss(s, Exec(s, run))
    ensures Rep(Exec(s, run), h')
    decreases |run|
  {
    if run == [] {
      h' := h;
    } else {
      LosslessStep(s, run);
      var s1 := Next(s, run[0]);
      var h1 := h;
      if s1 != s { h1 := NextRep(s, h, run[0]); }
      if s1.pc.Closed? {
        ClosedStays(s1, run[1..]);
        h' := ExecRep(s1, h1, run[1..]);
      } else {
        h' := LosslessRunKeepsRep(s1, h1, run[1..]);
      }
    }
  }

  /** Whatever the client sends, the interleaving and the fragmentation, the IP
      reads a prefix of the packets in the received bytes; between packets and
      with an empty queue it has read them all. */
  lemma DeliveredAsReceived(s0: State, run: seq<Step>)
    requires Initial(s0, false) && NoPayloadLoss(s0, Exec(s0, run))
    ensures var s := Exec(s0, run);
            && s.hw.delivered + InFlight(s) <= Parse(s.rx)
            && (s.hw.queue == [] && (s.pc == Receiving(0) || s.pc.Closed?) ==> s.hw.delivered == Parse(s.rx))
  {
    InitRep(s0);
    var h := LosslessRunKeepsRep(s0, History([0], 0, []), run);
    DoneIsPrefix(Exec(s0, run), h);
  }

  lemma DoneIsPrefix(s: State, h: History)
    requires Rep(s, h)
    ensures s.hw.delivered + InFlight(s) <= Parse(s.rx)
    ensures s.hw.queue == [] && (s.pc == Receiving(0) || s.pc.Closed?) ==> s.hw.delivered == Parse(s.rx)
  {
    ParsePrefix(h.done, s.rx);
    assert s.pc == Receiving(0) ==> Partial(s) == [] && h.done + [] == h.done;
  }

  /** Frames a client may send: the fields fit the header. */
  predicate Sendable(fs: seq<Frame>) {
    forall f :: f in fs ==> f.Valid()
  }

  /** The IP reads a prefix of the packets the client encoded, and all of them
      once the stream is consumed and the queue is empty. */
  lemma DeliveredInOrder(s0: State, run: seq<Step>, fs: seq<Frame>)
    requires Initial(s0, false) && NoPayloadLoss(s0, Exec(s0, run))
    requires Sendable(fs) && Exec(s0, run).rx <= Stream(fs)
    ensures var s := Exec(s0, run);
            && s.hw.delivered <= PacketsOf(fs)
            && s.hw.delivered + InFlight(s) <= PacketsOf(fs)
            && (s.rx == Stream(fs) && s.hw.queue == [] && (s.pc == Receiving(0) || s.pc.Closed?) ==>
                  s.hw.delivered == PacketsOf(fs))
  {
    DeliveredAsReceived(s0, run);
    ParsePrefix(Exec(s0, run).rx, Stream(fs));
    ParseStream(fs);
  }

  /** The descriptor that a push queues, by the bytes of the received header. */
  lemma PushedDescriptor(s: State)
    requires Reachable(s) && s.pc.Pushing?
    ensures s.Ok() && |s.hdr| == 10
    ensures Next(s, PushConn).hw.queue
         == s.hw.queue
            + [Descriptor(Le(s.hdr[8..10]), s.hdr[4] / 2 % 2 == 1, s.hw.where, s.hdr[5], Le(s.hdr[6..8]))]
  {
    var longs: nat :| Reached(s, longs);
    var pos, freed := Shaped(s, longs);
    PushConnShape(s, pos, freed, Next(s, PushConn));
    DecodeLayout(s.hdr);
  }

  // ---------- conservation, ring indices and slots ----------

  /** Chain entries between the driver's read and write index. */
  function Live(s: State): int
    requires s.Ok()
  {
    s.c.depth - s.drv.slots + if s.pc.Copying? then 1 else 0
  }

  /** Free space and live entries make up the span but for `leaked` bytes, and the
      offsets agree with them even when they coincide. */
  ghost predicate Conservation(s: State, leaked: nat)
    requires s.Ok()
  {
    && 0 <= Live(s) <= s.c.depth
    && s.drv.buff.spaceAvailable + ChainSum(s.drv.chain, s.drv.readIdx, Live(s)) + leaked == s.c.span
    && s.drv.buff.writeOffset == (s.drv.buff.readOffset + s.c.span - s.drv.buff.spaceAvailable) % s.c.span
  }

  /** In every run exactly the chain entries of long payloads are missing. */
  lemma Conserved(s: State, longs: nat)
    requires Reached(s, longs)
    ensures s.Ok() && Conservation(s, B16 * longs)
    ensures Slot(s.drv.writeIdx) == Slot(s.drv.readIdx + Live(s))
  {
    var pos, freed := Shaped(s, longs);
    BooksConserve(s.c, s.drv, pos, freed, Pushed(s) + (if s.pc.Pushing? then 1 else 0), Live(s));
  }

  /** Whenever the driver polls, the unsigned difference is the number of
      descriptors retired since the last poll, retirements between poll and
      push included. It does not underflow and does not exceed the ring. */
  lemma SlotAccounting(s: State)
    requires Reachable(s) && s.pc.Ready?
    ensures s.Ok() && Polls(s.drv, AvailableSlots(s.c, s.hw))
    ensures var freed := AvailableSlots(s.c, s.hw) - s.drv.slots;
            0 <= freed <= MAX_DESCRIPTOR_DEPTH && Live(s) == freed + |s.hw.queue|
  {
    var longs: nat :| Reached(s, longs);
    var pos, freed := Shaped(s, longs);
    PollBooks(s.c, s.drv, pos, freed, Pushed(s), |s.hw.delivered|);
  }

  /** The entries a poll frees are the oldest ones: what stays in the ring is,
      entry by entry, what the IP still holds. */
  lemma PollFreesRetired(s: State, longs: nat, p: Driver)
    requires Reached(s, longs) && s.Ok() && s.pc.Ready? && Polls(s.drv, AvailableSlots(s.c, s.hw))
    requires p == Poll(s.drv, AvailableSlots(s.c, s.hw))
    ensures p.slots + |s.hw.queue| == s.c.depth
    ensures p.buff.spaceAvailable + ChainSum(p.chain, p.readIdx, |s.hw.queue|) + B16 * longs == s.c.span
    ensures forall k :: 0 <= k < |s.hw.queue| ==> Entry(p.chain, p.readIdx + k) == U16(Aligned(s.hw.queue[k].len))
  {
    var pos, freed := Shaped(s, longs);
    PollBooks(s.c, s.drv, pos, freed, Pushed(s), |s.hw.delivered|);
    Polled(s, pos, freed, p);
  }

  lemma Polled(s: State, pos: seq<nat>, freed: nat, p: Driver)
    requires Shape(s, pos, freed) && s.pc.Ready? && Books(s.c, p, pos, |s.hw.delivered|, Pushed(s))
    ensures p.slots + |s.hw.queue| == s.c.depth
    ensures p.buff.spaceAvailable + ChainSum(p.chain, p.readIdx, |s.hw.queue|) + Leaked(pos, |pos| - 1) == s.c.span
    ensures forall k :: 0 <= k < |s.hw.queue| ==> Entry(p.chain, p.readIdx + k) == U16(Aligned(s.hw.queue[k].len))
  {
    var retired := |s.hw.delivered|;
    assert |pos| - 1 - retired == |s.hw.queue|;
    BooksConserve(s.c, p, pos, retired, Pushed(s), |s.hw.queue|);
    forall k | 0 <= k < |s.hw.queue|
      ensures Entry(p.chain, p.readIdx + k) == U16(Aligned(s.hw.queue[k].len))
    {
      assert Names(s.c, pos, retired + k, s.hw.queue[k]);
      EntryFromReadIdx(p.chain, pos, retired, k);
    }
  }
}
