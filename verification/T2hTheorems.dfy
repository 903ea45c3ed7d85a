/** What every run of the target-to-host link guarantees, and what the client
    can recover from the wire. */
module T2hTheorems {
  import opened Words
  import opened Packets
  import opened T2hLink

  /** In every run the wire carries every packet marked done, whole up to the
      16-bit length field and in order, and at most a prefix of the next one. */
  lemma ExactlyOnce(s0: State, run: seq<Step>)
    requires Initial(s0)
    ensures var s := Exec(s0, run);
            && 0 <= Done(s) <= |s.log|
            && Wire(s.log[..Done(s)]) <= s.wire
            && s.wire <= Wire(s.log[..if Done(s) < |s.log| then Done(s) + 1 else Done(s)])
            && (s.pc.Idle? ==> s.wire == Wire(s.log[..Done(s)]))
            && s.count == Done(s) + if s.pc.Idle? then 0 else 1
  {
    ExecInv(s0, run);
    Between(Exec(s0, run));
  }

  lemma Between(s: State)
    requires Inv(s)
    ensures s.wire <= Wire(s.log[..if Done(s) < |s.log| then Done(s) + 1 else Done(s)])
  {
    if s.pc.Idle? && s.queue != [] {
      WireLast(s.log, Done(s));
    }
  }

  /** A descriptor is marked done only once its whole packet is on the wire. */
  lemma DoneAfterSent(s: State, step: Step)
    requires Inv(s) && Done(Next(s, step)) > Done(s)
    ensures s.queue != [] && s.wire == Wire(s.log[..Done(s) + 1])
  {
    assert step.Complete?;
    assert Unsent(s.pc, s.log[Done(s)]) == [] && s.wire + [] == s.wire;
  }

  // ---------- what the client reads back ----------

  /** The SOP flags of the successive packets of a stream. */
  function Heads(s: seq<byte>): seq<bool>
    decreases |s|
  {
    if !HasPacket(s) then []
    else [Decode(s[..HEADER_BYTES]).Sop()] + Heads(s[FirstLen(s)..])
  }

  lemma {:induction false} HeadsAppend(a: seq<byte>, b: seq<byte>)
    ensures Heads(a + b) == Heads(a) + Heads(Rest(a) + b)
    decreases |a|
  {
    if !HasPacket(a) {
    } else {
      var n := FirstLen(a);
      assert (a + b)[..HEADER_BYTES] == a[..HEADER_BYTES];
      assert HasPacket(a + b) && FirstLen(a + b) == n;
      assert (a + b)[n..] == a[n..] + b;
      HeadsAppend(a[n..], b);
      assert Rest(a) == Rest(a[n..]);
    }
  }

  /** SOP exactly on the first packet and on those that follow an EOP. */
  function SopFlags(ps: seq<Packet>): (r: seq<bool>)
    ensures |r| == |ps|
  {
    seq(|ps|, i requires 0 <= i < |ps| => SopAfter(ps[..i]))
  }

  /** What 16-bit header fields let through of every packet. */
  function Cuts(ps: seq<Packet>): (r: seq<Packet>)
    ensures |r| == |ps|
  {
    seq(|ps|, i requires 0 <= i < |ps| => Cut(ps[i]))
  }

  lemma CutsLast(init: seq<Packet>, p: Packet)
    ensures Cuts(init + [p]) == Cuts(init) + [Cut(p)]
  {
  }

  lemma CutWhole(p: Packet)
    ensures Cut(p) == p <==> Fits16(p)
  {
  }

  lemma CutsWhole(ps: seq<Packet>)
    ensures Cuts(ps) == ps <==> AllFit(ps)
  {
    forall i | 0 <= i < |ps|
      ensures Cuts(ps)[i] == ps[i] <==> Fits16(ps[i])
    {
      CutWhole(ps[i]);
    }
    if Cuts(ps) == ps {
      forall p | p in ps
        ensures Fits16(p)
      {
        var i :| 0 <= i < |ps| && ps[i] == p;
      }
    }
  }

  lemma FrameParses(p: Packet, sop: bool)
    ensures var b := FrameBytes(p, sop);
            Parse(b) == [Cut(p)] && Heads(b) == [sop] && Rest(b) == []
  {
    var b, q := FrameBytes(p, sop), Cut(p);
    var h := Header((if sop then 1 else 0) + (if p.eop then 2 else 0), p.conn, q.channel, |q.payload|);
    DecodeEncode(h);
    assert b[..HEADER_BYTES] == Encode(h);
    assert HasPacket(b) && FirstLen(b) == |b|;
    assert b[HEADER_BYTES..FirstLen(b)] == q.payload;
    assert b[|b|..] == [];
    assert Parse(b[|b|..]) == [] && Heads(b[|b|..]) == [] && Rest(b[|b|..]) == [];
  }

  /** A frame byte by byte. */
  lemma FrameLayout(p: Packet, sop: bool)
    ensures |FrameBytes(p, sop)| >= 10
    ensures FrameBytes(p, sop)[..10]
         == [0xDE, 0xAD, 0xBE, 0xEF, (if sop then 1 else 0) + (if p.eop then 2 else 0), p.conn,
             p.channel % 65536 % 256, p.channel % 65536 / 256,
             |p.payload| % 65536 % 256, |p.payload| % 65536 / 256]
    ensures FrameBytes(p, sop)[10..] == p.payload[..|p.payload| % 65536]
  {
  }

  lemma DecodeEncode(h: Header)
    requires h.Valid()
    ensures Decode(Encode(h)) == h
  {
  }

  /** The client parses the wire back to the packets, cut to the header's
      fields, with their SOP flags. */
  lemma {:induction false} WireParses(ps: seq<Packet>)
    ensures Parse(Wire(ps)) == Cuts(ps) && Heads(Wire(ps)) == SopFlags(ps) && Rest(Wire(ps)) == []
  {
    if ps == [] {
    } else {
      var k := |ps| - 1;
      var init := ps[..k];
      assert ps == init + [ps[k]];
      var frame := FrameBytes(ps[k], SopAfter(init));
      WireParses(init);
      FrameParses(ps[k], SopAfter(init));
      ParseAppend(Wire(init), frame);
      HeadsAppend(Wire(init), frame);
      assert [] + frame == frame;
      FlagsLast(init, ps[k], ps);
      CutsLast(init, ps[k]);
    }
  }

  lemma FlagsLast(init: seq<Packet>, p: Packet, ps: seq<Packet>)
    requires ps == init + [p]
    ensures SopFlags(ps) == SopFlags(init) + [SopAfter(init)]
  {
    forall i | 0 <= i < |ps|
      ensures SopFlags(ps)[i] == (SopFlags(init) + [SopAfter(init)])[i]
    {
      assert ps[..i] == init[..i];
      assert init[..|init|] == init;
    }
  }

  /** At any moment the client has parsed a prefix of what the IP produced, cut
      to the header's fields, and at least everything marked done. */
  lemma ClientSeesPrefix(s0: State, run: seq<Step>)
    requires Initial(s0)
    ensures var s := Exec(s0, run);
            0 <= Done(s) <= |s.log| && Cuts(s.log[..Done(s)]) <= Parse(s.wire) <= Cuts(s.log)
  {
    var s := Exec(s0, run);
    ExactlyOnce(s0, run);
    var n := if Done(s) < |s.log| then Done(s) + 1 else Done(s);
    WireParses(s.log[..Done(s)]);
    WireParses(s.log[..n]);
    ParsePrefix(Wire(s.log[..Done(s)]), s.wire);
    ParsePrefix(s.wire, Wire(s.log[..n]));
    CutsPrefix(s.log, n);
  }

  lemma CutsPrefix(ps: seq<Packet>, n: nat)
    requires n <= |ps|
    ensures Cuts(ps[..n]) <= Cuts(ps)
  {
  }

  // ---------- the 16-bit length field ----------

  /** Whatever the run, the client reads a completed packet as the IP produced it
      exactly when its channel and length fit 16 bits. */
  lemma LengthFieldDecides(s0: State, run: seq<Step>, i: nat)
    requires Initial(s0) && i < Done(Exec(s0, run))
    ensures var s := Exec(s0, run);
            && Done(s) <= |s.log| && i < |Parse(s.wire)|
            && (Parse(s.wire)[i] == s.log[i] <==> Fits16(s.log[i]))
  {
    var s := Exec(s0, run);
    ClientSeesPrefix(s0, run);
    assert Parse(s.wire)[i] == Cuts(s.log[..Done(s)])[i] == Cut(s.log[i]);
    CutWhole(s.log[i]);
  }

  /** A length that is a multiple of 65536, 0 included, is never completed. */
  lemma OnlyAnnouncedDone(s0: State, run: seq<Step>)
    requires Initial(s0)
    ensures var s := Exec(s0, run);
            0 <= Done(s) <= |s.log| && forall i :: 0 <= i < Done(s) ==> |s.log[i].payload| % B16 != 0
  {
    ExecInv(s0, run);
    var s := Exec(s0, run);
    forall i | 0 <= i < Done(s)
      ensures |s.log[i].payload| % B16 != 0
    {
      assert Announced(s.log[i]);
    }
  }

  /** Such a descriptor at the head of the queue is an empty poll for ever: no
      run sends another byte or completes another packet. Any other one can be
      completed. */
  lemma CompletionDecides(s: State)
    requires s.Ok() && s.pc.Idle? && s.queue != [] && s.queue[0].where < s.c.span
    ensures (forall run :: Exec(s, run).wire == s.wire && Done(Exec(s, run)) == Done(s)) <==> s.queue[0].len % B16 == 0
  {
    LowBits(s.queue[0].len);
    if s.queue[0].len % B16 == 0 {
      forall run
        ensures Exec(s, run).wire == s.wire && Done(Exec(s, run)) == Done(s)
      {
        Stalls(s, run);
      }
    } else {
      var run := CompletingRun(s);
    }
  }

  lemma {:induction false} Stalls(s: State, run: seq<Step>)
    requires s.Ok() && s.pc.Idle? && s.queue != [] && s.queue[0].len % B16 == 0
    ensures var r := Exec(s, run);
            && r.wire == s.wire && Done(r) == Done(s) && r.count == s.count
            && r.pc.Idle? && r.queue != [] && r.queue[0] == s.queue[0]
    decreases |run|
  {
    if run == [] {
    } else {
      LowBits(s.queue[0].len);
      Stalls(Next(s, run[0]), run[1..]);
    }
  }

  lemma CompletingRun(s: State) returns (run: seq<Step>)
    requires s.Ok() && s.pc.Idle? && s.queue != [] && s.queue[0].where < s.c.span && U16(Low31(s.queue[0].len)) != 0
    ensures Done(Exec(s, run)) == Done(s) + 1
  {
    var d := s.queue[0];
    HeadAddress(s.c, d.where);
    var n := U16(Low31(d.len));
    var s2 := Next(Next(s, Acquire), Send(HEADER_BYTES));
    var s4 := Next(Next(s2, Load(n)), Send(n));
    assert s2.pc.out == [] && s4.pc.out == [];
    ExecOne(s, Acquire);
    ExecThen(s, [Acquire], Send(HEADER_BYTES));
    ExecThen(s, [Acquire] + [Send(HEADER_BYTES)], Load(n));
    ExecThen(s, [Acquire] + [Send(HEADER_BYTES)] + [Load(n)], Send(n));
    ExecThen(s, [Acquire] + [Send(HEADER_BYTES)] + [Load(n)] + [Send(n)], Complete);
    run := [Acquire] + [Send(HEADER_BYTES)] + [Load(n)] + [Send(n)] + [Complete];
  }

  // ---------- messages ----------

  /** A message is one or more packets of which exactly the last carries EOP. */
  predicate Open(m: seq<Packet>) {
    forall p :: p in m ==> !p.eop
  }

  predicate Message(m: seq<Packet>) {
    m != [] && m[|m| - 1].eop && Open(m[..|m| - 1])
  }

  predicate Messages(ms: seq<seq<Packet>>) {
    forall m :: m in ms ==> Message(m)
  }

  function Flatten(ms: seq<seq<Packet>>): seq<Packet> {
    if ms == [] then [] else Flatten(ms[..|ms| - 1]) + ms[|ms| - 1]
  }

  /** A client that opens a message at SOP and closes it at EOP; `ok` records
      that SOP came exactly when no message was open. */
  datatype Reader = Reader(done: seq<seq<Packet>>, current: seq<Packet>, ok: bool) {
    function Receive(sop: bool, p: Packet): Reader {
      var m := if sop then [p] else current + [p];
      var good := ok && sop == (current == []);
      if p.eop then Reader(done + [m], [], good) else Reader(done, m, good)
    }
  }

  function ReadAll(flags: seq<bool>, ps: seq<Packet>): Reader
    requires |flags| == |ps|
  {
    if ps == [] then Reader([], [], true)
    else
      var k := |ps| - 1;
      ReadAll(flags[..k], ps[..k]).Receive(flags[k], ps[k])
  }

  lemma ReadLast(init: seq<Packet>, p: Packet, ps: seq<Packet>)
    requires ps == init + [p]
    ensures ReadAll(SopFlags(ps), ps) == ReadAll(SopFlags(init), init).Receive(SopAfter(init), p)
  {
    FlagsLast(init, p, ps);
    assert SopFlags(ps)[..|init|] == SopFlags(init) && ps[..|init|] == init;
  }

  lemma AfterMessages(ms: seq<seq<Packet>>, t: seq<Packet>)
    requires Messages(ms) && Open(t)
    ensures SopAfter(Flatten(ms) + t) == (t == [])
  {
    if t != [] {
      assert (Flatten(ms) + t)[|Flatten(ms) + t| - 1] == t[|t| - 1] && t[|t| - 1] in t;
    } else if ms != [] {
      var m := ms[|ms| - 1];
      assert m in ms;
      assert (Flatten(ms) + t)[|Flatten(ms) + t| - 1] == m[|m| - 1];
    }
  }

  /** One more packet of the open message, which may close it. */
  lemma ReadNext(ms: seq<seq<Packet>>, t: seq<Packet>, p: Packet)
    requires Messages(ms) && Open(t)
    requires ReadAll(SopFlags(Flatten(ms) + t), Flatten(ms) + t) == Reader(ms, t, true)
    ensures var ps := Flatten(ms) + (t + [p]);
            ReadAll(SopFlags(ps), ps) == if p.eop then Reader(ms + [t + [p]], [], true) else Reader(ms, t + [p], true)
  {
    var ps := Flatten(ms) + (t + [p]);
    assert ps == (Flatten(ms) + t) + [p];
    AfterMessages(ms, t);
    ReadLast(Flatten(ms) + t, p, ps);
    assert t == [] ==> t + [p] == [p];
  }

  /** Reassembly by SOP and EOP recovers exactly the grouping into messages,
      including the open one at the end. */
  lemma {:induction false} Regroup(ms: seq<seq<Packet>>, t: seq<Packet>)
    requires Messages(ms) && Open(t)
    ensures var ps := Flatten(ms) + t;
            ReadAll(SopFlags(ps), ps) == Reader(ms, t, true)
    decreases |Flatten(ms) + t|
  {
    if ms == [] && t == [] {
    } else if t != [] {
      var init, p := t[..|t| - 1], t[|t| - 1];
      assert t == init + [p] && p in t;
      Regroup(ms, init);
      ReadNext(ms, init, p);
    } else {
      var front, m := ms[..|ms| - 1], ms[|ms| - 1];
      assert ms == front + [m] && m in ms && Message(m);
      var init, p := m[..|m| - 1], m[|m| - 1];
      assert m == init + [p];
      Regroup(front, init);
      ReadNext(front, init, p);
      assert Flatten(ms) + t == Flatten(front) + m;
    }
  }

  function CutAll(ms: seq<seq<Packet>>): (r: seq<seq<Packet>>)
    ensures |r| == |ms|
  {
    seq(|ms|, i requires 0 <= i < |ms| => Cuts(ms[i]))
  }

  lemma CutsAppend(a: seq<Packet>, b: seq<Packet>)
    ensures Cuts(a + b) == Cuts(a) + Cuts(b)
  {
  }

  /** Cutting keeps the flags, and so the grouping. */
  lemma CutsKeepFlags(ps: seq<Packet>)
    ensures SopFlags(Cuts(ps)) == SopFlags(ps)
  {
    forall i | 0 <= i < |ps|
      ensures SopFlags(Cuts(ps))[i] == SopFlags(ps)[i]
    {
      assert i > 0 ==> Cuts(ps)[..i][i - 1] == Cut(ps[i - 1]);
    }
  }

  lemma CutOpen(t: seq<Packet>)
    requires Open(t)
    ensures Open(Cuts(t))
  {
    forall p | p in Cuts(t)
      ensures !p.eop
    {
      var i :| 0 <= i < |t| && Cuts(t)[i] == p;
      assert t[i] in t;
    }
  }

  lemma CutMessages(ms: seq<seq<Packet>>)
    requires Messages(ms)
    ensures Messages(CutAll(ms))
  {
    forall m | m in CutAll(ms)
      ensures Message(m)
    {
      var i :| 0 <= i < |ms| && CutAll(ms)[i] == m;
      assert ms[i] in ms && Message(ms[i]);
      var init := ms[i][..|ms[i]| - 1];
      CutOpen(init);
      assert m[..|m| - 1] == Cuts(init);
    }
  }

  lemma {:induction false} CutFlatten(ms: seq<seq<Packet>>)
    ensures Flatten(CutAll(ms)) == Cuts(Flatten(ms))
  {
    if ms == [] {
    } else {
      var k := |ms| - 1;
      CutFlatten(ms[..k]);
      assert CutAll(ms)[..k] == CutAll(ms[..k]);
      CutsAppend(Flatten(ms[..k]), ms[k]);
    }
  }

  /** End to end: once the server is idle and nothing is queued, a client that
      reassembles the wire by SOP and EOP holds the IP's messages, each packet
      cut to the header's fields. */
  lemma MessagesRecovered(s0: State, run: seq<Step>, ms: seq<seq<Packet>>, t: seq<Packet>)
    requires Initial(s0)
    requires var s := Exec(s0, run);
             s.pc.Idle? && s.queue == [] && s.log == Flatten(ms) + t
    requires Messages(ms) && Open(t)
    ensures var w := Exec(s0, run).wire;
            && |Heads(w)| == |Parse(w)|
            && ReadAll(Heads(w), Parse(w)) == Reader(CutAll(ms), Cuts(t), true)
            && (ReadAll(Heads(w), Parse(w)) == Reader(ms, t, true) <==> AllFit(Flatten(ms) + t))
  {
    var s := Exec(s0, run);
    ExactlyOnce(s0, run);
    assert s.log[..Done(s)] == s.log;
    WireParses(s.log);
    CutsKeepFlags(s.log);
    CutFlatten(ms);
    CutsAppend(Flatten(ms), t);
    CutMessages(ms);
    CutOpen(t);
    Regroup(CutAll(ms), Cuts(t));
    WholeMessages(ms, t);
  }

  lemma WholeMessages(ms: seq<seq<Packet>>, t: seq<Packet>)
    ensures CutAll(ms) == ms && Cuts(t) == t <==> AllFit(Flatten(ms) + t)
  {
    CutFlatten(ms);
    CutsAppend(Flatten(ms), t);
    CutsWhole(Flatten(ms) + t);
    if AllFit(Flatten(ms) + t) {
      SplitEqual(Cuts(Flatten(ms)), Cuts(t), Flatten(ms), t);
      WholeGroups(ms);
    }
  }

  lemma {:induction false} WholeGroups(ms: seq<seq<Packet>>)
    requires Cuts(Flatten(ms)) == Flatten(ms)
    ensures CutAll(ms) == ms
  {
    if ms == [] {
    } else {
      var k := |ms| - 1;
      CutsAppend(Flatten(ms[..k]), ms[k]);
      SplitEqual(Cuts(Flatten(ms[..k])), Cuts(ms[k]), Flatten(ms[..k]), ms[k]);
      WholeGroups(ms[..k]);
      assert CutAll(ms) == CutAll(ms[..k]) + [Cuts(ms[k])];
      assert ms == ms[..k] + [ms[k]];
    }
  }

  lemma SplitEqual(a: seq<Packet>, b: seq<Packet>, c: seq<Packet>, d: seq<Packet>)
    requires |a| == |c| && a + b == c + d
    ensures a == c && b == d
  {
    assert (a + b)[..|a|] == a && (c + d)[..|a|] == c;
    assert (a + b)[|a|..] == b && (c + d)[|a|..] == d;
  }
}
