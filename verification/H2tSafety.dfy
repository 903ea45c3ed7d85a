/** Memory safety, progress and back-pressure of the host-to-target link. */
module H2tSafety {
  import opened Words
  import opened Circular
  import opened Packets
  import opened DebugIp
  import opened H2tDriver
  import opened H2tLink
  import opened H2tInvariant
  import opened H2tTheorems

  // ---------- regions ----------

  /** Byte `x` of the circular region whose first byte is at address `where`. */
  function ByteOf(c: Config, where: nat, x: nat): nat
    requires c.Valid() && where >= c.base
  {
    Address(c.base, c.span, where - c.base + x)
  }

  /** Address `a` belongs to the `n` bytes of the region that starts at `where`. */
  ghost predicate InRegion(c: Config, where: nat, n: nat, a: nat)
    requires c.Valid() && where >= c.base
  {
    exists x: nat :: x < n && a == ByteOf(c, where, x)
  }

  /** The region of an allocation, by absolute position. */
  lemma RegionByte(c: Config, start: nat, x: nat)
    requires c.Valid()
    ensures ByteOf(c, Address(c.base, c.span, start), x) == Address(c.base, c.span, start + x)
  {
    ModAdd(start, x, c.span);
  }

  /** The whole words of a descriptor's payload. */
  ghost predicate InPayload(c: Config, d: Descriptor, a: nat)
    requires c.Valid()
  {
    d.where >= c.base && InRegion(c, d.where, Aligned(d.len), a)
  }

  lemma RegionPosition(c: Config, start: nat, n: nat, a: nat) returns (p: nat)
    requires c.Valid() && InRegion(c, Address(c.base, c.span, start), n, a)
    ensures start <= p < start + n && a == Address(c.base, c.span, p)
  {
    var x: nat :| x < n && a == ByteOf(c, Address(c.base, c.span, start), x);
    RegionByte(c, start, x);
    p := start + x;
  }

  lemma Apart(c: Config, s1: nat, n1: nat, s2: nat, n2: nat, a: nat)
    requires c.Valid() && s1 + n1 <= s2 && s2 + n2 <= s1 + c.span
    requires InRegion(c, Address(c.base, c.span, s1), n1, a)
    ensures !InRegion(c, Address(c.base, c.span, s2), n2, a)
  {
    if InRegion(c, Address(c.base, c.span, s2), n2, a) {
      var p := RegionPosition(c, s1, n1, a);
      var q := RegionPosition(c, s2, n2, a);
      ModDistinct(p, q, c.span);
      assert false;
    }
  }

  /** No byte of memory belongs to two unretired packets. */
  lemma InFlightDisjoint(s: State, i: nat, j: nat, a: nat)
    requires Reachable(s) && i < j < |s.hw.queue|
    ensures s.Ok() && !(InPayload(s.c, s.hw.queue[i], a) && InPayload(s.c, s.hw.queue[j], a))
  {
    var longs: nat :| Reached(s, longs);
    var pos, freed := Shaped(s, longs);
    QueueApart(s.c, pos, freed, |s.hw.delivered|, s.hw.queue, i, j, a);
  }

  lemma QueueApart(c: Config, pos: seq<nat>, freed: nat, retired: nat, q: seq<Descriptor>, i: nat, j: nat, a: nat)
    requires c.Valid() && Positions(pos) && QueueNames(c, pos, retired, q) && i < j < |q|
    requires freed <= retired && retired + |q| < |pos| && Last(pos) <= pos[freed] + c.span
    ensures !(InPayload(c, q[i], a) && InPayload(c, q[j], a))
  {
    assert Names(c, pos, retired + i, q[i]) && Names(c, pos, retired + j, q[j]);
    assert pos[freed] <= pos[retired + i] && pos[retired + i + 1] <= pos[retired + j] && pos[retired + j + 1] <= Last(pos);
    if InPayload(c, q[i], a) {
      Apart(c, pos[retired + i], Aligned(q[i].len), pos[retired + j], Aligned(q[j].len), a);
    }
  }

  /** Whatever step changes a byte of memory, it is a store of the copy, and the
      byte belongs to the newly allocated region, padding and the second piece
      of a packet whose first was lost included: so to no unretired packet. */
  lemma StoreStaysInAllocation(s: State, step: Step, a: nat)
    requires Reachable(s) && s.Ok() && a < s.c.window && Next(s, step).hw.mem[a] != s.hw.mem[a]
    ensures s.pc.Copying? && s.pc.addr >= s.c.base
    ensures InRegion(s.c, s.pc.addr, Aligned(s.Head().len), a) && s.c.base <= a < s.c.base + s.c.span
    ensures forall k :: 0 <= k < |s.hw.queue| ==> !InPayload(s.c, s.hw.queue[k], a)
  {
    var longs: nat :| Reached(s, longs);
    var pos, freed := Shaped(s, longs);
    var data := OnlyStoresChangeMemory(s, step);
    StoreStays(s, pos, freed, data, a);
  }

  lemma StoreStays(s: State, pos: seq<nat>, freed: nat, data: seq<byte>, a: nat)
    requires Shape(s, pos, freed) && s.pc.Copying? && a < s.c.window
    requires Next(s, StoreBytes(data)) != s && Next(s, StoreBytes(data)).hw.mem[a] != s.hw.mem[a]
    ensures s.pc.addr >= s.c.base
    ensures InRegion(s.c, s.pc.addr, Aligned(s.Head().len), a) && s.c.base <= a < s.c.base + s.c.span
    ensures forall k :: 0 <= k < |s.hw.queue| ==> !InPayload(s.c, s.hw.queue[k], a)
  {
    var n, start := Aligned(s.Head().len), pos[|pos| - 2];
    var m := NextStore(s, pos, freed, data);
    NewestFits(s, pos, freed);
    ChangedInRegion(s.c, s.hw.mem, start, s.SourceAt() + s.SourceStored(), data, n, a);
    NewestApart(s.c, pos, freed, |s.hw.delivered|, s.hw.queue, start, n, a);
  }

  lemma OnlyStoresChangeMemory(s: State, step: Step) returns (data: seq<byte>)
    requires s.Ok() && Next(s, step).hw.mem != s.hw.mem
    ensures s.pc.Copying? && step == StoreBytes(data) && Next(s, step) != s
  {
    data := if step.StoreBytes? then step.data else [];
  }

  lemma NewestApart(c: Config, pos: seq<nat>, freed: nat, retired: nat, q: seq<Descriptor>, start: nat, n: nat, a: nat)
    requires c.Valid() && Positions(pos) && QueueNames(c, pos, retired, q)
    requires freed <= retired && retired + |q| < |pos| && pos[retired + |q|] <= start && start + n <= pos[freed] + c.span
    requires InRegion(c, Address(c.base, c.span, start), n, a)
    ensures forall k :: 0 <= k < |q| ==> !InPayload(c, q[k], a)
  {
    forall k | 0 <= k < |q|
      ensures !InPayload(c, q[k], a)
    {
      assert Names(c, pos, retired + k, q[k]);
      assert pos[freed] <= pos[retired + k] && pos[retired + k + 1] <= pos[retired + |q|];
      if InPayload(c, q[k], a) {
        Apart(c, pos[retired + k], Aligned(q[k].len), start, n, a);
      }
    }
  }

  lemma ChangedInRegion(c: Config, mem: Memory, start: nat, k: nat, data: seq<byte>, n: nat, a: nat)
    requires c.Valid() && |mem| == c.window && k + |data| <= n && |data| <= c.span
    requires a < |mem| && Write(mem, c.base, c.span, start + k, data)[a] != mem[a]
    ensures InRegion(c, Address(c.base, c.span, start), n, a) && c.base <= a < c.base + c.span
  {
    var x := ChangedAt(c, mem, start + k, data, a);
    RegionByte(c, start, k + x);
    assert ByteOf(c, Address(c.base, c.span, start), k + x) == a;
  }

  lemma ChangedAt(c: Config, mem: Memory, start: nat, data: seq<byte>, a: nat) returns (x: nat)
    requires c.Valid() && |mem| == c.window && |data| <= c.span
    requires a < |mem| && Write(mem, c.base, c.span, start, data)[a] != mem[a]
    ensures x < |data| && Address(c.base, c.span, start + x) == a
  {
    WriteIs(mem, c.base, c.span, start, data, a);
    x := Round(a - c.base, Address(0, c.span, start), c.span);
    Distance(start, a - c.base, c.span);
    ReachByte(start, a - c.base, c.span);
  }

  lemma ReachByte(start: nat, a: nat, span: nat)
    requires a < span
    ensures (start + (a - start) % span) % span == a
  {
    var q := (a - start) / span;
    assert start + (a - start) % span == a - q * span;
    assert a + (-q) * span == a - q * span;
    ModShift(a, -q, span);
    ModSmall(a, span);
  }

  /** Nothing outside the H2T memory is ever written, in any run at all. */
  lemma {:induction false} OutsideUntouched(s: State, run: seq<Step>, a: nat)
    requires s.Ok() && a < s.c.window && !(s.c.base <= a < s.c.base + s.c.span)
    ensures Exec(s, run).hw.mem[a] == s.hw.mem[a]
    decreases |run|
  {
    if run == [] {
    } else {
      OutsideUntouched(Next(s, run[0]), run[1..], a);
    }
  }

  // ---------- progress ----------

  function Retires(run: seq<Step>): nat {
    if run == [] then 0 else (if run[0].Retire? then 1 else 0) + Retires(run[1..])
  }

  /** The bytes that the chain entries of unretired packets record. */
  function InUse(q: seq<Descriptor>): nat {
    if q == [] then 0 else InUse(q[..|q| - 1]) + U16(Aligned(q[|q| - 1].len))
  }

  /** There is a free descriptor, and room beside the unretired packets and the
      65536 bytes that each long payload has cost. */
  predicate RoomNow(s: State, longs: nat)
    requires s.Ok()
  {
    |s.hw.queue| < s.c.depth && Aligned(s.Head().len) + InUse(s.hw.queue) + B16 * longs <= s.c.span
  }

  lemma {:induction false} InUseIs(chain: seq<nat>, readIdx: nat, q: seq<Descriptor>)
    requires |chain| == MAX_DESCRIPTOR_DEPTH
    requires forall k :: 0 <= k < |q| ==> Entry(chain, readIdx + k) == U16(Aligned(q[k].len))
    ensures ChainSum(chain, readIdx, |q|) == InUse(q)
  {
    if q == [] {
    } else {
      var k := |q| - 1;
      InUseIs(chain, readIdx, q[..k]);
      assert Entry(chain, readIdx + k) == U16(Aligned(q[k].len));
    }
  }

  /** After a poll the driver's own numbers are those of the IP. */
  lemma PolledRoom(s: State, longs: nat, p: Driver)
    requires Reached(s, longs) && s.Ok() && s.pc.Ready? && Polls(s.drv, AvailableSlots(s.c, s.hw))
    requires p == Poll(s.drv, AvailableSlots(s.c, s.hw))
    ensures HasRoom(p, s.Head().len) <==> RoomNow(s, longs)
    ensures HasRoom(p, s.Head().len) ==> p.buff.NextAddress() != 0
  {
    PollFreesRetired(s, longs, p);
    InUseIs(p.chain, p.readIdx, s.hw.queue);
    var pos, freed := Shaped(s, longs);
    PollShape(s, pos, freed, p);
    if HasRoom(p, s.Head().len) { RoomAddress(s.c, p, pos, |s.hw.delivered|, Pushed(s), s.Head().len); }
  }

  /** Whatever is in flight, a poll accepts the packet exactly when there is a
      free descriptor and room for it. */
  lemma AcceptedNow(s: State, longs: nat)
    requires Reached(s, longs) && s.Ok() && s.pc.Ready?
    ensures Next(s, Alloc).count == s.count + 1 <==> RoomNow(s, longs)
    ensures Next(s, Alloc).count == s.count + 1 <==> Next(s, Alloc).pc.Copying?
  {
    SlotAccounting(s);
    PolledRoom(s, longs, Poll(s.drv, AvailableSlots(s.c, s.hw)));
  }

  /** A driver that has counted every retirement and sees no room is right. */
  lemma WaitsFull(s: State, longs: nat)
    requires Reached(s, longs) && s.Ok() && s.pc.Ready?
    requires s.drv.slots == AvailableSlots(s.c, s.hw) && !HasRoom(s.drv, s.Head().len)
    ensures !RoomNow(s, longs)
  {
    SlotAccounting(s);
    assert Poll(s.drv, AvailableSlots(s.c, s.hw)) == s.drv;
    PolledRoom(s, longs, s.drv);
  }

  /** A header waits for which there is no room. */
  predicate Blocked(s: State, longs: nat)
    requires s.Ok()
  {
    s.pc.Ready? && s.waiting && !RoomNow(s, longs)
  }

  /** Some state of the run was blocked. */
  predicate WasBlocked(s: State, longs: nat, run: seq<Step>)
    requires s.Ok()
    decreases |run|
  {
    Blocked(s, longs) || (run != [] && WasBlocked(Next(s, run[0]), NextLongs(s, longs, run[0]), run[1..]))
  }

  function NextLongs(s: State, longs: nat, step: Step): nat
    requires s.Ok()
  {
    longs + if Long(s, step) then 1 else 0
  }

  lemma {:induction false} StillBlocked(s: State, longs: nat, run: seq<Step>, more: seq<Step>)
    requires s.Ok() && WasBlocked(s, longs, run)
    ensures WasBlocked(s, longs, run + more)
    decreases |run|
  {
    if Blocked(s, longs) {
    } else {
      assert (run + more)[1..] == run[1..] + more;
      StillBlocked(Next(s, run[0]), NextLongs(s, longs, run[0]), run[1..], more);
    }
  }

  lemma {:induction false} EndsBlocked(s: State, longs: nat, run: seq<Step>)
    requires s.Ok() && Blocked(Exec(s, run), longs + Longs(s, run))
    ensures WasBlocked(s, longs, run)
    decreases |run|
  {
    if run == [] {
    } else {
      EndsBlocked(Next(s, run[0]), NextLongs(s, longs, run[0]), run[1..]);
    }
  }

  /** The run continues with a round that counts no packet. */
  lemma RoundBlocked(s: State, run: seq<Step>, more: seq<Step>, mid: State, r: State)
    requires s.Ok() && mid == Exec(s, run) && r == Exec(mid, more) && r.count == mid.count
    requires Blocked(r, Longs(s, run))
    ensures WasBlocked(s, 0, run + more) && Longs(s, run + more) == Longs(s, run)
  {
    NoLongs(mid, more);
    LongsAppend(s, run, more);
    ExecAppend(s, run, more);
    EndsBlocked(s, 0, run + more);
  }

  /** A run that accepts no packet accepts no long one. */
  lemma {:induction false} NoLongs(s: State, run: seq<Step>)
    requires s.Ok() && Exec(s, run).count == s.count
    ensures Longs(s, run) == 0
    decreases |run|
  {
    if run == [] {
    } else {
      CountGrows(Next(s, run[0]), run[1..]);
      StepCount(s, run[0]);
      NoLongs(Next(s, run[0]), run[1..]);
    }
  }

  /** The packet fits what long payloads have left of the memory. */
  predicate Servable(s: State, longs: nat)
    requires s.Ok()
  {
    s.c.depth > 0 && Aligned(s.Head().len) + B16 * longs <= s.c.span
  }

  /** With an empty queue the next poll accepts a packet exactly when it fits:
      nothing but the chain entries of long payloads has leaked. */
  lemma EmptyQueueAccepts(s: State, longs: nat)
    requires Reached(s, longs) && s.Ok() && s.pc.Ready? && s.hw.queue == []
    ensures Next(s, Alloc).count == s.count + 1 <==> Servable(s, longs)
    ensures Next(s, Alloc).count == s.count + 1 <==> Next(s, Alloc).pc.Copying?
  {
    var pos, freed := Shaped(s, longs);
    EmptyShapeAccepts(s, pos, freed, longs);
  }

  lemma EmptyShapeAccepts(s: State, pos: seq<nat>, freed: nat, longs: nat)
    requires Shape(s, pos, freed) && s.pc.Ready? && s.hw.queue == [] && Leaked(pos, |pos| - 1) == B16 * longs
    ensures Next(s, Alloc).count == s.count + 1 <==> Servable(s, longs)
    ensures Next(s, Alloc).count == s.count + 1 <==> Next(s, Alloc).pc.Copying?
  {
    PollShape(s, pos, freed, Poll(s.drv, AvailableSlots(s.c, s.hw)));
    EmptyHasRoom(s.c, Poll(s.drv, AvailableSlots(s.c, s.hw)), pos, |s.hw.delivered|, s.Head().len);
  }

  lemma EmptyHasRoom(c: Config, p: Driver, pos: seq<nat>, freed: nat, len: nat)
    requires c.Valid() && Books(c, p, pos, freed, freed) && |pos| == freed + 1
    ensures HasRoom(p, len) <==> c.depth > 0 && Aligned(len) + Leaked(pos, freed) <= c.span
    ensures HasRoom(p, len) ==> p.buff.NextAddress() != 0
  {
    if HasRoom(p, len) { RoomAddress(c, p, pos, freed, freed, len); }
  }

  lemma {:induction false} CountGrows(s: State, run: seq<Step>)
    requires s.Ok()
    ensures s.count <= Exec(s, run).count
    decreases |run|
  {
    if run == [] {
    } else {
      CountGrows(Next(s, run[0]), run[1..]);
    }
  }

  /** One step while a packet waits: it is accepted, or nothing of it changes
      and at most a descriptor is retired. */
  lemma ReadyStep(s: State, step: Step, r: State)
    requires s.Ok() && s.pc.Ready? && r == Next(s, step)
    ensures r.count == s.count ==>
              && r.pc.Ready? && r.rx == s.rx && r.hdr == s.hdr
              && r.hw.delivered + InFlight(r) == s.hw.delivered + InFlight(s)
              && |r.hw.queue| == if step.Retire? && s.hw.queue != [] then |s.hw.queue| - 1 else |s.hw.queue|
  {
    if step.Retire? && s.hw.queue != [] {
      FetchFirst(s.c, s.hw.mem, s.hw.queue);
    } else if r.count == s.count {
      assert r.hw == s.hw;
    }
  }

  /** Waiting keeps the shape, whatever the length of the waiting packet. */
  lemma WaitingShape(s: State, pos: seq<nat>, freed: nat, step: Step)
    requires Shape(s, pos, freed) && s.pc.Ready? && Next(s, step).count == s.count
    ensures Shape(Next(s, step), pos, NextFreed(s, freed, step))
  {
    NextShape(s, pos, freed, step);
  }

  /** A waiting packet is accepted by the poll that follows as many retirements
      as there were unretired descriptors, whatever else happens, exactly when
      it fits. */
  lemma WaitingIsServed(s: State, longs: nat, run: seq<Step>)
    requires Reached(s, longs) && s.Ok() && s.pc.Ready? && Retires(run) >= |s.hw.queue|
    ensures Exec(s, run + [Alloc]).count > s.count <==> Servable(s, longs)
  {
    if Servable(s, longs) {
      var pos, freed := Shaped(s, longs);
      FittingIsServed(s, pos, freed, longs, run);
    } else {
      NeverServed(s, longs, run + [Alloc]);
    }
  }

  lemma {:induction false} FittingIsServed(s: State, pos: seq<nat>, freed: nat, longs: nat, run: seq<Step>)
    requires Shape(s, pos, freed) && s.pc.Ready? && Retires(run) >= |s.hw.queue|
    requires Leaked(pos, |pos| - 1) == B16 * longs && Servable(s, longs)
    ensures Exec(s, run + [Alloc]).count > s.count
    decreases |run|
  {
    if run == [] {
      assert run + [Alloc] == [Alloc];
      ExecOne(s, Alloc);
      EmptyShapeAccepts(s, pos, freed, longs);
    } else {
      var s1 := Next(s, run[0]);
      assert (run + [Alloc])[1..] == run[1..] + [Alloc];
      CountGrows(s1, run[1..] + [Alloc]);
      StepCount(s, run[0]);
      if s1.count == s.count {
        ReadyStep(s, run[0], s1);
        WaitingShape(s, pos, freed, run[0]);
        FittingIsServed(s1, pos, NextFreed(s, freed, run[0]), longs, run[1..]);
      }
    }
  }

  /** A packet that does not fit, or any packet for an IP without descriptors,
      blocks the session for ever. */
  lemma NeverServed(s: State, longs: nat, run: seq<Step>)
    requires Reached(s, longs) && s.Ok() && s.pc.Ready? && !Servable(s, longs)
    ensures var r := Exec(s, run);
            r.pc.Ready? && r.count == s.count && r.hdr == s.hdr && r.rx == s.rx
  {
    var pos, freed := Shaped(s, longs);
    StaysBlocked(s, pos, freed, longs, run);
  }

  lemma {:induction false} StaysBlocked(s: State, pos: seq<nat>, freed: nat, longs: nat, run: seq<Step>)
    requires Shape(s, pos, freed) && s.pc.Ready? && Leaked(pos, |pos| - 1) == B16 * longs && !Servable(s, longs)
    ensures var r := Exec(s, run);
            r.pc.Ready? && r.count == s.count && r.hdr == s.hdr && r.rx == s.rx
    decreases |run|
  {
    if run == [] {
    } else {
      var s1 := Next(s, run[0]);
      BlockedStep(s, pos, freed, longs, run[0], s1);
      StaysBlocked(s1, pos, NextFreed(s, freed, run[0]), longs, run[1..]);
    }
  }

  lemma BlockedStep(s: State, pos: seq<nat>, freed: nat, longs: nat, step: Step, r: State)
    requires Shape(s, pos, freed) && s.pc.Ready? && Leaked(pos, |pos| - 1) == B16 * longs && !Servable(s, longs)
    requires r == Next(s, step)
    ensures Shape(r, pos, NextFreed(s, freed, step))
    ensures r.pc.Ready? && r.count == s.count && r.hdr == s.hdr && r.rx == s.rx
  {
    if step.Alloc? {
      var p := Poll(s.drv, AvailableSlots(s.c, s.hw));
      PollShape(s, pos, freed, p);
      NoRoomLeft(s.c, p, pos, |s.hw.delivered|, Pushed(s), s.Head().len);
    }
    NextShape(s, pos, freed, step);
  }

  /** What the chain does not record is missing from the free space for good. */
  lemma NoRoomLeft(c: Config, p: Driver, pos: seq<nat>, freed: nat, pushed: nat, len: nat)
    requires c.Valid() && Books(c, p, pos, freed, pushed)
    requires c.depth == 0 || Aligned(len) + Leaked(pos, |pos| - 1) > c.span
    ensures !HasRoom(p, len)
  {
    BooksConserve(c, p, pos, freed, pushed, |pos| - 1 - freed);
  }

  lemma StepCount(s: State, step: Step)
    requires s.Ok()
    ensures Next(s, step).count >= s.count
  {
  }

  /** Some run accepts the waiting packet exactly when it fits. */
  lemma AcceptanceDecides(s: State, longs: nat)
    requires Reached(s, longs) && s.Ok() && s.pc.Ready?
    ensures (exists run :: Exec(s, run).count > s.count) <==> Servable(s, longs)
  {
    if Servable(s, longs) {
      var run := seq(|s.hw.queue|, i => Retire);
      AllRetire(run);
      WaitingIsServed(s, longs, run);
    } else {
      forall run: seq<Step>
        ensures Exec(s, run).count == s.count
      {
        NeverServed(s, longs, run);
      }
    }
  }

  lemma {:induction false} AllRetire(run: seq<Step>)
    requires forall i :: 0 <= i < |run| ==> run[i].Retire?
    ensures Retires(run) == |run|
  {
    if run == [] {
    } else {
      AllRetire(run[1..]);
    }
  }

  // ---------- back-pressure ----------

  /** Until the held packet is accepted no byte is consumed, the header stays,
      and what was accepted before stays in order: in any state and any run. */
  lemma {:induction false} BackPressure(s: State, run: seq<Step>)
    requires s.Ok() && s.pc.Ready? && Exec(s, run).count == s.count
    ensures var r := Exec(s, run);
            && r.pc.Ready? && r.rx == s.rx && r.hdr == s.hdr
            && r.hw.delivered + InFlight(r) == s.hw.delivered + InFlight(s)
    decreases |run|
  {
    if run == [] {
    } else {
      var s1 := Next(s, run[0]);
      CountGrows(s1, run[1..]);
      StepCount(s, run[0]);
      ReadyStep(s, run[0], s1);
      BackPressure(s1, run[1..]);
    }
  }

  function WireBytes(ps: seq<Packet>): nat {
    if ps == [] then 0 else HEADER_BYTES + |ps[0].payload| + WireBytes(ps[1..])
  }

  lemma {:induction false} ParsedBytes(s: seq<byte>)
    ensures |s| == WireBytes(Parse(s)) + |Rest(s)|
    decreases |s|
  {
    if !HasPacket(s) {
    } else {
      ParsedBytes(s[FirstLen(s)..]);
    }
  }

  /** `h2t_cnt` is the number of accepted packets, and a packet waits only with
      its header complete, whatever was lost. */
  lemma PacketsCounted(s: State)
    requires Reachable(s)
    ensures s.Ok()
    ensures s.count == |s.hw.delivered| + |s.hw.queue| + (if s.pc.Copying? || s.pc.Pushing? then 1 else 0)
    ensures s.waiting ==> s.pc.Ready?
  {
    var longs: nat :| Reached(s, longs);
    var pos, freed := Shaped(s, longs);
  }

  /** Without losses each accepted packet has consumed one header and its
      payload, however often it was retried. */
  lemma BytesAccounted(s: State)
    requires Lossless(s)
    ensures s.Ok()
    ensures !s.pc.Closed? ==> |s.rx| == WireBytes(s.hw.delivered + InFlight(s)) + |Partial(s)|
  {
    var h := Remember(s);
    ParsedBytes(h.done);
  }
}
