/** What holds in every run of the host-to-target link, lossy ones included:
    the driver never believes in more slots or space than there is, and every
    buffer it hands out fits the H2T memory. */
module H2tBounds {
  import opened Words
  import opened Circular
  import opened Allocator
  import opened DebugIp
  import opened H2tDriver
  import opened H2tLink
  import opened H2tTheorems

  /** The driver's static state against the configuration, with `live` entries
      in the chain. A chain entry may have lost its high bits, so the free space
      and the live entries are at most the span. */
  ghost predicate Balanced(c: Config, d: Driver, live: int) {
    && c.Valid() && d.Ok() && 0 <= live <= c.depth && d.slots <= c.depth
    && d.buff.rawBuff == c.base && d.buff.span == c.span
    && d.buff.writeOffset < c.span && IsWords(d.buff.writeOffset)
    && Slot(d.writeIdx) == Slot(d.readIdx + live)
    && d.buff.spaceAvailable + ChainSum(d.chain, d.readIdx, live) <= c.span
  }

  /** A buffer of `len` payload bytes inside the H2T memory, on a word boundary. */
  predicate BufferFits(c: Config, addr: nat, len: nat) {
    c.base <= addr < c.base + c.span && IsWords(addr) && Aligned(len) <= c.span
  }

  ghost predicate Sane(s: State) {
    && s.Ok()
    && Balanced(s.c, s.drv, Live(s))
    && |s.hw.queue| + (if s.pc.Pushing? then 1 else 0) <= s.c.depth - s.drv.slots
    && (s.pc.Copying? ==> BufferFits(s.c, s.pc.addr, s.Head().len) && s.drv.slots > 0)
  }

  /** What the server relies on when it asks for a buffer, and what it gets. */
  lemma SaneReady(s: State)
    requires Sane(s)
    ensures s.drv.slots <= AvailableSlots(s.c, s.hw)
    ensures s.pc.Copying? ==> BufferFits(s.c, s.pc.addr, s.Head().len)
  {
  }

  /** Without a buffer, every retirement is counted and there is still no room. */
  lemma NoBufferNoRoom(s: State, available: nat, d: Driver, addr: nat)
    requires Sane(s) && s.pc.Ready? && Polls(s.drv, available) && available <= s.c.depth
    requires (d, addr) == GetBuffer(s.drv, available, s.Head().len)
    ensures addr == 0 ==> d.slots == available && !HasRoom(d, s.Head().len)
  {
    PollBalanced(s.c, s.drv, available, Live(s));
    AddressAbove(Poll(s.drv, available).buff, s.c);
  }

  lemma AddressAbove(b: Ring, c: Config)
    requires c.Valid() && b.rawBuff == c.base && b.writeOffset < c.span
    ensures b.NextAddress() >= c.base > 0
  {
    ModSmall(b.rawBuff + b.writeOffset, B32);
  }

  lemma InitSane(s: State, waiting: bool)
    requires Initial(s, waiting)
    ensures Sane(s)
  {
    assert U16(s.c.depth) == s.c.depth;
  }

  lemma {:induction false} SumSplit(chain: seq<nat>, readIdx: nat, n: nat, m: nat)
    requires |chain| == MAX_DESCRIPTOR_DEPTH
    ensures ChainSum(chain, readIdx, n + m) == ChainSum(chain, readIdx, n) + ChainSum(chain, Slot(readIdx + n), m)
  {
    if m == 0 {
    } else {
      SumSplit(chain, readIdx, n, m - 1);
      SlotAdd(readIdx + n, m - 1);
    }
  }

  /** The next entry is none of the live ones. */
  lemma {:induction false} SumElsewhere(chain: seq<nat>, readIdx: nat, n: nat, live: nat, k: nat, v: nat)
    requires |chain| == MAX_DESCRIPTOR_DEPTH
    requires n <= live < MAX_DESCRIPTOR_DEPTH && Slot(k) == Slot(readIdx + live)
    ensures ChainSum(chain[Slot(k) := v], readIdx, n) == ChainSum(chain, readIdx, n)
  {
    if n == 0 {
    } else {
      SumElsewhere(chain, readIdx, n - 1, live, k, v);
    }
  }

  /** A poll frees no more than was live. */
  lemma PollBalanced(c: Config, d: Driver, available: nat, live: nat)
    requires Balanced(c, d, live) && d.slots <= available <= c.depth && available - d.slots <= live
    ensures Polls(d, available)
    ensures Poll(d, available).slots == available && Poll(d, available).writeIdx == d.writeIdx
    ensures Balanced(c, Poll(d, available), live - (available - d.slots))
  {
    var n := available - d.slots;
    SumSplit(d.chain, d.readIdx, n, live - n);
    SlotAdd(d.readIdx + n, live - n);
    PollValue(d, available, n);
  }

  lemma PollValue(d: Driver, available: nat, n: nat)
    requires d.Ok() && available == d.slots + n && available <= MAX_DESCRIPTOR_DEPTH
    ensures Polls(d, available)
    ensures n == 0 ==> Poll(d, available) == d
    ensures n > 0 ==>
              && Poll(d, available).slots == available
              && Poll(d, available).readIdx == Slot(U32(d.readIdx + n))
              && Slot(U32(d.readIdx + n)) == Slot(d.readIdx + n)
              && Poll(d, available).buff == d.buff.Freed(ChainSum(d.chain, d.readIdx, n))
              && Poll(d, available).chain == d.chain && Poll(d, available).writeIdx == d.writeIdx
  {
    assert U32(available - d.slots) == n && U16(d.slots + n) == available;
    var q, r := (d.readIdx + n) / B32, U32(d.readIdx + n);
    ModOf(d.readIdx + n, 128, 0x200_0000 * q + r / 128, r % 128);
  }

  lemma AllocateBalanced(c: Config, d: Driver, live: nat, sz: nat)
    requires Balanced(c, d, live) && HasRoom(d, sz) && live + d.slots <= c.depth
    ensures Balanced(c, Allocate(d, sz), live + 1)
    ensures d.buff.NextAddress() == c.base + d.buff.writeOffset && BufferFits(c, d.buff.NextAddress(), sz)
  {
    var amt := Aligned(sz);
    ChainGrows(d, live, amt);
    OffsetGrows(c, d.buff.writeOffset, amt);
  }

  lemma ChainGrows(d: Driver, live: nat, amt: nat)
    requires |d.chain| == MAX_DESCRIPTOR_DEPTH && live < MAX_DESCRIPTOR_DEPTH && Slot(d.writeIdx) == Slot(d.readIdx + live)
    ensures Slot(U16(d.writeIdx + 1)) == Slot(d.readIdx + (live + 1))
    ensures ChainSum(d.chain[Slot(d.writeIdx) := U16(amt)], d.readIdx, live + 1)
         == ChainSum(d.chain, d.readIdx, live) + U16(amt)
    ensures U16(amt) <= amt
  {
    SlotOfU16(d.writeIdx + 1);
    SlotAfter(d.writeIdx, d.readIdx + live);
    SumElsewhere(d.chain, d.readIdx, live, live, d.writeIdx, U16(amt));
  }

  lemma OffsetGrows(c: Config, off: nat, amt: nat)
    requires c.Valid() && off < c.span && IsWords(off) && IsWords(amt)
    ensures IsWords((off + amt) % c.span) && (off + amt) % c.span < c.span
    ensures U32(c.base + off) == c.base + off && IsWords(c.base + off)
  {
    AddWords(off, amt);
    AddWords(c.base, off);
    ModWord(off + amt, c.span);
    ModSmall(c.base + off, B32);
  }

  lemma SlotAfter(i: nat, j: nat)
    requires Slot(i) == Slot(j)
    ensures Slot(i + 1) == Slot(j + 1)
  {
  }

  lemma NextSane(s: State, step: Step)
    requires Sane(s)
    ensures Sane(Next(s, step))
  {
    match step
    case Alloc => AllocSane(s, Next(s, Alloc));
    case PushHowLong => PushHowLongSane(s, Next(s, PushHowLong));
    case _ =>
  }

  lemma AllocSane(s: State, r: State)
    requires Sane(s) && r == Next(s, Alloc)
    ensures Sane(r)
    ensures s.pc.Ready? ==> Polls(s.drv, AvailableSlots(s.c, s.hw))
  {
    if s.pc.Ready? {
      var available := AvailableSlots(s.c, s.hw);
      PollBalanced(s.c, s.drv, available, Live(s));
      var p := Poll(s.drv, available);
      if HasRoom(p, s.Head().len) {
        AllocateBalanced(s.c, p, |s.hw.queue|, s.Head().len);
      }
    }
  }

  lemma PushHowLongSane(s: State, r: State)
    requires Sane(s) && r == Next(s, PushHowLong)
    ensures Sane(r)
  {
    if r != s {
      HowLongStore(s.c, s.hw, HowLongWhere(s.Head().len, s.Head().Eop(), s.pc.addr));
      OneSlotLess(s, r);
    }
  }

  lemma OneSlotLess(s: State, r: State)
    requires Sane(s) && s.pc.Copying? && r.Ok() && r.hw.queue == s.hw.queue
    requires r == s.(drv := s.drv.(slots := U16(s.drv.slots - 1)), hw := r.hw, pc := Pushing(s.pc.got))
    ensures Sane(r)
  {
    ModSmall(s.drv.slots - 1, B16);
  }

  /** In every run at all: no hypothesis on what is received or lost. */
  lemma {:induction false} AlwaysSane(s: State, run: seq<Step>)
    requires Sane(s)
    ensures Sane(Exec(s, run))
    decreases |run|
  {
    if run == [] {
    } else {
      NextSane(s, run[0]);
      AlwaysSane(Next(s, run[0]), run[1..]);
    }
  }

  lemma ReachedSane(s: State, longs: nat)
    requires Reached(s, longs)
    ensures Sane(s)
  {
    var s0: State, waiting: bool, run: seq<Step> :|
      Initial(s0, waiting) && s == Exec(s0, run) && longs == Longs(s0, run);
    InitSane(s0, waiting);
    AlwaysSane(s0, run);
  }
}
