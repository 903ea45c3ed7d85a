/** The H2T half of the driver's static state and what its two entry points
    compute, with the widths of the C variables. */
module H2tDriver {
  import opened Words
  import opened Circular
  import opened Allocator
  import opened DebugIp

  /** Slots the driver believes free, the descriptor chain and its two
      `unsigned short` indices, and the buffer allocator. */
  datatype Driver = Driver(slots: nat, chain: seq<nat>, writeIdx: nat, readIdx: nat, buff: Ring) {
    predicate Ok() { |chain| == MAX_DESCRIPTOR_DEPTH && buff.span > 0 }
  }

  /** `init_driver` leaves the old entries in the chain. */
  function InitDriver(chain: seq<nat>, base: nat, span: nat, available: nat): Driver {
    Driver(U16(available), chain, 0, 0, Ring(base, span, 0, 0, span))
  }

  /** The chain has `MAX_H2T_DESCRIPTOR_DEPTH` entries. */
  function Slot(i: nat): (r: nat)
    ensures r < MAX_DESCRIPTOR_DEPTH
  {
    i % 128
  }

  function Entry(chain: seq<nat>, i: nat): nat
    requires |chain| == MAX_DESCRIPTOR_DEPTH
  {
    chain[Slot(i)]
  }

  /** The bytes of the `n` oldest entries of the chain. */
  function ChainSum(chain: seq<nat>, readIdx: nat, n: nat): nat
    requires |chain| == MAX_DESCRIPTOR_DEPTH
  {
    if n == 0 then 0 else ChainSum(chain, readIdx, n - 1) + Entry(chain, readIdx + n - 1)
  }

  /** The hardware counter is readable as progress since the last poll: the
      unsigned difference does not underflow and the `char` loop counter lasts. */
  predicate Polls(d: Driver, available: nat) {
    d.slots <= available <= d.slots + MAX_DESCRIPTOR_DEPTH && available < B16
  }

  /** First half of `get_h2t_buffer`: free what the IP has retired. */
  function Poll(d: Driver, available: nat): (r: Driver)
    requires d.Ok() && Polls(d, available)
    ensures r.Ok()
  {
    var freed := U32(available - d.slots);
    if freed > 0 then
      d.(slots := U16(d.slots + freed),
         readIdx := Slot(U32(d.readIdx + freed)),
         buff := d.buff.Freed(ChainSum(d.chain, d.readIdx, freed)))
    else d
  }

  predicate HasRoom(d: Driver, sz: nat) {
    d.slots > 0 && d.buff.spaceAvailable >= Aligned(sz)
  }

  /** Second half of `get_h2t_buffer`: the chain entry is an `unsigned short`. */
  function Allocate(d: Driver, sz: nat): (r: Driver)
    requires d.Ok() && HasRoom(d, sz)
    ensures r.Ok()
  {
    d.(chain := d.chain[Slot(d.writeIdx) := U16(Aligned(sz))],
       writeIdx := U16(d.writeIdx + 1),
       buff := d.buff.Allocated(Aligned(sz)))
  }

  /** `get_h2t_buffer`: the new state and the buffer address, 0 for none. */
  function GetBuffer(d: Driver, available: nat, sz: nat): (r: (Driver, nat))
    requires d.Ok() && Polls(d, available)
    ensures r.0.Ok()
  {
    var p := Poll(d, available);
    if HasRoom(p, sz) then (Allocate(p, sz), p.buff.NextAddress()) else (p, 0)
  }

  /** With a free slot and enough free space after the poll, and only then, the
      packet gets the next address, one chain entry and its aligned bytes. */
  lemma GetBufferIs(d: Driver, available: nat, sz: nat)
    requires d.Ok() && Polls(d, available)
    ensures var (r, addr) := GetBuffer(d, available, sz);
            var p := Poll(d, available);
            if p.slots > 0 && p.buff.spaceAvailable >= Aligned(sz) then
              && addr == p.buff.NextAddress() && r.slots == p.slots && r.readIdx == p.readIdx
              && r.buff.spaceAvailable == p.buff.spaceAvailable - Aligned(sz)
              && r.writeIdx == (p.writeIdx + 1) % 65536 && Entry(r.chain, p.writeIdx) == Aligned(sz) % 65536
            else addr == 0 && r == p
  {
  }

  // ---------- bookkeeping against the history ----------

  /** The absolute positions at which successive allocations start and end. */
  ghost predicate Positions(pos: seq<nat>) {
    && |pos| > 0
    && (forall i, j :: 0 <= i <= j < |pos| ==> pos[i] <= pos[j])
  }

  function Size(pos: seq<nat>, i: nat): int
    requires i + 1 < |pos|
  {
    pos[i + 1] as int - pos[i] as int
  }

  function Last(pos: seq<nat>): nat
    requires |pos| > 0
  {
    pos[|pos| - 1]
  }

  /** What the 16-bit chain entries of the first `n` allocations do not record. */
  function Leaked(pos: seq<nat>, n: nat): nat
    requires n < |pos|
  {
    if n == 0 then 0 else Leaked(pos, n - 1) + Unrecorded(Size(pos, n - 1))
  }

  function Unrecorded(size: int): nat {
    if size >= 0 then size - U16(size) else 0
  }

  ghost predicate ChainHolds(chain: seq<nat>, pos: seq<nat>, freed: nat) {
    && |chain| == MAX_DESCRIPTOR_DEPTH
    && (forall i :: freed <= i < |pos| - 1 ==> Entry(chain, i) == U16(Size(pos, i)))
  }

  /** The driver state after the allocations `pos`, of which the first `pushed`
      were pushed and the first `freed` were freed. */
  ghost predicate Books(c: Config, d: Driver, pos: seq<nat>, freed: nat, pushed: nat) {
    && d.Ok() && Positions(pos)
    && freed <= pushed < |pos| <= pushed + 2
    && pushed - freed <= c.depth && |pos| - 1 - freed <= c.depth
    && d.slots == c.depth - (pushed - freed)
    && d.writeIdx == U16(|pos| - 1)
    && d.readIdx == Slot(freed)
    && ChainHolds(d.chain, pos, freed)
    && d.buff.rawBuff == c.base && d.buff.span == c.span
    && Tracks(d.buff, pos[freed], Last(pos), Leaked(pos, freed))
  }

  lemma SlotAdd(i: nat, n: nat)
    ensures Slot(Slot(i) + n) == Slot(i + n)
  {
  }

  /** The 16-bit write index wraps on a multiple of the chain length. */
  lemma SlotOfU16(n: nat)
    ensures Slot(U16(n)) == Slot(n)
    ensures U16(U16(n) + 1) == U16(n + 1)
  {
    var q, r := n / B16, U16(n);
    ModOf(n, 128, 512 * q + r / 128, r % 128);
    if r + 1 < B16 {
      ModOf(n + 1, B16, q, r + 1);
    } else {
      ModOf(n + 1, B16, q + 1, 0);
    }
  }

  lemma {:induction false} ChainSumIs(chain: seq<nat>, pos: seq<nat>, freed: nat, n: nat)
    requires ChainHolds(chain, pos, freed) && Positions(pos) && freed + n < |pos|
    ensures ChainSum(chain, Slot(freed), n) + (Leaked(pos, freed + n) - Leaked(pos, freed))
         == pos[freed + n] as int - pos[freed] as int
    ensures Leaked(pos, freed) <= Leaked(pos, freed + n)
  {
    if n == 0 {
    } else {
      ChainSumIs(chain, pos, freed, n - 1);
      SlotAdd(freed, n - 1);
      assert Entry(chain, freed + n - 1) == U16(Size(pos, freed + n - 1));
      assert pos[freed + n - 1] <= pos[freed + n];
    }
  }

  /** Polling when the IP holds all but the first `retired` descriptors never
      underflows and frees exactly the retired entries. */
  lemma PollBooks(c: Config, d: Driver, pos: seq<nat>, freed: nat, pushed: nat, retired: nat)
    requires c.Valid() && Books(c, d, pos, freed, pushed) && freed <= retired <= pushed
    ensures var available := c.depth - (pushed - retired);
            && Polls(d, available)
            && available - d.slots == retired - freed
            && Books(c, Poll(d, available), pos, retired, pushed)
  {
    var n := retired - freed;
    var available := c.depth - (pushed - retired);
    ChainSumIs(d.chain, pos, freed, n);
    assert pos[freed] <= pos[retired] <= Last(pos);
    FreeTracks(d.buff, pos[freed], Last(pos), Leaked(pos, freed),
               ChainSum(d.chain, d.readIdx, n), Leaked(pos, retired) - Leaked(pos, freed));
    PollIs(c, d, available, freed, n);
  }

  /** Free space, live entries and leaked bytes make up the span; the offsets and
      the indices agree with them. */
  lemma BooksConserve(c: Config, d: Driver, pos: seq<nat>, freed: nat, pushed: nat, live: nat)
    requires c.Valid() && Books(c, d, pos, freed, pushed) && live == |pos| - 1 - freed
    ensures d.buff.spaceAvailable + ChainSum(d.chain, d.readIdx, live) + Leaked(pos, |pos| - 1) == c.span
    ensures d.buff.writeOffset == (d.buff.readOffset + c.span - d.buff.spaceAvailable) % c.span
    ensures Slot(d.writeIdx) == Slot(d.readIdx + live)
  {
    ChainSumIs(d.chain, pos, freed, live);
    OffsetLaw(d.buff, pos[freed], Last(pos), Leaked(pos, freed));
    SlotOfU16(|pos| - 1);
    SlotAdd(freed, live);
  }

  lemma EntryFromReadIdx(chain: seq<nat>, pos: seq<nat>, freed: nat, k: nat)
    requires ChainHolds(chain, pos, freed) && freed + k < |pos| - 1
    ensures Entry(chain, Slot(freed) + k) == U16(Size(pos, freed + k))
  {
    SlotAdd(freed, k);
    assert Entry(chain, freed + k) == U16(Size(pos, freed + k));
  }

  lemma PollIs(c: Config, d: Driver, available: nat, freed: nat, n: nat)
    requires d.Ok() && available == d.slots + n && available <= MAX_DESCRIPTOR_DEPTH
    requires d.readIdx == Slot(freed)
    ensures Polls(d, available)
    ensures n == 0 ==> Poll(d, available) == d
    ensures n > 0 ==>
              Poll(d, available) ==
              d.(slots := available, readIdx := Slot(freed + n),
               buff := d.buff.Freed(ChainSum(d.chain, d.readIdx, n)))
  {
    assert U32(available - d.slots) == n && U16(d.slots + n) == available;
    assert U32(d.readIdx + n) == d.readIdx + n;
    SlotAdd(freed, n);
  }

  /** The longest payload whose aligned size fits a chain entry. */
  const MAX_ALLOCATION: nat := 65528

  /** Of a payload's buffer the chain entry records all or nothing. */
  lemma UnrecordedIs(len: nat)
    requires len < B16
    ensures Unrecorded(Aligned(len)) == if len <= MAX_ALLOCATION then 0 else B16
    ensures len > MAX_ALLOCATION ==> Aligned(len) == B16
  {
  }

  lemma {:induction false} LeakedExtends(pos: seq<nat>, end: nat, n: nat)
    requires n < |pos|
    ensures Leaked(pos + [end], n) == Leaked(pos, n)
  {
    if n == 0 {
    } else {
      LeakedExtends(pos, end, n - 1);
    }
  }

  /** Writing the next entry keeps the live ones: fewer than 128 are live. */
  lemma ChainAppend(chain: seq<nat>, pos: seq<nat>, freed: nat, amt: nat)
    requires ChainHolds(chain, pos, freed) && Positions(pos)
    requires freed < |pos| <= freed + MAX_DESCRIPTOR_DEPTH
    ensures ChainHolds(chain[Slot(|pos| - 1) := U16(amt)], pos + [Last(pos) + amt], freed)
  {
    var n := |pos| - 1;
    var p := pos + [Last(pos) + amt];
    forall i | freed <= i < |p| - 1
      ensures Entry(chain[Slot(n) := U16(amt)], i) == U16(Size(p, i))
    {
      if i < n {
        assert Slot(i) != Slot(n);
        assert Entry(chain, i) == U16(Size(pos, i)) && Size(pos, i) == Size(p, i);
      }
    }
  }

  /** An allocation keeps the books, without touching a live chain entry, and
      returns the first free byte. */
  lemma AllocateBooks(c: Config, d: Driver, pos: seq<nat>, freed: nat, pushed: nat, sz: nat)
    requires c.Valid() && Books(c, d, pos, freed, pushed) && |pos| == pushed + 1 && HasRoom(d, sz)
    ensures d.buff.NextAddress() == Address(c.base, c.span, Last(pos))
    ensures Books(c, Allocate(d, sz), pos + [Last(pos) + Aligned(sz)], freed, pushed)
  {
    var amt := Aligned(sz);
    AllocTracks(d.buff, pos[freed], Last(pos), Leaked(pos, freed), amt);
    ChainAppend(d.chain, pos, freed, amt);
    LeakedExtends(pos, Last(pos) + amt, freed);
    AllocateIs(d, sz, pushed);
  }

  lemma AllocateIs(d: Driver, sz: nat, n: nat)
    requires d.Ok() && HasRoom(d, sz) && d.writeIdx == U16(n)
    ensures Allocate(d, sz)
         == d.(chain := d.chain[Slot(n) := U16(Aligned(sz))], writeIdx := U16(n + 1),
               buff := d.buff.Allocated(Aligned(sz)))
  {
    SlotOfU16(n);
  }
}
