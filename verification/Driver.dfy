/** The host-to-target half of the ST Debug IP driver: static state updated in
    place, against the functions of `H2tDriver`. */
module Driver {
  import opened Words
  import opened Circular
  import opened Packets
  import opened Allocator
  import opened DebugIp
  import opened H2tDriver
  import opened Fpga

  class StDbgIp {
    const fpga: Mmio
    var slotsAvailable: nat
    const chain: array<nat>
    var writeIdx: nat
    var readIdx: nat
    const cbuff: CircleBuff

    constructor (mmio: Mmio)
      ensures fpga == mmio && fresh(chain) && fresh(cbuff) && chain.Length == MAX_DESCRIPTOR_DEPTH
    {
      fpga := mmio;
      slotsAvailable, writeIdx, readIdx := 0, 0, 0;
      chain := new nat[MAX_DESCRIPTOR_DEPTH];
      cbuff := new CircleBuff();
    }

    ghost function Value(): H2tDriver.Driver
      reads this, chain, cbuff
    {
      Driver(slotsAvailable, chain[..], writeIdx, readIdx, cbuff.Value())
    }

    ghost predicate Valid()
      reads this, fpga, chain, cbuff
    {
      fpga.Valid() && Value().Ok()
    }

    /** `init_driver` after the version check; the chain keeps its stale entries. */
    method Init()
      requires fpga.Valid() && chain.Length == MAX_DESCRIPTOR_DEPTH
      modifies this, cbuff, fpga`hw
      ensures Valid() && fpga.hw == old(fpga.hw).(queue := [], delivered := [])
      ensures Value() == InitDriver(chain[..], fpga.c.base, fpga.c.span, fpga.c.depth)
    {
      fpga.Reset();
      writeIdx := 0;
      readIdx := 0;
      ghost var hw := fpga.hw;
      ghost var k;
      var available;
      available, k := fpga.ReadAvailableSlots();
      RetireEmpty(fpga.c, hw, k);
      slotsAvailable := U16(available);
      cbuff.Init(fpga.c.base, fpga.c.span);
    }

    /** The loop of `get_h2t_buffer`. Its counter is a `char`: after 127 it becomes
        -128, which the unsigned comparison reads as a large number. */
    method BytesFreed(freed: nat) returns (bytesFreed: nat)
      requires chain.Length == MAX_DESCRIPTOR_DEPTH && freed <= MAX_DESCRIPTOR_DEPTH
      ensures bytesFreed == ChainSum(chain[..], readIdx, freed)
    {
      bytesFreed := 0;
      var i: int := 0;
      ghost var n: nat := 0;
      while U32(i) < freed
        invariant n <= freed && i == (if n < 128 then n else n - 256)
        invariant bytesFreed == ChainSum(chain[..], readIdx, n)
        decreases freed - n
      {
        assert i == n;
        bytesFreed := bytesFreed + chain[(readIdx + i) % MAX_DESCRIPTOR_DEPTH];
        i := if i == 127 then -128 else i + 1;
        n := n + 1;
      }
    }

    /** The first half of `get_h2t_buffer`: what the IP has retired is freed. */
    method FreeRetired() returns (ghost k: nat)
      requires Valid() && slotsAvailable <= AvailableSlots(fpga.c, fpga.hw)
      modifies this`slotsAvailable, this`readIdx, cbuff, fpga`hw
      ensures Valid() && fpga.hw == RetireN(fpga.c, old(fpga.hw), k)
      ensures Polls(old(Value()), AvailableSlots(fpga.c, fpga.hw))
      ensures Value() == Poll(old(Value()), AvailableSlots(fpga.c, fpga.hw))
    {
      RetireFrees(fpga.c, fpga.hw);
      var available;
      available, k := fpga.ReadAvailableSlots();
      ghost var d := Value();
      var freed := U32(available - slotsAvailable);
      ModSmall(available - slotsAvailable, B32);
      if freed > 0 { TakeBack(freed); }
      assert Value() == Poll(d, available);
    }

    /** The block under `freed_descriptor_slots > 0`. */
    method TakeBack(freed: nat)
      requires Valid() && freed <= MAX_DESCRIPTOR_DEPTH
      modifies this`slotsAvailable, this`readIdx, cbuff
      ensures Valid()
      ensures var d := old(Value());
              Value() == d.(slots := U16(d.slots + freed), readIdx := Slot(U32(d.readIdx + freed)),
                            buff := d.buff.Freed(ChainSum(d.chain, d.readIdx, freed)))
    {
      slotsAvailable := U16(slotsAvailable + freed);
      var bytesFreed := BytesFreed(freed);
      readIdx := U32(readIdx + freed) % MAX_DESCRIPTOR_DEPTH;
      cbuff.Free(bytesFreed);
    }

    /** `get_h2t_buffer` */
    method GetH2tBuffer(sz: nat) returns (result: nat, ghost k: nat)
      requires Valid() && slotsAvailable <= AvailableSlots(fpga.c, fpga.hw)
      modifies this`slotsAvailable, this`writeIdx, this`readIdx, chain, cbuff, fpga`hw
      ensures Valid() && fpga.hw == RetireN(fpga.c, old(fpga.hw), k)
      ensures Polls(old(Value()), AvailableSlots(fpga.c, fpga.hw))
      ensures (Value(), result) == GetBuffer(old(Value()), AvailableSlots(fpga.c, fpga.hw), sz)
    {
      k := FreeRetired();
      ghost var p := Value();
      result := 0;
      if slotsAvailable > 0 {
        var alignedSz := Aligned(sz);
        if cbuff.spaceAvailable >= alignedSz {
          chain[writeIdx % MAX_DESCRIPTOR_DEPTH] := U16(alignedSz);
          writeIdx := U16(writeIdx + 1);
          result := cbuff.Alloc(alignedSz);
          assert Value() == Allocate(p, sz);
        }
      }
    }

    /** `push_h2t_data` */
    method PushH2tData(header: Header, payload: nat) returns (ghost k1: nat, ghost k2: nat, ghost hw1: Hw)
      requires Valid() && header.Valid() && payload < B32
      modifies this`slotsAvailable, fpga`hw
      ensures Valid() && Value() == old(Value()).(slots := U16(old(slotsAvailable) - 1))
      ensures |hw1.mem| == fpga.c.window
      ensures hw1 == Write64(fpga.c, RetireN(fpga.c, old(fpga.hw), k1), H2T_HOW_LONG,
                             HowLongWhere(header.len, header.Eop(), payload))
      ensures fpga.hw == Write64(fpga.c, RetireN(fpga.c, hw1, k2), H2T_CONNECTION_ID,
                                 ConnChannel(header.conn, header.channel))
    {
      slotsAvailable := U16(slotsAvailable - 1);
      var lastHowlong := Low31(header.len);
      if header.Eop() {
        lastHowlong := lastHowlong + B31;
      }
      assert lastHowlong + payload * B32 == HowLongWhere(header.len, header.Eop(), payload);
      k1 := fpga.WritePair(H2T_HOW_LONG, lastHowlong + payload * B32);
      hw1 := fpga.hw;
      assert header.conn as int + header.channel * B32 == ConnChannel(header.conn, header.channel);
      k2 := fpga.WritePair(H2T_CONNECTION_ID, header.conn as int + header.channel * B32);
    }

    /** `*host_buff = fpga_read_64(fpga_buff)` */
    method ReadWord(addr: nat, buff: array<byte>, at: nat) returns (ghost k: nat)
      requires fpga.Valid() && REGISTERS_END <= addr && addr + 8 <= fpga.c.window && at + 8 <= buff.Length
      modifies buff, fpga`hw
      ensures fpga.Valid() && fpga.hw == RetireN(fpga.c, old(fpga.hw), k)
      ensures buff[..at + 8] == old(buff[..at]) + old(fpga.hw).mem[addr..addr + 8]
    {
      var v;
      v, k := fpga.Read(addr);
      WordCopies(fpga.c, fpga.hw, addr, []);
      PutWord(buff, at, ToLe(v, 8));
      assert buff[..at + 8] == buff[..at] + buff[at..at + 8];
    }

    /** `fpga_write_64(fpga_buff, *host_buff)`: one turn of the loop, after the
        halves with interruptions `ks`. */
    method CopyWord(at: nat, word: seq<byte>, ghost before: Hw, ghost addr: nat, ghost bytes: seq<byte>, ghost ks: seq<nat>)
      returns (ghost k1: nat, ghost k2: nat)
      requires fpga.Valid() && |before.mem| == fpga.c.window && at == addr + 4 * |ks|
      requires 4 * |ks| + 8 <= |bytes| && word == bytes[4 * |ks|..4 * |ks| + 8]
      requires REGISTERS_END <= addr && at + 8 <= fpga.c.window
      requires fpga.hw == CopyTo(fpga.c, before, addr, bytes, ks, |ks|)
      modifies fpga`hw
      ensures fpga.Valid() && fpga.hw == CopyTo(fpga.c, before, addr, bytes, ks + [k1] + [k2], |ks| + 2)
    {
      k1, k2 := fpga.WriteMemory(at, word);
      HalvesAt(bytes, |ks|, word);
      ghost var h1, h2 := CopyToTwo(fpga.c, before, addr, bytes, ks, ks + [k1] + [k2], |ks| + 2, old(fpga.hw));
    }

    /** `memcpy64_host2fpga`: one 64-bit store for every 8 bytes of the buffer. */
    method MemcpyHost2Fpga(buff: array<byte>, addr: nat, len: nat) returns (ghost ks: seq<nat>)
      requires fpga.Valid() && Aligned(len) <= buff.Length
      requires REGISTERS_END <= addr && addr + Aligned(len) <= fpga.c.window
      modifies fpga`hw
      ensures fpga.Valid() && 4 * |ks| == Aligned(len)
      ensures fpga.hw == CopyTo(fpga.c, old(fpga.hw), addr, buff[..Aligned(len)], ks, |ks|)
    {
      var transfers := (len + 7) / 8;
      var at: nat := addr;
      ghost var bytes := buff[..Aligned(len)];
      ks := [];
      for i := 0 to transfers
        invariant fpga.Valid() && at == addr + 8 * i && |ks| == 2 * i
        invariant fpga.hw == CopyTo(fpga.c, old(fpga.hw), addr, bytes, ks, 2 * i)
      {
        assert buff[8 * i..8 * i + 8] == bytes[8 * i..8 * i + 8];
        ghost var k1, k2 := CopyWord(at, buff[8 * i..8 * i + 8], old(fpga.hw), addr, bytes, ks);
        ks := ks + [k1] + [k2];
        at := at + 8;
      }
    }

    /** `memcpy64_fpga2host`: whole words, so up to 7 bytes past `len`. */
    method MemcpyFpga2Host(addr: nat, buff: array<byte>, len: nat) returns (ghost k: nat)
      requires fpga.Valid() && Aligned(len) <= buff.Length
      requires REGISTERS_END <= addr && addr + Aligned(len) <= fpga.c.window
      modifies buff, fpga`hw
      ensures fpga.Valid() && fpga.hw == RetireN(fpga.c, old(fpga.hw), k)
      ensures buff[..Aligned(len)] == Load(old(fpga.hw).mem, addr, Aligned(len))
    {
      var transfers := (len + 7) / 8;
      var at: nat := addr;
      ghost var mem := fpga.hw.mem;
      k := 0;
      for i := 0 to transfers
        invariant fpga.Valid() && at == addr + 8 * i
        invariant fpga.hw == RetireN(fpga.c, old(fpga.hw), k)
        invariant buff[..8 * i] == mem[addr..at]
      {
        k := LoadWord(at, buff, i, addr, old(fpga.hw), k);
        at := at + 8;
      }
    }

    /** One turn of the loop, after `k` retirements. */
    method LoadWord(at: nat, buff: array<byte>, i: nat, ghost addr: nat, ghost before: Hw, ghost k: nat)
      returns (ghost k': nat)
      requires fpga.Valid() && |before.mem| == fpga.c.window && fpga.hw == RetireN(fpga.c, before, k)
      requires REGISTERS_END <= addr && at == addr + 8 * i && at + 8 <= fpga.c.window && 8 * (i + 1) <= buff.Length
      requires buff[..8 * i] == before.mem[addr..at]
      modifies buff, fpga`hw
      ensures fpga.Valid() && fpga.hw == RetireN(fpga.c, before, k')
      ensures buff[..8 * (i + 1)] == before.mem[addr..at + 8]
    {
      ghost var more := ReadWord(at, buff, 8 * i);
      RetireAdd(fpga.c, before, k, more);
      k' := k + more;
      JoinSlices(before.mem, addr, at, at + 8);
    }
  }

  lemma {:induction false} RetireEmpty(c: Config, hw: Hw, k: nat)
    requires Fits(hw.mem, c.base, c.span) && hw.queue == []
    ensures RetireN(c, hw, k) == hw
  {
    if k == 0 {
    } else {
      RetireEmpty(c, hw, k - 1);
    }
  }

  /** Retiring only frees slots. */
  lemma RetireFrees(c: Config, hw: Hw)
    requires c.Valid() && |hw.mem| == c.window
    ensures forall k: nat :: AvailableSlots(c, hw) <= AvailableSlots(c, RetireN(c, hw, k))
  {
    forall k: nat
      ensures AvailableSlots(c, hw) <= AvailableSlots(c, RetireN(c, hw, k))
    {
      RetireShrinks(c, hw, k);
    }
  }

  lemma {:induction false} RetireShrinks(c: Config, hw: Hw, k: nat)
    requires Fits(hw.mem, c.base, c.span)
    ensures |RetireN(c, hw, k).queue| <= |hw.queue|
  {
    if k == 0 {
    } else {
      RetireShrinks(c, hw, k - 1);
    }
  }

  /** The `i`-th 32-bit word of a buffer. */
  function Half(bytes: seq<byte>, i: nat): (w: seq<byte>)
    requires 4 * (i + 1) <= |bytes|
    ensures |w| == 4
  {
    seq(4, j requires 0 <= j < 4 => bytes[4 * i + j])
  }

  /** The IP after the first `n` 32-bit words of `bytes` were stored from `addr` on,
      having retired `ks[i]` descriptors before word `i`. */
  ghost function CopyTo(c: Config, hw: Hw, addr: nat, bytes: seq<byte>, ks: seq<nat>, n: nat): (r: Hw)
    requires c.Valid() && |hw.mem| == c.window
    requires n <= |ks| && 4 * n <= |bytes| && addr + 4 * n <= c.window
    ensures |r.mem| == c.window
  {
    if n == 0 then hw
    else HalfStored(c, CopyTo(c, hw, addr, bytes, ks, n - 1), ks[n - 1], addr + 4 * (n - 1), Half(bytes, n - 1))
  }

  lemma JoinSlices(mem: Memory, a: nat, b: nat, e: nat)
    requires a <= b <= e <= |mem|
    ensures mem[a..b] + mem[b..e] == mem[a..e]
  {
  }

  lemma CopyToNext(c: Config, hw: Hw, addr: nat, bytes: seq<byte>, ks: seq<nat>, more: seq<nat>, n: nat, before: Hw)
    returns (r: Hw)
    requires c.Valid() && |hw.mem| == |before.mem| == c.window && 0 < n == |more|
    requires ks == more[..n - 1] && 4 * n <= |bytes| && addr + 4 * n <= c.window
    requires before == CopyTo(c, hw, addr, bytes, ks, n - 1)
    ensures |r.mem| == c.window && r == CopyTo(c, hw, addr, bytes, more, n)
    ensures r == HalfStored(c, before, more[n - 1], addr + 4 * (n - 1), Half(bytes, n - 1))
  {
    CopyToSame(c, hw, addr, bytes, ks, more, n - 1);
    r := HalfStored(c, before, more[n - 1], addr + 4 * (n - 1), Half(bytes, n - 1));
  }

  lemma HalvesAt(bytes: seq<byte>, n: nat, word: seq<byte>)
    requires 4 * n + 8 <= |bytes| && word == bytes[4 * n..4 * n + 8]
    ensures word[..4] == Half(bytes, n) && word[4..] == Half(bytes, n + 1)
  {
  }

  /** Storing a 64-bit word by its halves. */
  lemma CopyToTwo(c: Config, hw: Hw, addr: nat, bytes: seq<byte>, ks: seq<nat>, more: seq<nat>, n: nat, before: Hw)
    returns (h1: Hw, h2: Hw)
    requires c.Valid() && |hw.mem| == |before.mem| == c.window && n == |more| >= 2
    requires ks == more[..n - 2] && 4 * n <= |bytes| && addr + 4 * n <= c.window
    requires before == CopyTo(c, hw, addr, bytes, ks, n - 2)
    ensures |h1.mem| == |h2.mem| == c.window && h2 == CopyTo(c, hw, addr, bytes, more, n)
    ensures h1 == HalfStored(c, before, more[n - 2], addr + 4 * (n - 2), Half(bytes, n - 2))
    ensures h2 == HalfStored(c, h1, more[n - 1], addr + 4 * (n - 1), Half(bytes, n - 1))
  {
    h1 := CopyToNext(c, hw, addr, bytes, ks, more[..n - 1], n - 1, before);
    h2 := CopyToNext(c, hw, addr, bytes, more[..n - 1], more, n, h1);
  }

  lemma {:induction false} CopyToSame(c: Config, hw: Hw, addr: nat, bytes: seq<byte>, ks: seq<nat>, more: seq<nat>, n: nat)
    requires c.Valid() && |hw.mem| == c.window
    requires n <= |ks| <= |more| && 4 * n <= |bytes| && addr + 4 * n <= c.window
    requires forall i :: 0 <= i < n ==> ks[i] == more[i]
    ensures CopyTo(c, hw, addr, bytes, ks, n) == CopyTo(c, hw, addr, bytes, more, n)
    decreases n
  {
    if n == 0 {
    } else {
      CopyToSame(c, hw, addr, bytes, ks, more, n - 1);
    }
  }

  /** Retirements aside, the copy is one store of its words. */
  lemma {:induction false} CopyToStores(c: Config, hw: Hw, addr: nat, bytes: seq<byte>, ks: seq<nat>, n: nat)
    requires c.Valid() && |hw.mem| == c.window
    requires n <= |ks| && 4 * n <= |bytes| && addr + 4 * n <= c.window
    ensures CopyTo(c, hw, addr, bytes, ks, n).mem == Store(hw.mem, addr, bytes[..4 * n])
    decreases n
  {
    if n == 0 {
      assert Store(hw.mem, addr, bytes[..0]) == hw.mem;
    } else {
      CopyToStores(c, hw, addr, bytes, ks, n - 1);
      StoreHalf(hw.mem, addr, bytes, n - 1);
    }
  }

  lemma StoreHalf(mem: Memory, addr: nat, bytes: seq<byte>, n: nat)
    requires 4 * (n + 1) <= |bytes| && addr + 4 * (n + 1) <= |mem|
    ensures Store(Store(mem, addr, bytes[..4 * n]), addr + 4 * n, Half(bytes, n))
         == Store(mem, addr, bytes[..4 * (n + 1)])
  {
    StoreAppend(mem, addr, bytes[..4 * n], Half(bytes, n));
    assert bytes[..4 * n] + Half(bytes, n) == bytes[..4 * (n + 1)];
  }

  /** What the loop stored is what a later copy in the other direction loads. */
  lemma CopyToLoads(c: Config, hw: Hw, addr: nat, bytes: seq<byte>, ks: seq<nat>)
    requires c.Valid() && |hw.mem| == c.window && |bytes| == 4 * |ks| && addr + |bytes| <= c.window
    ensures Load(CopyTo(c, hw, addr, bytes, ks, |ks|).mem, addr, |bytes|) == bytes
  {
    CopyToStores(c, hw, addr, bytes, ks, |ks|);
    assert bytes[..4 * |ks|] == bytes;
  }
}
