/** The debug IP behind its MMIO window. It may retire descriptors at every
    access the driver makes; each method reports how many it retired. */
module Fpga {
  import opened Words
  import opened Circular
  import opened DebugIp

  /** The IP after finishing `k` more descriptors. */
  function RetireN(c: Config, hw: Hw, k: nat): (r: Hw)
    requires Fits(hw.mem, c.base, c.span)
    ensures r.mem == hw.mem
  {
    if k == 0 then hw else Retire(c, RetireN(c, hw, k - 1))
  }

  lemma {:induction false} RetireAdd(c: Config, hw: Hw, k: nat, more: nat)
    requires Fits(hw.mem, c.base, c.span)
    ensures RetireN(c, RetireN(c, hw, k), more) == RetireN(c, hw, k + more)
  {
    if more == 0 {
    } else {
      RetireAdd(c, hw, k, more - 1);
    }
  }

  /** The two 32-bit stores of an emulated 64-bit store, with `k` retirements in between. */
  function TwoStores(c: Config, hw: Hw, offset: nat, v: nat, k: nat): (r: Hw)
    requires c.Valid() && |hw.mem| == c.window
    ensures |r.mem| == c.window
  {
    Write32(c, RetireN(c, Write32(c, hw, offset, U32(v)), k), offset + 4, Hi32(v))
  }

  /** One more 32-bit word, after `k` more retirements. */
  function HalfStored(c: Config, hw: Hw, k: nat, addr: nat, half: seq<byte>): (r: Hw)
    requires c.Valid() && |hw.mem| == c.window && addr + |half| <= c.window
    ensures |r.mem| == c.window
  {
    var before := RetireN(c, hw, k);
    before.(mem := Store(before.mem, addr, half))
  }

  /** An emulated or native store of a 64-bit word of memory, by its halves. */
  lemma TwoStoresAre(c: Config, hw: Hw, addr: nat, word: seq<byte>, k1: nat, k2: nat)
    requires c.Valid() && |hw.mem| == c.window && |word| == 8 && REGISTERS_END <= addr && addr + 8 <= c.window
    ensures TwoStores(c, RetireN(c, hw, k1), addr, Le(word), k2)
         == HalfStored(c, HalfStored(c, hw, k1, addr, word[..4]), k2, addr + 4, word[4..])
  {
    HalvesOf(word);
  }

  /** On a register pair the retirements might as well have come first. */
  lemma PairStored(c: Config, hw: Hw, offset: nat, v: nat, k: nat)
    requires c.Valid() && |hw.mem| == c.window && v < B64 && offset in [H2T_HOW_LONG, H2T_CONNECTION_ID]
    ensures TwoStores(c, hw, offset, v, k) == Write64(c, RetireN(c, hw, k), offset, v)
  {
    if offset == H2T_HOW_LONG {
      RetireKeepsRegisters(c, hw, U32(v), hw.conn, k);
    } else {
      RetireKeepsRegisters(c, hw, hw.howLong, U32(v), k);
    }
  }

  lemma {:induction false} RetireKeepsRegisters(c: Config, hw: Hw, howLong: nat, conn: nat, k: nat)
    requires Fits(hw.mem, c.base, c.span)
    ensures RetireN(c, hw.(howLong := howLong, conn := conn), k) == RetireN(c, hw, k).(howLong := howLong, conn := conn)
    ensures RetireN(c, hw, k) == hw.(queue := RetireN(c, hw, k).queue, delivered := RetireN(c, hw, k).delivered)
  {
    if k == 0 {
    } else {
      RetireKeepsRegisters(c, hw, howLong, conn, k - 1);
    }
  }

  class Mmio {
    const c: Config
    var hw: Hw

    /** `FPGA_PLATFORM_FORCE_64BIT_MMIO_EMULATION_WITH_32BIT` */
    const emulated: bool

    constructor (config: Config, state: Hw, emulation: bool)
      ensures c == config && hw == state && emulated == emulation
    {
      c, hw, emulated := config, state, emulation;
    }

    ghost predicate Valid()
      reads this
    {
      c.Valid() && |hw.mem| == c.window
    }

    method Interfere() returns (ghost k: nat)
      requires Valid()
      modifies this`hw
      ensures Valid() && hw == RetireN(c, old(hw), k)
    {
      k := 0;
      var n: nat :| 0 <= n;
      for i := 0 to n
        invariant Valid() && hw == RetireN(c, old(hw), k)
      {
        hw := Retire(c, hw);
        k := k + 1;
      }
    }

    /** `fpga_read_32` of the free-slot counter */
    method ReadAvailableSlots() returns (available: nat, ghost k: nat)
      requires Valid()
      modifies this`hw
      ensures Valid() && hw == RetireN(c, old(hw), k) && available == AvailableSlots(c, hw)
    {
      k := Interfere();
      available := AvailableSlots(c, hw);
    }

    /** `fpga_write_64` */
    method Write(offset: nat, v: nat) returns (ghost k1: nat, ghost k2: nat)
      requires Valid() && v < B64 && offset + 8 <= c.window
      requires offset < REGISTERS_END ==> offset + 4 < REGISTERS_END
      modifies this`hw
      ensures Valid() && hw == TwoStores(c, RetireN(c, old(hw), k1), offset, v, k2)
    {
      k1 := Interfere();
      k2 := 0;
      if emulated {
        hw := Write32(c, hw, offset, U32(v));
        k2 := Interfere();
        hw := Write32(c, hw, offset + 4, Hi32(v));
      } else {
        EmulationAgrees(c, hw, offset, v);
        hw := Write64(c, hw, offset, v);
      }
    }

    /** `fpga_write_64` to memory, from eight bytes of the host's */
    method WriteMemory(offset: nat, word: seq<byte>) returns (ghost k1: nat, ghost k2: nat)
      requires Valid() && |word| == 8 && REGISTERS_END <= offset && offset + 8 <= c.window
      modifies this`hw
      ensures Valid()
      ensures hw == HalfStored(c, HalfStored(c, old(hw), k1, offset, word[..4]), k2, offset + 4, word[4..])
    {
      HalvesOf(word);
      k1, k2 := Write(offset, Le(word));
      TwoStoresAre(c, old(hw), offset, word, k1, k2);
    }

    /** `fpga_write_64` to a register pair */
    method WritePair(offset: nat, v: nat) returns (ghost k: nat)
      requires Valid() && v < B64 && offset in [H2T_HOW_LONG, H2T_CONNECTION_ID]
      modifies this`hw
      ensures Valid() && hw == Write64(c, RetireN(c, old(hw), k), offset, v)
    {
      ghost var k1, k2 := Write(offset, v);
      PairStored(c, RetireN(c, old(hw), k1), offset, v, k2);
      RetireAdd(c, old(hw), k1, k2);
      k := k1 + k2;
    }

    /** `fpga_read_64` of memory */
    method Read(offset: nat) returns (v: nat, ghost k: nat)
      requires Valid() && REGISTERS_END <= offset && offset + 8 <= c.window
      modifies this`hw
      ensures Valid() && hw == RetireN(c, old(hw), k) && v == Read64(hw.mem, offset)
    {
      k := Interfere();
      v := Read64(hw.mem, offset);
      if emulated {
        ReadHalves(hw.mem, offset);
        v := Read32(hw.mem, offset);
        ghost var more := Interfere();
        RetireAdd(c, old(hw), k, more);
        k := k + more;
        v := v + B32 * Read32(hw.mem, offset + 4);
      }
    }

    /** `assert_h2t_t2h_reset` */
    method Reset()
      requires Valid()
      modifies this`hw
      ensures Valid() && hw == old(hw).(queue := [], delivered := [])
    {
      hw := hw.(queue := [], delivered := []);
    }
  }

  /** One `uint64_t` assignment to host memory. */
  method PutWord(buff: array<byte>, at: nat, word: seq<byte>)
    requires at + 8 <= buff.Length && |word| == 8
    modifies buff
    ensures buff[..at] == old(buff[..at])
    ensures buff[at..at + 8] == word
  {
    for j := 0 to 8
      invariant buff[..at] == old(buff[..at])
      invariant buff[at..at + j] == word[..j]
    {
      buff[at + j] := word[j];
    }
  }
}
