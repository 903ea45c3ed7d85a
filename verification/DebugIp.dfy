/** The debug IP as the driver sees it: 32-bit registers and the H2T memory
    behind one MMIO window. */
module DebugIp {
  import opened Words
  import opened Circular
  import opened Packets

  const H2T_HOW_LONG: nat := 0x108
  const H2T_WHERE: nat := 0x10C
  const H2T_CONNECTION_ID: nat := 0x110
  const H2T_CHANNEL_ID_PUSH: nat := 0x114

  /** Every register lies below the lowest memory base. */
  const REGISTERS_END: nat := 0x800

  const MAX_DESCRIPTOR_DEPTH: nat := 128

  /** A descriptor the IP has accepted. */
  datatype Descriptor = Descriptor(len: nat, last: bool, where: nat, conn: nat, channel: nat)

  /** Where the H2T memory is and how many descriptors the IP holds. */
  datatype Config = Config(base: nat, span: nat, depth: nat, window: nat) {
    predicate Valid() {
      && span > 0 && IsWords(span) && IsWords(base)
      && REGISTERS_END <= base && base + span <= window && base + span <= B31
      && depth <= MAX_DESCRIPTOR_DEPTH
    }
  }

  /** The H2T half of the IP: its memory window, the descriptor registers, the
      descriptors it has not retired, and the packets it has read. */
  datatype Hw = Hw(mem: Memory, howLong: nat, where: nat, conn: nat,
                   queue: seq<Descriptor>, delivered: seq<Packet>)

  function AvailableSlots(c: Config, hw: Hw): nat {
    if |hw.queue| <= c.depth then c.depth - |hw.queue| else 0
  }

  /** The descriptor in the registers is pushed; beyond the descriptor memory it is lost. */
  function Push(c: Config, hw: Hw, channel: nat): (r: Hw)
    ensures r.mem == hw.mem
  {
    if |hw.queue| < c.depth
    then hw.(queue := hw.queue + [Descriptor(Low31(hw.howLong), Bit31(hw.howLong), hw.where, hw.conn, channel)])
    else hw
  }

  /** One 32-bit store. The store to the last register pushes. */
  function Write32(c: Config, hw: Hw, offset: nat, v: nat): (r: Hw)
    ensures |r.mem| == |hw.mem|
  {
    if offset == H2T_HOW_LONG then hw.(howLong := v)
    else if offset == H2T_WHERE then hw.(where := v)
    else if offset == H2T_CONNECTION_ID then hw.(conn := v)
    else if offset == H2T_CHANNEL_ID_PUSH then Push(c, hw, v)
    else if REGISTERS_END <= offset && offset + 4 <= |hw.mem| then hw.(mem := Store(hw.mem, offset, ToLe(v, 4)))
    else hw
  }

  /** What a 64-bit store to `offset` leaves in register `reg`. */
  function Lane(offset: nat, v: nat, reg: nat, current: nat): nat {
    if offset == reg then U32(v) else if offset + 4 == reg then Hi32(v) else current
  }

  /** A native 64-bit store: one burst to memory, or both registers of a pair at
      once, before anything is pushed. */
  function Write64(c: Config, hw: Hw, offset: nat, v: nat): (r: Hw)
    ensures |r.mem| == |hw.mem|
  {
    if offset < REGISTERS_END
    then
      var regs := hw.(howLong := Lane(offset, v, H2T_HOW_LONG, hw.howLong),
                      where := Lane(offset, v, H2T_WHERE, hw.where),
                      conn := Lane(offset, v, H2T_CONNECTION_ID, hw.conn));
      if offset == H2T_CHANNEL_ID_PUSH || offset + 4 == H2T_CHANNEL_ID_PUSH
      then Push(c, regs, Lane(offset, v, H2T_CHANNEL_ID_PUSH, 0))
      else regs
    else if offset + 8 <= |hw.mem| then hw.(mem := Store(hw.mem, offset, ToLe(v, 8)))
    else hw
  }

  lemma HowLongStore(c: Config, hw: Hw, v: nat)
    ensures Write64(c, hw, H2T_HOW_LONG, v) == hw.(howLong := U32(v), where := Hi32(v))
  {
  }

  /** The bridge's form: two 32-bit stores, low half first. */
  function EmulatedWrite64(c: Config, hw: Hw, offset: nat, v: nat): Hw {
    Write32(c, Write32(c, hw, offset, U32(v)), offset + 4, Hi32(v))
  }

  /** One iteration of the copy loops: a word of memory, byte for byte. */
  lemma WordCopies(c: Config, hw: Hw, offset: nat, bytes: seq<byte>)
    requires REGISTERS_END <= offset && offset + 8 <= |hw.mem|
    ensures |bytes| == 8 ==> Write64(c, hw, offset, Le(bytes)) == hw.(mem := Store(hw.mem, offset, bytes))
    ensures ToLe(Read64(hw.mem, offset), 8) == Load(hw.mem, offset, 8)
  {
    if |bytes| == 8 { ToLeLe(bytes); }
    ToLeLe(Load(hw.mem, offset, 8));
  }

  function Read32(mem: Memory, offset: nat): nat
    requires offset + 4 <= |mem|
  {
    Le(Load(mem, offset, 4))
  }

  function Read64(mem: Memory, offset: nat): nat
    requires offset + 8 <= |mem|
  {
    Le(Load(mem, offset, 8))
  }

  function EmulatedRead64(mem: Memory, offset: nat): nat
    requires offset + 8 <= |mem|
  {
    Read32(mem, offset) + B32 * Read32(mem, offset + 4)
  }

  /** The two forms of a 64-bit store agree on registers and on memory; the two
      forms of a load agree on memory. */
  lemma EmulationAgrees(c: Config, hw: Hw, offset: nat, v: nat)
    requires v < B64 && offset + 8 <= |hw.mem|
    requires offset < REGISTERS_END ==> offset + 4 < REGISTERS_END
    ensures EmulatedWrite64(c, hw, offset, v) == Write64(c, hw, offset, v)
    ensures EmulatedRead64(hw.mem, offset) == Read64(hw.mem, offset)
  {
    Ranges();
    if offset >= REGISTERS_END { StoreHalves(hw.mem, offset, U32(v), Hi32(v), 4, 4); }
    ReadHalves(hw.mem, offset);
  }

  lemma ReadHalves(mem: Memory, offset: nat)
    requires offset + 8 <= |mem|
    ensures Read64(mem, offset) == EmulatedRead64(mem, offset)
  {
    Ranges();
    var a, b := Load(mem, offset, 4), Load(mem, offset + 4, 4);
    assert Load(mem, offset, 8) == a + b;
    LeAppend(a, b);
  }

  lemma StoreHalves(mem: Memory, offset: nat, lo: nat, hi: nat, m: nat, n: nat)
    requires lo < Range(m) && offset + m + n <= |mem|
    ensures Store(Store(mem, offset, ToLe(lo, m)), offset + m, ToLe(hi, n))
         == Store(mem, offset, ToLe(lo + hi * Range(m), m + n))
  {
    ToLeSplit(lo, hi, m, n);
    StoreAppend(mem, offset, ToLe(lo, m), ToLe(hi, n));
  }

  lemma StoreAppend(mem: Memory, offset: nat, a: seq<byte>, b: seq<byte>)
    requires offset + |a| + |b| <= |mem|
    ensures Store(Store(mem, offset, a), offset + |a|, b) == Store(mem, offset, a + b)
  {
  }

  /** The two halves of a 64-bit word of bytes. */
  lemma HalvesOf(b: seq<byte>)
    requires |b| == 8
    ensures Le(b) < B64 && ToLe(U32(Le(b)), 4) == b[..4] && ToLe(Hi32(Le(b)), 4) == b[4..]
  {
    Ranges();
    LeBound(b);
    LeBound(b[..4]);
    assert b == b[..4] + b[4..];
    LeAppend(b[..4], b[4..]);
    ModOf(Le(b), B32, Le(b[4..]), Le(b[..4]));
    ToLeLe(b[..4]);
    ToLeLe(b[4..]);
  }

  lemma {:induction false} LeAppend(a: seq<byte>, b: seq<byte>)
    ensures Le(a + b) == Le(a) + Range(|a|) * Le(b)
  {
    if a == [] {
      assert a + b == b;
    } else {
      assert (a + b)[1..] == a[1..] + b;
      LeAppend(a[1..], b);
      assert 256 * (Range(|a| - 1) * Le(b)) == Range(|a|) * Le(b);
    }
  }

  /** The word pair `push_h2t_data` writes. */
  function HowLongWhere(len: nat, eop: bool, payload: nat): nat {
    Low31(len) + (if eop then B31 else 0) + payload * B32
  }

  function ConnChannel(conn: byte, channel: nat): nat { conn as int + channel * B32 }

  /** The IP reads back every field of the pushed words. */
  lemma PushRoundTrip(c: Config, hw: Hw, h: Header, payload: nat)
    requires h.Valid() && payload < B32 && |hw.queue| < c.depth
    ensures var hw1 := Write64(c, hw, H2T_HOW_LONG, HowLongWhere(h.len, h.Eop(), payload));
            var hw2 := Write64(c, hw1, H2T_CONNECTION_ID, ConnChannel(h.conn, h.channel));
            && hw1.queue == hw.queue && hw1.mem == hw2.mem == hw.mem
            && hw1.delivered == hw2.delivered == hw.delivered
            && hw2.queue == hw.queue + [Descriptor(h.len, h.Eop(), payload, h.conn, h.channel)]
  {
    var low := h.len + if h.Eop() then B31 else 0;
    ModOf(HowLongWhere(h.len, h.Eop(), payload), B32, payload, low);
    ModOf(ConnChannel(h.conn, h.channel), B32, h.channel, h.conn);
    ModOf(low, B31, if h.Eop() then 1 else 0, h.len);
  }

  /** The two register stores of a push in plain numbers. */
  lemma PushedWords(h: Header, payload: nat)
    requires h.Valid()
    ensures H2T_HOW_LONG == 0x108 && H2T_WHERE == 0x10C && H2T_CONNECTION_ID == 0x110 && H2T_CHANNEL_ID_PUSH == 0x114
    ensures HowLongWhere(h.len, h.Eop(), payload)
         == h.len + (if h.Eop() then 0x8000_0000 else 0) + 0x1_0000_0000 * payload
    ensures ConnChannel(h.conn, h.channel) == h.conn as int + 0x1_0000_0000 * h.channel
  {
    ModSmall(h.len, B31);
  }

  /** The payload the IP's DMA master fetches, wrapping at the end of the memory. */
  function Fetch(c: Config, mem: Memory, d: Descriptor): Packet
    requires Fits(mem, c.base, c.span)
  {
    Packet(d.conn % 256, d.channel, d.last,
           if d.where >= c.base then Read(mem, c.base, c.span, d.where - c.base, d.len) else [])
  }

  function FetchAll(c: Config, mem: Memory, q: seq<Descriptor>): (r: seq<Packet>)
    requires Fits(mem, c.base, c.span)
    ensures |r| == |q|
  {
    seq(|q|, i requires 0 <= i < |q| => Fetch(c, mem, q[i]))
  }

  /** The IP finishes its oldest descriptor. */
  function Retire(c: Config, hw: Hw): (r: Hw)
    requires Fits(hw.mem, c.base, c.span)
    ensures r.mem == hw.mem
  {
    if hw.queue == [] then hw
    else hw.(queue := hw.queue[1..], delivered := hw.delivered + [Fetch(c, hw.mem, hw.queue[0])])
  }
}
