/** Circular regions of FPGA memory. A region is named by its absolute start:
    a byte count that never wraps. Byte `x` of the stream lives at
    `base + x % span`. */
module Circular {
  import opened Words

  type Memory = seq<byte>

  /** Addresses are `int32_t` values inside the mapped window. */
  predicate Fits(mem: Memory, base: nat, span: nat) {
    span > 0 && base + span <= |mem| && base + span <= B31
  }

  /** Where byte `x` of the stream lives. */
  function Address(base: nat, span: nat, x: nat): (a: nat)
    requires span > 0
    ensures base <= a < base + span
  {
    base + x % span
  }

  /** A whole number of 64-bit words. */
  predicate IsWords(n: int) { n % 8 == 0 }

  lemma AddWords(a: int, b: int)
    requires IsWords(a) && IsWords(b)
    ensures IsWords(a + b) && IsWords(a - b)
  {
  }

  /** `GET_ALIGNED_SZ`: rounds up to the 64-bit words of the DMA masters. */
  function Aligned(n: nat): (r: nat)
    ensures n <= r < n + 8 && IsWords(r)
  {
    (n + 7) / 8 * 8
  }

  function Read(mem: Memory, base: nat, span: nat, start: nat, n: nat): (r: seq<byte>)
    requires Fits(mem, base, span)
    ensures |r| == n
  {
    seq(n, j requires 0 <= j < n => mem[Address(base, span, start + j)])
  }

  function Write(mem: Memory, base: nat, span: nat, start: nat, data: seq<byte>): (m: Memory)
    requires Fits(mem, base, span) && |data| <= span
    ensures |m| == |mem|
    ensures forall a :: 0 <= a < |mem| && !(base <= a < base + span) ==> m[a] == mem[a]
  {
    seq(|mem|, a requires 0 <= a < |mem| =>
      if base <= a < base + span && (a - base - start) % span < |data|
      then data[(a - base - start) % span] else mem[a])
  }

  /** What one burst of 64-bit stores does, and one burst of loads. */
  function Store(mem: Memory, addr: nat, data: seq<byte>): (m: Memory)
    requires addr + |data| <= |mem|
    ensures |m| == |mem|
    ensures forall a :: 0 <= a < |mem| ==> m[a] == if addr <= a < addr + |data| then data[a - addr] else mem[a]
  {
    mem[..addr] + data + mem[addr + |data|..]
  }

  function Load(mem: Memory, addr: nat, n: nat): (r: seq<byte>)
    requires addr + n <= |mem|
    ensures |r| == n
  {
    mem[addr..addr + n]
  }

  lemma LoadPrefix(mem: Memory, addr: nat, n: nat, m: nat)
    requires m <= n && addr + n <= |mem|
    ensures Load(mem, addr, n)[..m] == Load(mem, addr, m)
  {
  }

  // ---------- remainders ----------

  lemma ModShift(x: int, k: int, m: int)
    requires m > 0
    ensures (x + k * m) % m == x % m
  {
    assert x + k * m == (x / m + k) * m + x % m by {
      assert (x / m + k) * m == (x / m) * m + k * m;
    }
    ModOf(x + k * m, m, x / m + k, x % m);
  }

  lemma ModSmall(x: int, m: int)
    requires 0 <= x < m
    ensures x % m == x
  {
    ModOf(x, m, 0, x);
  }

  lemma ModSub(x: nat, y: int, m: int)
    requires m > 0
    ensures (x % m - y) % m == (x - y) % m
  {
    assert x - y == (x % m - y) + (x / m) * m;
    ModShift(x % m - y, x / m, m);
  }

  lemma ModAdd(x: nat, y: nat, m: int)
    requires m > 0
    ensures (x % m + y) % m == (x + y) % m
  {
    assert x + y == (x % m + y) + (x / m) * m;
    ModShift(x % m + y, x / m, m);
  }

  /** Within one lap, different bytes have different addresses. */
  lemma ModDistinct(x: nat, y: nat, m: nat)
    requires x < y < x + m
    ensures x % m != y % m
  {
    if x % m == y % m {
      assert (y / m - x / m) * m == y - x by {
        assert y == (y / m) * m + y % m && x == (x / m) * m + x % m;
        assert (y / m - x / m) * m == (y / m) * m - (x / m) * m;
      }
      MulSmall(y / m - x / m, m);
    }
  }

  /** Multiples of 8 stay multiples of 8 on a circle of 8-byte words. */
  lemma ModWord(x: nat, m: nat)
    requires m > 0 && IsWords(x) && IsWords(m)
    ensures IsWords(x % m)
  {
    ModWords(x / 8, m / 8);
    assert x == 8 * (x / 8) && m == 8 * (m / 8);
  }

  lemma ModWords(y: nat, h: nat)
    requires h > 0
    ensures (8 * y) % (8 * h) == 8 * (y % h)
  {
    var q, r := y / h, y % h;
    assert q * (8 * h) == 8 * (q * h);
    ModOf(8 * y, 8 * h, q, 8 * r);
  }

  /** The offset either advances linearly or has wrapped once. */
  lemma ModStep(x: nat, j: nat, m: nat)
    requires m > 0 && j <= m
    ensures x % m + j < m ==> (x + j) % m == x % m + j
    ensures x % m + j >= m ==> (x + j) % m == if j == m then x % m else x % m + j - m
  {
    ModAdd(x, j, m);
    if x % m + j < m {
      ModSmall(x % m + j, m);
    } else {
      ModShift(x % m + j - m, 1, m);
      ModSmall(x % m + j - m, m);
    }
  }

  // ---------- circular reads and writes ----------

  /** A write changes exactly its own bytes of the lap that ends with it. */
  lemma WriteAt(mem: Memory, base: nat, span: nat, start: nat, data: seq<byte>, x: nat)
    requires Fits(mem, base, span) && |data| <= span
    requires start + |data| - span <= x < start + |data|
    ensures Write(mem, base, span, start, data)[Address(base, span, x)]
         == if x >= start then data[x - start] else mem[Address(base, span, x)]
  {
    ModSub(x, start, span);
    if x >= start {
      ModSmall(x - start, span);
    } else {
      ModShift(x - start, 1, span);
      ModSmall(x - start + span, span);
    }
  }

  /** A write leaves every earlier region of the same lap alone. */
  lemma ReadPastWrite(mem: Memory, base: nat, span: nat, start: nat, data: seq<byte>, s: nat, n: nat)
    requires Fits(mem, base, span) && |data| <= span
    requires s + n <= start && start + |data| <= s + span
    ensures Read(Write(mem, base, span, start, data), base, span, s, n) == Read(mem, base, span, s, n)
  {
    var m := Write(mem, base, span, start, data);
    forall j | 0 <= j < n
      ensures Read(m, base, span, s, n)[j] == Read(mem, base, span, s, n)[j]
    {
      WriteAt(mem, base, span, start, data, s + j);
    }
  }

  // ---------- the wrap split of the server ----------

  /** `buff_len_to_wrap_boundary`, on unsigned 64-bit addresses */
  function WrapBoundary(base: nat, span: nat, buff: nat, len: nat): nat {
    if buff + len > base + span then (base + span - buff) % 0x1_0000_0000_0000_0000 else 0
  }

  /** A payload at offset `start` runs over the end of the buffer. */
  ghost predicate Crosses(span: nat, start: nat, len: nat)
    requires span > 0
  {
    exists x :: start <= x < start + len && Address(0, span, x) < Address(0, span, start)
  }

  /** The one or two bursts that store a payload whose buffer starts at `addr`. */
  function SplitStore(mem: Memory, base: nat, span: nat, addr: nat, len: nat, data: seq<byte>): (m: Memory)
    requires Fits(mem, base, span) && base <= addr < base + span && |data| <= span
    requires len <= |data| && (addr + len <= base + span ==> addr + |data| <= base + span)
    ensures |m| == |mem|
  {
    BoundaryValue(base, span, addr - base, len);
    var first := WrapBoundary(base, span, addr, len);
    if first != 0
    then Store(Store(mem, addr, data[..first]), base, data[first..])
    else Store(mem, addr, data)
  }

  function SplitLoad(mem: Memory, base: nat, span: nat, addr: nat, len: nat): (r: seq<byte>)
    requires Fits(mem, base, span) && base <= addr < base + span && len <= span
    ensures |r| == len
  {
    BoundaryValue(base, span, addr - base, len);
    var first := WrapBoundary(base, span, addr, len);
    if first != 0
    then Load(mem, addr, first) + Load(mem, base, len - first)
    else Load(mem, addr, len)
  }

  /** The boundary function, without remainders. */
  lemma BoundaryValue(base: nat, span: nat, off: nat, len: nat)
    requires off < span <= B31 && len <= span
    ensures WrapBoundary(base, span, base + off, len) == if off + len > span then span - off else 0
  {
  }

  lemma CrossesWhen(span: nat, start: nat, len: nat)
    requires len <= span && span > 0
    ensures Crosses(span, start, len) <==> Address(0, span, start) + len > span
    ensures var off := Address(0, span, start);
            off + len > span ==> Address(0, span, start + (span - off)) == 0
  {
    var off := Address(0, span, start);
    if off + len > span {
      ModStep(start, span - off, span);
      assert Address(0, span, start + (span - off)) < off;
    } else {
      forall x | start <= x < start + len
        ensures Address(0, span, x) >= off
      {
        ModStep(start, x - start, span);
      }
    }
  }

  /** The boundary function splits exactly the payloads that cross the end of
      the buffer, strictly inside them and on a word boundary. */
  lemma WrapBoundarySplits(base: nat, span: nat, start: nat, len: nat)
    requires 0 < span <= B31 && len <= span && IsWords(start) && IsWords(span)
    ensures var first := WrapBoundary(base, span, Address(base, span, start), len);
            && (0 < first < len <==> Crosses(span, start, len))
            && (first != 0 ==> 0 < first < len && IsWords(first) && Address(base, span, start + first) == base)
  {
    var off := Address(0, span, start);
    BoundaryValue(base, span, off, len);
    CrossesWhen(span, start, len);
    ModWord(start, span);
    AddWords(span, off);
  }

  /** How far round the circle offset `a` is from offset `off`. */
  function Round(a: nat, off: nat, span: nat): (d: nat)
    requires a < span && off < span
  {
    if a >= off then a - off else a + span - off
  }

  lemma Distance(start: nat, a: nat, span: nat)
    requires a < span
    ensures (a - start) % span == Round(a, start % span, span)
  {
    var off := start % span;
    assert a - off == (a - start) + (start / span) * span;
    ModShift(a - start, start / span, span);
    if a >= off {
      ModSmall(a - off, span);
    } else {
      ModShift(a - off, 1, span);
      ModSmall(a - off + span, span);
    }
  }

  /** Byte `a` of memory after `data` was laid down from offset `off` on. */
  function Placed(mem: Memory, base: nat, span: nat, off: nat, data: seq<byte>, a: nat): byte
    requires Fits(mem, base, span) && off < span && a < |mem|
  {
    if base <= a < base + span && Round(a - base, off, span) < |data|
    then data[Round(a - base, off, span)] else mem[a]
  }

  lemma SplitStoreAt(mem: Memory, base: nat, span: nat, off: nat, len: nat, data: seq<byte>, a: nat)
    requires Fits(mem, base, span) && off < span && len <= |data| <= span && a < |mem|
    requires off + len <= span ==> off + |data| <= span
    ensures SplitStore(mem, base, span, base + off, len, data)[a] == Placed(mem, base, span, off, data, a)
  {
    BoundaryValue(base, span, off, len);
    if off + len > span { TwoBurstsAt(mem, base, span, off, data, span - off, a); }
  }

  lemma TwoBurstsAt(mem: Memory, base: nat, span: nat, off: nat, data: seq<byte>, first: nat, a: nat)
    requires Fits(mem, base, span) && off < span && first == span - off <= |data| <= span && a < |mem|
    ensures Store(Store(mem, base + off, data[..first]), base, data[first..])[a] == Placed(mem, base, span, off, data, a)
  {
    if base <= a < base + (|data| - first) {
      assert data[first..][a - base] == data[Round(a - base, off, span)];
    }
  }

  lemma WriteIs(mem: Memory, base: nat, span: nat, start: nat, data: seq<byte>, a: nat)
    requires Fits(mem, base, span) && |data| <= span && a < |mem|
    ensures Write(mem, base, span, start, data)[a] == Placed(mem, base, span, Address(0, span, start), data, a)
  {
    if base <= a < base + span { Distance(start, a - base, span); }
  }

  lemma AlignedFits(off: nat, len: nat, span: nat)
    requires IsWords(off) && IsWords(span) && off + len <= span
    ensures off + Aligned(len) <= span
  {
    var o, s := off / 8, span / 8;
    assert off == 8 * o && span == 8 * s;
  }

  /** An aligned payload that does not cross the end fits before it, padding included. */
  lemma SplitFits(base: nat, span: nat, start: nat, len: nat)
    requires span > 0 && IsWords(start) && IsWords(span) && IsWords(base)
    ensures IsWords(Address(base, span, start))
    ensures Address(base, span, start) + len <= base + span ==>
              Address(base, span, start) + Aligned(len) <= base + span
  {
    var off := Address(0, span, start);
    ModWord(start, span);
    AddWords(base, off);
    if off + len <= span { AlignedFits(off, len, span); }
  }

  /** The server's one or two bursts store the payload at its circular region. */
  lemma SplitStoreIsCircular(mem: Memory, base: nat, span: nat, start: nat, len: nat, data: seq<byte>)
    requires Fits(mem, base, span) && IsWords(start) && IsWords(span) && IsWords(base)
    requires |data| == Aligned(len) <= span
    ensures Address(base, span, start) + len <= base + span ==> Address(base, span, start) + |data| <= base + span
    ensures SplitStore(mem, base, span, Address(base, span, start), len, data) == Write(mem, base, span, start, data)
  {
    SplitFits(base, span, start, len);
    SplitStoreSame(mem, base, span, start, Address(0, span, start), len, data);
  }

  lemma SplitStoreSame(mem: Memory, base: nat, span: nat, start: nat, off: nat, len: nat, data: seq<byte>)
    requires Fits(mem, base, span) && off == Address(0, span, start) && len <= |data| <= span
    requires off + len <= span ==> off + |data| <= span
    ensures SplitStore(mem, base, span, base + off, len, data) == Write(mem, base, span, start, data)
  {
    var m := SplitStore(mem, base, span, base + off, len, data);
    forall a | 0 <= a < |mem|
      ensures m[a] == Write(mem, base, span, start, data)[a]
    {
      SplitStoreAt(mem, base, span, off, len, data, a);
      WriteIs(mem, base, span, start, data, a);
    }
  }

  lemma SplitLoadAt(mem: Memory, base: nat, span: nat, off: nat, len: nat, j: nat)
    requires Fits(mem, base, span) && off < span && j < len <= span
    ensures SplitLoad(mem, base, span, base + off, len)[j]
         == mem[base + if off + j < span then off + j else off + j - span]
  {
    BoundaryValue(base, span, off, len);
  }

  lemma SplitLoadIsCircular(mem: Memory, base: nat, span: nat, start: nat, len: nat)
    requires Fits(mem, base, span) && len <= span
    ensures SplitLoad(mem, base, span, Address(base, span, start), len) == Read(mem, base, span, start, len)
  {
    var off := Address(0, span, start);
    assert Address(base, span, start) == base + off;
    forall j | 0 <= j < len
      ensures SplitLoad(mem, base, span, base + off, len)[j] == Read(mem, base, span, start, len)[j]
    {
      SplitLoadAt(mem, base, span, off, len, j);
      ReadAt(mem, base, span, start, off, len, j);
    }
  }

  lemma ReadAt(mem: Memory, base: nat, span: nat, start: nat, off: nat, len: nat, j: nat)
    requires Fits(mem, base, span) && off == Address(0, span, start) && j < len <= span
    ensures Read(mem, base, span, start, len)[j] == mem[base + if off + j < span then off + j else off + j - span]
  {
    ModStep(start, j, span);
    assert Read(mem, base, span, start, len)[j] == mem[Address(base, span, start + j)];
  }
}
