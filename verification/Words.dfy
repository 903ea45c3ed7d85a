/** Bytes, C integer widths and little-endian words. Bit masks and shifts of
    the source on unsigned values are written as the division and remainder
    they compute: `x & 0x7FFFFFFF` is the remainder by 2^31, `x >> 32` the
    quotient by 2^32. */
module Words {
  type byte = x: int | 0 <= x < 256

  const B16: nat := 0x1_0000
  const B31: nat := 0x8000_0000
  const B32: nat := 0x1_0000_0000
  const B64: nat := 0x1_0000_0000_0000_0000

  /** Conversion to `unsigned short`. */
  function U16(n: int): nat { n % B16 }

  /** Conversion to `uint32_t`. */
  function U32(n: int): nat { n % B32 }

  /** The high half of a 64-bit word. */
  function Hi32(n: nat): nat { n / B32 }

  /** The low 31 bits of a 32-bit word, and its top bit. */
  function Low31(n: nat): nat { n % B31 }

  function Bit31(n: nat): bool { n / B31 % 2 == 1 }

  /** The value of a little-endian byte string. */
  function Le(b: seq<byte>): (v: nat) {
    if b == [] then 0 else b[0] + 256 * Le(b[1..])
  }

  /** The `n` low bytes of `v`, least significant first. */
  function ToLe(v: nat, n: nat): (b: seq<byte>)
    ensures |b| == n
  {
    if n == 0 then [] else [v % 256] + ToLe(v / 256, n - 1)
  }

  /** The number of values of an `n`-byte word. */
  function Range(n: nat): (r: nat)
    ensures r > 0
  {
    if n == 0 then 1 else 256 * Range(n - 1)
  }

  lemma {:induction false} LeBound(b: seq<byte>)
    ensures Le(b) < Range(|b|)
  {
    if b == [] {
    } else {
      LeBound(b[1..]);
    }
  }

  /** Loading a word and storing it again keeps its bytes. */
  lemma {:induction false} ToLeLe(b: seq<byte>)
    ensures ToLe(Le(b), |b|) == b
  {
    if b == [] {
    } else {
      ToLeLe(b[1..]);
      assert Le(b) % 256 == b[0] && Le(b) / 256 == Le(b[1..]);
    }
  }

  /** A quotient and an in-range remainder are the ones `/` and `%` return. */
  lemma ModOf(v: int, m: int, q: int, r: int)
    requires m > 0 && 0 <= r < m
    requires v == q * m + r
    ensures v % m == r && v / m == q
  {
    var d := v / m - q;
    assert d * m == r - v % m by {
      assert v == (v / m) * m + v % m;
      assert d * m == (v / m) * m - q * m;
    }
    MulSmall(d, m);
  }

  lemma MulSmall(d: int, m: int)
    requires m > 0
    ensures d > 0 ==> d * m >= m
    ensures d < 0 ==> d * m <= -m
  {
    if d > 0 {
      assert (d - 1) * m >= 0;
    } else if d < 0 {
      assert (-1 - d) * m >= 0;
    }
  }

  /** A word is its low part followed by its high part, at any byte boundary. */
  lemma {:induction false} ToLeSplit(lo: nat, hi: nat, m: nat, n: nat)
    requires lo < Range(m)
    ensures ToLe(lo + hi * Range(m), m + n) == ToLe(lo, m) + ToLe(hi, n)
  {
    if m == 0 {
      assert lo + hi * Range(m) == hi;
    } else {
      var b, l := lo % 256, lo / 256;
      var rest := l + hi * Range(m - 1);
      TimesRange(hi, m);
      ToLeStep(lo + hi * Range(m), b, rest, m + n);
      ToLeStep(lo, b, l, m);
      ToLeSplit(l, hi, m - 1, n);
    }
  }

  lemma TimesRange(hi: nat, m: nat)
    requires m > 0
    ensures hi * Range(m) == 256 * (hi * Range(m - 1))
  {
  }

  lemma ToLeStep(v: nat, b: byte, h: nat, m: nat)
    requires m > 0 && v == b + 256 * h
    ensures ToLe(v, m) == [b] + ToLe(h, m - 1)
  {
    ModOf(v, 256, h, b);
  }

  lemma Ranges()
    ensures Range(1) == 256 && Range(2) == B16 && Range(4) == B32 == 2 * B31 && Range(8) == B64
  {
    assert Range(3) == 256 * B16;
    assert Range(4) == B32;
    assert Range(6) == B16 * B32;
    assert Range(7) == 256 * Range(6);
  }
}
