/** The handle messages of the connection handshake, as C strings. */
module Messages {

  const CONTROL: string := "Control"
  const MANAGEMENT: string := "Management"
  const MANAGEMENT_RSP: string := "Management Response"
  const H2T: string := "H2T"
  const T2H: string := "T2H"

  const READY: string := "READY"
  const NOT_READY: string := "NOT_READY"
  const REJECT: string := "SERVER_BUSY"

  const HANDLE_MSG: string := "HANDLE="
  const MAX_HANDLE_RSP: nat := 64

  predicate Digit(c: char) { '0' <= c <= '9' }

  /** `%d` of a non-negative integer */
  function Decimal(n: nat): (s: string)
    ensures s != [] && forall c :: c in s ==> Digit(c)
    decreases n
  {
    var d := [('0' as int + n % 10) as char];
    if n < 10 then d else Decimal(n / 10) + d
  }

  /** `atoi` of the digits of a string */
  function Number(s: string): nat
    requires forall c :: c in s ==> Digit(c)
  {
    if s == [] then 0
    else
      var k := |s| - 1;
      assert s[k] in s && Digit(s[k]);
      10 * Number(s[..k]) + (s[k] as int - '0' as int)
  }

  /** `atoi`: the leading digits, 0 without any (signs and blanks never occur here) */
  function Digits(s: string): (r: string)
    ensures forall c :: c in r ==> Digit(c)
  {
    if s == [] || !Digit(s[0]) then [] else [s[0]] + Digits(s[1..])
  }

  function Atoi(s: string): nat { Number(Digits(s)) }

  /** `strstr`: where `pat` first occurs */
  function Find(s: string, pat: string): (r: int)
    ensures -1 <= r && (r >= 0 ==> r + |pat| <= |s|)
  {
    if |s| < |pat| then -1
    else if s[..|pat|] == pat then 0
    else if s == [] then -1
    else
      var r := Find(s[1..], pat);
      if r < 0 then -1 else r + 1
  }

  predicate Occurs(s: string, pat: string, i: nat) { i + |pat| <= |s| && s[i..i + |pat|] == pat }

  /** It is the first occurrence, or there is none. */
  lemma {:induction false} FindFirst(s: string, pat: string)
    ensures var r := Find(s, pat);
            && (forall i: nat :: Occurs(s, pat, i) ==> 0 <= r <= i)
            && (r >= 0 ==> Occurs(s, pat, r))
    decreases |s|
  {
    if |s| < |pat| || s[..|pat|] == pat || s == [] {
    } else {
      FindFirst(s[1..], pat);
      forall i: nat | Occurs(s, pat, i)
        ensures 0 <= Find(s, pat) <= i
      {
        Shifted(s, pat, i);
      }
      if Find(s, pat) >= 0 { Shifted(s, pat, Find(s, pat)); }
    }
  }

  lemma Shifted(s: string, pat: string, i: nat)
    requires s != [] && i > 0
    ensures Occurs(s, pat, i) <==> Occurs(s[1..], pat, i - 1)
  {
    if i + |pat| <= |s| { assert s[i..i + |pat|] == s[1..][i - 1..i - 1 + |pat|]; }
  }

  /** `generate_expected_handle_message` */
  function Expected(name: string, handle: nat): string {
    name + " " + HANDLE_MSG + Decimal(handle)
  }

  /** `parse_handle_id` */
  function ParseHandle(s: string): int {
    var pos := Find(s, HANDLE_MSG);
    if pos >= 0 then Atoi(s[pos + |HANDLE_MSG|..]) else -1
  }

  /** The message in plain characters, for a name given with its marker. */
  lemma ExpectedText(name: string, marked: string, handle: nat)
    requires marked == name + " HANDLE="
    ensures Expected(name, handle) == marked + Decimal(handle)
  {
    assert name + " " + HANDLE_MSG == name + " HANDLE=";
  }

  /** `%d` writes the digits of the number without leading zeros. */
  lemma {:induction false} DecimalDigits(n: nat)
    ensures var s, k := Decimal(n), |Decimal(n)| - 1;
            && Number(s) == n && (k > 0 ==> s[0] != '0')
            && s[k] == "0123456789"[n % 10] && s[..k] == if n < 10 then "" else Decimal(n / 10)
    decreases n
  {
    NumberDecimal(n);
    if n < 10 {
    } else {
      DecimalDigits(n / 10);
    }
  }

  // ---------- the handle survives ----------

  lemma {:induction false} NumberDecimal(n: nat)
    ensures Number(Decimal(n)) == n
    decreases n
  {
    var s := Decimal(n);
    var k := |s| - 1;
    if n < 10 {
      assert s[..k] == [] && Number([]) == 0;
    } else {
      NumberDecimal(n / 10);
      assert s[..k] == Decimal(n / 10);
    }
  }

  lemma {:induction false} AllDigits(s: string)
    requires forall c :: c in s ==> Digit(c)
    ensures Digits(s) == s
  {
    if s == [] {
    } else {
      assert s[0] in s;
      AllDigits(s[1..]);
    }
  }

  /** The marker contains the only `=` of the message, so it is found behind the name. */
  lemma {:induction false} FindMarker(name: string, digits: string)
    requires '=' !in name && forall c :: c in digits ==> Digit(c)
    ensures Find(name + HANDLE_MSG + digits, HANDLE_MSG) == |name|
    decreases |name|
  {
    var s := name + HANDLE_MSG + digits;
    if name == [] {
      assert s[..|HANDLE_MSG|] == HANDLE_MSG;
    } else {
      assert s[1..] == name[1..] + HANDLE_MSG + digits;
      FindMarker(name[1..], digits);
      NoMarkerHere(name, digits);
    }
  }

  lemma NoMarkerHere(name: string, digits: string)
    requires name != [] && '=' !in name
    ensures var s := name + HANDLE_MSG + digits;
            s[..|HANDLE_MSG|] != HANDLE_MSG
  {
    var s, k := name + HANDLE_MSG + digits, |HANDLE_MSG| - 1;
    assert s[..|HANDLE_MSG|][k] == s[k];
    if k < |name| {
      assert s[k] in name;
    } else {
      assert s[k] == HANDLE_MSG[k - |name|];
    }
  }

  /** There is no handle exactly in a text without the marker. */
  lemma NoHandle(s: string)
    ensures ParseHandle(s) == -1 <==> forall i: nat :: !Occurs(s, "HANDLE=", i)
  {
    FindFirst(s, HANDLE_MSG);
  }

  /** The client's acknowledgement names the server's handle. */
  lemma HandleRoundTrip(name: string, handle: nat)
    requires '=' !in name
    ensures ParseHandle(Expected(name, handle)) == handle
  {
    var s := Expected(name, handle);
    var front := name + " ";
    assert s == front + HANDLE_MSG + Decimal(handle);
    FindMarker(front, Decimal(handle));
    assert s[|front| + |HANDLE_MSG|..] == Decimal(handle);
    AllDigits(Decimal(handle));
    NumberDecimal(handle);
  }

  /** No other handle and no other socket has the same acknowledgement. */
  lemma ExpectedInjective(n1: string, h1: nat, n2: string, h2: nat)
    requires '=' !in n1 && '=' !in n2 && Expected(n1, h1) == Expected(n2, h2)
    ensures h1 == h2 && n1 == n2
  {
    HandleRoundTrip(n1, h1);
    HandleRoundTrip(n2, h2);
    ExpectedTail(n1, h1, " " + HANDLE_MSG + Decimal(h1));
    ExpectedTail(n2, h2, " " + HANDLE_MSG + Decimal(h1));
    SameFront(n1, n2, " " + HANDLE_MSG + Decimal(h1));
  }

  lemma ExpectedTail(name: string, handle: nat, tail: string)
    requires tail == " " + HANDLE_MSG + Decimal(handle)
    ensures Expected(name, handle) == name + tail
  {
  }

  lemma SameFront(a: string, b: string, tail: string)
    requires a + tail == b + tail
    ensures a == b
  {
    assert |a| == |b|;
    assert a == (a + tail)[..|a|] == (b + tail)[..|b|] == b;
  }

  // ---------- comparing C strings ----------

  /** The text of a buffer: what precedes its first NUL. */
  function CString(b: string): (r: string)
    ensures |r| <= |b| && '\0' !in r
  {
    if b == [] || b[0] == '\0' then [] else [b[0]] + CString(b[1..])
  }

  /** `strncmp(a, b, n) == 0` on buffers of at least `n` characters */
  predicate StrncmpEqual(a: string, b: string, n: nat)
    requires |a| >= n && |b| >= n
  {
    n == 0 || (a[0] == b[0] && (a[0] == '\0' || StrncmpEqual(a[1..], b[1..], n - 1)))
  }

  /** With a NUL within the first `n` characters of the received text, the
      bounded comparison accepts exactly the expected text. */
  lemma {:induction false} StrncmpIsEquality(a: string, b: string, n: nat)
    requires |a| >= n && |b| >= n && '\0' in a[..n]
    ensures StrncmpEqual(a, b, n) <==> CString(a) == CString(b)
    decreases n
  {
    if a[0] == '\0' {
    } else {
      assert a[..n] == [a[0]] + a[1..][..n - 1];
      if b[0] != '\0' {
        StrncmpIsEquality(a[1..], b[1..], n - 1);
        assert CString(a)[1..] == CString(a[1..]) && CString(b)[1..] == CString(b[1..]);
      }
    }
  }
}
