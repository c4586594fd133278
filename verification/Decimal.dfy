/** Decimal text of integers: what "%d" prints and what strtol(s, &end, 10) reads. */
module Decimal {

  predicate IsDigit(c: char) { '0' <= c <= '9' }

  function DigitChar(d: nat): (c: char)
    requires d < 10
    ensures IsDigit(c)
  {
    '0' + d as char
  }

  function DigitValue(c: char): (d: nat)
    requires IsDigit(c)
    ensures d < 10
  {
    c as int - '0' as int
  }

  predicate AllDigits(s: string) {
    forall i :: 0 <= i < |s| ==> IsDigit(s[i])
  }

  /** The digits of n, most significant first. */
  function Digits(n: nat): (s: string)
    ensures s != "" && AllDigits(s)
  {
    if n < 10 then [DigitChar(n)] else Digits(n / 10) + [DigitChar(n % 10)]
  }

  /** The number a run of digits stands for. */
  function Number(s: string): nat
    requires AllDigits(s)
  {
    if s == "" then 0 else 10 * Number(s[..|s| - 1]) + DigitValue(s[|s| - 1])
  }

  /** "%d" */
  function Text(i: int): string {
    if i < 0 then "-" + Digits(-i) else Digits(i)
  }

  lemma {:induction false} NumberDigits(n: nat)
    ensures Number(Digits(n)) == n
  {
    if n >= 10 {
      NumberDigits(n / 10);
      var s := Digits(n);
      assert s[..|s| - 1] == Digits(n / 10);
    }
  }

  function Pow10(k: nat): nat {
    if k == 0 then 1 else 10 * Pow10(k - 1)
  }

  /** A digit counts by its place. */
  lemma {:induction false} NumberByPlace(c: char, s: string)
    requires IsDigit(c) && AllDigits(s)
    ensures Number([c] + s) == (c as int - '0' as int) * Pow10(|s|) + Number(s)
    decreases |s|
  {
    var t := [c] + s;
    if s == "" {
      assert t[..0] == "";
    } else {
      var front := s[..|s| - 1];
      assert t[..|t| - 1] == [c] + front;
      NumberByPlace(c, front);
      assert Pow10(|s|) == 10 * Pow10(|front|);
      TenTimes(c as int - '0' as int, Pow10(|front|));
    }
  }

  lemma TenTimes(d: nat, p: nat)
    ensures 10 * (d * p) == d * (10 * p)
  {}

  // ----- strtol -----

  const LONG_MIN: int := -0x8000_0000_0000_0000
  const LONG_MAX: int := 0x7FFF_FFFF_FFFF_FFFF
  const INT_MIN: int := -0x8000_0000
  const INT_MAX: int := 0x7FFF_FFFF

  predicate IsSpace(c: char) {
    c == ' ' || 9 <= c as int <= 13
  }

  function SpaceRun(s: string): (n: nat)
    ensures n <= |s|
  {
    if s != "" && IsSpace(s[0]) then 1 + SpaceRun(s[1..]) else 0
  }

  function DigitRun(s: string): (n: nat)
    ensures n <= |s| && AllDigits(s[..n]) && (n < |s| ==> !IsDigit(s[n]))
  {
    if s != "" && IsDigit(s[0]) then
      var n := 1 + DigitRun(s[1..]);
      assert forall i :: 0 < i < n ==> s[i] == s[1..][i - 1];
      n
    else 0
  }

  function Clamp(i: int): int {
    if i < LONG_MIN then LONG_MIN else if i > LONG_MAX then LONG_MAX else i
  }

  /** The value, the characters taken up to endptr, and whether errno is ERANGE. */
  datatype Scanned = Scanned(value: int, used: nat, erange: bool)

  predicate IsSign(c: char) { c == '-' || c == '+' }

  /** An optional sign and digits at the start of t: the value and the characters taken, none
      when no digit is there. */
  function ScanSigned(t: string): (r: (int, nat))
    ensures r.1 <= |t|
  {
    var g := if t != "" && IsSign(t[0]) then 1 else 0;
    var d := DigitRun(t[g..]);
    if d == 0 then (0, 0) else (Signed(t[..g], t[g..][..d]), g + d)
  }

  function Signed(g: string, d: string): int
    requires AllDigits(d)
  {
    var n: int := Number(d);
    if g == "-" then -n else n
  }

  function Outcome(v: int, used: nat): Scanned {
    Scanned(Clamp(v), used, Clamp(v) != v)
  }

  function Strtol(s: string): (r: Scanned)
    ensures r.used <= |s|
  {
    var w := SpaceRun(s);
    var (v, k) := ScanSigned(s[w..]);
    if k == 0 then Scanned(0, 0, false) else Outcome(v, w + k)
  }

  /** Conversion of a long to int, as two's complement wraps it. */
  function ToInt(i: int): (r: int)
    ensures INT_MIN <= r <= INT_MAX
    ensures INT_MIN <= i <= INT_MAX ==> r == i
    ensures (i - r) % 4294967296 == 0
  {
    var u := i % 0x1_0000_0000;
    if u > INT_MAX then u - 0x1_0000_0000 else u
  }

  function Atoi(s: string): int {
    ToInt(Strtol(s).value)
  }

  lemma {:induction false} DigitRunBefore(a: string, b: string)
    requires AllDigits(a) && (b == "" || !IsDigit(b[0]))
    ensures DigitRun(a + b) == |a|
  {
    if a == "" {
      assert a + b == b;
    } else {
      assert (a + b)[1..] == a[1..] + b;
      DigitRunBefore(a[1..], b);
    }
  }

  predicate AllSpaces(w: string) {
    forall i :: 0 <= i < |w| ==> IsSpace(w[i])
  }

  lemma {:induction false} SpaceRunBefore(w: string, rest: string)
    requires AllSpaces(w) && (rest == "" || !IsSpace(rest[0]))
    ensures SpaceRun(w + rest) == |w|
  {
    if w == "" {
      assert w + rest == rest;
    } else {
      assert (w + rest)[1..] == w[1..] + rest;
      SpaceRunBefore(w[1..], rest);
    }
  }

  predicate IsSignText(g: string) { g == "" || g == "-" || g == "+" }

  lemma Parts(a: string, b: string)
    ensures (a + b)[..|a|] == a && (a + b)[|a|..] == b
  {}

  lemma ScanSignedReads(g: string, d: string, rest: string)
    requires IsSignText(g) && d != "" && AllDigits(d) && (rest == "" || !IsDigit(rest[0]))
    ensures ScanSigned(g + (d + rest)) == (Signed(g, d), |g| + |d|)
  {
    var t := g + (d + rest);
    DigitRunBefore(d, rest);
    Parts(g, d + rest);
    Parts(d, rest);
    assert t[0] == if g == "" then d[0] else g[0];
  }

  /** Blanks, at most one sign and digits are read whole, up to what follows the digits. */
  lemma StrtolReads(s: string, w: string, g: string, d: string, rest: string)
    requires s == w + (g + (d + rest))
    requires AllSpaces(w) && IsSignText(g) && d != "" && AllDigits(d)
    requires rest == "" || !IsDigit(rest[0])
    ensures Strtol(s) == Outcome(Signed(g, d), |w| + |g| + |d|)
  {
    var t := g + (d + rest);
    assert t[0] == if g == "" then d[0] else g[0];
    SpaceRunBefore(w, t);
    ScanSignedReads(g, d, rest);
    Parts(w, t);
  }

  lemma StrtolSigned(t: string, g: string, d: string, rest: string)
    requires t == g + d && IsSignText(g) && d != "" && AllDigits(d) && (rest == "" || !IsDigit(rest[0]))
    ensures Strtol(t + rest) == Outcome(Signed(g, d), |t|)
  {
    assert t + rest == "" + (g + (d + rest));
    StrtolReads(t + rest, "", g, d, rest);
  }

  /** Printed integers read back, up to whatever follows the digits. */
  lemma StrtolText(i: int, rest: string)
    requires rest == "" || !IsDigit(rest[0])
    ensures Strtol(Text(i) + rest) == Outcome(i, |Text(i)|)
  {
    var n: nat := if i < 0 then -i else i;
    NumberDigits(n);
    StrtolSigned(Text(i), if i < 0 then "-" else "", Digits(n), rest);
  }

  /** is_number: a whole-string integer in int range. */
  predicate IsNumber(s: string) {
    var r := Strtol(s);
    if r.used == 0 then false
    else if r.used != |s| then false
    else if r.erange then false
    else INT_MIN <= r.value <= INT_MAX
  }

  /** s is blanks w, a sign g or none, and digits d. */
  predicate Spells(s: string, w: string, g: string, d: string) {
    s == w + (g + d) && AllSpaces(w) && IsSignText(g) && d != "" && AllDigits(d)
  }

  lemma {:induction false} SpaceRunSpaces(s: string)
    ensures AllSpaces(s[..SpaceRun(s)])
  {
    if SpaceRun(s) > 0 {
      SpaceRunSpaces(s[1..]);
      var w := s[..SpaceRun(s)];
      forall i | 0 < i < |w| ensures w[i] == s[1..][..SpaceRun(s[1..])][i - 1] {}
    }
  }

  lemma SpelledRead(s: string, w: string, g: string, d: string)
    requires Spells(s, w, g, d)
    ensures Strtol(s) == Outcome(Signed(g, d), |s|)
  {
    assert d + "" == d;
    StrtolReads(s, w, g, d, "");
  }

  /** A string read to its end is blanks, a sign or none, and digits. */
  lemma WholeIsSpelled(s: string) returns (w: string, g: string, d: string)
    requires Strtol(s).used == |s| && s != ""
    ensures Spells(s, w, g, d)
  {
    w := s[..SpaceRun(s)];
    var t := s[SpaceRun(s)..];
    var k := if t != "" && IsSign(t[0]) then 1 else 0;
    g, d := t[..k], t[k..];
    SpaceRunSpaces(s);
    assert t[k..][..DigitRun(t[k..])] == d;
    assert s == w + t && t == g + d;
  }

  /** is_number accepts exactly the strings of optional blanks, an optional sign and digits
      whose value is an int, and atoi gives that value. */
  lemma IsNumberIff(s: string)
    ensures IsNumber(s) <==> exists w, g, d :: Spells(s, w, g, d) && -2147483648 <= Signed(g, d) <= 2147483647
    ensures forall w, g, d :: Spells(s, w, g, d) && -2147483648 <= Signed(g, d) <= 2147483647 ==> Atoi(s) == Signed(g, d)
  {
    forall w, g, d | Spells(s, w, g, d) ensures Strtol(s) == Outcome(Signed(g, d), |s|) {
      SpelledRead(s, w, g, d);
    }
    if IsNumber(s) {
      var w, g, d := WholeIsSpelled(s);
    }
  }
}
