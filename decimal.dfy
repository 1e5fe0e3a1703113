/**
 * Formatted integer I/O as a default-configured `std::ostream` / `std::istream`
 * performs it: `stream << n` writes the decimal digits (with a leading '-' when
 * negative), `stream >> n` skips white space, reads an optional sign and a maximal
 * run of digits, stores 0 when there are no digits and the nearest bound when the
 * value does not fit, and flags both cases as a failed extraction.
 */
module Decimal {

  predicate IsDigit(c: char) {
    '0' <= c <= '9'
  }

  /** The characters `std::isspace` accepts in the "C" locale. */
  predicate IsSpace(c: char) {
    c == ' ' || c == '\t' || c == '\n' || c == '\U{000B}' || c == '\U{000C}' || c == '\r'
  }

  function DigitChar(d: nat): (c: char)
    requires d < 10
    ensures IsDigit(c)
  {
    ['0','1','2','3','4','5','6','7','8','9'][d]
  }

  function DigitValue(c: char): (d: nat)
    requires IsDigit(c)
    ensures d < 10
  {
    (c as int - '0' as int) as nat
  }

  lemma DigitRoundTrip(d: nat)
    requires d < 10
    ensures DigitValue(DigitChar(d)) == d
  {
  }

  /** The decimal digits of `n`, most significant first, without leading zeros. */
  function DigitsOf(n: nat): (s: string)
    ensures |s| > 0
    ensures forall i | 0 <= i < |s| :: IsDigit(s[i])
  {
    if n < 10 then [DigitChar(n)] else DigitsOf(n / 10) + [DigitChar(n % 10)]
  }

  /** `stream << n` for a signed integer. */
  function Render(n: int): (s: string)
    ensures |s| > 0 && (s[0] == '-' || IsDigit(s[0]))
    ensures forall i | 0 < i < |s| :: IsDigit(s[i])
  {
    if n < 0 then "-" + DigitsOf(-n) else DigitsOf(n)
  }

  /** The number a run of digits denotes. */
  function ValueOf(ds: string): nat
    requires forall i | 0 <= i < |ds| :: IsDigit(ds[i])
  {
    if ds == [] then 0 else ValueOf(ds[..|ds| - 1]) * 10 + DigitValue(ds[|ds| - 1])
  }

  lemma {:induction false} ValueOfDigits(n: nat)
    ensures ValueOf(DigitsOf(n)) == n
  {
    if n >= 10 {
      var s := DigitsOf(n);
      assert s[..|s| - 1] == DigitsOf(n / 10);
      ValueOfDigits(n / 10);
      DigitRoundTrip(n % 10);
    } else {
      DigitRoundTrip(n);
    }
  }

  function SkipSpace(s: string): (t: string)
    ensures |t| <= |s| && t == s[|s| - |t|..]
    ensures t == [] || !IsSpace(t[0])
  {
    if s != [] && IsSpace(s[0]) then SkipSpace(s[1..]) else s
  }

  /** Length of the maximal run of digits at the front of `s`. */
  function DigitRun(s: string): (n: nat)
    ensures n <= |s|
    ensures forall i | 0 <= i < n :: IsDigit(s[i])
    ensures n < |s| ==> !IsDigit(s[n])
  {
    if s != [] && IsDigit(s[0]) then 1 + DigitRun(s[1..]) else 0
  }

  /** What `stream >> x` stores into `x`, whether the extraction succeeded, and the unread input. */
  datatype Extracted = Extracted(value: int, ok: bool, rest: string)

  /** `stream >> x` for a signed integer type whose range is `lo..hi`. */
  function ReadInt(s: string, lo: int, hi: int): (r: Extracted)
    requires lo <= 0 <= hi
    ensures lo <= r.value <= hi
    ensures |r.rest| <= |s|
  {
    var t := SkipSpace(s);
    var neg := t != [] && t[0] == '-';
    var signed := t != [] && (t[0] == '-' || t[0] == '+');
    ReadMagnitude(if signed then t[1..] else t, neg, lo, hi)
  }

  /** The digits after the sign: none is a failure, a value out of range is clamped to the nearest bound and is a failure. */
  function ReadMagnitude(u: string, neg: bool, lo: int, hi: int): (r: Extracted)
    requires lo <= 0 <= hi
    ensures lo <= r.value <= hi
    ensures |r.rest| <= |u|
  {
    var n := DigitRun(u);
    if n == 0 then Extracted(0, false, u)
    else
      var magnitude: int := ValueOf(u[..n]);
      var v := if neg then -magnitude else magnitude;
      if v > hi then Extracted(hi, false, u[n..])
      else if v < lo then Extracted(lo, false, u[n..])
      else Extracted(v, true, u[n..])
  }

  lemma {:induction false} DigitRunOver(ds: string, rest: string)
    requires forall i | 0 <= i < |ds| :: IsDigit(ds[i])
    requires rest == [] || !IsDigit(rest[0])
    ensures DigitRun(ds + rest) == |ds|
    decreases |ds|
  {
    if ds != [] {
      assert (ds + rest)[1..] == ds[1..] + rest;
      DigitRunOver(ds[1..], rest);
    } else {
      assert ds + rest == rest;
    }
  }

  /** A run of digits followed by a non-digit is read whole. */
  lemma ReadRun(ds: string, rest: string)
    requires forall i | 0 <= i < |ds| :: IsDigit(ds[i])
    requires rest == [] || !IsDigit(rest[0])
    ensures DigitRun(ds + rest) == |ds|
    ensures (ds + rest)[..|ds|] == ds && (ds + rest)[|ds|..] == rest
  {
    DigitRunOver(ds, rest);
  }

  lemma SkipNoSpace(s: string)
    requires s != [] && !IsSpace(s[0])
    ensures SkipSpace(s) == s
  {
  }

  /** The magnitude of a run of digits that ends the number is its value. */
  lemma MagnitudeOfDigits(ds: string, rest: string, neg: bool, lo: int, hi: int)
    requires ds != [] && forall i | 0 <= i < |ds| :: IsDigit(ds[i])
    requires rest == [] || !IsDigit(rest[0])
    requires lo <= 0 <= hi && lo <= (if neg then -(ValueOf(ds) as int) else ValueOf(ds)) <= hi
    ensures ReadMagnitude(ds + rest, neg, lo, hi) == Extracted(if neg then -(ValueOf(ds) as int) else ValueOf(ds), true, rest)
  {
    ReadRun(ds, rest);
  }

  /** Input starting with a digit is read unsigned. */
  lemma ReadUnsignedText(s: string, lo: int, hi: int)
    requires s != [] && IsDigit(s[0]) && lo <= 0 <= hi
    ensures ReadInt(s, lo, hi) == ReadMagnitude(s, false, lo, hi)
  {
    SkipNoSpace(s);
  }

  /** Input starting with '-' is read as a negative magnitude. */
  lemma ReadMinusText(u: string, lo: int, hi: int)
    requires lo <= 0 <= hi
    ensures ReadInt("-" + u, lo, hi) == ReadMagnitude(u, true, lo, hi)
  {
    var s := "-" + u;
    assert s[1..] == u;
    SkipNoSpace(s);
  }

  /** Reading a run of digits that ends the number. */
  lemma ReadDigits(ds: string, rest: string, lo: int, hi: int)
    requires ds != [] && forall i | 0 <= i < |ds| :: IsDigit(ds[i])
    requires rest == [] || !IsDigit(rest[0])
    requires lo <= 0 <= hi && ValueOf(ds) <= hi
    ensures ReadInt(ds + rest, lo, hi) == Extracted(ValueOf(ds), true, rest)
  {
    assert (ds + rest)[0] == ds[0];
    ReadUnsignedText(ds + rest, lo, hi);
    MagnitudeOfDigits(ds, rest, false, lo, hi);
  }

  /** Reading a '-' and a run of digits that ends the number. */
  lemma ReadMinusDigits(ds: string, rest: string, lo: int, hi: int)
    requires ds != [] && forall i | 0 <= i < |ds| :: IsDigit(ds[i])
    requires rest == [] || !IsDigit(rest[0])
    requires lo <= 0 <= hi && lo <= -(ValueOf(ds) as int)
    ensures ReadInt("-" + ds + rest, lo, hi) == Extracted(-(ValueOf(ds) as int), true, rest)
  {
    assert "-" + ds + rest == "-" + (ds + rest);
    ReadMinusText(ds + rest, lo, hi);
    MagnitudeOfDigits(ds, rest, true, lo, hi);
  }

  /** Reading back what was written yields the same number, leaving the following text unread. */
  lemma RenderThenRead(v: int, rest: string, lo: int, hi: int)
    requires lo <= 0 <= hi && lo <= v <= hi
    requires rest == [] || !IsDigit(rest[0])
    ensures ReadInt(Render(v) + rest, lo, hi) == Extracted(v, true, rest)
  {
    if v < 0 {
      var m: nat := -v;
      var ds := DigitsOf(m);
      assert Render(v) == "-" + ds;
      ValueOfDigits(m);
      assert ValueOf(ds) == m;
      ReadMinusDigits(ds, rest, lo, hi);
    } else {
      var ds := DigitsOf(v);
      assert Render(v) == ds;
      ValueOfDigits(v);
      assert ValueOf(ds) == v;
      ReadDigits(ds, rest, lo, hi);
    }
  }
}
