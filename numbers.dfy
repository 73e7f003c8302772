/**
 * The JavaScript number built-ins the focal point widget relies on:
 * `Math.round`, `parseInt(_, 10)` on strings and on numbers, and the
 * decimal rendering of an integer when it is concatenated to a string.
 * Numbers are exact: pixels are reals, percentages are integers.
 */
module Numbers {
  import opened Wrappers

  /** `Math.round`: the nearest integer, with halves rounded toward +infinity. */
  function Round(v: real): (r: int)
    ensures r as real - 0.5 <= v < r as real + 0.5
  {
    (v + 0.5).Floor
  }

  function Abs(x: real): real { if x < 0.0 then -x else x }

  /** No integer lies strictly closer to `v` than `Round(v)`. */
  lemma RoundIsNearest(v: real, k: int)
    ensures Abs(v - Round(v) as real) <= Abs(v - k as real)
  {
    var r := Round(v);
    if k < r {
      assert k as real <= r as real - 1.0;
    } else if k > r {
      assert k as real >= r as real + 1.0;
    }
  }

  /** Rounding never reverses the order of two numbers. */
  lemma RoundMonotone(u: real, w: real)
    requires u <= w
    ensures Round(u) <= Round(w)
  {
  }

  /** An integer is its own rounding. */
  lemma RoundOfInteger(k: int)
    ensures Round(k as real) == k
  {
  }

  /**
   * `parseInt(x, 10)` applied to a number `x` that prints in plain decimal
   * notation: the digits before the decimal point, with the sign kept,
   * i.e. truncation toward zero.
   */
  function Trunc(x: real): (r: int)
    ensures 0.0 <= x ==> 0 <= r && r as real <= x < r as real + 1.0
    ensures x < 0.0 ==> r <= 0 && r as real - 1.0 < x <= r as real
  {
    if 0.0 <= x then x.Floor else -((-x).Floor)
  }

  // ---------------------------------------------------------------------
  // Decimal digits

  predicate IsDigit(c: char) { '0' <= c <= '9' }

  function DigitValue(c: char): (d: nat)
    requires IsDigit(c)
    ensures d < 10
  {
    (c as int) - ('0' as int)
  }

  function DigitChar(d: nat): (c: char)
    requires d < 10
    ensures IsDigit(c) && DigitValue(c) == d
  {
    ('0' as int + d) as char
  }

  /** The value of a string of decimal digits, most significant first. */
  function DigitsValue(ds: string): nat
    requires forall i :: 0 <= i < |ds| ==> IsDigit(ds[i])
  {
    if ds == [] then 0 else 10 * DigitsValue(ds[..|ds| - 1]) + DigitValue(ds[|ds| - 1])
  }

  /** The decimal rendering of a natural number, without leading zeros. */
  function NatToString(n: nat): (s: string)
    ensures |s| >= 1 && IsDigit(s[0])
    ensures forall i :: 0 <= i < |s| ==> IsDigit(s[i])
    ensures n >= 10 ==> s[0] != '0'
  {
    if n < 10 then [DigitChar(n)] else NatToString(n / 10) + [DigitChar(n % 10)]
  }

  /** The string JavaScript produces when an integer is concatenated to a string. */
  function IntToString(n: int): (s: string)
    ensures |s| >= (if n < 0 then 2 else 1)
    ensures s[0] == '-' <==> n < 0
    ensures forall i :: (if n < 0 then 1 else 0) <= i < |s| ==> IsDigit(s[i])
  {
    if n < 0 then "-" + NatToString(-n) else NatToString(n)
  }

  lemma {:induction false} DigitsValueOfNatToString(n: nat)
    ensures DigitsValue(NatToString(n)) == n
  {
    if n >= 10 {
      var s := NatToString(n);
      assert s[..|s| - 1] == NatToString(n / 10);
      DigitsValueOfNatToString(n / 10);
    }
  }

  // ---------------------------------------------------------------------
  // parseInt(string, 10)

  /**
   * The characters `parseInt` skips before the number: the white space
   * and line terminators of ECMAScript (tab, vertical tab, form feed,
   * space, no-break space, byte order mark, every space separator, line
   * feed, carriage return, line and paragraph separators).
   */
  predicate IsStrWhiteSpace(c: char) {
    c == '\t' || c == '\n' || c == '\U{B}' || c == '\U{C}' || c == '\r' || c == ' '
    || c == '\U{A0}' || c == '\U{1680}' || ('\U{2000}' <= c <= '\U{200A}')
    || c == '\U{2028}' || c == '\U{2029}' || c == '\U{202F}' || c == '\U{205F}'
    || c == '\U{3000}' || c == '\U{FEFF}'
  }

  function TrimStart(s: string): (t: string)
    ensures |t| <= |s|
    ensures t == [] || !IsStrWhiteSpace(t[0])
    ensures forall i :: 0 <= i < |t| ==> t[i] in s
  {
    if s != [] && IsStrWhiteSpace(s[0]) then TrimStart(s[1..]) else s
  }

  /** The length of the longest prefix of `s` made of decimal digits. */
  function DigitPrefixLength(s: string): (k: nat)
    ensures k <= |s|
    ensures forall i :: 0 <= i < k ==> IsDigit(s[i])
    ensures k < |s| ==> !IsDigit(s[k])
  {
    if s == [] || !IsDigit(s[0]) then 0 else 1 + DigitPrefixLength(s[1..])
  }

  /**
   * `parseInt(s, 10)`: skip leading white space, take one optional sign,
   * then the longest run of decimal digits; anything after it is ignored.
   * `None` stands for NaN, the result when there is no digit at all.
   */
  function ParseInt(s: string): (r: Option<int>)
    ensures (forall i :: 0 <= i < |s| ==> !IsDigit(s[i])) ==> r == None
    ensures r.Some? && r.value < 0 ==> '-' in s
  {
    ParseSigned(TrimStart(s))
  }

  function ParseSigned(t: string): (r: Option<int>)
    ensures (forall i :: 0 <= i < |t| ==> !IsDigit(t[i])) ==> r == None
    ensures r.Some? && r.value < 0 ==> t != [] && t[0] == '-'
  {
    if t != [] && t[0] == '-' then
      match ParseDigits(t[1..])
      case None => None
      case Some(m) => Some(-m)
    else if t != [] && t[0] == '+' then ParseDigits(t[1..])
    else ParseDigits(t)
  }

  /** The value of the digits `u` starts with; `None` when it starts with none. */
  function ParseDigits(u: string): (r: Option<int>)
    ensures r.Some? ==> u != [] && IsDigit(u[0]) && r.value >= 0
  {
    var k := DigitPrefixLength(u);
    if k == 0 then None else Some(DigitsValue(u[..k]))
  }

  lemma {:induction false} DigitPrefixOfDigitsThen(a: string, b: string)
    requires forall i :: 0 <= i < |a| ==> IsDigit(a[i])
    requires b == [] || !IsDigit(b[0])
    ensures DigitPrefixLength(a + b) == |a|
  {
    if a != [] {
      assert (a + b)[1..] == a[1..] + b;
      DigitPrefixOfDigitsThen(a[1..], b);
    }
  }

  lemma ParseDigitsOfNatToString(m: nat, rest: string)
    requires rest == [] || !IsDigit(rest[0])
    ensures ParseDigits(NatToString(m) + rest) == Some(m)
  {
    var d := NatToString(m);
    DigitPrefixOfDigitsThen(d, rest);
    assert (d + rest)[..|d|] == d;
    DigitsValueOfNatToString(m);
  }

  lemma TrimStartAtDigitOrSign(s: string)
    requires s != [] && (IsDigit(s[0]) || s[0] == '-')
    ensures TrimStart(s) == s
  {
  }

  /**
   * `parseInt` reads back the integer JavaScript printed, whatever follows
   * it, as long as what follows does not begin with a digit.
   */
  lemma ParseIntOfIntToString(n: int, rest: string)
    requires rest == [] || !IsDigit(rest[0])
    ensures ParseInt(IntToString(n) + rest) == Some(n)
  {
    if n < 0 {
      ParseNegative(-n, rest);
    } else {
      ParsePositive(n, rest);
    }
  }

  lemma ParsePositive(m: nat, rest: string)
    requires rest == [] || !IsDigit(rest[0])
    ensures ParseInt(NatToString(m) + rest) == Some(m)
  {
    TrimStartAtDigitOrSign(NatToString(m) + rest);
    ParseDigitsOfNatToString(m, rest);
  }

  lemma ParseNegative(m: nat, rest: string)
    requires rest == [] || !IsDigit(rest[0])
    ensures ParseInt(['-'] + NatToString(m) + rest) == Some(-(m as int))
  {
    var s := ['-'] + NatToString(m) + rest;
    TrimStartAtDigitOrSign(s);
    ParseSignedNegative(m, rest);
  }

  lemma ParseSignedNegative(m: nat, rest: string)
    requires rest == [] || !IsDigit(rest[0])
    ensures ParseSigned(['-'] + NatToString(m) + rest) == Some(-(m as int))
  {
    var s := ['-'] + NatToString(m) + rest;
    assert s[1..] == NatToString(m) + rest;
    ParseDigitsOfNatToString(m, rest);
  }

  /** `parseInt` never sees a number in the word JavaScript prints for a missing array element. */
  lemma ParseIntOfUndefined()
    ensures ParseInt("undefined") == None
  {
  }
}
