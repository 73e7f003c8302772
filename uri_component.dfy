/**
 * `encodeURIComponent`, which the widget applies to the field value before
 * it becomes the last path segment of the preview link, and its inverse
 * `decodeURIComponent`, through which the round trip is stated. Characters
 * are Unicode scalar values; each one that is not unreserved is written as
 * its UTF-8 bytes, every byte as `%` and two upper-case hexadecimal digits.
 */
module UriComponent {
  import opened Wrappers

  /** The characters `encodeURIComponent` leaves as they are. */
  predicate IsUnreserved(c: char) {
    ('A' <= c <= 'Z') || ('a' <= c <= 'z') || ('0' <= c <= '9')
    || c == '-' || c == '_' || c == '.' || c == '!' || c == '~'
    || c == '*' || c == '\'' || c == '(' || c == ')'
  }

  predicate IsByte(b: int) { 0 <= b < 256 }

  /** The UTF-8 encoding of one Unicode scalar value. */
  function Utf8(c: char): (bytes: seq<int>)
    ensures 1 <= |bytes| <= 4
    ensures forall i :: 0 <= i < |bytes| ==> IsByte(bytes[i])
  {
    var n := c as int;
    var r0, q1 := n % 64, n / 64;
    var r1, q2 := q1 % 64, q1 / 64;
    var r2, q3 := q2 % 64, q2 / 64;
    if n < 0x80 then [n]
    else if n < 0x800 then [0xC0 + q1, 0x80 + r0]
    else if n < 0x10000 then [0xE0 + q2, 0x80 + r1, 0x80 + r0]
    else [0xF0 + q3, 0x80 + r2, 0x80 + r1, 0x80 + r0]
  }

  function HexDigit(d: int): (c: char)
    requires 0 <= d < 16
    ensures IsUnreserved(c)
  {
    if d < 10 then ('0' as int + d) as char else ('A' as int + d - 10) as char
  }

  /** The value of a hexadecimal digit of either case. */
  function HexValue(c: char): Option<int> {
    if '0' <= c <= '9' then Some(c as int - '0' as int)
    else if 'A' <= c <= 'F' then Some(c as int - 'A' as int + 10)
    else if 'a' <= c <= 'f' then Some(c as int - 'a' as int + 10)
    else None
  }

  function PercentByte(b: int): string
    requires IsByte(b)
  {
    ['%', HexDigit(b / 16), HexDigit(b % 16)]
  }

  function PercentBytes(bytes: seq<int>): (s: string)
    requires forall i :: 0 <= i < |bytes| ==> IsByte(bytes[i])
    ensures |s| == 3 * |bytes|
    ensures forall i :: 0 <= i < |s| ==> IsUnreserved(s[i]) || s[i] == '%'
  {
    if bytes == [] then [] else PercentByte(bytes[0]) + PercentBytes(bytes[1..])
  }

  function EncodeChar(c: char): (s: string)
    ensures forall i :: 0 <= i < |s| ==> IsUnreserved(s[i]) || s[i] == '%'
  {
    if IsUnreserved(c) then [c] else PercentBytes(Utf8(c))
  }

  /**
   * `encodeURIComponent(s)`. Every character of the result is unreserved or
   * a `%`; in particular the result holds no `/` and no `,`.
   */
  function Encode(s: string): (r: string)
    ensures forall i :: 0 <= i < |r| ==> IsUnreserved(r[i]) || r[i] == '%'
    ensures '/' !in r && ',' !in r
  {
    if s == [] then [] else EncodeChar(s[0]) + Encode(s[1..])
  }

  // ---------------------------------------------------------------------
  // decodeURIComponent

  /** The byte written as `%HH` at the start of `s`, if there is one. */
  function ReadByte(s: string): (r: Option<int>)
    ensures r.Some? ==> |s| >= 3 && IsByte(r.value)
  {
    if |s| < 3 || s[0] != '%' then None
    else match (HexValue(s[1]), HexValue(s[2]))
      case (Some(high), Some(low)) => Some(16 * high + low)
      case _ => None
  }

  /** `count` bytes written as `%HH%HH…` at the start of `s`. */
  function ReadBytes(s: string, count: nat): (r: Option<seq<int>>)
    ensures r.Some? ==> |r.value| == count && 3 * count <= |s|
    ensures r.Some? ==> forall i :: 0 <= i < count ==> IsByte(r.value[i])
  {
    if count == 0 then Some([])
    else match ReadByte(s)
      case None => None
      case Some(b) =>
        match ReadBytes(s[3..], count - 1)
        case None => None
        case Some(bs) => Some([b] + bs)
  }

  /** How many bytes a UTF-8 sequence starting with `lead` has; 0 if `lead` cannot start one. */
  function SequenceLength(lead: int): nat {
    if lead < 0x80 then 1
    else if 0xC0 <= lead < 0xE0 then 2
    else if 0xE0 <= lead < 0xF0 then 3
    else if 0xF0 <= lead < 0xF8 then 4
    else 0
  }

  predicate IsContinuation(b: int) { 0x80 <= b < 0xC0 }

  /** The code point a UTF-8 sequence of one to four bytes spells. */
  function CodePoint(bytes: seq<int>): int
    requires 1 <= |bytes| <= 4
  {
    if |bytes| == 1 then bytes[0]
    else if |bytes| == 2 then (bytes[0] - 0xC0) * 64 + (bytes[1] - 0x80)
    else if |bytes| == 3 then ((bytes[0] - 0xE0) * 64 + (bytes[1] - 0x80)) * 64 + (bytes[2] - 0x80)
    else (((bytes[0] - 0xF0) * 64 + (bytes[1] - 0x80)) * 64 + (bytes[2] - 0x80)) * 64 + (bytes[3] - 0x80)
  }

  predicate IsScalarValue(n: int) { 0 <= n < 0xD800 || 0xE000 <= n <= 0x10FFFF }

  /**
   * A well-formed UTF-8 sequence: continuation bytes where they belong, the
   * shortest form for its code point, and a code point that is a scalar
   * value (no surrogate, nothing above U+10FFFF).
   */
  predicate IsWellFormed(bytes: seq<int>) {
    1 <= |bytes| <= 4 && SequenceLength(bytes[0]) == |bytes|
    && (forall i :: 1 <= i < |bytes| ==> IsContinuation(bytes[i]))
    && IsScalarValue(CodePoint(bytes))
    && CodePoint(bytes) >= (if |bytes| == 1 then 0 else if |bytes| == 2 then 0x80 else if |bytes| == 3 then 0x800 else 0x10000)
  }

  function Prepend(c: char, rest: Option<string>): Option<string> {
    match rest
    case None => None
    case Some(t) => Some([c] + t)
  }

  /**
   * `decodeURIComponent(s)`: every `%HH…` escape spelling a well-formed
   * UTF-8 sequence becomes its character, every other character stays;
   * `None` is the `URIError` thrown for a malformed escape.
   */
  function Decode(s: string): Option<string>
    decreases |s|
  {
    if s == [] then Some([])
    else if s[0] != '%' then Prepend(s[0], Decode(s[1..]))
    else match ReadByte(s)
      case None => None
      case Some(lead) =>
        var count := SequenceLength(lead);
        if count == 0 then None
        else match ReadBytes(s, count)
          case None => None
          case Some(bytes) =>
            if IsWellFormed(bytes) then Prepend(CodePoint(bytes) as char, Decode(s[3 * count..]))
            else None
  }

  // ---------------------------------------------------------------------
  // The round trip

  lemma HexRoundTrip(d: int)
    requires 0 <= d < 16
    ensures HexValue(HexDigit(d)) == Some(d)
  {
  }

  lemma ReadPercentByte(b: int, rest: string)
    requires IsByte(b)
    ensures ReadByte(PercentByte(b) + rest) == Some(b)
  {
  }

  lemma {:induction false} ReadPercentBytes(bytes: seq<int>, rest: string)
    requires forall i :: 0 <= i < |bytes| ==> IsByte(bytes[i])
    ensures ReadBytes(PercentBytes(bytes) + rest, |bytes|) == Some(bytes)
  {
    if bytes != [] {
      var s := PercentBytes(bytes) + rest;
      assert s == PercentByte(bytes[0]) + (PercentBytes(bytes[1..]) + rest);
      ReadPercentByte(bytes[0], PercentBytes(bytes[1..]) + rest);
      assert s[3..] == PercentBytes(bytes[1..]) + rest;
      ReadPercentBytes(bytes[1..], rest);
      assert [bytes[0]] + bytes[1..] == bytes;
    }
  }

  /** The UTF-8 encoding of a character is well formed and spells that character. */
  lemma Utf8WellFormed(c: char)
    ensures IsWellFormed(Utf8(c)) && CodePoint(Utf8(c)) == c as int
  {
  }

  lemma DecodeEncodeChar(c: char, rest: string)
    ensures Decode(EncodeChar(c) + rest) == Prepend(c, Decode(rest))
  {
    if IsUnreserved(c) {
      DecodeUnreservedChar(c, rest);
    } else {
      DecodeEscapedChar(c, rest);
    }
  }

  lemma DecodeUnreservedChar(c: char, rest: string)
    requires IsUnreserved(c)
    ensures Decode(EncodeChar(c) + rest) == Prepend(c, Decode(rest))
  {
    var s := EncodeChar(c) + rest;
    assert s[0] == c && s[1..] == rest;
  }

  lemma DecodeEscapedChar(c: char, rest: string)
    requires !IsUnreserved(c)
    ensures Decode(EncodeChar(c) + rest) == Prepend(c, Decode(rest))
  {
    Utf8WellFormed(c);
    DecodeEscapedSequence(Utf8(c), rest);
  }

  /** A well-formed UTF-8 sequence written as `%HH` escapes decodes to its one character. */
  lemma DecodeEscapedSequence(bytes: seq<int>, rest: string)
    requires forall i :: 0 <= i < |bytes| ==> IsByte(bytes[i])
    requires IsWellFormed(bytes)
    ensures Decode(PercentBytes(bytes) + rest) == Prepend(CodePoint(bytes) as char, Decode(rest))
  {
    var s := PercentBytes(bytes) + rest;
    assert s == PercentByte(bytes[0]) + (PercentBytes(bytes[1..]) + rest);
    ReadPercentByte(bytes[0], PercentBytes(bytes[1..]) + rest);
    ReadPercentBytes(bytes, rest);
    assert s[3 * |bytes|..] == rest;
  }

  /** `decodeURIComponent(encodeURIComponent(s)) == s` for every string. */
  lemma {:induction false} DecodeEncode(s: string)
    ensures Decode(Encode(s)) == Some(s)
  {
    if s != [] {
      DecodeEncodeChar(s[0], Encode(s[1..]));
      DecodeEncode(s[1..]);
      assert [s[0]] + s[1..] == s;
    }
  }
}
