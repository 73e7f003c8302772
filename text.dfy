/**
 * `String.prototype.split` with a one-character separator and
 * `Array.prototype.join`, the two string built-ins the widget uses to take
 * the field value and the preview link apart and put them back together.
 */
module Text {

  /** `s.split(sep)`: the pieces between separators, always at least one. */
  function Split(s: string, sep: char): (parts: seq<string>)
    ensures |parts| >= 1
    ensures forall i :: 0 <= i < |parts| ==> sep !in parts[i]
  {
    if s == [] then [[]]
    else
      var rest := Split(s[1..], sep);
      if s[0] == sep then [[]] + rest else [[s[0]] + rest[0]] + rest[1..]
  }

  /**
   * `parts.join(sep)`. When no part holds the separator, splitting the result
   * gives the parts back.
   */
  function Join(parts: seq<string>, sep: char): (r: string)
    ensures |parts| >= 1 && (forall i :: 0 <= i < |parts| ==> sep !in parts[i]) ==>
              Split(r, sep) == parts
  {
    if |parts| == 0 then []
    else if |parts| == 1 then
      SplitWithoutSeparator(parts[0], sep);
      parts[0]
    else
      var rest := Join(parts[1..], sep);
      SplitAtFirstSeparator(parts[0], rest, sep);
      assert [parts[0]] + parts[1..] == parts;
      parts[0] + [sep] + rest
  }

  /** Splitting and joining again with the same separator gives the string back. */
  lemma {:induction false} JoinSplit(s: string, sep: char)
    ensures Join(Split(s, sep), sep) == s
  {
    if s != [] {
      var rest := Split(s[1..], sep);
      JoinSplit(s[1..], sep);
      if s[0] == sep {
        JoinAfterEmptyPiece(rest, sep);
      } else {
        JoinExtendingFirstPiece(s[0], rest, sep);
      }
    }
  }

  lemma JoinAfterEmptyPiece(rest: seq<string>, sep: char)
    requires |rest| >= 1
    ensures Join([[]] + rest, sep) == [sep] + Join(rest, sep)
  {
    assert ([[]] + rest)[1..] == rest;
  }

  lemma JoinExtendingFirstPiece(c: char, rest: seq<string>, sep: char)
    requires |rest| >= 1
    ensures Join([[c] + rest[0]] + rest[1..], sep) == [c] + Join(rest, sep)
  {
    var parts := [[c] + rest[0]] + rest[1..];
    if |rest| > 1 {
      assert parts[1..] == rest[1..];
    }
  }

  /** A string without the separator is one piece. */
  lemma {:induction false} SplitWithoutSeparator(a: string, sep: char)
    ensures sep !in a ==> Split(a, sep) == [a]
  {
    if a != [] && sep !in a {
      assert a[0] in a;
      SplitWithoutSeparator(a[1..], sep);
      assert [a[0]] + a[1..] == a;
    }
  }

  /** The first separator ends the first piece; the rest splits on its own. */
  lemma {:induction false} SplitAtFirstSeparator(a: string, b: string, sep: char)
    ensures sep !in a ==> Split(a + [sep] + b, sep) == [a] + Split(b, sep)
  {
    if sep in a {
    } else if a == [] {
      assert (a + [sep] + b)[1..] == b;
    } else {
      assert a[0] in a;
      assert (a + [sep] + b)[1..] == a[1..] + [sep] + b;
      SplitAtFirstSeparator(a[1..], b, sep);
      assert [a[0]] + a[1..] == a;
    }
  }
}
