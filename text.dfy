/**
 * JavaScript strings as sequences of UTF-16 code units, and splitting and
 * joining such strings at a separator unit (the reference used to read back
 * the segments of a URL path).
 */
module Utf16Text {

  /** One UTF-16 code unit, the element of a JavaScript string. */
  newtype CodeUnit = x: int | 0 <= x < 0x1_0000

  /** A JavaScript string. */
  type Text = seq<CodeUnit>

  const Underscore: CodeUnit := 0x5F
  const Slash: CodeUnit := 0x2F

  /** The UTF-16 code units of one Unicode scalar value: astral characters
      become a surrogate pair. */
  function CodeUnitsOf(c: char): (r: Text)
    ensures 1 <= |r| <= 2
    ensures |r| == 1 <==> (c as int) < 0x1_0000
    ensures |r| == 1 ==> r[0] as int == c as int
    ensures |r| == 2 ==> 0xD800 <= r[0] < 0xDC00 && 0xDC00 <= r[1] < 0xE000
  {
    if (c as int) < 0x1_0000 then [c as int as CodeUnit]
    else SurrogatePair(c as int - 0x1_0000)
  }

  /** The high and low surrogate for an astral character's offset above
      U+FFFF. */
  function SurrogatePair(v: int): (r: Text)
    requires 0 <= v < 0x10_0000
    ensures |r| == 2 && 0xD800 <= r[0] < 0xDC00 && 0xDC00 <= r[1] < 0xE000
    ensures (r[0] as int - 0xD800) * 0x400 + (r[1] as int - 0xDC00) == v
  {
    [(0xD800 + v / 0x400) as CodeUnit, (0xDC00 + v % 0x400) as CodeUnit]
  }

  /** The JavaScript string with the same characters as a Dafny string. */
  function Utf16(s: string): (r: Text)
    ensures |s| <= |r| <= 2 * |s|
  {
    if s == [] then [] else CodeUnitsOf(s[0]) + Utf16(s[1..])
  }

  /** The pieces of `s` between occurrences of `sep`, in order (as
      JavaScript's `s.split(sep)` gives them): never empty, and no piece
      contains `sep`. */
  function Split(s: Text, sep: CodeUnit): (parts: seq<Text>)
    ensures |parts| >= 1
    ensures forall k :: 0 <= k < |parts| ==> sep !in parts[k]
    decreases |s|
  {
    if s == [] then [[]]
    else
      var rest := Split(s[1..], sep);
      if s[0] == sep then [[]] + rest
      else [[s[0]] + rest[0]] + rest[1..]
  }

  /** The pieces put back together with `sep` between neighbours. */
  function Join(parts: seq<Text>, sep: CodeUnit): (s: Text)
  {
    if |parts| == 0 then []
    else if |parts| == 1 then parts[0]
    else parts[0] + [sep] + Join(parts[1..], sep)
  }

  /** A text without the separator is a single piece. */
  lemma {:induction false} SplitWhole(s: Text, sep: CodeUnit)
    requires sep !in s
    ensures Split(s, sep) == [s]
    decreases |s|
  {
    if s != [] {
      SplitWhole(s[1..], sep);
      assert [s[0]] + s[1..] == s;
    }
  }

  /** The first piece ends at the first separator. */
  lemma {:induction false} SplitAt(a: Text, sep: CodeUnit, b: Text)
    requires sep !in a
    ensures Split(a + [sep] + b, sep) == [a] + Split(b, sep)
    decreases |a|
  {
    var s := a + [sep] + b;
    if a == [] {
      assert s[0] == sep && s[1..] == b;
    } else {
      assert s[0] == a[0];
      assert s[1..] == a[1..] + [sep] + b;
      SplitAt(a[1..], sep, b);
      assert [a[0]] + a[1..] == a;
    }
  }

  /** Splitting and joining again gives back the text. */
  lemma {:induction false} JoinSplit(s: Text, sep: CodeUnit)
    ensures Join(Split(s, sep), sep) == s
    decreases |s|
  {
    if s != [] {
      var rest := Split(s[1..], sep);
      JoinSplit(s[1..], sep);
      if s[0] == sep {
        assert Split(s, sep) == [[]] + rest;
        if |rest| == 1 {
          assert Join(rest, sep) == rest[0];
        }
        assert Join([[]] + rest, sep) == [] + [sep] + Join(rest, sep);
        assert [sep] + s[1..] == s;
      } else {
        var parts := [[s[0]] + rest[0]] + rest[1..];
        assert Split(s, sep) == parts;
        if |rest| == 1 {
          assert Join(parts, sep) == [s[0]] + rest[0];
        } else {
          assert parts[1..] == rest[1..];
          assert Join(parts, sep) == [s[0]] + rest[0] + [sep] + Join(rest[1..], sep);
          assert Join(rest, sep) == rest[0] + [sep] + Join(rest[1..], sep);
        }
        assert [s[0]] + s[1..] == s;
      }
    }
  }

  /** Joining pieces that do not contain the separator and splitting again
      gives back the pieces. */
  lemma {:induction false} SplitJoin(parts: seq<Text>, sep: CodeUnit)
    requires |parts| >= 1
    requires forall k :: 0 <= k < |parts| ==> sep !in parts[k]
    ensures Split(Join(parts, sep), sep) == parts
    decreases |parts|
  {
    if |parts| == 1 {
      SplitWhole(parts[0], sep);
    } else {
      SplitJoin(parts[1..], sep);
      SplitAt(parts[0], sep, Join(parts[1..], sep));
      assert [parts[0]] + parts[1..] == parts;
    }
  }

  /** Three pieces without the separator, joined by it, split back into
      exactly those three pieces. */
  lemma SplitThree(a: Text, b: Text, c: Text, sep: CodeUnit)
    requires sep !in a && sep !in b && sep !in c
    ensures Split(a + [sep] + b + [sep] + c, sep) == [a, b, c]
  {
    SplitWhole(c, sep);
    SplitAt(b, sep, c);
    SplitAt(a, sep, b + [sep] + c);
    assert a + [sep] + b + [sep] + c == a + [sep] + (b + [sep] + c);
  }
}
