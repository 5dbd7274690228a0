/**
 * The string operations the server applies to URLs: `String.prototype.split`
 * on one separator character, and its inverse, joining with that character;
 * and the UTF-16 code units that JavaScript string lengths and `slice` count.
 */
module Strings {

  /** The text before the first `c` in `s`; all of `s` when `c` does not occur. */
  function Before(s: string, c: char): (r: string)
    ensures c !in r
    ensures r <= s
    ensures c in s ==> |r| < |s| && s[|r|] == c
    ensures c !in s ==> r == s
  {
    if s == [] || s[0] == c then [] else [s[0]] + Before(s[1..], c)
  }

  /** The text after the first `c` in `s`; empty when `c` does not occur. */
  function After(s: string, c: char): (r: string)
    ensures c in s ==> s == Before(s, c) + [c] + r
    ensures c !in s ==> r == []
  {
    if s == [] then []
    else if s[0] == c then s[1..]
    else
      assert c in s ==> c in s[1..];
      After(s[1..], c)
  }

  /** Splitting at the first `c` of `a + [c] + b` gives back `a` and `b` when `a` holds no `c`. */
  lemma {:induction false} SplitAtFirst(a: string, b: string, c: char)
    requires c !in a
    ensures Before(a + [c] + b, c) == a
    ensures After(a + [c] + b, c) == b
  {
    var s := a + [c] + b;
    assert s[|a|] == c;
    var p := Before(s, c);
    assert p == s[..|a|] == a;
    assert After(s, c) == s[|a| + 1..] == b;
  }

  /** `s.split(c)`: the maximal pieces of `s` that contain no `c`, in order. */
  function Split(s: string, c: char): (r: seq<string>)
    ensures |r| >= 1
    ensures forall p :: p in r ==> c !in p
    ensures c in s <==> |r| >= 2
    ensures r[0] == Before(s, c)
    ensures |r| >= 2 ==> r[1] == Before(After(s, c), c)
    decreases |s|
  {
    if c in s then [Before(s, c)] + Split(After(s, c), c) else [s]
  }

  /** `parts.join(c)`. */
  function Join(parts: seq<string>, c: char): string
  {
    if |parts| == 0 then ""
    else if |parts| == 1 then parts[0]
    else parts[0] + [c] + Join(parts[1..], c)
  }

  /** Joining the pieces of a split restores the original string. */
  lemma {:induction false} JoinSplit(s: string, c: char)
    ensures Join(Split(s, c), c) == s
    decreases |s|
  {
    if c in s {
      var rest := After(s, c);
      JoinSplit(rest, c);
      var r := Split(s, c);
      assert r == [Before(s, c)] + Split(rest, c);
      assert r[1..] == Split(rest, c);
    }
  }

  /** Splitting a join of pieces that contain no separator gives back the pieces. */
  lemma {:induction false} SplitJoin(parts: seq<string>, c: char)
    requires |parts| >= 1
    requires forall p :: p in parts ==> c !in p
    ensures Split(Join(parts, c), c) == parts
  {
    if |parts| > 1 {
      var rest := Join(parts[1..], c);
      assert parts[0] in parts;
      SplitAtFirst(parts[0], rest, c);
      assert forall p :: p in parts[1..] ==> p in parts;
      SplitJoin(parts[1..], c);
      assert c in Join(parts, c) by { assert Join(parts, c)[|parts[0]|] == c; }
    } else {
      assert parts[0] in parts;
    }
  }

  // ----------------------------------------------------------- UTF-16

  type CodeUnit = u: int | 0 <= u < 0x1_0000

  /** Every character of `s` lies in the Basic Multilingual Plane. */
  predicate IsBmp(s: string)
  {
    forall i | 0 <= i < |s| :: (s[i] as int) < 0x1_0000
  }

  /** The UTF-16 code units of one character: itself, or a surrogate pair above U+FFFF. */
  function Utf16Char(c: char): (r: seq<CodeUnit>)
    ensures (c as int) < 0x1_0000 ==> r == [c as int]
    ensures (c as int) >= 0x1_0000 ==> |r| == 2 && 0xD800 <= r[0] < 0xDC00 && 0xDC00 <= r[1] < 0xE000
    ensures (c as int) >= 0x1_0000 ==> (r[0] as int - 0xD800) * 0x400 + (r[1] as int - 0xDC00) + 0x1_0000 == c as int
  {
    var n := c as int - 0x1_0000;
    if n < 0 then [c as int] else [0xD800 + n / 0x400, 0xDC00 + n % 0x400]
  }

  /** `s` as a JavaScript string: its UTF-16 code units. */
  function Utf16(s: string): (r: seq<CodeUnit>)
    ensures |r| >= |s|
    ensures IsBmp(s) ==> |r| == |s| && forall i | 0 <= i < |s| :: r[i] == s[i] as int
  {
    if s == [] then [] else Utf16Char(s[0]) + Utf16(s[1..])
  }

  /** The code units of a concatenation are those of each part in turn. */
  lemma {:induction false} Utf16Concat(a: string, b: string)
    ensures Utf16(a + b) == Utf16(a) + Utf16(b)
  {
    if a == [] {
      assert a + b == b;
    } else {
      assert (a + b)[0] == a[0] && (a + b)[1..] == a[1..] + b;
      calc {
        Utf16(a + b);
        Utf16Char(a[0]) + Utf16(a[1..] + b);
        { Utf16Concat(a[1..], b); }
        Utf16Char(a[0]) + (Utf16(a[1..]) + Utf16(b));
        Utf16(a) + Utf16(b);
      }
    }
  }
}
