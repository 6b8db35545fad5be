/** String operations of the language the program is written in, with the facts about them that are used here. */
module Text {

  /** True when `part` stands in `s` at index `i`. */
  predicate HasAt(s: string, i: nat, part: string) {
    i + |part| <= |s| && s[i..i + |part|] == part
  }

  /** `s.includes(part)`. */
  predicate Includes(s: string, part: string) {
    exists i | 0 <= i <= |s| :: HasAt(s, i, part)
  }

  lemma IncludesLonger(before: string, s: string, after: string, part: string)
    requires Includes(s, part)
    ensures Includes(before + s + after, part)
  {
    var i :| 0 <= i <= |s| && HasAt(s, i, part);
    var whole := before + s + after;
    assert whole[|before| + i..|before| + i + |part|] == s[i..i + |part|];
    assert HasAt(whole, |before| + i, part);
  }

  /** `s.split(c)`; there is always one piece at least. */
  function Split(s: string, c: char): (pieces: seq<string>)
    ensures |pieces| >= 1
  {
    if s == "" then [""]
    else
      AddFront(s[0], c, Split(s[1..], c))
  }

  /** The pieces of a string that starts with `first`, from those of the rest of it. */
  function AddFront(first: char, c: char, pieces: seq<string>): (r: seq<string>)
    requires |pieces| >= 1
    ensures |r| >= 1
  {
    if first == c then [""] + pieces else [[first] + pieces[0]] + pieces[1..]
  }

  function Join(pieces: seq<string>, separator: string): string {
    if pieces == [] then ""
    else if |pieces| == 1 then pieces[0]
    else pieces[0] + separator + Join(pieces[1..], separator)
  }

  lemma AddFrontConcat(first: char, c: char, a: seq<string>, b: seq<string>)
    requires a != []
    ensures AddFront(first, c, a + b) == AddFront(first, c, a) + b
  {
    assert (a + b)[0] == a[0];
    assert (a + b)[1..] == a[1..] + b;
    assert [""] + (a + b) == ([""] + a) + b;
  }

  // Splitting at a separator that was put in between gives the pieces of both sides.
  lemma {:induction false} SplitConcat(a: string, c: char, b: string)
    ensures Split(a + [c] + b, c) == Split(a, c) + Split(b, c)
  {
    var s := a + [c] + b;
    if a == "" {
      assert s[1..] == b;
    } else {
      hide AddFront;
      SplitConcat(a[1..], c, b);
      assert s[1..] == a[1..] + [c] + b;
      AddFrontConcat(a[0], c, Split(a[1..], c), Split(b, c));
    }
  }

  /** `s.indexOf(c)`, or the length of `s` where that is -1. */
  function IndexOf(s: string, c: char): (i: nat)
    ensures i <= |s| && c !in s[..i] && (i < |s| ==> s[i] == c)
  {
    if s == "" || s[0] == c then 0
    else
      var i := IndexOf(s[1..], c);
      assert s[..i + 1] == [s[0]] + s[1..][..i];
      i + 1
  }

  /** The UTF-16 code units of `s`, which is what the language counts and compares. */
  function Utf16(s: string): seq<nat> {
    if s == "" then [] else CharUnits(s[0]) + Utf16(s[1..])
  }

  function CharUnits(c: char): (units: seq<nat>)
    ensures 1 <= |units| <= 2
    ensures |units| == 2 <==> 0xD800 <= units[0] < 0xDC00
  {
    var code := c as int;
    if code < 0x10000 then [code] else [0xD800 + (code - 0x10000) / 0x400, 0xDC00 + (code - 0x10000) % 0x400]
  }

  lemma CharUnitsPrefixFree(c: char, d: char, x: seq<nat>, y: seq<nat>)
    requires CharUnits(c) + x == CharUnits(d) + y
    ensures c == d && x == y
  {
    var both := CharUnits(c) + x;
    var n := |CharUnits(c)|;
    assert both[0] == CharUnits(c)[0] == CharUnits(d)[0];
    assert n == |CharUnits(d)|;
    assert both[..n] == CharUnits(c) && both[..n] == CharUnits(d);
    assert both[n..] == x && both[n..] == y;
    assert n == 2 ==> CharUnits(c)[1] == CharUnits(d)[1];
    assert c as int == d as int;
  }

  lemma {:induction false} Utf16Injective(a: string, b: string)
    requires Utf16(a) == Utf16(b)
    ensures a == b
  {
    if a != "" && b != "" {
      CharUnitsPrefixFree(a[0], b[0], Utf16(a[1..]), Utf16(b[1..]));
      Utf16Injective(a[1..], b[1..]);
    }
    Utf16Length(a);
    Utf16Length(b);
  }

  lemma Utf16Length(s: string)
    ensures |Utf16(s)| == 0 <==> s == ""
  {
  }

  /** `toUpperCase` on the characters that issue keys and method names are made of. */
  function UpperChar(c: char): char {
    if 'a' <= c <= 'z' then c - 'a' + 'A'
    else if c == '\U{017F}' then 'S'
    else c
  }

  function Upper(s: string): (r: string)
    ensures |r| == |s| && forall i | 0 <= i < |s| :: r[i] == UpperChar(s[i])
  {
    seq(|s|, i requires 0 <= i < |s| => UpperChar(s[i]))
  }

  // Joined pieces that are free of the separator can be told apart again.
  lemma {:induction false} SplitJoin(pieces: seq<string>, c: char)
    requires pieces != [] && forall piece | piece in pieces :: c !in piece
    ensures Split(Join(pieces, [c]), c) == pieces
  {
    assert pieces[0] in pieces;
    SplitClean(pieces[0], c);
    if |pieces| > 1 {
      var rest := Join(pieces[1..], [c]);
      SplitJoin(pieces[1..], c);
      SplitConcat(pieces[0], c, rest);
      assert Join(pieces, [c]) == pieces[0] + [c] + rest;
      assert pieces == [pieces[0]] + pieces[1..];
    }
  }

  lemma {:induction false} SplitClean(s: string, c: char)
    requires c !in s
    ensures Split(s, c) == [s]
  {
    if s != "" {
      SplitClean(s[1..], c);
      assert s == [s[0]] + s[1..];
    }
  }

  lemma {:induction false} JoinedChars(pieces: seq<string>, separator: char, c: char)
    requires c in Join(pieces, [separator])
    ensures c == separator || exists x :: 0 <= x < |pieces| && c in pieces[x]
  {
    if |pieces| > 1 && c !in pieces[0] && c != separator {
      JoinedChars(pieces[1..], separator, c);
    } else if pieces != [] && c in pieces[0] {
      assert 0 < |pieces| && c in pieces[0];
    }
  }

  // The first separator splits a string in one way only.
  lemma FirstSeparator(a: string, c: char, x: string, b: string, y: string)
    requires c !in a && c !in b && a + [c] + x == b + [c] + y
    ensures a == b && x == y
  {
    var s := a + [c] + x;
    assert s[|a|] == c && s[|b|] == c;
    assert forall k | 0 <= k < |a| :: s[k] == a[k];
    assert forall k | 0 <= k < |b| :: s[k] == b[k];
    assert a == s[..|a|] && b == s[..|b|];
    assert x == s[|a| + 1..] && y == s[|b| + 1..];
  }
}
