/** Searching, cutting and trimming text. */
module Text {
  import opened Wrappers

  predicate OccursAt(s: string, part: string, i: nat) {
    i + |part| <= |s| && s[i..i + |part|] == part
  }

  ghost predicate Contains(s: string, part: string) {
    exists i: nat :: OccursAt(s, part, i)
  }

  /** The first place `part` occurs. */
  function IndexOf(s: string, part: string): (r: Option<nat>)
    ensures r.Some? ==> OccursAt(s, part, r.value) && forall j: nat :: j < r.value ==> !OccursAt(s, part, j)
    ensures r.None? <==> !Contains(s, part)
  {
    if OccursAt(s, part, 0) then Some(0)
    else if s == "" then None
    else
      var r := IndexOf(s[1..], part);
      ShiftOccurrences(s, part);
      if r.Some? then Some(r.value + 1) else None
  }

  lemma ShiftOccurrences(s: string, part: string)
    requires s != ""
    ensures forall i: nat :: OccursAt(s[1..], part, i) <==> OccursAt(s, part, i + 1)
    ensures forall j: nat :: 0 < j && OccursAt(s, part, j) ==> OccursAt(s[1..], part, j - 1)
  {
    forall i: nat ensures OccursAt(s[1..], part, i) <==> OccursAt(s, part, i + 1) {
      if i + 1 + |part| <= |s| { assert s[1..][i..i + |part|] == s[i + 1..i + 1 + |part|]; }
    }
  }

  /** The text before the first `part`, or all of it: the first piece of a split. */
  function Before(s: string, part: string): (r: string)
    ensures r <= s
    ensures part != "" ==> !Contains(r, part)
  {
    var k := IndexOf(s, part);
    if k.None? then s
    else
      assert part != "" ==> !Contains(s[..k.value], part) by { if part != "" { PrefixHasNoEarlier(s, part, k.value); } }
      s[..k.value]
  }

  lemma PrefixHasNoEarlier(s: string, part: string, k: nat)
    requires k <= |s| && part != "" && forall j: nat :: j < k ==> !OccursAt(s, part, j)
    ensures !Contains(s[..k], part)
  {
    forall j: nat ensures !OccursAt(s[..k], part, j) {
      if OccursAt(s[..k], part, j) {
        assert s[..k][j..j + |part|] == s[j..j + |part|];
        assert OccursAt(s, part, j);
      }
    }
  }

  lemma PrefixContains(a: string, s: string, part: string)
    requires a <= s && Contains(a, part)
    ensures Contains(s, part)
  {
    var i: nat :| OccursAt(a, part, i);
    assert s[i..i + |part|] == a[i..i + |part|];
    assert OccursAt(s, part, i);
  }

  /** One character that differs is enough. */
  lemma Mismatch(s: string, part: string, i: nat, at: nat)
    requires at < |part| && i + |part| <= |s| && s[i + at] != part[at]
    ensures !OccursAt(s, part, i)
  {
    assert s[i..i + |part|][at] == s[i + at];
  }

  /** Within a prefix, occurrences are those of the whole text. */
  lemma SameWithinPrefix(a: string, s: string, part: string, i: nat)
    requires a <= s && i + |part| <= |a|
    ensures OccursAt(a, part, i) <==> OccursAt(s, part, i)
  {
    assert a[i..i + |part|] == s[i..i + |part|];
  }

  /** If the first occurrence is known, it is the one found. */
  lemma IndexIs(s: string, part: string, k: nat)
    requires OccursAt(s, part, k) && forall j: nat :: j < k ==> !OccursAt(s, part, j)
    ensures IndexOf(s, part) == Some(k)
  {
  }

  /** White space as Python's `str.strip` sees it. */
  predicate PythonSpace(c: char) {
    '\t' <= c <= '\r' || '\U{1C}' <= c <= ' ' || c == '\U{85}' || c == '\U{A0}' || c == '\U{1680}'
    || '\U{2000}' <= c <= '\U{200A}' || c == '\U{2028}' || c == '\U{2029}' || c == '\U{202F}'
    || c == '\U{205F}' || c == '\U{3000}'
  }

  /** White space as Go's `strings.TrimSpace` sees it. */
  predicate GoSpace(c: char) {
    PythonSpace(c) && !('\U{1C}' <= c <= '\U{1F}')
  }

  /** The two lists of white space, by code point. */
  lemma SpacesExactly(c: char)
    ensures GoSpace(c) <==>
      c as int in {9, 10, 11, 12, 13, 0x20, 0x85, 0xA0, 0x1680, 0x2028, 0x2029, 0x202F, 0x205F, 0x3000}
      || 0x2000 <= c as int <= 0x200A
    ensures PythonSpace(c) <==> GoSpace(c) || 0x1C <= c as int <= 0x1F
  {
  }

  function RightStrip(s: string): (r: string)
    ensures r <= s
    ensures r != "" ==> !PythonSpace(r[|r| - 1])
    ensures forall i :: |r| <= i < |s| ==> PythonSpace(s[i])
    ensures s != "" && !PythonSpace(s[|s| - 1]) ==> r == s
    ensures s != "" && !PythonSpace(s[0]) ==> r != ""
  {
    if s != "" && PythonSpace(s[|s| - 1]) then RightStrip(s[..|s| - 1]) else s
  }

  /** No white space at either end: what `str.strip` leaves. */
  predicate Stripped(s: string) {
    s != "" ==> !PythonSpace(s[0]) && !PythonSpace(s[|s| - 1])
  }

  function TrimLeft(s: string): string {
    if s != "" && GoSpace(s[0]) then TrimLeft(s[1..]) else s
  }

  function TrimRight(s: string): string {
    if s != "" && GoSpace(s[|s| - 1]) then TrimRight(s[..|s| - 1]) else s
  }

  /** `strings.TrimSpace`. */
  function TrimSpace(s: string): string { TrimRight(TrimLeft(s)) }

  predicate Trimmed(s: string) {
    s != "" ==> !GoSpace(s[0]) && !GoSpace(s[|s| - 1])
  }

  predicate OnlySpace(s: string) { forall i :: 0 <= i < |s| ==> GoSpace(s[i]) }

  lemma {:induction false} TrimLeftExactly(s: string) returns (a: string)
    ensures s == a + TrimLeft(s) && OnlySpace(a)
    ensures TrimLeft(s) != "" ==> !GoSpace(TrimLeft(s)[0])
  {
    if s != "" && GoSpace(s[0]) {
      a := TrimLeftExactly(s[1..]);
      assert s == [s[0]] + s[1..];
      assert s == ([s[0]] + a) + TrimLeft(s);
      a := [s[0]] + a;
    } else {
      a := "";
    }
  }

  lemma {:induction false} TrimRightExactly(s: string) returns (b: string)
    ensures s == TrimRight(s) + b && OnlySpace(b)
    ensures TrimRight(s) != "" ==> !GoSpace(TrimRight(s)[|TrimRight(s)| - 1])
  {
    if s != "" && GoSpace(s[|s| - 1]) {
      b := TrimRightExactly(s[..|s| - 1]);
      assert s == s[..|s| - 1] + [s[|s| - 1]];
      assert s == TrimRight(s) + (b + [s[|s| - 1]]);
      b := b + [s[|s| - 1]];
    } else {
      b := "";
    }
  }

  /** Trimming takes white space, all of it, and only at the ends. */
  lemma {:induction false} TrimSpaceExactly(s: string) returns (a: string, b: string)
    ensures s == a + TrimSpace(s) + b && OnlySpace(a) && OnlySpace(b) && Trimmed(TrimSpace(s))
  {
    a := TrimLeftExactly(s);
    b := TrimRightExactly(TrimLeft(s));
    if TrimSpace(s) != "" { assert TrimSpace(s)[0] == TrimLeft(s)[0]; }
    assert s == a + TrimSpace(s) + b;
  }

  /** Nothing is left of white space alone, and of nothing else. */
  lemma TrimToNothing(s: string)
    ensures TrimSpace(s) == "" <==> OnlySpace(s)
  {
    var a, b := TrimSpaceExactly(s);
    if TrimSpace(s) != "" { assert s[|a|] == TrimSpace(s)[0]; }
  }

  lemma TrimOfTrimmed(s: string)
    requires Trimmed(s)
    ensures TrimSpace(s) == s
  {
  }

  /** `strings.Cut` at the first `c`. */
  function Cut(s: string, c: char): (r: Option<(string, string)>)
    ensures r.Some? <==> c in s
    ensures r.Some? ==> s == r.value.0 + [c] + r.value.1 && c !in r.value.0
  {
    if s == "" then None
    else if s[0] == c then Some(("", s[1..]))
    else
      var r := Cut(s[1..], c);
      assert s == [s[0]] + s[1..];
      if r.None? then None else Some(([s[0]] + r.value.0, r.value.1))
  }

  lemma {:induction false} CutIs(a: string, c: char, b: string)
    requires c !in a
    ensures Cut(a + [c] + b, c) == Some((a, b))
  {
    if a == "" {
      assert (a + [c] + b)[1..] == b;
    } else {
      CutIs(a[1..], c, b);
      assert (a + [c] + b)[1..] == a[1..] + [c] + b;
      assert a == [a[0]] + a[1..];
    }
  }

  /** `strings.Split` at every `c`. */
  function Split(s: string, c: char): (pieces: seq<string>)
    ensures |pieces| > 0
    decreases |s|
  {
    var r := Cut(s, c);
    if r.None? then [s] else [r.value.0] + Split(r.value.1, c)
  }

  function Join(pieces: seq<string>, c: char): string
    requires |pieces| > 0
  {
    if |pieces| == 1 then pieces[0] else pieces[0] + [c] + Join(pieces[1..], c)
  }

  lemma {:induction false} SplitInvertsJoin(pieces: seq<string>, c: char)
    requires |pieces| > 0 && forall i :: 0 <= i < |pieces| ==> c !in pieces[i]
    ensures Split(Join(pieces, c), c) == pieces
  {
    if |pieces| > 1 {
      CutIs(pieces[0], c, Join(pieces[1..], c));
      SplitInvertsJoin(pieces[1..], c);
      assert pieces == [pieces[0]] + pieces[1..];
    }
  }
}
