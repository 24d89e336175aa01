/** The scanning operations of src/common/handy/slice.h: what they return, as
    functions of the slice's text, and the cursor that performs them over a shared
    byte array. A byte is a `char`. */
module Slices {

  /** `isspace` in the C locale. */
  predicate IsSpace(c: char) { c == ' ' || 9 <= c as int <= 13 }

  predicate IsBreak(c: char) { c == '\r' || c == '\n' }

  function ToLower(c: char): char {
    if 'A' <= c <= 'Z' then (c as int + 32) as char else c
  }

  function Lower(s: string): (r: string)
    ensures |r| == |s| && forall i | 0 <= i < |s| :: r[i] == ToLower(s[i])
  {
    if s == "" then "" else [ToLower(s[0])] + Lower(s[1..])
  }

  /** The same letter in the other case, by its distance in ASCII. */
  predicate OtherCase(c: char, d: char) {
    (65 <= c as int <= 90 && d as int == c as int + 32) || (65 <= d as int <= 90 && c as int == d as int + 32)
  }

  /** Lower-casing forgets the case of letters and nothing else, and leaves no capital. */
  lemma LowerForgetsCase(c: char, d: char)
    ensures ToLower(c) == ToLower(d) <==> c == d || OtherCase(c, d)
    ensures ToLower(c) == c || OtherCase(c, ToLower(c))
    ensures !(65 <= ToLower(c) as int <= 90)
  {
  }

  lemma LowerIs(s: string, t: string)
    requires |s| == |t| && forall i | 0 <= i < |s| :: t[i] == ToLower(s[i])
    ensures Lower(s) == t
  {
  }

  /** The length of the longest prefix whose characters all satisfy `p`. */
  function Span(s: string, p: char -> bool): (n: nat)
    ensures n <= |s| && (forall i | 0 <= i < n :: p(s[i])) && (n < |s| ==> !p(s[n]))
  {
    if s == "" || !p(s[0]) then 0 else 1 + Span(s[1..], p)
  }

  lemma SpanIs(s: string, p: char -> bool, n: nat)
    requires n <= |s| && (forall i | 0 <= i < n :: p(s[i])) && (n < |s| ==> !p(s[n]))
    ensures Span(s, p) == n
  {
  }

  predicate NotBreak(c: char) { !IsBreak(c) }

  predicate NotSpace(c: char) { !IsSpace(c) }

  function LineEnd(s: string): nat { Span(s, NotBreak) }

  function WordStart(s: string): nat { Span(s, IsSpace) }

  function WordEnd(s: string): (e: nat)
    ensures WordStart(s) <= e <= |s|
  {
    WordStart(s) + Span(s[WordStart(s)..], NotSpace)
  }

  /** `eatWord`: the first word, and what is left behind it. */
  function Word(s: string): string { s[WordStart(s)..WordEnd(s)] }

  function AfterWord(s: string): string { s[WordEnd(s)..] }

  /** How much of `s` is left when its trailing spaces are cut. */
  function TrimEnd(s: string): (e: nat)
    ensures e <= |s| && (forall i | e <= i < |s| :: IsSpace(s[i])) && (e > 0 ==> !IsSpace(s[e - 1]))
  {
    if s == "" || !IsSpace(s[|s| - 1]) then |s| else TrimEnd(s[..|s| - 1])
  }

  function Trim(s: string): string {
    var t := s[WordStart(s)..];
    t[..TrimEnd(t)]
  }

  lemma TrimEndIs(s: string, e: nat)
    requires e <= |s| && (forall i | e <= i < |s| :: IsSpace(s[i])) && (e > 0 ==> !IsSpace(s[e - 1]))
    ensures TrimEnd(s) == e
  {
  }

  lemma SubSlice(a: array<char>, b: nat, x: nat, y: nat, e: nat)
    requires b <= x <= y <= e <= a.Length
    ensures a[b..e][x - b..y - b] == a[x..y]
  {
    var s, t := a[b..e][x - b..y - b], a[x..y];
    assert |s| == |t|;
    assert forall i | 0 <= i < |s| :: s[i] == t[i];
  }

  lemma Suffix(a: array<char>, b: nat, x: nat, e: nat)
    requires b <= x <= e <= a.Length
    ensures a[b..e][x - b..] == a[x..e]
  {
    var s, t := a[b..e][x - b..], a[x..e];
    assert |s| == |t|;
    assert forall i | 0 <= i < |s| :: s[i] == t[i];
  }

  // ---------------------------------------------------------------------- cursor

  /** The loop behind all scans: step while the character satisfies `p`. */
  method Skip(data: array<char>, from: nat, end: nat, p: char -> bool) returns (to: nat)
    requires from <= end <= data.Length
    ensures to == from + Span(data[from..end], p) <= end
  {
    ghost var s := data[from..end];
    to := from;
    while to < end && p(data[to])
      invariant from <= to <= end
      invariant forall i | 0 <= i < to - from :: p(s[i])
    {
      assert s[to - from] == data[to];
      to := to + 1;
    }
    assert to < end ==> s[to - from] == data[to];
    SpanIs(s, p, to - from);
  }

  /** The second loop of trimSpace. */
  method SkipBack(data: array<char>, from: nat, end: nat) returns (to: nat)
    requires from <= end <= data.Length
    ensures to == from + TrimEnd(data[from..end]) <= end
  {
    ghost var t := data[from..end];
    to := end;
    while from < to && IsSpace(data[to - 1])
      invariant from <= to <= end
      invariant forall i | to - from <= i < |t| :: IsSpace(t[i])
    {
      assert t[to - 1 - from] == data[to - 1];
      to := to - 1;
    }
    assert from < to ==> t[to - 1 - from] == data[to - 1];
    TrimEndIs(t, to - from);
  }

  lemma WordIs(s: string, t: string, k: nat, n: nat)
    requires k == WordStart(s) && t == s[k..] && n == Span(t, NotSpace)
    ensures k + n <= |s| && Word(s) == s[k..k + n] && AfterWord(s) == s[k + n..]
  {
  }

  lemma FoundWord(data: array<char>, b: nat, from: nat, to: nat, e: nat)
    requires b <= from <= to <= e <= data.Length
    requires from == b + WordStart(data[b..e]) && to == from + Span(data[from..e], NotSpace)
    ensures data[from..to] == Word(data[b..e]) && data[to..e] == AfterWord(data[b..e])
  {
    var s, k, n := data[b..e], from - b, to - from;
    assert s[k..] == data[from..e] by {
      Suffix(data, b, from, e);
    }
    assert s[k..k + n] == data[from..to] by {
      SubSlice(data, b, from, to, e);
    }
    assert s[k + n..] == data[to..e] by {
      Suffix(data, b, to, e);
    }
    WordIs(s, data[from..e], k, n);
  }

  method FindWord(data: array<char>, b: nat, e: nat) returns (from: nat, to: nat)
    requires b <= e <= data.Length
    ensures b <= from <= to <= e
    ensures data[from..to] == Word(data[b..e]) && data[to..e] == AfterWord(data[b..e])
  {
    from := Skip(data, b, e, IsSpace);
    to := Skip(data, from, e, NotSpace);
    FoundWord(data, b, from, to, e);
  }

  method FindTrimmed(data: array<char>, b: nat, e: nat) returns (from: nat, to: nat)
    requires b <= e <= data.Length
    ensures b <= from <= to <= e && data[from..to] == Trim(data[b..e])
  {
    from := Skip(data, b, e, IsSpace);
    to := SkipBack(data, from, e);
    Suffix(data, b, from, e);
    SubSlice(data, b, from, to, e);
    TrimmedIs(data[b..e], data[from..e], from - b, to - from);
  }

  lemma TrimmedIs(s: string, t: string, k: nat, n: nat)
    requires k == WordStart(s) && t == s[k..] && n == TrimEnd(t)
    ensures k + n <= |s| && Trim(s) == s[k..k + n]
  {
    assert t[..n] == s[k..k + n];
  }

  /** A slice: two positions into an array that others may share. */
  class Slice {
    const data: array<char>
    var pb: nat
    var pe: nat

    ghost predicate Valid()
      reads this
    {
      pb <= pe <= data.Length
    }

    ghost function Text(): string
      requires Valid()
      reads this, data
    {
      data[pb..pe]
    }

    constructor (data: array<char>, pb: nat, pe: nat)
      requires pb <= pe <= data.Length
      ensures Valid() && this.data == data && this.pb == pb && this.pe == pe
    {
      this.data, this.pb, this.pe := data, pb, pe;
    }

    method EatLine() returns (from: nat, to: nat)
      requires Valid()
      modifies this`pb
      ensures Valid() && from == old(pb) && to == pb
      ensures pb == old(pb) + LineEnd(old(Text()))
    {
      from := pb;
      to := Skip(data, from, pe, NotBreak);
      pb := to;
    }

    method EatWord() returns (from: nat, to: nat)
      requires Valid()
      modifies this`pb
      ensures Valid() && old(pb) <= from <= to == pb
      ensures data[from..to] == Word(old(Text())) && Text() == AfterWord(old(Text()))
    {
      from, to := FindWord(data, pb, pe);
      pb := to;
    }

    method TrimSpace()
      requires Valid()
      modifies this`pb, this`pe
      ensures Valid() && old(pb) <= pb && pe <= old(pe)
      ensures Text() == Trim(old(Text()))
    {
      pb, pe := FindTrimmed(data, pb, pe);
    }
  }
}
