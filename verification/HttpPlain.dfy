/** Messages that the encoder did not write (src/common/handy/http.cc:26-79): which lines
    are header fields, which blocks are refused, and how the body is delimited with,
    without, or with an impossible content-length. */
module HttpPlain {
  import opened Ints
  import opened Slices
  import opened Http
  import opened HttpText
  import opened HttpRoundTrip

  // ------------------------------------------------------------------ one header line

  /** The white space of the C locale. */
  predicate White(s: string) {
    forall i | 0 <= i < |s| :: s[i] as int in {9, 10, 11, 12, 13, 32}
  }

  predicate Solid(s: string) {
    forall i | 0 <= i < |s| :: s[i] as int !in {9, 10, 11, 12, 13, 32}
  }

  /** A value that neither starts nor ends with white space. */
  predicate Tight(s: string) { s != "" && Solid(s[..1]) && Solid(s[|s| - 1..]) }

  /** White space, key, colon, white space, value, white space. */
  predicate Splits(line: string, w0: string, key: string, w1: string, value: string, w2: string) {
    && line == w0 + (key + ":") + (w1 + value + w2)
    && White(w0) && Solid(key) && White(w1) && w1 != "" && Tight(value) && White(w2)
  }

  lemma TightIs(value: string)
    requires Tight(value)
    ensures !IsSpace(value[0]) && !IsSpace(value[|value| - 1])
  {
    assert value[..1][0] == value[0] && value[|value| - 1..][0] == value[|value| - 1];
  }

  lemma SolidKey(key: string)
    requires Solid(key)
    ensures NoSpace(key + ":")
  {
    forall i | 0 <= i < |key + ":"|
      ensures !IsSpace((key + ":")[i])
    {
      if i < |key| {
        assert (key + ":")[i] == key[i];
      }
    }
  }

  /** The word of a line that starts with white space. */
  lemma FirstWord(w0: string, word: string, behind: string)
    requires White(w0) && NoSpace(word) && word != "" && (behind != "" ==> IsSpace(behind[0]))
    ensures Word(w0 + word + behind) == word && AfterWord(w0 + word + behind) == behind
  {
    var line := w0 + word + behind;
    SpanIs(line, IsSpace, |w0|);
    assert line[|w0|..] == word + behind;
    SpanIs(line[|w0|..], NotSpace, |word|);
  }

  lemma TrimmedMiddle(w1: string, value: string, w2: string)
    requires White(w1) && Tight(value) && White(w2)
    ensures Trim(w1 + value + w2) == value
  {
    var s := w1 + value + w2;
    TightIs(value);
    SpanIs(s, IsSpace, |w1|);
    var t := value + w2;
    assert s[|w1|..] == t;
    forall i | |value| <= i < |t|
      ensures IsSpace(t[i])
    {
      assert t[i] == w2[i - |value|];
    }
    assert t[|value| - 1] == value[|value| - 1];
    TrimEndIs(t, |value|);
    assert t[..|value|] == value;
  }

  /** A line of this form is a field, stored under its key in lower case. */
  lemma SplitIsHeader(line: string, w0: string, key: string, w1: string, value: string, w2: string, h: HeaderMap)
    requires Splits(line, w0, key, w1, value, w2)
    ensures IsHeader(line) && WithHeader(h, line) == h[Lower(key) := value]
  {
    SolidKey(key);
    assert (w1 + value + w2)[0] == w1[0];
    FirstWord(w0, key + ":", w1 + value + w2);
    TrimmedMiddle(w1, value, w2);
    assert (key + ":")[..|key|] == key;
  }

  lemma Thirds(s: string, i: nat, j: nat)
    requires i <= j <= |s|
    ensures s == s[..i] + s[i..j] + s[j..]
  {
  }

  /** Where the trimmed text lies. */
  lemma TrimBounds(s: string) returns (i: nat, j: nat)
    requires Trim(s) != ""
    ensures i < j <= |s| && !IsSpace(s[i]) && !IsSpace(s[j - 1])
    ensures (forall x | 0 <= x < i :: IsSpace(s[x])) && (forall x | j <= x < |s| :: IsSpace(s[x]))
  {
    var k := WordStart(s);
    var t := s[k..];
    var n := TrimEnd(t);
    i, j := k, k + n;
    assert t[n - 1] == s[j - 1] && t[0] == s[k];
    forall x | j <= x < |s|
      ensures IsSpace(s[x])
    {
      assert t[x - k] == s[x];
    }
  }

  lemma CutTrim(s: string) returns (w1: string, value: string, w2: string)
    requires Trim(s) != "" && IsSpace(s[0])
    ensures s == w1 + value + w2 && White(w1) && w1 != "" && Tight(value) && White(w2)
  {
    var i, j := TrimBounds(s);
    w1, value, w2 := s[..i], s[i..j], s[j..];
    Thirds(s, i, j);
    assert value[0] == s[i] && value[|value| - 1] == s[j - 1];
  }

  lemma CutKey(line: string) returns (w0: string, key: string)
    requires IsHeader(line)
    ensures line == w0 + (key + ":") + AfterWord(line) && White(w0) && Solid(key)
  {
    var b, e := WordStart(line), WordEnd(line);
    Thirds(line, b, e);
    w0 := line[..b];
    key := KeyOf(line);
  }

  lemma KeyOf(line: string) returns (key: string)
    requires IsHeader(line)
    ensures Word(line) == key + ":" && Solid(key)
  {
    var word := Word(line);
    key := word[..|word| - 1];
    WordIsMaximal(line);
    forall i | 0 <= i < |key|
      ensures key[i] as int !in {9, 10, 11, 12, 13, 32}
    {
      assert key[i] == word[i] && !IsSpace(word[i]);
    }
  }

  /** And every field has this form. */
  lemma HeaderSplits(line: string) returns (w0: string, key: string, w1: string, value: string, w2: string)
    requires IsHeader(line)
    ensures Splits(line, w0, key, w1, value, w2)
  {
    w0, key := CutKey(line);
    WordIsMaximal(line);
    w1, value, w2 := CutTrim(AfterWord(line));
  }

  lemma WordIsMaximal(line: string)
    ensures AfterWord(line) != "" && Word(line) != "" ==> IsSpace(AfterWord(line)[0])
    ensures NoSpace(Word(line))
  {
    var b, e := WordStart(line), WordEnd(line);
    if e < |line| && b < e {
      assert line[b..][e - b] == line[e];
    }
    forall i | b <= i < e
      ensures !IsSpace(line[i])
    {
      assert line[b..][i - b] == line[i];
    }
  }

  /** The header lines are exactly those that split this way. */
  lemma HeaderLineIff(line: string)
    ensures IsHeader(line) <==> exists w0, key, w1, value, w2 :: Splits(line, w0, key, w1, value, w2)
  {
    if IsHeader(line) {
      var w0, key, w1, value, w2 := HeaderSplits(line);
    }
    forall w0, key, w1, value, w2 | Splits(line, w0, key, w1, value, w2)
      ensures IsHeader(line)
    {
      SplitIsHeader(line, w0, key, w1, value, w2, map[]);
    }
  }

  // ------------------------------------------------------------------- a header block

  ghost predicate IsField(line: string) {
    exists w0, key, w1, value, w2 :: Splits(line, w0, key, w1, value, w2)
  }

  lemma BlankIff(line: string)
    ensures Word(line) == "" && Value(line) == "" <==> White(line)
  {
    var b := WordStart(line);
    if White(line) {
      SpanIs(line, IsSpace, |line|);
      assert Word(line) == "" && AfterWord(line) == "";
    }
    if Word(line) == "" {
      assert b == |line|;
    }
  }

  /** The header loop, line by line. */
  function ReadAll(ls: seq<string>, h: HeaderMap): Parsed
    decreases |ls|
  {
    if ls == [] then Parsed(true, h)
    else if IsHeader(ls[0]) then ReadAll(ls[1..], WithHeader(h, ls[0]))
    else Parsed(|ls| == 1 && White(ls[0]), h)
  }

  lemma {:induction false} LinesAreRead(sep: string, ls: seq<string>, h: HeaderMap)
    requires |sep| == 2 && forall l | l in ls :: Clean(l)
    ensures Headers(Lines(sep, ls), h) == ReadAll(ls, h)
    decreases |ls|
  {
    if ls != [] {
      var l, rest := ls[0], Lines("\r\n", ls[1..]);
      assert l in ls && forall k | k in ls[1..] :: k in ls;
      assert rest == "" <==> |ls| == 1;
      if IsHeader(l) {
        HeadersStep(sep, l, rest, h);
        LinesAreRead("\r\n", ls[1..], WithHeader(h, l));
      } else {
        HeadersStop(sep, l, rest, h);
        BlankIff(l);
      }
    }
  }

  lemma {:induction false} HeadersStop(sep: string, l: string, rest: string, h: HeaderMap)
    requires |sep| == 2 && !IsHeader(l) && Clean(l) && (rest != "" ==> IsBreak(rest[0]))
    ensures Headers(sep + l + rest, h) == Parsed(Word(l) == "" && Value(l) == "" && rest == "", h)
  {
    var req, behind := sep + l + rest, l + rest;
    assert req[2..] == behind && |req| > 1;
    LineEndBefore(l, rest);
    assert behind[..|l|] == l && behind[|l|..] == rest;
  }

  ghost predicate Acceptable(ls: seq<string>) {
    forall i | 0 <= i < |ls| :: IsField(ls[i]) || (i == |ls| - 1 && White(ls[i]))
  }

  lemma {:induction false} ReadOkIff(ls: seq<string>, h: HeaderMap)
    ensures ReadAll(ls, h).ok <==> Acceptable(ls)
    decreases |ls|
  {
    if ls != [] {
      HeaderLineIff(ls[0]);
      AcceptableStep(ls);
      if IsHeader(ls[0]) {
        ReadOkIff(ls[1..], WithHeader(h, ls[0]));
      }
    }
  }

  lemma {:induction false} AcceptableStep(ls: seq<string>)
    requires ls != []
    ensures Acceptable(ls) <==> if IsField(ls[0]) then Acceptable(ls[1..]) else |ls| == 1 && White(ls[0])
  {
    var rest := ls[1..];
    if IsField(ls[0]) && Acceptable(rest) {
      forall i | 0 <= i < |ls|
        ensures IsField(ls[i]) || (i == |ls| - 1 && White(ls[i]))
      {
        assert i > 0 ==> ls[i] == rest[i - 1];
      }
    }
    if Acceptable(ls) {
      assert IsField(ls[0]) || (0 == |ls| - 1 && White(ls[0]));
      forall i | 0 <= i < |rest|
        ensures IsField(rest[i]) || (i == |rest| - 1 && White(rest[i]))
      {
        assert rest[i] == ls[i + 1];
      }
    }
  }

  predicate Readable(m: Msg, start: string, sep: string, ls: seq<string>, rest: string) {
    && Fresh(m) && (sep == "\r\n" || sep == "\n\n") && start != "" && NoBreak(start)
    && (forall l | l in ls :: Clean(l)) && |start + Lines(sep, ls) + TERMINATOR + rest| < TWO_63
  }

  /** What a header block of any lines decodes to. */
  lemma {:induction false} BlockDecodes(m: Msg, start: string, sep: string, ls: seq<string>, rest: string)
    requires Readable(m, start, sep, ls, rest)
    ensures var req := start + Lines(sep, ls);
            var u, h := req + TERMINATOR + rest, ReadAll(ls, m.headers);
            && Fits(m, u) && Fits(WithBlock(m, h.headers, |req|), u)
            && TryDecode(m, u)
            == if h.ok then TakeBody(WithBlock(m, h.headers, |req|), u, start)
               else Reply(m.(headers := h.headers, scanned := |req|), Error, start)
  {
    var t := Lines(sep, ls);
    var req := start + t;
    var u := req + TERMINATOR + rest;
    LinesAreFound(start, sep, ls, rest);
    LinesAreRead(sep, ls, m.headers);
    assert u[..|req|] == req;
    BlockReply(m, u, |req|, req);
    LineEndBefore(start, t);
    assert req[..|start|] == start && req[|start|..] == t;
    assert TryDecode(m, u) == TakeHeaders(m, u, |req|);
  }

  /** A message is refused if and only if some line of its header is no field, except
      that the last one may be white space. */
  lemma {:induction false} RefusedIff(m: Msg, start: string, sep: string, ls: seq<string>, rest: string)
    requires Readable(m, start, sep, ls, rest)
    ensures Fits(m, start + Lines(sep, ls) + TERMINATOR + rest)
    ensures TryDecode(m, start + Lines(sep, ls) + TERMINATOR + rest).result == Error <==> !Acceptable(ls)
  {
    BlockDecodes(m, start, sep, ls, rest);
    ReadOkIff(ls, m.headers);
  }

  // ---------------------------------------------------------------- where the body ends

  /** A message made of fields that somebody else wrote. */
  predicate Written(m: Msg, start: string, sep: string, fs: seq<Field>, rest: string) {
    && Fresh(m) && (sep == "\r\n" || sep == "\n\n") && start != "" && NoBreak(start)
    && (forall f | f in fs :: Good(f)) && |start + Tail(sep, fs) + TERMINATOR + rest| < TWO_63
  }

  function HeadOf(start: string, sep: string, fs: seq<Field>): string { start + Tail(sep, fs) + TERMINATOR }

  lemma {:induction false} FieldsDecode(m: Msg, start: string, sep: string, fs: seq<Field>, rest: string)
    requires Written(m, start, sep, fs, rest)
    ensures var req := start + Tail(sep, fs);
            var u, n := req + TERMINATOR + rest, WithBlock(m, Fold(m.headers, fs), |req|);
            Fits(m, u) && Fits(n, u) && TryDecode(m, u) == TakeBody(n, u, start)
  {
    TailIsLines(sep, fs);
    HeadersOfTail(sep, fs, m.headers);
    LinesAreRead(sep, LinesOf(fs), m.headers);
    BlockDecodes(m, start, sep, LinesOf(fs), rest);
  }

  lemma {:induction false} FoldKeeps(h: HeaderMap, fs: seq<Field>, k: string)
    requires forall f | f in fs :: Lower(f.key) != k
    ensures (k in Fold(h, fs) <==> k in h) && (k in h ==> Fold(h, fs)[k] == h[k])
    decreases |fs|
  {
    if fs != [] {
      assert fs[0] in fs && forall f | f in fs[1..] :: f in fs;
      FoldKeeps(h[Lower(fs[0].key) := fs[0].value], fs[1..], k);
    }
  }

  lemma {:induction false} FoldConcat(h: HeaderMap, xs: seq<Field>, ys: seq<Field>)
    ensures Fold(h, xs + ys) == Fold(Fold(h, xs), ys)
    decreases |xs|
  {
    if xs == [] {
      assert xs + ys == ys;
    } else {
      assert (xs + ys)[0] == xs[0] && (xs + ys)[1..] == xs[1..] + ys;
      FoldConcat(h[Lower(xs[0].key) := xs[0].value], xs[1..], ys);
    }
  }

  /** The last field of a name counts. */
  lemma {:induction false} LastFieldCounts(h: HeaderMap, xs: seq<Field>, f: Field, ys: seq<Field>)
    requires forall y | y in ys :: Lower(y.key) != Lower(f.key)
    ensures Lower(f.key) in Fold(h, xs + [f] + ys) && Fold(h, xs + [f] + ys)[Lower(f.key)] == f.value
  {
    FoldConcat(h, xs + [f], ys);
    FoldSnoc(h, xs, f);
    FoldKeeps(Fold(h, xs + [f]), ys, Lower(f.key));
  }

  /** Without a content-length there is no body: the message ends with its header, and
      what follows is left for the next one. */
  lemma {:induction false} NoLengthNoBody(m: Msg, start: string, sep: string, fs: seq<Field>, rest: string)
    requires Written(m, start, sep, fs, rest) && "content-length" !in m.headers
    requires forall f | f in fs :: Lower(f.key) != "content-length"
    ensures var q := |HeadOf(start, sep, fs)|;
            && Fits(m, HeadOf(start, sep, fs) + rest)
            && TryDecode(m, HeadOf(start, sep, fs) + rest)
            == Reply(Msg(Fold(m.headers, fs), "", true, 0, q), Complete, start)
  {
    FieldsDecode(m, start, sep, fs, rest);
    FoldKeeps(m.headers, fs, "content-length");
    assert Atoi("") == 0;
    var u := HeadOf(start, sep, fs) + rest;
    assert u == start + Tail(sep, fs) + TERMINATOR + rest;
    assert u[|HeadOf(start, sep, fs)|..|HeadOf(start, sep, fs)| + 0] == "";
  }

  /** With a content-length the message is complete if and only if that many bytes are
      there, and those are its body. */
  lemma {:induction false} LengthMeansBody(m: Msg, start: string, sep: string, xs: seq<Field>, key: string, n: nat,
                                           ys: seq<Field>, rest: string)
    requires Lower(key) == "content-length" && n < TWO_31
    requires Written(m, start, sep, xs + [Field(key, Dec(n))] + ys, rest)
    requires forall y | y in ys :: Lower(y.key) != "content-length"
    ensures var fs := xs + [Field(key, Dec(n))] + ys;
            var q, h := |HeadOf(start, sep, fs)|, Fold(m.headers, fs);
            && Fits(m, HeadOf(start, sep, fs) + rest)
            && TryDecode(m, HeadOf(start, sep, fs) + rest)
            == if n <= |rest| then Reply(Msg(h, rest[..n], true, n, q + n), Complete, start)
               else Reply(m.(headers := h, contentLen := n, scanned := q), NotComplete, start)
  {
    var fs := xs + [Field(key, Dec(n))] + ys;
    FieldsDecode(m, start, sep, fs, rest);
    LengthIs(m.headers, xs, key, n, ys);
    BodyIsBehind(WithBlock(m, Fold(m.headers, fs), |start + Tail(sep, fs)|), HeadOf(start, sep, fs), rest, n, start);
  }

  lemma LengthIs(h: HeaderMap, xs: seq<Field>, key: string, n: nat, ys: seq<Field>)
    requires Lower(key) == "content-length" && n < TWO_31
    requires forall y | y in ys :: Lower(y.key) != "content-length"
    ensures ContentLength(Fold(h, xs + [Field(key, Dec(n))] + ys)) == n
  {
    LastFieldCounts(h, xs, Field(key, Dec(n)), ys);
    AtoiOfAnyDec(n);
  }

  lemma BodyIsBehind(t: Msg, head: string, rest: string, n: nat, start: string)
    requires Fits(t, head + rest) && t.scanned == |head| && t.contentLen == n < TWO_31
    ensures TakeBody(t, head + rest, start)
         == if n <= |rest| then Reply(t.(body := rest[..n], complete := true, scanned := |head| + n), Complete, start)
            else Reply(t, NotComplete, start)
  {
    if n <= |rest| {
      assert (head + rest)[|head|..|head| + n] == rest[..n];
    }
  }

  /** A negative content-length is never a body: it is refused with an exception if it is
      small against the header, and otherwise the parser waits for ever. */
  lemma {:induction false} NegativeLengthIff(m: Msg, start: string, sep: string, xs: seq<Field>, key: string, n: nat,
                                             ys: seq<Field>, rest: string)
    requires Lower(key) == "content-length" && 0 < n <= TWO_31
    requires Written(m, start, sep, xs + [Field(key, "-" + Dec(n))] + ys, rest)
    requires forall y | y in ys :: Lower(y.key) != "content-length"
    ensures var fs := xs + [Field(key, "-" + Dec(n))] + ys;
            && Fits(m, HeadOf(start, sep, fs) + rest)
            && TryDecode(m, HeadOf(start, sep, fs) + rest).result
            == if n <= |HeadOf(start, sep, fs)| then Threw else NotComplete
  {
    var fs := xs + [Field(key, "-" + Dec(n))] + ys;
    FieldsDecode(m, start, sep, fs, rest);
    LastFieldCounts(m.headers, xs, Field(key, "-" + Dec(n)), ys);
    AtoiOfSignedDec(n);
  }
}
