/** Encoding of HTTP messages (src/common/handy/http.cc:81-94 and 137-151), and what the
    parser makes of a written number, a written field and a written header block. */
module HttpText {
  import opened Ints
  import opened Slices
  import opened Http

  // ------------------------------------------------------------------- encoding

  /** "%lu". */
  function Dec(n: nat): (s: string)
    ensures s != "" && forall i | 0 <= i < |s| :: IsDigit(s[i])
  {
    var d := [(n % 10 + '0' as int) as char];
    if n < 10 then d else Dec(n / 10) + d
  }

  /** "%d". */
  function DecInt(v: int): string { if v < 0 then "-" + Dec(-v) else Dec(v) }

  /** A string printed into a buffer of `size` bytes. */
  function Printed(s: string, size: nat): string
    requires size > 0
  {
    if |s| < size then s else s[..size - 1]
  }

  /** What does not fit is cut off, and one byte is for the terminator. */
  lemma PrintedIs(s: string, size: nat)
    requires size > 0
    ensures Printed(s, size) <= s && |Printed(s, size)| < size
    ensures Printed(s, size) == s <==> |s| < size
    ensures |s| >= size ==> |Printed(s, size)| == size - 1
  {
  }

  datatype Field = Field(key: string, value: string)

  function LineOf(f: Field): string { f.key + ": " + f.value }

  function HeaderText(fs: seq<Field>): string {
    if fs == [] then "" else LineOf(fs[0]) + "\r\n" + HeaderText(fs[1..])
  }

  /** The two fields every message ends its header with. */
  function Common(body: string): seq<Field> {
    [Field("Connection", "Keep-Alive"), Field("Content-Length", Dec(|body|))]
  }

  function Text(start: string, fs: seq<Field>, body: string): string {
    start + HeaderText(fs + Common(body)) + "\r\n" + body
  }

  function RequestLine(method': string, target: string, version: string): string {
    method' + " " + target + " " + version
  }

  function RequestText(method': string, target: string, version: string, fs: seq<Field>, body: string): string {
    Text(Printed(RequestLine(method', target, version) + "\n\n", 4096), fs, body)
  }

  function StatusLine(version: string, status: int, word: string): string {
    version + " " + DecInt(status) + " " + word
  }

  function ResponseText(version: string, status: int, word: string, fs: seq<Field>, body: string): string {
    Text(Printed(StatusLine(version, status, word) + "\r\n", 1024), fs, body)
  }

  // -------------------------------------------------------------------- numbers

  lemma {:induction false} NumberOfDec(n: nat, rest: string)
    ensures Number(Dec(n) + rest, 0) == Number(rest, n)
  {
    var c := (n % 10 + '0' as int) as char;
    var d := [c];
    if n < 10 {
      assert (d + rest)[0] == c && (d + rest)[1..] == rest;
    } else {
      assert Dec(n) + rest == Dec(n / 10) + (d + rest);
      NumberOfDec(n / 10, d + rest);
      assert (d + rest)[0] == c && (d + rest)[1..] == rest;
      assert n / 10 * 10 + n % 10 == n;
    }
  }

  lemma {:induction false} AtoiPlain(s: string)
    requires s != "" && IsDigit(s[0])
    ensures Atoi(s) == ToInt32(Clamp64(Number(s, 0)))
  {
    SpanIs(s, IsSpace, 0);
    assert s[0..] == s;
  }

  lemma {:induction false} AtoiSigned(s: string)
    requires s != "" && (s[0] == '-' || s[0] == '+')
    ensures s[0] == '-' ==> Atoi(s) == ToInt32(Clamp64(-(Number(s[1..], 0) as int)))
    ensures s[0] == '+' ==> Atoi(s) == ToInt32(Clamp64(Number(s[1..], 0)))
  {
    SpanIs(s, IsSpace, 0);
    assert s[0..] == s;
  }

  lemma {:induction false} NumberIsRead(n: nat, rest: string)
    requires rest != "" ==> !IsDigit(rest[0])
    ensures Number(Dec(n) + rest, 0) == n && IsDigit((Dec(n) + rest)[0])
  {
    NumberOfDec(n, rest);
    assert (Dec(n) + rest)[0] == Dec(n)[0];
  }

  lemma SmallIsExact(v: int)
    ensures -TWO_31 <= v < TWO_31 ==> ToInt32(Clamp64(v)) == v
    ensures Clamp64(v) == if v < -TWO_63 then -TWO_63 else if v < TWO_63 then v else TWO_63 - 1
    ensures ToInt32(TWO_63 - 1) == -1 && ToInt32(-TWO_63) == 0
  {
  }

  /** Reading back a printed number, up to the first character that is no digit. */
  lemma {:induction false} AtoiOfDec(v: int, rest: string)
    requires -TWO_31 <= v < TWO_31 && (rest != "" ==> !IsDigit(rest[0]))
    ensures Atoi(DecInt(v) + rest) == v
  {
    SmallIsExact(v);
    if v < 0 {
      AtoiOfMinus(-v, rest);
    } else {
      NumberIsRead(v, rest);
      AtoiPlain(Dec(v) + rest);
    }
  }

  lemma {:induction false} AtoiOfMinus(n: nat, rest: string)
    requires rest != "" ==> !IsDigit(rest[0])
    ensures Atoi("-" + Dec(n) + rest) == ToInt32(Clamp64(-(n as int)))
  {
    var s := "-" + Dec(n) + rest;
    assert s[0] == '-' && s[1..] == Dec(n) + rest;
    NumberIsRead(n, rest);
    AtoiSigned(s);
  }

  lemma {:induction false} NumberOfWholeDec(n: nat)
    ensures Number(Dec(n), 0) == n && IsDigit(Dec(n)[0])
  {
    assert Dec(n) + "" == Dec(n);
    NumberIsRead(n, "");
  }

  /** Larger numbers are cut to 64 bits and then to 32, and a sign may stand in front. */
  lemma {:induction false} AtoiOfAnyDec(n: nat)
    ensures Atoi(Dec(n)) == if n < TWO_63 then ToInt32(n) else -1
  {
    NumberOfWholeDec(n);
    AtoiPlain(Dec(n));
    SmallIsExact(n);
  }

  lemma {:induction false} AtoiOfSignedDec(n: nat)
    ensures Atoi("-" + Dec(n)) == if n <= TWO_63 then ToInt32(-(n as int)) else 0
    ensures Atoi("+" + Dec(n)) == if n < TWO_63 then ToInt32(n) else -1
  {
    NumberOfWholeDec(n);
    var m, p := "-" + Dec(n), "+" + Dec(n);
    assert m[0] == '-' && p[0] == '+' && m[1..] == Dec(n) && p[1..] == Dec(n);
    AtoiSigned(m);
    AtoiSigned(p);
    SmallIsExact(n);
    SmallIsExact(-(n as int));
  }

  // ---------------------------------------------------------------- one header line

  predicate NoSpace(s: string) { forall i | 0 <= i < |s| :: !IsSpace(s[i]) }

  predicate NoBreak(s: string) { forall i | 0 <= i < |s| :: !IsBreak(s[i]) }

  predicate Trimmed(s: string) { s != "" ==> !IsSpace(s[0]) && !IsSpace(s[|s| - 1]) }

  /** A key without white space; a trimmed, non-empty value on one line. */
  predicate Good(f: Field) {
    NoSpace(f.key) && f.value != "" && Trimmed(f.value) && NoBreak(f.value)
  }

  lemma WordOf(w: string, rest: string)
    requires NoSpace(w) && w != "" && (rest != "" ==> IsSpace(rest[0]))
    ensures Word(w + rest) == w && AfterWord(w + rest) == rest
    ensures WordStart(w + rest) == 0 && WordEnd(w + rest) == |w|
  {
    var s := w + rest;
    SpanIs(s, IsSpace, 0);
    assert s[0..] == s;
    SpanIs(s, NotSpace, |w|);
  }

  lemma NextWord(w: string, rest: string)
    requires NoSpace(w) && (w == "" ==> rest == "") && (rest != "" ==> IsSpace(rest[0]))
    ensures Word(" " + w + rest) == w && AfterWord(" " + w + rest) == rest
    ensures WordStart(" " + w + rest) == 1
  {
    var s := " " + w + rest;
    SpanIs(s, IsSpace, 1);
    assert s[1..] == w + rest;
    SpanIs(s[1..], NotSpace, |w|);
  }

  lemma TrimOf(v: string)
    requires Trimmed(v)
    ensures Trim(" " + v) == v
  {
    SpanIs(" " + v, IsSpace, 1);
    assert (" " + v)[1..] == v;
    TrimEndIs(v, |v|);
  }

  lemma NoBreakCat(a: string, b: string)
    requires NoBreak(a) && NoBreak(b)
    ensures NoBreak(a + b)
  {
    forall i | 0 <= i < |a + b|
      ensures !IsBreak((a + b)[i])
    {
      if i >= |a| {
        assert (a + b)[i] == b[i - |a|];
      }
    }
  }

  lemma BreakIsSpace(s: string)
    requires NoSpace(s)
    ensures NoBreak(s)
  {
  }

  lemma KeyIsWord(key: string)
    requires NoSpace(key)
    ensures NoSpace(key + ":") && NoBreak(key + ":") && (key + ":")[..|key|] == key
  {
    assert forall i | 0 <= i < |key| :: (key + ":")[i] == key[i];
  }

  lemma LineIsClean(f: Field)
    requires Good(f)
    ensures LineOf(f) != "" && NoBreak(LineOf(f))
  {
    KeyIsWord(f.key);
    NoBreakCat(" ", f.value);
    NoBreakCat(f.key + ":", " " + f.value);
    assert LineOf(f) == (f.key + ":") + (" " + f.value);
  }

  lemma LineIsHeader(f: Field, h: HeaderMap)
    requires Good(f)
    ensures IsHeader(LineOf(f)) && WithHeader(h, LineOf(f)) == h[Lower(f.key) := f.value]
  {
    var w, rest := f.key + ":", " " + f.value;
    assert LineOf(f) == w + rest;
    KeyIsWord(f.key);
    WordOf(w, rest);
    TrimOf(f.value);
  }

  function Fold(h: HeaderMap, fs: seq<Field>): HeaderMap
    decreases |fs|
  {
    if fs == [] then h else Fold(h[Lower(fs[0].key) := fs[0].value], fs[1..])
  }

  lemma {:induction false} FoldSnoc(h: HeaderMap, fs: seq<Field>, f: Field)
    ensures Fold(h, fs + [f]) == Fold(h, fs)[Lower(f.key) := f.value]
    decreases |fs|
  {
    if fs == [] {
      assert [f][1..] == [];
      assert fs + [f] == [f];
      assert Fold(h[Lower(f.key) := f.value], []) == h[Lower(f.key) := f.value];
    } else {
      assert (fs + [f])[1..] == fs[1..] + [f];
      FoldSnoc(h[Lower(fs[0].key) := fs[0].value], fs[1..], f);
    }
  }

  // ------------------------------------------------------------ the header block

  /** The header block behind the start line, without the final line end: every line
      is preceded by a two-byte line end, the first by `sep`. */
  function Tail(sep: string, fs: seq<Field>): string
    decreases |fs|
  {
    if fs == [] then "" else sep + LineOf(fs[0]) + Tail("\r\n", fs[1..])
  }

  /** The same for any lines. */
  function Lines(sep: string, ls: seq<string>): string
    decreases |ls|
  {
    if ls == [] then "" else sep + ls[0] + Lines("\r\n", ls[1..])
  }

  function LinesOf(fs: seq<Field>): seq<string> {
    if fs == [] then [] else [LineOf(fs[0])] + LinesOf(fs[1..])
  }

  /** A line of a header block: not empty, and without line ends. */
  predicate Clean(l: string) { l != "" && NoBreak(l) }

  lemma {:induction false} TailIsLines(sep: string, fs: seq<Field>)
    ensures Tail(sep, fs) == Lines(sep, LinesOf(fs))
    ensures (forall f | f in fs :: Good(f)) ==> forall l | l in LinesOf(fs) :: Clean(l)
    decreases |fs|
  {
    if fs != [] {
      var ls := LinesOf(fs);
      assert ls[0] == LineOf(fs[0]) && ls[1..] == LinesOf(fs[1..]);
      TailIsLines("\r\n", fs[1..]);
      if forall f | f in fs :: Good(f) {
        assert fs[0] in fs && forall f | f in fs[1..] :: f in fs;
        LineIsClean(fs[0]);
        assert forall l | l in ls :: l == ls[0] || l in ls[1..];
      }
    }
  }

  lemma {:induction false} HeaderTextIsTail(sep: string, fs: seq<Field>)
    requires fs != []
    ensures sep + HeaderText(fs) == Tail(sep, fs) + "\r\n"
    decreases |fs|
  {
    var l := LineOf(fs[0]);
    if |fs| == 1 {
      assert fs[1..] == [];
      assert HeaderText(fs) == l + "\r\n" + "" == l + "\r\n";
      assert Tail("\r\n", fs[1..]) == "";
      assert Tail(sep, fs) == sep + l + "" == sep + l;
    } else {
      HeaderTextIsTail("\r\n", fs[1..]);
      assert HeaderText(fs) == l + ("\r\n" + HeaderText(fs[1..]));
      assert sep + (l + (Tail("\r\n", fs[1..]) + "\r\n")) == sep + l + Tail("\r\n", fs[1..]) + "\r\n";
    }
  }

  lemma LineEndBefore(l: string, rest: string)
    requires NoBreak(l) && (rest != "" ==> IsBreak(rest[0]))
    ensures LineEnd(l + rest) == |l|
  {
    SpanIs(l + rest, NotBreak, |l|);
  }

  /** One round of the header loop. */
  lemma {:induction false} HeadersStep(sep: string, l: string, rest: string, h: HeaderMap)
    requires |sep| == 2 && IsHeader(l) && NoBreak(l) && (rest != "" ==> IsBreak(rest[0]))
    ensures Headers(sep + l + rest, h) == Headers(rest, WithHeader(h, l))
  {
    var req, behind := sep + l + rest, l + rest;
    assert req[2..] == behind && |req| > 1;
    LineEndBefore(l, rest);
    assert behind[..|l|] == l && behind[|l|..] == rest;
    assert Headers(req, h) == Headers(behind[|l|..], WithHeader(h, behind[..|l|]));
  }

  lemma {:induction false} HeadersOfTail(sep: string, fs: seq<Field>, h: HeaderMap)
    requires |sep| == 2 && forall f | f in fs :: Good(f)
    ensures Headers(Tail(sep, fs), h) == Parsed(true, Fold(h, fs))
    decreases |fs|
  {
    if fs != [] {
      var f, rest := fs[0], Tail("\r\n", fs[1..]);
      assert f in fs && forall x | x in fs[1..] :: x in fs;
      LineIsHeader(f, h);
      LineIsClean(f);
      HeadersStep(sep, LineOf(f), rest, h);
      HeadersOfTail("\r\n", fs[1..], h[Lower(f.key) := f.value]);
    }
  }

  // ------------------------------------------------------------- the message format

  function CrlfLines(ls: seq<string>): string {
    if ls == [] then "" else ls[0] + "\r\n" + CrlfLines(ls[1..])
  }

  /** The message format of section 3 of RFC 7230: the start line, the fields, an empty
      line, each ended by carriage return and line feed, and the body. */
  predicate IsMessage(text: string, start: string, fields: seq<string>, body: string) {
    text == start + "\r\n" + CrlfLines(fields) + "\r\n" + body
  }

  lemma {:induction false} HeaderTextIsLines(fs: seq<Field>)
    ensures HeaderText(fs) == CrlfLines(LinesOf(fs))
    decreases |fs|
  {
    if fs != [] {
      var ls := LinesOf(fs);
      assert ls[0] == LineOf(fs[0]) && ls[1..] == LinesOf(fs[1..]);
      HeaderTextIsLines(fs[1..]);
    }
  }

  /** The last two fields of every message. */
  lemma {:induction false} CommonLines(fs: seq<Field>, body: string)
    ensures var ls, n := LinesOf(fs + Common(body)), |fs|;
            && |ls| == n + 2 && ls[n] == "Connection: Keep-Alive" && ls[n + 1] == "Content-Length: " + Dec(|body|)
    decreases |fs|
  {
    var all := fs + Common(body);
    if fs == [] {
      assert all == Common(body) && all[1..] == [all[1]] && all[1..][1..] == [];
      assert LineOf(all[0]) == "Connection" + ": " + "Keep-Alive" == "Connection: Keep-Alive";
      assert LineOf(all[1]) == "Content-Length" + ": " + Dec(|body|) == "Content-Length: " + Dec(|body|);
      assert LinesOf(all[1..]) == [LineOf(all[1])] + [];
    } else {
      assert all[0] == fs[0] && all[1..] == fs[1..] + Common(body);
      CommonLines(fs[1..], body);
    }
  }

  /** An encoded response has that format, if its status line fits the line buffer. */
  lemma {:induction false} ResponseIsMessage(version: string, status: int, word: string, fs: seq<Field>, body: string)
    requires |version + " " + DecInt(status) + " " + word| + 2 < 1024
    ensures IsMessage(ResponseText(version, status, word, fs, body), version + " " + DecInt(status) + " " + word,
                      LinesOf(fs + Common(body)), body)
  {
    HeaderTextIsLines(fs + Common(body));
    PrintedIs(StatusLine(version, status, word) + "\r\n", 1024);
  }

  /** An encoded request does not: two line feeds end its request line. */
  lemma {:induction false} RequestIsNoMessage(method': string, target: string, version: string, fs: seq<Field>, body: string,
                                              fields: seq<string>, other: string)
    requires |method' + " " + target + " " + version| + 2 < 4096
    ensures RequestText(method', target, version, fs, body)
         == method' + " " + target + " " + version + "\n\n" + CrlfLines(LinesOf(fs + Common(body))) + "\r\n" + body
    ensures !IsMessage(RequestText(method', target, version, fs, body), method' + " " + target + " " + version, fields, other)
  {
    var start := method' + " " + target + " " + version;
    var text := RequestText(method', target, version, fs, body);
    HeaderTextIsLines(fs + Common(body));
    PrintedIs(RequestLine(method', target, version) + "\n\n", 4096);
    assert text[|start|] == '\n';
    var as' := start + "\r\n" + CrlfLines(fields) + "\r\n" + other;
    assert as'[|start|] == '\r';
  }

  // -------------------------------------------------------- finding the blank line

  /** No blank line starts at `q`: there are no two carriage returns two apart. */
  predicate Bare(u: string, q: nat) {
    q + 2 < |u| && !(u[q] == '\r' && u[q + 2] == '\r')
  }

  predicate NoEnd(u: string, n: nat) {
    forall q: nat | q < n :: Bare(u, q)
  }

  lemma BareBehind(a: string, v: string, k: nat)
    requires Bare(v, k)
    ensures Bare(a + v, |a| + k)
  {
    assert (a + v)[|a| + k] == v[k] && (a + v)[|a| + k + 2] == v[k + 2];
  }

  lemma NoEndBehind(a: string, v: string, n: nat)
    requires NoEnd(v, n) && NoEnd(a + v, |a|)
    ensures NoEnd(a + v, |a| + n)
  {
    forall q: nat | q < |a| + n
      ensures Bare(a + v, q)
    {
      if q >= |a| {
        BareBehind(a, v, q - |a|);
      }
    }
  }

  lemma NoEndInLine(sep: string, l: string, v: string)
    requires sep == "\r\n" || sep == "\n\n"
    requires l != "" && NoBreak(l) && |v| >= 2
    ensures NoEnd(sep + l + v, |sep + l|)
  {
    var u := sep + l + v;
    assert u[1] == '\n' && u[2] == l[0];
    forall q: nat | q < |sep + l|
      ensures Bare(u, q)
    {
      if q >= 2 {
        assert u[q] == l[q - 2];
      }
    }
  }

  lemma {:induction false} NoEndInLines(sep: string, ls: seq<string>, x: string)
    requires sep == "\r\n" || sep == "\n\n"
    requires (forall l | l in ls :: Clean(l)) && |x| >= 2
    ensures NoEnd(Lines(sep, ls) + x, |Lines(sep, ls)|)
    decreases |ls|
  {
    if ls != [] {
      var l, t := ls[0], Lines("\r\n", ls[1..]);
      assert l in ls && forall k | k in ls[1..] :: k in ls;
      NoEndInLines("\r\n", ls[1..], x);
      NoEndInLine(sep, l, t + x);
      NoEndBehind(sep + l, t + x, |t|);
      assert sep + l + t + x == sep + l + (t + x);
    }
  }

  lemma ScanFinds(req: string, x: string)
    requires NoEnd(req + TERMINATOR + x, |req|)
    ensures Scan(req + TERMINATOR + x, 0) == |req|
  {
    var u := req + TERMINATOR + x;
    forall q: nat | 0 <= q < |req|
      ensures Passed(u, q)
    {
      assert Bare(u, q);
      assert u[q..q + 4][0] == u[q] && u[q..q + 4][2] == u[q + 2];
    }
    ScanResumes(u, 0, |req|);
    assert u[|req|..|req| + 4] == TERMINATOR;
  }

  /** A header block is found where it was written. */
  lemma {:induction false} LinesAreFound(start: string, sep: string, ls: seq<string>, x: string)
    requires sep == "\r\n" || sep == "\n\n"
    requires NoBreak(start) && forall l | l in ls :: Clean(l)
    ensures Scan(start + Lines(sep, ls) + TERMINATOR + x, 0) == |start + Lines(sep, ls)|
  {
    var t, y := Lines(sep, ls), TERMINATOR + x;
    NoEndInLines(sep, ls, y);
    forall q: nat | q < |start|
      ensures Bare(start + (t + y), q)
    {
      assert (start + (t + y))[q] == start[q];
    }
    NoEndBehind(start, t + y, |t|);
    assert start + t + TERMINATOR + x == start + (t + y);
    ScanFinds(start + t, x);
  }

  /** The header block of an encoded message is found where it was written. */
  lemma {:induction false} BlockIsFound(start: string, sep: string, fs: seq<Field>, x: string)
    requires sep == "\r\n" || sep == "\n\n"
    requires NoBreak(start) && forall f | f in fs :: Good(f)
    ensures Scan(start + Tail(sep, fs) + TERMINATOR + x, 0) == |start + Tail(sep, fs)|
  {
    TailIsLines(sep, fs);
    LinesAreFound(start, sep, LinesOf(fs), x);
  }
}
