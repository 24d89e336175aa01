/** HttpRequest and HttpResponse as objects over a shared byte array
    (src/common/handy/http.h:39-62, http.cc:81-162). */
module HttpMessages {
  import opened Ints
  import opened Slices
  import opened Http
  import opened HttpText
  import opened HttpRoundTrip
  import opened HttpObject
  import Query

  // -------------------------------------------------------------------- encoding

  /** `fs` walks the header map: every entry once, in some order. */
  predicate Lists(fs: seq<Field>, h: HeaderMap) {
    && (forall i, j | 0 <= i < j < |fs| :: fs[i].key != fs[j].key)
    && (forall f | f in fs :: f.key in h && h[f.key] == f.value)
    && (forall k | k in h :: Field(k, h[k]) in fs)
  }

  predicate LowerKeys(h: HeaderMap) { forall k | k in h :: Lower(k) == k }

  /** The entries of `h` that `fs` lists. */
  function Listed(h: HeaderMap, fs: seq<Field>): HeaderMap {
    map k | k in h && Field(k, h[k]) in fs :: h[k]
  }

  lemma ListedStep(h0: HeaderMap, h: HeaderMap, f: Field, fs: seq<Field>)
    requires f.key in h && h[f.key] == f.value
    ensures h0[f.key := f.value] + Listed(h, fs) == h0 + Listed(h, [f] + fs)
  {
    var a, b := h0[f.key := f.value] + Listed(h, fs), h0 + Listed(h, [f] + fs);
    forall k
      ensures k in Listed(h, [f] + fs) <==> k == f.key || k in Listed(h, fs)
    {
    }
    assert a.Keys == b.Keys;
  }

  lemma {:induction false} FoldIsUnion(h0: HeaderMap, h: HeaderMap, fs: seq<Field>)
    requires LowerKeys(h) && forall f | f in fs :: f.key in h && h[f.key] == f.value
    ensures Fold(h0, fs) == h0 + Listed(h, fs)
    decreases |fs|
  {
    if fs == [] {
      assert Listed(h, fs) == map[];
    } else {
      var f := fs[0];
      assert f in fs && fs == [f] + fs[1..];
      FoldIsUnion(h0[f.key := f.value], h, fs[1..]);
      ListedStep(h0, h, f, fs[1..]);
    }
  }

  lemma ListedAll(h: HeaderMap, fs: seq<Field>)
    requires Lists(fs, h)
    ensures Listed(h, fs) == h
  {
  }

  /** A header map with the two fields that are always written. */
  function Sent(h: HeaderMap, body: string): HeaderMap {
    h["connection" := "Keep-Alive"]["content-length" := Dec(|body|)]
  }

  /** What the receiver of a walked header map holds: that map over its own, and the
      written connection and content-length over both. */
  lemma HeadersComeBack(h0: HeaderMap, h: HeaderMap, fs: seq<Field>, body: string)
    requires LowerKeys(h) && Lists(fs, h)
    ensures Received(h0, fs, body) == Sent(h0 + h, body)
  {
    FoldIsUnion(h0, h, fs);
    ListedAll(h, fs);
  }

  lemma OwnHeadersComeBack(h: HeaderMap, fs: seq<Field>, body: string)
    requires LowerKeys(h) && Lists(fs, h)
    ensures Received(map[], fs, body) == Sent(h, body)
  {
    HeadersComeBack(map[], h, fs, body);
    assert map[] + h == h;
  }

  lemma {:induction false} HeaderTextSnoc(fs: seq<Field>, f: Field)
    ensures HeaderText(fs + [f]) == HeaderText(fs) + LineOf(f) + "\r\n"
    decreases |fs|
  {
    if fs == [] {
      assert fs + [f] == [f] && [f][1..] == [];
      assert HeaderText([f]) == LineOf(f) + "\r\n" + "";
    } else {
      assert (fs + [f])[1..] == fs[1..] + [f];
      HeaderTextSnoc(fs[1..], f);
    }
  }

  /** The loop that appends the header lines; `fs` is the walk it took. */
  method AppendHeaders(out0: string, h: HeaderMap) returns (out: string, fs: seq<Field>)
    ensures Lists(fs, h) && out == out0 + HeaderText(fs)
  {
    out, fs := out0, [];
    var left := h;
    while left != map[]
      invariant forall k | k in left :: k in h && left[k] == h[k]
      invariant forall f | f in fs :: f.key in h && h[f.key] == f.value && f.key !in left
      invariant forall i, j | 0 <= i < j < |fs| :: fs[i].key != fs[j].key
      invariant forall k | k in h :: k in left || Field(k, h[k]) in fs
      invariant out == out0 + HeaderText(fs)
      decreases |left|
    {
      var k :| k in left;
      var f := Field(k, h[k]);
      HeaderTextSnoc(fs, f);
      Assoc(out0, HeaderText(fs), LineOf(f), "\r\n");
      out := out + LineOf(f) + "\r\n";
      fs := fs + [f];
      Smaller(left, k);
      left := left - {k};
    }
  }

  lemma Smaller(m: HeaderMap, k: string)
    requires k in m
    ensures |m - {k}| < |m|
  {
    var n := m - {k};
    assert n.Keys == m.Keys - {k};
    assert |n.Keys| == |m.Keys| - 1;
  }

  /** What both `encode`s do behind their start line; `n` is the count they return. */
  method AppendMessage(out0: string, start: string, h: HeaderMap, body: string)
      returns (out: string, n: nat, fs: seq<Field>)
    ensures Lists(fs, h) && out == out0 + Text(start, fs, body) && n == |Text(start, fs, body)|
  {
    out, fs := AppendHeaders(out0 + start, h);
    out := out + Closing(body);
    out := out + ("\r\n" + body);
    n := |out| - |out0|;
    TailText(fs, body);
    Regroup(out0, start, HeaderText(fs), Closing(body), "\r\n" + body);
    TextIs(start, fs, body);
  }

  /** The two lines written last. */
  function Closing(body: string): string {
    "Connection" + ": " + "Keep-Alive" + "\r\n" + ("Content-Length" + ": " + Dec(|body|) + "\r\n")
  }

  lemma Assoc(a: string, b: string, c: string, d: string)
    ensures a + b + c + d == a + (b + c + d)
  {
  }

  lemma Regroup(a: string, b: string, c: string, d: string, e: string)
    ensures a + b + c + d + e == a + (b + (c + d) + e)
  {
  }

  lemma TextIs(start: string, fs: seq<Field>, body: string)
    ensures Text(start, fs, body) == start + HeaderText(fs + Common(body)) + ("\r\n" + body)
  {
  }

  lemma TailText(fs: seq<Field>, body: string)
    ensures HeaderText(fs + Common(body)) == HeaderText(fs) + Closing(body)
  {
    var a, b := Common(body)[0], Common(body)[1];
    assert fs + Common(body) == fs + [a] + [b];
    HeaderTextSnoc(fs, a);
    HeaderTextSnoc(fs + [a], b);
    Pair(HeaderText(fs), LineOf(a), "\r\n", LineOf(b));
    assert Closing(body) == LineOf(a) + "\r\n" + (LineOf(b) + "\r\n");
  }

  lemma Pair(h: string, a: string, e: string, b: string)
    ensures h + a + e + b + e == h + (a + e + (b + e))
  {
  }

  /** Every entry of the map can be written as a header line and read back. */
  predicate GoodHeaders(h: HeaderMap) {
    LowerKeys(h) && forall k | k in h :: Good(Field(k, h[k]))
  }

  lemma GoodList(h: HeaderMap, fs: seq<Field>)
    requires GoodHeaders(h) && Lists(fs, h)
    ensures forall f | f in fs :: Good(f)
  {
    forall f | f in fs
      ensures Good(f)
    {
      assert f == Field(f.key, h[f.key]);
    }
  }

  /** A request with header map `h`, even one that holds a content-length, decoded
      from the bytes it was encoded to, in whatever order its map was walked. */
  lemma {:induction false} RequestComesBack(rq: Request, method': string, target: string, version: string,
                         h: HeaderMap, fs: seq<Field>, body: string, rest: string)
    requires Fresh(rq.msg) && rq.msg.headers == map[] && GoodLine(method', target, version)
    requires GoodHeaders(h) && Lists(fs, h) && |body| < TWO_31
    requires |RequestText(method', target, version, fs, body) + rest| < TWO_63
    ensures Fits(rq.msg, RequestText(method', target, version, fs, body) + rest)
    ensures DecodeRequest(rq, RequestText(method', target, version, fs, body) + rest)
         == (Request(Msg(Sent(h, body), body, true, |body|,
                         |RequestText(method', target, version, fs, body)|),
                     method', target, version, UriOf(target), ArgsOf(rq.args, target)),
             Complete)
  {
    GoodList(h, fs);
    OwnHeadersComeBack(h, fs, body);
    RequestRoundTrip(rq, method', target, version, fs, body, rest);
  }

  lemma {:induction false} ResponseComesBack(rs: Response, version: string, status: int, word: string,
                          h: HeaderMap, fs: seq<Field>, body: string, rest: string)
    requires Fresh(rs.msg) && rs.msg.headers == map[] && GoodStatus(version, status, word)
    requires GoodHeaders(h) && Lists(fs, h) && |body| < TWO_31
    requires |ResponseText(version, status, word, fs, body) + rest| < TWO_63
    ensures Fits(rs.msg, ResponseText(version, status, word, fs, body) + rest)
    ensures DecodeResponse(rs, ResponseText(version, status, word, fs, body) + rest)
         == (Response(Msg(Sent(h, body), body, true, |body|,
                          |ResponseText(version, status, word, fs, body)|),
                      version, status, word),
             Complete)
  {
    GoodList(h, fs);
    OwnHeadersComeBack(h, fs, body);
    ResponseRoundTrip(rs, version, status, word, fs, body, rest);
  }

  // --------------------------------------------------------------------- requests

  class HttpRequest {
    const msg: HttpMsg
    var method': string
    var target: string
    var version: string
    var uri: string
    var args: map<string, string>

    ghost function View(): Request
      reads this, msg
    {
      Request(msg.View(), method', target, version, uri, args)
    }

    constructor ()
      ensures fresh(msg) && Fresh(msg.View()) && msg.headers == map[] && args == map[]
    {
      msg := new HttpMsg();
      method', target, version, uri, args := "GET", "", "HTTP/1.1", "", map[];
    }

    /** `encode`: appends the request to `out0`. */
    method Encode(out0: string) returns (out: string, n: nat, fs: seq<Field>)
      ensures Lists(fs, msg.headers)
      ensures out == out0 + RequestText(method', target, version, fs, msg.body)
      ensures n == |RequestText(method', target, version, fs, msg.body)|
    {
      var start := Printed(RequestLine(method', target, version) + "\n\n", 4096);
      out, n, fs := AppendMessage(out0, start, msg.headers, msg.body);
    }

    method TryDecode(buf: array<char>, n: nat) returns (result: Result)
      requires n <= buf.Length && Fits(msg.View(), buf[..n])
      modifies this, msg, buf
      ensures (View(), result) == DecodeRequest(old(View()), old(buf[..n]))
      ensures CaseOnly(old(buf[..]), buf[..], msg.scanned)
    {
      var line1;
      result, line1 := msg.TryDecodeIn(buf, n);
      if line1 != "" { result := SplitLine(line1, result); }
    }

    /** The words of the start line, and the query. */
    method SplitLine(line1: string, verdict: Result) returns (result: Result)
      requires line1 != ""
      modifies this
      ensures (View(), result) == RequestFrom(old(View()), Reply(msg.View(), verdict, line1))
    {
      var l2 := AfterWord(line1);
      var t := Word(l2);
      method', target, version := Word(line1), t, Word(AfterWord(l2));
      if t == "" || t[0] != '/' { return Error; }
      uri, args := ReadTarget(args, t);
      return verdict;
    }
  }

  method ReadTarget(args0: map<string, string>, target: string) returns (uri: string, args: map<string, string>)
    ensures uri == UriOf(target) && args == ArgsOf(args0, target)
  {
    uri, args := Query.ParseTarget(args0, target);
  }

  // -------------------------------------------------------------------- responses

  class HttpResponse {
    const msg: HttpMsg
    var version: string
    var status: int
    var word: string

    ghost function View(): Response
      reads this, msg
    {
      Response(msg.View(), version, status, word)
    }

    constructor ()
      ensures fresh(msg) && Fresh(msg.View()) && msg.headers == map[]
    {
      msg := new HttpMsg();
      version, status, word := "HTTP/1.1", 200, "OK";
    }

    method Encode(out0: string) returns (out: string, n: nat, fs: seq<Field>)
      ensures Lists(fs, msg.headers)
      ensures out == out0 + ResponseText(version, status, word, fs, msg.body)
      ensures n == |ResponseText(version, status, word, fs, msg.body)|
    {
      var start := Printed(StatusLine(version, status, word) + "\r\n", 1024);
      out, n, fs := AppendMessage(out0, start, msg.headers, msg.body);
    }

    /** The status is read after the header loop has lower-cased the array. */
    method TryDecode(buf: array<char>, n: nat) returns (result: Result)
      requires n <= buf.Length && Fits(msg.View(), buf[..n])
      modifies this, msg, buf
      ensures (View(), result) == DecodeResponse(old(View()), old(buf[..n]))
      ensures CaseOnly(old(buf[..]), buf[..], msg.scanned)
    {
      var line1;
      result, line1 := msg.TryDecodeIn(buf, n);
      StatusSurvives(line1, old(buf[..]), buf[..], old(buf[..n]), buf[..n]);
      SplitLine(line1, buf[..n]);
    }

    method SplitLine(line1: string, buf: string)
      modifies this
      ensures line1 == "" ==> unchanged(this)
      ensures line1 != "" ==>
                version == Word(line1) && status == StatusOf(line1, buf) && word == Trim(AfterWord(AfterWord(line1)))
    {
      if line1 != "" {
        version, status, word := Word(line1), StatusOf(line1, buf), Trim(AfterWord(AfterWord(line1)));
      }
    }
  }

  lemma {:induction false} StatusSurvives(l: string, was: string, now: string, x: string, y: string)
    requires |was| == |now| && Lower(was) == Lower(now) && |x| == |y| && x <= was && y <= now
    ensures StatusOf(l, y) == StatusOf(l, x)
  {
    LettersKept(was, now, |x|);
    assert was[..|x|] == x && now[..|x|] == y;
    StatusIgnoresCase(l, x, y);
  }

  lemma LettersKept(was: string, now: string, n: nat)
    requires n <= |was| == |now| && Lower(was) == Lower(now)
    ensures SameLetters(was[..n], now[..n])
  {
    forall i | 0 <= i < n
      ensures ToLower(was[i]) == ToLower(now[i])
    {
      assert Lower(was)[i] == Lower(now)[i];
    }
  }

  lemma LettersBehind(s: string, t: string, k: nat)
    requires SameLetters(s, t) && k <= |s|
    ensures SameLetters(s[k..], t[k..])
  {
  }

  predicate SameLetters(s: string, t: string) {
    |s| == |t| && forall i | 0 <= i < |s| :: ToLower(s[i]) == ToLower(t[i])
  }

  lemma {:induction false} NumberIgnoresCase(s: string, t: string, acc: nat)
    requires SameLetters(s, t)
    ensures Number(s, acc) == Number(t, acc)
    decreases |s|
  {
    if s != "" && IsDigit(s[0]) {
      NumberIgnoresCase(s[1..], t[1..], acc * 10 + (s[0] as int - '0' as int));
    }
  }

  lemma AtoiIgnoresCase(s: string, t: string)
    requires SameLetters(s, t)
    ensures Atoi(s) == Atoi(t)
  {
    var k := WordStart(s);
    SpanIs(t, IsSpace, k);
    var u, v := s[k..], t[k..];
    NumberIgnoresCase(u, v, 0);
    if u != "" {
      NumberIgnoresCase(u[1..], v[1..], 0);
    }
  }

  lemma AtoiFrom(was: string, now: string, at: nat)
    requires SameLetters(was, now) && at <= |was|
    ensures Atoi(was[at..]) == Atoi(now[at..])
  {
    LettersBehind(was, now, at);
    AtoiIgnoresCase(was[at..], now[at..]);
  }

  lemma {:induction false} StatusIgnoresCase(l: string, was: string, now: string)
    requires SameLetters(was, now)
    ensures StatusOf(l, was) == StatusOf(l, now)
  {
    if StatusAt(l) <= |was| {
      AtoiFrom(was, now, StatusAt(l));
    }
  }
}
