/** Encoding a message and decoding it again (src/common/handy/http.cc:81-162). */
module HttpRoundTrip {
  import opened Ints
  import opened Slices
  import opened Http
  import opened HttpText
  import Query

  // --------------------------------------------------------------- any message

  lemma ConnectionKey()
    ensures Lower("Connection") == "connection"
  {
    LowerIs("Connection", "connection");
  }

  lemma {:induction false} LengthKey()
    ensures Lower("Content-Length") == "content-length"
  {
    LowerIs("Content-Length", "content-length");
  }

  lemma CommonIsGood(body: string)
    ensures forall f | f in Common(body) :: Good(f)
  {
  }

  lemma {:induction false} CommonFold(h: HeaderMap, fs: seq<Field>, body: string)
    ensures Fold(h, fs + Common(body))
         == Fold(h, fs)["connection" := "Keep-Alive"]["content-length" := Dec(|body|)]
  {
    var a, b := Common(body)[0], Common(body)[1];
    assert fs + Common(body) == fs + [a] + [b];
    FoldSnoc(h, fs + [a], b);
    FoldSnoc(h, fs, a);
    ConnectionKey();
    LengthKey();
  }

  lemma TextShape(start: string, sep: string, fs: seq<Field>, body: string)
    ensures Text(start + sep, fs, body) == start + Tail(sep, fs + Common(body)) + TERMINATOR + body
  {
    var all := fs + Common(body);
    HeaderTextIsTail(sep, all);
    assert start + sep + HeaderText(all) == start + (sep + HeaderText(all));
    assert TERMINATOR == "\r\n" + "\r\n";
  }

  /** The headers a decoder ends up with: keys in lower case, later fields over
      earlier ones, and the written connection and content-length over all. */
  function Received(h: HeaderMap, fs: seq<Field>, body: string): HeaderMap {
    Fold(h, fs)["connection" := "Keep-Alive"]["content-length" := Dec(|body|)]
  }

  lemma LengthIsRead(h: HeaderMap, fs: seq<Field>, body: string)
    requires |body| < TWO_31
    ensures ContentLength(Received(h, fs, body)) == |body|
  {
    AtoiOfDec(|body|, "");
    assert DecInt(|body|) + "" == Dec(|body|);
  }

  lemma BlockIsParsed(m: Msg, start: string, sep: string, fs: seq<Field>, body: string, rest: string)
    requires Fresh(m) && (sep == "\r\n" || sep == "\n\n") && NoBreak(start)
    requires forall f | f in fs :: Good(f)
    requires |Text(start + sep, fs, body) + rest| < TWO_63
    ensures var t := Tail(sep, fs + Common(body));
            var u := start + t + TERMINATOR + (body + rest);
            && Fits(m, u) && u[..|start + t|] == start + t
            && LineEnd(start + t) == |start| && (start + t)[|start|..] == t && (start + t)[..|start|] == start
            && Headers(t, m.headers) == Parsed(true, Received(m.headers, fs, body))
  {
    var t := Tail(sep, fs + Common(body));
    BlockFits(m, start, sep, fs, body, rest);
    FieldsAreParsed(sep, fs, body, m.headers);
    LineEndBefore(start, t);
    assert (start + t)[|start|..] == t && (start + t)[..|start|] == start;
  }

  lemma BlockFits(m: Msg, start: string, sep: string, fs: seq<Field>, body: string, rest: string)
    requires Fresh(m) && |Text(start + sep, fs, body) + rest| < TWO_63
    ensures var req := start + Tail(sep, fs + Common(body));
            var u := req + TERMINATOR + (body + rest);
            Fits(m, u) && u[..|req|] == req
  {
    TextShape(start, sep, fs, body);
    var req := start + Tail(sep, fs + Common(body));
    assert |req + TERMINATOR + (body + rest)| == |req + TERMINATOR + body + rest|;
  }

  lemma FieldsAreParsed(sep: string, fs: seq<Field>, body: string, h: HeaderMap)
    requires (sep == "\r\n" || sep == "\n\n") && forall f | f in fs :: Good(f)
    ensures Headers(Tail(sep, fs + Common(body)), h) == Parsed(true, Received(h, fs, body))
    ensures Tail(sep, fs + Common(body)) != "" && IsBreak(Tail(sep, fs + Common(body))[0])
  {
    var all := fs + Common(body);
    CommonIsGood(body);
    HeadersOfTail(sep, all, h);
    CommonFold(h, fs, body);
  }

  /** Decoding an encoded message followed by anything recovers the start line, the
      headers and the body, and consumes exactly the message. */
  lemma {:induction false} MessageRoundTrip(m: Msg, start: string, sep: string, fs: seq<Field>, body: string, rest: string)
    requires Fresh(m) && (sep == "\r\n" || sep == "\n\n") && start != "" && NoBreak(start)
    requires (forall f | f in fs :: Good(f)) && |body| < TWO_31
    requires |Text(start + sep, fs, body) + rest| < TWO_63
    ensures Fits(m, Text(start + sep, fs, body) + rest)
    ensures TryDecode(m, Text(start + sep, fs, body) + rest)
         == Reply(Msg(Received(m.headers, fs, body), body, true, |body|, |Text(start + sep, fs, body)|), Complete, start)
  {
    var t := Tail(sep, fs + Common(body));
    var req := start + t;
    var u := req + TERMINATOR + (body + rest);
    TextShape(start, sep, fs, body);
    assert Text(start + sep, fs, body) + rest == u;
    CommonIsGood(body);
    BlockIsFound(start, sep, fs + Common(body), body + rest);
    BlockIsParsed(m, start, sep, fs, body, rest);
    LengthIsRead(m.headers, fs, body);
    var n := m.(headers := Received(m.headers, fs, body), scanned := |req| + 4, contentLen := |body|);
    assert u[|req| + 4..|req| + 4 + |body|] == body;
    assert TakeHeaders(m, u, |req|) == TakeBody(n, u, start);
  }

  // -------------------------------------------------------------------- requests

  datatype Request = Request(
    msg: Msg, method': string, target: string, version: string,
    uri: string, args: map<string, string>)

  function UriOf(target: string): string { target[..Query.IndexOf(target, '?')] }

  function ArgsOf(args: map<string, string>, target: string): map<string, string> {
    var i := Query.IndexOf(target, '?');
    if i < |target| then Query.Args(args, target[i + 1..]) else args
  }

  /** The target of a client: a path without '?', and after one the query. */
  lemma TargetSplits(args: map<string, string>, path: string, query: string)
    requires forall i | 0 <= i < |path| :: path[i] != '?'
    ensures UriOf(path) == path && ArgsOf(args, path) == args
    ensures UriOf(path + "?" + query) == path && ArgsOf(args, path + "?" + query) == Query.Args(args, query)
  {
    var target := path + "?" + query;
    Query.IndexOfIs(path, '?', |path|);
    assert target[|path|] == '?' && forall i | 0 <= i < |path| :: target[i] == path[i];
    Query.IndexOfIs(target, '?', |path|);
    assert target[..|path|] == path && target[|path| + 1..] == query;
    assert path[..|path|] == path;
  }

  /** `HttpRequest::tryDecode`: the start line is split only by the call that saw
      it, and a target that does not start with a slash is an error. */
  function DecodeRequest(rq: Request, buf: string): (Request, Result)
    requires Fits(rq.msg, buf)
  {
    RequestFrom(rq, TryDecode(rq.msg, buf))
  }

  function RequestFrom(rq: Request, r: Reply): (Request, Result) {
    if r.line1 == "" then (rq.(msg := r.msg), r.result) else
      var l2 := AfterWord(r.line1);
      var target, version := Word(l2), Word(AfterWord(l2));
      var named := rq.(msg := r.msg, method' := Word(r.line1), target := target, version := version);
      if target == "" || target[0] != '/' then (named, Error)
      else (named.(uri := UriOf(target), args := ArgsOf(rq.args, target)), r.result)
  }

  lemma LineSplits(method': string, target: string, version: string)
    requires NoSpace(method') && NoSpace(target) && NoSpace(version) && method' != "" && target != ""
    ensures var l := RequestLine(method', target, version);
            var l2 := AfterWord(l);
            Word(l) == method' && Word(l2) == target && Word(AfterWord(l2)) == version
  {
    var tail := " " + version;
    var l := method' + (" " + target + tail);
    assert RequestLine(method', target, version) == l;
    WordOf(method', " " + target + tail);
    NextWord(target, tail);
    assert tail == " " + version + "";
    NextWord(version, "");
  }

  lemma RequestLineIsClean(method': string, target: string, version: string)
    requires NoSpace(method') && NoSpace(target) && NoSpace(version)
    ensures NoBreak(RequestLine(method', target, version))
  {
    BreakIsSpace(method');
    BreakIsSpace(target);
    BreakIsSpace(version);
    NoBreakCat(method', " ");
    NoBreakCat(method' + " ", target);
    NoBreakCat(method' + " " + target, " ");
    NoBreakCat(method' + " " + target + " ", version);
  }

  /** Words for a start line that survives: no white space, short enough for the
      line buffer, and a target that starts with a slash. */
  predicate GoodLine(method': string, target: string, version: string) {
    && NoSpace(method') && NoSpace(target) && NoSpace(version)
    && method' != "" && target != "" && target[0] == '/'
    && |RequestLine(method', target, version)| + 2 < 4096
  }

  /** A request comes back from its encoding, whatever follows it: method, target,
      version, path, arguments, headers, body, and the encoded length as consumed
      count. The doubled line feed behind the start line is eaten as a line end. */
  lemma {:induction false} RequestRoundTrip(rq: Request, method': string, target: string, version: string,
                         fs: seq<Field>, body: string, rest: string)
    requires Fresh(rq.msg) && GoodLine(method', target, version)
    requires (forall f | f in fs :: Good(f)) && |body| < TWO_31
    requires |RequestText(method', target, version, fs, body) + rest| < TWO_63
    ensures Fits(rq.msg, RequestText(method', target, version, fs, body) + rest)
    ensures DecodeRequest(rq, RequestText(method', target, version, fs, body) + rest)
         == (Request(Msg(Received(rq.msg.headers, fs, body), body, true, |body|,
                         |RequestText(method', target, version, fs, body)|),
                     method', target, version, UriOf(target), ArgsOf(rq.args, target)),
             Complete)
  {
    var start := RequestLine(method', target, version);
    RequestLineIsClean(method', target, version);
    LineSplits(method', target, version);
    assert Printed(start + "\n\n", 4096) == start + "\n\n";
    MessageRoundTrip(rq.msg, start, "\n\n", fs, body, rest);
  }

  // ------------------------------------------------------------------- responses

  datatype Response = Response(msg: Msg, version: string, status: int, word: string)

  /** `HttpResponse::tryDecode`. The status is read by `atoi` from the buffer itself,
      from where its word starts. */
  function DecodeResponse(rs: Response, buf: string): (Response, Result)
    requires Fits(rs.msg, buf)
  {
    ResponseFrom(rs, TryDecode(rs.msg, buf), buf)
  }

  function StatusAt(l: string): nat { WordEnd(l) + WordStart(AfterWord(l)) }

  function StatusOf(l: string, buf: string): int {
    if StatusAt(l) <= |buf| then Atoi(buf[StatusAt(l)..]) else 0
  }

  function ResponseFrom(rs: Response, r: Reply, buf: string): (Response, Result) {
    if r.line1 == "" then (rs.(msg := r.msg), r.result)
    else (Response(r.msg, Word(r.line1), StatusOf(r.line1, buf), Trim(AfterWord(AfterWord(r.line1)))), r.result)
  }

  lemma DecIntIsWord(v: int)
    ensures NoSpace(DecInt(v)) && DecInt(v) != ""
  {
    if v < 0 {
      assert forall i | 0 < i < |DecInt(v)| :: DecInt(v)[i] == Dec(-v)[i - 1];
    }
  }

  lemma StatusLineIsClean(version: string, status: int, word: string)
    requires NoSpace(version) && NoBreak(word)
    ensures NoBreak(StatusLine(version, status, word))
  {
    DecIntIsWord(status);
    BreakIsSpace(version);
    BreakIsSpace(DecInt(status));
    NoBreakCat(version, " ");
    NoBreakCat(version + " ", DecInt(status));
    NoBreakCat(version + " " + DecInt(status), " ");
    NoBreakCat(version + " " + DecInt(status) + " ", word);
  }

  lemma StatusSplits(version: string, status: int, word: string)
    requires NoSpace(version) && version != "" && Trimmed(word)
    ensures Word(StatusLine(version, status, word)) == version
    ensures WordEnd(StatusLine(version, status, word)) == |version|
    ensures WordStart(AfterWord(StatusLine(version, status, word))) == 1
    ensures Trim(AfterWord(AfterWord(StatusLine(version, status, word)))) == word
  {
    DecIntIsWord(status);
    var tail := " " + word;
    assert StatusLine(version, status, word) == version + (" " + DecInt(status) + tail);
    WordOf(version, " " + DecInt(status) + tail);
    NextWord(DecInt(status), tail);
    TrimOf(word);
  }

  predicate GoodStatus(version: string, status: int, word: string) {
    && NoSpace(version) && version != "" && Trimmed(word) && NoBreak(word)
    && -TWO_31 <= status < TWO_31
    && |StatusLine(version, status, word)| + 2 < 1024
  }

  /** A response comes back from its encoding, whatever follows it. */
  lemma ResponseRoundTrip(rs: Response, version: string, status: int, word: string,
                          fs: seq<Field>, body: string, rest: string)
    requires Fresh(rs.msg) && GoodStatus(version, status, word)
    requires (forall f | f in fs :: Good(f)) && |body| < TWO_31
    requires |ResponseText(version, status, word, fs, body) + rest| < TWO_63
    ensures Fits(rs.msg, ResponseText(version, status, word, fs, body) + rest)
    ensures DecodeResponse(rs, ResponseText(version, status, word, fs, body) + rest)
         == (Response(Msg(Received(rs.msg.headers, fs, body), body, true, |body|,
                          |ResponseText(version, status, word, fs, body)|),
                      version, status, word),
             Complete)
  {
    var start := StatusLine(version, status, word);
    StatusLineIsClean(version, status, word);
    assert Printed(start + "\r\n", 1024) == start + "\r\n";
    MessageRoundTrip(rs.msg, start, "\r\n", fs, body, rest);
    var buf := ResponseText(version, status, word, fs, body) + rest;
    StartsWith(start, "\r\n", fs, body, rest);
    StatusIsSplit(rs, TryDecode(rs.msg, buf), buf, version, status, word);
  }

  lemma {:induction false} StatusIsSplit(rs: Response, r: Reply, buf: string, version: string, status: int, word: string)
    requires GoodStatus(version, status, word)
    requires r.line1 == StatusLine(version, status, word) && r.line1 <= buf
    ensures ResponseFrom(rs, r, buf) == (Response(r.msg, version, status, word), r.result)
  {
    StatusSplits(version, status, word);
    StatusIsFound(buf, version, status, word);
  }

  lemma StatusIsFound(buf: string, version: string, status: int, word: string)
    requires GoodStatus(version, status, word) && StatusLine(version, status, word) <= buf
    ensures StatusOf(StatusLine(version, status, word), buf) == status
  {
    var l := StatusLine(version, status, word);
    var at := StatusAt(l);
    assert at == |version| + 1 by {
      StatusSplits(version, status, word);
    }
    assert StatusOf(l, buf) == Atoi(buf[at..]);
    StatusIsRead(buf, version, status, word);
  }

  lemma StartsWith(start: string, sep: string, fs: seq<Field>, body: string, rest: string)
    ensures start <= Text(start + sep, fs, body) + rest
  {
    var tail := HeaderText(fs + Common(body)) + "\r\n" + body + rest;
    assert Text(start + sep, fs, body) + rest == start + (sep + tail);
  }

  lemma StatusIsRead(buf: string, version: string, status: int, word: string)
    requires -TWO_31 <= status < TWO_31
    requires StatusLine(version, status, word) <= buf
    ensures Atoi(buf[|version| + 1..]) == status
  {
    var v, d := |version| + 1, DecInt(status);
    var start := StatusLine(version, status, word);
    var behind := buf[v + |d|..];
    assert start[v..v + |d|] == d && start[v + |d|] == ' ';
    assert buf[v..v + |d|] == d;
    assert buf[v..] == d + behind;
    AtoiOfDec(status, behind);
  }
}
