/** Requests and responses that arrive in pieces: `tryDecode` is called after every
    read on everything received so far, until it gives a verdict other than
    NotComplete (src/common/handy/http.cc:96-135 and 153-162). */
module HttpFeed {
  import opened Slices
  import opened Http
  import opened HttpRoundTrip

  /** The parser's one-shot answer, and that it can be continued. */
  function Once(m: Msg, buf: string): (r: Reply)
    requires Fresh(m) && |buf| < TWO_63
    ensures Fits(r.msg, buf)
  {
    DecodeFits(m, buf);
    TryDecode(m, buf)
  }

  /** One more read: a final answer stays; after NotComplete, the next call gives the
      rest of the one-shot answer, and repeats no start line. */
  lemma {:induction false} OnceMore(m: Msg, buf: string, t: string)
    requires Fresh(m) && |buf + t| < TWO_63
    ensures Once(m, buf).result != NotComplete ==> Once(m, buf + t) == Once(m, buf)
    ensures Fits(Once(m, buf).msg, buf + t)
    ensures Once(m, buf).result == NotComplete ==>
              var r, s := Once(m, buf), TryDecode(Once(m, buf).msg, buf + t);
              && Once(m, buf + t) == s.(line1 := if r.line1 != "" then r.line1 else s.line1)
              && (r.line1 != "" ==> s.line1 == "")
  {
    OneMoreRead(m, buf, t);
    LineMeansLength(m, buf);
  }

  lemma {:induction false} LineMeansLength(m: Msg, buf: string)
    requires Fresh(m) && |buf| < TWO_63
    ensures Once(m, buf).result == NotComplete && Once(m, buf).line1 != "" ==>
              Once(m, buf).msg.contentLen != 0 && !Once(m, buf).msg.complete
  {
    var p := Scan(buf, 0);
    if p != 0 && p + 4 <= |buf| {
      assert Once(m, buf) == TakeHeaders(m, buf, p);
      HeaderReply(m, buf, p);
    } else {
      assert Once(m, buf).line1 == "";
    }
  }

  lemma BodyReply(m: Msg, buf: string, line1: string)
    requires Fits(m, buf)
    ensures var r := TakeBody(m, buf, line1);
            r.line1 == line1 && (r.result == NotComplete ==> r.msg == m && m.contentLen != 0)
  {
  }

  lemma HeaderReply(m: Msg, buf: string, p: nat)
    requires Fresh(m) && Fits(m, buf) && p + 4 <= |buf|
    ensures var r := TakeHeaders(m, buf, p);
            && r.line1 == buf[..p][..LineEnd(buf[..p])]
            && (r.result == NotComplete ==> r.msg.contentLen != 0 && !r.msg.complete)
  {
    var req := buf[..p];
    var h := Headers(req[LineEnd(req)..], m.headers);
    if h.ok {
      var n := m.(headers := h.headers, scanned := p + 4, contentLen := ContentLength(h.headers));
      BodyReply(n, buf, req[..LineEnd(req)]);
    }
  }

  // --------------------------------------------------------------------- requests

  function FeedRequest(rq: Request, verdict: Result, buf: string, chunks: seq<string>): (Request, Result)
    requires Fits(rq.msg, buf) && |buf| + |Join(chunks)| < TWO_63
    decreases |chunks|
  {
    if chunks == [] || verdict != NotComplete then (rq, verdict) else
      var b := buf + chunks[0];
      DecodeFits(rq.msg, b);
      var (rq', v) := DecodeRequest(rq, b);
      FeedRequest(rq', v, b, chunks[1..])
  }

  /** A start line whose target is missing or does not start with a slash. */
  predicate BadTarget(line1: string) {
    line1 != "" && var target := Word(AfterWord(line1)); target == "" || target[0] != '/'
  }

  /** A bad target is an error, whatever the parser said; any other start line leaves the
      parser's verdict. */
  lemma BadTargetIsError(rq: Request, r: Reply)
    ensures RequestFrom(rq, r).1 == if BadTarget(r.line1) then Error else r.result
  {
  }

  lemma {:induction false} RequestMore(rq: Request, buf: string, t: string)
    requires Fresh(rq.msg) && |buf + t| < TWO_63
    ensures var now := RequestFrom(rq, Once(rq.msg, buf)).0;
            Fits(now.msg, buf + t) &&
              (Once(rq.msg, buf).result == NotComplete && !BadTarget(Once(rq.msg, buf).line1) ==>
                 DecodeRequest(now, buf + t) == RequestFrom(rq, Once(rq.msg, buf + t)))
  {
    OnceMore(rq.msg, buf, t);
  }

  /** What stopping early may leave undone: nothing but the body. */
  predicate AgreeOnRequest(x: (Request, Result), y: (Request, Result), line1: string) {
    && x.1 == y.1 && x.0.(msg := y.0.msg) == y.0
    && (!BadTarget(line1) ==> x == y)
  }

  /** A request that is settled, by a final answer or by a bad target. */
  lemma {:induction false} RequestSettled(rq: Request, buf: string, t: string)
    requires Fresh(rq.msg) && |buf + t| < TWO_63
    ensures var r := Once(rq.msg, buf);
            r.result != NotComplete || BadTarget(r.line1) ==>
              AgreeOnRequest(RequestFrom(rq, r), RequestFrom(rq, Once(rq.msg, buf + t)), Once(rq.msg, buf + t).line1)
              && RequestFrom(rq, r).1 != NotComplete
  {
    OnceMore(rq.msg, buf, t);
  }

  lemma {:induction false} RequestFeeds(rq: Request, buf: string, chunks: seq<string>)
    requires Fresh(rq.msg) && |buf| + |Join(chunks)| < TWO_63
    ensures var now, all := RequestFrom(rq, Once(rq.msg, buf)), Once(rq.msg, buf + Join(chunks));
            && Fits(now.0.msg, buf)
            && AgreeOnRequest(FeedRequest(now.0, now.1, buf, chunks), RequestFrom(rq, all), all.line1)
    decreases |chunks|
  {
    var r := Once(rq.msg, buf);
    if chunks == [] {
      assert buf + Join(chunks) == buf;
    } else if r.result == NotComplete && !BadTarget(r.line1) {
      var b := buf + chunks[0];
      assert b + Join(chunks[1..]) == buf + Join(chunks);
      RequestMore(rq, buf, chunks[0]);
      RequestFeeds(rq, b, chunks[1..]);
    } else {
      RequestSettled(rq, buf, Join(chunks));
    }
  }

  /** However a request arrives, decoding after every read gives the verdict, method,
      target, version, path and arguments of decoding all of it at once, and the same
      message. Only a bad target is reported as soon as the header is there, without
      waiting for the body. */
  lemma {:induction false} RequestIncremental(rq: Request, chunks: seq<string>)
    requires Fresh(rq.msg) && |Join(chunks)| < TWO_63
    ensures AgreeOnRequest(FeedRequest(rq, NotComplete, "", chunks), DecodeRequest(rq, Join(chunks)),
                           Once(rq.msg, Join(chunks)).line1)
  {
    assert Once(rq.msg, "") == Reply(rq.msg, NotComplete, "");
    assert RequestFrom(rq, Once(rq.msg, "")) == (rq, NotComplete);
    assert "" + Join(chunks) == Join(chunks);
    RequestFeeds(rq, "", chunks);
  }

  // -------------------------------------------------------------------- responses

  function FeedResponse(rs: Response, verdict: Result, buf: string, chunks: seq<string>): (Response, Result)
    requires Fits(rs.msg, buf) && |buf| + |Join(chunks)| < TWO_63
    decreases |chunks|
  {
    if chunks == [] || verdict != NotComplete then (rs, verdict) else
      var b := buf + chunks[0];
      DecodeFits(rs.msg, b);
      var (rs', v) := DecodeResponse(rs, b);
      FeedResponse(rs', v, b, chunks[1..])
  }

  /** What had been received when the start line was first seen. */
  function FirstSeen(m: Msg, buf: string, chunks: seq<string>): string
    requires Fresh(m) && |buf| + |Join(chunks)| < TWO_63
    decreases |chunks|
  {
    if chunks == [] || Once(m, buf).line1 != "" then buf else FirstSeen(m, buf + chunks[0], chunks[1..])
  }

  /** The status is read by the call that sees the start line; later calls keep it. */
  lemma {:induction false} ResponseKeeps(rs: Response, seen: string, buf: string, chunks: seq<string>)
    requires Fresh(rs.msg) && |buf| + |Join(chunks)| < TWO_63
    ensures var now := ResponseFrom(rs, Once(rs.msg, buf), seen);
            && Fits(now.0.msg, buf)
            && (Once(rs.msg, buf).line1 != "" ==>
                  FeedResponse(now.0, now.1, buf, chunks) == ResponseFrom(rs, Once(rs.msg, buf + Join(chunks)), seen))
    decreases |chunks|
  {
    if Once(rs.msg, buf).line1 == "" {
    } else if chunks == [] {
      assert buf + Join(chunks) == buf;
    } else {
      var b := buf + chunks[0];
      assert b + Join(chunks[1..]) == buf + Join(chunks);
      OnceMore(rs.msg, buf, Join(chunks));
      OnceMore(rs.msg, buf, chunks[0]);
      if Once(rs.msg, buf).result == NotComplete {
        ResponseKeeps(rs, seen, b, chunks[1..]);
      }
    }
  }

  lemma {:induction false} ResponseFeeds(rs: Response, buf: string, chunks: seq<string>)
    requires Fresh(rs.msg) && |buf| + |Join(chunks)| < TWO_63
    ensures var now := ResponseFrom(rs, Once(rs.msg, buf), buf);
            && Fits(now.0.msg, buf)
            && FeedResponse(now.0, now.1, buf, chunks)
            == ResponseFrom(rs, Once(rs.msg, buf + Join(chunks)), FirstSeen(rs.msg, buf, chunks))
    decreases |chunks|
  {
    if chunks == [] {
      assert buf + Join(chunks) == buf;
    } else if Once(rs.msg, buf).line1 != "" {
      ResponseKeeps(rs, buf, buf, chunks);
    } else {
      var b := buf + chunks[0];
      assert b + Join(chunks[1..]) == buf + Join(chunks);
      OnceMore(rs.msg, buf, Join(chunks));
      OnceMore(rs.msg, buf, chunks[0]);
      if Once(rs.msg, buf).result == NotComplete {
        ResponseFeeds(rs, b, chunks[1..]);
      }
    }
  }

  /** However a response arrives, decoding after every read is decoding all of it at
      once, except that the status is read from what had arrived when the start line
      was first seen. */
  lemma {:induction false} ResponseIncremental(rs: Response, chunks: seq<string>)
    requires Fresh(rs.msg) && |Join(chunks)| < TWO_63
    ensures FeedResponse(rs, NotComplete, "", chunks)
         == ResponseFrom(rs, Once(rs.msg, Join(chunks)), FirstSeen(rs.msg, "", chunks))
  {
    assert Once(rs.msg, "") == Reply(rs.msg, NotComplete, "");
    assert ResponseFrom(rs, Once(rs.msg, ""), "") == (rs, NotComplete);
    assert "" + Join(chunks) == Join(chunks);
    ResponseFeeds(rs, "", chunks);
  }

  // ------------------------------------------------------- when the status is fixed

  /** Where the header of a message that has one ends. */
  function HeaderEnd(s: string): nat { Scan(s, 0) + 4 }

  lemma ScanOfPrefix(s: string, k: nat)
    requires k <= |s|
    ensures HeaderEnd(s) <= k ==> Scan(s[..k], 0) == Scan(s, 0)
    ensures Scan(s[..k], 0) + 4 <= k ==> Scan(s[..k], 0) == Scan(s, 0)
  {
    var b := s[..k];
    assert s == b + s[k..];
    ScanGrows(b, s[k..]);
    var p, r := Scan(s, 0), Scan(b, 0);
    if p + 4 <= k {
      SamePrefix(b, s[k..], p);
    }
  }

  /** The start line shows as soon as the header is there, and not before. */
  lemma {:induction false} SeenIff(m: Msg, s: string, k: nat)
    requires Fresh(m) && k <= |s| < TWO_63
    ensures Once(m, s).line1 != "" ==> 4 < HeaderEnd(s) <= |s| && Once(m, s).line1 <= s[..Scan(s, 0)]
    ensures Once(m, s).line1 != "" ==>
              Once(m, s[..k]).line1 == if HeaderEnd(s) <= k then Once(m, s).line1 else ""
  {
    LineIs(m, s);
    if HeaderEnd(s) <= k {
      SeenWhole(m, s, k);
    } else {
      ScanOfPrefix(s, k);
      LineIs(m, s[..k]);
    }
  }

  lemma {:induction false} SeenWhole(m: Msg, s: string, k: nat)
    requires Fresh(m) && HeaderEnd(s) <= k <= |s| < TWO_63
    ensures Once(m, s[..k]).line1 == Once(m, s).line1
  {
    ScanOfPrefix(s, k);
    assert s[..k][..Scan(s, 0)] == s[..Scan(s, 0)];
    LineIs(m, s);
    LineIs(m, s[..k]);
  }

  lemma LineIs(m: Msg, buf: string)
    requires Fresh(m) && |buf| < TWO_63
    ensures var p := Scan(buf, 0);
            if p == 0 || |buf| < p + 4 then Once(m, buf).line1 == ""
            else Once(m, buf).line1 == buf[..p][..LineEnd(buf[..p])]
  {
    var p := Scan(buf, 0);
    if p != 0 && p + 4 <= |buf| {
      assert Once(m, buf) == TakeHeaders(m, buf, p);
      HeaderReply(m, buf, p);
    }
  }

  predicate AllSpace(s: string) { forall i | 0 <= i < |s| :: IsSpace(s[i]) }

  lemma AtoiSkips(a: string, b: string)
    requires AllSpace(a)
    ensures Atoi(a + b) == Atoi(b)
  {
    var k := WordStart(b);
    SpanIs(a + b, IsSpace, |a| + k);
    assert (a + b)[|a| + k..] == b[k..];
  }

  lemma {:induction false} NumberStops(t: string, x: string, acc: nat)
    requires t != "" && !IsDigit(t[|t| - 1])
    ensures Number(t + x, acc) == Number(t, acc)
    decreases |t|
  {
    assert (t + x)[0] == t[0] && (t + x)[1..] == t[1..] + x;
    if IsDigit(t[0]) {
      NumberStops(t[1..], x, acc * 10 + (t[0] as int - '0' as int));
    }
  }

  /** A number that starts before the last space does not look past it. */
  lemma AtoiStops(u: string, x: string)
    requires !AllSpace(u) && IsSpace(u[|u| - 1])
    ensures Atoi(u + x) == Atoi(u)
  {
    var k := WordStart(u);
    assert k < |u|;
    SpanIs(u + x, IsSpace, k);
    var t := u[k..];
    assert (u + x)[k..] == t + x && (t + x)[0] == t[0] && (t + x)[1..] == t[1..] + x;
    NumberStops(t, x, 0);
    NumberStops(t[1..], x, 0);
  }

  lemma StatusAtCut(s: string, at: nat, q: nat, k: nat)
    requires at + 4 <= q <= k <= |s| && IsSpace(s[q - 1])
    ensures Atoi(s[..k][at..]) == if AllSpace(s[at..q]) then Atoi(s[q..k]) else Atoi(s[at..q])
  {
    assert s[..k][at..] == s[at..q] + s[q..k];
    if AllSpace(s[at..q]) {
      AtoiSkips(s[at..q], s[q..k]);
    } else {
      AtoiStops(s[at..q], s[q..k]);
    }
  }

  /** Something that is no space stands between the version and the end of the header,
      or what follows the header never reads as a number other than zero. */
  predicate StatusIsFixed(line1: string, s: string)
    requires HeaderEnd(s) <= |s|
  {
    || (StatusAt(line1) <= HeaderEnd(s) && !AllSpace(s[StatusAt(line1)..HeaderEnd(s)]))
    || (forall k | HeaderEnd(s) <= k <= |s| :: Atoi(s[HeaderEnd(s)..k]) == 0)
  }

  /** The status read from the first `k` bytes. */
  lemma {:induction false} StatusOfPrefix(m: Msg, s: string, k: nat)
    requires Fresh(m) && |s| < TWO_63 && Once(m, s).line1 != "" && HeaderEnd(s) <= k <= |s|
    ensures var l, q := Once(m, s).line1, HeaderEnd(s);
            && StatusAt(l) + 4 <= q
            && StatusOf(l, s[..k]) == if AllSpace(s[StatusAt(l)..q]) then Atoi(s[q..k]) else Atoi(s[StatusAt(l)..q])
  {
    SeenIff(m, s, k);
    var l, p := Once(m, s).line1, Scan(s, 0);
    assert s[p..p + 4][3] == '\n';
    assert StatusAt(l) <= |l|;
    StatusAtCut(s, StatusAt(l), p + 4, k);
  }

  lemma {:induction false} FirstSeenIs(m: Msg, buf: string, chunks: seq<string>)
    requires Fresh(m) && |buf| + |Join(chunks)| < TWO_63
    ensures FirstSeen(m, buf, chunks) <= buf + Join(chunks)
    ensures Once(m, buf + Join(chunks)).line1 != "" ==> Once(m, FirstSeen(m, buf, chunks)).line1 != ""
    decreases |chunks|
  {
    if chunks == [] {
      assert buf + Join(chunks) == buf;
    } else if Once(m, buf).line1 == "" {
      assert buf + chunks[0] + Join(chunks[1..]) == buf + Join(chunks);
      FirstSeenIs(m, buf + chunks[0], chunks[1..]);
    }
  }

  lemma {:induction false} FixedMeansSame(rs: Response, chunks: seq<string>)
    requires Fresh(rs.msg) && |Join(chunks)| < TWO_63
    requires var s := Join(chunks); var l := Once(rs.msg, s).line1;
             l == "" || (HeaderEnd(s) <= |s| && StatusIsFixed(l, s))
    ensures FeedResponse(rs, NotComplete, "", chunks) == DecodeResponse(rs, Join(chunks))
  {
    ResponseIncremental(rs, chunks);
    SeenStatus(rs.msg, chunks);
    SameStatus(rs, Once(rs.msg, Join(chunks)), FirstSeen(rs.msg, "", chunks), Join(chunks));
  }

  lemma SameStatus(rs: Response, r: Reply, x: string, y: string)
    requires r.line1 != "" ==> StatusOf(r.line1, x) == StatusOf(r.line1, y)
    ensures ResponseFrom(rs, r, x) == ResponseFrom(rs, r, y)
  {
  }

  lemma {:induction false} SeenStatus(m: Msg, chunks: seq<string>)
    requires Fresh(m) && |Join(chunks)| < TWO_63
    requires var s := Join(chunks); var l := Once(m, s).line1;
             l == "" || (HeaderEnd(s) <= |s| && StatusIsFixed(l, s))
    ensures var s := Join(chunks); var l := Once(m, s).line1;
            l != "" ==> StatusOf(l, FirstSeen(m, "", chunks)) == StatusOf(l, s)
  {
    var s, seen := Join(chunks), FirstSeen(m, "", chunks);
    assert "" + s == s;
    FirstSeenIs(m, "", chunks);
    if Once(m, s).line1 != "" {
      assert seen == s[..|seen|];
      SeenIff(m, s, |seen|);
      FixedStatus(m, s, |seen|);
    }
  }

  lemma {:induction false} FixedStatus(m: Msg, s: string, k: nat)
    requires Fresh(m) && |s| < TWO_63 && HeaderEnd(s) <= k <= |s|
    ensures var l := Once(m, s).line1;
            l != "" && StatusIsFixed(l, s) ==> StatusOf(l, s[..k]) == StatusOf(l, s)
  {
    if Once(m, s).line1 != "" {
      StatusOfPrefix(m, s, k);
      StatusOfPrefix(m, s, |s|);
      assert s[..|s|] == s;
    }
  }

  lemma {:induction false} CutSees(rs: Response, s: string, k: nat)
    requires Fresh(rs.msg) && |s| < TWO_63 && Once(rs.msg, s).line1 != "" && HeaderEnd(s) <= k <= |s|
    ensures Join([s[..k], s[k..]]) == s
    ensures FeedResponse(rs, NotComplete, "", [s[..k], s[k..]]).0.status == StatusOf(Once(rs.msg, s).line1, s[..k])
  {
    var chunks := [s[..k], s[k..]];
    assert chunks[1..] == [s[k..]] && chunks[1..][1..] == [];
    assert Join(chunks[1..]) == s[k..] + "";
    assert Join(chunks) == s;
    SeenIff(rs.msg, s, k);
    assert Once(rs.msg, "").line1 == "";
    assert "" + s[..k] == s[..k];
    assert FirstSeen(rs.msg, "", chunks) == s[..k];
    ResponseIncremental(rs, chunks);
  }

  /** Decoding a response read by read agrees with decoding it at once, for every way
      of cutting it, if and only if its status is fixed: with no status and no header
      field, `atoi` runs on into whatever of the body has arrived. */
  lemma ResponseIncrementalIff(rs: Response, s: string)
    requires Fresh(rs.msg) && |s| < TWO_63
    ensures var l := Once(rs.msg, s).line1;
            (forall chunks | Join(chunks) == s :: FeedResponse(rs, NotComplete, "", chunks) == DecodeResponse(rs, s)) <==>
            l == "" || (HeaderEnd(s) <= |s| && StatusIsFixed(l, s))
  {
    var l, q := Once(rs.msg, s).line1, HeaderEnd(s);
    if l == "" || (q <= |s| && StatusIsFixed(l, s)) {
      forall chunks | Join(chunks) == s
        ensures FeedResponse(rs, NotComplete, "", chunks) == DecodeResponse(rs, s)
      {
        FixedMeansSame(rs, chunks);
      }
    } else {
      var chunks := TearingCut(rs, s);
    }
  }

  lemma {:induction false} TearingCut(rs: Response, s: string) returns (chunks: seq<string>)
    requires Fresh(rs.msg) && |s| < TWO_63
    requires Once(rs.msg, s).line1 != "" && (HeaderEnd(s) <= |s| ==> !StatusIsFixed(Once(rs.msg, s).line1, s))
    ensures Join(chunks) == s && FeedResponse(rs, NotComplete, "", chunks) != DecodeResponse(rs, s)
  {
    var l, q := Once(rs.msg, s).line1, HeaderEnd(s);
    SeenIff(rs.msg, s, |s|);
    StatusOfPrefix(rs.msg, s, |s|);
    assert s[..|s|] == s && s[q..|s|] == s[q..];
    var k :| q <= k <= |s| && Atoi(s[q..k]) != 0;
    var c := if Atoi(s[q..]) != 0 then q else k;
    assert s[q..q] == "" && Atoi("") == 0;
    StatusOfPrefix(rs.msg, s, c);
    CutSees(rs, s, c);
    chunks := [s[..c], s[c..]];
  }

  /** A response that is torn: version, no status, no fields, and a body that starts
      with a digit. */
  lemma {:induction false} StatusCanTear(rs: Response) returns (chunks: seq<string>)
    requires Fresh(rs.msg)
    ensures Join(chunks) == "H\r\n\r\n7" && FeedResponse(rs, NotComplete, "", chunks) != DecodeResponse(rs, "H\r\n\r\n7")
  {
    var s := "H\r\n\r\n7";
    assert s[0..4][0] == 'H' && Passed(s, 0);
    assert s[1..5] == TERMINATOR;
    assert Scan(s, 1) == 1 && Scan(s, 0) == 1;
    assert s[..1] == "H";
    SpanIs("H", NotBreak, 1);
    LineIs(rs.msg, s);
    var l := Once(rs.msg, s).line1;
    assert l == "H";
    SpanIs("H", IsSpace, 0);
    assert "H"[0..] == "H";
    SpanIs("H", NotSpace, 1);
    assert "H"[1..] == "";
    assert StatusAt(l) == 1 && AllSpace(s[1..5]);
    assert s[5..6] == "7";
    SevenIsSeven();
    chunks := TearingCut(rs, s);
  }

  lemma SevenIsSeven()
    ensures Atoi("7") == 7
  {
    SpanIs("7", IsSpace, 0);
    assert "7"[0..] == "7" && "7"[1..] == "";
    assert Number("", 7) == 7;
    assert Number("7", 0) == 7;
  }
}
