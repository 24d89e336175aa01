/** The incremental HTTP message parser of src/common/handy/http.cc:26-79, as a
    function of the parser state and the bytes received so far. */
module Http {
  import opened Ints
  import opened Slices

  const TERMINATOR: string := "\r\n\r\n"
  const TWO_63: int := 0x8000_0000_0000_0000
  const TWO_64: int := 0x1_0000_0000_0000_0000

  // -------------------------------------------------------------------- numbers

  predicate IsDigit(c: char) { '0' <= c <= '9' }

  function Number(s: string, acc: nat): nat {
    if s == "" || !IsDigit(s[0]) then acc
    else Number(s[1..], acc * 10 + (s[0] as int - '0' as int))
  }

  function Clamp64(v: int): int {
    if v >= TWO_63 then TWO_63 - 1 else if v < -TWO_63 then -TWO_63 else v
  }

  /** `atoi`: spaces, a sign, digits; computed in 64 bits and cut to 32. */
  function Atoi(s: string): int {
    var t := s[WordStart(s)..];
    if t != "" && t[0] == '-' then ToInt32(Clamp64(-(Number(t[1..], 0) as int)))
    else if t != "" && t[0] == '+' then ToInt32(Clamp64(Number(t[1..], 0)))
    else ToInt32(Clamp64(Number(t, 0)))
  }

  // -------------------------------------------------------------------- headers

  type HeaderMap = map<string, string>

  function Get(h: HeaderMap, k: string): string { if k in h then h[k] else "" }

  function Value(line: string): string { Trim(AfterWord(line)) }

  /** A word ending in a colon, followed by something. */
  predicate IsHeader(line: string) {
    Word(line) != "" && Value(line) != "" && Word(line)[|Word(line)| - 1] == ':'
  }

  function WithHeader(h: HeaderMap, line: string): HeaderMap
    requires IsHeader(line)
  {
    var k := Word(line);
    h[Lower(k[..|k| - 1]) := Value(line)]
  }

  datatype Parsed = Parsed(ok: bool, headers: HeaderMap)

  /** The header loop on what follows the start line. Each round eats two bytes of
      line end, whatever they are; with one byte left that steps past the end. */
  function Headers(req: string, h: HeaderMap): Parsed
    decreases |req|
  {
    if req == "" then Parsed(true, h)
    else if |req| == 1 then Parsed(false, h)
    else
      var i := LineEnd(req[2..]);
      var line, rest := req[2..][..i], req[2..][i..];
      if IsHeader(line) then Headers(rest, WithHeader(h, line))
      else Parsed(Word(line) == "" && Value(line) == "" && rest == "", h)
  }

  function ContentLength(h: HeaderMap): (n: nat)
    ensures n < TWO_64
  {
    var v := Atoi(Get(h, "content-length"));
    if v < 0 then v + TWO_64 else v
  }

  // --------------------------------------------------------------------- decode

  datatype Msg = Msg(headers: HeaderMap, body: string, complete: bool, contentLen: nat, scanned: nat)

  /** `Threw` is the exception of an impossible body length. */
  datatype Result = Error | Complete | NotComplete | Threw

  datatype Reply = Reply(msg: Msg, result: Result, line1: string)

  predicate EndsAt(buf: string, p: nat) {
    p + 4 <= |buf| && buf[p..p + 4] == TERMINATOR
  }

  /** The scan looks at `q` and moves on. */
  predicate Passed(buf: string, q: nat) {
    q + 4 <= |buf| && buf[q..q + 4] != TERMINATOR
  }

  /** The scan for the blank line: where it stops. */
  function Scan(buf: string, from: nat): (p: nat)
    ensures from <= p && (forall q: nat | from <= q < p :: Passed(buf, q))
    ensures p + 4 <= |buf| ==> EndsAt(buf, p)
    decreases |buf| - from
  {
    if Passed(buf, from) then Scan(buf, from + 1) else from
  }

  lemma ScanStaysInside(buf: string, from: nat)
    requires from <= |buf|
    ensures Scan(buf, from) <= |buf|
  {
    var p := Scan(buf, from);
    if from < p {
      assert Passed(buf, p - 1);
    }
  }

  /** The buffer only grows, and fits in memory. */
  predicate Fits(m: Msg, buf: string) {
    m.scanned <= |buf| < TWO_63 && m.contentLen < TWO_64
  }

  /** The sum of two unsigned 64-bit numbers. */
  function Sum64(x: nat, y: nat): nat
    requires x < TWO_64 && y < TWO_64
  {
    if x + y < TWO_64 then x + y else x + y - TWO_64
  }

  /** The tail of tryDecode_: take the body once it is all there. */
  function TakeBody(m: Msg, buf: string, line1: string): Reply
    requires Fits(m, buf)
  {
    if |buf| < Sum64(m.contentLen, m.scanned) then Reply(m, NotComplete, line1)
    else if m.contentLen >= TWO_63 then Reply(m, Threw, line1)
    else
      var end := m.scanned + m.contentLen;
      Reply(m.(body := buf[m.scanned..end], complete := true, scanned := end), Complete, line1)
  }

  /** The header block `buf[..p]`, when the blank line has been found at `p`. */
  function TakeHeaders(m: Msg, buf: string, p: nat): Reply
    requires Fits(m, buf) && p + 4 <= |buf|
  {
    var req := buf[..p];
    var i := LineEnd(req);
    var h := Headers(req[i..], m.headers);
    if !h.ok then Reply(m.(headers := h.headers, scanned := p), Error, req[..i])
    else TakeBody(m.(headers := h.headers, scanned := p + 4, contentLen := ContentLength(h.headers)), buf, req[..i])
  }

  /** `tryDecode_`, copying the body. */
  function TryDecode(m: Msg, buf: string): Reply
    requires Fits(m, buf)
  {
    if m.complete then Reply(m, Complete, "")
    else if m.contentLen == 0 then
      var p := Scan(buf, m.scanned);
      if p == 0 || |buf| < p + 4 then Reply(m.(scanned := p), NotComplete, "")
      else TakeHeaders(m, buf, p)
    else TakeBody(m, buf, "")
  }

  // ------------------------------------------------- incremental equals one-shot

  predicate Fresh(m: Msg) { !m.complete && m.contentLen == 0 && m.scanned == 0 }

  lemma {:induction false} ScanResumes(buf: string, from: nat, p: nat)
    requires from <= p && forall q: nat | from <= q < p :: Passed(buf, q)
    ensures Scan(buf, from) == Scan(buf, p)
    decreases p - from
  {
    if from < p {
      assert Passed(buf, from);
      ScanResumes(buf, from + 1, p);
    }
  }

  lemma SamePrefix(buf: string, t: string, p: nat)
    requires p + 4 <= |buf|
    ensures (buf + t)[p..p + 4] == buf[p..p + 4]
  {
  }

  /** No blank line starts before `scanned`, so a later call may start there. */
  lemma ScanGrows(buf: string, t: string)
    ensures Scan(buf + t, Scan(buf, 0)) == Scan(buf + t, 0)
    ensures Scan(buf, 0) + 4 <= |buf| ==> Scan(buf + t, 0) == Scan(buf, 0)
  {
    var p := Scan(buf, 0);
    forall q: nat | 0 <= q < p
      ensures Passed(buf + t, q)
    {
      assert Passed(buf, q);
      SamePrefix(buf, t, q);
    }
    ScanResumes(buf + t, 0, p);
    if p + 4 <= |buf| {
      SamePrefix(buf, t, p);
    }
  }

  lemma BodyGrows(m: Msg, buf: string, t: string, line1: string)
    requires Fits(m, buf) && Fits(m, buf + t)
    ensures TakeBody(m, buf, line1).result != NotComplete ==>
              TakeBody(m, buf + t, line1) == TakeBody(m, buf, line1)
  {
    if |buf| >= Sum64(m.contentLen, m.scanned) && m.contentLen < TWO_63 {
      var end := m.scanned + m.contentLen;
      assert (buf + t)[m.scanned..end] == buf[m.scanned..end];
    }
  }

  lemma BodyFits(m: Msg, buf: string, line1: string)
    requires Fits(m, buf)
    ensures Fits(TakeBody(m, buf, line1).msg, buf)
  {
  }

  lemma HeadersFit(m: Msg, buf: string, p: nat)
    requires Fits(m, buf) && p + 4 <= |buf|
    ensures Fits(TakeHeaders(m, buf, p).msg, buf)
  {
    var req := buf[..p];
    var h := Headers(req[LineEnd(req)..], m.headers);
    if h.ok {
      BodyFits(m.(headers := h.headers, scanned := p + 4, contentLen := ContentLength(h.headers)), buf, req[..LineEnd(req)]);
    }
  }

  lemma DecodeFits(m: Msg, buf: string)
    requires Fits(m, buf)
    ensures Fits(TryDecode(m, buf).msg, buf)
  {
    if m.complete {
    } else if m.contentLen == 0 {
      ScanStaysInside(buf, m.scanned);
      var p := Scan(buf, m.scanned);
      if p != 0 && p + 4 <= |buf| {
        HeadersFit(m, buf, p);
      }
    } else {
      BodyFits(m, buf, "");
    }
  }

  /** A second call with more bytes, and the start line of whichever call saw it. */
  function Later(r: Reply, buf: string): (s: Reply)
    requires Fits(r.msg, buf)
    ensures Fits(s.msg, buf)
  {
    DecodeFits(r.msg, buf);
    var s := TryDecode(r.msg, buf);
    s.(line1 := if r.line1 != "" then r.line1 else s.line1)
  }

  /** The message once its header block has been read. */
  function WithBlock(m: Msg, h: HeaderMap, p: nat): Msg {
    m.(headers := h, scanned := p + 4, contentLen := ContentLength(h))
  }

  lemma BlockReply(m: Msg, buf: string, p: nat, req: string)
    requires Fits(m, buf) && p + 4 <= |buf| && req == buf[..p]
    ensures var h := Headers(req[LineEnd(req)..], m.headers);
            && Fits(WithBlock(m, h.headers, p), buf)
            && TakeHeaders(m, buf, p)
            == if h.ok then TakeBody(WithBlock(m, h.headers, p), buf, req[..LineEnd(req)])
               else Reply(m.(headers := h.headers, scanned := p), Error, req[..LineEnd(req)])
  {
  }

  lemma BodyWaits(m: Msg, buf: string, line1: string)
    requires Fits(m, buf) && TakeBody(m, buf, line1).result == NotComplete
    ensures TakeBody(m, buf, line1) == Reply(m, NotComplete, line1) && m.contentLen != 0
  {
  }

  lemma {:induction false} HeadersGrow(m: Msg, buf: string, t: string, p: nat)
    requires Fits(m, buf) && Fits(m, buf + t) && p + 4 <= |buf| && Fresh(m)
    ensures var r := TakeHeaders(m, buf, p);
            if r.result != NotComplete then TakeHeaders(m, buf + t, p) == r
            else
              && r.msg.contentLen != 0 && !r.msg.complete && Fits(r.msg, buf + t)
              && TakeHeaders(m, buf + t, p) == TakeBody(r.msg, buf + t, r.line1)
  {
    var req := buf[..p];
    assert (buf + t)[..p] == req;
    BlockReply(m, buf, p, req);
    BlockReply(m, buf + t, p, req);
    var h, l := Headers(req[LineEnd(req)..], m.headers), req[..LineEnd(req)];
    if h.ok {
      var n := WithBlock(m, h.headers, p);
      BodyGrows(n, buf, t, l);
      if TakeBody(n, buf, l).result == NotComplete {
        BodyWaits(n, buf, l);
      }
    }
  }

  /** From a fresh message: a final verdict on a prefix is the verdict on any longer
      buffer, and after NotComplete the next call ends where one call would. */
  lemma {:induction false} OneMoreRead(m: Msg, buf: string, t: string)
    requires Fresh(m) && Fits(m, buf + t)
    ensures Fits(TryDecode(m, buf).msg, buf + t)
    ensures TryDecode(m, buf + t)
         == var r := TryDecode(m, buf); if r.result == NotComplete then Later(r, buf + t) else r
  {
    DecodeFits(m, buf);
    var p := Scan(buf, 0);
    if p != 0 && p + 4 <= |buf| {
      ScanGrows(buf, t);
      var r := TakeHeaders(m, buf, p);
      assert TryDecode(m, buf) == r && TryDecode(m, buf + t) == TakeHeaders(m, buf + t, p);
      HeadersGrow(m, buf, t, p);
      if r.result == NotComplete {
        BodyResumes(r, buf + t);
      }
    } else {
      StillSearching(m, buf, t);
    }
  }

  lemma BodyResumes(r: Reply, buf: string)
    requires Fits(r.msg, buf) && r.msg.contentLen != 0 && !r.msg.complete
    ensures Later(r, buf) == TakeBody(r.msg, buf, r.line1)
  {
  }

  lemma {:induction false} StillSearching(m: Msg, buf: string, t: string)
    requires Fresh(m) && Fits(m, buf + t)
    requires Scan(buf, 0) == 0 || |buf| < Scan(buf, 0) + 4
    ensures var r := Reply(m.(scanned := Scan(buf, 0)), NotComplete, "");
            && TryDecode(m, buf) == r && Fits(r.msg, buf + t)
            && TryDecode(r.msg, buf + t) == TryDecode(m, buf + t)
  {
    ScanStaysInside(buf, 0);
    ScanGrows(buf, t);
    var q := Scan(buf + t, 0);
    if q != 0 && q + 4 <= |buf + t| {
      assert TakeHeaders(m.(scanned := Scan(buf, 0)), buf + t, q) == TakeHeaders(m, buf + t, q);
    }
  }

  function Join(chunks: seq<string>): string {
    if chunks == [] then "" else chunks[0] + Join(chunks[1..])
  }

  /** One call per read, on everything received so far, until a verdict other than
      NotComplete. */
  function Feed(r: Reply, buf: string, chunks: seq<string>): Reply
    requires Fits(r.msg, buf) && |buf| + |Join(chunks)| < TWO_63
    decreases |chunks|
  {
    if chunks == [] || r.result != NotComplete then r
    else Feed(Later(r, buf + chunks[0]), buf + chunks[0], chunks[1..])
  }

  lemma {:induction false} FeedFrom(m: Msg, buf: string, chunks: seq<string>)
    requires Fresh(m) && |buf| + |Join(chunks)| < TWO_63
    ensures Fits(TryDecode(m, buf).msg, buf)
    ensures Feed(TryDecode(m, buf), buf, chunks) == TryDecode(m, buf + Join(chunks))
    decreases |chunks|
  {
    DecodeFits(m, buf);
    if chunks == [] {
      assert buf + Join(chunks) == buf;
    } else {
      var b := buf + chunks[0];
      assert b + Join(chunks[1..]) == buf + Join(chunks);
      OneMoreRead(m, buf, Join(chunks));
      OneMoreRead(m, buf, chunks[0]);
      if TryDecode(m, buf).result == NotComplete {
        FeedFrom(m, b, chunks[1..]);
      }
    }
  }

  /** However a message arrives, calling the parser after every read and stopping at
      the first final verdict gives the same verdict, headers, body, start line and
      consumed count as one call on everything received. */
  lemma {:induction false} IncrementalIsOneShot(m: Msg, chunks: seq<string>)
    requires Fresh(m) && |Join(chunks)| < TWO_63
    ensures Feed(Reply(m, NotComplete, ""), "", chunks) == TryDecode(m, Join(chunks))
  {
    assert TryDecode(m, "") == Reply(m, NotComplete, "");
    assert "" + Join(chunks) == Join(chunks);
    FeedFrom(m, "", chunks);
  }

  /** The body is read from `scanned` on. */
  lemma BodyFromHere(m: Msg, b1: string, b2: string, line1: string)
    requires Fits(m, b1) && |b1| == |b2| && b1[m.scanned..] == b2[m.scanned..]
    ensures TakeBody(m, b1, line1) == TakeBody(m, b2, line1)
  {
    if |b1| >= Sum64(m.contentLen, m.scanned) && m.contentLen < TWO_63 {
      assert b1[m.scanned..][..m.contentLen] == b1[m.scanned..m.scanned + m.contentLen];
      assert b2[m.scanned..][..m.contentLen] == b2[m.scanned..m.scanned + m.contentLen];
    }
  }

  /** Once the headers are in, the bytes before `scanned` are not looked at again:
      lower-casing the keys in place cannot change what follows. */
  lemma OnlyTheRestMatters(m: Msg, b1: string, b2: string)
    requires Fits(m, b1) && |b1| == |b2| && (m.contentLen != 0 || m.complete)
    requires b1[m.scanned..] == b2[m.scanned..]
    ensures TryDecode(m, b1) == TryDecode(m, b2)
  {
    BodyFromHere(m, b1, b2, "");
  }
}
