/** A server connection that receives several requests on one stream
    (src/common/handy/http.cc:178-221): one callback per read at most, which answers
    the request; sending the answer takes the request off the input and clears it. */
module HttpServer {
  import opened Ints
  import opened Slices
  import opened Http
  import opened HttpText
  import opened HttpRoundTrip
  import opened HttpFeed

  const CLEARED := Request(Msg(map[], "", false, 0, 0), "GET", "", "HTTP/1.1", "", map[])

  /** What has been received and not been consumed, the request being decoded, and the
      requests the callback was given. */
  datatype Server = Server(input: string, req: Request, closed: bool, served: seq<Request>)

  const FRESH_SERVER := Server("", CLEARED, false, [])

  /** `handleRead` after one read. */
  function Receive(s: Server, chunk: string): Server
    requires Fits(s.req.msg, s.input + chunk)
  {
    if s.closed then s else
      var buf := s.input + chunk;
      var (rq, v) := DecodeRequest(s.req, buf);
      match v
      case Complete =>
        DecodeFits(s.req.msg, buf);
        Server(buf[rq.msg.scanned..], CLEARED, false, s.served + [rq])
      case NotComplete => s.(input := buf, req := rq)
      case _ => s.(input := buf, req := rq, closed := true)
  }

  // -------------------------------------------------------------- encoded requests

  datatype Call = Call(method': string, target: string, version: string, fs: seq<Field>, body: string)

  function TextOf(c: Call): string { RequestText(c.method', c.target, c.version, c.fs, c.body) }

  predicate Fine(c: Call) {
    GoodLine(c.method', c.target, c.version) && (forall f | f in c.fs :: Good(f)) && |c.body| < TWO_31
  }

  /** The request as the callback sees it. */
  function Seen(c: Call): Request {
    Request(Msg(Received(map[], c.fs, c.body), c.body, true, |c.body|, |TextOf(c)|),
            c.method', c.target, c.version, UriOf(c.target), ArgsOf(map[], c.target))
  }

  function Stream(calls: seq<Call>): string {
    if calls == [] then "" else TextOf(calls[0]) + Stream(calls[1..])
  }

  /** A request that is all there is decoded, whatever follows it. */
  lemma WholeCall(c: Call, rest: string)
    requires Fine(c) && |TextOf(c) + rest| < TWO_63
    ensures Once(CLEARED.msg, TextOf(c) + rest).result == Complete
    ensures RequestFrom(CLEARED, Once(CLEARED.msg, TextOf(c) + rest)) == (Seen(c), Complete)
  {
    RequestRoundTrip(CLEARED, c.method', c.target, c.version, c.fs, c.body, rest);
  }

  /** A request that is not all there waits. */
  lemma PartOfCall(c: Call, w: string)
    requires Fine(c) && |TextOf(c)| < TWO_63 && w <= TextOf(c) && w != TextOf(c)
    ensures var r := Once(CLEARED.msg, w);
            r.result == NotComplete && !BadTarget(r.line1) && RequestFrom(CLEARED, r).1 == NotComplete
  {
    var t := TextOf(c)[|w|..];
    assert w + t == TextOf(c) && TextOf(c) + "" == TextOf(c);
    WholeCall(c, "");
    OnceMore(CLEARED.msg, w, t);
    LineKept(c, w);
  }

  lemma LineKept(c: Call, w: string)
    requires Fine(c) && |TextOf(c)| < TWO_63 && w <= TextOf(c)
    ensures !BadTarget(Once(CLEARED.msg, w).line1)
  {
    var t := TextOf(c)[|w|..];
    assert w + t == TextOf(c) && TextOf(c) + "" == TextOf(c);
    WholeCall(c, "");
    OnceMore(CLEARED.msg, w, t);
  }

  predicate AllFine(calls: seq<Call>) {
    |Stream(calls)| < TWO_63 && forall c | c in calls :: Fine(c)
  }

  /** The server waits for the first of `rest`, of which it has looked at `w`. */
  predicate InStep(s: Server, rest: seq<Call>, w: string) {
    && !s.closed && w <= s.input <= Stream(rest) && |s.input| < TWO_63
    && s.req == RequestFrom(CLEARED, Once(CLEARED.msg, w)).0
    && (w != "" ==> rest != [] && |w| < |TextOf(rest[0])|)
  }

  lemma {:induction false} Waiting(rest: seq<Call>, w: string)
    requires AllFine(rest) && w <= Stream(rest) && (w != "" ==> rest != [] && |w| < |TextOf(rest[0])|)
    ensures var r := Once(CLEARED.msg, w);
            r.result == NotComplete && !BadTarget(r.line1) && RequestFrom(CLEARED, r).1 == NotComplete
  {
    if w != "" {
      var t := TextOf(rest[0]);
      assert rest[0] in rest;
      assert w == Stream(rest)[..|w|] == t[..|w|];
      PartOfCall(rest[0], w);
    } else {
      assert Once(CLEARED.msg, "") == Reply(CLEARED.msg, NotComplete, "");
    }
  }

  /** What a read brings is decoded as if it had come at once. */
  lemma {:induction false} DecodesAtOnce(s: Server, rest: seq<Call>, w: string, buf: string)
    requires AllFine(rest) && InStep(s, rest, w) && s.input <= buf <= Stream(rest)
    ensures Fits(s.req.msg, buf)
    ensures DecodeRequest(s.req, buf) == RequestFrom(CLEARED, Once(CLEARED.msg, buf))
  {
    var t := buf[|w|..];
    assert w + t == buf;
    assert Fresh(CLEARED.msg) && |w + t| < TWO_63;
    Waiting(rest, w);
    RequestMore(CLEARED, w, t);
  }

  lemma {:induction false} ServesNow(s: Server, rest: seq<Call>, w: string, buf: string)
    requires AllFine(rest) && InStep(s, rest, w) && s.input <= buf <= Stream(rest)
    requires rest != [] && |TextOf(rest[0])| <= |buf|
    ensures Fits(s.req.msg, buf) && DecodeRequest(s.req, buf) == (Seen(rest[0]), Complete)
    ensures buf[|TextOf(rest[0])|..] <= Stream(rest[1..])
  {
    Front(rest, buf);
    DecodesAtOnce(s, rest, w, buf);
    WholeCallAt(rest[0], buf);
  }

  lemma {:induction false} Front(rest: seq<Call>, buf: string)
    requires AllFine(rest) && rest != [] && |TextOf(rest[0])| <= |buf| && buf <= Stream(rest)
    ensures Fine(rest[0]) && TextOf(rest[0]) <= buf && buf[|TextOf(rest[0])|..] <= Stream(rest[1..])
  {
    assert rest[0] in rest;
    assert Stream(rest) == TextOf(rest[0]) + Stream(rest[1..]);
  }

  lemma WholeCallAt(c: Call, buf: string)
    requires Fine(c) && TextOf(c) <= buf && |buf| < TWO_63
    ensures RequestFrom(CLEARED, Once(CLEARED.msg, buf)) == (Seen(c), Complete)
  {
    var rest := buf[|TextOf(c)|..];
    assert TextOf(c) + rest == buf;
    WholeCall(c, rest);
  }

  lemma {:induction false} WaitsOn(s: Server, rest: seq<Call>, w: string, buf: string)
    requires AllFine(rest) && InStep(s, rest, w) && s.input <= buf <= Stream(rest)
    requires rest != [] ==> |buf| < |TextOf(rest[0])|
    ensures Fits(s.req.msg, buf) && DecodeRequest(s.req, buf) == RequestFrom(CLEARED, Once(CLEARED.msg, buf))
    ensures DecodeRequest(s.req, buf).1 == NotComplete && (buf != "" ==> rest != [])
  {
    DecodesAtOnce(s, rest, w, buf);
    Waiting(rest, buf);
  }

  lemma ClearedIsStart()
    ensures RequestFrom(CLEARED, Once(CLEARED.msg, "")).0 == CLEARED
  {
    assert Once(CLEARED.msg, "") == Reply(CLEARED.msg, NotComplete, "");
  }

  /** One read: the next request is served if it is complete, and nothing else. */
  lemma {:induction false} ReadServesOne(s: Server, rest: seq<Call>, w: string, chunk: string)
    requires AllFine(rest) && InStep(s, rest, w) && s.input + chunk <= Stream(rest)
    ensures Fits(s.req.msg, s.input + chunk)
    ensures var buf, r := s.input + chunk, Receive(s, chunk);
            if rest != [] && |TextOf(rest[0])| <= |buf| then
              && InStep(r, rest[1..], "") && r.input == buf[|TextOf(rest[0])|..]
              && r.served == s.served + [Seen(rest[0])]
            else InStep(r, rest, buf) && r.input == buf && r.served == s.served
  {
    var buf := s.input + chunk;
    if rest != [] && |TextOf(rest[0])| <= |buf| {
      ServesNow(s, rest, w, buf);
      ClearedIsStart();
      assert Receive(s, chunk) == Server(buf[|TextOf(rest[0])|..], CLEARED, false, s.served + [Seen(rest[0])]);
    } else {
      WaitsOn(s, rest, w, buf);
    }
  }

  // ----------------------------------------------------------------- a whole stream

  predicate CanReceive(s: Server, chunks: seq<string>)
    decreases |chunks|
  {
    chunks != [] ==> Fits(s.req.msg, s.input + chunks[0]) && CanReceive(Receive(s, chunks[0]), chunks[1..])
  }

  function ReceiveAll(s: Server, chunks: seq<string>): Server
    requires CanReceive(s, chunks)
    decreases |chunks|
  {
    if chunks == [] then s else ReceiveAll(Receive(s, chunks[0]), chunks[1..])
  }

  /** How many requests are served: one per read, if it is complete by then. */
  function Turns(rest: seq<Call>, have: int, chunks: seq<string>): nat
    decreases |chunks|
  {
    if chunks == [] then 0 else
      var now := have + |chunks[0]|;
      if rest != [] && |TextOf(rest[0])| <= now then 1 + Turns(rest[1..], now - |TextOf(rest[0])|, chunks[1..])
      else Turns(rest, now, chunks[1..])
  }

  function SeenAll(calls: seq<Call>): seq<Request> {
    if calls == [] then [] else [Seen(calls[0])] + SeenAll(calls[1..])
  }

  lemma {:induction false} TurnsBound(rest: seq<Call>, have: int, chunks: seq<string>)
    ensures Turns(rest, have, chunks) <= |rest|
    decreases |chunks|
  {
    if chunks != [] {
      var now := have + |chunks[0]|;
      if rest != [] && |TextOf(rest[0])| <= now {
        TurnsBound(rest[1..], now - |TextOf(rest[0])|, chunks[1..]);
      } else {
        TurnsBound(rest, now, chunks[1..]);
      }
    }
  }

  lemma {:induction false} TurnsServe(rest: seq<Call>, have: int, chunks: seq<string>, left: int)
    requires chunks != [] && rest != [] && left == have + |chunks[0]| - |TextOf(rest[0])| && 0 <= left
    ensures Turns(rest, have, chunks) == 1 + Turns(rest[1..], left, chunks[1..])
  {
  }

  lemma {:induction false} TurnsWait(rest: seq<Call>, have: int, chunks: seq<string>, now: int)
    requires chunks != [] && now == have + |chunks[0]| && (rest != [] ==> now < |TextOf(rest[0])|)
    ensures Turns(rest, have, chunks) == Turns(rest, now, chunks[1..])
  {
  }

  lemma {:induction false} RestIsFine(rest: seq<Call>, buf: string, more: string)
    requires AllFine(rest) && rest != [] && |TextOf(rest[0])| <= |buf| && buf + more <= Stream(rest)
    ensures AllFine(rest[1..]) && buf[|TextOf(rest[0])|..] + more <= Stream(rest[1..])
  {
    var t := TextOf(rest[0]);
    assert Stream(rest) == t + Stream(rest[1..]);
    assert forall c | c in rest[1..] :: c in rest;
    assert buf[|t|..] + more == (buf + more)[|t|..];
  }

  lemma {:induction false} SeenFirst(served: seq<Request>, rest: seq<Call>, n: nat)
    requires rest != [] && n < |rest|
    ensures served + [Seen(rest[0])] + SeenAll(rest[1..][..n]) == served + SeenAll(rest[..n + 1])
  {
    var xs := rest[..n + 1];
    assert xs[0] == rest[0] && xs[1..] == rest[1..][..n];
    assert SeenAll(xs) == [Seen(xs[0])] + SeenAll(xs[1..]);
  }

  lemma {:induction false} ServesInTurn(s: Server, rest: seq<Call>, w: string, chunks: seq<string>)
    requires AllFine(rest) && InStep(s, rest, w) && s.input + Join(chunks) <= Stream(rest)
    ensures CanReceive(s, chunks)
    ensures var n := Turns(rest, |s.input|, chunks);
            n <= |rest| && !ReceiveAll(s, chunks).closed && ReceiveAll(s, chunks).served == s.served + SeenAll(rest[..n])
    decreases |chunks|, 1
  {
    if chunks == [] {
      assert s.served + SeenAll(rest[..0]) == s.served;
    } else {
      JoinTail(s.input, chunks);
      ReadServesOne(s, rest, w, chunks[0]);
      if rest != [] && |TextOf(rest[0])| <= |s.input + chunks[0]| {
        OneThenTheRest(s, rest, chunks, Receive(s, chunks[0]));
      } else {
        NoneThenTheRest(s, rest, chunks, Receive(s, chunks[0]));
      }
    }
  }

  lemma JoinTail(front: string, chunks: seq<string>)
    requires chunks != []
    ensures front + Join(chunks) == front + chunks[0] + Join(chunks[1..])
  {
  }

  lemma {:induction false} OneThenTheRest(s: Server, rest: seq<Call>, chunks: seq<string>, r: Server)
    requires AllFine(rest) && chunks != [] && s.input + chunks[0] + Join(chunks[1..]) <= Stream(rest)
    requires rest != [] && |TextOf(rest[0])| <= |s.input + chunks[0]|
    requires InStep(r, rest[1..], "") && r.input == (s.input + chunks[0])[|TextOf(rest[0])|..]
    requires r.served == s.served + [Seen(rest[0])]
    ensures CanReceive(r, chunks[1..])
    ensures var n, t := Turns(rest, |s.input|, chunks), ReceiveAll(r, chunks[1..]);
            n <= |rest| && !t.closed && t.served == s.served + SeenAll(rest[..n])
    decreases |chunks|, 0
  {
    var cs := chunks[1..];
    var m := Turns(rest[1..], |r.input|, cs);
    TurnsServe(rest, |s.input|, chunks, |r.input|);
    TurnsBound(rest[1..], |r.input|, cs);
    RestIsFine(rest, s.input + chunks[0], Join(cs));
    ServesInTurn(r, rest[1..], "", cs);
    SeenFirst(s.served, rest, m);
  }

  lemma {:induction false} NoneThenTheRest(s: Server, rest: seq<Call>, chunks: seq<string>, r: Server)
    requires AllFine(rest) && chunks != [] && s.input + chunks[0] + Join(chunks[1..]) <= Stream(rest)
    requires rest != [] ==> |s.input + chunks[0]| < |TextOf(rest[0])|
    requires InStep(r, rest, s.input + chunks[0]) && r.input == s.input + chunks[0] && r.served == s.served
    ensures CanReceive(r, chunks[1..])
    ensures var n, t := Turns(rest, |s.input|, chunks), ReceiveAll(r, chunks[1..]);
            n <= |rest| && !t.closed && t.served == s.served + SeenAll(rest[..n])
    decreases |chunks|, 0
  {
    TurnsWait(rest, |s.input|, chunks, |r.input|);
    ServesInTurn(r, rest, s.input + chunks[0], chunks[1..]);
  }

  // --------------------------------------------------------------- when all are served

  /** How many reads end with at least `e` bytes of the stream received. */
  function ReadsFrom(have: int, chunks: seq<string>, e: int): nat
    decreases |chunks|
  {
    if chunks == [] then 0 else
      (if e <= have + |chunks[0]| then 1 else 0) + ReadsFrom(have + |chunks[0]|, chunks[1..], e)
  }

  lemma {:induction false} ReadsFromIs(have: int, chunks: seq<string>, e: int, d: int)
    ensures ReadsFrom(have, chunks, e) <= |chunks|
    ensures e <= have ==> ReadsFrom(have, chunks, e) == |chunks|
    ensures ReadsFrom(have - d, chunks, e - d) == ReadsFrom(have, chunks, e)
    decreases |chunks|
  {
    if chunks != [] {
      ReadsFromIs(have + |chunks[0]|, chunks[1..], e, d);
    }
  }

  /** Where request `j` ends in the stream. */
  function EndOf(calls: seq<Call>, j: nat): nat
    requires j < |calls|
  {
    |TextOf(calls[0])| + if j == 0 then 0 else EndOf(calls[1..], j - 1)
  }

  /** For every request there are as many reads, from the one that completes it on, as
      requests from it on. */
  ghost predicate EnoughReads(calls: seq<Call>, have: int, chunks: seq<string>) {
    forall j | 0 <= j < |calls| :: |calls| - j <= ReadsFrom(have, chunks, EndOf(calls, j))
  }

  lemma {:induction false} EndIsBehind(calls: seq<Call>, j: nat)
    requires j < |calls|
    ensures |TextOf(calls[0])| <= EndOf(calls, j)
  {
  }

  lemma {:induction false} WaitKeepsEnough(calls: seq<Call>, have: int, chunks: seq<string>)
    requires chunks != [] && (calls != [] ==> have + |chunks[0]| < |TextOf(calls[0])|)
    ensures EnoughReads(calls, have, chunks) <==> EnoughReads(calls, have + |chunks[0]|, chunks[1..])
  {
    forall j | 0 <= j < |calls|
      ensures ReadsFrom(have, chunks, EndOf(calls, j)) == ReadsFrom(have + |chunks[0]|, chunks[1..], EndOf(calls, j))
    {
      EndIsBehind(calls, j);
    }
  }

  /** What the first read leaves to the others, request by request. */
  lemma {:induction false} LaterReads(calls: seq<Call>, have: int, chunks: seq<string>, j: nat)
    requires chunks != [] && 0 < j < |calls| && |TextOf(calls[0])| <= have + |chunks[0]|
    ensures var now, cs, e := have + |chunks[0]|, chunks[1..], EndOf(calls, j);
            && ReadsFrom(now - |TextOf(calls[0])|, cs, EndOf(calls[1..], j - 1)) == ReadsFrom(now, cs, e) <= |cs|
            && ReadsFrom(have, chunks, e) == ReadsFrom(now, cs, e) + (if e <= now then 1 else 0)
            && (e <= now ==> ReadsFrom(now, cs, e) == |cs|)
  {
    ReadsFromIs(have + |chunks[0]|, chunks[1..], EndOf(calls, j), |TextOf(calls[0])|);
  }

  lemma {:induction false} FirstReads(calls: seq<Call>, have: int, chunks: seq<string>)
    requires chunks != [] && calls != [] && |TextOf(calls[0])| <= have + |chunks[0]|
    ensures ReadsFrom(have, chunks, EndOf(calls, 0)) == |chunks|
  {
    ReadsFromIs(have + |chunks[0]|, chunks[1..], EndOf(calls, 0), 0);
  }

  lemma {:induction false} ServeKeepsEnough(calls: seq<Call>, have: int, chunks: seq<string>)
    requires chunks != [] && calls != [] && |TextOf(calls[0])| <= have + |chunks[0]|
    ensures EnoughReads(calls, have, chunks) <==>
            EnoughReads(calls[1..], have + |chunks[0]| - |TextOf(calls[0])|, chunks[1..])
  {
    var rest, now := calls[1..], have + |chunks[0]| - |TextOf(calls[0])|;
    FirstReads(calls, have, chunks);
    if EnoughReads(calls, have, chunks) {
      assert |calls| - 0 <= ReadsFrom(have, chunks, EndOf(calls, 0));
      forall i | 0 <= i < |rest|
        ensures |rest| - i <= ReadsFrom(now, chunks[1..], EndOf(rest, i))
      {
        LaterReads(calls, have, chunks, i + 1);
        assert |calls| - (i + 1) <= ReadsFrom(have, chunks, EndOf(calls, i + 1));
      }
    }
    if EnoughReads(rest, now, chunks[1..]) {
      forall j | 0 <= j < |calls|
        ensures |calls| - j <= ReadsFrom(have, chunks, EndOf(calls, j))
      {
        if |calls| > 1 {
          var i := if j == 0 then 0 else j - 1;
          LaterReads(calls, have, chunks, i + 1);
          assert |rest| - i <= ReadsFrom(now, chunks[1..], EndOf(rest, i));
        }
      }
    }
  }

  lemma {:induction false} AllTurnsIff(calls: seq<Call>, have: int, chunks: seq<string>)
    ensures Turns(calls, have, chunks) == |calls| <==> EnoughReads(calls, have, chunks)
    decreases |chunks|
  {
    if chunks == [] {
      if calls != [] {
        assert |calls| - 0 > ReadsFrom(have, chunks, EndOf(calls, 0));
      }
    } else if calls != [] && |TextOf(calls[0])| <= have + |chunks[0]| {
      ServeKeepsEnough(calls, have, chunks);
      AllTurnsIff(calls[1..], have + |chunks[0]| - |TextOf(calls[0])|, chunks[1..]);
    } else {
      WaitKeepsEnough(calls, have, chunks);
      AllTurnsIff(calls, have + |chunks[0]|, chunks[1..]);
    }
  }

  lemma {:induction false} SeenAllIs(calls: seq<Call>)
    ensures |SeenAll(calls)| == |calls|
  {
    if calls != [] {
      SeenAllIs(calls[1..]);
    }
  }

  /** A stream of encoded requests, cut into reads in any way: the callback is given a
      prefix of the requests, in order, each as it was encoded, one per read at most;
      it has been given all of them if and only if for each request there are as many
      reads, from the one that completes it on, as requests from it on. */
  lemma {:induction false} PipelineIff(calls: seq<Call>, chunks: seq<string>)
    requires AllFine(calls) && Join(chunks) <= Stream(calls)
    ensures CanReceive(FRESH_SERVER, chunks) && !ReceiveAll(FRESH_SERVER, chunks).closed
    ensures ReceiveAll(FRESH_SERVER, chunks).served <= SeenAll(calls)
    ensures |ReceiveAll(FRESH_SERVER, chunks).served| <= |chunks|
    ensures ReceiveAll(FRESH_SERVER, chunks).served == SeenAll(calls) <==> EnoughReads(calls, 0, chunks)
  {
    ServesTurns(calls, chunks);
    var n := Turns(calls, 0, chunks);
    AllTurnsIff(calls, 0, chunks);
    TurnsWithin(calls, 0, chunks);
    SeenPrefix(calls, n);
    SeenAllIs(calls);
    SeenAllIs(calls[..n]);
  }

  lemma {:induction false} ServesTurns(calls: seq<Call>, chunks: seq<string>)
    requires AllFine(calls) && Join(chunks) <= Stream(calls)
    ensures CanReceive(FRESH_SERVER, chunks) && !ReceiveAll(FRESH_SERVER, chunks).closed
    ensures Turns(calls, 0, chunks) <= |calls|
    ensures ReceiveAll(FRESH_SERVER, chunks).served == SeenAll(calls[..Turns(calls, 0, chunks)])
  {
    ClearedIsStart();
    assert "" + Join(chunks) == Join(chunks);
    ServesInTurn(FRESH_SERVER, calls, "", chunks);
    var all := SeenAll(calls[..Turns(calls, 0, chunks)]);
    assert [] + all == all;
  }

  lemma {:induction false} TurnsWithin(rest: seq<Call>, have: int, chunks: seq<string>)
    ensures Turns(rest, have, chunks) <= |chunks|
    decreases |chunks|
  {
    if chunks != [] {
      var now := have + |chunks[0]|;
      if rest != [] && |TextOf(rest[0])| <= now {
        TurnsWithin(rest[1..], now - |TextOf(rest[0])|, chunks[1..]);
      } else {
        TurnsWithin(rest, now, chunks[1..]);
      }
    }
  }

  lemma {:induction false} SeenPrefix(calls: seq<Call>, n: nat)
    requires n <= |calls|
    ensures SeenAll(calls[..n]) <= SeenAll(calls) && (n == |calls| ==> calls[..n] == calls)
  {
    if n > 0 {
      assert calls[..n][0] == calls[0] && calls[..n][1..] == calls[1..][..n - 1];
      SeenPrefix(calls[1..], n - 1);
    }
  }

  /** Two requests in one read: the second waits until something else arrives. */
  lemma SecondWaits(a: Call, b: Call)
    requires AllFine([a, b])
    ensures var chunks := [Stream([a, b])];
            && CanReceive(FRESH_SERVER, chunks)
            && |ReceiveAll(FRESH_SERVER, chunks).served| <= 1
            && ReceiveAll(FRESH_SERVER, chunks).served != SeenAll([a, b])
  {
    var chunks := [Stream([a, b])];
    assert chunks[1..] == [];
    assert Join(chunks) == Stream([a, b]) + Join([]) == Stream([a, b]);
    PipelineIff([a, b], chunks);
    SeenAllIs([a, b]);
  }

  // ------------------------------------------------------------------- bad requests

  /** A request whose target does not start with a slash closes the connection as soon as
      its header is there, without being served, and nothing is served after it. */
  lemma {:induction false} BadRequestCloses(s: Server, chunk: string)
    requires !s.closed && Fits(s.req.msg, s.input + chunk)
    requires BadTarget(TryDecode(s.req.msg, s.input + chunk).line1)
    ensures Receive(s, chunk).closed && Receive(s, chunk).served == s.served
  {
    BadTargetIsError(s.req, TryDecode(s.req.msg, s.input + chunk));
  }

  lemma {:induction false} RefusedHeaderCloses(s: Server, chunk: string)
    requires !s.closed && Fits(s.req.msg, s.input + chunk)
    requires TryDecode(s.req.msg, s.input + chunk).result == Error
    ensures Receive(s, chunk).closed && Receive(s, chunk).served == s.served
  {
    BadTargetIsError(s.req, TryDecode(s.req.msg, s.input + chunk));
  }

  lemma {:induction false} ClosedStays(s: Server, chunks: seq<string>)
    requires s.closed && CanReceive(s, chunks)
    ensures ReceiveAll(s, chunks) == s
    decreases |chunks|
  {
    if chunks != [] {
      ClosedStays(Receive(s, chunks[0]), chunks[1..]);
    }
  }
}
