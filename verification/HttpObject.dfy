/** HttpMsg as the object it is (src/common/handy/http.h:10-37, http.cc:26-79): it
    scans a shared byte array, lower-cases header keys in place, and keeps its
    progress between calls. */
module HttpObject {
  import opened Slices
  import opened Http

  datatype LineKind = IsField | IsBlank | IsBad

  /** Nothing has changed but the case of letters before `e`. */
  predicate CaseOnly(was: string, now: string, e: nat) {
    |now| == |was| && Lower(now) == Lower(was) && forall i | e <= i < |was| :: now[i] == was[i]
  }

  class HttpMsg {
    var headers: HeaderMap
    var body: string
    var complete: bool
    var contentLen: nat
    var scanned: nat

    ghost function View(): Msg
      reads this
    {
      Msg(headers, body, complete, contentLen, scanned)
    }

    constructor ()
      ensures Fresh(View()) && headers == map[]
    {
      headers, body, complete, contentLen, scanned := map[], "", false, 0, 0;
    }

    /** Lower-case the key where it lies, and copy it without its colon. */
    method LowerKey(buf: array<char>, b: nat, e: nat, ghost to: nat) returns (key: string)
      requires b < e <= to <= buf.Length
      modifies buf
      ensures key == Lower(old(buf[b..e - 1])) && CaseOnly(old(buf[..]), buf[..], to)
      ensures forall j | 0 <= j < buf.Length ::
                buf[j] == if b <= j < e then ToLower(old(buf[j])) else old(buf[j])
    {
      for i := b to e
        invariant forall j | 0 <= j < buf.Length ::
                    buf[j] == if b <= j < i then ToLower(old(buf[j])) else old(buf[j])
      {
        buf[i] := ToLower(buf[i]);
      }
      key := buf[b..e - 1];
      LowerIs(old(buf[b..e - 1]), key);
      SameLower(old(buf[..]), buf[..]);
    }

    /** The store of one field. */
    method Store(buf: array<char>, kb: nat, ke: nat, ghost to: nat, ghost word: string, value: string)
      requires kb < ke <= to <= buf.Length && word == buf[kb..ke]
      modifies this`headers, buf
      ensures CaseOnly(old(buf[..]), buf[..], to)
      ensures headers == old(headers)[Lower(word[..|word| - 1]) := value]
    {
      SubSlice(buf, kb, kb, ke - 1, ke);
      var key := LowerKey(buf, kb, ke, to);
      headers := headers[key := value];
    }

    /** One header line: the store of a well-formed field. */
    method TakeLine(buf: array<char>, b: nat, e: nat) returns (kind: LineKind)
      requires b <= e <= buf.Length
      modifies this`headers, buf
      ensures CaseOnly(old(buf[..]), buf[..], e)
      ensures kind == KindOf(old(buf[b..e]))
      ensures headers == if kind == IsField then WithHeader(old(headers), old(buf[b..e])) else old(headers)
    {
      var kb, ke, vb, ve := CutLine(buf, b, e);
      var word, value := buf[kb..ke], buf[vb..ve];
      kind := Kind(word, value);
      if kind == IsField {
        FieldIs(buf[b..e], word, value, headers);
        Store(buf, kb, ke, e, word, value);
      }
    }

    /** One round of the header loop: eat two bytes and take one line. */
    method TakeRound(buf: array<char>, at: nat, to: nat) returns (kind: LineKind, e: nat)
      requires at + 2 <= to <= buf.Length
      modifies this`headers, buf
      ensures at + 2 <= e <= to && CaseOnly(old(buf[..]), buf[..], e)
      ensures Headers(old(buf[at..to]), old(headers))
           == if kind == IsField then Headers(old(buf[e..to]), headers)
              else Parsed(kind == IsBlank && e == to, headers)
    {
      var req := new Slice(buf, at + 2, to);
      var from;
      from, e := req.EatLine();
      NextLine(buf, at, e, to, headers);
      kind := TakeLine(buf, at + 2, e);
    }

    /** The header loop. */
    method ParseHeaders(buf: array<char>, from: nat, to: nat) returns (ok: bool)
      requires from <= to <= buf.Length
      modifies this`headers, buf
      ensures Parsed(ok, headers) == Headers(old(buf[from..to]), old(headers))
      ensures CaseOnly(old(buf[..]), buf[..], to)
    {
      ghost var all, was := Headers(buf[from..to], headers), buf[..];
      var at, kind := from, IsField;
      while kind == IsField && at < to
        invariant from <= at <= to
        invariant all == if kind == IsField then Headers(buf[at..to], headers) else Parsed(kind == IsBlank && at == to, headers)
        invariant CaseOnly(was, buf[..], at)
        decreases if kind == IsField then to - at else -1
      {
        if at + 1 == to {
          kind := IsBad;
        } else {
          ghost var mid := buf[..];
          ghost var now := at;
          kind, at := TakeRound(buf, at, to);
          Tails(was, mid, buf[..], now, at, to);
        }
      }
      return kind != IsBad && at == to;
    }

    /** The scan for the blank line. */
    method FindBlank(buf: array<char>, n: nat) returns (found: bool)
      requires scanned <= n <= buf.Length
      modifies this`scanned
      ensures scanned == Scan(buf[..n], old(scanned))
      ensures found == (scanned + 4 <= n)
    {
      ghost var s := buf[..n];
      found := false;
      while !found && scanned + 4 <= n
        invariant old(scanned) <= scanned <= n
        invariant forall q: nat | old(scanned) <= q < scanned :: Passed(s, q)
        invariant found ==> EndsAt(s, scanned)
        decreases !found, n - scanned
      {
        found := AtBlank(buf, scanned, n);
        if !found { scanned := scanned + 1; }
      }
      ScanResumes(s, old(scanned), scanned);
    }

    /** The tail: copy the body out once it is all there. */
    method FinishBody(buf: array<char>, n: nat, ghost line1: string) returns (result: Result)
      requires n <= buf.Length && Fits(View(), buf[..n]) && !complete
      modifies this
      ensures Reply(View(), result, line1) == TakeBody(old(View()), buf[..n], line1)
    {
      if n < Sum64(contentLen, scanned) { return NotComplete; }
      if contentLen >= TWO_63 { return Threw; }
      body := buf[scanned..scanned + contentLen];
      assert body == buf[..n][scanned..scanned + contentLen];
      complete, scanned := true, scanned + contentLen;
      return Complete;
    }

    /** The start line and the headers, when the blank line is at `scanned`. */
    method ReadBlock(buf: array<char>) returns (ok: bool, line1: string)
      requires scanned <= buf.Length
      modifies this`headers, buf
      ensures CaseOnly(old(buf[..]), buf[..], scanned)
      ensures line1 == StartLine(old(buf[..scanned]))
      ensures Parsed(ok, headers) == Headers(Behind(old(buf[..scanned])), old(headers))
    {
      var req := new Slice(buf, 0, scanned);
      var from, i := req.EatLine();
      assert buf[0..scanned] == buf[..scanned];
      line1 := buf[..i];
      SubSlice(buf, 0, 0, i, scanned);
      Suffix(buf, 0, i, scanned);
      ok := ParseHeaders(buf, i, scanned);
    }

    /** The branch taken when the blank line is at `scanned`. */
    method FinishHeaders(buf: array<char>, n: nat) returns (result: Result, line1: string)
      requires scanned + 4 <= n <= buf.Length && Fits(View(), buf[..n]) && !complete
      modifies this, buf
      ensures Reply(View(), result, line1) == TakeHeaders(old(View()), old(buf[..n]), old(scanned))
      ensures CaseOnly(old(buf[..]), buf[..], old(scanned))
    {
      ghost var m, was, p := View(), buf[..n], scanned;
      assert buf[..p] == was[..p];
      var ok;
      ok, line1 := ReadBlock(buf);
      if !ok {
        BadBlock(m, was, headers);
        return Error, line1;
      }
      assert buf[..n][p + 4..] == was[p + 4..];
      GoodBlock(m, was, buf[..n], headers);
      scanned, contentLen := scanned + 4, ContentLength(headers);
      result := FinishBody(buf, n, line1);
    }

    /** `tryDecode_` on the first `n` bytes of the shared array: the answer of the
        value-level parser on what was there, and nothing in the array changes but
        the case of letters before the point scanned. */
    method TryDecodeIn(buf: array<char>, n: nat) returns (result: Result, line1: string)
      requires n <= buf.Length && Fits(View(), buf[..n])
      modifies this, buf
      ensures Reply(View(), result, line1) == TryDecode(old(View()), old(buf[..n]))
      ensures CaseOnly(old(buf[..]), buf[..], scanned)
    {
      ghost var m, was := View(), buf[..n];
      line1 := "";
      if complete { return Complete, line1; }
      if contentLen == 0 {
        var found := FindBlank(buf, n);
        BlankOrHeaders(m, was, scanned);
        if scanned == 0 || !found { return NotComplete, line1; }
        result, line1 := FinishHeaders(buf, n);
      } else {
        result := FinishBody(buf, n, "");
      }
    }
  }

  lemma BlankOrHeaders(m: Msg, buf: string, p: nat)
    requires Fits(m, buf) && !m.complete && m.contentLen == 0 && p == Scan(buf, m.scanned)
    ensures p <= |buf|
    ensures TryDecode(m, buf)
         == if p == 0 || |buf| < p + 4 then Reply(m.(scanned := p), NotComplete, "")
            else TakeHeaders(m.(scanned := p), buf, p)
  {
    ScanStaysInside(buf, m.scanned);
  }

  /** The test at one position of the scan. */
  method AtBlank(buf: array<char>, p: nat, n: nat) returns (yes: bool)
    requires p + 4 <= n <= buf.Length
    ensures yes <==> EndsAt(buf[..n], p)
    ensures !yes <==> Passed(buf[..n], p)
  {
    assert buf[..n][p..p + 4] == buf[p..p + 4];
    assert buf[p..p + 4][0] == buf[p];
    yes := buf[p] == '\r' && buf[p..p + 4] == TERMINATOR;
  }

  lemma SameLower(s: string, t: string)
    requires |s| == |t| && forall i | 0 <= i < |s| :: t[i] == s[i] || t[i] == ToLower(s[i])
    ensures Lower(t) == Lower(s)
  {
    forall i | 0 <= i < |s|
      ensures Lower(t)[i] == Lower(s)[i]
    {
    }
  }

  lemma Tails(was: string, mid: string, now: string, at: nat, e: nat, to: nat)
    requires at <= e <= to <= |was| && CaseOnly(was, mid, at) && CaseOnly(mid, now, e)
    ensures CaseOnly(was, now, e) && now[e..to] == mid[e..to]
  {
  }

  lemma {:induction false} NextLine(buf: array<char>, at: nat, e: nat, to: nat, h: HeaderMap)
    requires at + 2 <= e <= to <= buf.Length && e == at + 2 + LineEnd(buf[at + 2..to])
    ensures Headers(buf[at..to], h)
         == if KindOf(buf[at + 2..e]) == IsField then Headers(buf[e..to], WithHeader(h, buf[at + 2..e]))
            else Parsed(KindOf(buf[at + 2..e]) == IsBlank && e == to, h)
  {
    Suffix(buf, at, at + 2, to);
    SubSlice(buf, at + 2, at + 2, e, to);
    Suffix(buf, at + 2, e, to);
    HeadersUnfold(buf[at..to], buf[at + 2..e], buf[e..to], h);
  }

  lemma HeadersUnfold(req: string, line: string, rest: string, h: HeaderMap)
    requires |req| >= 2 && line == req[2..][..LineEnd(req[2..])] && rest == req[2..][LineEnd(req[2..])..]
    ensures Headers(req, h)
         == if KindOf(line) == IsField then Headers(rest, WithHeader(h, line))
            else Parsed(KindOf(line) == IsBlank && rest == "", h)
  {
  }

  function StartLine(req: string): string { req[..LineEnd(req)] }

  function Behind(req: string): string { req[LineEnd(req)..] }

  lemma BadBlock(m: Msg, buf: string, h: HeaderMap)
    requires Fits(m, buf) && m.scanned + 4 <= |buf|
    requires Headers(Behind(buf[..m.scanned]), m.headers) == Parsed(false, h)
    ensures TakeHeaders(m, buf, m.scanned) == Reply(m.(headers := h), Error, StartLine(buf[..m.scanned]))
  {
  }

  /** The body is taken from the array as the header loop left it. */
  lemma {:induction false} GoodBlock(m: Msg, was: string, now: string, h: HeaderMap)
    requires Fits(m, was) && m.scanned + 4 <= |was| == |now| && was[m.scanned + 4..] == now[m.scanned + 4..]
    requires Headers(Behind(was[..m.scanned]), m.headers) == Parsed(true, h)
    ensures var n := m.(headers := h, scanned := m.scanned + 4, contentLen := ContentLength(h));
            TakeHeaders(m, was, m.scanned) == TakeBody(n, now, StartLine(was[..m.scanned]))
  {
    BodyFromHere(m.(headers := h, scanned := m.scanned + 4, contentLen := ContentLength(h)), was, now, StartLine(was[..m.scanned]));
  }

  lemma FieldIs(line: string, word: string, value: string, h: HeaderMap)
    requires word == Word(line) && value == Value(line) && Kind(word, value) == IsField
    ensures IsHeader(line) && WithHeader(h, line) == h[Lower(word[..|word| - 1]) := value]
  {
  }

  /** The two conditions of the loop body, on a key and a value. */
  function Kind(word: string, value: string): LineKind {
    if word != "" && value != "" && word[|word| - 1] == ':' then IsField
    else if word == "" && value == "" then IsBlank
    else IsBad
  }

  function KindOf(line: string): (k: LineKind)
    ensures k == IsField <==> IsHeader(line)
  {
    Kind(Word(line), Value(line))
  }

  /** eatWord and trimSpace on one line: where the key and the value lie. */
  method CutLine(buf: array<char>, b: nat, e: nat) returns (kb: nat, ke: nat, vb: nat, ve: nat)
    requires b <= e <= buf.Length
    ensures b <= kb <= ke <= vb <= ve <= e
    ensures Word(buf[b..e]) == buf[kb..ke] && Value(buf[b..e]) == buf[vb..ve]
  {
    var ln := new Slice(buf, b, e);
    kb, ke := ln.EatWord();
    ln.TrimSpace();
    vb, ve := ln.pb, ln.pe;
  }
}
