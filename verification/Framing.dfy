/** The message codecs of src/common/handy/codec.cc and the decode loop that
    TcpConn::onMsg installs (src/common/handy/conn.cc:251-264). */
module Framing {
  import opened Buffers
  import opened Ints

  const EOT: byte := 4
  const LF: byte := 10
  const CR: byte := 13
  const MAGIC: seq<byte> := [109, 66, 100, 84]  // "mBdT"
  const MAX_PAYLOAD: int := 1048576

  /** What a decoded slice holds. A negative length field yields a slice whose end
      lies before its start; `Underflow` records that extent. */
  datatype Message = Bytes(data: seq<byte>) | Underflow(size: int)

  /** The three outcomes of `tryDecode`: zero, negative, or bytes consumed. */
  datatype Decoded = Partial | Bad | Frame(used: nat, msg: Message)

  datatype Codec = Line | Length

  // ----------------------------------------------------------------- decoding

  function FirstIndex(s: seq<byte>, x: byte): (i: nat)
    ensures i <= |s|
    ensures i < |s| ==> s[i] == x
    ensures x !in s[..i]
  {
    if s == [] || s[0] == x then 0 else
      var i := 1 + FirstIndex(s[1..], x);
      assert s[..i] == [s[0]] + s[1..][..i - 1];
      i
  }

  lemma FirstIndexIs(s: seq<byte>, x: byte, i: nat)
    requires i < |s| && s[i] == x && x !in s[..i]
    ensures FirstIndex(s, x) == i
  {
  }

  function LineOf(s: seq<byte>, i: nat): seq<byte>
    requires i < |s|
  {
    if i > 0 && s[i - 1] == CR then s[..i - 1] else s[..i]
  }

  function LineDecode(s: seq<byte>): (r: Decoded)
    ensures r.Frame? ==> 0 < r.used <= |s|
  {
    if s == [EOT] then Frame(1, Bytes(s)) else
      var i := FirstIndex(s, LF);
      if i < |s| then Frame(i + 1, Bytes(LineOf(s, i))) else Partial
  }

  function BigEndian32(s: seq<byte>): (v: int)
    requires |s| == 4
    ensures 0 <= v < TWO_32
  {
    s[0] as int * 0x100_0000 + s[1] as int * 0x1_0000 + s[2] as int * 0x100 + s[3] as int
  }

  /** `LengthCodec::tryDecode` where `avail` is what the code compares with the
      frame length, the buffer size as an `int`. */
  function LengthDecodeAt(s: seq<byte>, avail: int): (r: Decoded)
    requires avail <= |s|
    ensures r.Frame? ==> 0 < r.used <= |s|
  {
    if |s| < 8 then Partial else
      var len := ToInt32(BigEndian32(s[4..8]));
      if len > MAX_PAYLOAD || s[..4] != MAGIC then Bad
      else if avail < len + 8 || len + 8 == 0 then Partial
      else if len + 8 < 0 then Bad
      else if len < 0 then Frame(len + 8, Underflow(len))
      else Frame(len + 8, Bytes(s[8..len + 8]))
  }

  function LengthDecode(s: seq<byte>): (r: Decoded)
    ensures r.Frame? ==> 0 < r.used <= |s|
  {
    LengthDecodeAt(s, |s|)
  }

  /** The scan loop of LineCodec::tryDecode. */
  method LineTryDecode(data: seq<byte>) returns (r: Decoded)
    ensures r == LineDecode(data)
  {
    if |data| == 1 && data[0] == EOT {
      return Frame(1, Bytes(data));
    }
    var i := 0;
    while i < |data|
      invariant 0 <= i <= |data| && LF !in data[..i]
    {
      if data[i] == LF {
        FirstIndexIs(data, LF, i);
        if i > 0 && data[i - 1] == CR {
          return Frame(i + 1, Bytes(data[..i - 1]));
        } else {
          return Frame(i + 1, Bytes(data[..i]));
        }
      }
      i := i + 1;
    }
    assert data[..i] == data;
    return Partial;
  }

  // ------------------------------------------------------------- decode loop

  type Decoder = seq<byte> -> Decoded

  function DecoderOf(c: Codec): (d: Decoder)
    ensures Progressive(d)
  {
    if c.Line? then LineDecode else LengthDecode
  }

  ghost predicate Progressive(d: Decoder) {
    forall s :: d(s).Frame? ==> 0 < d(s).used <= |s|
  }

  /** What the decode loop has delivered, what it leaves in the input buffer, and
      whether it closed the connection. */
  datatype Outcome = Outcome(msgs: seq<Message>, rest: seq<byte>, closed: bool)

  /** First one activation of the loop, then another. */
  function Then(x: Outcome, y: Outcome): Outcome {
    y.(msgs := x.msgs + y.msgs)
  }

  /** One activation of the decode loop on buffered bytes. */
  function Drain(d: Decoder, s: seq<byte>): (o: Outcome)
    requires Progressive(d)
    decreases |s|
  {
    match d(s)
    case Partial => Outcome([], s, false)
    case Bad => Outcome([], s, true)
    case Frame(used, msg) => Then(Outcome([msg], [], false), Drain(d, s[used..]))
  }

  /** The loop over a whole connection: every read appends a chunk to what the
      previous activation left over, until an activation closes the connection. */
  function Feed(d: Decoder, pending: seq<byte>, chunks: seq<seq<byte>>): Outcome
    requires Progressive(d)
    decreases |chunks|
  {
    if chunks == [] then Outcome([], pending, false) else
      var o := Drain(d, pending + chunks[0]);
      if o.closed then o else
        Then(o, Feed(d, o.rest, chunks[1..]))
  }

  /** Same messages, same verdict and, while the connection lives, same leftover. */
  predicate Same(x: Outcome, y: Outcome) {
    x.msgs == y.msgs && x.closed == y.closed && (!x.closed ==> x.rest == y.rest)
  }

  lemma {:induction false} DrainRestIsStuck(d: Decoder, s: seq<byte>)
    requires Progressive(d)
    ensures !Drain(d, s).closed ==> d(Drain(d, s).rest) == Partial
    decreases |s|
  {
    if d(s).Frame? {
      DrainRestIsStuck(d, s[d(s).used..]);
    }
  }

  // ---------------------------------------------------- chunking, any decoder

  /** On a stream that satisfies `ok`, a verdict on a prefix is final: more bytes
      never change it, and what follows the frame satisfies `ok` again. */
  predicate StableAt(d: Decoder, ok: seq<byte> -> bool, s: seq<byte>, t: seq<byte>) {
    ok(s + t) && d(s) != Partial ==>
      && d(s + t) == d(s)
      && (d(s).Frame? && d(s).used <= |s| ==> ok(s[d(s).used..] + t))
  }

  ghost predicate Stable(d: Decoder, ok: seq<byte> -> bool) {
    Progressive(d) && forall s, t :: StableAt(d, ok, s, t)
  }

  /** Draining a prefix first and the rest later is draining everything at once. */
  lemma {:induction false} DrainSplits(d: Decoder, ok: seq<byte> -> bool, s: seq<byte>, t: seq<byte>)
    requires Stable(d, ok) && ok(s + t)
    ensures Drain(d, s).closed ==> Drain(d, s + t).closed && Drain(d, s + t).msgs == Drain(d, s).msgs
    ensures !Drain(d, s).closed ==> ok(Drain(d, s).rest + t)
    ensures !Drain(d, s).closed ==> Drain(d, s + t) == Then(Drain(d, s), Drain(d, Drain(d, s).rest + t))
    decreases |s|
  {
    assert StableAt(d, ok, s, t);
    if d(s).Frame? {
      var n := d(s).used;
      assert (s + t)[n..] == s[n..] + t;
      DrainSplits(d, ok, s[n..], t);
      DrainFrame(d, s);
      DrainFrame(d, s + t);
      var a := Drain(d, s[n..]);
      if !a.closed {
        ThenAssoc(Outcome([d(s).msg], [], false), a, Drain(d, a.rest + t));
      }
    } else if d(s).Partial? {
      assert Then(Drain(d, s), Drain(d, s + t)) == Drain(d, s + t);
    }
  }

  lemma DrainFrame(d: Decoder, s: seq<byte>)
    requires Progressive(d) && d(s).Frame?
    ensures Drain(d, s) == Then(Outcome([d(s).msg], [], false), Drain(d, s[d(s).used..]))
  {
  }

  lemma ThenAssoc(x: Outcome, y: Outcome, z: Outcome)
    ensures Then(x, Then(y, z)) == Then(Then(x, y), z)
  {
    assert x.msgs + (y.msgs + z.msgs) == x.msgs + y.msgs + z.msgs;
  }

  lemma {:induction false} ChunkingFrom(d: Decoder, ok: seq<byte> -> bool, pending: seq<byte>, chunks: seq<seq<byte>>)
    requires Stable(d, ok) && ok(pending + Concat(chunks))
    requires d(pending) == Partial
    ensures Same(Feed(d, pending, chunks), Drain(d, pending + Concat(chunks)))
    decreases |chunks|
  {
    if chunks == [] {
      assert pending + Concat(chunks) == pending;
    } else {
      var s := pending + chunks[0];
      assert pending + Concat(chunks) == s + Concat(chunks[1..]);
      DrainSplits(d, ok, s, Concat(chunks[1..]));
      DrainRestIsStuck(d, s);
      if !Drain(d, s).closed {
        ChunkingFrom(d, ok, Drain(d, s).rest, chunks[1..]);
      }
    }
  }

  /** Any two ways of cutting an `ok` stream into reads deliver the same. */
  lemma ChunkingIndependent(d: Decoder, ok: seq<byte> -> bool, chunks: seq<seq<byte>>)
    requires Stable(d, ok) && ok(Concat(chunks)) && d([]) == Partial
    ensures Same(Feed(d, [], chunks), Drain(d, Concat(chunks)))
  {
    assert [] + Concat(chunks) == Concat(chunks);
    ChunkingFrom(d, ok, [], chunks);
  }

  // -------------------------------------------------- chunking: length frames

  predicate AnyStream(s: seq<byte>) { true }

  lemma {:induction false} LengthIsStable()
    ensures Stable(LengthDecode, AnyStream)
  {
    forall s, t
      ensures StableAt(LengthDecode, AnyStream, s, t)
    {
      LengthStableAt(s, t);
    }
  }

  lemma LengthStableAt(s: seq<byte>, t: seq<byte>)
    ensures StableAt(LengthDecode, AnyStream, s, t)
  {
    if LengthDecode(s) == Partial { return; }
    assert (s + t)[..4] == s[..4] && (s + t)[4..8] == s[4..8];
    var len := ToInt32(BigEndian32(s[4..8]));
    if 0 <= len && len + 8 <= |s| {
      assert (s + t)[8..len + 8] == s[8..len + 8];
    }
  }

  /** For every byte stream and every way of cutting it into reads, length-framed
      decoding delivers what decoding the whole stream at once delivers. */
  lemma LengthChunkingIndependent(chunks: seq<seq<byte>>)
    ensures Same(Feed(LengthDecode, [], chunks), Drain(LengthDecode, Concat(chunks)))
  {
    LengthIsStable();
    ChunkingIndependent(LengthDecode, AnyStream, chunks);
  }

  /** The `(int)` cast of the buffer size is exact below 2 GiB buffered. */
  lemma CastIsExact(s: seq<byte>)
    requires |s| < TWO_31
    ensures LengthDecodeAt(s, ToInt32(|s|)) == LengthDecode(s)
  {
  }

  // ---------------------------------------------------- chunking: line frames

  /** No line starts with 0x04, except possibly as the stream's very last byte. */
  predicate EotSafe(s: seq<byte>)
    decreases |s|
  {
    |s| > 1 ==>
      && s[0] != EOT
      && var i := FirstIndex(s, LF);
         i < |s| ==> EotSafe(s[i + 1..])
  }

  lemma {:induction false} LineIsStable()
    ensures Stable(LineDecode, EotSafe)
  {
    forall s, t
      ensures StableAt(LineDecode, EotSafe, s, t)
    {
      LineStableAt(s, t);
    }
  }

  lemma LineStableAt(s: seq<byte>, t: seq<byte>)
    ensures StableAt(LineDecode, EotSafe, s, t)
  {
    if !EotSafe(s + t) || LineDecode(s) == Partial {
    } else if s == [EOT] {
      assert t == [];
      assert s + t == s;
    } else {
      var i := FirstIndex(s, LF);
      assert (s + t)[..i] == s[..i];
      FirstIndexIs(s + t, LF, i);
      assert (s + t)[i + 1..] == s[i + 1..] + t;
      assert LineOf(s + t, i) == LineOf(s, i);
    }
  }

  lemma FeedTwo(d: Decoder, x: seq<byte>, y: seq<byte>)
    requires Progressive(d)
    ensures var o := Drain(d, x);
            Feed(d, [], [x, y]).msgs == if o.closed then o.msgs else o.msgs + Drain(d, o.rest + y).msgs
  {
    assert [] + x == x;
    var o := Drain(d, x);
    if !o.closed {
      var g := Drain(d, o.rest + y);
      assert [x, y][1..] == [y] && [y][1..] == [];
      assert g.msgs + Feed(d, g.rest, []).msgs == g.msgs;
      assert Feed(d, o.rest, [y]).msgs == g.msgs;
    }
  }

  /** Decoding a stream whose first line ends at `i` peels that line off. */
  lemma DrainLine(s: seq<byte>, i: nat)
    requires i < |s| && s[i] == LF && LF !in s[..i]
    ensures var o := Drain(LineDecode, s[i + 1..]);
            Drain(LineDecode, s) == o.(msgs := [Bytes(LineOf(s, i))] + o.msgs)
  {
    FirstIndexIs(s, LF, i);
    assert LineDecode(s) == Frame(i + 1, Bytes(LineOf(s, i)));
  }

  /** A line starting with 0x04 can be torn apart: cutting right behind that byte
      delivers more messages than decoding the stream at once. */
  lemma {:induction false} EotTears(s: seq<byte>) returns (k: nat)
    requires !EotSafe(s)
    ensures 0 < k < |s|
    ensures |Feed(LineDecode, [], [s[..k], s[k..]]).msgs| > |Drain(LineDecode, s).msgs|
    decreases |s|
  {
    if s[0] == EOT {
      k := 1;
      EotTearsHere(s);
    } else {
      var i := FirstIndex(s, LF);
      var u := s[i + 1..];
      var j := EotTears(u);
      k := i + 1 + j;
      DrainLine(s, i);
      LineInFront(s, i, j);
    }
  }

  /** A first line in front of a cut stream adds one message. */
  lemma {:induction false} LineInFront(s: seq<byte>, i: nat, j: nat)
    requires i < |s| && s[i] == LF && LF !in s[..i] && i + 1 + j <= |s|
    ensures var u, k := s[i + 1..], i + 1 + j;
            |Feed(LineDecode, [], [s[..k], s[k..]]).msgs| == 1 + |Feed(LineDecode, [], [u[..j], u[j..]]).msgs|
  {
    var u, k := s[i + 1..], i + 1 + j;
    var w := s[..k];
    assert w[..i] == s[..i] && w[i + 1..] == u[..j] && s[k..] == u[j..];
    DrainLine(w, i);
    FeedTwo(LineDecode, w, s[k..]);
    FeedTwo(LineDecode, u[..j], u[j..]);
  }

  lemma EotTearsHere(s: seq<byte>)
    requires |s| > 1 && s[0] == EOT
    ensures |Feed(LineDecode, [], [s[..1], s[1..]]).msgs| > |Drain(LineDecode, s).msgs|
  {
    NoLine([EOT]);
    assert s[..1] == [EOT];
    FeedTwo(LineDecode, [EOT], s[1..]);
    assert [] + s[1..] == s[1..];
    EotJoinsALine(s);
  }

  lemma EotJoinsALine(s: seq<byte>)
    requires |s| > 1 && s[0] == EOT
    ensures |Drain(LineDecode, s[1..]).msgs| >= |Drain(LineDecode, s).msgs|
  {
    var u := s[1..];
    var i := FirstIndex(s, LF);
    if i < |s| {
      assert u[..i - 1] == s[..i][1..];
      assert u[i..] == s[i + 1..];
      DrainLine(s, i);
      DrainLine(u, i - 1);
    } else {
      assert s[..i] == s;
      NoLine(s);
      NoLine(u);
    }
  }

  lemma NoLine(s: seq<byte>)
    requires LF !in s
    ensures s != [EOT] ==> Drain(LineDecode, s).msgs == []
    ensures s == [EOT] ==> |Drain(LineDecode, s).msgs| == 1 && Drain(LineDecode, s).rest == []
    ensures !Drain(LineDecode, s).closed
  {
    if s == [EOT] {
      assert LineDecode(s) == Frame(1, Bytes([EOT]));
      assert s[1..] == [] && LineDecode([]) == Partial;
      assert Drain(LineDecode, []).msgs == [];
    } else {
      assert FirstIndex(s, LF) == |s|;
      assert LineDecode(s) == Partial;
    }
  }

  /** Line decoding is independent of how a stream is cut into reads if and only
      if no line starts with 0x04 before the stream's last byte. */
  lemma LineChunkingIndependentIff(s: seq<byte>)
    ensures EotSafe(s) <==>
            forall chunks | Concat(chunks) == s ::
              Same(Feed(LineDecode, [], chunks), Drain(LineDecode, s))
  {
    if EotSafe(s) {
      LineIsStable();
      forall chunks | Concat(chunks) == s
        ensures Same(Feed(LineDecode, [], chunks), Drain(LineDecode, s))
      {
        ChunkingIndependent(LineDecode, EotSafe, chunks);
      }
    } else {
      var k := EotTears(s);
      var cut := [s[..k], s[k..]];
      assert cut[1..] == [s[k..]] && cut[1..][1..] == [];
      assert Concat(cut[1..]) == s[k..] + [] == s[k..];
      assert Concat(cut) == s;
      assert !Same(Feed(LineDecode, [], cut), Drain(LineDecode, s));
    }
  }

  // -------------------------------------------------------------- round trips

  function Encode32(v: int): (s: seq<byte>)
    requires 0 <= v < TWO_32
    ensures |s| == 4 && BigEndian32(s) == v
  {
    var x := v / 0x100;
    var y := x / 0x100;
    [(y / 0x100) as byte, (y % 0x100) as byte, (x % 0x100) as byte, (v % 0x100) as byte]
  }

  function Parts(c: Codec, msg: seq<byte>): seq<seq<byte>> {
    if c.Line? then [msg, [CR, LF]]
    else [MAGIC, Encode32(|msg| % TWO_32), msg]
  }

  function Encoded(c: Codec, msg: seq<byte>): seq<byte> {
    Concat(Parts(c, msg))
  }

  lemma EncodedIs(c: Codec, msg: seq<byte>)
    ensures c.Line? ==> Encoded(c, msg) == msg + [CR, LF]
    ensures c.Length? ==> Encoded(c, msg) == MAGIC + Encode32(|msg| % TWO_32) + msg
  {
    if c.Line? {
      assert [msg, [CR, LF]][1..] == [[CR, LF]] && [[CR, LF]][1..] == [];
      assert Concat([[CR, LF]]) == [CR, LF] + [];
    } else {
      var n := Encode32(|msg| % TWO_32);
      assert [MAGIC, n, msg][1..] == [n, msg] && [n, msg][1..] == [msg] && [msg][1..] == [];
      assert Concat([msg]) == msg + [];
      assert Concat([n, msg]) == n + msg;
      assert Concat(Parts(c, msg)) == MAGIC + Concat([n, msg]);
      assert MAGIC + (n + msg) == MAGIC + n + msg;
    }
  }

  method EncodeInto(c: Codec, msg: seq<byte>, buf: Buffer)
    requires buf.Valid()
    modifies buf, buf.buf
    ensures buf.Valid() && (buf.buf == old(buf.buf) || fresh(buf.buf))
    ensures buf.Contents() == old(buf.Contents()) + Encoded(c, msg)
  {
    var parts := Parts(c, msg);
    buf.AppendAll(parts);
  }

  /** What survives the trip: any payload up to 1 MiB, any line without LF. */
  predicate Sendable(c: Codec, msg: seq<byte>) {
    if c.Line? then LF !in msg else |msg| <= MAX_PAYLOAD
  }

  lemma LineRoundTripIff(msg: seq<byte>, rest: seq<byte>)
    ensures LF !in msg <==> LineDecode(msg + [CR, LF] + rest) == Frame(|msg| + 2, Bytes(msg))
  {
    var n := |msg|;
    var s := msg + [CR, LF] + rest;
    assert s[..n] == msg && s[..n + 1] == msg + [CR];
    if LF !in msg {
      FirstIndexIs(s, LF, n + 1);
    } else {
      var j :| 0 <= j < n && msg[j] == LF;
      assert s[j] == LF;
    }
  }

  lemma LengthRoundTripIff(msg: seq<byte>, rest: seq<byte>)
    requires |msg| < TWO_31
    ensures |msg| <= MAX_PAYLOAD <==>
            LengthDecode(MAGIC + Encode32(|msg|) + msg + rest) == Frame(|msg| + 8, Bytes(msg))
  {
    var s := MAGIC + Encode32(|msg|) + msg + rest;
    assert s[..4] == MAGIC && s[4..8] == Encode32(|msg|);
    assert s[8..|msg| + 8] == msg;
  }

  /** A line may end in a line feed alone; a carriage return before it is no part of the
      line. */
  lemma BareLineFeed(msg: seq<byte>, rest: seq<byte>)
    requires LF !in msg
    ensures LineDecode(msg + [LF] + rest)
         == Frame(|msg| + 1, Bytes(if msg != [] && msg[|msg| - 1] == 13 then msg[..|msg| - 1] else msg))
  {
    var s, i := msg + [LF] + rest, |msg|;
    assert s[i] == LF && s[..i] == msg;
    FirstIndexIs(s, LF, i);
    if msg != [] {
      assert s[i - 1] == msg[i - 1] && s[..i - 1] == msg[..i - 1];
    }
  }

  /** Every buffer's verdict, by the unsigned number in its length field: fewer than eight
      bytes wait; a wrong magic, a length from 1 MiB + 1 up to where adding the header
      wraps to a positive number, is refused; an honest length waits for its payload. */
  lemma LengthDecodeIs(s: seq<byte>)
    ensures |s| < 8 ==> LengthDecode(s) == Partial
    ensures |s| >= 8 ==>
              var raw := BigEndian32(s[4..8]);
              && (LengthDecode(s) == Bad <==> s[..4] != [109, 66, 100, 84] || 1048576 < raw < 4294967288)
              && (s[..4] == [109, 66, 100, 84] && raw <= 1048576 ==>
                    LengthDecode(s) == if |s| < raw + 8 then Partial else Frame(raw + 8, Bytes(s[8..raw + 8])))
              && (s[..4] == [109, 66, 100, 84] && raw == 4294967288 ==> LengthDecode(s) == Partial)
  {
  }

  /** The bytes on the wire: magic, length in network byte order, payload. */
  lemma WireFormat(msg: seq<byte>)
    requires |msg| < TWO_32
    ensures var e := Encoded(Length, msg);
            && |e| == |msg| + 8 && e[..4] == [109, 66, 100, 84] && e[8..] == msg
            && e[4] as int * 16777216 + e[5] as int * 65536 + e[6] as int * 256 + e[7] as int == |msg|
    ensures Encoded(Line, msg) == msg + [13, 10]
  {
    EncodedIs(Length, msg);
    EncodedIs(Line, msg);
    var e, n := Encoded(Length, msg), Encode32(|msg| % TWO_32);
    assert e == MAGIC + n + msg;
    assert e[4] == n[0] && e[5] == n[1] && e[6] == n[2] && e[7] == n[3];
    assert e[8..] == msg;
  }

  /** An encoded message comes back whole from the front of any stream exactly when
      it is sendable; sizes from 2 GiB on would not fit the length field. */
  lemma {:induction false} RoundTripIff(c: Codec, msg: seq<byte>, rest: seq<byte>)
    requires c.Length? ==> |msg| < TWO_31
    ensures Sendable(c, msg) <==>
            DecoderOf(c)(Encoded(c, msg) + rest) == Frame(|Encoded(c, msg)|, Bytes(msg))
  {
    EncodedIs(c, msg);
    if c.Line? {
      LineRoundTripIff(msg, rest);
      assert Encoded(c, msg) + rest == msg + [CR, LF] + rest;
    } else {
      LengthRoundTripIff(msg, rest);
      assert Encoded(c, msg) + rest == MAGIC + Encode32(|msg|) + msg + rest;
    }
  }

  function EncodedAll(c: Codec, msgs: seq<seq<byte>>): seq<byte> {
    if msgs == [] then [] else Encoded(c, msgs[0]) + EncodedAll(c, msgs[1..])
  }

  function AsMessages(msgs: seq<seq<byte>>): seq<Message> {
    if msgs == [] then [] else [Bytes(msgs[0])] + AsMessages(msgs[1..])
  }

  lemma {:induction false} DrainFirst(c: Codec, msg: seq<byte>, rest: seq<byte>)
    requires Sendable(c, msg)
    ensures Drain(DecoderOf(c), Encoded(c, msg) + rest)
            == Then(Outcome([Bytes(msg)], [], false), Drain(DecoderOf(c), rest))
  {
    RoundTripIff(c, msg, rest);
    var e := Encoded(c, msg);
    assert (e + rest)[|e|..] == rest;
    DrainFrame(DecoderOf(c), e + rest);
  }

  lemma {:induction false} DrainAll(c: Codec, msgs: seq<seq<byte>>)
    requires forall m | m in msgs :: Sendable(c, m)
    ensures Drain(DecoderOf(c), EncodedAll(c, msgs)) == Outcome(AsMessages(msgs), [], false)
    decreases |msgs|
  {
    if msgs == [] {
      assert DecoderOf(c)([]) == Partial;
    } else {
      DrainAll(c, msgs[1..]);
      DrainFirst(c, msgs[0], EncodedAll(c, msgs[1..]));
    }
  }

  lemma {:induction false} EncodedLinesAreSafe(msgs: seq<seq<byte>>)
    requires forall m | m in msgs :: LF !in m && (m != [] ==> m[0] != EOT)
    ensures EotSafe(EncodedAll(Line, msgs))
    decreases |msgs|
  {
    if msgs != [] {
      var m, rest := msgs[0], EncodedAll(Line, msgs[1..]);
      EncodedIs(Line, m);
      var s := m + [CR, LF] + rest;
      assert s[..|m| + 1] == m + [CR];
      FirstIndexIs(s, LF, |m| + 1);
      assert s[|m| + 2..] == rest;
      EncodedLinesAreSafe(msgs[1..]);
    }
  }

  lemma {:induction false} DrainAllThen(c: Codec, msgs: seq<seq<byte>>, rest: seq<byte>)
    requires forall m | m in msgs :: Sendable(c, m)
    ensures Drain(DecoderOf(c), EncodedAll(c, msgs) + rest)
         == Then(Outcome(AsMessages(msgs), [], false), Drain(DecoderOf(c), rest))
    decreases |msgs|
  {
    if msgs == [] {
      assert EncodedAll(c, msgs) + rest == rest;
      var o := Drain(DecoderOf(c), rest);
      assert [] + o.msgs == o.msgs;
    } else {
      assert msgs[0] in msgs && forall m | m in msgs[1..] :: m in msgs;
      var behind := EncodedAll(c, msgs[1..]) + rest;
      assert EncodedAll(c, msgs) + rest == Encoded(c, msgs[0]) + behind;
      DrainFirst(c, msgs[0], behind);
      DrainAllThen(c, msgs[1..], rest);
      MessagesThen(Bytes(msgs[0]), AsMessages(msgs[1..]), Drain(DecoderOf(c), rest));
    }
  }

  lemma MessagesThen(m: Message, ms: seq<Message>, o: Outcome)
    ensures Then(Outcome([m], [], false), Then(Outcome(ms, [], false), o)) == Then(Outcome([m] + ms, [], false), o)
  {
    assert [m] + (ms + o.msgs) == [m] + ms + o.msgs;
  }

  /** Eight bytes that do not start with the magic close the connection, after exactly the
      messages in front of them and for good: what follows delivers nothing. */
  lemma {:induction false} GarbageCloses(msgs: seq<seq<byte>>, junk: seq<byte>, chunks: seq<seq<byte>>)
    requires (forall m | m in msgs :: Sendable(Length, m)) && |junk| >= 8 && junk[..4] != [109, 66, 100, 84]
    requires Concat(chunks) == EncodedAll(Length, msgs) + junk
    ensures Feed(LengthDecode, [], chunks).closed && Feed(LengthDecode, [], chunks).msgs == AsMessages(msgs)
  {
    LengthDecodeIs(junk);
    DrainAllThen(Length, msgs, junk);
    LengthChunkingIndependent(chunks);
    assert AsMessages(msgs) + [] == AsMessages(msgs);
  }

  /** Any list of sendable messages, encoded back to back and cut into reads in any
      way, is delivered exactly, in order, with nothing left over. */
  lemma {:induction false} DeliveredExactly(c: Codec, msgs: seq<seq<byte>>, chunks: seq<seq<byte>>)
    requires forall m | m in msgs :: Sendable(c, m)
    requires c.Line? ==> forall m | m in msgs :: m != [] ==> m[0] != EOT
    requires Concat(chunks) == EncodedAll(c, msgs)
    ensures Feed(DecoderOf(c), [], chunks) == Outcome(AsMessages(msgs), [], false)
  {
    DrainAll(c, msgs);
    if c.Line? {
      EncodedLinesAreSafe(msgs);
      LineChunkingIndependentIff(Concat(chunks));
    } else {
      LengthChunkingIndependent(chunks);
    }
  }
}
