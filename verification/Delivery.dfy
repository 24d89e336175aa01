/** From `sendMsg` on one side to the message callback on the other: the output
    path, the wire and the framing put together. */
module Delivery {
  import opened Buffers
  import opened Framing
  import opened Conn

  predicate Says(c: Codec, op: Conn.Op, msg: seq<byte>) {
    op.SendOutput? && op.extra == Encoded(c, msg)
  }

  predicate SaysAll(c: Codec, ops: seq<Conn.Op>, msgs: seq<seq<byte>>)
    decreases |ops|
  {
    if ops == [] then msgs == []
    else msgs != [] && Says(c, ops[0], msgs[0]) && SaysAll(c, ops[1..], msgs[1..])
  }

  /** How many messages an event sends. */
  function Count(s: Out, ev: Event): nat {
    match ev
    case Send(_) => 1
    case Writable(replies, cb) => if CallbackRuns(s, replies) then |cb| else 0
  }

  predicate SaysNow(c: Codec, s: Out, ev: Event, msgs: seq<seq<byte>>) {
    match ev
    case Send(op) => |msgs| == 1 && Says(c, op, msgs[0])
    case Writable(replies, cb) => if CallbackRuns(s, replies) then SaysAll(c, cb, msgs) else msgs == []
  }

  /** A run of `sendMsg` calls for exactly these messages, some of them made by writable
      callbacks, mixed with any number of writable events. */
  predicate Carries(c: Codec, s: Out, evs: seq<Event>, msgs: seq<seq<byte>>)
    decreases |evs|
  {
    if evs == [] then msgs == [] else
      var k := Count(s, evs[0]);
      k <= |msgs| && SaysNow(c, s, evs[0], msgs[..k]) && Carries(c, Step(s, evs[0]), evs[1..], msgs[k..])
  }

  lemma Assoc(x: seq<byte>, y: seq<byte>, z: seq<byte>)
    ensures x + y + z == x + (y + z)
  {
  }

  lemma {:induction false} EncodedConcat(c: Codec, xs: seq<seq<byte>>, ys: seq<seq<byte>>)
    ensures EncodedAll(c, xs + ys) == EncodedAll(c, xs) + EncodedAll(c, ys)
    decreases |xs|
  {
    if xs == [] {
      assert xs + ys == ys;
    } else {
      assert (xs + ys)[1..] == xs[1..] + ys && (xs + ys)[0] == xs[0];
      EncodedConcat(c, xs[1..], ys);
      Assoc(Encoded(c, xs[0]), EncodedAll(c, xs[1..]), EncodedAll(c, ys));
    }
  }

  lemma SendSubmits(s: Out, op: Conn.Op)
    requires s.Sound() && op.SendOutput?
    ensures After(s, op).Sound() && After(s, op).submitted == s.submitted + op.extra && !Derails(s, op)
  {
    SendIsSoundIff(s, op);
  }

  lemma {:induction false} SendsSubmit(c: Codec, s: Out, ops: seq<Conn.Op>, msgs: seq<seq<byte>>)
    requires s.Sound() && SaysAll(c, ops, msgs)
    ensures NoneDerails(s, ops) && AfterAll(s, ops).Sound()
    ensures AfterAll(s, ops).submitted == s.submitted + EncodedAll(c, msgs)
    decreases |ops|
  {
    if ops == [] {
      assert s.submitted + [] == s.submitted;
    } else {
      SendSubmits(s, ops[0]);
      SendsSubmit(c, After(s, ops[0]), ops[1..], msgs[1..]);
      Assoc(s.submitted, Encoded(c, msgs[0]), EncodedAll(c, msgs[1..]));
    }
  }

  lemma WritableSubmits(c: Codec, s: Out, replies: seq<WriteReply>, cb: seq<Conn.Op>, msgs: seq<seq<byte>>)
    requires s.Sound() && (if CallbackRuns(s, replies) then SaysAll(c, cb, msgs) else msgs == [])
    ensures AfterHandleWrite(s, replies, cb).Sound()
    ensures AfterHandleWrite(s, replies, cb).submitted == s.submitted + EncodedAll(c, msgs)
  {
    if CallbackRuns(s, replies) {
      var k := |s.queue|;
      assert s.queue[..k] == s.queue && s.queue[k..] == [];
      SendsSubmit(c, Flushed(s), cb, msgs);
    } else {
      assert s.submitted + [] == s.submitted;
    }
    HandleWriteIsSound(s, replies, cb);
  }

  lemma StepSubmits(c: Codec, s: Out, ev: Event, msgs: seq<seq<byte>>)
    requires s.Sound() && SaysNow(c, s, ev, msgs)
    ensures Step(s, ev).Sound() && Step(s, ev).submitted == s.submitted + EncodedAll(c, msgs)
  {
    match ev
    case Send(op) =>
      SendSubmits(s, op);
      assert msgs[1..] == [];
      assert EncodedAll(c, msgs) == Encoded(c, msgs[0]) + [];
    case Writable(replies, cb) => WritableSubmits(c, s, replies, cb, msgs);
  }

  /** What a run submits is the encoding of the messages it carries. */
  lemma {:induction false} CarriedBytes(c: Codec, s: Out, evs: seq<Event>, msgs: seq<seq<byte>>)
    requires s.Sound() && Carries(c, s, evs, msgs)
    ensures RunAll(s, evs).Sound()
    ensures RunAll(s, evs).submitted == s.submitted + EncodedAll(c, msgs)
    decreases |evs|
  {
    if evs == [] {
      assert s.submitted + [] == s.submitted;
    } else {
      var k := Count(s, evs[0]);
      var now, later := msgs[..k], msgs[k..];
      assert now + later == msgs;
      StepSubmits(c, s, evs[0], now);
      CarriedBytes(c, Step(s, evs[0]), evs[1..], later);
      EncodedConcat(c, now, later);
      Assoc(s.submitted, EncodedAll(c, now), EncodedAll(c, later));
    }
  }

  lemma LineOfPrefix(w: seq<byte>, t: seq<byte>, i: nat)
    requires i == FirstIndex(w, LF) < |w|
    ensures FirstIndex(w + t, LF) == i && (w + t)[i + 1..] == w[i + 1..] + t
  {
    assert (w + t)[..i] == w[..i] && (w + t)[i] == w[i];
    FirstIndexIs(w + t, LF, i);
  }

  lemma {:induction false} PrefixIsEotSafe(w: seq<byte>, t: seq<byte>)
    requires EotSafe(w + t)
    ensures EotSafe(w)
    decreases |w|
  {
    if |w| > 1 {
      assert (w + t)[0] == w[0];
      var i := FirstIndex(w, LF);
      if i < |w| {
        LineOfPrefix(w, t, i);
        PrefixIsEotSafe(w[i + 1..], t);
      }
    }
  }

  predicate Clean(c: Codec, msgs: seq<seq<byte>>) {
    && (forall m | m in msgs :: Sendable(c, m))
    && (c.Line? ==> forall m | m in msgs :: m != [] ==> m[0] != EOT)
  }

  /** Whatever part of an encoded stream has arrived, cut up in any way, has been
      delivered as a prefix of the messages. */
  lemma {:induction false} PrefixDelivers(c: Codec, msgs: seq<seq<byte>>, w: seq<byte>, t: seq<byte>, chunks: seq<seq<byte>>)
    requires Clean(c, msgs) && w + t == EncodedAll(c, msgs) && Concat(chunks) == w
    ensures !Feed(DecoderOf(c), [], chunks).closed
    ensures Feed(DecoderOf(c), [], chunks).msgs <= AsMessages(msgs)
  {
    DrainAll(c, msgs);
    var d := DecoderOf(c);
    if c.Line? {
      EncodedLinesAreSafe(msgs);
      PrefixIsEotSafe(w, t);
      LineIsStable();
      DrainSplits(LineDecode, EotSafe, w, t);
      ChunkingIndependent(LineDecode, EotSafe, chunks);
    } else {
      LengthIsStable();
      DrainSplits(LengthDecode, AnyStream, w, t);
      ChunkingIndependent(LengthDecode, AnyStream, chunks);
    }
  }

  /** What was written and what is queued is the encoded stream. */
  lemma AllIsSomewhere(c: Codec, msgs: seq<seq<byte>>, evs: seq<Event>)
    requires Carries(c, FRESH, evs, msgs)
    ensures RunAll(FRESH, evs).wire + RunAll(FRESH, evs).queue == EncodedAll(c, msgs)
  {
    CarriedBytes(c, FRESH, evs, msgs);
    assert [] + EncodedAll(c, msgs) == EncodedAll(c, msgs);
  }

  /** At every moment of every run of message sends, made by callers or by writable
      callbacks, with any partial writes on the sending side, bytes in flight and any
      read sizes on the receiving side, the peer has been handed a prefix of the
      messages sent, in order; once the output queue is empty and everything has
      arrived it has been handed all of them. */
  lemma {:induction false} EndToEnd(c: Codec, msgs: seq<seq<byte>>, evs: seq<Event>, chunks: seq<seq<byte>>)
    requires Clean(c, msgs) && Carries(c, FRESH, evs, msgs)
    requires Concat(chunks) <= RunAll(FRESH, evs).wire
    ensures !Feed(DecoderOf(c), [], chunks).closed
    ensures Feed(DecoderOf(c), [], chunks).msgs <= AsMessages(msgs)
    ensures RunAll(FRESH, evs).queue == [] && Concat(chunks) == RunAll(FRESH, evs).wire ==>
              Feed(DecoderOf(c), [], chunks) == Outcome(AsMessages(msgs), [], false)
  {
    AllIsSomewhere(c, msgs, evs);
    Arrived(c, msgs, RunAll(FRESH, evs).wire, RunAll(FRESH, evs).queue, chunks);
  }

  lemma {:induction false} Arrived(c: Codec, msgs: seq<seq<byte>>, wire: seq<byte>, queue: seq<byte>, chunks: seq<seq<byte>>)
    requires Clean(c, msgs) && wire + queue == EncodedAll(c, msgs) && Concat(chunks) <= wire
    ensures !Feed(DecoderOf(c), [], chunks).closed
    ensures Feed(DecoderOf(c), [], chunks).msgs <= AsMessages(msgs)
    ensures queue == [] && Concat(chunks) == wire ==>
              Feed(DecoderOf(c), [], chunks) == Outcome(AsMessages(msgs), [], false)
  {
    var got := Concat(chunks);
    assert got + (wire + queue)[|got|..] == wire + queue;
    PrefixDelivers(c, msgs, got, (wire + queue)[|got|..], chunks);
    if queue == [] && got == wire {
      assert wire + queue == wire;
      DeliveredExactly(c, msgs, chunks);
    }
  }
}
