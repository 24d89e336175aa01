/** The data paths of TcpConn (src/common/handy/conn.cc): partial writes, the
    three ways to send, the writable event, the read loop and the decode loop. */
module Conn {
  import opened Buffers
  import opened Ints
  import opened Framing

  // ------------------------------------------------------- the socket's answers

  /** One answer of `write`. A count of zero is not progress and takes the error
      branch; a count beyond what was offered means all of it. */
  datatype WriteReply = Wrote(n: nat) | WriteInterrupted | WriteWouldBlock | WriteFailed

  datatype Sent = Sent(count: nat, blocked: bool, failed: bool)

  /** `isend`: how much of `len` bytes the socket takes and why it stopped. After
      the listed answers the socket would block. */
  function Isend(len: nat, replies: seq<WriteReply>): (r: Sent)
    ensures r.count <= len
    ensures r.count == len <==> !r.blocked && !r.failed
    ensures !(r.blocked && r.failed)
    decreases |replies|
  {
    if len == 0 then Sent(0, false, false)
    else if replies == [] then Sent(0, true, false)
    else match replies[0]
      case Wrote(n) =>
        if n == 0 then Sent(0, false, true) else
          var k := if n < len then n else len;
          var r := Isend(len - k, replies[1..]);
          r.(count := r.count + k)
      case WriteInterrupted => Isend(len, replies[1..])
      case WriteWouldBlock => Sent(0, true, false)
      case WriteFailed => Sent(0, false, true)
  }

  // ------------------------------------------------------------- output states

  function Least(x: nat, y: nat): nat { if x < y then x else y }

  /** How many bytes these answers take before one of them ends the loop, and whether
      that is a hard error. */
  function Takes(replies: seq<WriteReply>): nat {
    if replies == [] then 0
    else match replies[0]
      case Wrote(n) => if n == 0 then 0 else n + Takes(replies[1..])
      case WriteInterrupted => Takes(replies[1..])
      case _ => 0
  }

  predicate EndsHard(replies: seq<WriteReply>) {
    replies != [] && match replies[0]
      case Wrote(n) => n == 0 || EndsHard(replies[1..])
      case WriteInterrupted => EndsHard(replies[1..])
      case WriteWouldBlock => false
      case WriteFailed => true
  }

  /** No answer is an error; a zero count from `write` is taken for one. */
  predicate Soft(replies: seq<WriteReply>) {
    forall r | r in replies :: r != WriteFailed && r != Wrote(0)
  }

  /** The write loop takes what the answers allow; if that is not everything, it stops
      for what ended it. Interrupts never end it. */
  lemma {:induction false} IsendIs(len: nat, replies: seq<WriteReply>)
    ensures var r := Isend(len, replies);
            && r.count == Least(len, Takes(replies))
            && (r.failed <==> Takes(replies) < len && EndsHard(replies))
            && (r.blocked <==> Takes(replies) < len && !EndsHard(replies))
    decreases |replies|
  {
    if replies != [] && len > 0 {
      match replies[0]
      case Wrote(n) => if n > 0 { IsendIs(len - Least(n, len), replies[1..]); }
      case WriteInterrupted => IsendIs(len, replies[1..]);
      case _ =>
    }
  }

  lemma {:induction false} SoftNeverEndsHard(replies: seq<WriteReply>)
    requires Soft(replies)
    ensures !EndsHard(replies)
    decreases |replies|
  {
    if replies != [] {
      assert replies[0] in replies && forall r | r in replies[1..] :: r in replies;
      SoftNeverEndsHard(replies[1..]);
    }
  }

  /** Without errors the loop takes as much as the socket does before it would block. */
  lemma SoftIsend(len: nat, replies: seq<WriteReply>)
    requires Soft(replies)
    ensures var r := Isend(len, replies);
            !r.failed && r.count == Least(len, Takes(replies)) && (r.blocked <==> Takes(replies) < len)
  {
    IsendIs(len, replies);
    SoftNeverEndsHard(replies);
  }

  /** Bytes the socket took, bytes still queued, write interest, and the ghost of
      everything submitted so far in submission order. */
  datatype Out = Out(wire: seq<byte>, queue: seq<byte>, armed: bool, submitted: seq<byte>) {
    /** One FIFO byte stream, with the socket watched while anything is queued. */
    predicate Sound() {
      submitted == wire + queue && (queue != [] ==> armed)
    }
  }

  datatype Op =
    | SendBuffer(data: seq<byte>, replies: seq<WriteReply>)
    | SendBytes(data: seq<byte>, replies: seq<WriteReply>)
    | SendOutput(extra: seq<byte>, replies: seq<WriteReply>)

  function AfterSendBuffer(s: Out, data: seq<byte>, replies: seq<WriteReply>): Out {
    var t := s.(submitted := s.submitted + data);
    if s.armed then t.(queue := s.queue + data) else
      var r := Isend(|data|, replies);
      t.(wire := s.wire + data[..r.count], queue := s.queue + data[r.count..], armed := r.count < |data|)
  }

  /** `send(output_)`: the argument is the output buffer itself. */
  function AfterSendQueue(s: Out, replies: seq<WriteReply>): Out {
    var r := Isend(|s.queue|, replies);
    s.(wire := s.wire + s.queue[..r.count], queue := s.queue[r.count..],
       armed := s.armed || r.count < |s.queue|)
  }

  function AfterSendOutput(s: Out, extra: seq<byte>, replies: seq<WriteReply>): Out {
    AfterSendQueue(s.(queue := s.queue + extra, submitted := s.submitted + extra), replies)
  }

  function AfterSendBytes(s: Out, data: seq<byte>, replies: seq<WriteReply>): Out {
    var t := s.(submitted := s.submitted + data);
    if s.queue != [] then t.(queue := s.queue + data) else
      var r := Isend(|data|, replies);
      t.(wire := s.wire + data[..r.count], queue := data[r.count..], armed := s.armed || r.blocked)
  }

  function After(s: Out, op: Op): Out {
    match op
    case SendBuffer(data, replies) => AfterSendBuffer(s, data, replies)
    case SendBytes(data, replies) => AfterSendBytes(s, data, replies)
    case SendOutput(extra, replies) => AfterSendOutput(s, extra, replies)
  }

  function AfterAll(s: Out, ops: seq<Op>): Out
    decreases |ops|
  {
    if ops == [] then s else AfterAll(After(s, ops[0]), ops[1..])
  }

  /** `handleWrite` when connected; `cb` is what the writable callback sends. */
  function AfterHandleWrite(s: Out, replies: seq<WriteReply>, cb: seq<Op>): Out {
    var r := Isend(|s.queue|, replies);
    var t := s.(wire := s.wire + s.queue[..r.count], queue := s.queue[r.count..],
                armed := s.armed || r.blocked);
    var u := if t.queue == [] then AfterAll(t, cb) else t;
    if u.queue == [] then u.(armed := false) else u
  }

  /** Entering Connected switches write interest off whatever is queued. */
  function AfterConnected(s: Out): Out { s.(armed := false) }

  /** The one way to lose the schedule: a raw send straight to an unwatched socket
      that meets a hard write error. */
  predicate Derails(s: Out, op: Op) {
    op.SendBytes? && s.queue == [] && !s.armed && Isend(|op.data|, op.replies).failed
  }

  // ---------------------------------------------------------------- invariants

  lemma SplitJoin(a: seq<byte>, b: seq<byte>, c: seq<byte>, k: nat)
    requires k <= |b|
    ensures (a + b[..k]) + (b[k..] + c) == a + (b + c)
    ensures (a + b[..k]) + b[k..] == a + b
  {
    assert b[..k] + b[k..] == b;
  }

  /** From a sound state every send keeps all bytes in order, and the schedule is
      lost exactly when the send derails. */
  lemma SendIsSoundIff(s: Out, op: Op)
    requires s.Sound()
    ensures After(s, op).submitted == After(s, op).wire + After(s, op).queue
    ensures After(s, op).Sound() <==> !Derails(s, op)
  {
    match op
    case SendBuffer(data, replies) =>
      if s.armed {
        assert s.wire + s.queue + data == s.wire + (s.queue + data);
      } else {
        var k := Isend(|data|, replies).count;
        SplitJoin(s.wire, data, [], k);
        assert s.queue + data[k..] == data[k..];
      }
    case SendBytes(data, replies) =>
      if s.queue == [] {
        SplitJoin(s.wire, data, [], Isend(|data|, replies).count);
      } else {
        assert s.wire + s.queue + data == s.wire + (s.queue + data);
      }
    case SendOutput(extra, replies) =>
      var q := s.queue + extra;
      SplitJoin(s.wire, q, [], Isend(|q|, replies).count);
      assert s.wire + s.queue + extra == s.wire + q;
  }

  predicate NoneDerails(s: Out, ops: seq<Op>)
    decreases |ops|
  {
    ops != [] ==> !Derails(s, ops[0]) && NoneDerails(After(s, ops[0]), ops[1..])
  }

  lemma {:induction false} SendsAreSound(s: Out, ops: seq<Op>)
    requires s.Sound() && NoneDerails(s, ops)
    ensures AfterAll(s, ops).Sound()
    decreases |ops|
  {
    if ops != [] {
      SendIsSoundIff(s, ops[0]);
      SendsAreSound(After(s, ops[0]), ops[1..]);
    }
  }

  /** The state in which the writable callback runs. */
  function Flushed(s: Out): Out { s.(wire := s.wire + s.queue, queue := []) }

  /** The writable callback runs if the socket takes all that is queued. */
  predicate CallbackRuns(s: Out, replies: seq<WriteReply>) {
    Isend(|s.queue|, replies).count == |s.queue|
  }

  lemma HandleWriteIsSound(s: Out, replies: seq<WriteReply>, cb: seq<Op>)
    requires s.Sound() && (CallbackRuns(s, replies) ==> NoneDerails(Flushed(s), cb))
    ensures AfterHandleWrite(s, replies, cb).Sound()
  {
    var k := Isend(|s.queue|, replies).count;
    SplitJoin(s.wire, s.queue, [], k);
    if k == |s.queue| {
      assert s.queue[..k] == s.queue && s.queue[k..] == [];
      SendsAreSound(Flushed(s), cb);
    }
  }

  datatype Event =
    | Send(op: Op)
    | Writable(replies: seq<WriteReply>, cb: seq<Op>)

  function Step(s: Out, ev: Event): Out {
    match ev
    case Send(op) => After(s, op)
    case Writable(replies, cb) => AfterHandleWrite(s, replies, cb)
  }

  function RunAll(s: Out, evs: seq<Event>): Out
    decreases |evs|
  {
    if evs == [] then s else RunAll(Step(s, evs[0]), evs[1..])
  }

  /** No send of the run derails, neither by itself nor in a writable callback. */
  predicate OnTrack(s: Out, evs: seq<Event>)
    decreases |evs|
  {
    evs != [] ==>
      && (match evs[0]
          case Send(op) => !Derails(s, op)
          case Writable(replies, cb) => CallbackRuns(s, replies) ==> NoneDerails(Flushed(s), cb))
      && OnTrack(Step(s, evs[0]), evs[1..])
  }

  const FRESH := Out([], [], false, [])

  lemma {:induction false} RunIsSound(s: Out, evs: seq<Event>)
    requires s.Sound() && OnTrack(s, evs)
    ensures RunAll(s, evs).Sound()
    decreases |evs|
  {
    if evs != [] {
      if evs[0].Send? {
        SendIsSoundIff(s, evs[0].op);
      } else {
        HandleWriteIsSound(s, evs[0].replies, evs[0].cb);
      }
      RunIsSound(Step(s, evs[0]), evs[1..]);
    }
  }

  /** Over every run of the three sends and the writable event, with any partial
      writes, interrupts and would-blocks, what the socket took followed by what is
      queued is what was submitted, and a non-empty queue is always watched. Hard
      errors are harmless too, except the one `Derails` names. */
  lemma OutputIsOneStream(evs: seq<Event>)
    requires OnTrack(FRESH, evs)
    ensures var s := RunAll(FRESH, evs);
            s.submitted == s.wire + s.queue && (s.queue != [] ==> s.armed)
  {
    RunIsSound(FRESH, evs);
  }

  /** What each send writes at once: a buffer unless the socket is watched already, raw
      bytes unless something is queued, and the output buffer always; as much as the
      socket takes. What is not written is queued behind the rest. */
  lemma SendWrites(s: Out, op: Op)
    requires s.Sound()
    ensures var r, k := After(s, op), Takes(op.replies);
            match op
            case SendBuffer(data, _) =>
              if s.armed then r.wire == s.wire && r.queue == s.queue + data
              else r.wire == s.wire + data[..Least(|data|, k)] && r.queue == data[Least(|data|, k)..]
            case SendBytes(data, _) =>
              if s.queue != [] then r.wire == s.wire && r.queue == s.queue + data
              else r.wire == s.wire + data[..Least(|data|, k)] && r.queue == data[Least(|data|, k)..]
            case SendOutput(extra, _) =>
              var all := s.queue + extra;
              r.wire == s.wire + all[..Least(|all|, k)] && r.queue == all[Least(|all|, k)..]
  {
    match op
    case SendBuffer(data, replies) =>
      IsendIs(|data|, replies);
      var rest := data[Least(|data|, Takes(replies))..];
      assert [] + rest == rest;
    case SendBytes(data, replies) => IsendIs(|data|, replies);
    case SendOutput(extra, replies) => IsendIs(|s.queue + extra|, replies);
  }

  predicate SoftOp(op: Op) { Soft(op.replies) }

  /** The socket reports no hard error during the run. */
  predicate SoftRun(evs: seq<Event>) {
    forall ev | ev in evs ::
      match ev
      case Send(op) => SoftOp(op)
      case Writable(replies, cb) => Soft(replies) && forall op | op in cb :: SoftOp(op)
  }

  lemma {:induction false} SoftSendsStayOnTrack(s: Out, ops: seq<Op>)
    requires forall op | op in ops :: SoftOp(op)
    ensures NoneDerails(s, ops)
    decreases |ops|
  {
    if ops != [] {
      assert ops[0] in ops && forall op | op in ops[1..] :: op in ops;
      if ops[0].SendBytes? {
        SoftIsend(|ops[0].data|, ops[0].replies);
      }
      SoftSendsStayOnTrack(After(s, ops[0]), ops[1..]);
    }
  }

  lemma {:induction false} SoftRunsStayOnTrack(s: Out, evs: seq<Event>)
    requires SoftRun(evs)
    ensures OnTrack(s, evs)
    decreases |evs|
  {
    if evs != [] {
      assert evs[0] in evs && forall ev | ev in evs[1..] :: ev in evs;
      match evs[0] {
        case Send(op) => SoftSendsStayOnTrack(s, [op]);
        case Writable(replies, cb) => SoftSendsStayOnTrack(Flushed(s), cb);
      }
      SoftRunsStayOnTrack(Step(s, evs[0]), evs[1..]);
    }
  }

  /** Whatever partial writes, interrupts and would-blocks the socket answers with, as
      long as it reports no hard error the output is one watched FIFO stream at every
      moment, callbacks included. */
  lemma SoftRunsAreOneStream(evs: seq<Event>)
    requires SoftRun(evs)
    ensures var s := RunAll(FRESH, evs);
            s.submitted == s.wire + s.queue && (s.queue != [] ==> s.armed)
    ensures SoundThroughout(FRESH, evs)
  {
    SoftRunsStayOnTrack(FRESH, evs);
    OutputIsOneStream(evs);
    SoundThroughoutIff(FRESH, evs);
  }

  /** After a writable event the socket is watched exactly while something is queued, so
      an idle connection is not woken for nothing. */
  lemma HandleWriteWatchesIff(s: Out, replies: seq<WriteReply>, cb: seq<Op>)
    requires s.Sound() && (CallbackRuns(s, replies) ==> NoneDerails(Flushed(s), cb))
    ensures AfterHandleWrite(s, replies, cb).armed <==> AfterHandleWrite(s, replies, cb).queue != []
  {
    HandleWriteIsSound(s, replies, cb);
  }

  /** A writable event offers the queue in order, and runs the callback if and only if
      the socket took all of it. */
  lemma HandleWriteOffers(s: Out, replies: seq<WriteReply>, cb: seq<Op>)
    ensures var k := Least(|s.queue|, Takes(replies));
            var r := AfterHandleWrite(s, replies, cb);
            if k < |s.queue| then r.wire == s.wire + s.queue[..k] && r.queue == s.queue[k..] && r.submitted == s.submitted
            else r.wire == AfterAll(Flushed(s), cb).wire && r.queue == AfterAll(Flushed(s), cb).queue
  {
    IsendIs(|s.queue|, replies);
    assert s.queue[..|s.queue|] == s.queue && s.queue[|s.queue|..] == [];
  }

  predicate SoundSends(s: Out, ops: seq<Op>)
    decreases |ops|
  {
    ops != [] ==> After(s, ops[0]).Sound() && SoundSends(After(s, ops[0]), ops[1..])
  }

  /** The state is sound after every send of the run, those in callbacks included. */
  predicate SoundThroughout(s: Out, evs: seq<Event>)
    decreases |evs|
  {
    evs != [] ==>
      && (evs[0].Writable? && CallbackRuns(s, evs[0].replies) ==> SoundSends(Flushed(s), evs[0].cb))
      && Step(s, evs[0]).Sound() && SoundThroughout(Step(s, evs[0]), evs[1..])
  }

  lemma {:induction false} SoundSendsIff(s: Out, ops: seq<Op>)
    requires s.Sound()
    ensures SoundSends(s, ops) <==> NoneDerails(s, ops)
    decreases |ops|
  {
    if ops != [] {
      SendIsSoundIff(s, ops[0]);
      if !Derails(s, ops[0]) {
        SoundSendsIff(After(s, ops[0]), ops[1..]);
      }
    }
  }

  /** A run is one watched FIFO stream at every moment if and only if none of its
      sends derails. */
  lemma {:induction false} SoundThroughoutIff(s: Out, evs: seq<Event>)
    requires s.Sound()
    ensures SoundThroughout(s, evs) <==> OnTrack(s, evs)
    decreases |evs|
  {
    if evs != [] {
      match evs[0] {
        case Send(op) => SendIsSoundIff(s, op);
        case Writable(replies, cb) =>
          SoundSendsIff(Flushed(s), cb);
          if CallbackRuns(s, replies) ==> NoneDerails(Flushed(s), cb) {
            HandleWriteIsSound(s, replies, cb);
          }
      }
      if Step(s, evs[0]).Sound() {
        SoundThroughoutIff(Step(s, evs[0]), evs[1..]);
      }
    }
  }

  /** After a derailed raw send the next buffer overtakes the queued bytes. */
  lemma DerailedSendIsOvertaken()
    ensures var s := AfterAll(FRESH, [SendBytes([1], [WriteFailed]), SendBuffer([2], [Wrote(1)])]);
            s.submitted == [1, 2] && s.wire == [2] && s.queue == [1] && !s.armed
  {
    var first, second := SendBytes([1], [WriteFailed]), SendBuffer([2], [Wrote(1)]);
    var s := After(FRESH, first);
    assert s == Out([], [1], false, [1]);
    assert [first, second][1..] == [second] && [second][1..] == [];
    assert [Wrote(1)][1..] == [];
    assert Isend(1, [Wrote(1)]).count == 1;
    assert After(s, second) == Out([2], [1], false, [1, 2]);
    assert AfterAll(After(s, second), []) == After(s, second);
    assert AfterAll(s, [second]) == After(s, second);
  }

  /** Bytes queued before the connection is up survive the switch to Connected as a
      scheduled stream exactly when there are none. */
  lemma ConnectedIsSoundIff(s: Out)
    requires s.Sound()
    ensures AfterConnected(s).Sound() <==> s.queue == []
  {
  }

  /** While the handshake is on, the socket is watched for writing, so a buffer that is
      sent is queued; once Connected nothing watches it, and the next buffer goes
      past it. */
  lemma HandshakeSendIsOvertaken(early: seq<byte>, late: seq<byte>, replies: seq<WriteReply>)
    requires early != [] && late != []
    ensures var s := After(FRESH.(armed := true), SendBuffer(early, replies));
            var t := After(AfterConnected(s), SendBuffer(late, [Wrote(|late|)]));
            && s.Sound() && s.queue == early && !AfterConnected(s).Sound()
            && t.submitted == early + late && t.wire == late && t.queue == early && !t.armed
  {
    var s := After(FRESH.(armed := true), SendBuffer(early, replies));
    assert [] + early == early;
    assert [Wrote(|late|)][1..] == [];
    assert Isend(|late|, [Wrote(|late|)]).count == |late|;
    assert [] + late[..|late|] == late && early + late[|late|..] == early;
  }

  lemma DrainStep(d: Decoder, msgs: seq<Message>, data: seq<byte>)
    requires Progressive(d) && d(data).Frame?
    ensures Then(Outcome(msgs, [], false), Drain(d, data))
         == Then(Outcome(msgs + [d(data).msg], [], false), Drain(d, data[d(data).used..]))
  {
    DrainFrame(d, data);
    ThenAssoc(Outcome(msgs, [], false), Outcome([d(data).msg], [], false), Drain(d, data[d(data).used..]));
  }

  lemma DrainEnd(d: Decoder, data: seq<byte>)
    requires Progressive(d) && !d(data).Frame?
    ensures Drain(d, data) == Outcome([], data, d(data).Bad?)
  {
  }

  lemma TakeMore(s: seq<byte>, net: seq<byte>, i: nat, k: nat)
    requires i + k <= |net|
    ensures s + net[..i] + net[i..][..k] == s + net[..i + k]
  {
  }

  // ------------------------------------------------------------------ the object

  /** One answer of `read`: `Got(n)` delivers as many of the next `n` bytes as were
      asked for and have been sent. */
  datatype ReadReply = Got(n: nat) | ReadInterrupted | ReadWouldBlock | ReadEnded

  /** The peer has sent what the answers deliver, and no answer delivers nothing. */
  predicate Supplied(avail: nat, replies: seq<ReadReply>)
    decreases |replies|
  {
    replies != [] ==>
      match replies[0]
      case Got(n) => 0 < n <= avail && Supplied(avail - n, replies[1..])
      case ReadInterrupted => Supplied(avail, replies[1..])
      case _ => true
  }

  /** Whether the first answer that ends the loop is the end of the stream. */
  predicate PeerEnds(replies: seq<ReadReply>) {
    replies != [] && match replies[0]
      case Got(_) => PeerEnds(replies[1..])
      case ReadInterrupted => PeerEnds(replies[1..])
      case ReadWouldBlock => false
      case ReadEnded => true
  }

  lemma {:induction false} SuppliedMore(x: nat, y: nat, replies: seq<ReadReply>)
    requires x <= y && Supplied(x, replies)
    ensures Supplied(y, replies)
    decreases |replies|
  {
    if replies != [] && replies[0].Got? {
      SuppliedMore(x - replies[0].n, y - replies[0].n, replies[1..]);
    } else if replies != [] && replies[0].ReadInterrupted? {
      SuppliedMore(x, y, replies[1..]);
    }
  }

  /** How many answers deliver bytes before the loop stops. */
  function Deliveries(replies: seq<ReadReply>): nat {
    if replies == [] then 0
    else match replies[0]
      case Got(_) => 1 + Deliveries(replies[1..])
      case ReadInterrupted => Deliveries(replies[1..])
      case _ => 0
  }

  function ReplyAt(replies: seq<ReadReply>, i: nat): ReadReply {
    if i < |replies| then replies[i] else ReadWouldBlock
  }

  /** After `i` answers and `taken` bytes, the verdict is still that of the rest. */
  predicate OnCourse(sent: nat, replies: seq<ReadReply>, i: nat, taken: nat)
    requires i <= |replies| && taken <= sent
  {
    && Supplied(sent - taken, replies[i..])
    && PeerEnds(replies) == PeerEnds(replies[i..])
    && taken + Deliveries(replies[i..]) >= Deliveries(replies)
  }

  lemma Round(sent: nat, replies: seq<ReadReply>, i: nat, taken: nat, k: nat)
    requires i < |replies| && taken + k <= sent && OnCourse(sent, replies, i, taken)
    requires (replies[i].Got? && 0 < k <= replies[i].n) || (replies[i].ReadInterrupted? && k == 0)
    ensures OnCourse(sent, replies, i + 1, taken + k)
  {
    assert replies[i..][1..] == replies[i + 1..];
    if replies[i].Got? {
      SuppliedMore(sent - taken - replies[i].n, sent - taken - k, replies[i + 1..]);
    }
  }

  lemma LastRound(sent: nat, replies: seq<ReadReply>, i: nat, taken: nat, alive: bool)
    requires i <= |replies| && taken <= sent && OnCourse(sent, replies, i, taken)
    requires !ReplyAt(replies, i).Got? && !ReplyAt(replies, i).ReadInterrupted? && alive == !ReplyAt(replies, i).ReadEnded?
    ensures taken >= Deliveries(replies) && alive == !PeerEnds(replies)
  {
  }

  class TcpConn {
    const input: Buffer
    const output: Buffer
    var armed: bool
    ghost var wire: seq<byte>
    ghost var submitted: seq<byte>

    ghost predicate Valid()
      reads this, output, output.buf
    {
      output.Valid()
    }

    ghost function View(): Out
      requires Valid()
      reads this, output, output.buf
    {
      Out(wire, output.Contents(), armed, submitted)
    }

    constructor ()
      ensures Valid() && View() == FRESH && input.Valid() && input.Contents() == []
      ensures fresh(input) && fresh(output) && input.exp > 0 && input.buf == null && output.buf == null
    {
      input := new Buffer();
      output := new Buffer();
      armed, wire, submitted := false, [], [];
    }

    /** The write loop. */
    method IsendLoop(data: seq<byte>, replies: seq<WriteReply>) returns (sended: nat)
      modifies this
      ensures sended == Isend(|data|, replies).count
      ensures wire == old(wire) + data[..sended]
      ensures armed == (old(armed) || Isend(|data|, replies).blocked)
      ensures submitted == old(submitted)
    {
      sended := 0;
      ghost var spec := Isend(|data|, replies);
      var i := 0;
      while |data| > sended
        invariant 0 <= i <= |replies| && sended <= |data|
        invariant wire == old(wire) + data[..sended] && submitted == old(submitted)
        invariant armed == old(armed)
        invariant var r := Isend(|data| - sended, replies[i..]);
                  spec == r.(count := r.count + sended)
        decreases |replies| - i, |data| - sended
      {
        if i == |replies| {
          armed := true;
          break;
        }
        var reply := replies[i];
        assert replies[i..][0] == reply && replies[i..][1..] == replies[i + 1..];
        i := i + 1;
        match reply {
          case Wrote(n) =>
            if n == 0 {
              break;
            }
            var k := if n < |data| - sended then n else |data| - sended;
            assert data[..sended + k] == data[..sended] + data[sended..sended + k];
            wire := wire + data[sended..sended + k];
            sended := sended + k;
          case WriteInterrupted =>
          case WriteWouldBlock =>
            armed := true;
            break;
          case WriteFailed =>
            break;
        }
      }
    }

    /** Hands the front of a buffer to the socket and drops what it took. */
    method Offer(buf: Buffer, replies: seq<WriteReply>)
      requires buf.Valid()
      modifies this, buf
      ensures buf.Valid() && (buf.buf == old(buf.buf) || buf.buf == null)
      ensures var r := Isend(|old(buf.Contents())|, replies);
              && wire == old(wire) + old(buf.Contents())[..r.count]
              && buf.Contents() == old(buf.Contents())[r.count..]
              && armed == (old(armed) || r.blocked)
              && submitted == old(submitted)
    {
      if buf.e - buf.b > 0 {
        var offered := buf.buf[buf.b..buf.e];
        var sended := IsendLoop(offered, replies);
        buf.Consume(sended);
      }
    }

    /** `send(Buffer&)` with a buffer of the caller's. */
    method SendOther(buf: Buffer, replies: seq<WriteReply>)
      requires Valid() && buf.Valid()
      requires buf != output && (buf.buf != null ==> buf.buf != output.buf)
      modifies this, output, output.buf, buf
      ensures Valid() && (output.buf in {old(output.buf), old(buf.buf), null} || fresh(output.buf))
      ensures View() == AfterSendBuffer(old(View()), old(buf.Contents()), replies)
    {
      submitted := submitted + buf.Contents();
      if armed {
        output.Absorb(buf);
      } else {
        Offer(buf, replies);
        if buf.e - buf.b > 0 {
          output.Absorb(buf);
          armed := true;
        }
      }
    }

    /** `send(output_)`: absorbing itself is a no-op, so what is queued is offered
        to the socket whether or not write interest is on. */
    method SendQueued(replies: seq<WriteReply>)
      requires Valid()
      modifies this, output
      ensures Valid() && (output.buf == old(output.buf) || output.buf == null)
      ensures View() == AfterSendQueue(old(View()), replies)
    {
      ghost var s, r := View(), Isend(|View().queue|, replies);
      Offer(output, replies);
      assert output.Contents() == s.queue[r.count..] && |output.Contents()| == |s.queue| - r.count;
      if output.e - output.b > 0 {
        armed := true;
      }
    }

    /** `send(const char*, size_t)`. */
    method SendRaw(data: seq<byte>, replies: seq<WriteReply>)
      requires Valid()
      modifies this, output, output.buf
      ensures Valid() && (output.buf == old(output.buf) || output.buf == null || fresh(output.buf))
      ensures View() == AfterSendBytes(old(View()), data, replies)
    {
      ghost var s := View();
      submitted := submitted + data;
      var left := data;
      if output.e == output.b {
        var sended := IsendLoop(data, replies);
        left := data[sended..];
        assert s.queue == [] && s.queue + left == left;
      }
      ghost var was := output.Contents();
      if |left| > 0 {
        output.Append(left);
      } else {
        assert was + left == was;
      }
      assert output.Contents() == was + left && was == s.queue;
    }

    /** `sendMsg`: encode straight into the output buffer, then send it. */
    method SendMsg(c: Codec, msg: seq<byte>, replies: seq<WriteReply>)
      requires Valid()
      modifies this, output, output.buf
      ensures Valid() && (output.buf == old(output.buf) || output.buf == null || fresh(output.buf))
      ensures View() == AfterSendOutput(old(View()), Encoded(c, msg), replies)
    {
      ghost var extra := Encoded(c, msg);
      ghost var t := View().(queue := View().queue + extra, submitted := submitted + extra);
      EncodeInto(c, msg, output);
      submitted := submitted + extra;
      assert View() == t;
      SendQueued(replies);
      assert View() == AfterSendQueue(t, replies);
    }

    /** A write to `getOutput()` followed by `sendOutput()`. */
    method SendOutput(extra: seq<byte>, replies: seq<WriteReply>)
      requires Valid()
      modifies this, output, output.buf
      ensures Valid() && (output.buf == old(output.buf) || output.buf == null || fresh(output.buf))
      ensures View() == AfterSendOutput(old(View()), extra, replies)
    {
      ghost var t := View().(queue := View().queue + extra, submitted := submitted + extra);
      output.Append(extra);
      submitted := submitted + extra;
      assert View() == t;
      SendQueued(replies);
      assert View() == AfterSendQueue(t, replies);
    }

    /** A callback that fills a buffer of its own and sends it. */
    method SendCopy(data: seq<byte>, replies: seq<WriteReply>)
      requires Valid()
      modifies this, output, output.buf
      ensures Valid() && (output.buf == old(output.buf) || output.buf == null || fresh(output.buf))
      ensures View() == AfterSendBuffer(old(View()), data, replies)
    {
      ghost var s := View();
      var buf := new Buffer();
      buf.Append(data);
      assert [] + data == data;
      assert buf.Contents() == data && View() == s;
      SendOther(buf, replies);
    }

    /** The sends of a callback, one after the other. */
    method SendAll(ops: seq<Op>)
      requires Valid()
      modifies this, output, output.buf
      ensures Valid()
      ensures View() == AfterAll(old(View()), ops)
    {
      assert ops[0..] == ops;
      for i := 0 to |ops|
        invariant Valid() && (output.buf == old(output.buf) || output.buf == null || fresh(output.buf))
        invariant AfterAll(View(), ops[i..]) == AfterAll(old(View()), ops)
      {
        assert ops[i..][1..] == ops[i + 1..];
        match ops[i] {
          case SendBuffer(data, replies) => SendCopy(data, replies);
          case SendBytes(data, replies) => SendRaw(data, replies);
          case SendOutput(extra, replies) => SendOutput(extra, replies);
        }
      }
    }

    /** `handleWrite` when connected, with any sends in the writable callback. */
    method HandleWrite(replies: seq<WriteReply>, cb: seq<Op>)
      requires Valid()
      modifies this, output, output.buf
      ensures Valid()
      ensures View() == AfterHandleWrite(old(View()), replies, cb)
    {
      Offer(output, replies);
      if output.e == output.b {
        SendAll(cb);
      }
      if output.e == output.b && armed {
        armed := false;
      }
    }

    /** One `makeRoom` and `read`: keeps what the socket delivers of `n` bytes. It
        takes nothing that is there exactly when the buffer has no space and its
        growth unit is zero. */
    method ReadSome(net: seq<byte>, n: nat) returns (k: nat)
      requires input.Valid()
      modifies input, input.buf
      ensures input.Valid() && input.exp == old(input.exp)
      ensures k <= n && k <= |net|
      ensures k == 0 <==> n == 0 || net == [] || old(input.exp == 0 && input.cap == input.e)
      ensures input.Contents() == old(input.Contents()) + net[..k]
      ensures input.buf == old(input.buf) || fresh(input.buf)
    {
      input.MakeReadRoom();
      k := Least(Least(n, input.cap - input.e), |net|);
      input.Fill(net[..k]);
    }

    /** One round of the read loop: what it took, and whether the connection lives and
        the loop goes on. */
    method ReadRound(net: seq<byte>, reply: ReadReply) returns (k: nat, alive: bool, more: bool)
      requires input.Valid()
      modifies input, input.buf
      ensures input.Valid() && input.exp == old(input.exp)
      ensures k <= |net| && input.Contents() == old(input.Contents()) + net[..k]
      ensures input.buf == old(input.buf) || fresh(input.buf)
      ensures reply.Got? ==> k <= reply.n && alive == more == (k > 0)
      ensures reply.Got? ==> (k == 0 <==> reply.n == 0 || net == [] || old(input.exp == 0 && input.cap == input.e))
      ensures !reply.Got? ==> k == 0 && alive == !reply.ReadEnded? && more == reply.ReadInterrupted?
    {
      k := ReadSome(net, if reply.Got? then reply.n else 0);
      alive := !(reply.ReadEnded? || (reply.Got? && k == 0));
      more := alive && !reply.ReadWouldBlock?;
    }

    /** The read loop. It takes the next bytes the peer sent, in order; with a positive
        growth unit every delivering answer yields at least one of them, and the
        connection is given up exactly when the peer ended the stream. */
    method HandleRead(net: seq<byte>, replies: seq<ReadReply>) returns (taken: nat, alive: bool)
      requires input.Valid()
      modifies input, input.buf
      ensures input.Valid() && input.exp == old(input.exp)
      ensures taken <= |net| && input.Contents() == old(input.Contents()) + net[..taken]
      ensures old(input.exp) > 0 && Supplied(|net|, replies) ==>
                taken >= Deliveries(replies) && (alive <==> !PeerEnds(replies))
      ensures input.buf == old(input.buf) || fresh(input.buf)
    {
      ghost var was, good := input.Contents(), input.exp > 0 && Supplied(|net|, replies);
      taken, alive := 0, true;
      var i, more := 0, true;
      assert replies[0..] == replies;
      while more
        invariant i <= |replies| && taken <= |net| && input.Valid() && input.exp == old(input.exp)
        invariant input.Contents() == was + net[..taken]
        invariant input.buf == old(input.buf) || fresh(input.buf)
        invariant good && more ==> OnCourse(|net|, replies, i, taken)
        invariant good && !more ==> taken >= Deliveries(replies) && alive == !PeerEnds(replies)
        decreases more, |replies| - i
      {
        var k;
        k, alive, more := ReadRound(net[taken..], ReplyAt(replies, i));
        TakeMore(was, net, taken, k);
        if good && more { Round(|net|, replies, i, taken, k); }
        if good && !more { LastRound(|net|, replies, i, taken, alive); }
        i, taken := if more then i + 1 else i, taken + k;
      }
    }

    method DecodeOnce(c: Codec) returns (r: Decoded)
      requires input.Valid() && |input.Contents()| < TWO_31
      ensures r == DecoderOf(c)(input.Contents())
    {
      var data: seq<byte> := if input.buf == null then [] else input.buf[input.b..input.e];
      if c.Line? {
        r := LineTryDecode(data);
      } else {
        r := LengthDecodeAt(data, ToInt32(|data|));
        CastIsExact(data);
      }
    }

    /** Drops a delivered frame and decodes what follows. */
    method NextFrame(c: Codec, used: nat) returns (r: Decoded)
      requires input.Valid() && used <= |input.Contents()| < TWO_31
      modifies input
      ensures input.Valid() && input.Contents() == old(input.Contents())[used..]
      ensures r == DecoderOf(c)(input.Contents())
    {
      input.Consume(used);
      r := DecodeOnce(c);
    }

    /** The decode loop that `onMsg` installs. */
    method DrainInput(c: Codec) returns (msgs: seq<Message>, closed: bool)
      requires input.Valid() && |input.Contents()| < TWO_31
      modifies input
      ensures input.Valid()
      ensures Outcome(msgs, input.Contents(), closed) == Drain(DecoderOf(c), old(input.Contents()))
    {
      msgs, closed := [], false;
      ghost var d, data := DecoderOf(c), input.Contents();
      var r := DecodeOnce(c);
      while r.Frame?
        invariant input.Valid() && input.Contents() == data && |data| < TWO_31
        invariant r == d(data)
        invariant Drain(d, old(input.Contents())) == Then(Outcome(msgs, [], false), Drain(d, data))
        decreases |data|
      {
        DrainStep(d, msgs, data);
        data := data[r.used..];
        msgs := msgs + [r.msg];
        r := NextFrame(c, r.used);
      }
      closed := r.Bad?;
      DrainEnd(d, data);
    }

    /** A readable event under `onMsg`: reads what there is, and then, at would-block or
        at the end of the stream, delivers the frames that are complete. */
    method OnReadable(c: Codec, net: seq<byte>, replies: seq<ReadReply>)
        returns (taken: nat, alive: bool, msgs: seq<Message>, closed: bool)
      requires input.Valid() && |input.Contents()| + |net| < TWO_31
      modifies input, input.buf
      ensures input.Valid() && taken <= |net|
      ensures old(input.exp) > 0 && Supplied(|net|, replies) ==>
                taken >= Deliveries(replies) && (alive <==> !PeerEnds(replies))
      ensures Outcome(msgs, input.Contents(), closed) == Drain(DecoderOf(c), old(input.Contents()) + net[..taken])
    {
      taken, alive := HandleRead(net, replies);
      msgs, closed := DrainInput(c);
    }
  }
}
