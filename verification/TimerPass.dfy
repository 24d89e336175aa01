/** One pass of EventsImp::handleTimeouts (src/common/handy/event_base.cc:148-157),
    with callbacks that may schedule and cancel timers while it runs. */
module TimerPass {
  import opened TimerTable
  import opened Timers

  const TWO_62: int := 0x4000_0000_0000_0000

  /** What the callback of the latest firing does, as a function of all firings of
      the pass so far; any behaviour of any callbacks in one pass has this form.
      Steps that would break the caller's obligations are not taken. */
  type Script = seq<Entry> -> seq<Op>

  /** The clock readings of the pass, numbered by firing. */
  type Clock = nat -> int

  predicate Tame(op: Op, now: int) { op.DoRunAt? ==> op.milli > now }

  /** Callbacks add no timer that is due already. */
  ghost predicate TameScript(script: Script, now: int) {
    forall log, op :: op in script(log) ==> Tame(op, now)
  }

  /** The condition of the loop. */
  predicate Guard(s: Engine, now: int) {
    s.timers != [] && Less(s.timers[0].key, TimerId(now, TWO_62))
  }

  /** A pass in progress: the engine, what fired, and which ids callbacks cancelled,
      each with the number of firings before that. */
  datatype Pass = Pass(s: Engine, log: seq<Entry>, cancelled: map<TimerId, nat>)

  /** One step of a callback. A cancel is recorded if it took effect: a cancel that
      returns false changes nothing. */
  function Act(p: Pass, op: Op): Pass {
    if !Legal(p.s, op) then p
    else if op.DoCancel? && Cancel(p.s, op.id).1 then
      p.(s := Apply(p.s, op), cancelled := p.cancelled[op.id := |p.log|])
    else p.(s := Apply(p.s, op))
  }

  function Play(p: Pass, ops: seq<Op>): Pass
    decreases |ops|
  {
    if ops == [] then p else Play(Act(p, ops[0]), ops[1..])
  }

  ghost predicate Ready(s: Engine) { Inv(s) && s.timers != [] }

  function Iterate(p: Pass, script: Script, clock: Clock): Pass
    requires Ready(p.s)
  {
    var q := AfterFiring(p, clock(|p.log|));
    Play(q, script(q.log))
  }

  /** The pass after the first timer fired, before its callback. */
  function AfterFiring(p: Pass, clock: int): Pass
    requires Ready(p.s)
  {
    ExpiredTables(p.s, clock);
    p.(s := Expired(p.s, clock), log := p.log + [p.s.timers[0]])
  }

  // ------------------------------------------------------------- firings still due

  /** How often a repeating timer at `at` still fires up to `now`. */
  function Left(at: int, interval: int, now: int): nat
    requires interval > 0
  {
    if at > now then 0 else (now - at) / interval + 1
  }

  lemma Multiples(i: int, x: int)
    requires i > 0
    ensures x >= 1 ==> i * x >= i
    ensures x <= -1 ==> i * x <= -i
  {
  }

  lemma {:induction false} QuotientIs(d: int, i: int, q: int, r: int)
    requires 0 <= r < i && d == i * q + r
    ensures d / i == q
  {
    var x := d / i - q;
    assert i * (d / i) == i * q + i * x;
    Multiples(i, x);
  }

  lemma {:induction false} DivStep(d: int, i: int)
    requires 0 < i <= d
    ensures d / i == (d - i) / i + 1
  {
    var q, r := (d - i) / i, (d - i) % i;
    assert i * (q + 1) == i * q + i;
    QuotientIs(d, i, q + 1, r);
  }

  lemma {:induction false} LeftStep(at: int, interval: int, now: int)
    requires interval > 0 && at <= now
    ensures Left(at, interval, now) == 1 + Left(at + interval, interval, now)
  {
    if at + interval <= now {
      DivStep(now - at, interval);
    }
  }

  function Weight(e: Entry, reps: map<TimerId, Rep>, now: int): nat {
    if e.key.at > now then 0
    else if e.task.Once? || e.task.rep !in reps || reps[e.task.rep].interval <= 0 then 1
    else Left(e.key.at, reps[e.task.rep].interval, now)
  }

  /** The sum of the firings still due: what bounds the pass. */
  function Load(ts: seq<Entry>, reps: map<TimerId, Rep>, now: int): nat {
    if ts == [] then 0 else Weight(ts[0], reps, now) + Load(ts[1..], reps, now)
  }

  function LoadOf(s: Engine, now: int): nat { Load(s.timers, s.reps, now) }

  lemma {:induction false} LoadPut(ts: seq<Entry>, e: Entry, reps: map<TimerId, Rep>, now: int)
    requires !Has(ts, e.key)
    ensures Load(Put(ts, e), reps, now) == Load(ts, reps, now) + Weight(e, reps, now)
  {
    if ts == [] || Less(e.key, ts[0].key) {
      assert ([e] + ts)[1..] == ts;
    } else {
      assert ts[0] in ts;
      assert forall x | x in ts[1..] :: x in ts;
      LoadPut(ts[1..], e, reps, now);
      assert Put(ts, e)[1..] == Put(ts[1..], e);
    }
  }

  lemma {:induction false} LoadWithout(ts: seq<Entry>, k: TimerId, reps: map<TimerId, Rep>, now: int)
    ensures Load(Without(ts, k), reps, now) <= Load(ts, reps, now)
  {
    if ts != [] && ts[0].key != k {
      LoadWithout(ts[1..], k, reps, now);
      assert Without(ts, k)[1..] == Without(ts[1..], k);
    }
  }

  /** The weights only look at the intervals. */
  predicate SameIntervals(ts: seq<Entry>, reps: map<TimerId, Rep>, reps': map<TimerId, Rep>) {
    forall e | e in ts && e.task.Again? ::
      e.task.rep in reps && e.task.rep in reps' && reps[e.task.rep].interval == reps'[e.task.rep].interval
  }

  lemma {:induction false} LoadFrame(ts: seq<Entry>, reps: map<TimerId, Rep>, reps': map<TimerId, Rep>, now: int)
    requires SameIntervals(ts, reps, reps')
    ensures Load(ts, reps, now) == Load(ts, reps', now)
  {
    if ts != [] {
      assert ts[0] in ts;
      assert forall x | x in ts[1..] :: x in ts;
      LoadFrame(ts[1..], reps, reps', now);
    }
  }

  lemma RearmLoad(s: Engine, now: int, clock: int)
    requires Ready(s) && s.timers[0].task.Again? && s.timers[0].key.at <= now
    ensures s.timers[0].task.rep in s.reps
    ensures LoadOf(Expired(s, clock), now) == LoadOf(s, now) - 1
  {
    assert s.timers[0] in s.timers;
    ExpiredTables(s, clock);
    var r, rest, t := s.timers[0].task.rep, s.timers[1..], Expired(s, clock);
    assert SameIntervals(rest, s.reps, t.reps);
    LoadFrame(rest, s.reps, t.reps, now);
    LoadPut(rest, Next(s, r), t.reps, now);
    LeftStep(s.reps[r].at, s.reps[r].interval, now);
  }

  lemma ExpiredLoad(s: Engine, now: int, clock: int)
    requires Ready(s) && s.timers[0].key.at <= now
    ensures s.timers[0].task.Again? ==> s.timers[0].task.rep in s.reps
    ensures LoadOf(Expired(s, clock), now) == LoadOf(s, now) - 1
  {
    if s.timers[0].task.Again? {
      RearmLoad(s, now, clock);
    }
  }

  lemma RunAtLoad(s: Engine, op: Op, now: int)
    requires Inv(s) && op.DoRunAt? && Legal(s, op) && Tame(op, now)
    ensures LoadOf(Apply(s, op), now) == LoadOf(s, now)
  {
    if !s.exit {
      var t := Apply(s, op);
      RunAtIntervals(s, op);
      LoadFrame(s.timers, s.reps, t.reps, now);
      FreshKey(s, Added(s, op).key);
      LoadPut(s.timers, Added(s, op), t.reps, now);
    }
  }

  lemma RunAtIntervals(s: Engine, op: Op)
    requires Inv(s) && op.DoRunAt? && Legal(s, op)
    ensures SameIntervals(s.timers, s.reps, Apply(s, op).reps)
  {
    forall e | e in s.timers && e.task.Again?
      ensures e.task.rep in Apply(s, op).reps && Apply(s, op).reps[e.task.rep] == s.reps[e.task.rep]
    {
      RunAtReps(s, op, e.task.rep);
    }
  }

  lemma CancelLoad(s: Engine, op: Op, now: int)
    requires Inv(s) && op.DoCancel? && Legal(s, op)
    ensures LoadOf(Apply(s, op), now) <= LoadOf(s, now)
  {
    var id := op.id;
    var k := if id.at < 0 then s.reps[id].timerid else id;
    LoadWithout(s.timers, k, s.reps, now);
    if id.at < 0 {
      WithoutIsRemoval(s.timers, k);
      forall e | e in Without(s.timers, k) && e.task.Again?
        ensures e.task.rep != id
      {
      }
      LoadFrame(Without(s.timers, k), s.reps, s.reps - {id}, now);
    }
  }

  lemma ActLoad(p: Pass, op: Op, now: int)
    requires Inv(p.s) && Tame(op, now)
    ensures Inv(Act(p, op).s) && LoadOf(Act(p, op).s, now) <= LoadOf(p.s, now)
    ensures Act(p, op).log == p.log
  {
    if Legal(p.s, op) {
      ApplyKeepsInv(p.s, op);
      match op
      case DoRunAt(_, _, _, _) => RunAtLoad(p.s, op, now);
      case DoCancel(_) => CancelLoad(p.s, op, now);
      case DoExit =>
    }
  }

  lemma {:induction false} PlayLoad(p: Pass, ops: seq<Op>, now: int)
    requires Inv(p.s) && forall op | op in ops :: Tame(op, now)
    ensures Inv(Play(p, ops).s) && LoadOf(Play(p, ops).s, now) <= LoadOf(p.s, now)
    ensures Play(p, ops).log == p.log
    decreases |ops|
  {
    if ops != [] {
      assert ops[0] in ops && forall x | x in ops[1..] :: x in ops;
      ActLoad(p, ops[0], now);
      PlayLoad(Act(p, ops[0]), ops[1..], now);
    }
  }

  lemma IterateLowersLoad(p: Pass, now: int, script: Script, clock: Clock)
    requires Inv(p.s) && Guard(p.s, now) && TameScript(script, now)
    ensures Inv(Iterate(p, script, clock).s)
    ensures LoadOf(Iterate(p, script, clock).s, now) < LoadOf(p.s, now)
    ensures Iterate(p, script, clock).log == p.log + [p.s.timers[0]]
  {
    ExpiredKeepsInv(p.s, clock(|p.log|));
    ExpiredLoad(p.s, now, clock(|p.log|));
    var q := AfterFiring(p, clock(|p.log|));
    PlayLoad(q, script(q.log), now);
  }

  /** The whole pass. It terminates because every firing lowers the load by at least
      one and callbacks never raise it. */
  function Complete(p: Pass, now: int, script: Script, clock: Clock): (q: Pass)
    requires Inv(p.s) && TameScript(script, now)
    ensures Inv(q.s) && !Guard(q.s, now)
    ensures |q.log| + LoadOf(q.s, now) <= |p.log| + LoadOf(p.s, now)
    decreases LoadOf(p.s, now)
  {
    if Guard(p.s, now) then
      IterateLowersLoad(p, now, script, clock);
      Complete(Iterate(p, script, clock), now, script, clock)
    else p
  }

  // --------------------------------------------------------- what the pass fires

  function CountRep(log: seq<Entry>, r: TimerId): nat {
    if log == [] then 0 else
      var n := |log| - 1;
      CountRep(log[..n], r) + if log[n].task == Again(r) then 1 else 0
  }

  ghost predicate Increasing(log: seq<Entry>) {
    forall i, j | 0 <= i < j < |log| :: Less(log[i].key, log[j].key)
  }

  /** Fired keys increase, are due, and everything pending comes after them. */
  ghost predicate Ordered(p: Pass, now: int) {
    && Increasing(p.log)
    && (forall l | l in p.log :: l.key.at <= now)
    && (forall l, e | l in p.log && e in p.s.timers :: Less(l.key, e.key))
  }

  /** Only what was pending when the pass began can fire in it. */
  predicate Known(s0: Engine, e: Entry) {
    if e.task.Once? then e in s0.timers else e.task.rep in s0.reps
  }

  ghost predicate Origin(s0: Engine, p: Pass, now: int) {
    && (forall l | l in p.log :: Known(s0, l))
    && (forall e | e in p.s.timers :: e.key.at <= now ==> Known(s0, e))
  }

  /** What is pending was pending when the pass began, or has a newer key. */
  ghost predicate OldOrNew(s0: Engine, p: Pass) {
    s0.seqno <= p.s.seqno && forall e | e in p.s.timers :: e in s0.timers || e.key.seqno > s0.seqno
  }

  /** A one-shot has fired, or is pending, or was cancelled while pending. */
  ghost predicate OnceKept(s0: Engine, p: Pass) {
    forall e | e in s0.timers && e.task.Once? ::
      e.key in p.cancelled <==> e !in p.log && e !in p.s.timers
  }

  /** The deadline of the `n`-th firing after the one at `at`. */
  function Nth(at: int, interval: int, n: nat): int {
    if n == 0 then at else Nth(at, interval, n - 1) + interval
  }

  lemma {:induction false} NthIs(at: int, interval: int, n: nat)
    ensures Nth(at, interval, n) == at + n * interval
  {
    if n > 0 {
      NthIs(at, interval, n - 1);
      assert n * interval == (n - 1) * interval + interval;
    }
  }

  /** A live repeating timer: firings done plus firings due is constant, and its next
      deadline is that of the next firing. */
  ghost predicate RepKept(rep: Rep, p: Pass, now: int, r: TimerId)
    requires rep.interval > 0
  {
    && r in p.s.reps && p.s.reps[r].interval == rep.interval
    && CountRep(p.log, r) + Left(p.s.reps[r].at, rep.interval, now) == Left(rep.at, rep.interval, now)
    && p.s.reps[r].at == Nth(rep.at, rep.interval, CountRep(p.log, r))
  }

  /** A cancelled one: it has not fired since the cancel, and the firing that comes
      next was not due before the callback that cancelled it. */
  ghost predicate RepStopped(rep: Rep, log: seq<Entry>, pos: nat, r: TimerId) {
    && 0 < pos <= |log| && CountRep(log, r) == CountRep(log[..pos], r)
    && log[pos - 1].key.at <= Nth(rep.at, rep.interval, CountRep(log, r))
  }

  ghost predicate RepTracked(s0: Engine, p: Pass, now: int, r: TimerId)
    requires r in s0.reps && s0.reps[r].interval > 0
  {
    if r in p.cancelled then r !in p.s.reps && RepStopped(s0.reps[r], p.log, p.cancelled[r], r)
    else RepKept(s0.reps[r], p, now, r)
  }

  ghost predicate RepsTracked(s0: Engine, p: Pass, now: int)
    requires Inv(s0)
  {
    forall r | r in s0.reps :: RepTracked(s0, p, now, r)
  }

  ghost predicate PassInv(s0: Engine, p: Pass, now: int)
    requires Inv(s0)
  {
    && Inv(p.s) && OldOrNew(s0, p) && Ordered(p, now) && Origin(s0, p, now)
    && OnceKept(s0, p) && RepsTracked(s0, p, now)
  }

  /** Steps of a callback leave the log alone; a repeating timer they do not cancel
      keeps its record. */
  lemma RepsUntouched(s0: Engine, p: Pass, now: int, q: Pass)
    requires Inv(s0) && RepsTracked(s0, p, now) && q.log == p.log
    requires forall r | r in s0.reps ::
               && (r in q.cancelled <==> r in p.cancelled)
               && (r in p.cancelled ==> q.cancelled[r] == p.cancelled[r])
               && (r in q.s.reps <==> r in p.s.reps)
               && (r in p.s.reps ==> q.s.reps[r] == p.s.reps[r])
    ensures RepsTracked(s0, q, now)
  {
    forall r | r in s0.reps
      ensures RepTracked(s0, q, now, r)
    {
      assert RepTracked(s0, p, now, r);
    }
  }

  /** Steps of a callback drop entries and add entries that are not due yet. */
  lemma WalkKept(s0: Engine, p: Pass, now: int, q: Pass)
    requires OldOrNew(s0, p) && Ordered(p, now) && Origin(s0, p, now)
    requires q.log == p.log && p.s.seqno <= q.s.seqno
    requires forall e | e in q.s.timers :: e in p.s.timers || (e.key.at > now && e.key.seqno > s0.seqno)
    ensures OldOrNew(s0, q) && Ordered(q, now) && Origin(s0, q, now)
  {
  }

  lemma RunAtKeepsReps(s0: Engine, p: Pass, now: int, op: Op)
    requires Inv(s0) && Inv(p.s) && RepsTracked(s0, p, now) && s0.seqno <= p.s.seqno
    requires op.DoRunAt? && Legal(p.s, op) && !p.s.exit
    ensures RepsTracked(s0, Act(p, op), now)
  {
    var q := Act(p, op);
    forall r | r in s0.reps
      ensures (r in q.s.reps <==> r in p.s.reps) && (r in p.s.reps ==> q.s.reps[r] == p.s.reps[r])
    {
      RunAtReps(p.s, op, r);
    }
    RepsUntouched(s0, p, now, q);
  }

  /** Scheduling something that is not due yet. */
  lemma RunAtKeepsPass(s0: Engine, p: Pass, now: int, op: Op)
    requires Inv(s0) && PassInv(s0, p, now) && op.DoRunAt? && Legal(p.s, op) && Tame(op, now)
    ensures PassInv(s0, Act(p, op), now)
  {
    RunAtKeepsInv(p.s, op);
    if !p.s.exit {
      RunAtKeepsReps(s0, p, now, op);
      RunAtKeepsOnce(s0, p, now, op);
    }
  }

  lemma RunAtKeepsOnce(s0: Engine, p: Pass, now: int, op: Op)
    requires Inv(s0) && PassInv(s0, p, now) && op.DoRunAt? && Legal(p.s, op) && Tame(op, now) && !p.s.exit
    ensures var q := Act(p, op); OldOrNew(s0, q) && Ordered(q, now) && Origin(s0, q, now) && OnceKept(s0, q)
  {
    RunAtTables(p.s, op);
    var q := Act(p, op);
    WalkKept(s0, p, now, q);
    forall e | e in s0.timers
      ensures e in q.s.timers <==> e in p.s.timers
    {
      assert e.key.seqno <= s0.seqno;
    }
  }

  /** An entry whose key was pending when the pass began is that entry. */
  lemma SameOld(s0: Engine, p: Pass, e: Entry, x: Entry)
    requires Inv(s0) && OldOrNew(s0, p) && e in s0.timers && x in p.s.timers && x.key == e.key
    ensures x == e
  {
    KeysAreUnique(s0.timers, e, x);
  }

  /** Cancelling a one-shot that is pending. */
  lemma CancelOnceKeepsPass(s0: Engine, p: Pass, now: int, id: TimerId)
    requires Inv(s0) && PassInv(s0, p, now) && Legal(p.s, DoCancel(id)) && id.at >= 0 && Has(p.s.timers, id)
    ensures PassInv(s0, Act(p, DoCancel(id)), now)
  {
    var q := Act(p, DoCancel(id));
    CancelKeepsInv(p.s, id);
    WithoutIsRemoval(p.s.timers, id);
    assert q.s.timers == Without(p.s.timers, id) && q.s.reps == p.s.reps && q.s.seqno == p.s.seqno;
    WalkKept(s0, p, now, q);
    forall e | e in s0.timers && e.task.Once?
      ensures e.key in q.cancelled <==> e !in q.log && e !in q.s.timers
    {
      if e.key == id {
        var x :| x in p.s.timers && x.key == id;
        SameOld(s0, p, e, x);
      }
    }
    assert RepsTracked(s0, q, now) by {
      RepsUntouched(s0, p, now, q);
    }
  }

  /** What cancelling a live repeating timer does to the tables. */
  lemma CancelRepTables(p: Pass, id: TimerId)
    requires Inv(p.s) && id.at < 0 && id in p.s.reps
    ensures var q := Act(p, DoCancel(id));
            && q.log == p.log && q.s.reps == p.s.reps - {id} && q.s.seqno == p.s.seqno
            && q.cancelled == p.cancelled[id := |p.log|] && Inv(q.s)
            && (forall e :: e in q.s.timers <==> e in p.s.timers && e.key != p.s.reps[id].timerid)
            && (forall e | e in p.s.timers && e.task.Once? :: e.key != p.s.reps[id].timerid)
  {
    var k := p.s.reps[id].timerid;
    CancelKeepsInv(p.s, id);
    WithoutIsRemoval(p.s.timers, k);
    forall e | e in p.s.timers && e.task.Once?
      ensures e.key != k
    {
      if e.key == k {
        KeysAreUnique(p.s.timers, e, Entry(k, Again(id)));
      }
    }
  }

  /** Cancelling a live repeating timer, from the callback of the latest firing. */
  lemma CancelRepKeepsPass(s0: Engine, p: Pass, now: int, id: TimerId)
    requires Inv(s0) && PassInv(s0, p, now) && p.log != [] && id.at < 0 && id in p.s.reps
    ensures PassInv(s0, Act(p, DoCancel(id)), now)
  {
    var q := Act(p, DoCancel(id));
    CancelRepTables(p, id);
    WalkKept(s0, p, now, q);
    CancelRepKeepsReps(s0, p, now, id);
  }

  lemma {:induction false} CancelRepKeepsReps(s0: Engine, p: Pass, now: int, id: TimerId)
    requires Inv(s0) && Inv(p.s) && RepsTracked(s0, p, now) && Ordered(p, now)
    requires p.log != [] && id.at < 0 && id in p.s.reps
    ensures RepsTracked(s0, Act(p, DoCancel(id)), now)
  {
    var q, last := Act(p, DoCancel(id)), p.log[|p.log| - 1];
    CancelRepTables(p, id);
    assert Entry(p.s.reps[id].timerid, Again(id)) in p.s.timers && last in p.log;
    assert last.key.at <= p.s.reps[id].at;
    assert p.log[..|p.log|] == p.log;
    forall r | r in s0.reps
      ensures RepTracked(s0, q, now, r)
    {
      assert RepTracked(s0, p, now, r);
      if r == id {
        assert RepStopped(s0.reps[r], q.log, |p.log|, r);
      } else {
        assert r in q.cancelled <==> r in p.cancelled;
      }
    }
  }

  lemma ActKeepsPass(s0: Engine, p: Pass, now: int, op: Op)
    requires Inv(s0) && PassInv(s0, p, now) && Tame(op, now) && p.log != []
    ensures PassInv(s0, Act(p, op), now) && Act(p, op).log == p.log
  {
    if Legal(p.s, op) {
      match op
      case DoRunAt(_, _, _, _) => RunAtKeepsPass(s0, p, now, op);
      case DoCancel(id) =>
        if id.at < 0 {
          CancelRepKeepsPass(s0, p, now, id);
        } else if Has(p.s.timers, id) {
          CancelOnceKeepsPass(s0, p, now, id);
        }
      case DoExit =>
        RepsUntouched(s0, p, now, Act(p, op));
    }
  }

  lemma {:induction false} PlayKeepsPass(s0: Engine, p: Pass, now: int, ops: seq<Op>)
    requires Inv(s0) && PassInv(s0, p, now) && p.log != []
    requires forall op | op in ops :: Tame(op, now)
    ensures PassInv(s0, Play(p, ops), now)
    decreases |ops|
  {
    if ops != [] {
      assert ops[0] in ops && forall x | x in ops[1..] :: x in ops;
      ActKeepsPass(s0, p, now, ops[0]);
      PlayKeepsPass(s0, Act(p, ops[0]), now, ops[1..]);
    }
  }

  lemma CountSnoc(log: seq<Entry>, e: Entry, r: TimerId)
    ensures CountRep(log + [e], r) == CountRep(log, r) + if e.task == Again(r) then 1 else 0
  {
    assert (log + [e])[..|log|] == log;
  }

  lemma {:induction false} FireKeepsPass(s0: Engine, p: Pass, now: int, clock: int)
    requires Inv(s0) && PassInv(s0, p, now) && p.s.timers != [] && p.s.timers[0].key.at <= now
    ensures PassInv(s0, AfterFiring(p, clock), now)
  {
    ExpiredKeepsInv(p.s, clock);
    FireKeepsOrder(p, now, clock);
    FireKeepsOrigin(s0, p, now, clock);
    FireKeepsOnce(s0, p, now, clock);
    FireKeepsReps(s0, p, now, clock);
  }

  lemma FireKeepsOrigin(s0: Engine, p: Pass, now: int, clock: int)
    requires Ready(p.s) && Origin(s0, p, now) && OldOrNew(s0, p) && p.s.timers[0].key.at <= now
    ensures Origin(s0, AfterFiring(p, clock), now) && OldOrNew(s0, AfterFiring(p, clock))
  {
    ExpiredTables(p.s, clock);
    SortedTail(p.s.timers);
    var e := p.s.timers[0];
    assert e in p.s.timers;
    assert forall l :: l in p.log + [e] <==> l in p.log || l == e;
  }

  lemma FireKeepsOnce(s0: Engine, p: Pass, now: int, clock: int)
    requires Ready(p.s) && OldOrNew(s0, p) && OnceKept(s0, p) && Inv(s0)
    ensures OnceKept(s0, AfterFiring(p, clock))
  {
    ExpiredTables(p.s, clock);
    SortedTail(p.s.timers);
    var e, q := p.s.timers[0], AfterFiring(p, clock);
    assert forall l :: l in q.log <==> l in p.log || l == e;
    forall x | x in s0.timers && x.task.Once?
      ensures x.key in q.cancelled <==> x !in q.log && x !in q.s.timers
    {
      assert x in q.s.timers <==> x in p.s.timers && x != e;
    }
  }

  lemma {:induction false} FireKeepsReps(s0: Engine, p: Pass, now: int, clock: int)
    requires Inv(s0) && Ready(p.s) && RepsTracked(s0, p, now) && p.s.timers[0].key.at <= now
    ensures RepsTracked(s0, AfterFiring(p, clock), now)
  {
    forall r | r in s0.reps
      ensures RepTracked(s0, AfterFiring(p, clock), now, r)
    {
      assert RepTracked(s0, p, now, r);
      if r in p.cancelled {
        FireKeepsStopped(s0.reps[r], p, clock, p.cancelled[r], r);
      } else {
        FireKeepsRep(s0.reps[r], p, now, clock, r);
      }
    }
  }

  lemma {:induction false} FireKeepsRep(rep: Rep, p: Pass, now: int, clock: int, r: TimerId)
    requires Ready(p.s) && p.s.timers[0].key.at <= now && rep.interval > 0 && RepKept(rep, p, now, r)
    ensures RepKept(rep, AfterFiring(p, clock), now, r)
  {
    ExpiredTables(p.s, clock);
    var e := p.s.timers[0];
    assert e in p.s.timers;
    CountSnoc(p.log, e, r);
    if e.task == Again(r) {
      LeftStep(p.s.reps[r].at, p.s.reps[r].interval, now);
    }
  }

  lemma FireKeepsStopped(rep: Rep, p: Pass, clock: int, pos: nat, r: TimerId)
    requires Ready(p.s) && r !in p.s.reps && RepStopped(rep, p.log, pos, r)
    ensures r !in AfterFiring(p, clock).s.reps && RepStopped(rep, AfterFiring(p, clock).log, pos, r)
  {
    ExpiredTables(p.s, clock);
    var e := p.s.timers[0];
    assert e in p.s.timers;
    CountSnoc(p.log, e, r);
    assert (p.log + [e])[..pos] == p.log[..pos];
  }

  lemma FireKeepsOrder(p: Pass, now: int, clock: int)
    requires Ready(p.s) && Ordered(p, now) && p.s.timers[0].key.at <= now
    ensures Ordered(AfterFiring(p, clock), now)
  {
    ExpiredTables(p.s, clock);
    SortedTail(p.s.timers);
    var e, q := p.s.timers[0], AfterFiring(p, clock);
    assert e in p.s.timers;
    assert forall x | x in q.s.timers :: Less(e.key, x.key);
    assert forall l | l in p.log :: Less(l.key, e.key);
    IncreasingSnoc(p.log, e);
    assert forall l :: l in q.log <==> l in p.log || l == e;
  }

  lemma IncreasingSnoc(log: seq<Entry>, e: Entry)
    requires Increasing(log) && forall l | l in log :: Less(l.key, e.key)
    ensures Increasing(log + [e])
  {
    var s := log + [e];
    forall i, j | 0 <= i < j < |s|
      ensures Less(s[i].key, s[j].key)
    {
      assert s[i] == log[i] && log[i] in log;
    }
  }

  lemma IterateKeepsPass(s0: Engine, p: Pass, now: int, script: Script, clock: Clock)
    requires Inv(s0) && PassInv(s0, p, now) && Guard(p.s, now) && TameScript(script, now)
    ensures PassInv(s0, Iterate(p, script, clock), now)
  {
    FireKeepsPass(s0, p, now, clock(|p.log|));
    var q := AfterFiring(p, clock(|p.log|));
    PlayKeepsPass(s0, q, now, script(q.log));
  }

  lemma {:induction false} CompleteKeepsPass(s0: Engine, p: Pass, now: int, script: Script, clock: Clock)
    requires Inv(s0) && PassInv(s0, p, now) && TameScript(script, now)
    ensures PassInv(s0, Complete(p, now, script, clock), now)
    decreases LoadOf(p.s, now)
  {
    if Guard(p.s, now) {
      IterateLowersLoad(p, now, script, clock);
      IterateKeepsPass(s0, p, now, script, clock);
      CompleteKeepsPass(s0, Iterate(p, script, clock), now, script, clock);
    }
  }

  /** Every firing of a repeating timer is for its own next deadline. */
  ghost predicate OnGrid(s0: Engine, log: seq<Entry>)
  {
    forall i | 0 <= i < |log| && log[i].task.Again? && log[i].task.rep in s0.reps ::
      OnTheDot(s0.reps[log[i].task.rep], log, i)
  }

  predicate OnTheDot(rep: Rep, log: seq<Entry>, i: nat)
    requires i < |log| && log[i].task.Again?
  {
    log[i].key.at == Nth(rep.at, rep.interval, CountRep(log[..i], log[i].task.rep))
  }

  lemma {:induction false} FireKeepsGrid(s0: Engine, p: Pass, now: int)
    requires Inv(s0) && PassInv(s0, p, now) && p.s.timers != [] && OnGrid(s0, p.log)
    ensures OnGrid(s0, p.log + [p.s.timers[0]])
  {
    var e, log := p.s.timers[0], p.log + [p.s.timers[0]];
    forall i | 0 <= i < |log| && log[i].task.Again? && log[i].task.rep in s0.reps
      ensures OnTheDot(s0.reps[log[i].task.rep], log, i)
    {
      if i < |p.log| {
        assert log[..i] == p.log[..i] && OnTheDot(s0.reps[p.log[i].task.rep], p.log, i);
      } else {
        assert log[..i] == p.log && e in p.s.timers;
        assert RepTracked(s0, p, now, e.task.rep);
      }
    }
  }

  lemma {:induction false} CompleteKeepsGrid(s0: Engine, p: Pass, now: int, script: Script, clock: Clock)
    requires Inv(s0) && PassInv(s0, p, now) && TameScript(script, now) && OnGrid(s0, p.log)
    ensures OnGrid(s0, Complete(p, now, script, clock).log)
    decreases LoadOf(p.s, now)
  {
    if Guard(p.s, now) {
      FireKeepsGrid(s0, p, now);
      IterateLowersLoad(p, now, script, clock);
      IterateKeepsPass(s0, p, now, script, clock);
      CompleteKeepsGrid(s0, Iterate(p, script, clock), now, script, clock);
    }
  }

  function Begin(s0: Engine): Pass { Pass(s0, [], map[]) }

  /** The whole of handleTimeouts from an engine in order. */
  function HandleTimeouts(s0: Engine, now: int, script: Script, clock: Clock): Pass
    requires Inv(s0) && TameScript(script, now)
  {
    Complete(Begin(s0), now, script, clock)
  }

  /** Whatever the callbacks schedule (nothing due) or cancel, one pass
      - fires in strictly increasing (deadline, sequence) order, only due timers,
        and only timers that were pending when it began,
      - fires a due one-shot, once, if and only if it was not cancelled while pending;
        a cancel after its firing, from its own callback or later, makes no difference,
      - fires every repeating timer that was not cancelled exactly
        floor((now - at) / interval) + 1 times if due, and not at all otherwise,
        its n-th firing being for the deadline at + n * interval,
      - fires a repeating timer that was cancelled never after the cancel, and before
        it for each of its deadlines before that of the cancelling callback,
      - leaves nothing pending at or before `now`. */
  lemma PassFiresExactly(s0: Engine, now: int, script: Script, clock: Clock)
    requires Inv(s0) && TameScript(script, now)
    ensures var p := HandleTimeouts(s0, now, script, clock);
            && Increasing(p.log)
            && (forall l | l in p.log :: l.key.at <= now && Known(s0, l))
            && |p.log| <= LoadOf(s0, now) && OnGrid(s0, p.log)
            && (forall r | r in s0.reps && r in p.cancelled :: RepStopped(s0.reps[r], p.log, p.cancelled[r], r))
            && (p.s.seqno < TWO_62 ==>
                  && (forall e | e in p.s.timers :: e.key.at > now)
                  && (forall e | e in s0.timers && e.task.Once? && e.key.at <= now ::
                        e in p.log <==> e.key !in p.cancelled)
                  && (forall r | r in s0.reps && r !in p.cancelled ::
                        CountRep(p.log, r) == Left(s0.reps[r].at, s0.reps[r].interval, now)))
  {
    PassBegins(s0, now);
    CompleteKeepsPass(s0, Begin(s0), now, script, clock);
    CompleteKeepsGrid(s0, Begin(s0), now, script, clock);
    var p := HandleTimeouts(s0, now, script, clock);
    forall r | r in s0.reps && r in p.cancelled
      ensures RepStopped(s0.reps[r], p.log, p.cancelled[r], r)
    {
      assert RepTracked(s0, p, now, r);
    }
    if p.s.seqno < TWO_62 {
      NothingDue(p.s, now);
      forall r | r in s0.reps && r !in p.cancelled
        ensures CountRep(p.log, r) == Left(s0.reps[r].at, s0.reps[r].interval, now)
      {
        assert RepTracked(s0, p, now, r);
        assert Entry(p.s.reps[r].timerid, Again(r)) in p.s.timers;
      }
    }
  }

  lemma PassBegins(s0: Engine, now: int)
    requires Inv(s0)
    ensures PassInv(s0, Begin(s0), now)
  {
    forall r | r in s0.reps
      ensures RepTracked(s0, Begin(s0), now, r)
    {
    }
  }

  lemma NothingDue(s: Engine, now: int)
    requires Inv(s) && !Guard(s, now) && s.seqno < TWO_62
    ensures forall e | e in s.timers :: e.key.at > now
  {
    if s.timers != [] {
      SortedTail(s.timers);
      assert s.timers[0] in s.timers;
    }
  }

  // ---------------------------------------------------------------------- object

  /** The engine as the object the program keeps, updated in place. */
  class EventsImp {
    var timers: seq<Entry>
    var reps: map<TimerId, Rep>
    var seqno: nat
    var nextTimeout: int
    var exit: bool
    ghost var refreshed: int

    ghost function View(): Engine
      reads this
    {
      Engine(timers, reps, seqno, nextTimeout, refreshed, exit)
    }

    constructor ()
      ensures View() == START && Inv(View())
    {
      timers, reps, seqno, nextTimeout, exit := [], map[], 0, 0x4000_0000, false;
      refreshed := 0;
    }

    method RefreshNearest(clock: int)
      modifies this
      ensures View() == Refreshed(old(View()), clock)
    {
      if timers == [] {
        nextTimeout := 0x4000_0000;
      } else {
        nextTimeout := Ints.ToInt32(timers[0].key.at - clock);
        nextTimeout := if nextTimeout < 0 then 0 else nextTimeout;
      }
      refreshed := clock;
    }

    method Schedule(milli: int, tag: nat, interval: int, clock: int) returns (id: TimerId)
      requires milli > 0 && interval >= 0
      modifies this
      ensures (View(), id) == RunAt(old(View()), milli, tag, interval, clock)
    {
      if exit {
        return TimerId(0, 0);
      }
      if interval != 0 {
        seqno := seqno + 1;
        id := TimerId(-milli, seqno);
        seqno := seqno + 1;
        var key := TimerId(milli, seqno);
        reps := reps[id := Rep(milli, interval, key, tag)];
        timers := Put(timers, Entry(key, Again(id)));
      } else {
        seqno := seqno + 1;
        id := TimerId(milli, seqno);
        timers := Put(timers, Entry(id, Once(tag)));
      }
      RefreshNearest(clock);
    }

    method CancelTimer(id: TimerId) returns (ok: bool)
      requires Legal(View(), DoCancel(id))
      modifies this
      ensures (View(), ok) == Cancel(old(View()), id)
    {
      if id.at < 0 {
        timers := Without(timers, reps[id].timerid);
        reps := reps - {id};
        return true;
      }
      if Has(timers, id) {
        timers := Without(timers, id);
        return true;
      }
      return false;
    }

    method Exit()
      modifies this
      ensures View() == Apply(old(View()), DoExit)
    {
      exit := true;
    }

    /** The end of the loop. */
    method ClearTables()
      requires exit
      modifies this
      ensures View() == Step(old(View()), Clear)
    {
      reps := map[];
      timers := [];
    }

    /** The part of repeatableTimeout before the callback. */
    method Rearm(r: TimerId, clock: int)
      requires r in reps
      modifies this
      ensures View() == Rearmed(old(View()), r, clock)
    {
      var rep := reps[r];
      seqno := seqno + 1;
      var key := TimerId(rep.at + rep.interval, seqno);
      reps := reps[r := rep.(at := key.at, timerid := key)];
      timers := Put(timers, Entry(key, Again(r)));
      RefreshNearest(clock);
    }

    /** Pops the first timer; a repeating one is rearmed before its callback. */
    method FireFirst(clock: int) returns (e: Entry)
      requires Ready(View())
      modifies this
      ensures e == old(timers[0]) && (e.task.Again? ==> e.task.rep in old(reps))
      ensures View() == Expired(old(View()), clock)
    {
      ExpiredTables(View(), clock);
      e := timers[0];
      timers := timers[1..];
      if e.task.Again? {
        Rearm(e.task.rep, clock);
      }
    }

    /** A callback: the steps that keep the caller's obligations, one by one. */
    method RunCallback(ops: seq<Op>, ghost p: Pass)
      requires Inv(View()) && p.s == View()
      modifies this
      ensures Inv(View()) && View() == Play(p, ops).s
    {
      ghost var q := p;
      var i := 0;
      assert ops[0..] == ops;
      while i < |ops|
        invariant 0 <= i <= |ops| && Inv(View()) && q.s == View()
        invariant Play(q, ops[i..]) == Play(p, ops)
      {
        var op := ops[i];
        assert ops[i..][1..] == ops[i + 1..];
        q := Act(q, op);
        if LegalFor(timers, reps, op) {
          ApplyKeepsInv(View(), op);
          match op {
            case DoRunAt(milli, tag, interval, clock) => var _ := Schedule(milli, tag, interval, clock);
            case DoCancel(id) => var _ := CancelTimer(id);
            case DoExit => Exit();
          }
        }
        i := i + 1;
      }
    }

    method HandleTimeoutsLoop(now: int, script: Script, clock: Clock, last: int) returns (log: seq<Entry>)
      requires Inv(View()) && TameScript(script, now)
      modifies this
      ensures var p := HandleTimeouts(old(View()), now, script, clock);
              log == p.log && View() == Refreshed(p.s, last)
    {
      log := [];
      ghost var p := Begin(View());
      while timers != [] && Less(timers[0].key, TimerId(now, TWO_62))
        invariant Inv(View()) && p.s == View() && p.log == log
        invariant Complete(p, now, script, clock) == HandleTimeouts(old(View()), now, script, clock)
        decreases LoadOf(View(), now)
      {
        IterateLowersLoad(p, now, script, clock);
        ExpiredKeepsInv(View(), clock(|log|));
        ghost var q := AfterFiring(p, clock(|log|));
        p := Iterate(p, script, clock);
        var e := FireFirst(clock(|log|));
        log := log + [e];
        RunCallback(script(log), q);
      }
      RefreshNearest(last);
    }
  }
}
