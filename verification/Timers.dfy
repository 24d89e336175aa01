/** The timer engine of EventsImp (src/common/handy/event_base.cc): one-shot and
    repeating timers, cancellation, and the poll wait computed from them. */
module Timers {
  import opened Ints
  import opened TimerTable

  datatype Rep = Rep(at: int, interval: int, timerid: TimerId, tag: nat)

  /** `refreshed` is the clock reading that the current `nextTimeout` was computed
      from; the program does not keep it. */
  datatype Engine = Engine(
    timers: seq<Entry>,
    reps: map<TimerId, Rep>,
    seqno: nat,
    nextTimeout: int,
    refreshed: int,
    exit: bool
  )

  const START := Engine([], map[], 0, 0x4000_0000, 0, false)

  // ----------------------------------------------------------------- operations

  function Refreshed(s: Engine, clock: int): Engine {
    var wait :=
      if s.timers == [] then 0x4000_0000
      else var d := ToInt32(s.timers[0].key.at - clock); if d < 0 then 0 else d;
    s.(nextTimeout := wait, refreshed := clock)
  }

  /** `runAt`: the engine afterwards and the id handed to the caller. */
  function RunAt(s: Engine, milli: int, tag: nat, interval: int, clock: int): (Engine, TimerId) {
    if s.exit then (s, TimerId(0, 0))
    else if interval != 0 then
      var id, key := TimerId(-milli, s.seqno + 1), TimerId(milli, s.seqno + 2);
      var t := s.(timers := Put(s.timers, Entry(key, Again(id))),
                  reps := s.reps[id := Rep(milli, interval, key, tag)],
                  seqno := s.seqno + 2);
      (Refreshed(t, clock), id)
    else
      var id := TimerId(milli, s.seqno + 1);
      var t := s.(timers := Put(s.timers, Entry(id, Once(tag))), seqno := s.seqno + 1);
      (Refreshed(t, clock), id)
  }

  /** `cancel`. A negative id is looked up among the repeating records without a
      check, so it must be a live one. */
  function Cancel(s: Engine, id: TimerId): (Engine, bool)
    requires id.at < 0 ==> id in s.reps
  {
    if id.at < 0 then
      (s.(timers := Without(s.timers, s.reps[id].timerid), reps := s.reps - {id}), true)
    else if Has(s.timers, id) then (s.(timers := Without(s.timers, id)), true)
    else (s, false)
  }

  /** The part of `repeatableTimeout` before the callback. */
  function Rearmed(s: Engine, r: TimerId, clock: int): Engine
    requires r in s.reps
  {
    var rep := s.reps[r];
    var key := TimerId(rep.at + rep.interval, s.seqno + 1);
    var t := s.(timers := Put(s.timers, Entry(key, Again(r))),
                reps := s.reps[r := rep.(at := key.at, timerid := key)],
                seqno := s.seqno + 1);
    Refreshed(t, clock)
  }

  /** One iteration of handleTimeouts up to the user's callback. */
  function Expired(s: Engine, clock: int): Engine
    requires s.timers != []
    requires s.timers[0].task.Again? ==> s.timers[0].task.rep in s.reps
  {
    var e := s.timers[0];
    var t := s.(timers := s.timers[1..]);
    if e.task.Once? then t else Rearmed(t, e.task.rep, clock)
  }

  // -------------------------------------------------------------------- invariant

  /** Keys are sorted and never collide; rearm entries and live repeating records
      point at each other; ids of the two kinds differ in sign. */
  ghost predicate Inv(s: Engine) {
    && Sorted(s.timers)
    && KeysBounded(s.timers, s.seqno)
    && RearmsLive(s.timers, s.reps)
    && RepsArmed(s.timers, s.reps, s.seqno)
  }

  predicate KeysBounded(timers: seq<Entry>, seqno: nat) {
    forall e | e in timers :: 0 < e.key.at && e.key.seqno <= seqno
  }

  predicate RearmsLive(timers: seq<Entry>, reps: map<TimerId, Rep>) {
    forall e | e in timers && e.task.Again? ::
      e.task.rep in reps && reps[e.task.rep].timerid == e.key
  }

  predicate RepsArmed(timers: seq<Entry>, reps: map<TimerId, Rep>, seqno: nat) {
    forall r | r in reps ::
      && r.at < 0 && r.seqno <= seqno
      && reps[r].interval > 0 && reps[r].timerid.at == reps[r].at
      && Entry(reps[r].timerid, Again(r)) in timers
  }

  datatype Op =
    | DoRunAt(milli: int, tag: nat, interval: int, clock: int)
    | DoCancel(id: TimerId)
    | DoExit

  /** What callers owe: positive deadlines, no negative interval, repeating ids only
      while live, and no id that runAt never handed out. */
  predicate Legal(s: Engine, op: Op) {
    LegalFor(s.timers, s.reps, op)
  }

  predicate LegalFor(timers: seq<Entry>, reps: map<TimerId, Rep>, op: Op) {
    match op
    case DoRunAt(milli, _, interval, _) => milli > 0 && interval >= 0
    case DoCancel(id) =>
      if id.at < 0 then id in reps
      else forall e | e in timers && e.key == id :: e.task.Once?
    case DoExit => true
  }

  function Apply(s: Engine, op: Op): Engine
    requires Legal(s, op)
  {
    match op
    case DoRunAt(milli, tag, interval, clock) => RunAt(s, milli, tag, interval, clock).0
    case DoCancel(id) => Cancel(s, id).0
    case DoExit => s.(exit := true)
  }

  lemma FreshKey(s: Engine, k: TimerId)
    requires Inv(s) && k.seqno > s.seqno
    ensures !Has(s.timers, k)
  {
  }

  /** The entry that a scheduling operation adds. */
  function Added(s: Engine, op: Op): Entry
    requires op.DoRunAt?
  {
    if op.interval != 0 then Entry(TimerId(op.milli, s.seqno + 2), Again(TimerId(-op.milli, s.seqno + 1)))
    else Entry(TimerId(op.milli, s.seqno + 1), Once(op.tag))
  }

  /** Scheduling: how the tables change. */
  lemma RunAtTables(s: Engine, op: Op)
    requires Inv(s) && op.DoRunAt? && Legal(s, op) && !s.exit
    ensures var e, t := Added(s, op), Apply(s, op);
            && t.timers == Put(s.timers, e) && !Has(s.timers, e.key)
            && Sorted(t.timers)
            && (forall x :: x in t.timers <==> x in s.timers || x == e)
    ensures var t := Apply(s, op);
            if op.interval != 0 then
              && t.reps == s.reps[TimerId(-op.milli, s.seqno + 1) := Rep(op.milli, op.interval, Added(s, op).key, op.tag)]
              && t.seqno == s.seqno + 2
            else t.reps == s.reps && t.seqno == s.seqno + 1
  {
    FreshKey(s, Added(s, op).key);
    PutIsInsertion(s.timers, Added(s, op));
  }

  /** Scheduling leaves the records of ids handed out before alone. */
  lemma RunAtReps(s: Engine, op: Op, r: TimerId)
    requires op.DoRunAt? && Legal(s, op) && r.seqno <= s.seqno
    ensures var t := Apply(s, op);
            (r in t.reps <==> r in s.reps) && (r in s.reps ==> t.reps[r] == s.reps[r])
  {
  }

  lemma RunAtKeepsLive(s: Engine, op: Op)
    requires Inv(s) && op.DoRunAt? && Legal(s, op) && !s.exit
    ensures RearmsLive(Apply(s, op).timers, Apply(s, op).reps)
  {
    RunAtTables(s, op);
    var e, t := Added(s, op), Apply(s, op);
    forall x | x in t.timers && x.task.Again?
      ensures x.task.rep in t.reps && t.reps[x.task.rep].timerid == x.key
    {
      if x != e {
        assert x in s.timers;
        RunAtReps(s, op, x.task.rep);
      }
    }
  }

  lemma RunAtKeepsArmed(s: Engine, op: Op)
    requires Inv(s) && op.DoRunAt? && Legal(s, op) && !s.exit
    ensures RepsArmed(Apply(s, op).timers, Apply(s, op).reps, Apply(s, op).seqno)
  {
    RunAtTables(s, op);
    var e, t := Added(s, op), Apply(s, op);
    assert e in t.timers;
  }

  lemma RunAtKeepsInv(s: Engine, op: Op)
    requires Inv(s) && op.DoRunAt? && Legal(s, op)
    ensures Inv(Apply(s, op))
  {
    if !s.exit {
      RunAtTables(s, op);
      RunAtKeepsLive(s, op);
      RunAtKeepsArmed(s, op);
    }
  }

  lemma {:induction false} WithoutPut(ts: seq<Entry>, e: Entry)
    requires !Has(ts, e.key)
    ensures Without(Put(ts, e), e.key) == ts
  {
    if ts == [] || Less(e.key, ts[0].key) {
      assert ([e] + ts)[1..] == ts;
    } else {
      assert ts[0] in ts && forall x | x in ts[1..] :: x in ts;
      WithoutPut(ts[1..], e);
      assert Put(ts, e)[1..] == Put(ts[1..], e);
    }
  }

  /** The id that runAt hands out is the handle of what it scheduled: it was not in use,
      its sign tells the kind, cancelling it is allowed, succeeds, and takes back
      exactly what was scheduled. */
  lemma RunAtHandle(s: Engine, milli: int, tag: nat, interval: int, clock: int)
    requires Inv(s) && !s.exit && milli > 0 && interval >= 0
    ensures var (t, id) := RunAt(s, milli, tag, interval, clock);
            && id !in s.reps && !Has(s.timers, id)
            && (id.at < 0 <==> interval != 0) && id.seqno > s.seqno
            && Legal(t, DoCancel(id)) && Cancel(t, id).1
            && Cancel(t, id).0.timers == s.timers && Cancel(t, id).0.reps == s.reps
  {
    if interval != 0 {
      HandleOfRepeating(s, milli, tag, interval, clock);
    } else {
      HandleOfOnce(s, milli, tag, clock);
    }
  }

  lemma HandleOfRepeating(s: Engine, milli: int, tag: nat, interval: int, clock: int)
    requires Inv(s) && !s.exit && milli > 0 && interval > 0
    ensures var (t, id) := RunAt(s, milli, tag, interval, clock);
            && id !in s.reps && !Has(s.timers, id) && id.at < 0 && id.seqno > s.seqno && id in t.reps
            && Cancel(t, id).0.timers == s.timers && Cancel(t, id).0.reps == s.reps
  {
    var e := Added(s, DoRunAt(milli, tag, interval, clock));
    var (t, id) := RunAt(s, milli, tag, interval, clock);
    FreshKey(s, e.key);
    FreshKey(s, id);
    WithoutPut(s.timers, e);
    assert id !in s.reps;
    assert t.reps - {id} == s.reps;
  }

  lemma HandleOfOnce(s: Engine, milli: int, tag: nat, clock: int)
    requires Inv(s) && !s.exit && milli > 0
    ensures var (t, id) := RunAt(s, milli, tag, 0, clock);
            && id !in s.reps && !Has(s.timers, id) && id.at > 0 && id.seqno > s.seqno && Has(t.timers, id)
            && Legal(t, DoCancel(id))
            && Cancel(t, id).0.timers == s.timers && Cancel(t, id).0.reps == s.reps
  {
    var op := DoRunAt(milli, tag, 0, clock);
    var e := Added(s, op);
    var (t, id) := RunAt(s, milli, tag, 0, clock);
    RunAtTables(s, op);
    FreshKey(s, id);
    WithoutPut(s.timers, e);
    assert e in t.timers && e.key == id;
    forall x | x in t.timers && x.key == id
      ensures x.task.Once?
    {
      KeysAreUnique(t.timers, x, e);
    }
  }

  /** After exit nothing is scheduled, and the id handed out names nothing: cancelling
      it is allowed, fails and changes nothing. */
  lemma RunAtAfterExit(s: Engine, milli: int, tag: nat, interval: int, clock: int)
    requires Inv(s) && s.exit
    ensures var (t, id) := RunAt(s, milli, tag, interval, clock);
            && t == s && Legal(t, DoCancel(id)) && Cancel(t, id) == (t, false)
  {
  }

  /** Cancelling leaves the planned wait alone: the loop may wake for nothing, but not
      late. */
  lemma CancelKeepsWait(s: Engine, id: TimerId)
    requires id.at < 0 ==> id in s.reps
    ensures var t := Cancel(s, id).0;
            t.nextTimeout == s.nextTimeout && t.refreshed == s.refreshed && t.seqno == s.seqno && t.exit == s.exit
  {
  }

  lemma CancelKeepsInv(s: Engine, id: TimerId)
    requires Inv(s) && Legal(s, DoCancel(id))
    ensures Inv(Cancel(s, id).0)
  {
    var k := if id.at < 0 then s.reps[id].timerid else id;
    WithoutIsRemoval(s.timers, k);
    forall e | e in s.timers && e.key == k
      ensures e.task == if id.at < 0 then Again(id) else e.task
    {
      if id.at < 0 {
        KeysAreUnique(s.timers, e, Entry(k, Again(id)));
      }
    }
  }

  lemma ApplyKeepsInv(s: Engine, op: Op)
    requires Inv(s) && Legal(s, op)
    ensures Inv(Apply(s, op))
  {
    match op
    case DoRunAt(_, _, _, _) => RunAtKeepsInv(s, op);
    case DoCancel(id) => CancelKeepsInv(s, id);
    case DoExit =>
  }

  /** The entry that rearms `r`. */
  function Next(s: Engine, r: TimerId): Entry
    requires r in s.reps
  {
    Entry(TimerId(s.reps[r].at + s.reps[r].interval, s.seqno + 1), Again(r))
  }

  /** Firing: how the tables change. */
  lemma ExpiredTables(s: Engine, clock: int)
    requires Inv(s) && s.timers != []
    ensures s.timers[0].task.Again? ==> s.timers[0].task.rep in s.reps
    ensures s.timers[0].task.Once? ==>
              var t := Expired(s, clock);
              t.timers == s.timers[1..] && t.reps == s.reps && t.seqno == s.seqno
    ensures s.timers[0].task.Again? ==>
              var r, t := s.timers[0].task.rep, Expired(s, clock);
              var e := Next(s, r);
              && t.timers == Put(s.timers[1..], e) && !Has(s.timers[1..], e.key)
              && Sorted(t.timers)
              && (forall x :: x in t.timers <==> x in s.timers[1..] || x == e)
              && t.reps == s.reps[r := s.reps[r].(at := e.key.at, timerid := e.key)]
              && t.seqno == s.seqno + 1
  {
    SortedTail(s.timers);
    assert s.timers[0] in s.timers;
    if s.timers[0].task.Again? {
      var e := Next(s, s.timers[0].task.rep);
      FreshKey(s, e.key);
      PutIsInsertion(s.timers[1..], e);
    }
  }

  lemma ExpiredKeepsInv(s: Engine, clock: int)
    requires Inv(s) && s.timers != []
    ensures s.timers[0].task.Again? ==> s.timers[0].task.rep in s.reps
    ensures Inv(Expired(s, clock))
  {
    ExpiredTables(s, clock);
    SortedTail(s.timers);
  }

  // ------------------------------------------------------------------------- runs

  /** A step of the loop thread: an operation (from anywhere, including a callback),
      the first timer firing, or, once exit was called, the end of the loop, which
      clears both tables. */
  datatype Event = Do(op: Op) | Expire(clock: int) | Clear

  predicate Enabled(s: Engine, ev: Event) {
    match ev
    case Do(op) => Legal(s, op)
    case Expire(_) => s.timers != [] && (s.timers[0].task.Again? ==> s.timers[0].task.rep in s.reps)
    case Clear => s.exit
  }

  function Step(s: Engine, ev: Event): Engine
    requires Enabled(s, ev)
  {
    match ev
    case Do(op) => Apply(s, op)
    case Expire(clock) => Expired(s, clock)
    case Clear => s.(timers := [], reps := map[])
  }

  predicate Valid(s: Engine, evs: seq<Event>)
    decreases |evs|
  {
    evs != [] ==> Enabled(s, evs[0]) && Valid(Step(s, evs[0]), evs[1..])
  }

  function Run(s: Engine, evs: seq<Event>): Engine
    requires Valid(s, evs)
    decreases |evs|
  {
    if evs == [] then s else Run(Step(s, evs[0]), evs[1..])
  }

  /** The entries fired during a run, in order. */
  function Fired(s: Engine, evs: seq<Event>): seq<Entry>
    requires Valid(s, evs)
    decreases |evs|
  {
    if evs == [] then [] else
      (if evs[0].Expire? then [s.timers[0]] else []) + Fired(Step(s, evs[0]), evs[1..])
  }

  lemma StepKeepsInv(s: Engine, ev: Event)
    requires Inv(s) && Enabled(s, ev)
    ensures Inv(Step(s, ev)) && s.seqno <= Step(s, ev).seqno
  {
    match ev
    case Do(op) => ApplyKeepsInv(s, op);
    case Expire(clock) => ExpiredKeepsInv(s, clock);
    case Clear =>
  }

  /** The tables stay consistent over every run. */
  lemma {:induction false} RunKeepsInv(s: Engine, evs: seq<Event>)
    requires Inv(s) && Valid(s, evs)
    ensures Inv(Run(s, evs))
    decreases |evs|
  {
    if evs != [] {
      StepKeepsInv(s, evs[0]);
      RunKeepsInv(Step(s, evs[0]), evs[1..]);
    }
  }

  /** A repeating id that has been handed out and is not live. */
  predicate Dead(s: Engine, r: TimerId) {
    r.at < 0 && r.seqno <= s.seqno && r !in s.reps
  }

  lemma DeadStaysDead(s: Engine, ev: Event, r: TimerId)
    requires Inv(s) && Enabled(s, ev) && Dead(s, r)
    ensures Dead(Step(s, ev), r)
  {
    if ev.Expire? {
      ExpiredTables(s, ev.clock);
    }
  }

  /** A cancelled repeating timer never fires again, even if its own callback
      cancelled it: no later firing in any run belongs to it. */
  lemma {:induction false} CancelledNeverFires(s: Engine, r: TimerId, evs: seq<Event>)
    requires Inv(s) && Dead(s, r) && Valid(s, evs)
    ensures forall e | e in Fired(s, evs) :: e.task != Again(r)
    decreases |evs|
  {
    if evs != [] {
      StepKeepsInv(s, evs[0]);
      DeadStaysDead(s, evs[0], r);
      CancelledNeverFires(Step(s, evs[0]), r, evs[1..]);
      if evs[0].Expire? {
        assert s.timers[0] in s.timers;
      }
    }
  }

  lemma CancelKills(s: Engine, r: TimerId)
    requires Inv(s) && r.at < 0 && r in s.reps
    ensures Dead(Cancel(s, r).0, r) && Cancel(s, r).1
  {
  }

  predicate Mentions(evs: seq<Event>, id: TimerId) {
    Do(DoCancel(id)) in evs
  }

  /** No rearm entry carries the key `k`. */
  predicate OnceOnly(s: Engine, k: TimerId) {
    forall e | e in s.timers && e.key == k :: e.task.Once?
  }

  lemma PendingExpire(s: Engine, clock: int, k: TimerId)
    requires Inv(s) && s.timers != [] && k.seqno <= s.seqno && OnceOnly(s, k)
    ensures s.timers[0].task.Again? ==> s.timers[0].task.rep in s.reps
    ensures OnceOnly(Expired(s, clock), k)
    ensures Has(Expired(s, clock).timers, k) <==> Has(s.timers, k) && s.timers[0].key != k
  {
    ExpiredTables(s, clock);
    SortedTail(s.timers);
    assert s.timers[0] in s.timers;
  }

  lemma PendingRunAt(s: Engine, op: Op, k: TimerId)
    requires Inv(s) && op.DoRunAt? && Legal(s, op) && k.seqno <= s.seqno && OnceOnly(s, k)
    ensures OnceOnly(Apply(s, op), k)
    ensures Has(Apply(s, op).timers, k) <==> Has(s.timers, k)
  {
    if !s.exit {
      RunAtTables(s, op);
      PutHas(s.timers, Added(s, op), k);
    }
  }

  lemma PendingCancel(s: Engine, id: TimerId, k: TimerId)
    requires Inv(s) && Legal(s, DoCancel(id)) && 0 < k.at && OnceOnly(s, k)
    ensures OnceOnly(Cancel(s, id).0, k)
    ensures Has(Cancel(s, id).0.timers, k) <==> Has(s.timers, k) && id != k
  {
    var g := if id.at < 0 then s.reps[id].timerid else id;
    WithoutIsRemoval(s.timers, g);
    if id.at < 0 {
      assert Entry(g, Again(id)) in s.timers;
    }
  }

  lemma PendingStep(s: Engine, ev: Event, k: TimerId)
    requires Inv(s) && Enabled(s, ev) && 0 < k.at && k.seqno <= s.seqno && OnceOnly(s, k)
    ensures OnceOnly(Step(s, ev), k)
    ensures Has(Step(s, ev).timers, k) <==>
            Has(s.timers, k) && ev != Do(DoCancel(k)) && ev != Clear && !(ev.Expire? && s.timers[0].key == k)
  {
    match ev
    case Expire(clock) => PendingExpire(s, clock, k);
    case Clear =>
    case Do(op) =>
      match op
      case DoRunAt(_, _, _, _) => PendingRunAt(s, op, k);
      case DoCancel(id) => PendingCancel(s, id, k);
      case DoExit =>
  }

  lemma PutHas(ts: seq<Entry>, e: Entry, k: TimerId)
    requires Sorted(ts) && !Has(ts, e.key)
    ensures Has(Put(ts, e), k) <==> Has(ts, k) || e.key == k
  {
    PutIsInsertion(ts, e);
    if Has(ts, k) {
      var x :| x in ts && x.key == k;
      assert x in Put(ts, e);
    }
    if e.key == k {
      assert e in Put(ts, e);
    }
  }

  /** A one-shot is pending exactly as long as it has neither fired nor been cancelled
      and the loop has not ended; this is what cancel's result reports. */
  lemma {:induction false} PendingUntilFiredOrCancelled(s: Engine, k: TimerId, evs: seq<Event>)
    requires Inv(s) && Valid(s, evs) && 0 < k.at && k.seqno <= s.seqno
    requires OnceOnly(s, k)
    ensures Cancelled(Run(s, evs), k) <==>
            && Has(s.timers, k) && !Mentions(evs, k) && Clear !in evs
            && (forall e | e in Fired(s, evs) :: e.key != k)
    decreases |evs|
  {
    if evs != [] {
      var t := Step(s, evs[0]);
      PendingStep(s, evs[0], k);
      StepKeepsInv(s, evs[0]);
      PendingUntilFiredOrCancelled(t, k, evs[1..]);
      assert evs == [evs[0]] + evs[1..];
    }
  }

  /** The result cancel would give now for a one-shot id. */
  predicate Cancelled(s: Engine, k: TimerId)
    requires 0 < k.at
  {
    Cancel(s, k).1
  }

  /** Exit is for good: from then on no call schedules anything. */
  lemma {:induction false} ExitIsFinal(s: Engine, evs: seq<Event>)
    requires Inv(s) && Valid(s, evs) && (s.exit || Do(DoExit) in evs)
    ensures Run(s, evs).exit
    ensures forall milli, tag, interval, clock ::
              RunAt(Run(s, evs), milli, tag, interval, clock).0 == Run(s, evs)
    decreases |evs|
  {
    if evs != [] {
      assert evs == [evs[0]] + evs[1..];
      StepKeepsInv(s, evs[0]);
      ExitIsFinal(Step(s, evs[0]), evs[1..]);
    }
  }

  /** After the loop has ended nothing is scheduled and nothing fires any more. */
  lemma {:induction false} NothingAfterTheEnd(s: Engine, evs: seq<Event>)
    requires s.exit && s.timers == [] && s.reps == map[] && Valid(s, evs)
    ensures Fired(s, evs) == [] && Run(s, evs).timers == [] && Run(s, evs).reps == map[] && Run(s, evs).exit
    decreases |evs|
  {
    if evs != [] {
      NothingAfterTheEnd(Step(s, evs[0]), evs[1..]);
    }
  }

  // ----------------------------------------------------------- the poll never oversleeps

  /** Waiting `nextTimeout` from the last refresh ends no later than the earliest
      deadline, unless that has passed already. */
  predicate OnTime(s: Engine) {
    s.timers != [] ==>
      s.refreshed + s.nextTimeout <= var d := s.timers[0].key.at; if d < s.refreshed then s.refreshed else d
  }

  /** `loop_once`: what the poller is told to wait. */
  function PollWait(s: Engine, waitMs: int): int { if waitMs < s.nextTimeout then waitMs else s.nextTimeout }

  /** With nothing pending the loop waits as long as it was told to; otherwise, unless the
      gap leaves 32 bits, until exactly the earliest deadline, or not at all if that
      has passed. The wait is never negative, which would mean for ever. */
  lemma PollWaitIs(s: Engine, clock: int, waitMs: int)
    requires 0 <= waitMs <= 10000
    ensures var t := Refreshed(s, clock);
            && t.refreshed == clock && t.timers == s.timers && t.reps == s.reps
            && 0 <= PollWait(t, waitMs) <= waitMs
            && (s.timers == [] ==> PollWait(t, waitMs) == waitMs)
            && (s.timers != [] && -TWO_31 <= s.timers[0].key.at - clock < TWO_31 ==>
                  var gap := s.timers[0].key.at - clock;
                  PollWait(t, waitMs) == if gap < 0 then 0 else if gap < waitMs then gap else waitMs)
  {
  }

  /** Steps that put an entry into the table: scheduling, and rearming a repeating timer. */
  predicate Puts(s: Engine, ev: Event)
    requires Enabled(s, ev)
  {
    match ev
    case Do(op) => op.DoRunAt? && !s.exit
    case Expire(_) => s.timers[0].task.Again?
    case Clear => false
  }

  /** Whatever puts an entry in plans the wait anew, for the earliest deadline there is
      then; the other steps leave the plan alone. */
  lemma WaitIsPlannedAnew(s: Engine, ev: Event, waitMs: int)
    requires Inv(s) && Enabled(s, ev) && 0 <= waitMs <= 10000
    ensures !Puts(s, ev) ==> Step(s, ev).nextTimeout == s.nextTimeout && Step(s, ev).refreshed == s.refreshed
    ensures Puts(s, ev) ==>
              var t, clock := Step(s, ev), if ev.Do? then ev.op.clock else ev.clock;
              && t.refreshed == clock && t.timers != []
              && (var gap := t.timers[0].key.at - clock;
                  -TWO_31 <= gap < TWO_31 ==>
                    PollWait(t, waitMs) == if gap < 0 then 0 else if gap < waitMs then gap else waitMs)
  {
    match ev
    case Do(op) =>
      if op.DoRunAt? && !s.exit {
        RunAtTables(s, op);
        assert Added(s, op) in Step(s, ev).timers;
        PollWaitIs(Step(s, ev), op.clock, waitMs);
      }
    case Expire(clock) =>
      if s.timers[0].task.Again? {
        ExpiredTables(s, clock);
        PollWaitIs(Step(s, ev), clock, waitMs);
      }
    case Clear =>
  }

  /** The 32-bit wait is right exactly when the earliest deadline is not so far in
      the past that the difference wraps to a positive number; deadlines in the
      future, however far, never make the loop oversleep. */
  lemma RefreshIsOnTimeIff(s: Engine, clock: int)
    requires s.timers != []
    ensures OnTime(Refreshed(s, clock)) <==>
            var gap := s.timers[0].key.at - clock; gap >= -TWO_31 || ToInt32(gap) <= 0
  {
  }

  /** A timer set for a moment almost 2^32 ms past, whatever the time: the loop plans to
      sleep five seconds over it. */
  lemma RefreshCanOversleep(clock: int)
    requires clock > TWO_32
    ensures var s := RunAt(START, clock - TWO_32 + 5000, 0, 0, clock).0;
            Inv(s) && s.nextTimeout == 5000 && !OnTime(s)
  {
    var s := RunAt(START, clock - TWO_32 + 5000, 0, 0, clock).0;
    ApplyKeepsInv(START, DoRunAt(clock - TWO_32 + 5000, 0, 0, clock));
  }

  predicate Recent(s: Engine, clock: int) {
    s.timers == [] || s.timers[0].key.at - clock >= -TWO_31
  }

  /** Every refresh of the run happens within 2^31 ms of the earliest deadline. */
  predicate Timely(s: Engine, evs: seq<Event>)
    requires Valid(s, evs)
    decreases |evs|
  {
    evs != [] ==>
      var t := Step(s, evs[0]);
      Recent(t, t.refreshed) && Timely(t, evs[1..])
  }

  lemma StepIsOnTime(s: Engine, ev: Event)
    requires Inv(s) && Enabled(s, ev) && OnTime(s)
    requires Recent(Step(s, ev), Step(s, ev).refreshed)
    ensures OnTime(Step(s, ev))
  {
    match ev
    case Expire(clock) => ExpiredTables(s, clock);
    case Clear =>
    case Do(op) =>
      match op
      case DoRunAt(_, _, _, _) =>
      case DoCancel(id) => CancelIsOnTime(s, id);
      case DoExit =>
  }

  lemma CancelIsOnTime(s: Engine, id: TimerId)
    requires Inv(s) && Legal(s, DoCancel(id)) && OnTime(s)
    ensures OnTime(Cancel(s, id).0)
  {
    var k := if id.at < 0 then s.reps[id].timerid else id;
    WithoutIsRemoval(s.timers, k);
    var t := Cancel(s, id).0;
    if t.timers != [] {
      assert t.timers[0] in t.timers && t.timers[0] in s.timers;
    }
  }

  /** Through every run of scheduling, cancelling, firing and rearming, the planned
      poll never sleeps past the earliest pending deadline. */
  lemma {:induction false} NeverOversleeps(s: Engine, evs: seq<Event>)
    requires Inv(s) && OnTime(s) && Valid(s, evs) && Timely(s, evs)
    ensures OnTime(Run(s, evs))
    decreases |evs|
  {
    if evs != [] {
      StepIsOnTime(s, evs[0]);
      StepKeepsInv(s, evs[0]);
      NeverOversleeps(Step(s, evs[0]), evs[1..]);
    }
  }
}
