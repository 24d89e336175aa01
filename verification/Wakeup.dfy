/** The cross-thread call protocol of EventsImp: push a task, then write a byte to
    the wakeup pipe; the loop thread reads bytes, then pops until the queue is empty
    (src/common/handy/event_base.cc:65-73, 110-120 and 131-146). */
module Wakeup {

  /** Where the loop thread is. One pass waits in the poller, dispatches what was
      reported, runs due timers, and ends. `hit` says that the wakeup channel was
      reported and its turn is still to come. A callback or task that called
      safeCall, exit or wakeup on its own loop has a byte to write. */
  datatype Loop =
    | Waiting
    | Between(hit: bool)
    | Callback(hit: bool, mustWrite: bool)    // an I/O or timer callback
    | Draining
    | InTask(task: nat, mustWrite: bool)
    | Stopped                                 // loop() has returned

  datatype State = State(
    queue: seq<nat>,     // accepted tasks, numbered in order of acceptance
    capacity: nat,
    bytes: nat,          // bytes in the pipe
    room: nat,           // what the pipe can hold before a write blocks
    writers: nat,        // other threads between their push or flag and their write
    loop: Loop,
    exit: bool,
    last: bool,          // the loop has seen the flag and makes its final pass
    accepted: nat,
    executed: seq<nat>
  )

  /** What a thread asks of the loop before it writes its byte. */
  datatype Request = SafeCall | Exit | Poke

  datatype Event =
    | Call(req: Request)        // by another thread
    | Write                     // by another thread
    | Report(hit: bool)         // the poller returns
    | Enter                     // an I/O or timer callback starts
    | OwnCall(req: Request)     // by the callback or task the loop thread is in
    | OwnWrite
    | Leave                     // that callback or task ends
    | Read(n: nat)
    | ReadInterrupted
    | PopTask
    | PopFails
    | PassEnds

  predicate Busy(loop: Loop) { loop.Callback? || loop.InTask? }

  predicate MustWrite(loop: Loop) { Busy(loop) && loop.mustWrite }

  predicate Enabled(s: State, ev: Event) {
    match ev
    case Call(_) => true
    case Write => s.writers > 0 && s.bytes < s.room
    case Report(hit) => s.loop.Waiting? && (hit ==> s.bytes > 0)
    case Enter => s.loop.Between?
    case OwnCall(_) => Busy(s.loop) && !s.loop.mustWrite
    case OwnWrite => MustWrite(s.loop) && s.bytes < s.room
    case Leave => Busy(s.loop) && !s.loop.mustWrite
    case Read(n) => s.loop == Between(true) && 1 <= n <= s.bytes && n <= 1024
    case ReadInterrupted => s.loop == Between(true)
    case PopTask => s.loop.Draining? && s.queue != []
    case PopFails => s.loop.Draining? && s.queue == []
    case PassEnds => s.loop == Between(false)
  }

  /** A full queue drops the task, and the byte is written anyway. */
  function Asked(s: State, req: Request): State {
    match req
    case SafeCall =>
      if s.capacity != 0 && |s.queue| >= s.capacity then s
      else s.(queue := s.queue + [s.accepted], accepted := s.accepted + 1)
    case Exit => s.(exit := true)
    case Poke => s
  }

  function Step(s: State, ev: Event): State
    requires Enabled(s, ev)
  {
    match ev
    case Call(req) => Asked(s, req).(writers := s.writers + 1)
    case Write => s.(bytes := s.bytes + 1, writers := s.writers - 1)
    case Report(hit) => s.(loop := Between(hit))
    case Enter => s.(loop := Callback(s.loop.hit, false))
    case OwnCall(req) => Asked(s, req).(loop := s.loop.(mustWrite := true))
    case OwnWrite => s.(bytes := s.bytes + 1, loop := s.loop.(mustWrite := false))
    case Leave =>
      if s.loop.Callback? then s.(loop := Between(s.loop.hit))
      else s.(executed := s.executed + [s.loop.task], loop := Draining)
    case Read(n) => s.(bytes := s.bytes - n, loop := Draining)
    case ReadInterrupted => s.(loop := Between(false))
    case PopTask => s.(queue := s.queue[1..], loop := InTask(s.queue[0], false))
    case PopFails => s.(loop := Between(false))
    case PassEnds => if s.last then s.(loop := Stopped) else s.(loop := Waiting, last := s.exit)
  }

  function Init(capacity: nat, room: nat): State {
    State([], capacity, 0, room, 0, Waiting, false, false, 0, [])
  }

  function UpTo(lo: nat, hi: nat): (s: seq<nat>)
    requires lo <= hi
    ensures |s| == hi - lo && forall i | 0 <= i < hi - lo :: s[i] == lo + i
  {
    seq(hi - lo, i requires 0 <= i => lo + i)
  }

  predicate DrainsNow(loop: Loop) { loop.Draining? || loop.InTask? }

  /** A queued task always has something coming that makes the loop look. */
  predicate NotStranded(s: State) {
    s.queue != [] ==> s.bytes > 0 || s.writers > 0 || MustWrite(s.loop) || DrainsNow(s.loop)
  }

  function Current(s: State): seq<nat> {
    if s.loop.InTask? then [s.loop.task] else []
  }

  /** Tasks run in order of acceptance, each once: done, then the one running, then
      the queued ones are exactly 0, 1, 2, ... */
  predicate InOrder(s: State) {
    s.executed + Current(s) + s.queue == UpTo(0, s.accepted)
  }

  /** A reported pipe stays readable, because only the loop thread reads it. */
  predicate HitIsReadable(s: State) {
    (s.loop.Between? || s.loop.Callback?) && s.loop.hit ==> s.bytes > 0
  }

  predicate WithinCapacity(s: State) { s.capacity != 0 ==> |s.queue| <= s.capacity }

  predicate Inv(s: State) {
    NotStranded(s) && InOrder(s) && HitIsReadable(s) && WithinCapacity(s) && s.bytes <= s.room
  }

  /** A safeCall is accepted if and only if the queue has room for it. */
  lemma AcceptedIff(s: State)
    requires Inv(s)
    ensures var r := Asked(s, SafeCall);
            && (r.accepted == s.accepted + 1 <==> s.capacity == 0 || |s.queue| < s.capacity)
            && (r.accepted == s.accepted + 1 ==> r.queue == s.queue + [s.accepted])
            && (r.accepted != s.accepted + 1 ==> r == s)
  {
  }

  /** An interrupted read runs nothing and loses nothing: the next pass can report the
      pipe again. */
  lemma InterruptedReadWaits(s: State)
    requires Inv(s) && Enabled(s, ReadInterrupted)
    ensures var r := Step(s, ReadInterrupted);
            && r.queue == s.queue && r.executed == s.executed && r.bytes == s.bytes
            && !Enabled(r, PopTask) && Enabled(r, PassEnds)
            && (!s.last ==> Enabled(Step(r, PassEnds), Report(true)))
  {
  }

  lemma AskedInOrder(s: State, req: Request)
    requires InOrder(s)
    ensures InOrder(Asked(s, req))
  {
    var n := s.accepted;
    assert UpTo(0, n + 1) == UpTo(0, n) + [n];
    assert s.executed + Current(s) + (s.queue + [n]) == s.executed + Current(s) + s.queue + [n];
  }

  lemma StepKeepsOrder(s: State, ev: Event)
    requires InOrder(s) && Enabled(s, ev)
    ensures InOrder(Step(s, ev))
  {
    match ev
    case Call(req) => AskedInOrder(s, req);
    case OwnCall(req) => AskedInOrder(s, req);
    case PopTask =>
      assert s.executed + [] + s.queue == s.executed + [s.queue[0]] + s.queue[1..];
    case Leave =>
      if s.loop.InTask? {
        assert s.executed + [s.loop.task] + s.queue == s.executed + [s.loop.task] + [] + s.queue;
      }
    case _ =>
  }

  lemma StepKeepsReach(s: State, ev: Event)
    requires Inv(s) && Enabled(s, ev)
    ensures var t := Step(s, ev); NotStranded(t) && HitIsReadable(t) && t.bytes <= t.room
  {
  }

  lemma StepKeepsInv(s: State, ev: Event)
    requires Inv(s) && Enabled(s, ev)
    ensures Inv(Step(s, ev)) && Step(s, ev).room == s.room
  {
    StepKeepsOrder(s, ev);
    StepKeepsReach(s, ev);
  }

  predicate Valid(s: State, evs: seq<Event>)
    decreases |evs|
  {
    evs != [] ==> Enabled(s, evs[0]) && Valid(Step(s, evs[0]), evs[1..])
  }

  function Run(s: State, evs: seq<Event>): State
    requires Valid(s, evs)
    decreases |evs|
  {
    if evs == [] then s else Run(Step(s, evs[0]), evs[1..])
  }

  lemma {:induction false} RunKeepsInv(s: State, evs: seq<Event>)
    requires Inv(s) && Valid(s, evs)
    ensures Inv(Run(s, evs)) && Run(s, evs).room == s.room
    decreases |evs|
  {
    if evs != [] {
      StepKeepsInv(s, evs[0]);
      RunKeepsInv(Step(s, evs[0]), evs[1..]);
    }
  }

  /** Nobody is between a request and its byte, and the loop is not draining. */
  predicate Quiet(s: State) {
    s.bytes == 0 && s.writers == 0 && !MustWrite(s.loop) && !DrainsNow(s.loop)
  }

  /** No stranded task in any interleaving of callers, callbacks and the loop thread;
      in a quiet state every accepted task has run, once and in order. */
  lemma NoStrandedTask(capacity: nat, room: nat, evs: seq<Event>)
    requires Valid(Init(capacity, room), evs)
    ensures var s := Run(Init(capacity, room), evs);
            && (s.queue != [] ==> s.bytes > 0 || s.writers > 0 || MustWrite(s.loop) || DrainsNow(s.loop))
            && s.executed + Current(s) + s.queue == UpTo(0, s.accepted)
            && (Quiet(s) ==> s.executed == UpTo(0, s.accepted))
  {
    var s0 := Init(capacity, room);
    assert UpTo(0, 0) == [];
    RunKeepsInv(s0, evs);
    var s := Run(s0, evs);
    if Quiet(s) {
      assert s.executed + [] + [] == s.executed;
    }
  }

  // ------------------------------------------------------------------- progress

  /** Something accepted has not been run to its end. */
  predicate Pending(s: State) { s.queue != [] || s.loop.InTask? }

  /** The loop thread is blocked writing to its own full pipe, inside a task or
      inside an I/O or timer callback. */
  predicate Wedged(s: State) { MustWrite(s.loop) && s.bytes == s.room }

  /** The loop will not read the pipe again: it has returned, or its final pass is
      past the wakeup channel. */
  predicate Deaf(s: State) {
    || s.loop.Stopped?
    || (s.last && (s.loop.Between? || s.loop.Callback?) && !s.loop.hit)
  }

  lemma DoneInOrder(s: State)
    requires InOrder(s) && !Pending(s)
    ensures s.executed == UpTo(0, s.accepted)
  {
    assert s.executed + [] + [] == s.executed;
  }

  function Rank(s: State): nat {
    match s.loop
    case Callback(_, mustWrite) => if mustWrite then 8 else 7
    case Between(hit) => if hit then 3 else 6
    case Waiting => if s.bytes == 0 then 5 else 4
    case InTask(_, mustWrite) => if mustWrite then 2 else 1
    case Draining => 0
    case Stopped => 0
  }

  /** What brings the next pending task closer. */
  function Onward(s: State): Event {
    match s.loop
    case Waiting => if s.bytes == 0 then Write else Report(true)
    case Between(hit) => if hit then Read(1) else PassEnds
    case Callback(_, mustWrite) => if mustWrite then OwnWrite else Leave
    case InTask(_, mustWrite) => if mustWrite then OwnWrite else Leave
    case Draining => PopTask
    case Stopped => PopTask
  }

  lemma OnwardHelps(s: State)
    requires Inv(s) && s.room > 0 && Pending(s) && !Wedged(s) && !Deaf(s)
    ensures Enabled(s, Onward(s))
    ensures var t := Step(s, Onward(s));
            && Inv(t) && t.room == s.room && t.accepted == s.accepted
            && (Pending(t) ==> !Wedged(t) && !Deaf(t))
            && (|t.queue| < |s.queue| || (t.queue == s.queue && Rank(t) < Rank(s)))
  {
    StepKeepsInv(s, Onward(s));
  }

  /** From every reachable state that is neither wedged nor deaf, the loop thread and
      the pending writers alone can finish everything accepted so far. */
  lemma {:induction false} CanCatchUp(s: State) returns (evs: seq<Event>)
    requires Inv(s) && s.room > 0 && (Pending(s) ==> !Wedged(s) && !Deaf(s))
    ensures Valid(s, evs)
    ensures Run(s, evs).accepted == s.accepted && Run(s, evs).executed == UpTo(0, s.accepted)
    decreases |s.queue|, Rank(s)
  {
    if !Pending(s) {
      DoneInOrder(s);
      return [];
    }
    OnwardHelps(s);
    var rest := CanCatchUp(Step(s, Onward(s)));
    evs := [Onward(s)] + rest;
    assert evs[1..] == rest;
  }

  /** A wedged loop stays where it is, whatever anybody does. */
  lemma {:induction false} WedgedForever(s: State, evs: seq<Event>)
    requires Wedged(s) && Valid(s, evs)
    ensures Wedged(Run(s, evs)) && Run(s, evs).executed == s.executed
    decreases |evs|
  {
    if evs != [] {
      WedgedForever(Step(s, evs[0]), evs[1..]);
    }
  }

  /** A deaf loop stays deaf and runs no task. */
  lemma {:induction false} DeafForever(s: State, evs: seq<Event>)
    requires Deaf(s) && Valid(s, evs)
    ensures Deaf(Run(s, evs)) && Run(s, evs).executed == s.executed
    decreases |evs|
  {
    if evs != [] {
      DeafForever(Step(s, evs[0]), evs[1..]);
    }
  }

  /** Everything accepted can still be run if and only if nothing is pending, or the
      loop thread is not inside a call to its own loop with the pipe full and has not
      passed the wakeup channel for the last time. */
  lemma ProgressIff(s: State)
    requires Inv(s) && s.room > 0
    ensures (Pending(s) ==> !Wedged(s) && !Deaf(s)) <==>
            exists evs :: Valid(s, evs) && Run(s, evs).executed == UpTo(0, s.accepted)
  {
    if Pending(s) && (Wedged(s) || Deaf(s)) {
      assert |s.executed + Current(s) + s.queue| == s.accepted;
      forall evs | Valid(s, evs)
        ensures Run(s, evs).executed != UpTo(0, s.accepted)
      {
        if Wedged(s) {
          WedgedForever(s, evs);
        } else {
          DeafForever(s, evs);
        }
      }
    } else {
      var evs := CanCatchUp(s);
    }
  }

  predicate AsksExit(ev: Event) { (ev.Call? || ev.OwnCall?) && ev.req == Exit }

  /** The loop makes its final pass and returns only after somebody called exit. */
  lemma {:induction false} StopsOnlyAfterExit(s: State, evs: seq<Event>)
    requires !s.exit && !s.last && !s.loop.Stopped? && Valid(s, evs)
    requires forall ev | ev in evs :: !AsksExit(ev)
    ensures var r := Run(s, evs); !r.exit && !r.last && !r.loop.Stopped?
    decreases |evs|
  {
    if evs != [] {
      assert evs[0] in evs && forall ev | ev in evs[1..] :: ev in evs;
      StopsOnlyAfterExit(Step(s, evs[0]), evs[1..]);
    }
  }

  // -------------------------------------------------------------- reachable ends

  lemma Chain(s: State, ev: Event, rest: seq<Event>)
    requires Enabled(s, ev) && Valid(Step(s, ev), rest)
    ensures Valid(s, [ev] + rest) && Run(s, [ev] + rest) == Run(Step(s, ev), rest)
  {
    assert ([ev] + rest)[1..] == rest;
  }

  /** Tasks that post to their own loop fill the pipe one byte at a time, because no
      byte is read while the queue is being drained. */
  lemma {:induction false} SelfPosting(s: State) returns (evs: seq<Event>)
    requires s.loop.Draining? && s.queue != [] && s.capacity == 0 && s.bytes <= s.room
    ensures Valid(s, evs) && Wedged(Run(s, evs)) && Run(s, evs).loop.InTask?
    decreases s.room - s.bytes
  {
    var a := Step(s, PopTask);
    var b := Step(a, OwnCall(SafeCall));
    if s.bytes == s.room {
      evs := [];
    } else {
      var c := Step(b, OwnWrite);
      evs := SelfPosting(Step(c, Leave));
      Chain(c, Leave, evs);
      evs := [Leave] + evs;
      Chain(b, OwnWrite, evs);
      evs := [OwnWrite] + evs;
    }
    Chain(a, OwnCall(SafeCall), evs);
    evs := [OwnCall(SafeCall)] + evs;
    Chain(s, PopTask, evs);
    evs := [PopTask] + evs;
  }

  /** A single I/O or timer callback that keeps calling its own loop fills the pipe
      and blocks, whatever the queue's capacity. */
  lemma {:induction false} Flooding(s: State) returns (evs: seq<Event>)
    requires s.loop.Callback? && !s.loop.mustWrite && s.bytes <= s.room
    ensures Valid(s, evs) && Wedged(Run(s, evs)) && Run(s, evs).loop.Callback? && Run(s, evs).queue != []
    decreases s.room - s.bytes
  {
    var a := Step(s, OwnCall(SafeCall));
    if s.bytes == s.room {
      evs := [];
    } else {
      evs := Flooding(Step(a, OwnWrite));
      Chain(a, OwnWrite, evs);
      evs := [OwnWrite] + evs;
    }
    Chain(s, OwnCall(SafeCall), evs);
    evs := [OwnCall(SafeCall)] + evs;
  }

  /** For every pipe size the loop can wedge with a task pending: from tasks that post
      to their own loop, or from one I/O or timer callback. */
  lemma WedgeIsReachable(capacity: nat, room: nat) returns (byTask: seq<Event>, byCallback: seq<Event>)
    requires room > 0
    ensures capacity == 0 ==> Valid(Init(capacity, room), byTask)
    ensures capacity == 0 ==>
              var s := Run(Init(capacity, room), byTask); Wedged(s) && s.loop.InTask? && Pending(s)
    ensures Valid(Init(capacity, room), byCallback)
    ensures var s := Run(Init(capacity, room), byCallback); Wedged(s) && s.loop.Callback? && Pending(s)
  {
    var s0 := Init(capacity, room);
    if capacity == 0 {
      var a := Step(s0, Call(SafeCall));
      var b := Step(a, Write);
      var c := Step(b, Report(true));
      var tail := SelfPosting(Step(c, Read(1)));
      Chain(c, Read(1), tail);
      tail := [Read(1)] + tail;
      Chain(b, Report(true), tail);
      tail := [Report(true)] + tail;
      Chain(a, Write, tail);
      tail := [Write] + tail;
      Chain(s0, Call(SafeCall), tail);
      byTask := [Call(SafeCall)] + tail;
    } else {
      byTask := [];
    }
    var d := Step(s0, Report(false));
    var tail := Flooding(Step(d, Enter));
    Chain(d, Enter, tail);
    Chain(s0, Report(false), [Enter] + tail);
    byCallback := [Report(false)] + ([Enter] + tail);
  }

  /** A task accepted after the loop has returned is never run. */
  lemma ExitStrands(capacity: nat, room: nat) returns (evs: seq<Event>)
    ensures Valid(Init(capacity, room), evs)
    ensures var s := Run(Init(capacity, room), evs); Deaf(s) && Pending(s)
  {
    var a := Step(Init(capacity, room), Call(Exit));
    var b := Step(a, Report(false));
    var c := Step(b, PassEnds);
    var d := Step(c, Report(false));
    var e := Step(d, PassEnds);
    Chain(e, Call(SafeCall), []);
    Chain(d, PassEnds, [Call(SafeCall)]);
    Chain(c, Report(false), [PassEnds] + [Call(SafeCall)]);
    Chain(b, PassEnds, [Report(false)] + ([PassEnds] + [Call(SafeCall)]));
    Chain(a, Report(false), [PassEnds] + ([Report(false)] + ([PassEnds] + [Call(SafeCall)])));
    evs := [Report(false)] + ([PassEnds] + ([Report(false)] + ([PassEnds] + [Call(SafeCall)])));
    Chain(Init(capacity, room), Call(Exit), evs);
    evs := [Call(Exit)] + evs;
  }
}
