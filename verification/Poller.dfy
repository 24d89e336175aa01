/** The dispatch loop of PollerEpoll (src/common/handy/poller.cc:43-108): callbacks
    may remove channels, including ones whose events are still to be dispatched. */
module Poller {
  import opened Collections

  const MAX_EVENTS: nat := 2000

  type Channel = nat

  /** What epoll reports for a channel: `readable` covers read and error events. */
  datatype Ready = Ready(ch: Channel, readable: bool, writable: bool)

  datatype Pointer = Null | To(ch: Channel)

  datatype Slot = Slot(ptr: Pointer, readable: bool, writable: bool)

  datatype Action = HandleRead | HandleWrite

  datatype Dispatch = Dispatch(ch: Channel, action: Action)

  datatype PollOp = Add(ch: Channel) | Remove(ch: Channel)

  /** What the callback of the latest dispatch does to the set of channels, as a
      function of all dispatches of the pass so far. */
  type Script = seq<Dispatch> -> seq<PollOp>

  function Removes(ops: seq<PollOp>): set<Channel> {
    set op | op in ops && op.Remove? :: op.ch
  }

  // ------------------------------------------------------- what a pass should do

  datatype Outcome = Outcome(log: seq<Dispatch>, removed: set<Channel>, fatal: bool)

  /** One report entry: skipped if its channel was removed during this pass, else
      dispatched; read wins over write, and an event that is neither aborts. */
  function Visit(r: Ready, o: Outcome, script: Script): Outcome {
    if o.fatal || r.ch in o.removed then o
    else if !r.readable && !r.writable then o.(fatal := true)
    else
      var log := o.log + [Dispatch(r.ch, if r.readable then HandleRead else HandleWrite)];
      Outcome(log, o.removed + Removes(script(log)), false)
  }

  /** The reference: walk the first `n` report entries from the last to the first. */
  function Expected(ready: seq<Ready>, n: nat, o: Outcome, script: Script): Outcome
    requires n <= |ready|
  {
    if n == 0 then o else Expected(ready, n - 1, Visit(ready[n - 1], o, script), script)
  }

  predicate Distinct(ready: seq<Ready>) {
    forall i, j | 0 <= i < j < |ready| :: ready[i].ch != ready[j].ch
  }

  /** The channels removed by the callbacks of these dispatches. */
  function RemovedIn(log: seq<Dispatch>, script: Script): set<Channel> {
    if log == [] then {}
    else RemovedIn(log[..|log| - 1], script) + Removes(script(log))
  }

  predicate Dispatched(log: seq<Dispatch>, ch: Channel) {
    exists d | d in log :: d.ch == ch
  }

  ghost predicate NoRepeat(log: seq<Dispatch>) {
    forall i, j | 0 <= i < j < |log| :: log[i].ch != log[j].ch
  }

  predicate NeverAfterRemoval(log: seq<Dispatch>, script: Script) {
    forall k | 0 <= k < |log| :: log[k].ch !in RemovedIn(log[..k], script)
  }

  predicate FromReport(ready: seq<Ready>, n: nat, log: seq<Dispatch>) {
    forall d | d in log :: exists i | n <= i < |ready| :: ready[i].ch == d.ch
  }

  /** The walk stands at report index `n`, possibly because it was aborted. */
  ghost predicate Fair(ready: seq<Ready>, n: nat, o: Outcome, script: Script) {
    && o.removed == RemovedIn(o.log, script)
    && NoRepeat(o.log) && NeverAfterRemoval(o.log, script)
    && FromReport(ready, n, o.log)
  }

  lemma InSnoc(log: seq<Dispatch>, d: Dispatch)
    ensures forall x :: x in log + [d] <==> x in log || x == d
  {
  }

  lemma NoRepeatSnoc(log: seq<Dispatch>, d: Dispatch)
    requires NoRepeat(log) && forall x | x in log :: x.ch != d.ch
    ensures NoRepeat(log + [d])
  {
    forall i, j | 0 <= i < j < |log + [d]|
      ensures (log + [d])[i].ch != (log + [d])[j].ch
    {
      assert log[i] in log;
    }
  }

  lemma SnocKeepsOrder(log: seq<Dispatch>, script: Script, d: Dispatch)
    requires NoRepeat(log) && NeverAfterRemoval(log, script)
    requires forall x | x in log :: x.ch != d.ch
    requires d.ch !in RemovedIn(log, script)
    ensures NoRepeat(log + [d]) && NeverAfterRemoval(log + [d], script)
    ensures RemovedIn(log + [d], script) == RemovedIn(log, script) + Removes(script(log + [d]))
  {
    NoRepeatSnoc(log, d);
    var l := log + [d];
    assert l[..|log|] == log;
    assert NeverAfterRemoval(l, script) by {
      forall k | 0 <= k < |l|
        ensures l[k].ch !in RemovedIn(l[..k], script)
      {
        if k < |log| {
          assert l[..k] == log[..k] && l[k] == log[k];
          assert log[k].ch !in RemovedIn(log[..k], script);
        } else {
          assert l[..k] == log && l[k] == d;
        }
      }
    }
    assert RemovedIn(l, script) == RemovedIn(l[..|l| - 1], script) + Removes(script(l));
  }

  lemma VisitIsFair(ready: seq<Ready>, n: nat, o: Outcome, script: Script)
    requires Distinct(ready) && 0 < n <= |ready| && Fair(ready, n, o, script)
    ensures Fair(ready, n - 1, Visit(ready[n - 1], o, script), script)
  {
    var r := ready[n - 1];
    if !o.fatal && r.ch !in o.removed && (r.readable || r.writable) {
      var d := Dispatch(r.ch, if r.readable then HandleRead else HandleWrite);
      assert forall x | x in o.log :: x.ch != d.ch;
      SnocKeepsOrder(o.log, script, d);
      InSnoc(o.log, d);
    }
  }

  lemma {:induction false} FatalStays(ready: seq<Ready>, n: nat, o: Outcome, script: Script)
    requires n <= |ready| && o.fatal
    ensures Expected(ready, n, o, script) == o
    decreases n
  {
    if n > 0 {
      FatalStays(ready, n - 1, o, script);
    }
  }

  const FRESH := Outcome([], {}, false)

  /** The pass when the report entries from `n` on have had their turn. */
  function Stand(ready: seq<Ready>, n: nat, script: Script): Outcome
    requires n <= |ready|
    decreases |ready| - n
  {
    if n == |ready| then FRESH else Visit(ready[n], Stand(ready, n + 1, script), script)
  }

  lemma {:induction false} StandIsOnTheWay(ready: seq<Ready>, n: nat, script: Script)
    requires n <= |ready|
    ensures Expected(ready, n, Stand(ready, n, script), script) == Expected(ready, |ready|, FRESH, script)
    decreases |ready| - n
  {
    if n < |ready| {
      StandIsOnTheWay(ready, n + 1, script);
    }
  }

  lemma {:induction false} StandIsFair(ready: seq<Ready>, n: nat, script: Script)
    requires Distinct(ready) && n <= |ready|
    ensures Fair(ready, n, Stand(ready, n, script), script)
    decreases |ready| - n
  {
    if n < |ready| {
      StandIsFair(ready, n + 1, script);
      VisitIsFair(ready, n + 1, Stand(ready, n + 1, script), script);
    }
  }

  lemma VisitDispatches(r: Ready, o: Outcome, script: Script, ch: Channel)
    ensures o.log <= Visit(r, o, script).log
    ensures Dispatched(Visit(r, o, script).log, ch) <==>
            Dispatched(o.log, ch) || (r.ch == ch && !o.fatal && ch !in o.removed && (r.readable || r.writable))
  {
    var d := Dispatch(r.ch, if r.readable then HandleRead else HandleWrite);
    InSnoc(o.log, d);
    assert d in o.log + [d];
    if Dispatched(o.log, ch) {
      var x :| x in o.log && x.ch == ch;
      assert x in o.log + [d];
    }
  }

  /** Turns that come after entry `i` neither add nor take away its dispatch. */
  lemma {:induction false} DispatchStays(ready: seq<Ready>, i: nat, n: nat, script: Script)
    requires Distinct(ready) && n <= i < |ready|
    ensures Dispatched(Stand(ready, n, script).log, ready[i].ch) <==> Dispatched(Stand(ready, i, script).log, ready[i].ch)
    ensures Stand(ready, i, script).log <= Stand(ready, n, script).log
    decreases i - n
  {
    if n < i {
      DispatchStays(ready, i, n + 1, script);
      VisitDispatches(ready[n], Stand(ready, n + 1, script), script, ready[i].ch);
    }
  }

  /** In every pass, also one that aborts, no channel is dispatched twice or after its
      removal. */
  lemma DispatchIsSafe(ready: seq<Ready>, script: Script)
    requires Distinct(ready)
    ensures var o := Expected(ready, |ready|, FRESH, script);
            && (forall i, j | 0 <= i < j < |o.log| :: o.log[i].ch != o.log[j].ch)
            && (forall k | 0 <= k < |o.log| :: o.log[k].ch !in RemovedIn(o.log[..k], script))
  {
    StandIsOnTheWay(ready, 0, script);
    StandIsFair(ready, 0, script);
  }

  /** A reported channel is dispatched if and only if, at its turn, the pass has not
      aborted, no callback of an earlier dispatch has removed it, and its event is a
      read or a write. What is removed later was dispatched all the same. */
  lemma DispatchedIff(ready: seq<Ready>, script: Script, i: nat)
    requires Distinct(ready) && i < |ready|
    ensures var o, turn := Expected(ready, |ready|, FRESH, script), Stand(ready, i + 1, script);
            && turn.log <= o.log
            && (Dispatched(o.log, ready[i].ch) <==>
                  && !turn.fatal && ready[i].ch !in RemovedIn(turn.log, script)
                  && (ready[i].readable || ready[i].writable))
  {
    var turn := Stand(ready, i + 1, script);
    StandIsOnTheWay(ready, 0, script);
    StandIsFair(ready, i + 1, script);
    VisitDispatches(ready[i], turn, script, ready[i].ch);
    DispatchStays(ready, i, 0, script);
    assert !Dispatched(turn.log, ready[i].ch);
  }

  predicate Alive(ready: seq<Ready>, script: Script, i: nat)
    requires i < |ready|
  {
    var turn := Stand(ready, i + 1, script);
    !turn.fatal && ready[i].ch !in RemovedIn(turn.log, script)
  }

  lemma {:induction false} ActionStays(ready: seq<Ready>, i: nat, n: nat, script: Script, a: Action)
    requires Distinct(ready) && n <= i < |ready|
    ensures Dispatch(ready[i].ch, a) in Stand(ready, n, script).log <==> Dispatch(ready[i].ch, a) in Stand(ready, i, script).log
    decreases i - n
  {
    if n < i {
      ActionStays(ready, i, n + 1, script, a);
    }
  }

  /** What a reported channel that is alive at its turn gets: its read handler if it is
      readable, else its write handler if it is writable. */
  lemma {:induction false} RightHandler(ready: seq<Ready>, script: Script, i: nat)
    requires Distinct(ready) && i < |ready|
    ensures var log, r := Expected(ready, |ready|, FRESH, script).log, ready[i];
            && (Dispatch(r.ch, HandleRead) in log <==> Alive(ready, script, i) && r.readable)
            && (Dispatch(r.ch, HandleWrite) in log <==> Alive(ready, script, i) && !r.readable && r.writable)
  {
    var turn := Stand(ready, i + 1, script);
    StandIsOnTheWay(ready, 0, script);
    StandIsFair(ready, i + 1, script);
    ActionStays(ready, i, 0, script, HandleRead);
    ActionStays(ready, i, 0, script, HandleWrite);
    assert forall d | d in turn.log :: d.ch != ready[i].ch;
  }

  lemma {:induction false} StandIsFatalIff(ready: seq<Ready>, script: Script, n: nat)
    requires Distinct(ready) && n <= |ready|
    ensures Stand(ready, n, script).fatal <==>
            exists i | n <= i < |ready| :: Alive(ready, script, i) && !ready[i].readable && !ready[i].writable
    decreases |ready| - n
  {
    if n < |ready| {
      StandIsFatalIff(ready, script, n + 1);
      StandIsFair(ready, n + 1, script);
      var turn, r := Stand(ready, n + 1, script), ready[n];
      if turn.fatal {
        var i :| n + 1 <= i < |ready| && Alive(ready, script, i) && !ready[i].readable && !ready[i].writable;
        assert n <= i < |ready|;
      }
      if Alive(ready, script, n) && !r.readable && !r.writable {
        assert Stand(ready, n, script).fatal;
      }
    }
  }

  /** The pass aborts if and only if some channel, alive at its turn, was reported for
      neither reading nor writing. */
  lemma {:induction false} AbortsIff(ready: seq<Ready>, script: Script)
    requires Distinct(ready)
    ensures Expected(ready, |ready|, FRESH, script).fatal <==>
            exists i | 0 <= i < |ready| :: Alive(ready, script, i) && !ready[i].readable && !ready[i].writable
  {
    StandIsOnTheWay(ready, 0, script);
    StandIsFatalIff(ready, script, 0);
  }

  /** The live channels after a callback, and after the callbacks of a whole log. */
  function After(live: set<Channel>, ops: seq<PollOp>): set<Channel>
    decreases |ops|
  {
    if ops == [] then live
    else After(if ops[0].Add? then live + {ops[0].ch} else live - {ops[0].ch}, ops[1..])
  }

  function Through(live: set<Channel>, log: seq<Dispatch>, script: Script): set<Channel> {
    if log == [] then live
    else After(Through(live, log[..|log| - 1], script), script(log))
  }

  /** Every dispatch finds its channel live. */
  predicate LiveAtTurn(live: set<Channel>, log: seq<Dispatch>, script: Script) {
    forall k | 0 <= k < |log| :: log[k].ch in Through(live, log[..k], script)
  }

  lemma LiveSnoc(live: set<Channel>, log: seq<Dispatch>, script: Script, d: Dispatch)
    requires LiveAtTurn(live, log, script) && d.ch in Through(live, log, script)
    ensures LiveAtTurn(live, log + [d], script)
    ensures Through(live, log + [d], script) == After(Through(live, log, script), script(log + [d]))
  {
    var more := log + [d];
    assert more[..|log|] == log;
    forall k | 0 <= k < |more|
      ensures more[k].ch in Through(live, more[..k], script)
    {
      if k < |log| {
        assert more[..k] == log[..k] && log[k].ch in Through(live, log[..k], script);
      }
    }
  }

  // ---------------------------------------------------------------------- object

  class PollerEpoll {
    var live: set<Channel>
    const slots: array<Slot>
    var lastActive: int

    /** The report slots up to `lastActive` still to be dispatched, given what was
        removed during the pass: nulled exactly where the channel was removed. */
    ghost predicate Tracks(ready: seq<Ready>, removed: set<Channel>, live0: set<Channel>, top: int)
      reads this, slots
    {
      && slots.Length == MAX_EVENTS && top < |ready| <= MAX_EVENTS
      && (forall j | 0 <= j <= top ::
            slots[j] == Slot(if ready[j].ch in removed then Null else To(ready[j].ch), ready[j].readable, ready[j].writable))
      && live0 - removed <= live
    }

    constructor ()
      ensures live == {} && lastActive == -1 && slots.Length == MAX_EVENTS && fresh(slots)
    {
      live, lastActive := {}, -1;
      slots := new Slot[MAX_EVENTS](_ => Slot(Null, false, false));
    }

    method AddChannel(ch: Channel)
      modifies this`live
      ensures live == old(live) + {ch}
    {
      live := live + {ch};
    }

    /** Forgets a channel and nulls its slot among those not yet dispatched. */
    method RemoveChannel(ch: Channel, ghost ready: seq<Ready>, ghost removed: set<Channel>, ghost live0: set<Channel>)
      requires Tracks(ready, removed, live0, lastActive) && Distinct(ready)
      modifies this`live, slots
      ensures live == old(live) - {ch}
      ensures forall j | 0 <= j < slots.Length && (j > lastActive || old(slots[j].ptr) != To(ch)) ::
                slots[j] == old(slots[j])
      ensures Tracks(ready, removed + {ch}, live0, lastActive)
    {
      live := live - {ch};
      var i := lastActive;
      while i >= 0
        invariant i <= lastActive
        invariant slots[..] == old(slots[..])
        invariant forall j | 0 <= j && i < j <= lastActive :: slots[j].ptr != To(ch)
      {
        if slots[i].ptr == To(ch) {
          slots[i] := slots[i].(ptr := Null);
          break;
        }
        i := i - 1;
      }
    }

    /** A callback: any sequence of additions and removals. */
    method RunCallback(ops: seq<PollOp>, ghost ready: seq<Ready>, ghost removed: set<Channel>, ghost live0: set<Channel>)
      requires Tracks(ready, removed, live0, lastActive) && Distinct(ready)
      modifies this`live, slots
      ensures Tracks(ready, removed + Removes(ops), live0, lastActive)
      ensures live == After(old(live), ops)
    {
      for k := 0 to |ops|
        invariant Tracks(ready, removed + Removes(ops[..k]), live0, lastActive)
        invariant After(live, ops[k..]) == After(old(live), ops)
      {
        assert ops[k..][1..] == ops[k + 1..];
        ghost var gone := removed + Removes(ops[..k]);
        RemovesSnoc(ops, k);
        if ops[k].Add? {
          AddChannel(ops[k].ch);
        } else {
          RemoveChannel(ops[k].ch, ready, gone, live0);
          assert gone + {ops[k].ch} == removed + Removes(ops[..k + 1]);
        }
      }
      assert ops[..|ops|] == ops;
    }

    /** One `loop_once` for what epoll_wait reported. Every channel dispatched is
        live at its turn, and the outcome is the reference walk's. */
    method LoopOnce(ready: seq<Ready>, script: Script) returns (log: seq<Dispatch>, fatal: bool)
      requires slots.Length == MAX_EVENTS && |ready| <= MAX_EVENTS && Distinct(ready)
      requires forall r | r in ready :: r.ch in live
      modifies this, slots
      ensures var o := Expected(ready, |ready|, FRESH, script); log == o.log && fatal == o.fatal
      ensures LiveAtTurn(old(live), log, script) && live == Through(old(live), log, script)
      ensures !fatal ==> lastActive == -1
    {
      ghost var live0 := live;
      forall j | 0 <= j < |ready| {
        slots[j] := Slot(To(ready[j].ch), ready[j].readable, ready[j].writable);
      }
      lastActive := |ready| - 1;
      log, fatal := [], false;
      ghost var removed: set<Channel> := {};
      while lastActive >= 0
        invariant -1 <= lastActive < |ready| && !fatal
        invariant Tracks(ready, removed, live0, lastActive)
        invariant Expected(ready, lastActive + 1, Outcome(log, removed, false), script)
               == Expected(ready, |ready|, FRESH, script)
        invariant LiveAtTurn(live0, log, script) && live == Through(live0, log, script)
        decreases lastActive
      {
        var slot := slots[lastActive];
        if slot.ptr.To? {
          assert ready[lastActive] in ready;
          assert slot.ptr.ch in live;
          if slot.readable || slot.writable {
            var d := Dispatch(slot.ptr.ch, if slot.readable then HandleRead else HandleWrite);
            LiveSnoc(live0, log, script, d);
            log := log + [d];
            var ops := script(log);
            RunCallback(ops, ready, removed, live0);
            removed := removed + Removes(ops);
          } else {
            fatal := true;
            FatalStays(ready, lastActive, Outcome(log, removed, true), script);
            return;
          }
        }
        lastActive := lastActive - 1;
      }
    }

    /** The destructor closes channels until none is live. Closing one may close others
        and open new ones, as long as openings come to an end: `left` bounds those
        still to come. Every channel closed is live at its turn. */
    method CloseAll(script: Script, ghost left: seq<Dispatch> -> nat) returns (log: seq<Dispatch>)
      requires slots.Length == MAX_EVENTS && lastActive < 0
      requires forall l, d :: Adds(script(l + [d])) + left(l + [d]) <= left(l)
      modifies this`live, slots
      ensures live == {} && Closing(old(live), log, script) == {}
      ensures ClosedInTurn(old(live), log, script)
      ensures OnlyRemoves(script) ==> NoRepeat(log) && forall d | d in log :: d.ch in old(live)
    {
      log := [];
      while live != {}
        invariant slots.Length == MAX_EVENTS && live == Closing(old(live), log, script)
        invariant ClosedInTurn(old(live), log, script)
        invariant OnlyRemoves(script) ==> Tidy(old(live), live, log)
        decreases left(log) + |live|
      {
        ghost var was, before := log, live;
        var ch :| ch in live;
        log := log + [Dispatch(ch, HandleRead)];
        RemoveChannel(ch, [], {}, {});
        RunCallback(script(log), [], {}, {});
        CloseSnoc(old(live), was, Dispatch(ch, HandleRead), script);
        AfterSize(before - {ch}, script(log));
        if OnlyRemoves(script) {
          TidySnoc(old(live), before, was, Dispatch(ch, HandleRead), script(log));
        }
      }
    }
  }

  predicate ClosedInTurn(live: set<Channel>, log: seq<Dispatch>, script: Script) {
    forall k | 0 <= k < |log| :: log[k].ch in Closing(live, log[..k], script)
  }

  ghost predicate Tidy(live0: set<Channel>, live: set<Channel>, log: seq<Dispatch>) {
    live <= live0 && NoRepeat(log) && forall d | d in log :: d.ch in live0 && d.ch !in live
  }

  lemma {:induction false} CloseSnoc(live: set<Channel>, log: seq<Dispatch>, d: Dispatch, script: Script)
    requires ClosedInTurn(live, log, script) && d.ch in Closing(live, log, script)
    ensures ClosedInTurn(live, log + [d], script)
    ensures Closing(live, log + [d], script) == After(Closing(live, log, script) - {d.ch}, script(log + [d]))
  {
    var more := log + [d];
    assert more[..|log|] == log;
    forall k | 0 <= k < |more|
      ensures more[k].ch in Closing(live, more[..k], script)
    {
      if k < |log| {
        assert more[..k] == log[..k] && log[k].ch in Closing(live, log[..k], script);
      }
    }
  }

  lemma TidySnoc(live0: set<Channel>, live: set<Channel>, log: seq<Dispatch>, d: Dispatch, ops: seq<PollOp>)
    requires Tidy(live0, live, log) && d.ch in live && forall op | op in ops :: op.Remove?
    ensures Tidy(live0, After(live - {d.ch}, ops), log + [d])
  {
    AfterShrinks(live - {d.ch}, ops);
    InSnoc(log, d);
    NoRepeatSnoc(log, d);
  }

  ghost predicate OnlyRemoves(script: Script) { forall l, op :: op in script(l) ==> op.Remove? }

  function Adds(ops: seq<PollOp>): nat {
    if ops == [] then 0 else (if ops[0].Add? then 1 else 0) + Adds(ops[1..])
  }

  /** What is live after closing these channels, with the callbacks of each. */
  function Closing(live: set<Channel>, log: seq<Dispatch>, script: Script): set<Channel> {
    if log == [] then live else
      var n := |log| - 1;
      After(Closing(live, log[..n], script) - {log[n].ch}, script(log))
  }

  lemma {:induction false} AfterSize(live: set<Channel>, ops: seq<PollOp>)
    ensures |After(live, ops)| <= |live| + Adds(ops)
    decreases |ops|
  {
    if ops != [] {
      var next := if ops[0].Add? then live + {ops[0].ch} else live - {ops[0].ch};
      Smaller(live - {ops[0].ch}, live);
      AfterSize(next, ops[1..]);
    }
  }

  lemma {:induction false} AfterShrinks(live: set<Channel>, ops: seq<PollOp>)
    requires forall op | op in ops :: op.Remove?
    ensures After(live, ops) <= live
    decreases |ops|
  {
    if ops != [] {
      assert ops[0] in ops && forall op | op in ops[1..] :: op in ops;
      AfterShrinks(live - {ops[0].ch}, ops[1..]);
    }
  }

  lemma RemovesSnoc(ops: seq<PollOp>, k: nat)
    requires k < |ops|
    ensures Removes(ops[..k + 1]) == Removes(ops[..k]) + if ops[k].Remove? then {ops[k].ch} else {}
  {
    assert ops[..k + 1] == ops[..k] + [ops[k]];
  }
}
