/** The bounded blocking queue of src/common/handy/threads.h as a step system.

    A step is one stretch of code between acquiring and releasing the mutex, or one
    action that needs no mutex: setting `exit_`, a spurious wakeup, a timeout. The
    stretch that finds nothing and goes to sleep is split in two, because `exit_`
    can be set by another thread while the mutex is held. */
module SafeQueues {

  type Tid = nat

  /** `waitMs`: infinite, positive, or not positive. */
  datatype Patience = Forever | Deadline | Never

  datatype Holder = Free | Deciding(t: Tid)

  datatype State<T> = State(
    items: seq<T>,
    capacity: nat,
    exit: bool,
    holder: Holder,        // the thread that holds the mutex and is about to sleep
    sleeping: set<Tid>,    // blocked on the condition variable
    notified: set<Tid>,    // notified, not yet running
    stirred: set<Tid>,     // woken without a notification, not yet running
    deadline: set<Tid>,    // waiters with a timeout
    expired: set<Tid>,     // waiters whose wait reports a timeout
    exiting: nat,          // exit() calls between the flag and the notify_all
    exitDone: bool,        // some exit() call has returned
    accepted: seq<T>,      // history of successful pushes
    popped: seq<T>         // history of successful pops
  ) {
    predicate Full() { capacity != 0 && |items| >= capacity }

    predicate Idle(t: Tid) {
      t !in sleeping && t !in notified && t !in stirred && holder != Deciding(t)
    }
  }

  datatype Event<T> =
    | Push(v: T, wake: Tid)
    | Pop(t: Tid, patience: Patience)
    | Sleep(t: Tid)
    | Spurious(t: Tid)
    | Timeout(t: Tid)
    | Resume(t: Tid)
    | ExitFlag
    | ExitNotify

  predicate Enabled<T>(s: State<T>, ev: Event<T>) {
    match ev
    case Push(_, wake) => s.holder.Free? && (s.sleeping != {} ==> wake in s.sleeping)
    case Pop(t, _) => s.holder.Free? && s.Idle(t)
    case Sleep(t) => s.holder == Deciding(t)
    case Spurious(t) => t in s.sleeping
    case Timeout(t) => (t in s.sleeping || t in s.notified) && t in s.deadline
    case Resume(t) => s.holder.Free? && (t in s.notified || t in s.stirred)
    case ExitFlag => true
    case ExitNotify => s.holder.Free? && s.exiting > 0
  }

  function Take<T>(s: State<T>): State<T> {
    if s.items == [] then s
    else s.(items := s.items[1..], popped := s.popped + [s.items[0]])
  }

  function Step<T>(s: State<T>, ev: Event<T>): State<T>
    requires Enabled(s, ev)
  {
    match ev
    case Push(v, wake) =>
      if s.exit || s.Full() then s else
        var u := s.(items := s.items + [v], accepted := s.accepted + [v]);
        if s.sleeping == {} then u
        else u.(sleeping := s.sleeping - {wake}, notified := s.notified + {wake})
    case Pop(t, patience) =>
      if s.exit || s.items != [] || patience.Never? then Take(s)
      else s.(holder := Deciding(t),
              deadline := if patience.Deadline? then s.deadline + {t} else s.deadline - {t},
              expired := s.expired - {t})
    case Sleep(t) => s.(holder := Free, sleeping := s.sleeping + {t})
    case Spurious(t) => s.(sleeping := s.sleeping - {t}, stirred := s.stirred + {t})
    case Timeout(t) =>
      var u := s.(expired := s.expired + {t});
      if t in s.sleeping then u.(sleeping := s.sleeping - {t}, stirred := s.stirred + {t}) else u
    case Resume(t) =>
      var u := s.(notified := s.notified - {t}, stirred := s.stirred - {t});
      if s.exit || s.items != [] || t in s.expired then Take(u) else u.(holder := Deciding(t))
    case ExitFlag => s.(exit := true, exiting := s.exiting + 1)
    case ExitNotify =>
      s.(notified := s.notified + s.sleeping, sleeping := {}, exiting := s.exiting - 1, exitDone := true)
  }

  function Init<T>(capacity: nat): State<T> {
    State([], capacity, false, Free, {}, {}, {}, {}, {}, 0, false, [], [])
  }

  // ----------------------------------------------------------------- invariants

  predicate Separate<T>(s: State<T>) {
    && s.sleeping !! s.notified && s.sleeping !! s.stirred && s.notified !! s.stirred
    && (s.holder.Deciding? ==>
          s.holder.t !in s.sleeping && s.holder.t !in s.notified && s.holder.t !in s.stirred)
  }

  /** Whenever a thread sleeps, every queued item has a notified thread on its way. */
  predicate NoLostWakeup<T>(s: State<T>) {
    s.sleeping != {} ==> |s.items| <= |s.notified|
  }

  ghost predicate Orderly<T>(s: State<T>) {
    s.accepted == s.popped + s.items && (s.capacity != 0 ==> |s.items| <= s.capacity)
  }

  predicate ExitIsFinal<T>(s: State<T>) {
    && (s.exiting > 0 ==> s.exit)
    && (s.exitDone ==> s.exit && s.sleeping == {} && s.holder.Free?)
  }

  ghost predicate Inv<T>(s: State<T>) {
    && Separate(s) && NoLostWakeup(s) && Orderly(s) && ExitIsFinal(s)
    && (s.holder.Deciding? ==> s.items == [])
  }

  lemma WakeOne(sleeping: set<Tid>, notified: set<Tid>, wake: Tid)
    requires wake in sleeping && sleeping !! notified
    ensures |notified + {wake}| == |notified| + 1
  {
  }

  lemma TakeIsOrderly<T>(s: State<T>)
    requires Orderly(s)
    ensures Orderly(Take(s))
  {
    if s.items != [] {
      assert s.popped + s.items == s.popped + [s.items[0]] + s.items[1..];
    }
  }

  lemma PushKeepsInv<T>(s: State<T>, v: T, wake: Tid)
    requires Inv(s) && Enabled(s, Push(v, wake))
    ensures Inv(Step(s, Push(v, wake)))
  {
    if !s.exit && !s.Full() {
      assert s.popped + s.items + [v] == s.popped + (s.items + [v]);
      if s.sleeping != {} {
        WakeOne(s.sleeping, s.notified, wake);
      }
    }
  }

  lemma ResumeKeepsInv<T>(s: State<T>, t: Tid)
    requires Inv(s) && Enabled(s, Resume(t))
    ensures Inv(Step(s, Resume(t)))
  {
    var u := s.(notified := s.notified - {t}, stirred := s.stirred - {t});
    TakeIsOrderly(u);
    assert |u.notified| >= |s.notified| - 1;
    if t in s.stirred {
      assert u.notified == s.notified;
    }
  }

  lemma StepKeepsInv<T>(s: State<T>, ev: Event<T>)
    requires Inv(s) && Enabled(s, ev)
    ensures Inv(Step(s, ev))
    ensures s.exitDone ==> Step(s, ev).exitDone
    ensures Step(s, ev).capacity == s.capacity
  {
    match ev
    case Push(v, wake) => PushKeepsInv(s, v, wake);
    case Resume(t) => ResumeKeepsInv(s, t);
    case Pop(t, patience) => TakeIsOrderly(s);
    case _ =>
  }

  // ----------------------------------------------------------------------- runs

  predicate Valid<T>(s: State<T>, evs: seq<Event<T>>)
    decreases |evs|
  {
    evs != [] ==> Enabled(s, evs[0]) && Valid(Step(s, evs[0]), evs[1..])
  }

  function Run<T>(s: State<T>, evs: seq<Event<T>>): State<T>
    requires Valid(s, evs)
    decreases |evs|
  {
    if evs == [] then s else Run(Step(s, evs[0]), evs[1..])
  }

  lemma {:induction false} RunKeepsInv<T>(s: State<T>, evs: seq<Event<T>>)
    requires Inv(s) && Valid(s, evs)
    ensures Inv(Run(s, evs))
    ensures s.exitDone ==> Run(s, evs).exitDone
    ensures Run(s, evs).capacity == s.capacity
    decreases |evs|
  {
    if evs != [] {
      StepKeepsInv(s, evs[0]);
      RunKeepsInv(Step(s, evs[0]), evs[1..]);
    }
  }

  /** In every interleaving from an empty queue: no lost wakeup, first in first out,
      the capacity respected, and nobody asleep once an exit() has returned. */
  lemma QueueIsSafe<T>(capacity: nat, evs: seq<Event<T>>)
    requires Valid(Init<T>(capacity), evs)
    ensures var s := Run(Init<T>(capacity), evs);
            && (s.sleeping != {} ==> |s.items| <= |s.notified|)
            && s.accepted == s.popped + s.items
            && (capacity != 0 ==> |s.items| <= capacity)
            && (s.exitDone ==> s.sleeping == {})
  {
    assert Inv(Init<T>(capacity));
    RunKeepsInv(Init<T>(capacity), evs);
  }

  /** Once an exit() has returned no thread sleeps or ever sleeps again. */
  lemma NobodySleepsAfterExit<T>(s: State<T>, evs: seq<Event<T>>)
    requires Inv(s) && s.exitDone && Valid(s, evs)
    ensures Run(s, evs).sleeping == {} && Run(s, evs).holder.Free?
  {
    RunKeepsInv(s, evs);
  }

  /** Progress: while a thread sleeps and items wait, some notified thread can run
      right now, and its next step takes the oldest item. */
  lemma SomebodyTakes<T>(s: State<T>) returns (t: Tid)
    requires Inv(s) && s.sleeping != {} && s.items != []
    ensures Enabled(s, Resume(t)) && t in s.notified
    ensures Step(s, Resume(t)).popped == s.popped + [s.items[0]]
  {
    assert |s.notified| > 0;
    t :| t in s.notified;
  }

  // ------------------------------------------------------- when a pop comes back

  /** The pop of `t` has come back: with the front item, if there was one. */
  ghost predicate CameBack<T>(s: State<T>, r: State<T>, t: Tid) {
    && r.Idle(t)
    && (if s.items == [] then r.items == [] && r.popped == s.popped
        else r.items == s.items[1..] && r.popped == s.popped + [s.items[0]])
  }

  /** A pop that may not wait never waits: it comes back at once with the front item,
      or leaves everything as it was. */
  lemma NeverWaits<T>(s: State<T>, t: Tid)
    requires Inv(s) && Enabled(s, Pop(t, Never))
    ensures var r := Step(s, Pop(t, Never));
            CameBack(s, r, t) && r.holder.Free? && (s.items == [] ==> r == s)
  {
  }

  /** A call comes back at once if and only if it may not wait, an item is there, or
      exit was called; otherwise it waits, holding the mutex until it sleeps. */
  lemma PopComesBackIff<T>(s: State<T>, t: Tid, patience: Patience)
    requires Inv(s) && Enabled(s, Pop(t, patience))
    ensures var r := Step(s, Pop(t, patience));
            if patience == Never || s.items != [] || s.exit then CameBack(s, r, t) && r.holder.Free?
            else r.holder == Deciding(t) && r.items == [] && r.popped == s.popped
  {
  }

  /** A woken thread comes back if and only if an item is there, exit was called, or its
      wait has timed out; otherwise it waits on. */
  lemma ResumeComesBackIff<T>(s: State<T>, t: Tid)
    requires Inv(s) && Enabled(s, Resume(t))
    ensures var r := Step(s, Resume(t));
            if s.items != [] || s.exit || t in s.expired then CameBack(s, r, t) && r.holder.Free?
            else r.holder == Deciding(t) && r.items == [] && r.popped == s.popped
  {
  }

  predicate Waits<T>(s: State<T>, t: Tid) { !s.Idle(t) }

  /** A timed wait can time out at any moment it sleeps. */
  lemma {:induction false} DeadlineCanExpire<T>(s: State<T>, t: Tid, evs: seq<Event<T>>)
    requires t in s.deadline && Valid(s, evs) && forall ev | ev in evs :: !(ev.Pop? && ev.t == t)
    ensures t in Run(s, evs).deadline
    ensures t in Run(s, evs).sleeping ==> Enabled(Run(s, evs), Timeout(t))
    decreases |evs|
  {
    if evs != [] {
      assert evs[0] in evs && forall ev | ev in evs[1..] :: ev in evs;
      DeadlineCanExpire(Step(s, evs[0]), t, evs[1..]);
    }
  }

  /** What a timed pop starts with. */
  lemma TimedPopHasDeadline<T>(s: State<T>, t: Tid)
    requires Inv(s) && Enabled(s, Pop(t, Deadline)) && s.items == [] && !s.exit
    ensures var r := Step(s, Pop(t, Deadline));
            Waits(r, t) && t in r.deadline && t !in r.expired
  {
  }

  /** A wait that has timed out comes back the next time its thread runs, whatever
      happens in between. */
  lemma {:induction false} TimedOutComesBack<T>(s: State<T>, t: Tid, evs: seq<Event<T>>)
    requires Inv(s) && Enabled(s, Timeout(t)) && Valid(Step(s, Timeout(t)), evs) && Resume(t) !in evs
    ensures var u := Run(Step(s, Timeout(t)), evs);
            Inv(u) && (t in u.notified || t in u.stirred) && t in u.expired
    ensures var u := Run(Step(s, Timeout(t)), evs);
            Enabled(u, Resume(t)) ==> CameBack(u, Step(u, Resume(t)), t)
  {
    StepKeepsInv(s, Timeout(t));
    ExpiredStays(Step(s, Timeout(t)), t, evs);
    RunKeepsInv(Step(s, Timeout(t)), evs);
    var u := Run(Step(s, Timeout(t)), evs);
    if Enabled(u, Resume(t)) {
      ResumeComesBackIff(u, t);
    }
  }

  lemma {:induction false} ExpiredStays<T>(s: State<T>, t: Tid, evs: seq<Event<T>>)
    requires Inv(s) && (t in s.notified || t in s.stirred) && t in s.expired && Valid(s, evs) && Resume(t) !in evs
    ensures var u := Run(s, evs); (t in u.notified || t in u.stirred) && t in u.expired
    decreases |evs|
  {
    if evs != [] {
      StepKeepsInv(s, evs[0]);
      assert evs[0] in evs && forall ev | ev in evs[1..] :: ev in evs;
      ExpiredStays(Step(s, evs[0]), t, evs[1..]);
    }
  }

  /** A pop without a time limit never times out: it comes back with an item, or after
      exit. */
  lemma {:induction false} ForeverNeedsAnItem<T>(s: State<T>, t: Tid, evs: seq<Event<T>>)
    requires Inv(s) && Enabled(s, Pop(t, Forever)) && s.items == [] && !s.exit
    requires Valid(Step(s, Pop(t, Forever)), evs) && forall ev | ev in evs :: !(ev.Pop? && ev.t == t)
    ensures var u := Run(Step(s, Pop(t, Forever)), evs);
            && !Enabled(u, Timeout(t))
            && (Enabled(u, Resume(t)) && Step(u, Resume(t)).Idle(t) ==> u.items != [] || u.exit)
  {
    StepKeepsInv(s, Pop(t, Forever));
    UnlimitedStays(Step(s, Pop(t, Forever)), t, evs);
    RunKeepsInv(Step(s, Pop(t, Forever)), evs);
    var u := Run(Step(s, Pop(t, Forever)), evs);
    if Enabled(u, Resume(t)) {
      ResumeComesBackIff(u, t);
    }
  }

  lemma {:induction false} UnlimitedStays<T>(s: State<T>, t: Tid, evs: seq<Event<T>>)
    requires Valid(s, evs) && t !in s.deadline && t !in s.expired
    requires forall ev | ev in evs :: !(ev.Pop? && ev.t == t)
    ensures t !in Run(s, evs).deadline && t !in Run(s, evs).expired
    decreases |evs|
  {
    if evs != [] {
      assert evs[0] in evs && forall ev | ev in evs[1..] :: ev in evs;
      UnlimitedStays(Step(s, evs[0]), t, evs[1..]);
    }
  }

  /** An exit() call that runs to its end wakes everybody; only a thread just about to
      sleep can hold it up. */
  lemma ExitWakesAll<T>(s: State<T>) returns (evs: seq<Event<T>>)
    requires Inv(s)
    ensures evs == [ExitFlag] + (if s.holder.Deciding? then [Sleep(s.holder.t)] else []) + [ExitNotify]
    ensures Valid(s, evs)
    ensures var r := Run(s, evs);
            && r.exitDone && r.exit && r.sleeping == {}
            && r.notified >= s.sleeping + s.notified && r.items == s.items
  {
    var a := Step(s, ExitFlag);
    if s.holder.Deciding? {
      evs := [ExitFlag, Sleep(s.holder.t), ExitNotify];
      var b := Step(a, Sleep(s.holder.t));
      assert evs[1..] == [Sleep(s.holder.t), ExitNotify] && evs[1..][1..] == [ExitNotify] && evs[1..][1..][1..] == [];
      assert Run(Step(b, ExitNotify), []) == Step(b, ExitNotify);
      assert Run(b, [ExitNotify]) == Step(b, ExitNotify);
    } else {
      evs := [ExitFlag, ExitNotify];
      assert evs[1..] == [ExitNotify] && evs[1..][1..] == [];
      assert Run(Step(a, ExitNotify), []) == Step(a, ExitNotify);
    }
  }

  // --------------------------------------------------------------------- object

  /** The queue proper: what push and the tail of pop_wait do under the mutex. Each
      method moves the object exactly as the step moves every state that shows it. */
  class SafeQueue<T(!new)> {
    var items: seq<T>
    const capacity: nat
    var exit: bool

    static ghost predicate Shows(s: State<T>, items: seq<T>, capacity: nat, exit: bool) {
      s.items == items && s.capacity == capacity && s.exit == exit
    }

    constructor (capacity: nat)
      ensures Shows(Init<T>(capacity), items, this.capacity, exit)
    {
      items, exit, this.capacity := [], false, capacity;
    }

    method Exit()
      modifies this`exit
      ensures forall s | Shows(s, old(items), capacity, old(exit)) :: Shows(Step(s, ExitFlag), items, capacity, exit)
    {
      exit := true;
    }

    method Push(v: T) returns (ok: bool)
      modifies this`items
      ensures ok <==> !exit && (capacity == 0 || |old(items)| < capacity)
      ensures forall s, wake | Shows(s, old(items), capacity, old(exit)) && Enabled(s, Event.Push(v, wake)) ::
                Shows(Step(s, Event.Push(v, wake)), items, capacity, exit)
    {
      if exit || (capacity != 0 && |items| >= capacity) {
        return false;
      }
      items := items + [v];
      return true;
    }

    method PopNow(v0: T) returns (ok: bool, v: T)
      modifies this`items
      ensures ok <==> old(items) != []
      ensures ok ==> [v] + items == old(items)
      ensures !ok ==> items == old(items) && v == v0
      ensures forall s | Shows(s, old(items), capacity, old(exit)) :: Shows(Take(s), items, capacity, exit)
    {
      if |items| == 0 {
        return false, v0;
      }
      ok, v := true, items[0];
      items := items[1..];
    }
  }
}
