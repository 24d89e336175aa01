/** Whether the worker pool of src/common/handy/threads.cc can finish what it has
    accepted. After exit every worker that is already past its check takes at most
    one more task. */
module PoolProgress {
  import opened Collections
  import opened SafeQueues
  import opened ThreadPools

  /** Workers between their check of exited() and the end of their pop. */
  function Poppers(p: Pool): set<Tid> {
    set t | t in p.worker && p.worker[t] == Popping
  }

  /** Whoever the queue knows about is a worker inside its pop, and workers stop only
      after exit. */
  ghost predicate Manned(p: Pool) {
    && (forall t | t in p.q.sleeping || t in p.q.notified || t in p.q.stirred :: At(p, t, Popping))
    && (p.q.holder.Deciding? ==> At(p, p.q.holder.t, Popping))
    && (forall t | t in p.worker && p.worker[t] == Stopped :: p.q.exit)
  }

  ghost predicate ProgressInv(p: Pool) { PoolInv(p) && Manned(p) }

  /** A queue step that moves only threads that are workers inside their pop. */
  ghost predicate Contained(q: State<nat>, r: State<nat>, t: Tid) {
    && (forall x | x in r.sleeping || x in r.notified || x in r.stirred ::
          x == t || x in q.sleeping || x in q.notified || x in q.stirred)
    && (r.holder.Deciding? ==> r.holder.t == t || r.holder == q.holder)
    && (q.exit ==> r.exit)
  }

  lemma QueueSteps(q: State<nat>, ev: Event<nat>, t: Tid)
    requires Enabled(q, ev) && (ev.Pop? || ev.Resume? || ev.Sleep? ==> ev.t == t)
    ensures Contained(q, Step(q, ev), t)
  {
  }

  /** A worker whose pop has come back is no longer known to the queue. */
  lemma PopReturns(q: State<nat>, ev: Event<nat>, t: Tid)
    requires Inv(q) && Enabled(q, ev) && (ev == Resume(t) || (ev.Pop? && ev.t == t)) && Step(q, ev).holder != Deciding(t)
    ensures var r := Step(q, ev);
            t !in r.sleeping && t !in r.notified && t !in r.stirred
  {
  }

  lemma PopKeepsManned(p: Pool, ev: Event<nat>, t: Tid)
    requires PoolInv(p) && Manned(p) && At(p, t, Popping) && Enabled(p.q, ev)
    requires ev == Resume(t) || ev == Pop(t, Forever)
    ensures Manned(AfterPop(p, t, Step(p.q, ev)))
  {
    var r := Step(p.q, ev);
    QueueSteps(p.q, ev, t);
    if r.holder != Deciding(t) {
      PopReturns(p.q, ev, t);
    }
  }

  lemma ActKeepsManned(p: Pool, act: Act)
    requires PoolInv(p) && Manned(p) && CanAct(p, act)
    ensures Manned(Do(p, act))
  {
    match act
    case AddTask(wake) => QueueSteps(p.q, Push(|p.q.accepted|, wake), wake);
    case Check(t) =>
    case PopBy(t) => PopKeepsManned(p, Pop(t, Forever), t);
    case ResumeBy(t) => PopKeepsManned(p, Resume(t), t);
    case Other(ev) => QueueSteps(p.q, ev, if ev.Sleep? then ev.t else 0);
    case Done(t) =>
  }

  lemma {:induction false} ActKeepsProgressInv(p: Pool, act: Act)
    requires ProgressInv(p) && CanAct(p, act)
    ensures ProgressInv(Do(p, act))
  {
    ActKeepsInv(p, act);
    ActKeepsManned(p, act);
  }

  lemma {:induction false} RunKeepsProgressInv(p: Pool, acts: seq<Act>)
    requires ProgressInv(p) && ValidRun(p, acts)
    ensures ProgressInv(RunPool(p, acts))
    decreases |acts|
  {
    if acts != [] {
      ActKeepsProgressInv(p, acts[0]);
      RunKeepsProgressInv(Do(p, acts[0]), acts[1..]);
    }
  }

  lemma StartedIsInOrder(workers: set<Tid>, capacity: nat)
    ensures ProgressInv(Started(workers, capacity))
  {
  }

  // --------------------------------------------------------------- what is in reach

  /** Enough hands for what is queued: any worker before exit; after it, one worker past
      its check for each task. */
  predicate InReach(p: Pool) {
    p.q.items == [] || (if p.q.exit then |p.q.items| <= |Poppers(p)| else p.worker != map[])
  }

  lemma PoppersAfter(p: Pool, t: Tid, phase: Phase)
    requires t in p.worker
    ensures phase != Popping ==> Poppers(p.(worker := p.worker[t := phase])) == Poppers(p) - {t}
    ensures phase == Popping ==> Poppers(p.(worker := p.worker[t := phase])) == Poppers(p) + {t}
  {
  }

  /** A pop that finds a task. */
  lemma PopTakes(p: Pool, act: Act, t: Tid)
    requires ProgressInv(p) && CanAct(p, act) && (act == PopBy(t) || act == ResumeBy(t)) && p.q.items != []
    ensures var r := Do(p, act);
            && r.q.items == p.q.items[1..] && r.q.exit == p.q.exit && r.q.accepted == p.q.accepted
            && r.worker.Keys == p.worker.Keys && |Poppers(r)| == |Poppers(p)| - 1
  {
    PoppersAfter(p, t, Running(p.q.items[0]));
    assert t in Poppers(p);
    assert Poppers(Do(p, act)) == Poppers(p) - {t};
  }

  /** With tasks queued, nobody running and somebody popping, somebody can take one. */
  lemma SomebodyPops(p: Pool) returns (act: Act, t: Tid)
    requires ProgressInv(p) && p.q.items != [] && Poppers(p) != {}
    ensures CanAct(p, act) && (act == PopBy(t) || act == ResumeBy(t))
  {
    assert p.q.holder.Free?;
    if p.q.sleeping != {} {
      t := SomebodyTakes(p.q);
      act := ResumeBy(t);
    } else {
      t := Pick(Poppers(p));
      act := if t in p.q.notified || t in p.q.stirred then ResumeBy(t) else PopBy(t);
    }
  }

  /** One act towards the end: finish a task, take one, or pass the check. */
  lemma Onward(p: Pool) returns (act: Act)
    requires ProgressInv(p) && InReach(p) && (p.q.items != [] || p.owner != map[])
    ensures CanAct(p, act)
    ensures var r := Do(p, act);
            && ProgressInv(r) && InReach(r) && r.q.accepted == p.q.accepted
            && (|| |r.q.items| < |p.q.items|
                || (r.q.items == p.q.items && |r.owner| < |p.owner|)
                || (r.q.items == p.q.items && |r.owner| == |p.owner| && Poppers(p) == {} && Poppers(r) != {}))
  {
    if p.owner != map[] {
      var i := Pick(p.owner.Keys);
      act := Done(p.owner[i]);
      FinishOne(p, i);
    } else if Poppers(p) != {} {
      var t;
      act, t := SomebodyPops(p);
      PopTakes(p, act, t);
    } else {
      var t := Pick(p.worker.Keys);
      act := Check(t);
      assert p.worker[t] == Top by {
        assert p.worker[t] == Popping ==> t in Poppers(p);
      }
      assert t in Poppers(Do(p, act));
    }
    ActKeepsProgressInv(p, act);
  }

  lemma FinishOne(p: Pool, i: nat)
    requires ProgressInv(p) && InReach(p) && i in p.owner
    ensures CanAct(p, Done(p.owner[i]))
    ensures var r := Do(p, Done(p.owner[i]));
            r.q == p.q && InReach(r) && |r.owner| == |p.owner| - 1
  {
    var t := p.owner[i];
    var r := Do(p, Done(t));
    PoppersAfter(p, t, Top);
    assert t !in Poppers(p) && Poppers(r) == Poppers(p);
    assert r.owner.Keys == p.owner.Keys - {i};
    assert |r.owner.Keys| == |p.owner.Keys| - 1;
  }

  ghost predicate AllFinished(p: Pool, n: nat) { forall i | 0 <= i < n :: i in p.finished }

  /** The workers alone can finish everything accepted so far. */
  lemma {:induction false} CanFinish(p: Pool) returns (acts: seq<Act>)
    requires ProgressInv(p) && InReach(p)
    ensures Finishes(p, acts)
    decreases |p.q.items|, |p.owner|, Poppers(p) == {}
  {
    if p.q.items == [] && p.owner == map[] {
      assert p.q.accepted == p.q.popped + [];
      acts := [];
    } else {
      var act := Onward(p);
      var rest := CanFinish(Do(p, act));
      acts := [act] + rest;
      assert acts[1..] == rest;
    }
  }

  /** Too few hands, and there will be no more. */
  ghost predicate OutOfReach(p: Pool, n: nat) {
    && |Poppers(p)| < |p.q.items| && (p.q.exit || p.worker == map[])
    && |p.q.popped| < n && (p.worker != map[] ==> |p.q.accepted| <= n)
  }

  lemma OutOfReachStays(p: Pool, act: Act, n: nat)
    requires ProgressInv(p) && CanAct(p, act) && OutOfReach(p, n)
    ensures OutOfReach(Do(p, act), n)
  {
    var r := Do(p, act);
    ActKeepsInv(p, act);
    match act
    case Check(t) => PoppersAfter(p, t, Stopped); Smaller(Poppers(r), Poppers(p));
    case PopBy(t) => PopTakes(p, act, t); TakenStaysBelow(r, n);
    case ResumeBy(t) => PopTakes(p, act, t); TakenStaysBelow(r, n);
    case Done(t) => PoppersAfter(p, t, Top); assert Poppers(r) == Poppers(p);
    case AddTask(_) => assert Poppers(r) == Poppers(p);
    case Other(_) => assert Poppers(r) == Poppers(p);
  }

  lemma TakenStaysBelow(r: Pool, n: nat)
    requires r.q.accepted == r.q.popped + r.q.items && r.q.items != [] && |r.q.accepted| <= n
    ensures |r.q.popped| < n
  {
  }

  lemma {:induction false} OutOfReachForever(p: Pool, acts: seq<Act>, n: nat)
    requires ProgressInv(p) && OutOfReach(p, n) && ValidRun(p, acts)
    ensures !AllFinished(RunPool(p, acts), n)
    decreases |acts|
  {
    if acts == [] {
      assert n - 1 !in p.finished;
    } else {
      OutOfReachStays(p, acts[0], n);
      ActKeepsProgressInv(p, acts[0]);
      OutOfReachForever(Do(p, acts[0]), acts[1..], n);
    }
  }

  /** This run finishes everything accepted so far. */
  ghost predicate Finishes(p: Pool, acts: seq<Act>) {
    ValidRun(p, acts) && AllFinished(RunPool(p, acts), |p.q.accepted|)
  }

  /** From every reachable state, everything accepted can still be finished if and only
      if nothing is queued, or exit has not been called and there is a worker, or
      every queued task has a worker that was past its check before exit. */
  lemma FinishIff(p: Pool)
    requires ProgressInv(p)
    ensures InReach(p) <==> exists acts :: Finishes(p, acts)
  {
    if InReach(p) {
      var acts := CanFinish(p);
      assert Finishes(p, acts);
    } else {
      assert p.worker == map[] ==> Poppers(p) == {};
      assert OutOfReach(p, |p.q.accepted|);
      forall acts
        ensures !Finishes(p, acts)
      {
        if ValidRun(p, acts) {
          OutOfReachForever(p, acts, |p.q.accepted|);
        }
      }
    }
  }

  /** The same for every run of a started pool. */
  lemma StartedFinishIff(workers: set<Tid>, capacity: nat, acts: seq<Act>)
    requires ValidRun(Started(workers, capacity), acts)
    ensures var p := RunPool(Started(workers, capacity), acts);
            InReach(p) <==> exists more :: Finishes(p, more)
  {
    StartedIsInOrder(workers, capacity);
    RunKeepsProgressInv(Started(workers, capacity), acts);
    FinishIff(RunPool(Started(workers, capacity), acts));
  }

  /** What the destructor reports: a task accepted before exit that nobody takes. */
  lemma ExitLeavesTasks(workers: set<Tid>)
    ensures var acts := [AddTask(0), Other(ExitFlag)];
            && ValidRun(Started(workers, 0), acts)
            && !InReach(RunPool(Started(workers, 0), acts))
  {
    var p := Started(workers, 0);
    var acts := [AddTask(0), Other(ExitFlag)];
    assert acts[1..] == [Other(ExitFlag)] && acts[1..][1..] == [];
    var r := Do(Do(p, acts[0]), acts[1]);
    assert Poppers(r) == {};
    assert RunPool(r, []) == r;
  }
}
