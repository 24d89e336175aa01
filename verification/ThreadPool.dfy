/** The worker pool of src/common/handy/threads.cc on top of the queue's steps. */
module ThreadPools {
  import opened Collections
  import opened SafeQueues

  /** Where a worker is in its loop. */
  datatype Phase = Top | Popping | Running(task: nat) | Stopped

  /** Tasks are numbered in order of acceptance. `owner` maps every running task to
      the worker that runs it. */
  datatype Pool = Pool(q: State<nat>, worker: map<Tid, Phase>, owner: map<nat, Tid>, finished: seq<nat>)

  datatype Act =
    | AddTask(wake: Tid)
    | Check(t: Tid)                 // the loop condition reads exited()
    | PopBy(t: Tid)                 // pop_wait called
    | ResumeBy(t: Tid)              // pop_wait woken
    | Other(ev: Event<nat>)         // sleeping, spurious wakeups, exit
    | Done(t: Tid)

  predicate At(p: Pool, t: Tid, phase: Phase) { t in p.worker && p.worker[t] == phase }

  predicate CanAct(p: Pool, act: Act) {
    match act
    case AddTask(wake) => Enabled(p.q, Push(|p.q.accepted|, wake))
    case Check(t) => At(p, t, Top)
    case PopBy(t) => At(p, t, Popping) && Enabled(p.q, Pop(t, Forever))
    case ResumeBy(t) => At(p, t, Popping) && Enabled(p.q, Resume(t))
    case Other(ev) => (ev.Sleep? || ev.Spurious? || ev.ExitFlag? || ev.ExitNotify?) && Enabled(p.q, ev)
    case Done(t) => t in p.worker && p.worker[t].Running?
  }

  /** The worker after its pop moved the queue from `p.q` to `q`: it got the oldest
      task, it waits, or it came back empty-handed. */
  function AfterPop(p: Pool, t: Tid, q: State<nat>): Pool {
    if p.q.items != [] then
      var task := p.q.items[0];
      Pool(q, p.worker[t := Running(task)], p.owner[task := t], p.finished)
    else if q.holder == Deciding(t) then p.(q := q)
    else p.(q := q, worker := p.worker[t := Top])
  }

  function Do(p: Pool, act: Act): Pool
    requires CanAct(p, act)
  {
    match act
    case AddTask(wake) => p.(q := Step(p.q, Push(|p.q.accepted|, wake)))
    case Check(t) => p.(worker := p.worker[t := if p.q.exit then Stopped else Popping])
    case PopBy(t) => AfterPop(p, t, Step(p.q, Pop(t, Forever)))
    case ResumeBy(t) => AfterPop(p, t, Step(p.q, Resume(t)))
    case Other(ev) => p.(q := Step(p.q, ev))
    case Done(t) =>
      var task := p.worker[t].task;
      Pool(p.q, p.worker[t := Top], p.owner - {task}, p.finished + [task])
  }

  ghost predicate Tickets(q: State<nat>) {
    forall i | 0 <= i < |q.accepted| :: q.accepted[i] == i
  }

  /** Every popped task is either running on its owner or finished, never both. */
  ghost predicate Ledger(p: Pool) {
    && NoDup(p.finished)
    && (forall i | i in p.finished :: i < |p.q.popped|)
    && (forall i | i in p.owner :: i < |p.q.popped| && i !in p.finished && At(p, p.owner[i], Running(i)))
    && (forall t | t in p.worker && p.worker[t].Running? ::
          p.worker[t].task in p.owner && p.owner[p.worker[t].task] == t)
    && (forall i | 0 <= i < |p.q.popped| :: i in p.owner || i in p.finished)
  }

  ghost predicate PoolInv(p: Pool) {
    Inv(p.q) && Tickets(p.q) && Ledger(p)
  }

  lemma NextTicket(q: State<nat>)
    requires Inv(q) && Tickets(q) && q.items != []
    ensures q.items[0] == |q.popped|
  {
    assert q.accepted[|q.popped|] == q.items[0];
  }

  lemma PopKeepsLedger(p: Pool, t: Tid, q: State<nat>)
    requires PoolInv(p) && At(p, t, Popping)
    requires |q.popped| == |p.q.popped| + (if p.q.items != [] then 1 else 0)
    ensures Ledger(AfterPop(p, t, q))
  {
    if p.q.items != [] {
      NextTicket(p.q);
    }
  }

  lemma DoneKeepsLedger(p: Pool, t: Tid)
    requires PoolInv(p) && CanAct(p, Done(t))
    ensures Ledger(Do(p, Done(t)))
  {
    var task := p.worker[t].task;
    var r := Do(p, Done(t));
    assert r.finished[..|p.finished|] == p.finished && task !in p.finished;
    assert forall i :: i in r.finished <==> i in p.finished || i == task;
  }

  lemma ActKeepsInv(p: Pool, act: Act)
    requires PoolInv(p) && CanAct(p, act)
    ensures PoolInv(Do(p, act))
  {
    match act
    case AddTask(wake) => StepKeepsInv(p.q, Push(|p.q.accepted|, wake));
    case Check(t) =>
    case PopBy(t) =>
      StepKeepsInv(p.q, Pop(t, Forever));
      PopKeepsLedger(p, t, Step(p.q, Pop(t, Forever)));
    case ResumeBy(t) =>
      StepKeepsInv(p.q, Resume(t));
      PopKeepsLedger(p, t, Step(p.q, Resume(t)));
    case Other(ev) => StepKeepsInv(p.q, ev);
    case Done(t) => DoneKeepsLedger(p, t);
  }

  predicate ValidRun(p: Pool, acts: seq<Act>)
    decreases |acts|
  {
    acts != [] ==> CanAct(p, acts[0]) && ValidRun(Do(p, acts[0]), acts[1..])
  }

  function RunPool(p: Pool, acts: seq<Act>): Pool
    requires ValidRun(p, acts)
    decreases |acts|
  {
    if acts == [] then p else RunPool(Do(p, acts[0]), acts[1..])
  }

  lemma {:induction false} RunKeepsPoolInv(p: Pool, acts: seq<Act>)
    requires PoolInv(p) && ValidRun(p, acts)
    ensures PoolInv(RunPool(p, acts))
    decreases |acts|
  {
    if acts != [] {
      ActKeepsInv(p, acts[0]);
      RunKeepsPoolInv(Do(p, acts[0]), acts[1..]);
    }
  }

  function Started(workers: set<Tid>, capacity: nat): Pool {
    Pool(Init(capacity), map t | t in workers :: Top, map[], [])
  }

  /** Task `i` is waiting, running on exactly one worker, or finished exactly once. */
  ghost predicate InOnePlace(p: Pool, i: nat) {
    var queued, running, done := i in p.q.items, i in p.owner, i in p.finished;
    && (queued || running || done)
    && !(queued && running) && !(queued && done) && !(running && done)
    && (running ==> forall t :: At(p, t, Running(i)) <==> t == p.owner[i])
    && (done ==> multiset(p.finished)[i] == 1)
  }

  lemma {:induction false} CountedOnce(s: seq<nat>, x: nat)
    requires NoDup(s) && x in s
    ensures multiset(s)[x] == 1
  {
    var k :| 0 <= k < |s| && s[k] == x;
    assert s == s[..k] + [x] + s[k + 1..];
    assert x !in s[..k] && x !in s[k + 1..];
  }

  lemma QueuedAreLater(q: State<nat>, i: nat)
    requires Inv(q) && Tickets(q)
    ensures i in q.items <==> |q.popped| <= i < |q.accepted|
  {
    var k := |q.popped|;
    if i in q.items {
      var j :| 0 <= j < |q.items| && q.items[j] == i;
      assert q.accepted[k + j] == i;
    }
    if k <= i < |q.accepted| {
      assert q.items[i - k] == q.accepted[i];
    }
  }

  /** In every run of any number of workers, producers and exits, every accepted
      task is in exactly one place at every moment, so none is lost or run twice. */
  lemma ExactlyOnce(workers: set<Tid>, capacity: nat, acts: seq<Act>, i: nat)
    requires ValidRun(Started(workers, capacity), acts)
    requires i < |RunPool(Started(workers, capacity), acts).q.accepted|
    ensures InOnePlace(RunPool(Started(workers, capacity), acts), i)
  {
    var p0 := Started(workers, capacity);
    assert PoolInv(p0);
    RunKeepsPoolInv(p0, acts);
    var p := RunPool(p0, acts);
    QueuedAreLater(p.q, i);
    if i in p.finished {
      CountedOnce(p.finished, i);
    }
  }
}
