/** The idle lists of EventsImp (src/common/handy/event_base.cc:164-201): one list
    per idle limit, appended to and moved to the back under a clock that never runs
    backwards, and scanned from the front until the first fresh node. */
module Idle {

  datatype Node = Node(id: nat, con: nat, stamp: int)

  /** The lists by idle limit in seconds, the clock in seconds, and how many nodes
      were ever registered; the id of a node stands for its list iterator. */
  datatype Lists = Lists(of: map<int, seq<Node>>, clock: int, count: nat)

  function At(s: Lists, idle: int): seq<Node> {
    if idle in s.of then s.of[idle] else []
  }

  // ----------------------------------------------------------------- operations

  function Remove(l: seq<Node>, id: nat): seq<Node> {
    if l == [] then [] else if l[0].id == id then l[1..] else [l[0]] + Remove(l[1..], id)
  }

  predicate Holds(l: seq<Node>, id: nat) { exists n | n in l :: n.id == id }

  function Find(l: seq<Node>, id: nat): (n: Node)
    requires Holds(l, id)
    ensures n in l && n.id == id
  {
    if l[0].id == id then l[0] else
      assert l == [l[0]] + l[1..];
      Find(l[1..], id)
  }

  datatype Op =
    | Register(idle: int, con: nat)
    | Unregister(idle: int, id: nat)
    | Update(idle: int, id: nat)
    | Tick(to: int)

  /** An iterator may be used only while its node is in the list. */
  predicate Legal(s: Lists, op: Op) {
    match op
    case Register(_, _) => true
    case Unregister(idle, id) => Holds(At(s, idle), id)
    case Update(idle, id) => Holds(At(s, idle), id)
    case Tick(to) => s.clock <= to
  }

  function Apply(s: Lists, op: Op): Lists
    requires Legal(s, op)
  {
    match op
    case Register(idle, con) =>
      s.(of := s.of[idle := At(s, idle) + [Node(s.count, con, s.clock)]], count := s.count + 1)
    case Unregister(idle, id) => s.(of := s.of[idle := Remove(At(s, idle), id)])
    case Update(idle, id) =>
      var n := Find(At(s, idle), id).(stamp := s.clock);
      s.(of := s.of[idle := Remove(At(s, idle), id) + [n]])
    case Tick(to) => s.(clock := to)
  }

  // ------------------------------------------------------------------ invariant

  ghost predicate Sorted(l: seq<Node>) {
    forall i, j | 0 <= i < j < |l| :: l[i].stamp <= l[j].stamp
  }

  predicate Bounded(l: seq<Node>, clock: int) {
    forall n | n in l :: n.stamp <= clock
  }

  /** An id names one node of the list, and ids to come are new. */
  ghost predicate Named(l: seq<Node>, count: nat) {
    && (forall i, j | 0 <= i < j < |l| :: l[i].id != l[j].id)
    && (forall n | n in l :: n.id < count)
  }

  ghost predicate Good(l: seq<Node>, clock: int, count: nat) {
    Sorted(l) && Bounded(l, clock) && Named(l, count)
  }

  ghost predicate Inv(s: Lists) {
    forall idle | idle in s.of :: Good(s.of[idle], s.clock, s.count)
  }

  /** Removal takes out exactly the named node. */
  lemma {:induction false} RemoveIsExact(l: seq<Node>, id: nat, clock: int, count: nat)
    requires Good(l, clock, count)
    ensures Good(Remove(l, id), clock, count)
    ensures forall n :: n in Remove(l, id) <==> n in l && n.id != id
  {
    if l != [] {
      var x, rest := l[0], l[1..];
      assert l == [x] + rest;
      forall n | n in rest
        ensures x.stamp <= n.stamp && x.id != n.id
      {
        var j :| 0 <= j < |rest| && rest[j] == n;
        assert l[j + 1] == n;
      }
      RemoveIsExact(rest, id, clock, count);
      if x.id != id {
        ConsIsGood(x, Remove(rest, id), clock, count);
      }
    }
  }

  lemma ConsIsGood(x: Node, l: seq<Node>, clock: int, count: nat)
    requires Good(l, clock, count) && x.stamp <= clock && x.id < count
    requires forall n | n in l :: x.stamp <= n.stamp && x.id != n.id
    ensures Good([x] + l, clock, count)
  {
    var r := [x] + l;
    forall i, j | 0 <= i < j < |r|
      ensures r[i].stamp <= r[j].stamp && r[i].id != r[j].id
    {
      assert r[j] in l;
    }
  }

  lemma SnocIsGood(l: seq<Node>, x: Node, clock: int, count: nat)
    requires Good(l, clock, count) && x.stamp == clock && x.id < count
    requires forall n | n in l :: x.id != n.id
    ensures Good(l + [x], clock, count)
  {
    var r := l + [x];
    forall i, j | 0 <= i < j < |r|
      ensures r[i].stamp <= r[j].stamp && r[i].id != r[j].id
    {
      assert r[i] in l;
    }
  }

  lemma ApplyKeepsInv(s: Lists, op: Op)
    requires Inv(s) && Legal(s, op)
    ensures Inv(Apply(s, op)) && s.clock <= Apply(s, op).clock && s.count <= Apply(s, op).count
  {
    match op
    case Register(idle, con) =>
      assert Good(At(s, idle), s.clock, s.count + 1);
      SnocIsGood(At(s, idle), Node(s.count, con, s.clock), s.clock, s.count + 1);
    case Unregister(idle, id) => RemoveIsExact(At(s, idle), id, s.clock, s.count);
    case Update(idle, id) =>
      RemoveIsExact(At(s, idle), id, s.clock, s.count);
      var n := Find(At(s, idle), id);
      SnocIsGood(Remove(At(s, idle), id), n.(stamp := s.clock), s.clock, s.count);
    case Tick(_) =>
  }

  lemma OneNode(l: seq<Node>, clock: int, count: nat, x: Node, y: Node)
    requires Good(l, clock, count) && x in l && y in l && x.id == y.id
    ensures x == y
  {
  }

  /** What one operation does to the list of one limit. */
  lemma ApplyAt(s: Lists, op: Op, idle: int, n: Node)
    requires Inv(s) && Legal(s, op)
    ensures n in At(Apply(s, op), idle) <==>
            match op
            case Register(i, con) => n in At(s, idle) || (i == idle && n == Node(s.count, con, s.clock))
            case Unregister(i, id) => n in At(s, idle) && (i != idle || n.id != id)
            case Update(i, id) =>
              if i != idle || n.id != id then n in At(s, idle)
              else Holds(At(s, idle), id) && n == Find(At(s, idle), id).(stamp := s.clock)
            case Tick(_) => n in At(s, idle)
  {
    match op
    case Unregister(i, id) => RemoveIsExact(At(s, i), id, s.clock, s.count);
    case Update(i, id) => RemoveIsExact(At(s, i), id, s.clock, s.count);
    case _ =>
  }

  predicate Valid(s: Lists, ops: seq<Op>)
    decreases |ops|
  {
    ops != [] ==> Legal(s, ops[0]) && Valid(Apply(s, ops[0]), ops[1..])
  }

  function Run(s: Lists, ops: seq<Op>): Lists
    requires Valid(s, ops)
    decreases |ops|
  {
    if ops == [] then s else Run(Apply(s, ops[0]), ops[1..])
  }

  /** Every run of registrations, updates and removals under a clock that never
      runs backwards keeps every list sorted from least to most recently active. */
  lemma {:induction false} RunKeepsSorted(s: Lists, ops: seq<Op>)
    requires Inv(s) && Valid(s, ops)
    ensures Inv(Run(s, ops)) && s.clock <= Run(s, ops).clock
    decreases |ops|
  {
    if ops != [] {
      ApplyKeepsInv(s, ops[0]);
      RunKeepsSorted(Apply(s, ops[0]), ops[1..]);
    }
  }

  // ----------------------------------------------------------------------- scan

  predicate Stale(n: Node, idle: int, now: int) { n.stamp + idle <= now }

  /** What a full filter of the list would call. */
  function AllStale(l: seq<Node>, idle: int, now: int): seq<Node> {
    if l == [] then []
    else (if Stale(l[0], idle, now) then [l[0]] else []) + AllStale(l[1..], idle, now)
  }

  lemma {:induction false} PrefixIsFilter(l: seq<Node>, idle: int, now: int, k: nat)
    requires Sorted(l) && k <= |l|
    requires forall i | 0 <= i < k :: Stale(l[i], idle, now)
    requires k < |l| ==> !Stale(l[k], idle, now)
    ensures AllStale(l, idle, now) == l[..k]
  {
    if l == [] {
    } else if k == 0 {
      NoneStale(l, idle, now);
    } else {
      PrefixIsFilter(l[1..], idle, now, k - 1);
      assert l[..k] == [l[0]] + l[1..][..k - 1];
    }
  }

  lemma {:induction false} NoneStale(l: seq<Node>, idle: int, now: int)
    requires Sorted(l) && (l != [] ==> !Stale(l[0], idle, now))
    ensures AllStale(l, idle, now) == []
  {
    if |l| > 1 {
      NoneStale(l[1..], idle, now);
    }
  }

  /** The loop as it stands: does another iteration follow, and what it leaves. */
  predicate Goes(l: seq<Node>, idle: int, now: int) { l != [] && Stale(l[0], idle, now) }

  function Iter(l: seq<Node>, idle: int, now: int, n: nat): seq<Node>
    decreases n
  {
    if n == 0 || !Goes(l, idle, now) then l
    else Iter(l[1..] + [l[0].(stamp := now)], idle, now, n - 1)
  }

  ghost predicate ScanEnds(l: seq<Node>, idle: int, now: int) {
    exists n: nat :: !Goes(Iter(l, idle, now, n), idle, now)
  }

  lemma {:induction false} GoesOn(l: seq<Node>, idle: int, now: int, n: nat)
    requires idle <= 0 && l != [] && Bounded(l, now)
    ensures Goes(Iter(l, idle, now, n), idle, now)
    decreases n
  {
    assert l[0] in l;
    if n > 0 {
      var m := l[1..] + [l[0].(stamp := now)];
      assert Bounded(m, now);
      GoesOn(m, idle, now, n - 1);
    }
  }

  lemma {:induction false} Halts(l: seq<Node>, idle: int, now: int, moved: nat)
    requires idle > 0 && moved <= |l|
    requires forall i | |l| - moved <= i < |l| :: l[i].stamp == now
    ensures !Goes(Iter(l, idle, now, |l| - moved), idle, now)
    decreases |l| - moved
  {
    if Goes(l, idle, now) {
      Halts(l[1..] + [l[0].(stamp := now)], idle, now, moved + 1);
    }
  }

  /** The loop ends exactly when the limit is positive or there is nothing to scan:
      with a limit of zero a touched node is stale again at once. */
  lemma ScanEndsIff(l: seq<Node>, idle: int, now: int)
    requires Bounded(l, now)
    ensures ScanEnds(l, idle, now) <==> idle > 0 || l == []
  {
    if l == [] {
      assert !Goes(Iter(l, idle, now, 0), idle, now);
    } else if idle > 0 {
      Halts(l, idle, now, 0);
    } else {
      forall n: nat
        ensures Goes(Iter(l, idle, now, n), idle, now)
      {
        GoesOn(l, idle, now, n);
      }
    }
  }

  lemma {:induction false} AllStaleIs(l: seq<Node>, idle: int, now: int, n: Node)
    ensures n in AllStale(l, idle, now) <==> n in l && Stale(n, idle, now)
  {
    if l != [] {
      assert l == [l[0]] + l[1..];
      AllStaleIs(l[1..], idle, now, n);
    }
  }

  // ------------------------------------------------------------ scan after scan

  function ClockAfter(clock: int, op: Op): int { if op.Tick? then op.to else clock }

  /** Some update of the node happens later than `limit`. */
  predicate UpdatedAfter(clock: int, ops: seq<Op>, idle: int, id: nat, limit: int)
    decreases |ops|
  {
    ops != [] &&
      ((ops[0] == Update(idle, id) && clock > limit) || UpdatedAfter(ClockAfter(clock, ops[0]), ops[1..], idle, id, limit))
  }

  /** The list of `idle` holds a node named `id` that is stale at `now`. */
  predicate StaleIn(s: Lists, idle: int, id: nat, now: int) {
    exists n | n in At(s, idle) :: n.id == id && Stale(n, idle, now)
  }

  lemma {:induction false} GoneStays(s: Lists, ops: seq<Op>, idle: int, id: nat)
    requires Inv(s) && Valid(s, ops) && id < s.count && !Holds(At(s, idle), id)
    ensures !Holds(At(Run(s, ops), idle), id)
    decreases |ops|
  {
    if ops != [] {
      var t := Apply(s, ops[0]);
      ApplyKeepsInv(s, ops[0]);
      forall n | n in At(t, idle)
        ensures n.id != id
      {
        ApplyAt(s, ops[0], idle, n);
      }
      GoneStays(t, ops[1..], idle, id);
    }
  }

  /** The fate of a registered node over any run: it is stale at `now` if and only if
      nobody unregistered it, it was stale by its first stamp, and no update came
      within the limit. */
  lemma {:induction false} StaleAfterIff(s: Lists, ops: seq<Op>, idle: int, n: Node, now: int)
    requires Inv(s) && Valid(s, ops) && n in At(s, idle)
    ensures StaleIn(Run(s, ops), idle, n.id, now) <==>
            Unregister(idle, n.id) !in ops && Stale(n, idle, now) && !UpdatedAfter(s.clock, ops, idle, n.id, now - idle)
    decreases |ops|
  {
    if ops == [] {
      forall m | m in At(s, idle) && m.id == n.id
        ensures m == n
      {
        OneNode(At(s, idle), s.clock, s.count, m, n);
      }
    } else {
      var op, rest := ops[0], ops[1..];
      var t := Apply(s, op);
      assert ops == [op] + rest;
      ApplyKeepsInv(s, op);
      if op == Unregister(idle, n.id) {
        forall m | m in At(t, idle)
          ensures m.id != n.id
        {
          ApplyAt(s, op, idle, m);
        }
        GoneStays(t, rest, idle, n.id);
      } else if op == Update(idle, n.id) {
        OneNode(At(s, idle), s.clock, s.count, Find(At(s, idle), n.id), n);
        ApplyAt(s, op, idle, n.(stamp := s.clock));
        StaleAfterIff(t, rest, idle, n.(stamp := s.clock), now);
        assert n.stamp <= s.clock;
      } else {
        ApplyAt(s, op, idle, n);
        StaleAfterIff(t, rest, idle, n, now);
      }
    }
  }

  /** The scan of `idle` at this moment calls the node named `id`. */
  predicate Calls(s: Lists, idle: int, id: nat) {
    exists n | n in AllStale(At(s, idle), idle, s.clock) :: n.id == id
  }

  lemma CallsIs(s: Lists, idle: int, id: nat)
    ensures Calls(s, idle, id) <==> StaleIn(s, idle, id, s.clock)
  {
    forall n: Node
      ensures n in AllStale(At(s, idle), idle, s.clock) <==> n in At(s, idle) && Stale(n, idle, s.clock)
    {
      AllStaleIs(At(s, idle), idle, s.clock, n);
    }
  }

  /** The scan stamps only its copy. So a node called once is called again by a scan
      after any run of operations if and only if the run did not unregister it and
      did not update it within the last `idle` seconds. */
  lemma {:induction false} CalledAgainIff(s: Lists, ops: seq<Op>, idle: int, n: Node)
    requires Inv(s) && Valid(s, ops) && n in AllStale(At(s, idle), idle, s.clock)
    ensures Calls(Run(s, ops), idle, n.id) <==>
            Unregister(idle, n.id) !in ops && !UpdatedAfter(s.clock, ops, idle, n.id, Run(s, ops).clock - idle)
  {
    AllStaleIs(At(s, idle), idle, s.clock, n);
    RunKeepsSorted(s, ops);
    CallsIs(Run(s, ops), idle, n.id);
    StaleAfterIff(s, ops, idle, n, Run(s, ops).clock);
  }

  /** A node registered under a limit and not heard of again is called by a scan if and
      only if at least that many seconds have passed. */
  lemma {:induction false} CalledOnceIdleLongEnough(s: Lists, idle: int, con: nat, later: int)
    requires Inv(s) && s.clock <= later
    ensures var t := Apply(Apply(s, Register(idle, con)), Tick(later));
            Calls(t, idle, s.count) <==> later - s.clock >= idle
  {
    var r := Apply(s, Register(idle, con));
    var t := Apply(r, Tick(later));
    var n := Node(s.count, con, s.clock);
    ApplyKeepsInv(s, Register(idle, con));
    assert At(t, idle) == At(s, idle) + [n];
    assert n in At(t, idle);
    CallsIs(t, idle, s.count);
    forall m | m in At(t, idle) && m.id == s.count
      ensures m == n
    {
      OneNode(At(r, idle), r.clock, r.count, m, n);
    }
  }

  /** An update puts the call off until that many seconds after it. */
  lemma {:induction false} UpdatePutsOff(s: Lists, idle: int, n: Node, later: int)
    requires Inv(s) && n in At(s, idle) && s.clock <= later
    ensures Legal(s, Update(idle, n.id))
    ensures var t := Apply(Apply(s, Update(idle, n.id)), Tick(later));
            Calls(t, idle, n.id) <==> later - s.clock >= idle
  {
    var u, k := Update(idle, n.id), Tick(later);
    var ops := [u, k];
    assert ops[1..] == [k] && ops[1..][1..] == [];
    ApplyKeepsInv(s, u);
    var t := Apply(Apply(s, u), k);
    OneNode(At(s, idle), s.clock, s.count, Find(At(s, idle), n.id), n);
    var m := n.(stamp := s.clock);
    ApplyAt(s, u, idle, m);
    assert At(t, idle) == At(Apply(s, u), idle);
    CallsIs(t, idle, n.id);
    forall x | x in At(t, idle) && x.id == n.id
      ensures x == m
    {
      OneNode(At(Apply(s, u), idle), s.clock, s.count, x, m);
    }
  }
}
