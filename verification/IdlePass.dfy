/** One pass of callIdles (src/common/handy/event_base.cc:164-179) over all limits,
    with callbacks that register, update and unregister nodes while it runs. */
module IdlePass {
  import opened Collections
  import opened Idle

  datatype Call = Call(idle: int, node: Node)

  /** What the callback of the latest call does, and how far the clock moves, as a
      function of all calls of the pass so far. Steps that would use an iterator
      whose node is gone are not taken. */
  type Script = seq<Call> -> seq<Op>

  /** The lists, the calls made, and the operations callbacks have performed. */
  datatype Pass = Pass(s: Lists, log: seq<Call>, done: seq<Op>)

  /** The operations of a callback that can be performed. */
  function Kept(s: Lists, ops: seq<Op>): (r: seq<Op>)
    ensures Valid(s, r)
    decreases |ops|
  {
    if ops == [] then []
    else if !Legal(s, ops[0]) then Kept(s, ops[1..])
    else
      var rest := Kept(Apply(s, ops[0]), ops[1..]);
      assert ([ops[0]] + rest)[1..] == rest;
      [ops[0]] + rest
  }

  function Respond(p: Pass, call: Call, script: Script): Pass {
    var log := p.log + [call];
    var ops := Kept(p.s, script(log));
    Pass(Run(p.s, ops), log, p.done + ops)
  }

  function CallAll(p: Pass, idle: int, nodes: seq<Node>, script: Script): Pass
    decreases |nodes|
  {
    if nodes == [] then p
    else CallAll(Respond(p, Call(idle, nodes[0]), script), idle, nodes[1..], script)
  }

  /** One limit: its list is copied, and the stale nodes of the copy are called. */
  function Visit(p: Pass, idle: int, now: int, script: Script): Pass {
    CallAll(p, idle, AllStale(At(p.s, idle), idle, now), script)
  }

  /** Limits above `from`, and below `to.k` if there is such a bound. */
  datatype Bound = Open | Under(k: int)

  predicate Within(x: int, from: int, to: Bound) { from < x && (to.Under? ==> x < to.k) }

  function Limits(s: Lists, from: int, to: Bound): set<int> {
    set x | x in s.of.Keys && Within(x, from, to)
  }

  /** What bounds the pass: the stale nodes of limits still to come. */
  function StaleSet(s: Lists, from: int, to: Bound, now: int): set<(int, Node)> {
    set x, n | x in Limits(s, from, to) && n in s.of[x] && Stale(n, x, now) :: (x, n)
  }

  predicate IsLeast(x: int, xs: set<int>) { x in xs && forall y | y in xs :: x <= y }

  lemma {:induction false} LeastExists(xs: set<int>) returns (x: int)
    requires xs != {}
    ensures IsLeast(x, xs)
    decreases |xs|
  {
    var w := Pick(xs);
    var rest := xs - {w};
    assert forall y | y in xs :: y == w || y in rest;
    x := w;
    if rest != {} {
      var z := LeastExists(rest);
      x := if w < z then w else z;
    }
  }

  ghost function Least(xs: set<int>): (x: int)
    requires xs != {}
    ensures IsLeast(x, xs)
  {
    assert exists x :: IsLeast(x, xs) by {
      var x := LeastExists(xs);
    }
    var x :| IsLeast(x, xs);
    x
  }

  // ------------------------------------------------------- what callbacks can change

  ghost predicate Fine(s: Lists, now: int) { Inv(s) && now <= s.clock }

  /** No operation makes a node stale: what is stamped during the pass is fresh. */
  lemma ApplyAddsNoStale(s: Lists, op: Op, from: int, to: Bound, now: int)
    requires Fine(s, now) && Legal(s, op) && from >= 0
    ensures Fine(Apply(s, op), now)
    ensures StaleSet(Apply(s, op), from, to, now) <= StaleSet(s, from, to, now)
  {
    ApplyKeepsInv(s, op);
    var t := Apply(s, op);
    forall x, n | x in Limits(t, from, to) && n in t.of[x] && Stale(n, x, now)
      ensures (x, n) in StaleSet(s, from, to, now)
    {
      ApplyAt(s, op, x, n);
      assert n in At(s, x);
    }
  }

  lemma {:induction false} RunAddsNoStale(s: Lists, ops: seq<Op>, from: int, to: Bound, now: int)
    requires Fine(s, now) && Valid(s, ops) && from >= 0
    ensures Fine(Run(s, ops), now)
    ensures StaleSet(Run(s, ops), from, to, now) <= StaleSet(s, from, to, now)
    decreases |ops|
  {
    if ops != [] {
      ApplyAddsNoStale(s, ops[0], from, to, now);
      RunAddsNoStale(Apply(s, ops[0]), ops[1..], from, to, now);
    }
  }

  lemma {:induction false} RunConcat(s: Lists, xs: seq<Op>, ys: seq<Op>)
    requires Valid(s, xs) && Valid(Run(s, xs), ys)
    ensures Valid(s, xs + ys) && Run(s, xs + ys) == Run(Run(s, xs), ys)
    decreases |xs|
  {
    if xs == [] {
      assert xs + ys == ys;
    } else {
      assert (xs + ys)[1..] == xs[1..] + ys;
      RunConcat(Apply(s, xs[0]), xs[1..], ys);
    }
  }

  /** `p` has been reached from `s0` by performing `p.done`. */
  ghost predicate From(s0: Lists, p: Pass, now: int) {
    Fine(s0, now) && Valid(s0, p.done) && Run(s0, p.done) == p.s && Fine(p.s, now)
  }

  function Calls(idle: int, nodes: seq<Node>): seq<Call> {
    seq(|nodes|, i requires 0 <= i < |nodes| => Call(idle, nodes[i]))
  }

  lemma {:induction false} CallAllIs(s0: Lists, p: Pass, idle: int, nodes: seq<Node>, script: Script, from: int, to: Bound, now: int)
    requires From(s0, p, now) && from >= 0
    ensures var q := CallAll(p, idle, nodes, script);
            && From(s0, q, now) && q.log == p.log + Calls(idle, nodes)
            && StaleSet(q.s, from, to, now) <= StaleSet(p.s, from, to, now)
    decreases |nodes|
  {
    if nodes == [] {
      assert p.log + Calls(idle, nodes) == p.log;
    } else {
      var r := Respond(p, Call(idle, nodes[0]), script);
      var ops := Kept(p.s, script(r.log));
      RunAddsNoStale(p.s, ops, from, to, now);
      RunConcat(s0, p.done, ops);
      CallAllIs(s0, r, idle, nodes[1..], script, from, to, now);
      assert Calls(idle, nodes) == [Call(idle, nodes[0])] + Calls(idle, nodes[1..]);
    }
  }

  // ------------------------------------------------------------------- the walk

  /** Visiting the next limit leaves less to do. */
  lemma VisitLowersLoad(s0: Lists, p: Pass, from: int, to: Bound, now: int, script: Script)
    requires From(s0, p, now) && from >= 0 && Limits(p.s, from, to) != {}
    ensures var x := Least(Limits(p.s, from, to));
            var q := Visit(p, x, now, script);
            && From(s0, q, now)
            && |StaleSet(q.s, x, to, now)| <= |StaleSet(p.s, from, to, now)|
            && (|StaleSet(q.s, x, to, now)| == |StaleSet(p.s, from, to, now)| ==>
                  |Limits(q.s, x, to)| < |Limits(p.s, from, to)|)
  {
    var x := Least(Limits(p.s, from, to));
    var nodes := AllStale(At(p.s, x), x, now);
    CallAllIs(s0, p, x, nodes, script, x, to, now);
    var q := Visit(p, x, now, script);
    var a, b := StaleSet(q.s, x, to, now), StaleSet(p.s, from, to, now);
    assert StaleSet(p.s, x, to, now) <= b;
    assert a <= b;
    Smaller(a, b);
    if nodes == [] {
      assert Limits(q.s, x, to) <= Limits(p.s, from, to);
      assert x in Limits(p.s, from, to) && x !in Limits(q.s, x, to);
      Smaller(Limits(q.s, x, to), Limits(p.s, from, to));
    } else {
      AllStaleIs(At(p.s, x), x, now, nodes[0]);
      assert (x, nodes[0]) in b && (x, nodes[0]) !in a;
    }
  }

  /** The outer loop: limits in ascending order, each list as it is when its turn
      comes. It terminates although callbacks may add limits, because whatever they
      register or update is fresh. */
  ghost function Walk(s0: Lists, p: Pass, from: int, to: Bound, now: int, script: Script): (q: Pass)
    requires From(s0, p, now) && from >= 0
    ensures From(s0, q, now)
    decreases |StaleSet(p.s, from, to, now)|, |Limits(p.s, from, to)|
  {
    if Limits(p.s, from, to) == {} then p else
      var x := Least(Limits(p.s, from, to));
      VisitLowersLoad(s0, p, from, to, now, script);
      Walk(s0, Visit(p, x, now, script), x, to, now, script)
  }

  /** The calls made for one limit, in order. */
  function LogOf(log: seq<Call>, k: int): seq<Node> {
    if log == [] then []
    else (if log[0].idle == k then [log[0].node] else []) + LogOf(log[1..], k)
  }

  lemma {:induction false} LogOfConcat(a: seq<Call>, b: seq<Call>, k: int)
    ensures LogOf(a + b, k) == LogOf(a, k) + LogOf(b, k)
    decreases |a|
  {
    if a == [] {
      assert a + b == b;
    } else {
      assert (a + b)[1..] == a[1..] + b && (a + b)[0] == a[0];
      LogOfConcat(a[1..], b, k);
      var head := if a[0].idle == k then [a[0].node] else [];
      assert head + (LogOf(a[1..], k) + LogOf(b, k)) == head + LogOf(a[1..], k) + LogOf(b, k);
    }
  }

  lemma {:induction false} LogOfCalls(idle: int, nodes: seq<Node>, k: int)
    ensures LogOf(Calls(idle, nodes), k) == if idle == k then nodes else []
    decreases |nodes|
  {
    if nodes != [] {
      assert Calls(idle, nodes)[1..] == Calls(idle, nodes[1..]);
      LogOfCalls(idle, nodes[1..], k);
    }
  }

  lemma VisitLog(s0: Lists, p: Pass, x: int, now: int, script: Script, k: int)
    requires From(s0, p, now)
    ensures LogOf(Visit(p, x, now, script).log, k)
         == LogOf(p.log, k) + if x == k then AllStale(At(p.s, x), x, now) else []
  {
    var nodes := AllStale(At(p.s, x), x, now);
    CallAllIs(s0, p, x, nodes, script, 0, Open, now);
    LogOfConcat(p.log, Calls(x, nodes), k);
    LogOfCalls(x, nodes, k);
  }

  lemma {:induction false} WalkSkips(s0: Lists, p: Pass, from: int, to: Bound, now: int, script: Script, k: int)
    requires From(s0, p, now) && from >= 0 && !Within(k, from, to)
    ensures LogOf(Walk(s0, p, from, to, now, script).log, k) == LogOf(p.log, k)
    decreases |StaleSet(p.s, from, to, now)|, |Limits(p.s, from, to)|
  {
    if Limits(p.s, from, to) != {} {
      var x := Least(Limits(p.s, from, to));
      VisitLowersLoad(s0, p, from, to, now, script);
      VisitLog(s0, p, x, now, script, k);
      WalkSkips(s0, Visit(p, x, now, script), x, to, now, script, k);
    }
  }

  lemma SameLeast(a: set<int>, b: set<int>)
    requires a != {} && b <= a && Least(a) in b
    ensures Least(b) == Least(a)
  {
  }

  lemma NoneBelow(s: Lists, from: int, k: int, x: int)
    requires IsLeast(x, Limits(s, from, Open)) && from < k <= x
    ensures Limits(s, from, Under(k)) == {} && (k < x ==> k !in s.of)
  {
    var below := Limits(s, from, Under(k));
    assert below <= Limits(s, from, Open);
    if below != {} {
      var y := Pick(below);
      assert false;
    }
    if k in s.of {
      assert k in Limits(s, from, Open);
    }
  }

  /** A limit is visited once, with its list as the visits below it left it. */
  lemma {:induction false} WalkVisits(s0: Lists, p: Pass, from: int, now: int, script: Script, k: int)
    requires From(s0, p, now) && 0 <= from < k
    ensures var w := Walk(s0, p, from, Under(k), now, script);
            LogOf(Walk(s0, p, from, Open, now, script).log, k) == LogOf(p.log, k) + AllStale(At(w.s, k), k, now)
    decreases |StaleSet(p.s, from, Open, now)|, |Limits(p.s, from, Open)|
  {
    var all := Limits(p.s, from, Open);
    if all == {} {
      assert k in p.s.of ==> k in all;
      assert Limits(p.s, from, Under(k)) <= all;
    } else if k <= Least(all) {
      WalkIsThere(s0, p, from, now, script, k);
    } else {
      var x := Least(all);
      SameLeast(all, Limits(p.s, from, Under(k)));
      VisitLowersLoad(s0, p, from, Open, now, script);
      VisitLowersLoad(s0, p, from, Under(k), now, script);
      VisitLog(s0, p, x, now, script, k);
      WalkVisits(s0, Visit(p, x, now, script), x, now, script, k);
    }
  }

  lemma WalkIsThere(s0: Lists, p: Pass, from: int, now: int, script: Script, k: int)
    requires From(s0, p, now) && 0 <= from < k && Limits(p.s, from, Open) != {} && k <= Least(Limits(p.s, from, Open))
    ensures Limits(p.s, from, Under(k)) == {}
    ensures LogOf(Walk(s0, p, from, Open, now, script).log, k) == LogOf(p.log, k) + AllStale(At(p.s, k), k, now)
  {
    var x := Least(Limits(p.s, from, Open));
    NoneBelow(p.s, from, k, x);
    VisitLowersLoad(s0, p, from, Open, now, script);
    VisitLog(s0, p, x, now, script, k);
    WalkSkips(s0, Visit(p, x, now, script), x, Open, now, script, k);
  }

  // --------------------------------------------------------------- what is called

  function Start(s: Lists): Pass { Pass(s, [], []) }

  /** The pass comes to an end: no limit of zero or less has anything to scan. */
  predicate Returns(s: Lists) { forall x | x in s.of :: x > 0 || s.of[x] == [] }

  /** Limits of zero or less come first, before any callback has run, so the pass comes
      to an end exactly when the scan of each of them does. */
  lemma ReturnsIff(s: Lists)
    requires Inv(s)
    ensures Returns(s) <==>
            forall x | x in s.of && x <= 0 :: ScanEnds(s.of[x], x, s.clock)
  {
    forall x | x in s.of && x <= 0
      ensures ScanEnds(s.of[x], x, s.clock) <==> s.of[x] == []
    {
      ScanEndsIff(s.of[x], x, s.clock);
    }
  }

  ghost function CallIdles(s: Lists, script: Script): Pass
    requires Inv(s) && Returns(s)
  {
    Walk(s, Start(s), 0, Open, s.clock, script)
  }

  /** The pass when it has dealt with all limits below `k`. */
  ghost function Before(s: Lists, script: Script, k: int): Pass
    requires Inv(s)
  {
    Walk(s, Start(s), 0, Under(k), s.clock, script)
  }

  predicate Called(log: seq<Call>, k: int, id: nat) {
    exists n | n in LogOf(log, k) :: n.id == id
  }

  /** Every update of the pass comes after the moment its staleness is judged by. */
  lemma {:induction false} UpdatedIs(s: Lists, ops: seq<Op>, idle: int, id: nat, limit: int)
    requires Valid(s, ops) && s.clock > limit
    ensures UpdatedAfter(s.clock, ops, idle, id, limit) <==> Update(idle, id) in ops
    decreases |ops|
  {
    if ops != [] {
      assert ops == [ops[0]] + ops[1..];
      UpdatedIs(Apply(s, ops[0]), ops[1..], idle, id, limit);
    }
  }

  /** One pass that comes to an end, whatever the callbacks register, update or unregister:
      - for every limit it calls, in order, what a full filter of that limit's list
        would call when its turn comes,
      - it calls only nodes that were stale when it began,
      - a node that was stale is called if and only if no callback of a smaller limit
        updated or unregistered it: what the callbacks of its own limit do comes too
        late, because the scan works on a copy. */
  lemma {:induction false} PassCallsIff(s: Lists, script: Script, k: int, n: Node)
    requires Inv(s) && Returns(s) && k > 0
    ensures LogOf(CallIdles(s, script).log, k) == AllStale(At(Before(s, script, k).s, k), k, s.clock)
    ensures n in LogOf(CallIdles(s, script).log, k) ==> n in At(s, k) && Stale(n, k, s.clock)
    ensures n in At(s, k) ==>
              (Called(CallIdles(s, script).log, k, n.id) <==>
                 && Stale(n, k, s.clock)
                 && Unregister(k, n.id) !in Before(s, script, k).done
                 && Update(k, n.id) !in Before(s, script, k).done)
  {
    PassIsFilter(s, script, k);
    FilterAfter(s, Before(s, script, k).done, k, n);
  }

  lemma PassIsFilter(s: Lists, script: Script, k: int)
    requires Inv(s) && Returns(s) && k > 0
    ensures var w := Before(s, script, k);
            && Valid(s, w.done) && Run(s, w.done) == w.s
            && LogOf(CallIdles(s, script).log, k) == AllStale(At(w.s, k), k, s.clock)
  {
    WalkVisits(s, Start(s), 0, s.clock, script, k);
  }

  lemma FilterAfter(s: Lists, ops: seq<Op>, k: int, n: Node)
    requires Inv(s) && Valid(s, ops) && k > 0
    ensures n in AllStale(At(Run(s, ops), k), k, s.clock) ==> n in At(s, k) && Stale(n, k, s.clock)
    ensures n in At(s, k) ==>
              ((exists m | m in AllStale(At(Run(s, ops), k), k, s.clock) :: m.id == n.id) <==>
                 Stale(n, k, s.clock) && Unregister(k, n.id) !in ops && Update(k, n.id) !in ops)
  {
    NothingNew(s, ops, k, n);
    if n in At(s, k) {
      StaleUnlessTouched(s, ops, k, n);
      StaleInIs(Run(s, ops), k, n.id, s.clock);
    }
  }

  /** Within a limit, each node is called at most once, oldest first. */
  lemma CalledOnce(s: Lists, script: Script, k: int)
    requires Inv(s) && Returns(s) && k > 0
    ensures var l := LogOf(CallIdles(s, script).log, k);
            forall i, j | 0 <= i < j < |l| :: l[i].id != l[j].id && l[i].stamp <= l[j].stamp
  {
    var w := Before(s, script, k);
    WalkVisits(s, Start(s), 0, s.clock, script, k);
    assert Good(At(w.s, k), w.s.clock, w.s.count);
    var m := StalePrefix(At(w.s, k), k, s.clock);
  }

  lemma {:induction false} StaleUnlessTouched(s: Lists, ops: seq<Op>, k: int, n: Node)
    requires Inv(s) && Valid(s, ops) && k > 0 && n in At(s, k)
    ensures StaleIn(Run(s, ops), k, n.id, s.clock) <==>
            Stale(n, k, s.clock) && Unregister(k, n.id) !in ops && Update(k, n.id) !in ops
  {
    var touched := Update(k, n.id) in ops;
    assert UpdatedAfter(s.clock, ops, k, n.id, s.clock - k) == touched by {
      UpdatedIs(s, ops, k, n.id, s.clock - k);
    }
    StaleAfterIff(s, ops, k, n, s.clock);
  }

  lemma StaleInIs(s: Lists, k: int, id: nat, now: int)
    ensures StaleIn(s, k, id, now) <==> exists n | n in AllStale(At(s, k), k, now) :: n.id == id
  {
    forall n: Node
      ensures n in AllStale(At(s, k), k, now) <==> n in At(s, k) && Stale(n, k, now)
    {
      AllStaleIs(At(s, k), k, now, n);
    }
  }

  lemma NothingNew(s: Lists, ops: seq<Op>, k: int, n: Node)
    requires Inv(s) && Valid(s, ops) && k > 0
    ensures n in AllStale(At(Run(s, ops), k), k, s.clock) ==> n in At(s, k) && Stale(n, k, s.clock)
  {
    RunAddsNoStale(s, ops, 0, Open, s.clock);
    AllStaleIs(At(Run(s, ops), k), k, s.clock, n);
    if n in AllStale(At(Run(s, ops), k), k, s.clock) {
      assert (k, n) in StaleSet(Run(s, ops), 0, Open, s.clock);
    }
  }

  // --------------------------------------------------------------------- object

  class IdleConns {
    var lists: map<int, seq<Node>>
    var clock: int
    var count: nat

    ghost function View(): Lists
      reads this
    {
      Lists(lists, clock, count)
    }

    constructor (now: int)
      ensures View() == Lists(map[], now, 0) && Inv(View())
    {
      lists, clock, count := map[], now, 0;
    }

    method RegisterIdle(idle: int, con: nat) returns (id: nat)
      requires Inv(View())
      modifies this
      ensures Inv(View()) && View() == Apply(old(View()), Register(idle, con)) && id == old(count)
    {
      ApplyKeepsInv(View(), Register(idle, con));
      var lst := if idle in lists then lists[idle] else [];
      id := count;
      lists := lists[idle := lst + [Node(id, con, clock)]];
      count := count + 1;
    }

    method UnregisterIdle(idle: int, id: nat)
      requires Inv(View()) && Legal(View(), Unregister(idle, id))
      modifies this
      ensures Inv(View()) && View() == Apply(old(View()), Unregister(idle, id))
    {
      ApplyKeepsInv(View(), Unregister(idle, id));
      lists := lists[idle := Remove(lists[idle], id)];
    }

    method UpdateIdle(idle: int, id: nat)
      requires Inv(View()) && Legal(View(), Update(idle, id))
      modifies this
      ensures Inv(View()) && View() == Apply(old(View()), Update(idle, id))
    {
      ApplyKeepsInv(View(), Update(idle, id));
      var n := Find(lists[idle], id).(stamp := clock);
      lists := lists[idle := Remove(lists[idle], id) + [n]];
    }

    /** A callback: the operations that can be performed, one after the other. */
    method RunCallback(ops: seq<Op>)
      requires Inv(View())
      modifies this
      ensures Inv(View()) && View() == Run(old(View()), Kept(old(View()), ops))
    {
      var i := 0;
      assert ops[0..] == ops;
      while i < |ops|
        invariant 0 <= i <= |ops| && Inv(View())
        invariant Run(View(), Kept(View(), ops[i..])) == Run(old(View()), Kept(old(View()), ops))
      {
        assert ops[i..][1..] == ops[i + 1..];
        KeptStep(View(), ops[i..]);
        if Legal(Lists(lists, clock, count), ops[i]) {
          match ops[i] {
            case Register(idle, con) => var id := RegisterIdle(idle, con);
            case Unregister(idle, id) => UnregisterIdle(idle, id);
            case Update(idle, id) => UpdateIdle(idle, id);
            case Tick(to) =>
              ApplyKeepsInv(View(), Tick(to));
              clock := to;
          }
        }
        i := i + 1;
      }
    }

    /** The inner loop: scans a copy from the front until the first fresh node, and
        runs the callback of each node it passes on the object itself. */
    method ScanList(idle: int, now: int, script: Script, log0: seq<Call>, ghost done0: seq<Op>)
        returns (log: seq<Call>, ghost done: seq<Op>)
      requires Inv(View()) && idle > 0 && idle in lists
      modifies this
      ensures Inv(View())
      ensures Pass(View(), log, done) == Visit(Pass(old(View()), log0, done0), idle, now, script)
    {
      var list := lists[idle];
      ghost var nodes := AllStale(list, idle, now);
      ghost var all := CallAll(Pass(View(), log0, done0), idle, nodes, script);
      ghost var m := StalePrefix(list, idle, now);
      var lst := list;
      log, done := log0, done0;
      ghost var k := 0;
      assert nodes[0..] == nodes;
      while |lst| > 0
        invariant 0 <= k <= m && Inv(View())
        invariant lst == list[k..] + Touched(list[..k], now)
        invariant CallAll(Pass(View(), log, done), idle, nodes[k..], script) == all
        decreases m - k
      {
        var node := lst[0];
        if node.stamp + idle > now {
          break;
        }
        FrontIs(list, k, m, idle, now, lst);
        CallNext(Pass(View(), log, done), idle, nodes, k, script);
        TouchNext(list, k, now, lst);
        lst := lst[1..] + [node.(stamp := now)];
        log := log + [Call(idle, node)];
        done := done + Kept(View(), script(log));
        RunCallback(script(log));
        k := k + 1;
      }
      EndIs(list, k, m, idle, now, lst);
      assert nodes[k..] == [];
    }

    method NextLimit(from: int) returns (found: bool, x: int)
      ensures found <==> Limits(View(), from, Open) != {}
      ensures found ==> x == Least(Limits(View(), from, Open))
    {
      found, x := false, 0;
      var left := lists.Keys;
      while left != {}
        invariant left <= lists.Keys
        invariant found ==> x in lists && from < x
        invariant forall y | y in lists.Keys && y !in left && from < y :: found && x <= y
        decreases |left|
      {
        assert exists y :: y in left by {
          var y := Pick(left);
        }
        var y :| y in left;
        if from < y && (!found || y < x) {
          found, x := true, y;
        }
        left := left - {y};
      }
      ghost var all := Limits(View(), from, Open);
      if found {
        assert IsLeast(x, all);
      } else if all != {} {
        var y := Pick(all);
        assert false;
      }
    }

    /** The whole of callIdles. */
    method CallIdlesLoop(script: Script) returns (log: seq<Call>)
      requires Inv(View()) && Returns(View())
      modifies this
      ensures Inv(View())
      ensures var q := CallIdles(old(View()), script); View() == q.s && log == q.log
    {
      ghost var s0 := View();
      var now := clock;
      ghost var done: seq<Op> := [];
      log := [];
      var found, x := NextLimit(0);
      var from := 0;
      while found
        invariant from >= 0 && Inv(View()) && From(s0, Pass(View(), log, done), now)
        invariant Walk(s0, Pass(View(), log, done), from, Open, now, script) == CallIdles(s0, script)
        invariant found <==> Limits(View(), from, Open) != {}
        invariant found ==> x == Least(Limits(View(), from, Open))
        decreases |StaleSet(View(), from, Open, now)|, |Limits(View(), from, Open)|, found
      {
        VisitLowersLoad(s0, Pass(View(), log, done), from, Open, now, script);
        log, done := ScanList(x, now, script, log, done);
        from := x;
        found, x := NextLimit(from);
      }
    }
  }

  function Touched(l: seq<Node>, now: int): seq<Node> {
    seq(|l|, i requires 0 <= i < |l| => l[i].(stamp := now))
  }

  /** What the inner loop finds at the front of its copy after `k` rounds. */
  lemma FrontIs(list: seq<Node>, k: nat, m: nat, idle: int, now: int, lst: seq<Node>)
    requires k <= m <= |list| && idle > 0 && (m < |list| ==> !Stale(list[m], idle, now))
    requires lst == list[k..] + Touched(list[..k], now) && lst != [] && Stale(lst[0], idle, now)
    ensures k < m && lst[0] == list[k]
  {
  }

  lemma EndIs(list: seq<Node>, k: nat, m: nat, idle: int, now: int, lst: seq<Node>)
    requires k <= m <= |list| && forall i | 0 <= i < m :: Stale(list[i], idle, now)
    requires lst == list[k..] + Touched(list[..k], now) && (lst == [] || !Stale(lst[0], idle, now))
    ensures k == m
  {
  }

  lemma TouchNext(list: seq<Node>, k: nat, now: int, lst: seq<Node>)
    requires k < |list| && lst == list[k..] + Touched(list[..k], now)
    ensures lst[1..] + [lst[0].(stamp := now)] == list[k + 1..] + Touched(list[..k + 1], now)
  {
    assert Touched(list[..k + 1], now) == Touched(list[..k], now) + [list[k].(stamp := now)];
  }

  lemma CallNext(p: Pass, idle: int, nodes: seq<Node>, k: nat, script: Script)
    requires k < |nodes|
    ensures CallAll(p, idle, nodes[k..], script)
         == CallAll(Respond(p, Call(idle, nodes[k]), script), idle, nodes[k + 1..], script)
  {
    assert nodes[k..][1..] == nodes[k + 1..];
  }

  lemma KeptStep(s: Lists, ops: seq<Op>)
    requires ops != []
    ensures Run(s, Kept(s, ops))
         == if Legal(s, ops[0]) then Run(Apply(s, ops[0]), Kept(Apply(s, ops[0]), ops[1..])) else Run(s, Kept(s, ops[1..]))
  {
    if Legal(s, ops[0]) {
      var rest := Kept(Apply(s, ops[0]), ops[1..]);
      assert ([ops[0]] + rest)[1..] == rest;
    }
  }

  lemma {:induction false} StalePrefix(l: seq<Node>, idle: int, now: int) returns (m: nat)
    requires Sorted(l)
    ensures m <= |l| && AllStale(l, idle, now) == l[..m]
    ensures (forall i | 0 <= i < m :: Stale(l[i], idle, now)) && (m < |l| ==> !Stale(l[m], idle, now))
  {
    m := 0;
    while m < |l| && Stale(l[m], idle, now)
      invariant m <= |l| && forall i | 0 <= i < m :: Stale(l[i], idle, now)
    {
      m := m + 1;
    }
    PrefixIsFilter(l, idle, now, m);
  }
}
