/** Plan reconciliation (src/manager/StreamMgr.cc, src/manager/Plan.h) over the session
    ids of src/service/SessionService/SessionService.cc. */
module StreamMgr {
  import opened Collections

  // ------------------------------------------------------------------- entities

  /** One bit per hour for the days 1 to 7; slot 0 is unused. */
  datatype Plan = Plan(hours: seq<bv32>)

  /** A day of a plan message. */
  datatype Day = Day(weekday: int, hours: bv32)

  datatype PlanInfo = PlanInfo(stream: string, days: seq<Day>)

  /** Every listed day indexes one of the eight words. */
  predicate InRange(days: seq<Day>) { forall d | d in days :: 0 <= d.weekday < 8 }

  predicate AllInRange(infos: seq<PlanInfo>) { forall i | i in infos :: InRange(i.days) }

  /** The constructor of Plan: eight zero words, then one store per listed day. */
  function Build(days: seq<Day>): (p: Plan)
    requires InRange(days)
    ensures |p.hours| == 8
  {
    if days == [] then Plan([0, 0, 0, 0, 0, 0, 0, 0]) else
      var d := days[|days| - 1];
      var p := Build(days[..|days| - 1]);
      Plan(p.hours[d.weekday := d.hours])
  }

  lemma {:induction false} BuildStep(days: seq<Day>, day: nat)
    requires InRange(days) && day < 8 && days != []
    ensures var n := |days| - 1;
            && InRange(days[..n])
            && Build(days).hours[day] == if days[n].weekday == day then days[n].hours else Build(days[..n]).hours[day]
  {
    assert days[|days| - 1] in days && forall d | d in days[..|days| - 1] :: d in days;
  }

  /** A day's word is the last one listed for it. */
  lemma {:induction false} LastListedCounts(days: seq<Day>, k: nat)
    requires InRange(days) && k < |days| && 0 <= days[k].weekday < 8
    requires forall j | k < j < |days| :: days[j].weekday != days[k].weekday
    ensures Build(days).hours[days[k].weekday] == days[k].hours
    decreases |days|
  {
    var n := |days| - 1;
    BuildStep(days, days[k].weekday);
    if k < n {
      LastListedCounts(days[..n], k);
    }
  }

  /** A day not listed has no hours. */
  lemma {:induction false} UnlistedIsEmpty(days: seq<Day>, day: nat)
    requires InRange(days) && day < 8 && forall k | 0 <= k < |days| :: days[k].weekday != day
    ensures Build(days).hours[day] == 0
    decreases |days|
  {
    if days != [] {
      BuildStep(days, day);
      UnlistedIsEmpty(days[..|days| - 1], day);
    }
  }

  predicate Hit(word: bv32, hour: nat)
    requires hour < 24
  {
    word & ((1 as bv32) << hour) != 0
  }

  predicate IsSet(p: Plan, day: nat, hour: nat)
    requires 1 <= day <= 7 && hour < 24 && |p.hours| == 8
  {
    Hit(p.hours[day], hour)
  }

  /** A plan's words are sets of hours: a power of two holds one hour, zero none, and
      bitwise or is union. */
  lemma OneHour(h: nat, k: nat)
    requires h < 24 && k < 24
    ensures Hit((1 as bv32) << k, h) <==> h == k
    ensures !Hit(0, h)
  {
  }

  lemma OrIsUnion(a: bv32, b: bv32, mask: bv32)
    ensures (a | b) & mask != 0 <==> a & mask != 0 || b & mask != 0
  {
  }

  /** Each day is judged by its own word. */
  lemma OwnWordCounts(p: Plan, day: nat, other: nat, hour: nat, word: bv32)
    requires 1 <= day <= 7 && 1 <= other <= 7 && hour < 24 && |p.hours| == 8
    ensures IsSet(Plan(p.hours[day := word]), other, hour) <==> if other == day then Hit(word, hour) else IsSet(p, other, hour)
  {
  }

  /** `getCurDay`: Sunday is day seven. */
  function DayOf(wday: nat): nat
    requires wday < 7
  {
    if wday == 0 then 7 else wday
  }

  /** Every weekday has its own word of the plan, and none has word zero. */
  lemma DaysAreWords(v: nat, w: nat)
    requires v < 7 && w < 7
    ensures 1 <= DayOf(w) <= 7 && DayOf(w) % 7 == w
    ensures DayOf(v) == DayOf(w) <==> v == w
  {
  }

  datatype Ses = Ses(id: nat, para1: nat, para2: nat)

  /** The session service: the last id given out, the sessions it holds (it never
      drops one on this path), and those that were told to stop. */
  datatype Svc = Svc(last: nat, ids: set<nat>, stopped: set<nat>)

  /** What the manager tells the camera side: store this stream at that port, or stop the
      store with these parameters. */
  datatype Notice = Invite(stream: string, port: nat) | Bye(para1: nat, para2: nat)

  datatype Mgr = Mgr(cur: map<string, Plan>, sess: map<string, Ses>, svc: Svc, port: nat, sent: seq<Notice>)

  const EMPTY := Mgr(map[], map[], Svc(0, {}, {}), 3000, [])

  // ----------------------------------------------------------------- operations

  /** `createStream`; `ok` says whether preparing the session succeeded. The port
      advances either way, in 16 bits. */
  function Create(m: Mgr, stream: string, ok: bool): Mgr {
    var id := m.svc.last + 1;
    var svc := m.svc.(last := id);
    var n := m.(svc := svc, port := (m.port + 10) % 0x1_0000);
    if ok then
      n.(svc := svc.(ids := svc.ids + {id}), sess := m.sess[stream := Ses(id, 0, 0)],
         sent := m.sent + [Invite(stream, m.port)])
    else n
  }

  /** Tell the session to stop and forget it. */
  function Drop(m: Mgr, stream: string): Mgr
    requires stream in m.sess
  {
    m.(svc := m.svc.(stopped := m.svc.stopped + {m.sess[stream].id}), sess := m.sess - {stream})
  }

  /** `stopStream`: the camera side hears of it. */
  function Stop(m: Mgr, stream: string): Mgr
    requires stream in m.sess
  {
    Drop(m.(sent := m.sent + [Bye(m.sess[stream].para1, m.sess[stream].para2)]), stream)
  }

  /** The clock and the outcome of preparing each session id. */
  datatype Env = Env(day: nat, hour: nat, prepared: nat -> bool) {
    predicate Ok() { 1 <= day <= 7 && hour < 24 }
  }

  predicate Planned(m: Mgr, env: Env, stream: string)
    requires env.Ok()
  {
    stream in m.cur && |m.cur[stream].hours| == 8 && IsSet(m.cur[stream], env.day, env.hour)
  }

  function CheckOne(m: Mgr, env: Env, stream: string): Mgr
    requires env.Ok()
  {
    if Planned(m, env, stream) then
      if stream in m.sess then m else Create(m, stream, env.prepared(m.svc.last + 1))
    else if stream in m.sess then Stop(m, stream) else m
  }

  /** The pass over the current plans, in the order the map yields them. */
  function Check(m: Mgr, env: Env, order: seq<string>): Mgr
    requires env.Ok()
    decreases |order|
  {
    if order == [] then m else Check(CheckOne(m, env, order[0]), env, order[1..])
  }

  /** The streams whose session could not be prepared in the pass. */
  function Failures(m: Mgr, env: Env, order: seq<string>): set<string>
    requires env.Ok()
    decreases |order|
  {
    if order == [] then {} else
      var s := order[0];
      (if Planned(m, env, s) && s !in m.sess && !env.prepared(m.svc.last + 1) then {s} else {})
      + Failures(CheckOne(m, env, s), env, order[1..])
  }

  function PlansOf(infos: seq<PlanInfo>): map<string, Plan>
    requires AllInRange(infos)
  {
    if infos == [] then map[] else
      var i := infos[|infos| - 1];
      PlansOf(infos[..|infos| - 1])[i.stream := Build(i.days)]
  }

  function Update(m: Mgr, infos: seq<PlanInfo>): Mgr
    requires AllInRange(infos)
  {
    m.(cur := PlansOf(infos))
  }

  lemma {:induction false} PlansStep(infos: seq<PlanInfo>, stream: string)
    requires AllInRange(infos) && infos != []
    ensures var n := |infos| - 1;
            && AllInRange(infos[..n]) && InRange(infos[n].days)
            && (stream in PlansOf(infos) <==> stream == infos[n].stream || stream in PlansOf(infos[..n]))
            && (stream in PlansOf(infos) ==>
                  PlansOf(infos)[stream] == if stream == infos[n].stream then Build(infos[n].days) else PlansOf(infos[..n])[stream])
  {
    assert infos[|infos| - 1] in infos && forall i | i in infos[..|infos| - 1] :: i in infos;
  }

  /** An update replaces the plans: a stream has the plan listed last for it, a stream not
      listed has none, and sessions, ports and notices stay. */
  lemma {:induction false} UpdateReplaces(m: Mgr, infos: seq<PlanInfo>, stream: string)
    requires AllInRange(infos)
    ensures Update(m, infos).sess == m.sess && Update(m, infos).svc == m.svc
    ensures Update(m, infos).port == m.port && Update(m, infos).sent == m.sent
    ensures forall k | 0 <= k < |infos| && infos[k].stream == stream
              && (forall j | k < j < |infos| :: infos[j].stream != stream) ::
              InRange(infos[k].days) && stream in Update(m, infos).cur && Update(m, infos).cur[stream] == Build(infos[k].days)
    ensures (forall k | 0 <= k < |infos| :: infos[k].stream != stream) ==> stream !in Update(m, infos).cur
    decreases |infos|
  {
    if infos != [] {
      var n := |infos| - 1;
      PlansStep(infos, stream);
      assert forall k | 0 <= k < n :: infos[..n][k] == infos[k];
      UpdateReplaces(m, infos[..n], stream);
    }
  }

  /** The acknowledgement of an invitation for a stream that has a session. */
  function Ack(m: Mgr, stream: string, p1: nat, p2: nat, err: nat): Mgr
    requires stream in m.sess
  {
    if err != 0 then Drop(m, stream)
    else m.(sess := m.sess[stream := m.sess[stream].(para1 := p1, para2 := p2)])
  }

  // ------------------------------------------------------------------ invariant

  function IdsOf(sess: map<string, Ses>): set<nat> {
    set s | s in sess :: sess[s].id
  }

  predicate Injective(sess: map<string, Ses>) {
    forall s, t | s in sess && t in sess && sess[s].id == sess[t].id :: s == t
  }

  /** Streams map injectively to sessions the service holds, and every session the
      service holds belongs to exactly one stream or has been told to stop. */
  ghost predicate Inv(m: Mgr) {
    && Injective(m.sess)
    && m.svc.ids == IdsOf(m.sess) + m.svc.stopped
    && IdsOf(m.sess) !! m.svc.stopped
    && (forall i | i in m.svc.ids :: 0 < i <= m.svc.last)
  }

  lemma CreateKeepsInv(m: Mgr, stream: string, ok: bool)
    requires Inv(m) && stream !in m.sess
    ensures Inv(Create(m, stream, ok))
  {
    if ok {
      var id := m.svc.last + 1;
      var n := Create(m, stream, ok);
      assert IdsOf(n.sess) == IdsOf(m.sess) + {id} by {
        assert n.sess[stream].id == id;
        assert forall s | s in m.sess :: s in n.sess && n.sess[s] == m.sess[s];
      }
      assert forall s | s in m.sess :: m.sess[s].id in IdsOf(m.sess) && m.sess[s].id in m.svc.ids;
    }
  }

  lemma DropKeepsInv(m: Mgr, stream: string)
    requires Inv(m) && stream in m.sess
    ensures Inv(Drop(m, stream))
  {
    var n := Drop(m, stream);
    var id := m.sess[stream].id;
    assert IdsOf(n.sess) == IdsOf(m.sess) - {id} by {
      assert forall s | s in n.sess :: s in m.sess && n.sess[s] == m.sess[s];
      assert forall s | s in m.sess && s != stream :: s in n.sess;
    }
    assert id in IdsOf(m.sess);
  }

  lemma StopKeepsInv(m: Mgr, stream: string)
    requires Inv(m) && stream in m.sess
    ensures Inv(Stop(m, stream))
  {
    DropKeepsInv(m.(sent := m.sent + [Bye(m.sess[stream].para1, m.sess[stream].para2)]), stream);
  }

  lemma AckKeepsInv(m: Mgr, stream: string, p1: nat, p2: nat, err: nat)
    requires Inv(m) && stream in m.sess
    ensures Inv(Ack(m, stream, p1, p2, err))
  {
    if err != 0 {
      DropKeepsInv(m, stream);
    } else {
      var n := Ack(m, stream, p1, p2, err);
      assert forall s | s in m.sess :: s in n.sess && n.sess[s].id == m.sess[s].id;
      assert IdsOf(n.sess) == IdsOf(m.sess);
    }
  }

  lemma CheckOneKeepsInv(m: Mgr, env: Env, stream: string)
    requires Inv(m) && env.Ok()
    ensures Inv(CheckOne(m, env, stream)) && CheckOne(m, env, stream).cur == m.cur
  {
    if Planned(m, env, stream) {
      if stream !in m.sess {
        CreateKeepsInv(m, stream, env.prepared(m.svc.last + 1));
      }
    } else if stream in m.sess {
      StopKeepsInv(m, stream);
    }
  }

  lemma {:induction false} CheckKeepsInv(m: Mgr, env: Env, order: seq<string>)
    requires Inv(m) && env.Ok()
    ensures Inv(Check(m, env, order)) && Check(m, env, order).cur == m.cur
    decreases |order|
  {
    if order != [] {
      CheckOneKeepsInv(m, env, order[0]);
      CheckKeepsInv(CheckOne(m, env, order[0]), env, order[1..]);
    }
  }

  // ----------------------------------------------------------------------- runs

  datatype Event =
    | NewPlans(infos: seq<PlanInfo>)
    | Pass(env: Env, order: seq<string>)
    | Acked(stream: string, p1: nat, p2: nat, err: nat)

  predicate Enabled(m: Mgr, ev: Event) {
    match ev
    case NewPlans(infos) => AllInRange(infos)
    case Pass(env, _) => env.Ok()
    case Acked(stream, _, _, _) => stream in m.sess
  }

  function Step(m: Mgr, ev: Event): Mgr
    requires Enabled(m, ev)
  {
    match ev
    case NewPlans(infos) => Update(m, infos)
    case Pass(env, order) => Check(m, env, order)
    case Acked(stream, p1, p2, err) => Ack(m, stream, p1, p2, err)
  }

  predicate Valid(m: Mgr, evs: seq<Event>)
    decreases |evs|
  {
    evs != [] ==> Enabled(m, evs[0]) && Valid(Step(m, evs[0]), evs[1..])
  }

  function Run(m: Mgr, evs: seq<Event>): Mgr
    requires Valid(m, evs)
    decreases |evs|
  {
    if evs == [] then m else Run(Step(m, evs[0]), evs[1..])
  }

  /** Over every run of plan updates, passes and acknowledgements, sessions and
      streams stay in one-to-one correspondence and no session is lost. */
  lemma {:induction false} RunKeepsInv(m: Mgr, evs: seq<Event>)
    requires Inv(m) && Valid(m, evs)
    ensures Inv(Run(m, evs))
    decreases |evs|
  {
    if evs != [] {
      match evs[0] {
        case NewPlans(_) =>
        case Pass(env, order) => CheckKeepsInv(m, env, order);
        case Acked(stream, p1, p2, err) => AckKeepsInv(m, stream, p1, p2, err);
      }
      RunKeepsInv(Step(m, evs[0]), evs[1..]);
    }
  }

  // -------------------------------------------------------------- pass agreement

  predicate SameAt(m: Mgr, n: Mgr, stream: string) {
    if stream in m.sess then stream in n.sess && n.sess[stream] == m.sess[stream] else stream !in n.sess
  }

  // ----------------------------------------------------------------- ports and notices

  /** The port of the `k`-th session asked for, from 3000 in steps of ten, in 16 bits. */
  function PortAt(k: nat): nat { (3000 + 10 * k) % 0x1_0000 }

  lemma NoMultiple(d: int, q: int)
    requires 0 < d < 0x8000
    ensures 10 * d != 0x1_0000 * q
  {
    if q <= 0 || q >= 5 {
    } else {
      assert q == 1 || q == 2 || q == 3 || q == 4;
    }
  }

  lemma SameRest(x: nat, y: nat, m: nat) returns (q: int)
    requires m > 0 && x % m == y % m
    ensures y - x == m * q
  {
    q := y / m - x / m;
    assert x == m * (x / m) + x % m && y == m * (y / m) + y % m;
  }

  /** Ports come round again only after 2^15 sessions. */
  lemma PortsDiffer(i: nat, j: nat)
    requires i < j < i + 0x8000
    ensures PortAt(i) != PortAt(j)
  {
    if PortAt(i) == PortAt(j) {
      var q := SameRest(3000 + 10 * i, 3000 + 10 * j, 0x1_0000);
      NoMultiple(j - i, q);
      assert false;
    }
  }

  /** Every session was announced to the camera side, at the port of its own id. */
  ghost predicate Announced(m: Mgr) {
    && m.port == PortAt(m.svc.last)
    && forall s | s in m.sess :: m.sess[s].id > 0 && Invite(s, PortAt(m.sess[s].id - 1)) in m.sent
  }

  lemma CheckOneAnnounces(m: Mgr, env: Env, stream: string)
    requires Announced(m) && env.Ok()
    ensures Announced(CheckOne(m, env, stream)) && m.sent <= CheckOne(m, env, stream).sent
  {
    if Planned(m, env, stream) {
      if stream !in m.sess {
        CreateAnnounces(m, stream, env.prepared(m.svc.last + 1));
      }
    } else if stream in m.sess {
      StopAnnounces(m, stream);
    }
  }

  lemma CreateAnnounces(m: Mgr, stream: string, ok: bool)
    requires Announced(m) && stream !in m.sess
    ensures Announced(Create(m, stream, ok)) && m.sent <= Create(m, stream, ok).sent
  {
    var n, invite := Create(m, stream, ok), Invite(stream, m.port);
    if ok {
      assert n.sent == m.sent + [invite];
      assert forall x :: x in n.sent <==> x in m.sent || x == invite;
      assert m.port == PortAt(n.sess[stream].id - 1);
    }
  }

  lemma StopAnnounces(m: Mgr, stream: string)
    requires Announced(m) && stream in m.sess
    ensures Announced(Stop(m, stream)) && m.sent <= Stop(m, stream).sent
  {
    var n := Stop(m, stream);
    assert forall x | x in m.sent :: x in n.sent;
  }

  lemma {:induction false} CheckAnnounces(m: Mgr, env: Env, order: seq<string>)
    requires Announced(m) && env.Ok()
    ensures Announced(Check(m, env, order)) && m.sent <= Check(m, env, order).sent
    decreases |order|
  {
    if order != [] {
      CheckOneAnnounces(m, env, order[0]);
      CheckAnnounces(CheckOne(m, env, order[0]), env, order[1..]);
    }
  }

  /** Over every run, each stream with a session was invited to the port of that session,
      and sessions whose ids are less than 2^15 apart have different ports. */
  lemma {:induction false} RunAnnounces(m: Mgr, evs: seq<Event>)
    requires Announced(m) && Valid(m, evs)
    ensures Announced(Run(m, evs))
    decreases |evs|
  {
    if evs != [] {
      match evs[0] {
        case Pass(env, order) => CheckAnnounces(m, env, order);
        case NewPlans(_) =>
        case Acked(_, _, _, _) =>
      }
      RunAnnounces(Step(m, evs[0]), evs[1..]);
    }
  }

  /** A positive acknowledgement is what a later goodbye carries; a negative one ends the
      session without a goodbye. */
  lemma AckReachesBye(m: Mgr, stream: string, p1: nat, p2: nat, err: nat)
    requires stream in m.sess
    ensures var n := Ack(m, stream, p1, p2, err);
            && n.sent == m.sent && n.cur == m.cur && n.port == m.port
            && (forall s | s != stream :: SameAt(m, n, s))
            && (err != 0 ==> stream !in n.sess && n.svc.stopped == m.svc.stopped + {m.sess[stream].id})
            && (err == 0 ==> stream in n.sess && n.sess[stream].id == m.sess[stream].id && n.svc == m.svc
                             && Stop(n, stream).sent == m.sent + [Bye(p1, p2)])
  {
  }

  lemma {:induction false} OthersUntouched(m: Mgr, env: Env, order: seq<string>, stream: string)
    requires env.Ok() && stream !in order
    ensures SameAt(m, Check(m, env, order), stream)
    ensures stream !in Failures(m, env, order)
    ensures m.svc.last <= Check(m, env, order).svc.last
    decreases |order|
  {
    if order != [] {
      assert order[0] in order && forall s | s in order[1..] :: s in order;
      OthersUntouched(CheckOne(m, env, order[0]), env, order[1..], stream);
    }
  }

  /** What the pass owes one planned stream. */
  predicate Settled(m: Mgr, n: Mgr, env: Env, failed: bool, stream: string)
    requires env.Ok()
  {
    && (stream in n.sess <==> Planned(m, env, stream) && !failed)
    && (failed ==> Planned(m, env, stream) && stream !in m.sess)
    && (stream in n.sess && stream in m.sess ==> n.sess[stream] == m.sess[stream])
    && (stream in n.sess && stream !in m.sess ==> n.sess[stream].id > m.svc.last)
  }

  lemma {:induction false} PassSettles(m: Mgr, env: Env, order: seq<string>, stream: string)
    requires env.Ok() && NoDup(order) && stream in order
    ensures Settled(m, Check(m, env, order), env, stream in Failures(m, env, order), stream)
    decreases |order|
  {
    var n := CheckOne(m, env, order[0]);
    if stream == order[0] {
      assert stream !in order[1..];
      OthersUntouched(n, env, order[1..], stream);
    } else {
      assert stream in order[1..];
      PassSettles(n, env, order[1..], stream);
    }
  }

  /** After a pass over the plans in any order, each planned stream has a session
      exactly when its bit for this hour is set and no creation failed in the pass;
      sessions that stay are the same, new ones have new ids, and streams without a
      plan are untouched. */
  lemma PassAgrees(m: Mgr, env: Env, order: seq<string>)
    requires env.Ok() && NoDup(order) && (forall s :: s in order <==> s in m.cur)
    ensures forall s | s in m.cur ::
              Settled(m, Check(m, env, order), env, s in Failures(m, env, order), s)
    ensures forall s | s !in m.cur :: SameAt(m, Check(m, env, order), s)
  {
    forall s | s in m.cur
      ensures Settled(m, Check(m, env, order), env, s in Failures(m, env, order), s)
    {
      PassSettles(m, env, order, s);
    }
    forall s | s !in m.cur
      ensures SameAt(m, Check(m, env, order), s)
    {
      OthersUntouched(m, env, order, s);
    }
  }

  lemma {:induction false} SteadyPass(m: Mgr, env: Env, order: seq<string>)
    requires env.Ok() && forall s | s in order :: s in m.sess <==> Planned(m, env, s)
    ensures Check(m, env, order) == m
    decreases |order|
  {
    if order != [] {
      assert order[0] in order && forall s | s in order[1..] :: s in order;
      SteadyPass(m, env, order[1..]);
    }
  }

  /** A second pass in the same hour changes nothing at all, neither sessions nor
      ids nor ports, unless a creation failed in the first. */
  lemma PassIsIdempotent(m: Mgr, env: Env, order: seq<string>)
    requires Inv(m) && env.Ok() && NoDup(order) && (forall s :: s in order <==> s in m.cur)
    requires Failures(m, env, order) == {}
    ensures Check(Check(m, env, order), env, order) == Check(m, env, order)
  {
    var n := Check(m, env, order);
    CheckKeepsInv(m, env, order);
    forall s | s in order
      ensures s in n.sess <==> Planned(n, env, s)
    {
      PassSettles(m, env, order, s);
    }
    SteadyPass(n, env, order);
  }

  // --------------------------------------------------------------------- object

  class Manager {
    var cur: map<string, Plan>
    var sess: map<string, Ses>
    var last: nat
    var ids: set<nat>
    ghost var stopped: set<nat>
    var port: nat
    var pre: map<string, Plan>
    var sent: seq<Notice>

    ghost function View(): Mgr
      reads this
    {
      Mgr(cur, sess, Svc(last, ids, stopped), port, sent)
    }

    constructor ()
      ensures View() == EMPTY && Inv(View())
    {
      cur, sess, last, ids, port, pre, sent := map[], map[], 0, {}, 3000, map[], [];
      stopped := {};
    }

    /** `newStoreSes`: a fresh id, or 0 if preparing the session failed. */
    method NewStoreSes(ok: bool) returns (id: nat)
      modifies this`last, this`ids
      ensures last == old(last) + 1
      ensures id == (if ok then last else 0) && ids == old(ids) + (if ok then {last} else {})
    {
      last := last + 1;
      if ok {
        ids := ids + {last};
        return last;
      }
      return 0;
    }

    method CreateStream(stream: string, ok: bool)
      modifies this
      ensures View() == Create(old(View()), stream, ok)
    {
      var id := NewStoreSes(ok);
      if id != 0 {
        sess := sess[stream := Ses(id, 0, 0)];
        sent := sent + [Invite(stream, port)];
      }
      port := (port + 10) % 0x1_0000;
    }

    /** `stopStream`. The lookup of the session never yields null. */
    method StopStream(stream: string)
      requires Inv(View()) && stream in sess
      modifies this
      ensures Inv(View()) && View() == Stop(old(View()), stream)
    {
      StopKeepsInv(View(), stream);
      var id := sess[stream].id;
      assert id in IdsOf(sess);
      assert id in ids;
      sent := sent + [Bye(sess[stream].para1, sess[stream].para2)];
      stopped := stopped + {id};
      sess := sess - {stream};
    }

    /** `startStream`: `safe` is false when the lookup yields null and the program
        dereferences it, which happens exactly for streams without a session. */
    method StartStream(stream: string, p1: nat, p2: nat, err: nat) returns (safe: bool)
      requires Inv(View())
      modifies this
      ensures safe <==> stream in old(sess)
      ensures safe ==> Inv(View()) && View() == Ack(old(View()), stream, p1, p2, err)
    {
      if stream !in sess {
        sess := sess[stream := Ses(0, 0, 0)];
      }
      var id := sess[stream].id;
      safe := id in ids;
      if stream in old(sess) {
        assert id in IdsOf(old(sess));
        AckKeepsInv(old(View()), stream, p1, p2, err);
      }
      if safe {
        if err != 0 {
          stopped := stopped + {id};
          sess := sess - {stream};
        } else {
          sess := sess[stream := sess[stream].(para1 := p1, para2 := p2)];
        }
      }
    }

    /** `updateStorePlan`: the previous plans are kept aside, a repeated stream takes
        its last plan, and sessions are not touched. `safe` is false when a listed day
        lies outside the plan and the program stores past it. */
    method UpdateStorePlan(empty: bool, infos: seq<PlanInfo>) returns (safe: bool)
      modifies this`cur, this`pre
      ensures safe <==> empty || AllInRange(infos)
      ensures safe ==> View() == Update(old(View()), if empty then [] else infos)
      ensures pre == if empty then map[] else old(cur)
    {
      if empty {
        cur, pre := map[], map[];
        return true;
      }
      pre, cur := cur, map[];
      for k := 0 to |infos|
        invariant pre == old(cur) && AllInRange(infos[..k]) && cur == PlansOf(infos[..k])
      {
        assert infos[..k + 1][..k] == infos[..k] && infos[k] in infos;
        if !InRange(infos[k].days) {
          return false;
        }
        cur := cur[infos[k].stream := Build(infos[k].days)];
      }
      assert infos[..|infos|] == infos;
      return true;
    }

    /** The first loop of checkStorePlan. */
    method CheckStorePlan(env: Env, order: seq<string>)
      requires Inv(View()) && env.Ok() && (forall s | s in order :: s in cur)
      requires forall s | s in cur :: |cur[s].hours| == 8
      modifies this
      ensures Inv(View()) && View() == Check(old(View()), env, order)
    {
      var i := 0;
      while i < |order|
        invariant 0 <= i <= |order| && Inv(View()) && cur == old(cur)
        invariant Check(View(), env, order[i..]) == Check(old(View()), env, order)
      {
        var s := order[i];
        assert s in order && order[i..][0] == s && order[i..][1..] == order[i + 1..];
        CheckOneKeepsInv(View(), env, s);
        if IsSet(cur[s], env.day, env.hour) {
          if s !in sess {
            CreateStream(s, env.prepared(last + 1));
          }
        } else if s in sess {
          StopStream(s);
        }
        i := i + 1;
      }
    }
  }
}
