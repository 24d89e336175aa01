/** The byte buffer of src/common/handy/net.h and net.cc.

    `Shape` is the arithmetic of the head, tail and capacity; its lemmas give the
    amortised cost of compaction and growth. `Buffer` is the mutable object: every
    method is proved against a byte sequence (`Contents`) and against `Shape`. */
module Buffers {

  newtype byte = x: int | 0 <= x < 256

  function Max(x: int, y: int): int {
    if x < y then y else x
  }

  function Concat(parts: seq<seq<byte>>): seq<byte> {
    if parts == [] then [] else parts[0] + Concat(parts[1..])
  }

  lemma {:induction false} ConcatSnoc(parts: seq<seq<byte>>, i: nat)
    requires i < |parts|
    ensures Concat(parts[..i + 1]) == Concat(parts[..i]) + parts[i]
  {
    if i == 0 {
      assert parts[..1] == [parts[0]] && parts[..1][1..] == [];
      assert Concat(parts[..1]) == parts[0] + [];
    } else {
      assert parts[..i + 1][1..] == parts[1..][..i] && parts[..i][1..] == parts[1..][..i - 1];
      ConcatSnoc(parts[1..], i - 1);
    }
  }

  // ---------------------------------------------------------------- geometry

  /** `b_`, `e_`, `cap_` and `exp_`. */
  datatype Shape = Shape(b: nat, e: nat, cap: nat, exp: nat) {
    predicate Ok() { b <= e <= cap }

    function Size(): nat requires Ok() { e - b }

    function Space(): nat requires Ok() { cap - e }

    function Compacted(): Shape requires Ok() { this.(b := 0, e := Size()) }

    function Expanded(len: nat): Shape requires Ok() {
      Shape(0, Size(), Max(exp, Max(2 * cap, Size() + len)), exp)
    }

    /** The shape after `makeRoom(len)`. */
    function Roomy(len: nat): Shape requires Ok() {
      if e + len <= cap then this
      else if Size() + len < cap / 2 then Compacted()
      else Expanded(len)
    }

    /** The bytes that `makeRoom(len)` copies. */
    function CopyCost(len: nat): nat requires Ok() {
      if e + len <= cap then 0 else Size()
    }

    function Appended(len: nat): Shape requires Ok() {
      var r := Roomy(len);
      r.(e := r.e + len)
    }

    function Cleared(): Shape { Shape(0, 0, 0, exp) }

    function Consumed(len: nat): Shape requires Ok() && len <= Size() {
      if len == Size() then Cleared() else this.(b := b + len)
    }

    /** The shape after the argument-free `makeRoom()` of the read path. */
    function ReadRoomy(): Shape requires Ok() {
      if Space() < exp then Expanded(0) else this
    }

    /** The bytes that it copies. */
    function ReadCost(): nat requires Ok() {
      if Space() < exp then Size() else 0
    }

    /** The shape after a read of `len` bytes into that room. */
    function Received(len: nat): Shape requires Ok() {
      var r := ReadRoomy();
      r.(e := r.e + len)
    }

    /** Storage comes in no smaller piece than the growth unit. */
    predicate Grown() { Ok() && (cap == 0 || cap >= exp) }

    /** The credit that pays for the next copy. */
    function Potential(): nat requires Ok() {
      if cap < 2 * exp then 2 * e else Max(0, 3 * e - cap)
    }
  }

  lemma RoomIsEnough(s: Shape, len: nat)
    requires s.Ok()
    ensures s.Roomy(len).Ok() && s.Appended(len).Ok()
    ensures s.Roomy(len).Space() >= len
    ensures s.Roomy(len).Size() == s.Size()
    ensures s.Appended(len).Size() == s.Size() + len
  {
  }

  /** The read path offers at least one free byte exactly when the growth unit is
      positive or there already was one: a zero-length read is impossible unless
      the suggested size was set to zero. */
  lemma ReadRoomIsPositive(s: Shape)
    requires s.Ok()
    ensures s.ReadRoomy().Ok() && s.ReadRoomy().Size() == s.Size()
    ensures s.ReadRoomy().Space() > 0 <==> s.exp > 0 || s.Space() > 0
  {
  }

  // ---------------------------------------------------- amortised cost of runs

  datatype Op = Append(len: nat) | Receive(len: nat) | Consume(len: nat)

  predicate Legal(s: Shape, op: Op) {
    s.Ok() &&
      match op
      case Append(_) => true
      case Receive(len) => s.ReadRoomy().Ok() && len <= s.ReadRoomy().Space()
      case Consume(len) => len <= s.Size()
  }

  function Exec(s: Shape, op: Op): (t: Shape)
    requires Legal(s, op)
    ensures t.Ok() && t.exp == s.exp
  {
    RoomIsEnough(s, op.len);
    match op
    case Append(len) => s.Appended(len)
    case Receive(len) => s.Received(len)
    case Consume(len) => s.Consumed(len)
  }

  function Cost(s: Shape, op: Op): nat
    requires Legal(s, op)
  {
    match op
    case Append(len) => s.CopyCost(len)
    case Receive(_) => s.ReadCost()
    case Consume(_) => 0
  }

  function Incoming(op: Op): nat { if op.Consume? then 0 else op.len }

  predicate LegalRun(s: Shape, ops: seq<Op>)
    decreases |ops|
  {
    s.Ok() && (ops != [] ==> Legal(s, ops[0]) && LegalRun(Exec(s, ops[0]), ops[1..]))
  }

  function RunShape(s: Shape, ops: seq<Op>): (t: Shape)
    requires LegalRun(s, ops)
    ensures t.Ok()
    decreases |ops|
  {
    if ops == [] then s else RunShape(Exec(s, ops[0]), ops[1..])
  }

  function RunCost(s: Shape, ops: seq<Op>): nat
    requires LegalRun(s, ops)
    decreases |ops|
  {
    if ops == [] then 0 else Cost(s, ops[0]) + RunCost(Exec(s, ops[0]), ops[1..])
  }

  function BytesIn(ops: seq<Op>): nat {
    if ops == [] then 0 else Incoming(ops[0]) + BytesIn(ops[1..])
  }

  /** The largest size and the largest capacity the buffer has in the run. */
  function PeakSize(s: Shape, ops: seq<Op>): nat
    requires LegalRun(s, ops)
    decreases |ops|
  {
    if ops == [] then s.Size() else Max(s.Size(), PeakSize(Exec(s, ops[0]), ops[1..]))
  }

  function PeakCap(s: Shape, ops: seq<Op>): nat
    requires LegalRun(s, ops)
    decreases |ops|
  {
    if ops == [] then s.cap else Max(s.cap, PeakCap(Exec(s, ops[0]), ops[1..]))
  }

  /** One operation, paid for by three credits per byte that comes in. */
  lemma StepIsPaid(s: Shape, op: Op)
    requires Legal(s, op) && s.Grown()
    ensures Exec(s, op).Grown()
    ensures Cost(s, op) + Exec(s, op).Potential() <= s.Potential() + 3 * Incoming(op)
  {
    match op
    case Append(len) => AppendIsPaid(s, len);
    case Receive(len) => ReceiveIsPaid(s, len);
    case Consume(_) =>
  }

  lemma AppendIsPaid(s: Shape, len: nat)
    requires s.Grown()
    ensures s.Appended(len).Grown()
    ensures s.CopyCost(len) + s.Appended(len).Potential() <= s.Potential() + 3 * len
  {
  }

  lemma ReceiveIsPaid(s: Shape, len: nat)
    requires s.Grown() && s.Received(len).Ok()
    ensures s.Received(len).Grown()
    ensures s.ReadCost() + s.Received(len).Potential() <= s.Potential() + 3 * len
  {
  }

  lemma {:induction false} RunIsPaid(s: Shape, ops: seq<Op>)
    requires LegalRun(s, ops) && s.Grown()
    ensures RunCost(s, ops) + RunShape(s, ops).Potential() <= s.Potential() + 3 * BytesIn(ops)
    decreases |ops|
  {
    if ops != [] {
      StepIsPaid(s, ops[0]);
      RunIsPaid(Exec(s, ops[0]), ops[1..]);
    }
  }

  function Empty(exp: nat): Shape { Shape(0, 0, 0, exp) }

  /** Over every run from the empty buffer, compaction and growth together copy at
      most three bytes per byte appended or read, however appends, reads and
      consumes mix. */
  lemma AmortisedCost(exp: nat, ops: seq<Op>)
    requires LegalRun(Empty(exp), ops)
    ensures RunCost(Empty(exp), ops) <= 3 * BytesIn(ops)
  {
    RunIsPaid(Empty(exp), ops);
  }

  // ------------------------------------------------------------------ capacity

  /** The growth unit, or four times the largest size. */
  function CapBound(exp: nat, peak: nat): nat { Max(exp, 4 * peak + 2) }

  /** A read that finds less than the growth unit free doubles the storage, however
      little of it is in use. */
  predicate Swells(s: Shape, op: Op, peak: nat)
    requires s.Ok()
  {
    op.Receive? && s.Space() < s.exp && 2 * s.cap > CapBound(s.exp, peak)
  }

  predicate NeverSwells(s: Shape, ops: seq<Op>, peak: nat)
    requires LegalRun(s, ops)
    decreases |ops|
  {
    ops != [] ==> !Swells(s, ops[0], peak) && NeverSwells(Exec(s, ops[0]), ops[1..], peak)
  }

  lemma StepBoundIff(s: Shape, op: Op, peak: nat)
    requires Legal(s, op) && s.cap <= CapBound(s.exp, peak) && s.Size() <= peak && Exec(s, op).Size() <= peak
    ensures Exec(s, op).cap <= CapBound(s.exp, peak) <==> !Swells(s, op, peak)
  {
  }

  lemma {:induction false} CapacityIsBoundedIff(s: Shape, ops: seq<Op>, peak: nat)
    requires LegalRun(s, ops) && s.cap <= CapBound(s.exp, peak) && PeakSize(s, ops) <= peak
    ensures PeakCap(s, ops) <= CapBound(s.exp, peak) <==> NeverSwells(s, ops, peak)
    decreases |ops|
  {
    if ops != [] {
      var t := Exec(s, ops[0]);
      assert t.Size() <= PeakSize(t, ops[1..]) && t.cap <= PeakCap(t, ops[1..]);
      StepBoundIff(s, ops[0], peak);
      if !Swells(s, ops[0], peak) {
        CapacityIsBoundedIff(t, ops[1..], peak);
      }
    }
  }

  /** The capacity follows the contents, staying within the growth unit or four times
      the largest size the run ever held, if and only if no read doubles storage that
      is already beyond half of that. Appends and consumes alone always follow. */
  lemma CapacityFollowsPeakIff(exp: nat, ops: seq<Op>)
    requires LegalRun(Empty(exp), ops)
    ensures var peak := PeakSize(Empty(exp), ops);
            PeakCap(Empty(exp), ops) <= CapBound(exp, peak) <==> NeverSwells(Empty(exp), ops, peak)
    ensures (forall op | op in ops :: !op.Receive?) ==>
              PeakCap(Empty(exp), ops) <= CapBound(exp, PeakSize(Empty(exp), ops))
  {
    CapacityIsBoundedIff(Empty(exp), ops, PeakSize(Empty(exp), ops));
    if forall op | op in ops :: !op.Receive? {
      NoReadsNoSwell(Empty(exp), ops, PeakSize(Empty(exp), ops));
    }
  }

  lemma {:induction false} NoReadsNoSwell(s: Shape, ops: seq<Op>, peak: nat)
    requires LegalRun(s, ops) && forall op | op in ops :: !op.Receive?
    ensures NeverSwells(s, ops, peak)
    decreases |ops|
  {
    if ops != [] {
      assert ops == [ops[0]] + ops[1..];
      NoReadsNoSwell(Exec(s, ops[0]), ops[1..], peak);
    }
  }

  lemma Chain(s: Shape, op: Op, rest: seq<Op>)
    requires Legal(s, op) && LegalRun(Exec(s, op), rest)
    ensures LegalRun(s, [op] + rest)
    ensures RunShape(s, [op] + rest) == RunShape(Exec(s, op), rest)
    ensures PeakSize(s, [op] + rest) == Max(s.Size(), PeakSize(Exec(s, op), rest))
  {
    assert ([op] + rest)[1..] == rest;
  }

  /** Reading one byte and consuming one, with one always pending. */
  lemma {:induction false} Creep(s: Shape, n: nat) returns (ops: seq<Op>)
    requires s.Ok() && s.Size() == 1 && s.exp > 0
    ensures LegalRun(s, ops) && PeakSize(s, ops) <= 2 && RunShape(s, ops).cap >= n
    decreases Max(0, n - s.cap), s.cap - s.e
  {
    if s.cap >= n {
      return [];
    }
    var t := Exec(s, Receive(1));
    var u := Exec(t, Consume(1));
    ops := Creep(u, n);
    Chain(t, Consume(1), ops);
    ops := [Consume(1)] + ops;
    Chain(s, Receive(1), ops);
    ops := [Receive(1)] + ops;
  }

  /** An input buffer that is never drained completely grows with the traffic beyond
      every bound, although it never holds more than two bytes. */
  lemma GrowsWithTraffic(exp: nat, n: nat) returns (ops: seq<Op>)
    requires exp > 0
    ensures LegalRun(Empty(exp), ops) && PeakSize(Empty(exp), ops) <= 2
    ensures RunShape(Empty(exp), ops).cap >= n
  {
    var t := Exec(Empty(exp), Receive(1));
    ops := Creep(t, n);
    Chain(Empty(exp), Receive(1), ops);
    ops := [Receive(1)] + ops;
  }

  // ------------------------------------------------------------------- object

  lemma SameBytes(p: array<byte>, q: array<byte>, off: nat, n: nat)
    requires n <= p.Length && off + n <= q.Length && forall k | 0 <= k < n :: p[k] == q[off + k]
    ensures p[0..n] == q[off..off + n]
  {
    assert forall k | 0 <= k < n :: p[0..n][k] == q[off..off + n][k];
  }

  class Buffer {
    var buf: array?<byte>
    var b: nat
    var e: nat
    var cap: nat
    var exp: nat
    ghost var copied: nat  // bytes moved so far by moveHead and expand

    ghost predicate Valid()
      reads this, buf
    {
      && b <= e <= cap
      && (buf == null <==> cap == 0)
      && (buf != null ==> buf.Length == cap)
    }

    ghost function View(): Shape
      reads this
    {
      Shape(b, e, cap, exp)
    }

    ghost function Contents(): (s: seq<byte>)
      requires Valid()
      reads this, buf
      ensures |s| == e - b
    {
      if buf == null then [] else buf[b..e]
    }

    constructor ()
      ensures Valid() && fresh(this) && buf == null && Contents() == []
      ensures View() == Shape(0, 0, 0, 512) && copied == 0
    {
      buf, b, e, cap, exp, copied := null, 0, 0, 0, 512, 0;
    }

    method Clear()
      requires Valid()
      modifies this
      ensures Valid() && buf == null && Contents() == []
      ensures View() == old(View()).Cleared() && copied == old(copied)
    {
      buf, cap, b, e := null, 0, 0, 0;
    }

    /** The forward copy of `std::copy`, in place and overlapping. */
    method MoveHead()
      requires Valid()
      modifies this, buf
      ensures Valid() && buf == old(buf)
      ensures Contents() == old(Contents())
      ensures View() == old(View()).Compacted() && copied == old(copied) + |Contents()|
    {
      var i, n := 0, e - b;
      while i < n
        invariant 0 <= i <= n && buf == old(buf) && View() == old(View()) && copied == old(copied)
        invariant forall k | 0 <= k < i :: buf[k] == old(buf[b + k])
        invariant forall j | b + i <= j < e :: buf[j] == old(buf[j])
      {
        buf[i] := buf[b + i];
        i := i + 1;
      }
      if buf != null {
        assert buf[0..n] == old(buf[b..e]);
      }
      e, b := n, 0;
      copied := copied + n;
    }

    method Expand(len: nat)
      requires Valid()
      requires exp > 0 || cap > 0 || len > 0
      modifies this
      ensures Valid() && fresh(buf)
      ensures Contents() == old(Contents())
      ensures View() == old(View()).Expanded(len) && copied == old(copied) + |Contents()|
    {
      var ncap := Max(exp, Max(2 * cap, e - b + len));
      var src, off, n := buf, b, e - b;
      var p := new byte[ncap];
      forall k | 0 <= k < n {
        p[k] := src[off + k];
      }
      if src != null { SameBytes(p, src, off, n); }
      e, b := n, 0;
      buf, cap := p, ncap;
      copied := copied + n;
    }

    method MakeRoom(len: nat)
      requires Valid()
      modifies this, buf
      ensures Valid() && (buf == old(buf) || fresh(buf))
      ensures Contents() == old(Contents())
      ensures View() == old(View()).Roomy(len) && cap - e >= len
      ensures copied == old(copied) + old(View()).CopyCost(len)
    {
      if e + len <= cap {
      } else if e - b + len < cap / 2 {
        MoveHead();
      } else {
        Expand(len);
      }
    }

    /** `makeRoom()`: what the read path calls before every read. */
    method MakeReadRoom()
      requires Valid()
      modifies this
      ensures Valid() && (buf == old(buf) || fresh(buf))
      ensures Contents() == old(Contents())
      ensures View() == old(View()).ReadRoomy() && copied == old(copied) + old(View()).ReadCost()
      ensures cap - e > 0 <==> exp > 0 || old(cap - e) > 0
    {
      if cap - e < exp {
        Expand(0);
      }
    }

    /** `addSize` after the caller has written `data` at `end()`. */
    method Fill(data: seq<byte>)
      requires Valid()
      requires |data| <= cap - e
      modifies this, buf
      ensures Valid() && buf == old(buf)
      ensures Contents() == old(Contents()) + data
      ensures View() == old(View()).(e := old(e) + |data|) && copied == old(copied)
    {
      var at := e;
      if buf != null {
        forall k | 0 <= k < |data| {
          buf[at + k] := data[k];
        }
      }
      e := e + |data|;
      assert buf != null ==> buf[b..e] == buf[b..at] + buf[at..e];
    }

    method Append(data: seq<byte>)
      requires Valid()
      modifies this, buf
      ensures Valid() && (buf == old(buf) || fresh(buf))
      ensures Contents() == old(Contents()) + data
      ensures View() == old(View()).Appended(|data|)
      ensures copied == old(copied) + old(View()).CopyCost(|data|)
    {
      MakeRoom(|data|);
      Fill(data);
    }

    method AppendPart(data: seq<byte>, ghost first: seq<byte>, ghost done: seq<byte>)
      requires Valid() && Contents() == first + done
      modifies this, buf
      ensures Valid() && (buf == old(buf) || fresh(buf))
      ensures Contents() == first + (done + data)
    {
      Append(data);
      assert first + done + data == first + (done + data);
    }

    /** A chain of appends. */
    method AppendAll(parts: seq<seq<byte>>)
      requires Valid()
      modifies this, buf
      ensures Valid() && (buf == old(buf) || fresh(buf))
      ensures Contents() == old(Contents()) + Concat(parts)
    {
      for i := 0 to |parts|
        invariant Valid() && (buf == old(buf) || fresh(buf))
        invariant Contents() == old(Contents()) + Concat(parts[..i])
      {
        ConcatSnoc(parts, i);
        AppendPart(parts[i], old(Contents()), Concat(parts[..i]));
      }
      assert parts[..|parts|] == parts;
    }

    method Consume(len: nat)
      requires Valid()
      requires len <= e - b
      modifies this
      ensures Valid() && (buf == old(buf) || buf == null)
      ensures Contents() == old(Contents())[len..]
      ensures View() == old(View()).Consumed(len) && copied == old(copied)
      ensures Contents() == [] ==> buf == null
    {
      b := b + len;
      if b == e {
        Clear();
      }
    }

    /** Takes over the other buffer's bytes. An empty receiver swaps storage with
        the argument (each keeps its own growth unit), otherwise the bytes are
        appended and the argument cleared. Absorbing oneself changes nothing. */
    method Absorb(other: Buffer)
      requires Valid() && other.Valid()
      requires other != this && buf != null ==> buf != other.buf
      modifies this, buf, other
      ensures Valid() && other.Valid()
      ensures other == this ==> Contents() == old(Contents()) && buf == old(buf) && View() == old(View())
      ensures other != this ==> Contents() == old(Contents()) + old(other.Contents())
      ensures other != this ==> other.Contents() == []
      ensures other != this ==> buf == old(buf) || buf == old(other.buf) || fresh(buf)
      ensures other != this ==> other.buf == old(buf) || other.buf == null
      ensures other != this && buf != null ==> buf != other.buf
      ensures exp == old(exp) && other.exp == old(other.exp)
    {
      if other != this {
        if b == e {
          var tbuf, tb, te, tcap := buf, b, e, cap;
          buf, b, e, cap := other.buf, other.b, other.e, other.cap;
          other.buf, other.b, other.e, other.cap := tbuf, tb, te, tcap;
        } else {
          var data: seq<byte> := if other.buf == null then [] else other.buf[other.b..other.e];
          Append(data);
          other.Clear();
        }
      }
    }

    /** The copy constructor: same bytes, same shape, separate storage. */
    constructor CopyOf(src: Buffer)
      requires src.Valid()
      ensures Valid() && fresh(this) && (buf == null || fresh(buf))
      ensures Contents() == src.Contents() && View() == src.View()
    {
      b, e, cap, exp, copied := src.b, src.e, src.cap, src.exp, 0;
      buf := null;
      new;
      if src.buf != null {
        var p := new byte[cap];
        forall k | b <= k < e {
          p[k] := src.buf[k];
        }
        buf := p;
      }
    }
  }
}
