/** The ordered map of pending timers: entries sorted by (deadline, sequence). */
module TimerTable {

  datatype TimerId = TimerId(at: int, seqno: int)

  predicate Less(a: TimerId, b: TimerId) {
    a.at < b.at || (a.at == b.at && a.seqno < b.seqno)
  }

  /** What a pending entry does: run a one-shot callback, or call
      repeatableTimeout on the record of a repeating timer. */
  datatype Task = Once(tag: nat) | Again(rep: TimerId)

  datatype Entry = Entry(key: TimerId, task: Task)

  ghost predicate Sorted(ts: seq<Entry>) {
    forall i, j | 0 <= i < j < |ts| :: Less(ts[i].key, ts[j].key)
  }

  predicate Has(ts: seq<Entry>, k: TimerId) {
    exists e | e in ts :: e.key == k
  }

  /** `timers_[key] = task`. */
  function Put(ts: seq<Entry>, e: Entry): seq<Entry> {
    if ts == [] || Less(e.key, ts[0].key) then [e] + ts
    else if e.key == ts[0].key then [e] + ts[1..]
    else [ts[0]] + Put(ts[1..], e)
  }

  /** `timers_.erase`, if the key is there. */
  function Without(ts: seq<Entry>, k: TimerId): seq<Entry> {
    if ts == [] then [] else if ts[0].key == k then ts[1..]
    else [ts[0]] + Without(ts[1..], k)
  }

  lemma SortedTail(ts: seq<Entry>)
    requires Sorted(ts) && ts != []
    ensures Sorted(ts[1..])
    ensures forall e | e in ts[1..] :: Less(ts[0].key, e.key)
    ensures forall e :: e in ts <==> e == ts[0] || e in ts[1..]
  {
    assert ts == [ts[0]] + ts[1..];
  }

  lemma SortedCons(e: Entry, ts: seq<Entry>)
    requires Sorted(ts) && forall x | x in ts :: Less(e.key, x.key)
    ensures Sorted([e] + ts)
  {
    var s := [e] + ts;
    forall i, j | 0 <= i < j < |s|
      ensures Less(s[i].key, s[j].key)
    {
      assert s[j] == ts[j - 1];
      if i > 0 {
        assert s[i] == ts[i - 1];
      }
    }
  }

  lemma {:induction false} PutIsInsertion(ts: seq<Entry>, e: Entry)
    requires Sorted(ts) && !Has(ts, e.key)
    ensures Sorted(Put(ts, e))
    ensures forall x :: x in Put(ts, e) <==> x in ts || x == e
  {
    if ts == [] {
    } else if Less(e.key, ts[0].key) {
      SortedTail(ts);
      SortedCons(e, ts);
    } else {
      SortedTail(ts);
      assert ts[0] in ts;
      PutIsInsertion(ts[1..], e);
      SortedCons(ts[0], Put(ts[1..], e));
    }
  }

  lemma {:induction false} WithoutIsRemoval(ts: seq<Entry>, k: TimerId)
    requires Sorted(ts)
    ensures Sorted(Without(ts, k))
    ensures forall x :: x in Without(ts, k) <==> x in ts && x.key != k
  {
    if ts != [] {
      SortedTail(ts);
      if ts[0].key != k {
        WithoutIsRemoval(ts[1..], k);
        SortedCons(ts[0], Without(ts[1..], k));
      }
    }
  }

  lemma KeysAreUnique(ts: seq<Entry>, x: Entry, y: Entry)
    requires Sorted(ts) && x in ts && y in ts && x.key == y.key
    ensures x == y
  {
    var i :| 0 <= i < |ts| && ts[i] == x;
    var j :| 0 <= j < |ts| && ts[j] == y;
  }
}
