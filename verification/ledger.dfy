/**
  The logistics ledger: attaching a logistics item to an event's logistics
  set, and the reserved items of the events a date-range query returns.
  Logistics items are identified by `idLog`: adding an item whose id the set
  already holds leaves the set as it was.
 */
module Ledger {
  import opened Entities
  import opened Cost

  /** `s` holds an item with id `idLog`. */
  predicate HasLog(s: seq<Logistics>, idLog: int)
  {
    exists i :: 0 <= i < |s| && s[i].idLog == idLog
  }

  /** No two items of `s` share an id: `s` lists a set. */
  predicate UniqueIds(s: seq<Logistics>)
  {
    forall i, j :: 0 <= i < j < |s| ==> s[i].idLog != s[j].idLog
  }

  /** The set `s` after `add(l)`. */
  function AddLog(s: seq<Logistics>, l: Logistics): (r: seq<Logistics>)
    ensures HasLog(r, l.idLog)
    ensures s <= r
    ensures forall x :: x in r <==> x in s || (x == l && !HasLog(s, l.idLog))
  {
    if HasLog(s, l.idLog) then s
    else
      assert (s + [l])[|s|] == l;
      s + [l]
  }

  /** Adding an item keeps the ids of a set unique. */
  lemma AddLogUnique(s: seq<Logistics>, l: Logistics)
    requires UniqueIds(s)
    ensures UniqueIds(AddLog(s, l))
  {
    if !HasLog(s, l.idLog) {
      var r := s + [l];
      forall i, j | 0 <= i < j < |r| ensures r[i].idLog != r[j].idLog {
        if j == |s| {
          assert r[i] == s[i];
        }
      }
    }
  }

  /** Adding the same item twice is adding it once. */
  lemma AddLogIdempotent(s: seq<Logistics>, l: Logistics)
    ensures AddLog(AddLog(s, l), l) == AddLog(s, l)
  {
  }

  /** The event after `l` has been added to its logistics set, the set being
      created first if it was null. */
  function WithLog(e: Event, l: Logistics): (r: Event)
    ensures r.logistics.Some?
    ensures LogisticsOf(r) == AddLog(LogisticsOf(e), l)
    ensures r.(logistics := e.logistics) == e
  {
    e.(logistics := Some(AddLog(LogisticsOf(e), l)))
  }

  /** Attaching a new item raises the event's cost by the item's contribution
      (its line cost when reserved, else nothing); attaching an item already
      there leaves the cost as it was. */
  lemma WithLogCost(e: Event, l: Logistics)
    ensures EventCost(WithLog(e, l).logistics)
         == EventCost(e.logistics) + (if HasLog(LogisticsOf(e), l.idLog) then 0.0 else Contribution(l))
  {
    var s := LogisticsOf(e);
    assert EventCost(e.logistics) == ReservedCost(s);
    if !HasLog(s, l.idLog) {
      ReservedCostAppend(s, [l]);
      ReservedCostSingle(l);
    }
  }

  /** Every id in `found` names a stored event. */
  predicate Stored(events: map<int, Event>, found: seq<int>)
  {
    forall i :: 0 <= i < |found| ==> found[i] in events
  }

  /** `found` is an answer of the date-range query on `events`: it lists
      exactly the stored events whose start date lies in `[d1, d2]`. */
  ghost predicate RangeQuery(events: map<int, Event>, found: seq<int>, d1: Date, d2: Date)
  {
    && Stored(events, found)
    && (forall i :: 0 <= i < |found| ==> d1 <= events[found[i]].dateDebut <= d2)
    && (forall id :: id in events && d1 <= events[id].dateDebut <= d2 ==> id in found)
  }

  /** `x` is in the logistics set of the event `found[i]`. */
  ghost predicate InFoundEvent(events: map<int, Event>, found: seq<int>, i: int, x: Logistics)
  {
    0 <= i < |found| && found[i] in events && x in LogisticsOf(events[found[i]])
  }

  /** The reserved items of the events in `found`, event after event; an
      event whose logistics set is null contributes nothing. */
  function RangeReserved(events: map<int, Event>, found: seq<int>): (r: seq<Logistics>)
    requires Stored(events, found)
    ensures forall x :: x in r <==> x.reserve && exists i :: InFoundEvent(events, found, i, x)
    decreases |found|
  {
    if found == [] then []
    else
      var n := |found| - 1;
      var r := RangeReserved(events, found[..n]) + Reserved(LogisticsOf(events[found[n]]));
      assert forall x, i :: InFoundEvent(events, found[..n], i, x) ==> InFoundEvent(events, found, i, x);
      assert forall x, i :: InFoundEvent(events, found, i, x) && i < n ==> InFoundEvent(events, found[..n], i, x);
      assert forall x :: InFoundEvent(events, found, n, x) <==> x in LogisticsOf(events[found[n]]);
      r
  }

  /** With the query's answer, the returned items are exactly the reserved
      items of the stored events whose start date lies in `[d1, d2]`. */
  lemma RangeReservedByDate(events: map<int, Event>, found: seq<int>, d1: Date, d2: Date)
    requires RangeQuery(events, found, d1, d2)
    ensures forall x :: x in RangeReserved(events, found) <==>
      x.reserve && exists id :: id in events && d1 <= events[id].dateDebut <= d2 && x in LogisticsOf(events[id])
  {
    forall x: Logistics | x.reserve
      ensures (exists i :: InFoundEvent(events, found, i, x)) <==>
              (exists id :: id in events && d1 <= events[id].dateDebut <= d2 && x in LogisticsOf(events[id]))
    {
      if id :| id in events && d1 <= events[id].dateDebut <= d2 && x in LogisticsOf(events[id]) {
        var i :| 0 <= i < |found| && found[i] == id;
        assert InFoundEvent(events, found, i, x);
      }
      if i :| InFoundEvent(events, found, i, x) {
        var id := found[i];
        assert id in events && d1 <= events[id].dateDebut <= d2 && x in LogisticsOf(events[id]);
      }
    }
  }
}
