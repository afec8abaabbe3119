/**
  The cost expression of the scheduled cost computation: the logistics set is
  filtered to its reserved items, each is mapped to `prixUnit * quantite`, and
  the results are summed from 0. Prices are exact reals here, so the sum does
  not depend on the order in which the set is iterated (lemma
  `ReservedCostPermutation`).
 */
module Cost {
  import opened Entities

  /** The cost of one logistics line. */
  function LineCost(l: Logistics): (r: real)
    ensures l.quantite == 0 || l.prixUnit == 0.0 ==> r == 0.0
    ensures l.prixUnit >= 0.0 && l.quantite >= 0 ==> r >= 0.0
  {
    l.prixUnit * l.quantite as real
  }

  /** The reserved items of `s`, in the order of `s`. */
  function Reserved(s: seq<Logistics>): (r: seq<Logistics>)
    ensures |r| <= |s|
    ensures forall x :: x in r <==> x in s && x.reserve
    decreases |s|
  {
    if s == [] then []
    else (if s[0].reserve then [s[0]] else []) + Reserved(s[1..])
  }

  /** The sum of the line costs of `s`, starting from 0. */
  function Total(s: seq<Logistics>): (r: real)
    ensures s == [] ==> r == 0.0
    ensures (forall i :: 0 <= i < |s| ==> LineCost(s[i]) >= 0.0) ==> r >= 0.0
    decreases |s|
  {
    if s == [] then 0.0
    else
      assert forall i :: 0 <= i < |s| - 1 ==> s[1..][i] == s[i + 1];
      LineCost(s[0]) + Total(s[1..])
  }

  /** The sum of `prixUnit * quantite` over the reserved items of `s`. */
  function ReservedCost(s: seq<Logistics>): (r: real)
    ensures (forall x :: x in s ==> !x.reserve) ==> r == 0.0
    ensures (forall x :: x in s && x.reserve ==> LineCost(x) >= 0.0) ==> r >= 0.0
  {
    var reserved := Reserved(s);
    assert reserved != [] ==> reserved[0] in reserved;
    assert forall i :: 0 <= i < |reserved| ==> reserved[i] in reserved;
    Total(reserved)
  }

  /** What one item adds to the cost: its line cost when reserved, else 0. */
  function Contribution(l: Logistics): real
  {
    if l.reserve then LineCost(l) else 0.0
  }

  /** The cost of an event's logistics set; a null or empty set costs 0. */
  function EventCost(logistics: Option<seq<Logistics>>): (r: real)
    ensures logistics.None? || logistics == Some([]) ==> r == 0.0
  {
    match logistics
    case None => 0.0
    case Some(s) => ReservedCost(s)
  }

  /** The event after the cost computation has set its cost. */
  function WithCost(e: Event): (r: Event)
    ensures r.cout == EventCost(e.logistics)
    ensures r.(cout := e.cout) == e
  {
    e.(cout := EventCost(e.logistics))
  }

  /** The filter keeps exactly the reserved items, in order, on a concatenation. */
  lemma {:induction false} ReservedAppend(a: seq<Logistics>, b: seq<Logistics>)
    ensures Reserved(a + b) == Reserved(a) + Reserved(b)
    decreases |a|
  {
    if a == [] {
      assert a + b == b;
    } else {
      assert (a + b)[1..] == a[1..] + b;
      ReservedAppend(a[1..], b);
    }
  }

  /** Filtering twice is filtering once. */
  lemma {:induction false} ReservedIdempotent(s: seq<Logistics>)
    ensures Reserved(Reserved(s)) == Reserved(s)
    decreases |s|
  {
    if s != [] {
      var head := if s[0].reserve then [s[0]] else [];
      ReservedAppend(head, Reserved(s[1..]));
      ReservedIdempotent(s[1..]);
      if s[0].reserve {
        assert Reserved(head) == [s[0]] by {
          assert head[1..] == [];
        }
      }
    }
  }

  /** The sum splits over a concatenation. */
  lemma {:induction false} TotalAppend(a: seq<Logistics>, b: seq<Logistics>)
    ensures Total(a + b) == Total(a) + Total(b)
    decreases |a|
  {
    if a == [] {
      assert a + b == b;
    } else {
      assert (a + b)[1..] == a[1..] + b;
      TotalAppend(a[1..], b);
    }
  }

  /** The cost splits over a concatenation. */
  lemma ReservedCostAppend(a: seq<Logistics>, b: seq<Logistics>)
    ensures ReservedCost(a + b) == ReservedCost(a) + ReservedCost(b)
  {
    ReservedAppend(a, b);
    TotalAppend(Reserved(a), Reserved(b));
  }

  /** A one-item set filters to itself when the item is reserved, else to nothing. */
  lemma ReservedSingle(l: Logistics)
    ensures Reserved([l]) == if l.reserve then [l] else []
  {
    assert [l][1..] == [];
  }

  /** The cost of a one-item set is that item's contribution. */
  lemma ReservedCostSingle(l: Logistics)
    ensures ReservedCost([l]) == Contribution(l)
  {
    assert [l][1..] == [];
    if l.reserve {
      assert Reserved([l]) == [l];
      assert Total([l]) == LineCost(l) + Total([]);
    } else {
      assert Reserved([l]) == [];
    }
  }

  /** Non-reserved items contribute nothing: costing only the reserved items
      gives the same cost. */
  lemma ReservedCostOfReserved(s: seq<Logistics>)
    ensures ReservedCost(Reserved(s)) == ReservedCost(s)
  {
    ReservedIdempotent(s);
  }

  /** The cost does not depend on the order in which the set is iterated: any
      two listings of the same items have the same cost. */
  lemma {:induction false} ReservedCostPermutation(a: seq<Logistics>, b: seq<Logistics>)
    requires multiset(a) == multiset(b)
    ensures ReservedCost(a) == ReservedCost(b)
    decreases |a|
  {
    if a == [] {
      assert |b| == |multiset(b)| == 0;
    } else {
      var x := a[0];
      assert x in multiset(b);
      var i :| 0 <= i < |b| && b[i] == x;
      var rest := b[..i] + b[i+1..];
      assert a == [x] + a[1..];
      assert b == b[..i] + [x] + b[i+1..];
      assert multiset(a[1..]) == multiset(rest) by {
        assert multiset(a) == multiset{x} + multiset(a[1..]);
        assert multiset(b) == multiset(b[..i]) + multiset{x} + multiset(b[i+1..]);
        assert multiset(rest) == multiset(b[..i]) + multiset(b[i+1..]);
        assert multiset(a[1..]) == multiset(a) - multiset{x};
        assert multiset(rest) == multiset(b) - multiset{x};
      }
      ReservedCostPermutation(a[1..], rest);
      ReservedCostAppend([x], a[1..]);
      ReservedCostAppend(b[..i] + [x], b[i+1..]);
      ReservedCostAppend(b[..i], [x]);
      ReservedCostAppend(b[..i], b[i+1..]);
      ReservedCostSingle(x);
    }
  }

  /** The cost computation ignores the previous cost and is idempotent. */
  lemma WithCostIdempotent(e: Event, c: real)
    ensures WithCost(e.(cout := c)) == WithCost(e)
    ensures WithCost(WithCost(e)) == WithCost(e)
  {
  }

  /** One reserved item at 100 x 2 costs 200; a non-reserved item at
      1000 x 5 next to it is excluded, so the cost stays 200. */
  lemma ReservedOnlyExample()
    ensures ReservedCost([Logistics(1, "", true, 100.0, 2)]) == 200.0
    ensures ReservedCost([Logistics(1, "", true, 100.0, 2), Logistics(2, "", false, 1000.0, 5)]) == 200.0
  {
    var reserved := Logistics(1, "", true, 100.0, 2);
    var other := Logistics(2, "", false, 1000.0, 5);
    ReservedCostAppend([reserved], [other]);
    ReservedCostSingle(reserved);
    ReservedCostSingle(other);
    assert [reserved] + [other] == [reserved, other];
  }
}
