/** The cheapest expression a group has found for each property set. */
module LowestCosts {
  import opened Options

  /** A cost offered for an expression that provides some properties. */
  datatype Offer<P, E> = Offer(properties: P, cost: real, expr: E)

  /** What the table holds for a property set after the offers, in order. */
  function Best<P(==), E>(offers: seq<Offer<P, E>>, p: P): Option<(real, E)> {
    if offers == [] then None
    else
      var before, last := Best(offers[..|offers| - 1], p), offers[|offers| - 1];
      if last.properties == p && (before == None || before.value.0 > last.cost) then Some((last.cost, last.expr))
      else before
  }

  /** The k-th offer is for these properties, is cheaper than every one before it and no dearer than
      any after it. */
  ghost predicate EarliestCheapest<P, E>(offers: seq<Offer<P, E>>, p: P, k: nat) {
    k < |offers| && offers[k].properties == p &&
    (forall i :: 0 <= i < k && offers[i].properties == p ==> offers[i].cost > offers[k].cost) &&
    (forall i :: k < i < |offers| && offers[i].properties == p ==> offers[i].cost >= offers[k].cost)
  }

  /** There is an entry exactly when something was offered, and it is the earliest of the cheapest. */
  lemma {:induction false} BestIsEarliestCheapest<P, E>(offers: seq<Offer<P, E>>, p: P) returns (k: nat)
    ensures Best(offers, p) == None <==> forall i :: 0 <= i < |offers| ==> offers[i].properties != p
    ensures Best(offers, p).Some? ==>
              EarliestCheapest(offers, p, k) && Best(offers, p) == Some((offers[k].cost, offers[k].expr))
  {
    if offers == [] {
      k := 0;
    } else {
      var n := |offers| - 1;
      var before := offers[..n];
      k := BestIsEarliestCheapest(before, p);
      assert forall i :: 0 <= i < n ==> before[i] == offers[i];
      if Best(before, p) == None {
        k := n;
      } else if offers[n].properties == p && offers[k].cost > offers[n].cost {
        k := n;
      }
    }
  }

  class Group<P(==, !new), E> {
    var lowestCostExpressions: map<P, (real, E)>
    ghost var offers: seq<Offer<P, E>>

    /** The table is what the offers so far amount to. */
    ghost predicate Valid()
      reads this
    {
      forall p :: Best(offers, p) == if p in lowestCostExpressions then Some(lowestCostExpressions[p]) else None
    }

    constructor ()
      ensures Valid() && offers == []
    {
      lowestCostExpressions, offers := map[], [];
    }

    method SetExpressionCost(expr: E, cost: real, properties: P) returns (improved: bool)
      requires Valid()
      modifies this
      ensures Valid() && offers == old(offers) + [Offer(properties, cost, expr)]
      ensures improved <==> forall i :: 0 <= i < |old(offers)| && old(offers)[i].properties == properties ==>
                              old(offers)[i].cost > cost
    {
      ghost var k := BestIsEarliestCheapest(offers, properties);
      ghost var was := offers;
      offers := offers + [Offer(properties, cost, expr)];
      assert offers[..|was|] == was;
      if properties !in lowestCostExpressions {
        lowestCostExpressions := lowestCostExpressions[properties := (cost, expr)];
        return true;
      }
      if lowestCostExpressions[properties].0 > cost {
        lowestCostExpressions := lowestCostExpressions[properties := (cost, expr)];
        return true;
      }
      assert was[k].properties == properties && was[k].cost <= cost;
      return false;
    }

    method GetBestExpression(properties: P) returns (r: Option<E>)
      requires Valid()
      ensures r == None <==> forall i :: 0 <= i < |offers| ==> offers[i].properties != properties
      ensures r.Some? ==> exists k: nat :: EarliestCheapest(offers, properties, k) && offers[k].expr == r.value
    {
      ghost var k := BestIsEarliestCheapest(offers, properties);
      if properties in lowestCostExpressions {
        assert EarliestCheapest(offers, properties, k);
        return Some(lowestCostExpressions[properties].1);
      }
      return None;
    }
  }
}
