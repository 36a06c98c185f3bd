/** The bindings of a pattern in a memo, as a recursive specification, and what
    holds of them: membership, number, order of a product, absence of repeats. */
module Bindings {
  import opened Plans

  // ---------------------------------------------------------------------------
  // Lexicographic product, last list fastest
  // ---------------------------------------------------------------------------

  function PrependAll<T>(x: T, ts: seq<seq<T>>): (r: seq<seq<T>>)
    ensures |r| == |ts|
  {
    seq(|ts|, i requires 0 <= i < |ts| => [x] + ts[i])
  }

  function Spread<T>(xs: seq<T>, ts: seq<seq<T>>): seq<seq<T>> {
    if xs == [] then [] else PrependAll(xs[0], ts) + Spread(xs[1..], ts)
  }

  function Product<T>(lists: seq<seq<T>>): seq<seq<T>> {
    if lists == [] then [[]] else Spread(lists[0], Product(lists[1..]))
  }

  /** A position in every list. */
  predicate InRange<T>(lists: seq<seq<T>>, pos: seq<nat>) {
    |pos| == |lists| && forall i :: 0 <= i < |lists| ==> pos[i] < |lists[i]|
  }

  function Select<T>(lists: seq<seq<T>>, pos: seq<nat>): (r: seq<T>)
    requires InRange(lists, pos)
    ensures |r| == |lists|
  {
    seq(|lists|, i requires 0 <= i < |lists| => lists[i][pos[i]])
  }

  /** The part of the product from position `pos` on. */
  function Remaining<T>(lists: seq<seq<T>>, pos: seq<nat>): seq<seq<T>>
    requires InRange(lists, pos)
  {
    if lists == [] then [[]]
    else PrependAll(lists[0][pos[0]], Remaining(lists[1..], pos[1..])) +
         Spread(lists[0][pos[0] + 1..], Product(lists[1..]))
  }

  function Zeros(n: nat): (z: seq<nat>)
    ensures |z| == n
  {
    seq(n, i => 0)
  }

  lemma {:induction false} RemainingFirst<T>(lists: seq<seq<T>>, pos: seq<nat>)
    requires InRange(lists, pos)
    ensures |Remaining(lists, pos)| > 0 && Remaining(lists, pos)[0] == Select(lists, pos)
  {
    if lists != [] {
      RemainingFirst(lists[1..], pos[1..]);
      assert Select(lists, pos) == [lists[0][pos[0]]] + Select(lists[1..], pos[1..]);
    }
  }

  lemma {:induction false} RemainingFromZero<T>(lists: seq<seq<T>>)
    requires forall i :: 0 <= i < |lists| ==> lists[i] != []
    ensures Remaining(lists, Zeros(|lists|)) == Product(lists)
  {
    if lists != [] {
      RemainingFromZero(lists[1..]);
      assert Zeros(|lists|)[1..] == Zeros(|lists| - 1);
    }
  }

  lemma {:induction false} RemainingAtEnd<T>(lists: seq<seq<T>>, pos: seq<nat>)
    requires InRange(lists, pos)
    requires forall i :: 0 <= i < |lists| ==> pos[i] == |lists[i]| - 1
    ensures |Remaining(lists, pos)| == 1
  {
    if lists != [] {
      RemainingAtEnd(lists[1..], pos[1..]);
    }
  }

  /** The positions after one carry: wheel `k` moves on and every later wheel restarts. */
  function Carried(pos: seq<nat>, k: nat): (r: seq<nat>)
    requires k < |pos|
    ensures |r| == |pos|
  {
    pos[..k] + [pos[k] + 1] + Zeros(|pos| - k - 1)
  }

  /** One carry of the odometer: every wheel after `k` is at its end and wheel `k` is not. */
  lemma {:induction false} RemainingStep<T>(lists: seq<seq<T>>, pos: seq<nat>, k: nat)
    requires InRange(lists, pos)
    requires k < |lists| && pos[k] + 1 < |lists[k]|
    requires forall i :: k < i < |lists| ==> pos[i] == |lists[i]| - 1
    ensures InRange(lists, Carried(pos, k))
    ensures Remaining(lists, pos) == [Select(lists, pos)] + Remaining(lists, Carried(pos, k))
  {
    if k == 0 {
      FirstWheelStep(lists, pos);
    } else {
      RemainingStep(lists[1..], pos[1..], k - 1);
      LaterWheelStep(lists, pos, k);
    }
  }

  /** With every later wheel at its end the first wheel has one tuple left where it stands. */
  lemma LastOfWheel<T>(lists: seq<seq<T>>, pos: seq<nat>)
    requires InRange(lists, pos) && lists != []
    requires forall i :: 0 < i < |lists| ==> pos[i] == |lists[i]| - 1
    ensures PrependAll(lists[0][pos[0]], Remaining(lists[1..], pos[1..])) == [Select(lists, pos)]
  {
    RemainingFirst(lists[1..], pos[1..]);
    RemainingAtEnd(lists[1..], pos[1..]);
    assert Select(lists, pos) == [lists[0][pos[0]]] + Select(lists[1..], pos[1..]);
  }

  /** With every later wheel at its start the first wheel has everything left from where it stands. */
  lemma StartOfWheel<T>(lists: seq<seq<T>>, pos: seq<nat>)
    requires InRange(lists, pos) && lists != [] && pos[1..] == Zeros(|lists| - 1)
    ensures Remaining(lists, pos) == Spread(lists[0][pos[0]..], Product(lists[1..]))
  {
    forall i | 0 <= i < |lists[1..]| ensures lists[1..][i] != [] {
      assert pos[i + 1] < |lists[i + 1]|;
    }
    RemainingFromZero(lists[1..]);
    assert lists[0][pos[0]..][1..] == lists[0][pos[0] + 1..];
  }

  lemma FirstWheelStep<T>(lists: seq<seq<T>>, pos: seq<nat>)
    requires InRange(lists, pos)
    requires 0 < |lists| && pos[0] + 1 < |lists[0]|
    requires forall i :: 0 < i < |lists| ==> pos[i] == |lists[i]| - 1
    ensures InRange(lists, Carried(pos, 0))
    ensures Remaining(lists, pos) == [Select(lists, pos)] + Remaining(lists, Carried(pos, 0))
  {
    var next := Carried(pos, 0);
    assert next[1..] == Zeros(|lists| - 1);
    forall i | 0 <= i < |lists| ensures next[i] < |lists[i]| {
      assert i > 0 ==> next[i] == 0 && pos[i] < |lists[i]|;
    }
    LastOfWheel(lists, pos);
    assert Remaining(lists, pos) == [Select(lists, pos)] + Spread(lists[0][pos[0] + 1..], Product(lists[1..]));
    StartOfWheel(lists, next);
  }

  lemma LaterWheelInRange<T>(lists: seq<seq<T>>, pos: seq<nat>, k: nat)
    requires InRange(lists, pos)
    requires 0 < k < |lists| && InRange(lists[1..], Carried(pos[1..], k - 1))
    ensures InRange(lists, Carried(pos, k))
    ensures Carried(pos, k)[0] == pos[0] && Carried(pos, k)[1..] == Carried(pos[1..], k - 1)
  {
    var next := Carried(pos, k);
    assert next[1..] == Carried(pos[1..], k - 1);
    forall i | 0 <= i < |lists| ensures next[i] < |lists[i]| {
      if i > 0 { assert next[i] == next[1..][i - 1] && lists[i] == lists[1..][i - 1]; }
    }
  }

  lemma LaterWheelStep<T>(lists: seq<seq<T>>, pos: seq<nat>, k: nat)
    requires InRange(lists, pos)
    requires 0 < k < |lists|
    requires InRange(lists[1..], Carried(pos[1..], k - 1))
    requires Remaining(lists[1..], pos[1..]) ==
             [Select(lists[1..], pos[1..])] + Remaining(lists[1..], Carried(pos[1..], k - 1))
    ensures InRange(lists, Carried(pos, k))
    ensures Remaining(lists, pos) == [Select(lists, pos)] + Remaining(lists, Carried(pos, k))
  {
    LaterWheelInRange(lists, pos, k);
    var tail, next, x := lists[1..], Carried(pos, k), lists[0][pos[0]];
    var others := Spread(lists[0][pos[0] + 1..], Product(tail));
    assert Select(lists, pos) == [x] + Select(tail, pos[1..]);
    assert PrependAll(x, Remaining(tail, pos[1..])) ==
           [Select(lists, pos)] + PrependAll(x, Remaining(tail, next[1..]));
    assert Remaining(lists, next) == PrependAll(x, Remaining(tail, next[1..])) + others;
    ConcatAssoc([Select(lists, pos)], PrependAll(x, Remaining(tail, next[1..])), others);
  }

  lemma {:induction false} ProductEmpty<T>(lists: seq<seq<T>>, k: nat)
    requires k < |lists| && lists[k] == []
    ensures Product(lists) == []
  {
    if Product(lists) != [] {
      assert Product(lists)[0] in Product(lists);
      ProductMember(lists, Product(lists)[0]);
      assert false;
    }
  }

  lemma {:induction false} SpreadMember<T>(xs: seq<T>, ts: seq<seq<T>>, u: seq<T>)
    ensures u in Spread(xs, ts) <==> u != [] && u[0] in xs && u[1..] in ts
  {
    if xs != [] {
      SpreadMember(xs[1..], ts, u);
      var first := PrependAll(xs[0], ts);
      if u in first {
        var i :| 0 <= i < |first| && first[i] == u;
        assert u == [xs[0]] + ts[i];
      }
      if u != [] && u[0] == xs[0] && u[1..] in ts {
        var i :| 0 <= i < |ts| && ts[i] == u[1..];
        assert u == [xs[0]] + ts[i] == first[i];
      }
    }
  }

  /** A tuple is in the product exactly when it picks one element of each list. */
  lemma {:induction false} ProductMember<T>(lists: seq<seq<T>>, u: seq<T>)
    ensures u in Product(lists) <==>
            |u| == |lists| && forall i :: 0 <= i < |lists| ==> u[i] in lists[i]
  {
    if lists != [] {
      SpreadMember(lists[0], Product(lists[1..]), u);
      if u != [] {
        ProductMember(lists[1..], u[1..]);
        if |u| == |lists| && forall i :: 0 <= i < |lists| ==> u[i] in lists[i] {
          forall i | 0 <= i < |lists| - 1 ensures u[1..][i] in lists[1..][i] {
            assert u[1..][i] == u[i + 1] && lists[1..][i] == lists[i + 1];
          }
        }
        if |u[1..]| == |lists[1..]| && u[0] in lists[0] && forall i :: 0 <= i < |lists[1..]| ==> u[1..][i] in lists[1..][i] {
          forall i | 0 <= i < |lists| ensures u[i] in lists[i] {
            if i > 0 { assert u[i] == u[1..][i - 1] && lists[i] == lists[1..][i - 1]; }
          }
        }
      }
    }
  }

  function Times(ns: seq<nat>): nat {
    if ns == [] then 1 else ns[0] * Times(ns[1..])
  }

  function Lengths<T>(lists: seq<seq<T>>): (r: seq<nat>)
    ensures |r| == |lists|
  {
    seq(|lists|, i requires 0 <= i < |lists| => |lists[i]|)
  }

  lemma {:induction false} SpreadLength<T>(xs: seq<T>, ts: seq<seq<T>>)
    ensures |Spread(xs, ts)| == |xs| * |ts|
  {
    if xs != [] {
      SpreadLength(xs[1..], ts);
    }
  }

  lemma {:induction false} ProductLength<T>(lists: seq<seq<T>>)
    ensures |Product(lists)| == Times(Lengths(lists))
  {
    if lists != [] {
      ProductLength(lists[1..]);
      SpreadLength(lists[0], Product(lists[1..]));
      assert Lengths(lists)[1..] == Lengths(lists[1..]);
    }
  }

  lemma {:induction false} SpreadNoDup<T>(xs: seq<T>, ts: seq<seq<T>>)
    requires NoDup(xs) && NoDup(ts)
    ensures NoDup(Spread(xs, ts))
  {
    if xs != [] {
      SpreadNoDup(xs[1..], ts);
      var first, rest := PrependAll(xs[0], ts), Spread(xs[1..], ts);
      forall i, j | 0 <= i < |first| && 0 <= j < |rest| ensures first[i] != rest[j] {
        assert rest[j] in rest;
        SpreadMember(xs[1..], ts, rest[j]);
        assert first[i][0] == xs[0];
      }
      forall i, j | 0 <= i < j < |first| ensures first[i] != first[j] {
        assert first[i][1..] == ts[i] && first[j][1..] == ts[j];
      }
    }
  }

  lemma {:induction false} ProductNoDup<T>(lists: seq<seq<T>>)
    requires forall i :: 0 <= i < |lists| ==> NoDup(lists[i])
    ensures NoDup(Product(lists))
  {
    if lists != [] {
      ProductNoDup(lists[1..]);
      SpreadNoDup(lists[0], Product(lists[1..]));
    }
  }

  // ---------------------------------------------------------------------------
  // The bindings of a pattern
  // ---------------------------------------------------------------------------

  function Roots(op: Operator, tuples: seq<seq<Node>>): (r: seq<Node>)
    ensures |r| == |tuples|
  {
    seq(|tuples|, i requires 0 <= i < |tuples| => Node(op, tuples[i]))
  }

  /** The trees still to be handed out when the odometer stands at `pos`, without the first if that one
      has been taken. */
  function Left(op: Operator, lists: seq<seq<Node>>, pos: seq<nat>, taken: bool): seq<Node>
    requires InRange(lists, pos)
  {
    var all := Roots(op, Remaining(lists, pos));
    if taken && all != [] then all[1..] else all
  }

  lemma LeftFromZero(op: Operator, lists: seq<seq<Node>>)
    requires forall k :: 0 <= k < |lists| ==> lists[k] != []
    ensures InRange(lists, Zeros(|lists|)) && Left(op, lists, Zeros(|lists|), false) == Roots(op, Product(lists))
  {
    RemainingFromZero(lists);
  }

  lemma LeftFirst(op: Operator, lists: seq<seq<Node>>, pos: seq<nat>)
    requires InRange(lists, pos)
    ensures Left(op, lists, pos, false) == [Node(op, Select(lists, pos))] + Left(op, lists, pos, true)
  {
    RemainingFirst(lists, pos);
    var all := Roots(op, Remaining(lists, pos));
    assert all == [all[0]] + all[1..];
  }

  lemma LeftAdvance(op: Operator, lists: seq<seq<Node>>, pos: seq<nat>, next: seq<nat>)
    requires InRange(lists, pos) && InRange(lists, next)
    requires Remaining(lists, pos) == [Select(lists, pos)] + Remaining(lists, next)
    ensures Left(op, lists, pos, true) == Left(op, lists, next, false)
  {
    var all := Roots(op, Remaining(lists, pos));
    assert all[1..] == Roots(op, Remaining(lists, next));
  }

  /** The root test: same operator type and as many children as the pattern has. */
  predicate RootMatches(e: GroupExpr, p: Pattern) {
    e.op.Type() == p.opType && |e.children| == |p.children|
  }

  function GroupBindings(m: seq<Group>, g: GroupId, p: Pattern): seq<Node>
    requires Closed(m) && g < |m|
    decreases p, 2
  {
    if p.opType == Leaf then [Node(LeafOperator(g), [])]
    else ItemBindings(m, m[g].logical, p)
  }

  /** Expression by expression, in the order the group holds them. */
  function ItemBindings(m: seq<Group>, es: seq<GroupExpr>, p: Pattern): seq<Node>
    requires Closed(m) && forall i :: 0 <= i < |es| ==> ClosedExpr(m, es[i])
    decreases p, 1, |es|
  {
    if es == [] then [] else ExprBindings(m, es[0], p) + ItemBindings(m, es[1..], p)
  }

  function ExprBindings(m: seq<Group>, e: GroupExpr, p: Pattern): seq<Node>
    requires Closed(m) && ClosedExpr(m, e)
    decreases p, 0
  {
    if RootMatches(e, p) then
      Roots(e.op, Product(seq(|e.children|, i requires 0 <= i < |e.children| =>
        GroupBindings(m, e.children[i], p.children[i]))))
    else []
  }

  lemma ConcatAssoc<T>(a: seq<T>, b: seq<T>, c: seq<T>)
    ensures a + (b + c) == a + b + c
  {
  }

  /** The lists from the k-th on, one after another. */
  function FlattenFrom<T>(lists: seq<seq<T>>, k: nat): seq<T>
    requires k <= |lists|
    decreases |lists| - k
  {
    if k == |lists| then [] else lists[k] + FlattenFrom(lists, k + 1)
  }

  lemma {:induction false} FlattenShifted<T>(first: seq<T>, rest: seq<seq<T>>, k: nat)
    requires k <= |rest|
    ensures FlattenFrom([first] + rest, k + 1) == FlattenFrom(rest, k)
    decreases |rest| - k
  {
    if k < |rest| {
      FlattenShifted(first, rest, k + 1);
      assert ([first] + rest)[k + 1] == rest[k];
    }
  }

  /** The bindings of each expression of a group, kept apart. */
  function PerItem(m: seq<Group>, es: seq<GroupExpr>, p: Pattern): (r: seq<seq<Node>>)
    requires Closed(m) && forall i :: 0 <= i < |es| ==> ClosedExpr(m, es[i])
    ensures |r| == |es|
  {
    if es == [] then [] else [ExprBindings(m, es[0], p)] + PerItem(m, es[1..], p)
  }

  lemma {:induction false} PerItemAt(m: seq<Group>, es: seq<GroupExpr>, p: Pattern, i: nat)
    requires Closed(m) && forall i :: 0 <= i < |es| ==> ClosedExpr(m, es[i])
    requires i < |es|
    ensures PerItem(m, es, p)[i] == ExprBindings(m, es[i], p)
  {
    if i > 0 {
      PerItemAt(m, es[1..], p, i - 1);
    }
  }

  lemma {:induction false} FlattenPerItem(m: seq<Group>, es: seq<GroupExpr>, p: Pattern)
    requires Closed(m) && forall i :: 0 <= i < |es| ==> ClosedExpr(m, es[i])
    ensures FlattenFrom(PerItem(m, es, p), 0) == ItemBindings(m, es, p)
  {
    if es != [] {
      FlattenPerItem(m, es[1..], p);
      FlattenShifted(ExprBindings(m, es[0], p), PerItem(m, es[1..], p), 0);
    }
  }

  /** The sequences of bindings of each child, in child order. */
  function ChildBindings(m: seq<Group>, e: GroupExpr, p: Pattern): (r: seq<seq<Node>>)
    requires Closed(m) && ClosedExpr(m, e) && RootMatches(e, p)
    ensures |r| == |e.children|
    ensures ExprBindings(m, e, p) == Roots(e.op, Product(r))
  {
    seq(|e.children|, i requires 0 <= i < |e.children| => GroupBindings(m, e.children[i], p.children[i]))
  }

  /** Every group that the enumeration reaches with a LEAF pattern has a logical
      expression. A child is reached only when each child before it has a binding. */
  ghost predicate Drains(m: seq<Group>, g: GroupId, p: Pattern)
    requires Closed(m) && g < |m|
    decreases p, 1
  {
    if p.opType == Leaf then m[g].logical != []
    else forall i :: 0 <= i < |m[g].logical| ==> DrainsExpr(m, m[g].logical[i], p)
  }

  ghost predicate DrainsExpr(m: seq<Group>, e: GroupExpr, p: Pattern)
    requires Closed(m) && ClosedExpr(m, e)
    decreases p, 0
  {
    RootMatches(e, p) ==>
      forall k :: 0 <= k < |e.children| && (forall j :: 0 <= j < k ==> GroupBindings(m, e.children[j], p.children[j]) != [])
                  ==> Drains(m, e.children[k], p.children[k])
  }

  // ---------------------------------------------------------------------------
  // Soundness and completeness
  // ---------------------------------------------------------------------------

  /** Tree `t` is an operator tree of group `g` with the shape of pattern `p`. */
  ghost predicate Matches(m: seq<Group>, g: GroupId, p: Pattern, t: Node)
    requires Closed(m) && g < |m|
    decreases p, 1
  {
    if p.opType == Leaf then t == Node(LeafOperator(g), [])
    else exists i :: 0 <= i < |m[g].logical| && MatchesExpr(m, m[g].logical[i], p, t)
  }

  ghost predicate MatchesExpr(m: seq<Group>, e: GroupExpr, p: Pattern, t: Node)
    requires Closed(m) && ClosedExpr(m, e)
    decreases p, 0
  {
    && RootMatches(e, p)
    && t.op == e.op
    && |t.children| == |e.children|
    && forall k :: 0 <= k < |e.children| ==> Matches(m, e.children[k], p.children[k], t.children[k])
  }

  /** The enumeration of a group holds exactly the trees that match the pattern there. */
  lemma {:induction false} GroupBindingsExact(m: seq<Group>, g: GroupId, p: Pattern, t: Node)
    requires Closed(m) && g < |m|
    ensures t in GroupBindings(m, g, p) <==> Matches(m, g, p, t)
    decreases p, 2
  {
    if p.opType != Leaf {
      ItemBindingsExact(m, m[g].logical, p, t);
    }
  }

  lemma {:induction false} ItemBindingsExact(m: seq<Group>, es: seq<GroupExpr>, p: Pattern, t: Node)
    requires Closed(m) && forall i :: 0 <= i < |es| ==> ClosedExpr(m, es[i])
    ensures t in ItemBindings(m, es, p) <==> exists i :: 0 <= i < |es| && MatchesExpr(m, es[i], p, t)
    decreases p, 1, |es|
  {
    if es != [] {
      ExprBindingsExact(m, es[0], p, t);
      ItemBindingsExact(m, es[1..], p, t);
      if i :| 0 <= i < |es| && MatchesExpr(m, es[i], p, t) {
        assert i == 0 || es[1..][i - 1] == es[i];
      }
    }
  }

  lemma {:induction false} ExprBindingsExact(m: seq<Group>, e: GroupExpr, p: Pattern, t: Node)
    requires Closed(m) && ClosedExpr(m, e)
    ensures t in ExprBindings(m, e, p) <==> MatchesExpr(m, e, p, t)
    decreases p, 0
  {
    if RootMatches(e, p) {
      var lists := ChildBindings(m, e, p);
      RootsMember(e.op, Product(lists), t);
      ProductMember(lists, t.children);
      if |t.children| == |e.children| {
        forall k | 0 <= k < |e.children|
          ensures t.children[k] in lists[k] <==> Matches(m, e.children[k], p.children[k], t.children[k])
        {
          GroupBindingsExact(m, e.children[k], p.children[k], t.children[k]);
        }
      }
    }
  }

  lemma RootsMember(op: Operator, tuples: seq<seq<Node>>, t: Node)
    ensures t in Roots(op, tuples) <==> t.op == op && t.children in tuples
  {
    if t.op == op && t.children in tuples {
      var i :| 0 <= i < |tuples| && tuples[i] == t.children;
      assert Roots(op, tuples)[i] == t;
    }
  }

  // ---------------------------------------------------------------------------
  // Number of bindings
  // ---------------------------------------------------------------------------

  /** Sum over the group's logical expressions of the product of the child counts. */
  function GroupCount(m: seq<Group>, g: GroupId, p: Pattern): nat
    requires Closed(m) && g < |m|
    decreases p, 2
  {
    if p.opType == Leaf then 1 else ItemCount(m, m[g].logical, p)
  }

  function ItemCount(m: seq<Group>, es: seq<GroupExpr>, p: Pattern): nat
    requires Closed(m) && forall i :: 0 <= i < |es| ==> ClosedExpr(m, es[i])
    decreases p, 1, |es|
  {
    if es == [] then 0
    else (if RootMatches(es[0], p) then Times(ChildCounts(m, es[0], p)) else 0) + ItemCount(m, es[1..], p)
  }

  function ChildCounts(m: seq<Group>, e: GroupExpr, p: Pattern): seq<nat>
    requires Closed(m) && ClosedExpr(m, e) && RootMatches(e, p)
    decreases p, 0
  {
    seq(|e.children|, i requires 0 <= i < |e.children| => GroupCount(m, e.children[i], p.children[i]))
  }

  lemma {:induction false} BindingCount(m: seq<Group>, g: GroupId, p: Pattern)
    requires Closed(m) && g < |m|
    ensures |GroupBindings(m, g, p)| == GroupCount(m, g, p)
    decreases p, 1
  {
    if p.opType != Leaf {
      ItemBindingCount(m, m[g].logical, p);
    }
  }

  lemma {:induction false} ItemBindingCount(m: seq<Group>, es: seq<GroupExpr>, p: Pattern)
    requires Closed(m) && forall i :: 0 <= i < |es| ==> ClosedExpr(m, es[i])
    ensures |ItemBindings(m, es, p)| == ItemCount(m, es, p)
    decreases p, 0, |es|
  {
    if es != [] {
      ItemBindingCount(m, es[1..], p);
      if RootMatches(es[0], p) {
        var lists := ChildBindings(m, es[0], p);
        ProductLength(lists);
        forall k | 0 <= k < |lists| ensures Lengths(lists)[k] == ChildCounts(m, es[0], p)[k] {
          BindingCount(m, es[0].children[k], p.children[k]);
        }
        assert Lengths(lists) == ChildCounts(m, es[0], p);
      }
    }
  }

  // ---------------------------------------------------------------------------
  // Uniqueness, in a memo that holds every expression once
  // ---------------------------------------------------------------------------

  /** No two logical entries of the memo are equal, and none is a leaf placeholder. */
  ghost predicate HashConsed(m: seq<Group>) {
    && (forall g, i, h, j |
          0 <= g < |m| && 0 <= i < |m[g].logical| && 0 <= h < |m| && 0 <= j < |m[h].logical| ::
          m[g].logical[i] == m[h].logical[j] ==> g == h && i == j)
    && (forall g, i :: 0 <= g < |m| && 0 <= i < |m[g].logical| ==> !m[g].logical[i].op.LeafOperator?)
  }

  /** A binding determines the group it was bound in, whatever patterns it was bound by. */
  lemma {:induction false} TreeDeterminesGroup(m: seq<Group>, g: GroupId, p: Pattern, h: GroupId, q: Pattern, t: Node)
    requires Closed(m) && HashConsed(m) && g < |m| && h < |m|
    requires Matches(m, g, p, t) && Matches(m, h, q, t)
    ensures g == h
    decreases p, 1
  {
    if p.opType != Leaf && q.opType != Leaf {
      var i :| 0 <= i < |m[g].logical| && MatchesExpr(m, m[g].logical[i], p, t);
      var j :| 0 <= j < |m[h].logical| && MatchesExpr(m, m[h].logical[j], q, t);
      TreeDeterminesExpr(m, m[g].logical[i], p, m[h].logical[j], q, t);
    }
  }

  /** ... and, below a root that is not a leaf, the group expression it came from. */
  lemma {:induction false} TreeDeterminesExpr(m: seq<Group>, d: GroupExpr, p: Pattern, e: GroupExpr, q: Pattern, t: Node)
    requires Closed(m) && HashConsed(m) && ClosedExpr(m, d) && ClosedExpr(m, e)
    requires MatchesExpr(m, d, p, t) && MatchesExpr(m, e, q, t)
    ensures d == e
    decreases p, 0
  {
    forall k | 0 <= k < |t.children| ensures d.children[k] == e.children[k] {
      TreeDeterminesGroup(m, d.children[k], p.children[k], e.children[k], q.children[k], t.children[k]);
    }
    assert d.children == e.children;
  }

  /** No tree is enumerated twice. */
  lemma {:induction false} BindingsNoDup(m: seq<Group>, g: GroupId, p: Pattern)
    requires Closed(m) && HashConsed(m) && g < |m|
    ensures NoDup(GroupBindings(m, g, p))
    decreases p, 2
  {
    if p.opType != Leaf {
      ItemBindingsNoDup(m, m[g].logical, p);
    }
  }

  lemma {:induction false} ItemBindingsNoDup(m: seq<Group>, es: seq<GroupExpr>, p: Pattern)
    requires Closed(m) && HashConsed(m) && forall i :: 0 <= i < |es| ==> ClosedExpr(m, es[i])
    requires NoDup(es)
    ensures NoDup(ItemBindings(m, es, p))
    decreases p, 1, |es|
  {
    if es != [] {
      var first, rest := ExprBindings(m, es[0], p), ItemBindings(m, es[1..], p);
      ExprBindingsNoDup(m, es[0], p);
      ItemBindingsNoDup(m, es[1..], p);
      forall i, j | 0 <= i < |first| && 0 <= j < |rest| ensures first[i] != rest[j] {
        if first[i] == rest[j] {
          assert first[i] in first && first[i] in rest;
          ExprBindingsExact(m, es[0], p, first[i]);
          ItemBindingsExact(m, es[1..], p, first[i]);
          var k :| 0 <= k < |es[1..]| && MatchesExpr(m, es[1..][k], p, first[i]);
          TreeDeterminesExpr(m, es[0], p, es[1..][k], p, first[i]);
          assert false;
        }
      }
    }
  }

  lemma {:induction false} ExprBindingsNoDup(m: seq<Group>, e: GroupExpr, p: Pattern)
    requires Closed(m) && HashConsed(m) && ClosedExpr(m, e)
    ensures NoDup(ExprBindings(m, e, p))
    decreases p, 0
  {
    if RootMatches(e, p) {
      var lists := ChildBindings(m, e, p);
      forall k | 0 <= k < |lists| ensures NoDup(lists[k]) {
        BindingsNoDup(m, e.children[k], p.children[k]);
      }
      ProductNoDup(lists);
    }
  }
}
