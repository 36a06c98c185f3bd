/** The loops that drive the binding iterators, with a bound on how often each may go round: exactly
    when they end at all. */
module BindingRuns {
  import opened Options
  import opened Plans
  import opened Bindings

  /** The loop over a LEAF pattern. It stops when the index has left zero, and every round sets the
      index to the number of expressions in the group. Nothing, when the rounds run out. */
  function LeafLoop(g: GroupId, items: nat, index: nat, rounds: nat): Option<seq<Node>>
    decreases rounds
  {
    if index != 0 then Some([])
    else if rounds == 0 then None
    else
      match LeafLoop(g, items, items, rounds - 1)
      case Some(rest) => Some([Node(LeafOperator(g), [])] + rest)
      case None => None
  }

  /** Driving the iterator of a group: one round for each binding. */
  function Drive(m: seq<Group>, g: GroupId, p: Pattern, rounds: nat): Option<seq<Node>>
    requires Closed(m) && g < |m|
    decreases p, 3
  {
    if p.opType == Leaf then LeafLoop(g, |m[g].logical|, 0, rounds)
    else
      match DriveItems(m, m[g].logical, p, rounds)
      case Some(all) => if |all| <= rounds then Some(all) else None
      case None => None
  }

  function DriveItems(m: seq<Group>, es: seq<GroupExpr>, p: Pattern, rounds: nat): Option<seq<Node>>
    requires Closed(m) && forall i :: 0 <= i < |es| ==> ClosedExpr(m, es[i])
    decreases p, 2, |es|
  {
    if es == [] then Some([])
    else
      match DriveExpr(m, es[0], p, rounds)
      case None => None
      case Some(first) =>
        match DriveItems(m, es[1..], p, rounds)
        case Some(rest) => Some(first + rest)
        case None => None
  }

  /** Making the iterator of an expression drives those of its children to their ends first. */
  function DriveExpr(m: seq<Group>, e: GroupExpr, p: Pattern, rounds: nat): Option<seq<Node>>
    requires Closed(m) && ClosedExpr(m, e)
    decreases p, 1
  {
    if !RootMatches(e, p) then Some([])
    else
      match DriveChildren(m, e, p, 0, rounds)
      case None => None
      case Some(lists) =>
        if |lists| < |e.children| || (lists != [] && lists[|lists| - 1] == []) then Some([])
        else Some(Roots(e.op, Product(lists)))
  }

  /** The bindings of the children from the i-th on, up to and including the first without any. */
  function DriveChildren(m: seq<Group>, e: GroupExpr, p: Pattern, i: nat, rounds: nat): Option<seq<seq<Node>>>
    requires Closed(m) && ClosedExpr(m, e) && RootMatches(e, p) && i <= |e.children|
    decreases p, 0, |e.children| - i
  {
    if i == |e.children| then Some([])
    else
      match Drive(m, e.children[i], p.children[i], rounds)
      case None => None
      case Some(first) =>
        if first == [] then Some([first])
        else
          match DriveChildren(m, e, p, i + 1, rounds)
          case Some(rest) => Some([first] + rest)
          case None => None
  }

  // ---------------------------------------------------------------------------
  // What ends, drains
  // ---------------------------------------------------------------------------

  /** Over a group without expressions the loop over a LEAF pattern never ends. */
  lemma {:induction false} LeafLoopEnds(g: GroupId, items: nat, rounds: nat)
    ensures LeafLoop(g, items, 0, rounds) ==
            if items > 0 && rounds > 0 then Some([Node(LeafOperator(g), [])]) else None
  {
    if rounds > 0 {
      if items == 0 {
        LeafLoopEnds(g, items, rounds - 1);
      } else {
        assert LeafLoop(g, items, items, rounds - 1) == Some([]);
        assert [Node(LeafOperator(g), [])] + [] == [Node(LeafOperator(g), [])];
      }
    }
  }

  /** Every child before the k-th has a binding. */
  ghost predicate BoundBefore(m: seq<Group>, e: GroupExpr, p: Pattern, k: nat)
    requires Closed(m) && ClosedExpr(m, e) && RootMatches(e, p) && k <= |e.children|
  {
    forall j :: 0 <= j < k ==> GroupBindings(m, e.children[j], p.children[j]) != []
  }

  /** The lists are the bindings of the children from the i-th on, complete or cut after an empty one. */
  ghost predicate Lists(m: seq<Group>, e: GroupExpr, p: Pattern, i: nat, lists: seq<seq<Node>>)
    requires Closed(m) && ClosedExpr(m, e) && RootMatches(e, p) && i <= |e.children|
  {
    && |lists| <= |e.children| - i
    && (forall k :: 0 <= k < |lists| ==> lists[k] == GroupBindings(m, e.children[i + k], p.children[i + k]))
    && (forall k :: 0 <= k < |lists| - 1 ==> lists[k] != [])
    && (|lists| < |e.children| - i ==> lists != [] && lists[|lists| - 1] == [])
  }

  lemma ListsGiveBindings(m: seq<Group>, e: GroupExpr, p: Pattern, lists: seq<seq<Node>>)
    requires Closed(m) && ClosedExpr(m, e) && RootMatches(e, p) && Lists(m, e, p, 0, lists)
    ensures ExprBindings(m, e, p) ==
            if |lists| < |e.children| || (lists != [] && lists[|lists| - 1] == []) then []
            else Roots(e.op, Product(lists))
  {
    var all := ChildBindings(m, e, p);
    if |lists| < |e.children| || (lists != [] && lists[|lists| - 1] == []) {
      assert all[|lists| - 1] == [];
      ProductEmpty(all, |lists| - 1);
    } else {
      assert lists == all;
    }
  }

  lemma OneMoreList(m: seq<Group>, e: GroupExpr, p: Pattern, i: nat, first: seq<Node>, rest: seq<seq<Node>>)
    requires Closed(m) && ClosedExpr(m, e) && RootMatches(e, p) && i < |e.children|
    requires first == GroupBindings(m, e.children[i], p.children[i]) && first != []
    requires Lists(m, e, p, i + 1, rest)
    ensures Lists(m, e, p, i, [first] + rest)
  {
    var lists := [first] + rest;
    forall k | 0 <= k < |lists|
      ensures lists[k] == GroupBindings(m, e.children[i + k], p.children[i + k])
      ensures k < |lists| - 1 ==> lists[k] != []
    {
      if k > 0 {
        var j := k - 1;
        assert rest[j] == GroupBindings(m, e.children[i + 1 + j], p.children[i + 1 + j]);
      }
    }
  }

  lemma {:induction false} EndedGroup(m: seq<Group>, g: GroupId, p: Pattern, rounds: nat)
    requires Closed(m) && g < |m| && Drive(m, g, p, rounds).Some?
    ensures Drains(m, g, p) && Drive(m, g, p, rounds) == Some(GroupBindings(m, g, p))
    decreases p, 3
  {
    if p.opType == Leaf {
      LeafLoopEnds(g, |m[g].logical|, rounds);
    } else {
      EndedItems(m, m[g].logical, p, rounds);
    }
  }

  lemma {:induction false} EndedItems(m: seq<Group>, es: seq<GroupExpr>, p: Pattern, rounds: nat)
    requires Closed(m) && (forall i :: 0 <= i < |es| ==> ClosedExpr(m, es[i])) && DriveItems(m, es, p, rounds).Some?
    ensures DriveItems(m, es, p, rounds) == Some(ItemBindings(m, es, p))
    ensures forall i :: 0 <= i < |es| ==> DrainsExpr(m, es[i], p)
    decreases p, 2, |es|
  {
    if es != [] {
      EndedExpr(m, es[0], p, rounds);
      EndedItems(m, es[1..], p, rounds);
      forall i | 0 <= i < |es| ensures DrainsExpr(m, es[i], p) {
        assert i > 0 ==> es[i] == es[1..][i - 1];
      }
    }
  }

  lemma {:induction false} EndedExpr(m: seq<Group>, e: GroupExpr, p: Pattern, rounds: nat)
    requires Closed(m) && ClosedExpr(m, e) && DriveExpr(m, e, p, rounds).Some?
    ensures DrainsExpr(m, e, p) && DriveExpr(m, e, p, rounds) == Some(ExprBindings(m, e, p))
    decreases p, 1
  {
    if RootMatches(e, p) {
      EndedChildren(m, e, p, 0, rounds);
      ListsGiveBindings(m, e, p, DriveChildren(m, e, p, 0, rounds).value);
    }
  }

  lemma {:induction false} EndedChildren(m: seq<Group>, e: GroupExpr, p: Pattern, i: nat, rounds: nat)
    requires Closed(m) && ClosedExpr(m, e) && RootMatches(e, p) && i <= |e.children|
    requires DriveChildren(m, e, p, i, rounds).Some?
    ensures Lists(m, e, p, i, DriveChildren(m, e, p, i, rounds).value)
    ensures forall k :: i <= k < |e.children| && BoundBefore(m, e, p, k) ==> Drains(m, e.children[k], p.children[k])
    decreases p, 0, |e.children| - i
  {
    if i < |e.children| {
      EndedGroup(m, e.children[i], p.children[i], rounds);
      var first := Drive(m, e.children[i], p.children[i], rounds).value;
      if first == [] {
        assert forall k :: i < k <= |e.children| ==> !BoundBefore(m, e, p, k);
      } else {
        EndedChildren(m, e, p, i + 1, rounds);
        OneMoreList(m, e, p, i, first, DriveChildren(m, e, p, i + 1, rounds).value);
      }
    }
  }

  // ---------------------------------------------------------------------------
  // What drains, ends
  // ---------------------------------------------------------------------------

  function Max(a: nat, b: nat): nat {
    if a < b then b else a
  }

  lemma {:induction false} GroupEnds(m: seq<Group>, g: GroupId, p: Pattern) returns (enough: nat)
    requires Closed(m) && g < |m| && Drains(m, g, p)
    ensures forall rounds :: rounds >= enough ==> Drive(m, g, p, rounds).Some?
    decreases p, 3
  {
    if p.opType == Leaf {
      enough := 1;
      forall rounds: nat | rounds >= enough ensures Drive(m, g, p, rounds).Some? {
        LeafLoopEnds(g, |m[g].logical|, rounds);
      }
    } else {
      var items := ItemsEnd(m, m[g].logical, p);
      enough := Max(items, |GroupBindings(m, g, p)|);
      forall rounds: nat | rounds >= enough ensures Drive(m, g, p, rounds).Some? {
        EndedItems(m, m[g].logical, p, rounds);
      }
    }
  }

  lemma {:induction false} ItemsEnd(m: seq<Group>, es: seq<GroupExpr>, p: Pattern) returns (enough: nat)
    requires Closed(m) && forall i :: 0 <= i < |es| ==> ClosedExpr(m, es[i]) && DrainsExpr(m, es[i], p)
    ensures forall rounds :: rounds >= enough ==> DriveItems(m, es, p, rounds).Some?
    decreases p, 2, |es|
  {
    enough := 0;
    if es != [] {
      var first := ExprEnds(m, es[0], p);
      var rest := ItemsEnd(m, es[1..], p);
      enough := Max(first, rest);
    }
  }

  lemma {:induction false} ExprEnds(m: seq<Group>, e: GroupExpr, p: Pattern) returns (enough: nat)
    requires Closed(m) && ClosedExpr(m, e) && DrainsExpr(m, e, p)
    ensures forall rounds :: rounds >= enough ==> DriveExpr(m, e, p, rounds).Some?
    decreases p, 1
  {
    enough := 0;
    if RootMatches(e, p) {
      enough := ChildrenEnd(m, e, p, 0);
    }
  }

  lemma {:induction false} ChildrenEnd(m: seq<Group>, e: GroupExpr, p: Pattern, i: nat) returns (enough: nat)
    requires Closed(m) && ClosedExpr(m, e) && RootMatches(e, p) && i <= |e.children|
    requires DrainsExpr(m, e, p) && BoundBefore(m, e, p, i)
    ensures forall rounds :: rounds >= enough ==> DriveChildren(m, e, p, i, rounds).Some?
    decreases p, 0, |e.children| - i
  {
    enough := 0;
    if i < |e.children| {
      assert Drains(m, e.children[i], p.children[i]);
      enough := GroupEnds(m, e.children[i], p.children[i]);
      var rest := 0;
      if GroupBindings(m, e.children[i], p.children[i]) != [] {
        rest := ChildrenEnd(m, e, p, i + 1);
      }
      enough := Max(enough, rest);
      forall rounds: nat | rounds >= enough ensures DriveChildren(m, e, p, i, rounds).Some? {
        EndedGroup(m, e.children[i], p.children[i], rounds);
      }
    }
  }

  /** Driving the iterator of a group to its end comes to an end exactly when every group that the
      enumeration reaches with a LEAF pattern, at any depth, has an expression; what it then yields
      are the bindings of the group, in order, whatever the bound was. */
  lemma EndsExactlyWhenDrains(m: seq<Group>, g: GroupId, p: Pattern)
    requires Closed(m) && g < |m|
    ensures (exists rounds :: Drive(m, g, p, rounds).Some?) <==> Drains(m, g, p)
    ensures forall rounds :: Drive(m, g, p, rounds).Some? ==> Drive(m, g, p, rounds) == Some(GroupBindings(m, g, p))
  {
    forall rounds: nat | Drive(m, g, p, rounds).Some?
      ensures Drains(m, g, p) && Drive(m, g, p, rounds) == Some(GroupBindings(m, g, p))
    {
      EndedGroup(m, g, p, rounds);
    }
    if Drains(m, g, p) {
      var enough := GroupEnds(m, g, p);
      assert Drive(m, g, p, enough).Some?;
    }
  }
}
