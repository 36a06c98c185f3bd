/** The two mutually recursive iterators that enumerate bindings one at a time.
    Each is proved against the part of the specification sequence it has still
    to hand out. */
module BindingIterators {
  import opened Options
  import opened Plans
  import opened Bindings

  /** Iterates over the bindings of one group expression: an odometer over the
      materialised bindings of its children. */
  class GroupExprBindingIterator {
    const gexpr: GroupExpr
    var first: bool
    var hasNext: bool
    var currentBinding: Option<Node>
    var childrenBindings: seq<seq<Node>>
    var childrenBindingsPos: seq<nat>

    ghost predicate Valid()
      reads this
    {
      hasNext ==>
        && InRange(childrenBindings, childrenBindingsPos)
        && (first ==> currentBinding.Some?)
        && (currentBinding.Some? ==>
              currentBinding.value == Node(gexpr.op, Select(childrenBindings, childrenBindingsPos)))
    }

    /** The bindings not yet handed out. */
    ghost function Rest(): seq<Node>
      reads this
      requires Valid()
    {
      if !hasNext then [] else Left(gexpr.op, childrenBindings, childrenBindingsPos, currentBinding.None?)
    }

    /** Next has been called since HasNext last answered true. */
    ghost predicate Consumed()
      reads this
    {
      hasNext && !first ==> currentBinding.None?
    }

    constructor (m: seq<Group>, e: GroupExpr, p: Pattern)
      requires Closed(m) && ClosedExpr(m, e) && DrainsExpr(m, e, p)
      ensures Valid() && Consumed() && gexpr == e
      ensures Rest() == ExprBindings(m, e, p)
      decreases p, 2
    {
      var bindings, matched := MatchChildren(m, e, p);
      gexpr, first, hasNext, currentBinding := e, true, false, None;
      childrenBindings, childrenBindingsPos := bindings, seq(|bindings|, k => 0);
      new;
      if matched {
        assert childrenBindingsPos == Zeros(|bindings|);
        LeftFromZero(e.op, bindings);
        hasNext := true;
        var children := PickChildren();
        currentBinding := Some(Node(e.op, children));
      }
    }

    /** The bindings of the children, if the root matches and every child has one. */
    static method MatchChildren(m: seq<Group>, e: GroupExpr, p: Pattern) returns (bindings: seq<seq<Node>>, matched: bool)
      requires Closed(m) && ClosedExpr(m, e) && DrainsExpr(m, e, p)
      ensures matched ==> forall k :: 0 <= k < |bindings| ==> bindings[k] != []
      ensures ExprBindings(m, e, p) == if matched then Roots(e.op, Product(bindings)) else []
      decreases p, 1
    {
      if e.op.Type() != p.opType {
        return [], false;
      }
      if |e.children| != |p.children| {
        return [], false;
      }
      bindings := BindChildren(m, e, p);
      if |bindings| < |e.children| || (|bindings| > 0 && bindings[|bindings| - 1] == []) {
        ProductEmpty(ChildBindings(m, e, p), |bindings| - 1);
        return bindings, false;
      }
      assert bindings == ChildBindings(m, e, p);
      return bindings, true;
    }

    /** One binding of each child, taken where the odometer stands. */
    method PickChildren() returns (children: seq<Node>)
      requires InRange(childrenBindings, childrenBindingsPos)
      ensures children == Select(childrenBindings, childrenBindingsPos)
    {
      children := [];
      for idx := 0 to |childrenBindingsPos|
        invariant children == Select(childrenBindings, childrenBindingsPos)[..idx]
      {
        children := children + [childrenBindings[idx][childrenBindingsPos[idx]]];
      }
    }

    /** The bindings of the children in order, up to and including the first child without any. */
    static method BindChildren(m: seq<Group>, e: GroupExpr, p: Pattern) returns (bindings: seq<seq<Node>>)
      requires Closed(m) && ClosedExpr(m, e) && RootMatches(e, p) && DrainsExpr(m, e, p)
      ensures |bindings| <= |e.children| && bindings == ChildBindings(m, e, p)[..|bindings|]
      ensures forall k :: 0 <= k < |bindings| - 1 ==> bindings[k] != []
      ensures |bindings| < |e.children| ==> |bindings| > 0 && bindings[|bindings| - 1] == []
      decreases p, 0
    {
      bindings := [];
      while |bindings| < |e.children|
        invariant |bindings| <= |e.children| && bindings == ChildBindings(m, e, p)[..|bindings|]
        invariant forall k :: 0 <= k < |bindings| ==> bindings[k] != []
      {
        var i := |bindings|;
        forall j | 0 <= j < i ensures GroupBindings(m, e.children[j], p.children[j]) != [] {
          assert bindings[j] == ChildBindings(m, e, p)[j];
        }
        var childBindings := AllBindings(m, e.children[i], p.children[i]);
        bindings := bindings + [childBindings];
        if childBindings == [] {
          return;
        }
      }
    }

    method HasNext() returns (more: bool)
      requires Valid() && Consumed()
      modifies this
      ensures Valid()
      ensures Rest() == old(Rest())
      ensures more <==> Rest() != []
      ensures more ==> hasNext && !first && currentBinding.Some? && currentBinding.value == Rest()[0]
    {
      if hasNext && first {
        first := false;
        LeftFirst(gexpr.op, childrenBindings, childrenBindingsPos);
        return true;
      }
      if hasNext {
        var advanced := Advance();
        if advanced {
          LeftFirst(gexpr.op, childrenBindings, childrenBindingsPos);
          var children := PickChildren();
          currentBinding := Some(Node(gexpr.op, children));
        } else {
          hasNext := false;
        }
      }
      return hasNext;
    }

    /** Turns the odometer one step, from the last wheel backwards. */
    method Advance() returns (advanced: bool)
      requires Valid() && hasNext
      modifies this`childrenBindingsPos
      ensures InRange(childrenBindings, childrenBindingsPos)
      ensures Left(gexpr.op, childrenBindings, old(childrenBindingsPos), true) ==
              if advanced then Left(gexpr.op, childrenBindings, childrenBindingsPos, false) else []
    {
      ghost var start := childrenBindingsPos;
      var n := |childrenBindingsPos|;
      var k := n - 1;
      while k >= 0
        invariant -1 <= k < n
        invariant childrenBindingsPos == start[..k + 1] + Zeros(n - k - 1)
        invariant forall i :: k < i < n ==> start[i] == |childrenBindings[i]| - 1
        decreases k
      {
        var newPos := childrenBindingsPos[k] + 1;
        if newPos >= |childrenBindings[k]| {
          childrenBindingsPos := childrenBindingsPos[k := 0];
          assert childrenBindingsPos == start[..k] + Zeros(n - k);
        } else {
          childrenBindingsPos := childrenBindingsPos[k := newPos];
          assert childrenBindingsPos == Carried(start, k);
          RemainingStep(childrenBindings, start, k);
          LeftAdvance(gexpr.op, childrenBindings, start, childrenBindingsPos);
          return true;
        }
        k := k - 1;
      }
      RemainingAtEnd(childrenBindings, start);
      return false;
    }

    method Next() returns (binding: Node)
      requires Valid() && hasNext && !first && currentBinding.Some?
      modifies this`currentBinding
      ensures Valid() && Consumed()
      ensures old(Rest()) == [binding] + Rest()
    {
      LeftFirst(gexpr.op, childrenBindings, childrenBindingsPos);
      binding := currentBinding.value;
      currentBinding := None;
    }
  }

  /** Iterates over the bindings of a group, one logical expression after another. */
  class GroupBindingIterator {
    const memo: seq<Group>
    const groupId: GroupId
    const pattern: Pattern
    const numGroupItems: nat
    var currentItemIndex: nat
    var currentIterator: GroupExprBindingIterator?

    /** The bindings of each logical expression, in the order of the group. */
    ghost const items: seq<seq<Node>>

    /** What is fixed when the iterator is made. */
    ghost predicate Setup() {
      && Closed(memo) && groupId < |memo|
      && numGroupItems == |memo[groupId].logical|
      && items == PerItem(memo, memo[groupId].logical, pattern)
      && (pattern.opType != Leaf ==> Drains(memo, groupId, pattern))
    }

    ghost predicate Valid()
      reads this, currentIterator
    {
      && currentItemIndex <= numGroupItems == |items|
      && (currentIterator != null ==>
            currentIterator.Valid() && currentItemIndex < numGroupItems && pattern.opType != Leaf)
    }

    /** The bindings not yet handed out. */
    ghost function Rest(): seq<Node>
      reads this, currentIterator
      requires Valid()
    {
      if pattern.opType == Leaf then
        if currentItemIndex == 0 then [Node(LeafOperator(groupId), [])] else []
      else if currentIterator != null then
        currentIterator.Rest() + FlattenFrom(items, currentItemIndex + 1)
      else
        FlattenFrom(items, currentItemIndex)
    }

    ghost predicate Consumed()
      reads this, currentIterator
    {
      currentIterator != null ==> currentIterator.Consumed()
    }

    /** HasNext has answered true and the binding is waiting to be taken. */
    ghost predicate Ready()
      reads this, currentIterator
    {
      if pattern.opType == Leaf then currentItemIndex == 0
      else
        && currentIterator != null
        && currentIterator.hasNext && !currentIterator.first && currentIterator.currentBinding.Some?
    }

    constructor (m: seq<Group>, g: GroupId, p: Pattern)
      requires Closed(m) && g < |m|
      requires p.opType != Leaf ==> Drains(m, g, p)
      ensures Setup() && Valid() && Consumed() && currentIterator == null
      ensures memo == m && groupId == g && pattern == p
      ensures Rest() == GroupBindings(m, g, p)
    {
      memo, groupId, pattern, numGroupItems := m, g, p, |m[g].logical|;
      currentItemIndex, currentIterator := 0, null;
      items := PerItem(m, m[g].logical, p);
      FlattenPerItem(m, m[g].logical, p);
    }

    /** An iterator over the bindings of the current expression. */
    method OpenItem() returns (it: GroupExprBindingIterator, found: bool)
      requires Setup() && Valid() && pattern.opType != Leaf && currentItemIndex < numGroupItems
      ensures fresh(it) && it.Valid() && it.Rest() == items[currentItemIndex]
      ensures found <==> it.Rest() != []
      ensures found ==> it.hasNext && !it.first && it.currentBinding.Some?
      decreases pattern, 3
    {
      PerItemAt(memo, memo[groupId].logical, pattern, currentItemIndex);
      it := new GroupExprBindingIterator(memo, memo[groupId].logical[currentItemIndex], pattern);
      found := it.HasNext();
    }

    /** Moves on to the next expression that has bindings. */
    method OpenNext() returns (more: bool)
      requires Setup() && Valid() && pattern.opType != Leaf && currentIterator == null
      modifies this`currentItemIndex, this`currentIterator
      ensures Valid() && (currentIterator != null ==> fresh(currentIterator))
      ensures Rest() == old(Rest())
      ensures more <==> Rest() != []
      ensures more ==> Ready()
      decreases pattern, 4
    {
      while currentItemIndex < numGroupItems
        invariant Valid() && currentIterator == null
        invariant FlattenFrom(items, currentItemIndex) == old(Rest())
      {
        var it, found := OpenItem();
        if found {
          currentIterator := it;
          return true;
        }
        currentItemIndex := currentItemIndex + 1;
      }
      return false;
    }

    /** Asks the current iterator; one without a binding left is given up, and the next expression is due. */
    method TryCurrent() returns (more: bool)
      requires Valid() && Consumed() && currentIterator != null
      modifies this`currentItemIndex, this`currentIterator, currentIterator
      ensures Valid() && Rest() == old(Rest())
      ensures if more then currentIterator == old(currentIterator) && Rest() != [] && Ready() else currentIterator == null
    {
      more := currentIterator.HasNext();
      if !more {
        GiveUpCurrent();
      }
    }

    /** Leaves an iterator without bindings and makes the next expression due. */
    method GiveUpCurrent()
      requires Valid() && currentIterator != null && currentIterator.Rest() == []
      modifies this`currentItemIndex, this`currentIterator
      ensures Valid() && Rest() == old(Rest()) && currentIterator == null
    {
      currentIterator := null;
      currentItemIndex := currentItemIndex + 1;
    }

    method HasNext() returns (more: bool)
      requires Setup() && Valid() && Consumed()
      modifies this, currentIterator
      ensures Valid()
      ensures currentIterator == null || currentIterator == old(currentIterator) || fresh(currentIterator)
      ensures Rest() == old(Rest())
      ensures more <==> Rest() != []
      ensures more ==> Ready()
      decreases pattern, 5
    {
      if pattern.opType == Leaf {
        return currentItemIndex == 0;
      }
      if currentIterator != null {
        more := TryCurrent();
        if more {
          return;
        }
      }
      more := OpenNext();
    }

    /** On a LEAF pattern over a group without logical expressions the index does
        not move, so the same binding would be offered for ever. */
    method Next() returns (binding: Node)
      requires Valid() && Ready()
      modifies this`currentItemIndex, currentIterator
      ensures Valid() && Consumed()
      ensures if pattern.opType == Leaf && numGroupItems == 0
              then Rest() == old(Rest()) == [binding]
              else old(Rest()) == [binding] + Rest()
    {
      if pattern.opType == Leaf {
        currentItemIndex := numGroupItems;
        return Node(LeafOperator(groupId), []);
      }
      ghost var later := FlattenFrom(items, currentItemIndex + 1);
      binding := currentIterator.Next();
      ConcatAssoc([binding], currentIterator.Rest(), later);
    }
  }

  /** Drives the iterator of a group to its end. */
  method AllBindings(m: seq<Group>, g: GroupId, p: Pattern) returns (bindings: seq<Node>)
    requires Closed(m) && g < |m| && Drains(m, g, p)
    ensures bindings == GroupBindings(m, g, p)
    decreases p, 6
  {
    bindings := [];
    var it := new GroupBindingIterator(m, g, p);
    var more := it.HasNext();
    while more
      invariant it.Valid() && it.pattern == p && fresh(it) && (it.currentIterator != null ==> fresh(it.currentIterator))
      invariant bindings + it.Rest() == GroupBindings(m, g, p)
      invariant more <==> it.Rest() != []
      invariant more ==> it.Ready()
      decreases |it.Rest()|
    {
      var b := it.Next();
      ConcatAssoc(bindings, [b], it.Rest());
      bindings := bindings + [b];
      more := it.HasNext();
    }
  }

  /** A bounded number of rounds of the same loop. */
  method TakeBindings(m: seq<Group>, g: GroupId, p: Pattern, rounds: nat) returns (bindings: seq<Node>, more: bool)
    requires Closed(m) && g < |m| && Drains(m, g, p)
    ensures
      var all := GroupBindings(m, g, p);
      bindings == all[..if rounds < |all| then rounds else |all|] && (more <==> rounds < |all|)
  {
    bindings := [];
    var it := new GroupBindingIterator(m, g, p);
    more := it.HasNext();
    ghost var all := GroupBindings(m, g, p);
    while |bindings| < rounds && more
      invariant it.Valid() && it.pattern == p && it.numGroupItems == |m[g].logical|
      invariant fresh(it) && (it.currentIterator != null ==> fresh(it.currentIterator))
      invariant |bindings| <= rounds && bindings + it.Rest() == all
      invariant more <==> it.Rest() != []
      invariant more ==> it.Ready()
      decreases rounds - |bindings|
    {
      var b := it.Next();
      ConcatAssoc(bindings, [b], it.Rest());
      bindings := bindings + [b];
      more := it.HasNext();
    }
  }

  /** Over a group without logical expressions a LEAF pattern yields its binding in every round and never
      reports the end. */
  method TakeLeafOfEmptyGroup(m: seq<Group>, g: GroupId, p: Pattern, rounds: nat) returns (bindings: seq<Node>, more: bool)
    requires Closed(m) && g < |m| && p.opType == Leaf && m[g].logical == []
    ensures more && bindings == seq(rounds, i => Node(LeafOperator(g), []))
  {
    bindings := [];
    var it := new GroupBindingIterator(m, g, p);
    more := it.HasNext();
    while |bindings| < rounds && more
      invariant it.Valid() && it.pattern == p && it.groupId == g && it.numGroupItems == 0
      invariant fresh(it) && it.currentIterator == null
      invariant more && it.Ready() && it.Rest() == [Node(LeafOperator(g), [])]
      invariant |bindings| <= rounds && bindings == seq(|bindings|, i => Node(LeafOperator(g), []))
      decreases rounds - |bindings|
    {
      var b := it.Next();
      bindings := bindings + [b];
      more := it.HasNext();
    }
  }
}
