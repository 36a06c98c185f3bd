/** The memo: a hash table of group expressions and the groups that own them. */
module MemoTable {
  import opened Options
  import opened Plans
  import opened Bindings

  /** What inserting an expression reports: a leaf is only a reference to its
      origin group; otherwise the stored expression and the group it lives in. */
  datatype Insertion =
    | Placeholder(origin: GroupId)
    | Stored(expr: GroupExpr, group: GroupId)

  /** How often a group owns an expression. */
  ghost function Count(g: Group, e: GroupExpr): nat {
    multiset(g.logical)[e] + multiset(g.physical)[e] + multiset(g.enforced)[e]
  }

  /** The table and the groups agree: a stored expression is owned exactly once, by
      the group its group id names, and a group owns nothing else. */
  ghost predicate MemoInv(table: map<GroupExpr, GroupId>, groups: seq<Group>) {
    && (forall e :: e in table ==> table[e] < |groups| && !e.op.LeafOperator? && ClosedExpr(groups, e))
    && (forall g, e :: 0 <= g < |groups| ==>
          Count(groups[g], e) == if e in table && table[e] == g then 1 else 0)
  }

  /** The aliases of the base tables below a group, through the expressions the groups were made for. */
  ghost function BaseAliases(creators: seq<GroupExpr>, g: GroupId): set<string>
    requires ChildrenFirst(creators) && g < |creators|
    decreases g
  {
    var e := creators[g];
    match e.op
    case GetOperator(a, _) => {a}
    case DerivedGetOperator(a, _) => {a}
    case _ => set k, a | 0 <= k < |e.children| && a in BaseAliases(creators, e.children[k]) :: a
  }

  /** A group is made after the groups of its creating expression's children. */
  ghost predicate ChildrenFirst(creators: seq<GroupExpr>) {
    forall g, k :: 0 <= g < |creators| && 0 <= k < |creators[g].children| ==> creators[g].children[k] < g
  }

  ghost predicate AliasInv(groups: seq<Group>, creators: seq<GroupExpr>) {
    && |creators| == |groups|
    && ChildrenFirst(creators)
    && forall g :: 0 <= g < |groups| ==> groups[g].aliases == BaseAliases(creators, g)
  }

  /** The aliases of an expression, from the alias sets of its child groups. */
  ghost function AliasesOfExpr(groups: seq<Group>, e: GroupExpr): set<string>
    requires ClosedExpr(groups, e)
  {
    match e.op
    case GetOperator(a, _) => {a}
    case DerivedGetOperator(a, _) => {a}
    case _ => set k, a | 0 <= k < |e.children| && a in groups[e.children[k]].aliases :: a
  }

  /** The group after an expression joined it. */
  function WithExpression(g: Group, e: GroupExpr, enforced: bool): Group {
    if enforced then g.(enforced := g.enforced + [e])
    else if e.op.IsPhysical() then g.(physical := g.physical + [e])
    else g.(logical := g.logical + [e])
  }

  lemma CountGrown(g: Group, e: GroupExpr, enforced: bool, f: GroupExpr)
    ensures Count(WithExpression(g, e, enforced), f) == Count(g, f) + if f == e then 1 else 0
  {
  }

  lemma AddKeepsInv(table: map<GroupExpr, GroupId>, groups: seq<Group>, e: GroupExpr, g: GroupId, enforced: bool)
    requires MemoInv(table, groups)
    requires e !in table && g < |groups| && !e.op.LeafOperator? && ClosedExpr(groups, e)
    ensures MemoInv(table[e := g], groups[g := WithExpression(groups[g], e, enforced)])
  {
    var grown, more := groups[g := WithExpression(groups[g], e, enforced)], table[e := g];
    forall h, f | 0 <= h < |grown| ensures Count(grown[h], f) == if f in more && more[f] == h then 1 else 0 {
      assert Count(groups[h], f) == if f in table && table[f] == h then 1 else 0;
      if h == g {
        CountGrown(groups[g], e, enforced, f);
      }
    }
  }

  lemma AddKeepsAliases(groups: seq<Group>, creators: seq<GroupExpr>, e: GroupExpr, g: GroupId, enforced: bool)
    requires AliasInv(groups, creators) && g < |groups|
    ensures AliasInv(groups[g := WithExpression(groups[g], e, enforced)], creators)
  {
  }

  lemma EraseKeepsInv(table: map<GroupExpr, GroupId>, groups: seq<Group>, id: GroupId)
    requires MemoInv(table, groups)
    requires id < |groups| && |groups[id].logical| == 1
    ensures MemoInv(table - {groups[id].logical[0]}, groups[id := groups[id].(logical := [])])
  {
    var e := groups[id].logical[0];
    var shrunk := groups[id].(logical := []);
    assert groups[id].logical == [e];
    assert Count(groups[id], e) >= 1;
    forall f ensures Count(shrunk, f) == Count(groups[id], f) - if f == e then 1 else 0 {
    }
  }

  lemma {:induction false} AliasesOfPrefix(creators: seq<GroupExpr>, e: GroupExpr, g: GroupId)
    requires ChildrenFirst(creators) && ChildrenFirst(creators + [e]) && g < |creators|
    ensures BaseAliases(creators + [e], g) == BaseAliases(creators, g)
    decreases g
  {
    forall k | 0 <= k < |creators[g].children|
      ensures BaseAliases(creators + [e], creators[g].children[k]) == BaseAliases(creators, creators[g].children[k])
    {
      AliasesOfPrefix(creators, e, creators[g].children[k]);
    }
  }

  lemma NewGroupKeepsAliases(groups: seq<Group>, creators: seq<GroupExpr>, e: GroupExpr, added: Group)
    requires AliasInv(groups, creators) && ClosedExpr(groups, e)
    requires added.aliases == AliasesOfExpr(groups, e)
    ensures AliasInv(groups + [added], creators + [e])
  {
    assert ChildrenFirst(creators + [e]);
    forall g | 0 <= g < |groups| ensures BaseAliases(creators + [e], g) == groups[g].aliases {
      AliasesOfPrefix(creators, e, g);
    }
  }

  /** In a memo built by insertions, entries are unique across all groups and child groups exist. */
  lemma MemoIsHashConsed(table: map<GroupExpr, GroupId>, groups: seq<Group>)
    requires MemoInv(table, groups)
    ensures Closed(groups) && HashConsed(groups)
  {
    forall g, i | 0 <= g < |groups| && 0 <= i < |groups[g].logical|
      ensures groups[g].logical[i] in table && table[groups[g].logical[i]] == g
    {
      assert groups[g].logical[i] in multiset(groups[g].logical);
      assert Count(groups[g], groups[g].logical[i]) >= 1;
    }
    forall g, i, j | 0 <= g < |groups| && 0 <= i < j < |groups[g].logical|
      ensures groups[g].logical[i] != groups[g].logical[j]
    {
      var s, e := groups[g].logical, groups[g].logical[j];
      assert Count(groups[g], e) == 1;
      TwiceCounts(s, i, j);
    }
  }

  lemma TwiceCounts(s: seq<GroupExpr>, i: nat, j: nat)
    requires i < j < |s|
    requires multiset(s)[s[j]] <= 1
    ensures s[i] != s[j]
  {
    assert s == s[..j] + [s[j]] + s[j + 1..];
    assert s[i] in s[..j];
  }

  /** A rule never sees the same operator tree twice, and a tree it sees names its group. */
  lemma BindingsOfMemo(table: map<GroupExpr, GroupId>, groups: seq<Group>, g: GroupId, p: Pattern)
    requires MemoInv(table, groups) && g < |groups|
    ensures Closed(groups)
    ensures NoDup(GroupBindings(groups, g, p))
    ensures forall h, q, t | 0 <= h < |groups| && t in GroupBindings(groups, g, p) ::
              t in GroupBindings(groups, h, q) ==> h == g
  {
    MemoIsHashConsed(table, groups);
    BindingsNoDup(groups, g, p);
    forall h, q, t | 0 <= h < |groups| && t in GroupBindings(groups, g, p) && t in GroupBindings(groups, h, q)
      ensures h == g
    {
      GroupBindingsExact(groups, g, p, t);
      GroupBindingsExact(groups, h, q, t);
      TreeDeterminesGroup(groups, g, p, h, q, t);
    }
  }

  class Memo {
    /** The hash table, with the group id each stored expression carries. */
    var groupExpressions: map<GroupExpr, GroupId>
    var groups: seq<Group>
    /** The expression each group was made for. */
    ghost var creators: seq<GroupExpr>

    ghost predicate Valid()
      reads this
    {
      MemoInv(groupExpressions, groups) && AliasInv(groups, creators)
    }

    constructor ()
      ensures Valid() && groups == [] && groupExpressions == map[]
    {
      groupExpressions, groups, creators := map[], [], [];
    }

    method InsertExpression(gexpr: GroupExpr, target: Option<GroupId>, enforced: bool) returns (r: Insertion)
      requires Valid()
      requires gexpr.op.LeafOperator? ==> target == None || target == Some(gexpr.op.originGroup)
      requires !gexpr.op.LeafOperator? ==> ClosedExpr(groups, gexpr)
      requires target.Some? ==> target.value < |groups|
      modifies this
      ensures Valid()
      ensures gexpr.op.LeafOperator? ==>
        r == Placeholder(gexpr.op.originGroup) && unchanged(this)
      ensures !gexpr.op.LeafOperator? && gexpr in old(groupExpressions) ==>
        r == Stored(gexpr, old(groupExpressions)[gexpr]) && unchanged(this)
      ensures !gexpr.op.LeafOperator? && gexpr !in old(groupExpressions) ==>
        && r == Stored(gexpr, if target.Some? then target.value else |old(groups)|)
        && groupExpressions == old(groupExpressions)[gexpr := r.group]
        && (target.Some? ==>
              && groups == old(groups)[r.group := WithExpression(old(groups)[r.group], gexpr, enforced)]
              && creators == old(creators))
        && (target.None? ==>
              && |groups| == |old(groups)| + 1 && groups[..|old(groups)|] == old(groups)
              && groups[r.group] == WithExpression(Group([], [], [], groups[r.group].aliases), gexpr, enforced)
              && creators == old(creators) + [gexpr])
    {
      if gexpr.op.Type() == Leaf {
        return Placeholder(gexpr.op.originGroup);
      }
      if gexpr in groupExpressions {
        return Stored(gexpr, groupExpressions[gexpr]);
      }
      var groupId: GroupId;
      if target == None {
        groupId := AddNewGroup(gexpr);
      } else {
        groupId := target.value;
      }
      AddExpression(gexpr, groupId, enforced);
      return Stored(gexpr, groupId);
    }

    /** Stores an expression that is not in the table yet, in the table and with its group. */
    method AddExpression(gexpr: GroupExpr, id: GroupId, enforced: bool)
      requires Valid() && id < |groups|
      requires gexpr !in groupExpressions && !gexpr.op.LeafOperator? && ClosedExpr(groups, gexpr)
      modifies this`groupExpressions, this`groups
      ensures Valid()
      ensures groupExpressions == old(groupExpressions)[gexpr := id]
      ensures groups == old(groups)[id := WithExpression(old(groups)[id], gexpr, enforced)]
    {
      AddKeepsInv(groupExpressions, groups, gexpr, id, enforced);
      AddKeepsAliases(groups, creators, gexpr, id, enforced);
      groupExpressions := groupExpressions[gexpr := id];
      groups := groups[id := WithExpression(groups[id], gexpr, enforced)];
    }

    method AddNewGroup(gexpr: GroupExpr) returns (id: GroupId)
      requires Valid() && ClosedExpr(groups, gexpr)
      modifies this`groups, this`creators
      ensures Valid()
      ensures id == |old(groups)| == |groups| - 1
      ensures groups == old(groups) + [Group([], [], [], groups[id].aliases)]
      ensures creators == old(creators) + [gexpr]
    {
      id := |groups|;
      var tableAliases := CollectAliases(gexpr);
      var newGroup := Group([], [], [], tableAliases);
      NewGroupKeepsAliases(groups, creators, gexpr, newGroup);
      groups := groups + [newGroup];
      creators := creators + [gexpr];
    }

    method CollectAliases(gexpr: GroupExpr) returns (tableAliases: set<string>)
      requires ClosedExpr(groups, gexpr)
      ensures tableAliases == AliasesOfExpr(groups, gexpr)
    {
      match gexpr.op {
        case GetOperator(a, _) => return {a};
        case DerivedGetOperator(a, _) => return {a};
        case _ =>
      }
      tableAliases := {};
      for i := 0 to |gexpr.children|
        invariant tableAliases == set k, a | 0 <= k < i && a in groups[gexpr.children[k]].aliases :: a
      {
        tableAliases := tableAliases + groups[gexpr.children[i]].aliases;
      }
    }

    /** Removes the only expression of a group, as a rewrite does before it inserts the replacement. */
    method EraseExpression(id: GroupId)
      requires Valid() && id < |groups|
      requires |groups[id].logical| == 1 && groups[id].physical == []
      modifies this
      ensures Valid()
      ensures groupExpressions == old(groupExpressions) - {old(groups)[id].logical[0]}
      ensures groups == old(groups)[id := old(groups)[id].(logical := [])]
      ensures creators == old(creators)
    {
      var gexpr := groups[id].logical[0];
      EraseKeepsInv(groupExpressions, groups, id);
      groupExpressions := groupExpressions - {gexpr};
      groups := groups[id := groups[id].(logical := [])];
    }
  }
}
