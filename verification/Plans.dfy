/** Values shared by the optimizer components: operators, group expressions,
    groups, rule patterns and operator trees. */
module Plans {

  type GroupId = nat

  /** The operator types the modelled code tests by name; every other type is a code. */
  datatype OpType = Leaf | LogicalGet | LogicalQueryDerivedGet | OtherType(code: nat)

  /** An operator with its contents. `contents` stands for every field that the
      operator's own equality compares and that the modelled code never reads. */
  datatype Operator =
    | LeafOperator(originGroup: GroupId)
    | GetOperator(tableAlias: string, contents: nat)
    | DerivedGetOperator(tableAlias: string, contents: nat)
    | OtherOperator(code: nat, physical: bool, contents: nat)
  {
    function Type(): OpType {
      match this
      case LeafOperator(_) => Leaf
      case GetOperator(_, _) => LogicalGet
      case DerivedGetOperator(_, _) => LogicalQueryDerivedGet
      case OtherOperator(code, _, _) => OtherType(code)
    }

    predicate IsPhysical() {
      OtherOperator? && physical
    }
  }

  /** A group expression as its hash table compares it: operator and child groups. */
  datatype GroupExpr = GroupExpr(op: Operator, children: seq<GroupId>)

  datatype Group = Group(
    logical: seq<GroupExpr>,
    physical: seq<GroupExpr>,
    enforced: seq<GroupExpr>,
    aliases: set<string>)

  datatype Pattern = Pattern(opType: OpType, children: seq<Pattern>)

  /** An operator tree handed to a rule. */
  datatype Node = Node(op: Operator, children: seq<Node>)

  predicate NoDup<T(==)>(s: seq<T>) {
    forall i, j :: 0 <= i < j < |s| ==> s[i] != s[j]
  }

  /** Every child group id of every logical expression names a group. */
  ghost predicate Closed(groups: seq<Group>) {
    forall g, i :: 0 <= g < |groups| && 0 <= i < |groups[g].logical| ==>
      ClosedExpr(groups, groups[g].logical[i])
  }

  predicate ClosedExpr(groups: seq<Group>, e: GroupExpr) {
    forall k :: 0 <= k < |e.children| ==> e.children[k] < |groups|
  }
}
