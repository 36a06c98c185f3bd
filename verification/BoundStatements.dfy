/** Every column of a bound statement points at a table that its scopes really have. */
module BoundStatements {
  import opened Options
  import opened Scopes
  import opened Binder

  /** Every column below the expression, at any depth of nesting, satisfies p. */
  ghost predicate AllExpr(e: Expr, p: ColumnRef -> bool)
    decreases e
  {
    match e
    case ColumnExpr(ref) => p(ref)
    case Operator(_, children) => forall i :: 0 <= i < |children| ==> AllExpr(children[i], p)
    case Subquery(_, select) => AllSelect(select, p)
    case Cast(_, operand) => AllExpr(operand, p)
    case Case(_, conditions, results) =>
      (forall i :: 0 <= i < |conditions| ==> AllExpr(conditions[i], p)) &&
      (forall i :: 0 <= i < |results| ==> AllExpr(results[i], p))
  }

  ghost predicate AllTable(t: TableRef, p: ColumnRef -> bool)
    decreases t
  {
    match t
    case BaseTable(_, _, _, _) => true
    case DerivedTable(select, _) => AllSelect(select, p)
    case Join(left, right, condition) => AllTable(left, p) && AllTable(right, p) && AllExpr(condition, p)
    case TableList(tables) => forall i :: 0 <= i < |tables| ==> AllTable(tables[i], p)
  }

  ghost predicate AllSelect(s: Select, p: ColumnRef -> bool)
    decreases s
  {
    (forall i :: 0 <= i < |s.from| ==> AllTable(s.from[i], p)) &&
    (forall i :: 0 <= i < |s.clauses| ==> AllExpr(s.clauses[i], p)) &&
    (forall i :: 0 <= i < |s.columns| ==> AllExpr(s.columns[i].expr, p)) &&
    (s.union.Some? ==> AllSelect(s.union.value, p))
  }

  /** As the parser leaves a reference: no table by oid, no depth. */
  predicate Fresh(ref: ColumnRef) {
    ref.tableOid == INVALID_OID && ref.depth == -1
  }

  /** Holds of every column exactly where there is none. */
  predicate Absent(ref: ColumnRef) {
    false
  }

  // ---------------------------------------------------------------------------
  // What the visitor reaches
  // ---------------------------------------------------------------------------

  /** No column is under a cast, among the results of a case, or in the other half of a union. */
  ghost predicate ReachedExpr(e: Expr)
    decreases e
  {
    match e
    case ColumnExpr(_) => true
    case Operator(_, children) => forall i :: 0 <= i < |children| ==> ReachedExpr(children[i])
    case Subquery(_, select) => ReachedSelect(select)
    case Cast(_, operand) => AllExpr(operand, Absent)
    case Case(_, conditions, results) =>
      (forall i :: 0 <= i < |conditions| ==> ReachedExpr(conditions[i])) &&
      (forall i :: 0 <= i < |results| ==> AllExpr(results[i], Absent))
  }

  ghost predicate ReachedTable(t: TableRef)
    decreases t
  {
    match t
    case BaseTable(_, _, _, _) => true
    case DerivedTable(select, _) => ReachedSelect(select)
    case Join(left, right, condition) => ReachedTable(left) && ReachedTable(right) && ReachedExpr(condition)
    case TableList(tables) => forall i :: 0 <= i < |tables| ==> ReachedTable(tables[i])
  }

  ghost predicate ReachedSelect(s: Select)
    decreases s
  {
    (forall i :: 0 <= i < |s.from| ==> ReachedTable(s.from[i])) &&
    (forall i :: 0 <= i < |s.clauses| ==> ReachedExpr(s.clauses[i])) &&
    (forall i :: 0 <= i < |s.columns| ==> ReachedExpr(s.columns[i].expr)) &&
    (s.union.Some? ==> AllSelect(s.union.value, Absent))
  }

  // ---------------------------------------------------------------------------
  // The tables a bound from clause declares
  // ---------------------------------------------------------------------------

  function Merged(s: Scope, t: Scope): Scope {
    Scope(s.regular + t.regular, s.nested + t.nested)
  }

  function Declared(env: Env, t: TableRef): Scope
    decreases t
  {
    match t
    case BaseTable(database, namespace, name, alias) =>
      var table := TableNamed(env.accessor, database, namespace, name);
      Scope(if table.Ok? then map[alias := table.value] else map[], map[])
    case DerivedTable(select, alias) => Scope(map[], map[alias := NamedColumns(select.columns)])
    case Join(left, right, _) => Merged(Declared(env, left), Declared(env, right))
    case TableList(tables) => DeclaredAll(env, tables)
  }

  function DeclaredAll(env: Env, ts: seq<TableRef>): Scope
    decreases ts
  {
    if ts == [] then Scope(map[], map[])
    else Merged(DeclaredAll(env, ts[..|ts| - 1]), Declared(env, ts[|ts| - 1]))
  }

  // ---------------------------------------------------------------------------
  // Anchored statements
  // ---------------------------------------------------------------------------

  ghost predicate AnchoredExpr(env: Env, scopes: seq<Scope>, e: Expr)
    decreases e
  {
    match e
    case ColumnExpr(ref) => Anchored(scopes, ref)
    case Operator(_, children) => forall i :: 0 <= i < |children| ==> AnchoredExpr(env, scopes, children[i])
    case Subquery(_, select) => AnchoredSelect(env, scopes, select)
    case Cast(_, operand) => AnchoredExpr(env, scopes, operand)
    case Case(_, conditions, results) =>
      (forall i :: 0 <= i < |conditions| ==> AnchoredExpr(env, scopes, conditions[i])) &&
      (forall i :: 0 <= i < |results| ==> AnchoredExpr(env, scopes, results[i]))
  }

  ghost predicate AnchoredTable(env: Env, scopes: seq<Scope>, t: TableRef)
    decreases t
  {
    match t
    case BaseTable(_, _, _, _) => true
    case DerivedTable(select, _) => AnchoredSelect(env, scopes, select)
    case Join(left, right, condition) =>
      AnchoredTable(env, scopes, left) && AnchoredTable(env, scopes, right) && AnchoredExpr(env, scopes, condition)
    case TableList(tables) => forall i :: 0 <= i < |tables| ==> AnchoredTable(env, scopes, tables[i])
  }

  /** Every column below the select, at any depth of nesting, has a depth that names one of the
      selects around it, and that select declares its table with that column. */
  ghost predicate AnchoredSelect(env: Env, outer: seq<Scope>, s: Select)
    decreases s
  {
    var scopes := [DeclaredAll(env, s.from)] + outer;
    (forall i :: 0 <= i < |s.from| ==> AnchoredTable(env, scopes, s.from[i])) &&
    (forall i :: 0 <= i < |s.clauses| ==> AnchoredExpr(env, scopes, s.clauses[i])) &&
    (forall i :: 0 <= i < |s.columns| ==> AnchoredExpr(env, scopes, s.columns[i].expr)) &&
    (s.union.Some? ==> AnchoredSelect(env, outer, s.union.value))
  }

  ghost predicate ExtendsAll(a: seq<Scope>, b: seq<Scope>) {
    |a| == |b| && forall i :: 0 <= i < |a| ==> Extends(a[i], b[i])
  }

  lemma AnchoredGrows(a: seq<Scope>, b: seq<Scope>, ref: ColumnRef)
    requires ExtendsAll(a, b) && Anchored(a, ref)
    ensures Anchored(b, ref)
  {
    var k := |a| - 1 - ref.depth;
    assert Extends(a[k], b[k]);
  }

  lemma {:induction false} ExprGrows(env: Env, a: seq<Scope>, b: seq<Scope>, e: Expr)
    requires ExtendsAll(a, b) && AnchoredExpr(env, a, e)
    ensures AnchoredExpr(env, b, e)
    decreases e
  {
    match e
    case ColumnExpr(ref) => AnchoredGrows(a, b, ref);
    case Operator(_, children) =>
      forall i | 0 <= i < |children| ensures AnchoredExpr(env, b, children[i]) {
        ExprGrows(env, a, b, children[i]);
      }
    case Subquery(_, select) => SelectGrows(env, a, b, select);
    case Cast(_, operand) => ExprGrows(env, a, b, operand);
    case Case(_, conditions, results) =>
      forall i | 0 <= i < |conditions| ensures AnchoredExpr(env, b, conditions[i]) {
        ExprGrows(env, a, b, conditions[i]);
      }
      forall i | 0 <= i < |results| ensures AnchoredExpr(env, b, results[i]) {
        ExprGrows(env, a, b, results[i]);
      }
  }

  lemma {:induction false} TableGrows(env: Env, a: seq<Scope>, b: seq<Scope>, t: TableRef)
    requires ExtendsAll(a, b) && AnchoredTable(env, a, t)
    ensures AnchoredTable(env, b, t)
    decreases t
  {
    match t
    case BaseTable(_, _, _, _) =>
    case DerivedTable(select, _) => SelectGrows(env, a, b, select);
    case Join(left, right, condition) =>
      TableGrows(env, a, b, left);
      TableGrows(env, a, b, right);
      ExprGrows(env, a, b, condition);
    case TableList(tables) =>
      forall i | 0 <= i < |tables| ensures AnchoredTable(env, b, tables[i]) {
        TableGrows(env, a, b, tables[i]);
      }
  }

  lemma {:induction false} SelectGrows(env: Env, a: seq<Scope>, b: seq<Scope>, s: Select)
    requires ExtendsAll(a, b) && AnchoredSelect(env, a, s)
    ensures AnchoredSelect(env, b, s)
    decreases s
  {
    var local := DeclaredAll(env, s.from);
    var c, d := [local] + a, [local] + b;
    assert ExtendsAll(c, d);
    forall i | 0 <= i < |s.from| ensures AnchoredTable(env, d, s.from[i]) {
      TableGrows(env, c, d, s.from[i]);
    }
    forall i | 0 <= i < |s.clauses| ensures AnchoredExpr(env, d, s.clauses[i]) {
      ExprGrows(env, c, d, s.clauses[i]);
    }
    forall i | 0 <= i < |s.columns| ensures AnchoredExpr(env, d, s.columns[i].expr) {
      ExprGrows(env, c, d, s.columns[i].expr);
    }
    if s.union.Some? {
      SelectGrows(env, a, b, s.union.value);
    }
  }

  // ---------------------------------------------------------------------------
  // Binding anchors every column it reaches
  // ---------------------------------------------------------------------------

  lemma {:induction false} NothingToAnchor(env: Env, scopes: seq<Scope>, e: Expr)
    requires AllExpr(e, Absent)
    ensures AnchoredExpr(env, scopes, e)
    decreases e
  {
    match e
    case ColumnExpr(_) =>
    case Operator(_, children) =>
      forall i | 0 <= i < |children| ensures AnchoredExpr(env, scopes, children[i]) {
        NothingToAnchor(env, scopes, children[i]);
      }
    case Subquery(_, select) => NothingToAnchorIn(env, scopes, select);
    case Cast(_, operand) => NothingToAnchor(env, scopes, operand);
    case Case(_, conditions, results) =>
      forall i | 0 <= i < |conditions| ensures AnchoredExpr(env, scopes, conditions[i]) {
        NothingToAnchor(env, scopes, conditions[i]);
      }
      forall i | 0 <= i < |results| ensures AnchoredExpr(env, scopes, results[i]) {
        NothingToAnchor(env, scopes, results[i]);
      }
  }

  lemma {:induction false} NothingToAnchorAt(env: Env, scopes: seq<Scope>, t: TableRef)
    requires AllTable(t, Absent)
    ensures AnchoredTable(env, scopes, t)
    decreases t
  {
    match t
    case BaseTable(_, _, _, _) =>
    case DerivedTable(select, _) => NothingToAnchorIn(env, scopes, select);
    case Join(left, right, condition) =>
      NothingToAnchorAt(env, scopes, left);
      NothingToAnchorAt(env, scopes, right);
      NothingToAnchor(env, scopes, condition);
    case TableList(tables) =>
      forall i | 0 <= i < |tables| ensures AnchoredTable(env, scopes, tables[i]) {
        NothingToAnchorAt(env, scopes, tables[i]);
      }
  }

  lemma {:induction false} NothingToAnchorIn(env: Env, outer: seq<Scope>, s: Select)
    requires AllSelect(s, Absent)
    ensures AnchoredSelect(env, outer, s)
    decreases s
  {
    var scopes := [DeclaredAll(env, s.from)] + outer;
    forall i | 0 <= i < |s.from| ensures AnchoredTable(env, scopes, s.from[i]) {
      NothingToAnchorAt(env, scopes, s.from[i]);
    }
    forall i | 0 <= i < |s.clauses| ensures AnchoredExpr(env, scopes, s.clauses[i]) {
      NothingToAnchor(env, scopes, s.clauses[i]);
    }
    forall i | 0 <= i < |s.columns| ensures AnchoredExpr(env, scopes, s.columns[i].expr) {
      NothingToAnchor(env, scopes, s.columns[i].expr);
    }
    if s.union.Some? {
      NothingToAnchorIn(env, outer, s.union.value);
    }
  }

  lemma {:induction false} ExprBinds(env: Env, scopes: seq<Scope>, e: Expr)
    requires AllExpr(e, Fresh) && ReachedExpr(e) && BindExpr(env, scopes, e).Ok?
    ensures AnchoredExpr(env, scopes, BindExpr(env, scopes, e).value)
    decreases e
  {
    match e
    case ColumnExpr(ref) => BoundIsAnchored(scopes, ref);
    case Operator(_, children) => ExprsBind(env, scopes, children);
    case Subquery(_, select) => SelectBinds(env, scopes, select);
    case Cast(_, operand) => NothingToAnchor(env, scopes, operand);
    case Case(_, conditions, results) =>
      ExprsBind(env, scopes, conditions);
      forall i | 0 <= i < |results| ensures AnchoredExpr(env, scopes, results[i]) {
        NothingToAnchor(env, scopes, results[i]);
      }
  }

  lemma {:induction false} ExprsBind(env: Env, scopes: seq<Scope>, es: seq<Expr>)
    requires forall i :: 0 <= i < |es| ==> AllExpr(es[i], Fresh) && ReachedExpr(es[i])
    requires BindExprs(env, scopes, es).Ok?
    ensures forall i :: 0 <= i < |BindExprs(env, scopes, es).value| ==>
              AnchoredExpr(env, scopes, BindExprs(env, scopes, es).value[i])
    decreases es
  {
    if es != [] {
      ExprsBind(env, scopes, es[..|es| - 1]);
      ExprBinds(env, scopes, es[|es| - 1]);
    }
  }

  lemma {:induction false} ItemsBind(env: Env, scopes: seq<Scope>, items: seq<Item>)
    requires forall i :: 0 <= i < |items| ==> AllExpr(items[i].expr, Fresh) && ReachedExpr(items[i].expr)
    requires BindItems(env, scopes, items).Ok?
    ensures forall i :: 0 <= i < |BindItems(env, scopes, items).value| ==>
              AnchoredExpr(env, scopes, BindItems(env, scopes, items).value[i].expr)
    decreases items
  {
    if items != [] {
      ItemsBind(env, scopes, items[..|items| - 1]);
      ExprBinds(env, scopes, items[|items| - 1].expr);
    }
  }

  lemma UnionAssociates<K, V>(a: map<K, V>, b: map<K, V>, c: map<K, V>)
    ensures (a + b) + c == a + (b + c)
  {
  }

  lemma MergedAssociates(a: Scope, b: Scope, c: Scope)
    ensures Merged(Merged(a, b), c) == Merged(a, Merged(b, c))
  {
    UnionAssociates(a.regular, b.regular, c.regular);
    UnionAssociates(a.nested, b.nested, c.nested);
  }

  lemma MergedWithNothing(s: Scope)
    ensures Merged(Scope(map[], map[]), s) == s
  {
    assert (map[] + s.regular) == s.regular && (map[] + s.nested) == s.nested;
  }

  lemma ExtendsTransitive(a: Scope, b: Scope, c: Scope)
    requires Extends(a, b) && Extends(b, c)
    ensures Extends(a, c)
  {
  }

  lemma ExtendsInnermost(a: Scope, b: Scope, outer: seq<Scope>)
    requires Extends(a, b)
    ensures ExtendsAll([a] + outer, [b] + outer)
  {
  }

  lemma BaseDeclares(env: Env, s: Scope, outer: seq<Scope>, t: TableRef)
    requires t.BaseTable? && BindTable(env, s, outer, t).Ok?
    ensures
      var (b, s') := BindTable(env, s, outer, t).value;
      Extends(s, s') && s' == Merged(s, Declared(env, b))
  {
  }

  lemma DerivedDeclares(env: Env, s: Scope, outer: seq<Scope>, t: TableRef)
    requires t.DerivedTable? && BindTable(env, s, outer, t).Ok?
    ensures
      var (b, s') := BindTable(env, s, outer, t).value;
      Extends(s, s') && s' == Merged(s, Declared(env, b))
  {
  }

  /** A table adds to the scope what it declares, and takes nothing away. */
  lemma {:induction false} TableDeclares(env: Env, s: Scope, outer: seq<Scope>, t: TableRef)
    requires BindTable(env, s, outer, t).Ok?
    ensures
      var (b, s') := BindTable(env, s, outer, t).value;
      Extends(s, s') && s' == Merged(s, Declared(env, b))
    decreases t
  {
    match t
    case BaseTable(_, _, _, _) => BaseDeclares(env, s, outer, t);
    case DerivedTable(_, _) => DerivedDeclares(env, s, outer, t);
    case Join(left, right, _) =>
      TableDeclares(env, s, outer, left);
      var l := BindTable(env, s, outer, left).value;
      TableDeclares(env, l.1, outer, right);
      var r := BindTable(env, l.1, outer, right).value;
      MergedAssociates(s, Declared(env, l.0), Declared(env, r.0));
      ExtendsTransitive(s, l.1, r.1);
    case TableList(tables) => TablesDeclare(env, s, outer, tables);
  }

  lemma {:induction false} TablesDeclare(env: Env, s: Scope, outer: seq<Scope>, ts: seq<TableRef>)
    requires BindTables(env, s, outer, ts).Ok?
    ensures
      var (b, s') := BindTables(env, s, outer, ts).value;
      Extends(s, s') && s' == Merged(s, DeclaredAll(env, b))
    decreases ts
  {
    if ts != [] {
      TablesDeclare(env, s, outer, ts[..|ts| - 1]);
      var before := BindTables(env, s, outer, ts[..|ts| - 1]).value;
      TableDeclares(env, before.1, outer, ts[|ts| - 1]);
      var last := BindTable(env, before.1, outer, ts[|ts| - 1]).value;
      assert (before.0 + [last.0])[..|before.0|] == before.0;
      MergedAssociates(s, DeclaredAll(env, before.0), Declared(env, last.0));
      ExtendsTransitive(s, before.1, last.1);
    }
  }

  /** However a from clause is nested, no alias comes to name two tables of its scope. */
  lemma {:induction false} TableKeepsUnambiguous(env: Env, s: Scope, outer: seq<Scope>, t: TableRef)
    requires Unambiguous(s) && BindTable(env, s, outer, t).Ok?
    ensures Unambiguous(BindTable(env, s, outer, t).value.1)
    decreases t
  {
    match t
    case BaseTable(_, _, _, _) =>
    case DerivedTable(_, _) =>
    case Join(left, right, _) =>
      TableKeepsUnambiguous(env, s, outer, left);
      TableKeepsUnambiguous(env, BindTable(env, s, outer, left).value.1, outer, right);
    case TableList(tables) => TablesKeepUnambiguous(env, s, outer, tables);
  }

  lemma {:induction false} TablesKeepUnambiguous(env: Env, s: Scope, outer: seq<Scope>, ts: seq<TableRef>)
    requires Unambiguous(s) && BindTables(env, s, outer, ts).Ok?
    ensures Unambiguous(BindTables(env, s, outer, ts).value.1)
    decreases ts
  {
    if ts != [] {
      TablesKeepUnambiguous(env, s, outer, ts[..|ts| - 1]);
      TableKeepsUnambiguous(env, BindTables(env, s, outer, ts[..|ts| - 1]).value.1, outer, ts[|ts| - 1]);
    }
  }

  lemma {:induction false} TableBinds(env: Env, s: Scope, outer: seq<Scope>, t: TableRef)
    requires AllTable(t, Fresh) && ReachedTable(t) && BindTable(env, s, outer, t).Ok?
    ensures
      var (b, s') := BindTable(env, s, outer, t).value;
      AnchoredTable(env, [s'] + outer, b)
    decreases t
  {
    match t
    case BaseTable(_, _, _, _) =>
    case DerivedTable(select, _) => DerivedBinds(env, s, outer, t);
    case Join(left, right, condition) => JoinBinds(env, s, outer, t);
    case TableList(tables) => TablesBind(env, s, outer, tables);
  }

  lemma {:induction false} DerivedBinds(env: Env, s: Scope, outer: seq<Scope>, t: TableRef)
    requires t.DerivedTable? && AllTable(t, Fresh) && ReachedTable(t) && BindTable(env, s, outer, t).Ok?
    ensures
      var (b, s') := BindTable(env, s, outer, t).value;
      AnchoredTable(env, [s'] + outer, b)
    decreases t, 0
  {
    var (b, s') := BindTable(env, s, outer, t).value;
    SelectBinds(env, [s] + outer, t.select);
    TableDeclares(env, s, outer, t);
    ExtendsInnermost(s, s', outer);
    SelectGrows(env, [s] + outer, [s'] + outer, b.select);
  }

  lemma {:induction false} JoinBinds(env: Env, s: Scope, outer: seq<Scope>, t: TableRef)
    requires t.Join? && AllTable(t, Fresh) && ReachedTable(t) && BindTable(env, s, outer, t).Ok?
    ensures
      var (b, s') := BindTable(env, s, outer, t).value;
      AnchoredTable(env, [s'] + outer, b)
    decreases t, 0
  {
    TableBinds(env, s, outer, t.left);
    var (left, mid) := BindTable(env, s, outer, t.left).value;
    TableBinds(env, mid, outer, t.right);
    var (right, last) := BindTable(env, mid, outer, t.right).value;
    ExprBinds(env, [last] + outer, t.condition);
    TableDeclares(env, mid, outer, t.right);
    ExtendsInnermost(mid, last, outer);
    TableGrows(env, [mid] + outer, [last] + outer, left);
  }

  ghost predicate AnchoredTables(env: Env, scopes: seq<Scope>, ts: seq<TableRef>) {
    forall i :: 0 <= i < |ts| ==> AnchoredTable(env, scopes, ts[i])
  }

  lemma TablesGrow(env: Env, a: seq<Scope>, b: seq<Scope>, ts: seq<TableRef>)
    requires ExtendsAll(a, b) && AnchoredTables(env, a, ts)
    ensures AnchoredTables(env, b, ts)
  {
    forall i | 0 <= i < |ts| ensures AnchoredTable(env, b, ts[i]) {
      TableGrows(env, a, b, ts[i]);
    }
  }

  lemma {:induction false} TablesBind(env: Env, s: Scope, outer: seq<Scope>, ts: seq<TableRef>)
    requires forall i :: 0 <= i < |ts| ==> AllTable(ts[i], Fresh) && ReachedTable(ts[i])
    requires BindTables(env, s, outer, ts).Ok?
    ensures
      var (b, s') := BindTables(env, s, outer, ts).value;
      AnchoredTables(env, [s'] + outer, b)
    decreases ts
  {
    if ts != [] {
      TablesBind(env, s, outer, ts[..|ts| - 1]);
      var (front, mid) := BindTables(env, s, outer, ts[..|ts| - 1]).value;
      TableBinds(env, mid, outer, ts[|ts| - 1]);
      TableDeclares(env, mid, outer, ts[|ts| - 1]);
      var (_, last) := BindTable(env, mid, outer, ts[|ts| - 1]).value;
      ExtendsInnermost(mid, last, outer);
      TablesGrow(env, [mid] + outer, [last] + outer, front);
    }
  }

  /** A statement that binds has every column anchored, if the visitor reaches them all. */
  lemma {:induction false} SelectBinds(env: Env, outer: seq<Scope>, s: Select)
    requires AllSelect(s, Fresh) && ReachedSelect(s) && BindSelect(env, outer, s).Ok?
    ensures AnchoredSelect(env, outer, BindSelect(env, outer, s).value)
    decreases s
  {
    var empty := Scope(map[], map[]);
    var (from, local) := BindTables(env, empty, outer, s.from).value;
    TablesBind(env, empty, outer, s.from);
    TablesDeclare(env, empty, outer, s.from);
    MergedWithNothing(DeclaredAll(env, from));
    ExprsBind(env, [local] + outer, s.clauses);
    ItemsBind(env, [local] + outer, s.columns);
    if s.union.Some? {
      NothingToAnchorIn(env, outer, s.union.value);
    }
  }

  // ---------------------------------------------------------------------------
  // ... and no other
  // ---------------------------------------------------------------------------

  /** A reference as the parser left it is anchored nowhere. */
  lemma {:induction false} LeftAlone(env: Env, scopes: seq<Scope>, e: Expr)
    requires AllExpr(e, Fresh) && AnchoredExpr(env, scopes, e)
    ensures AllExpr(e, Absent)
    decreases e
  {
    match e
    case ColumnExpr(_) =>
    case Operator(_, children) =>
      forall i | 0 <= i < |children| ensures AllExpr(children[i], Absent) {
        LeftAlone(env, scopes, children[i]);
      }
    case Subquery(_, select) => LeftAloneIn(env, scopes, select);
    case Cast(_, operand) => LeftAlone(env, scopes, operand);
    case Case(_, conditions, results) =>
      forall i | 0 <= i < |conditions| ensures AllExpr(conditions[i], Absent) {
        LeftAlone(env, scopes, conditions[i]);
      }
      forall i | 0 <= i < |results| ensures AllExpr(results[i], Absent) {
        LeftAlone(env, scopes, results[i]);
      }
  }

  lemma {:induction false} LeftAloneAt(env: Env, scopes: seq<Scope>, t: TableRef)
    requires AllTable(t, Fresh) && AnchoredTable(env, scopes, t)
    ensures AllTable(t, Absent)
    decreases t
  {
    match t
    case BaseTable(_, _, _, _) =>
    case DerivedTable(select, _) => LeftAloneIn(env, scopes, select);
    case Join(left, right, condition) =>
      LeftAloneAt(env, scopes, left);
      LeftAloneAt(env, scopes, right);
      LeftAlone(env, scopes, condition);
    case TableList(tables) =>
      forall i | 0 <= i < |tables| ensures AllTable(tables[i], Absent) {
        LeftAloneAt(env, scopes, tables[i]);
      }
  }

  lemma {:induction false} LeftAloneIn(env: Env, outer: seq<Scope>, s: Select)
    requires AllSelect(s, Fresh) && AnchoredSelect(env, outer, s)
    ensures AllSelect(s, Absent)
    decreases s
  {
    var scopes := [DeclaredAll(env, s.from)] + outer;
    forall i | 0 <= i < |s.from| ensures AllTable(s.from[i], Absent) {
      LeftAloneAt(env, scopes, s.from[i]);
    }
    forall i | 0 <= i < |s.clauses| ensures AllExpr(s.clauses[i], Absent) {
      LeftAlone(env, scopes, s.clauses[i]);
    }
    forall i | 0 <= i < |s.columns| ensures AllExpr(s.columns[i].expr, Absent) {
      LeftAlone(env, scopes, s.columns[i].expr);
    }
    if s.union.Some? {
      LeftAloneIn(env, outer, s.union.value);
    }
  }

  /** If what an expression was bound to is anchored anywhere, the visitor reached all of it. */
  lemma {:induction false} ExprReached(env: Env, scopes: seq<Scope>, e: Expr, seen: seq<Scope>)
    requires AllExpr(e, Fresh) && BindExpr(env, scopes, e).Ok?
    requires AnchoredExpr(env, seen, BindExpr(env, scopes, e).value)
    ensures ReachedExpr(e)
    decreases e
  {
    match e
    case ColumnExpr(_) =>
    case Operator(_, children) => ExprsReached(env, scopes, children, seen);
    case Subquery(_, select) => SelectReached(env, scopes, select, seen);
    case Cast(_, operand) => LeftAlone(env, seen, operand);
    case Case(_, conditions, results) =>
      ExprsReached(env, scopes, conditions, seen);
      forall i | 0 <= i < |results| ensures AllExpr(results[i], Absent) {
        LeftAlone(env, seen, results[i]);
      }
  }

  lemma {:induction false} ExprsReached(env: Env, scopes: seq<Scope>, es: seq<Expr>, seen: seq<Scope>)
    requires forall i :: 0 <= i < |es| ==> AllExpr(es[i], Fresh)
    requires BindExprs(env, scopes, es).Ok?
    requires forall i :: 0 <= i < |BindExprs(env, scopes, es).value| ==>
               AnchoredExpr(env, seen, BindExprs(env, scopes, es).value[i])
    ensures forall i :: 0 <= i < |es| ==> ReachedExpr(es[i])
    decreases es
  {
    if es != [] {
      var n := |es| - 1;
      var before, last := BindExprs(env, scopes, es[..n]).value, BindExpr(env, scopes, es[n]).value;
      var bound := BindExprs(env, scopes, es).value;
      assert forall i :: 0 <= i < |before| ==> bound[i] == before[i];
      assert bound[|before|] == last;
      ExprsReached(env, scopes, es[..n], seen);
      ExprReached(env, scopes, es[n], seen);
      assert forall i :: 0 <= i < n ==> es[..n][i] == es[i];
    }
  }

  lemma {:induction false} ItemsReached(env: Env, scopes: seq<Scope>, items: seq<Item>, seen: seq<Scope>)
    requires forall i :: 0 <= i < |items| ==> AllExpr(items[i].expr, Fresh)
    requires BindItems(env, scopes, items).Ok?
    requires forall i :: 0 <= i < |BindItems(env, scopes, items).value| ==>
               AnchoredExpr(env, seen, BindItems(env, scopes, items).value[i].expr)
    ensures forall i :: 0 <= i < |items| ==> ReachedExpr(items[i].expr)
    decreases items
  {
    if items != [] {
      var n := |items| - 1;
      var before, last := BindItems(env, scopes, items[..n]).value, BindExpr(env, scopes, items[n].expr).value;
      var bound := BindItems(env, scopes, items).value;
      assert forall i :: 0 <= i < |before| ==> bound[i] == before[i];
      assert bound[|before|].expr == last;
      ItemsReached(env, scopes, items[..n], seen);
      ExprReached(env, scopes, items[n].expr, seen);
      assert forall i :: 0 <= i < n ==> items[..n][i] == items[i];
    }
  }

  lemma {:induction false} TableReached(env: Env, s: Scope, outer: seq<Scope>, t: TableRef, seen: seq<Scope>)
    requires AllTable(t, Fresh) && BindTable(env, s, outer, t).Ok?
    requires AnchoredTable(env, seen, BindTable(env, s, outer, t).value.0)
    ensures ReachedTable(t)
    decreases t
  {
    match t
    case BaseTable(_, _, _, _) =>
    case DerivedTable(select, _) => SelectReached(env, [s] + outer, select, seen);
    case Join(left, right, condition) =>
      TableReached(env, s, outer, left, seen);
      var mid := BindTable(env, s, outer, left).value.1;
      TableReached(env, mid, outer, right, seen);
      var last := BindTable(env, mid, outer, right).value.1;
      ExprReached(env, [last] + outer, condition, seen);
    case TableList(tables) => TablesReached(env, s, outer, tables, seen);
  }

  lemma {:induction false} TablesReached(env: Env, s: Scope, outer: seq<Scope>, ts: seq<TableRef>, seen: seq<Scope>)
    requires forall i :: 0 <= i < |ts| ==> AllTable(ts[i], Fresh)
    requires BindTables(env, s, outer, ts).Ok? && AnchoredTables(env, seen, BindTables(env, s, outer, ts).value.0)
    ensures forall i :: 0 <= i < |ts| ==> ReachedTable(ts[i])
    decreases ts
  {
    if ts != [] {
      var n := |ts| - 1;
      var before := BindTables(env, s, outer, ts[..n]).value;
      var last := BindTable(env, before.1, outer, ts[n]).value;
      var bound := BindTables(env, s, outer, ts).value.0;
      assert forall i :: 0 <= i < |before.0| ==> bound[i] == before.0[i];
      assert bound[|before.0|] == last.0;
      TablesReached(env, s, outer, ts[..n], seen);
      TableReached(env, before.1, outer, ts[n], seen);
      assert forall i :: 0 <= i < n ==> ts[..n][i] == ts[i];
    }
  }

  lemma {:induction false} SelectReached(env: Env, outer: seq<Scope>, s: Select, seen: seq<Scope>)
    requires AllSelect(s, Fresh) && BindSelect(env, outer, s).Ok?
    requires AnchoredSelect(env, seen, BindSelect(env, outer, s).value)
    ensures ReachedSelect(s)
    decreases s
  {
    var (from, local) := BindTables(env, Scope(map[], map[]), outer, s.from).value;
    var scopes := [DeclaredAll(env, from)] + seen;
    TablesReached(env, Scope(map[], map[]), outer, s.from, scopes);
    ExprsReached(env, [local] + outer, s.clauses, scopes);
    ItemsReached(env, [local] + outer, s.columns, scopes);
    if s.union.Some? {
      LeftAloneIn(env, seen, s.union.value);
    }
  }

  /** In a statement that binds, every column at every depth of nesting is anchored exactly when none is
      under a cast, among the results of a case or in the other half of a union. */
  lemma AnchoredExactlyWhenReached(env: Env, outer: seq<Scope>, s: Select)
    requires AllSelect(s, Fresh) && BindSelect(env, outer, s).Ok?
    ensures AnchoredSelect(env, outer, BindSelect(env, outer, s).value) <==> ReachedSelect(s)
  {
    if ReachedSelect(s) {
      SelectBinds(env, outer, s);
    }
    if AnchoredSelect(env, outer, BindSelect(env, outer, s).value) {
      SelectReached(env, outer, s, outer);
    }
  }

  /** The select CAST(nosuch AS ...) without tables: it binds, and its column is anchored nowhere. */
  lemma CastIsNotBound(env: Env, outer: seq<Scope>, typeId: TypeId)
    ensures
      var nosuch := ColumnExpr(ColumnRef("", "nosuch", 0, INVALID_OID, 0, 0, -1));
      var s := Select([], [], [Item(Cast(typeId, nosuch), "")], None);
      BindSelect(env, outer, s) == Ok(s) && !AnchoredSelect(env, outer, s)
  {
    var nosuch := ColumnExpr(ColumnRef("", "nosuch", 0, INVALID_OID, 0, 0, -1));
    var items := [Item(Cast(typeId, nosuch), "")];
    var scopes := [Scope(map[], map[])] + outer;
    assert items[..0] == [] && [] + items == items;
    assert BindItems(env, scopes, items[..0]) == Ok([]);
    assert BindExpr(env, scopes, items[0].expr) == Ok(items[0].expr);
    assert BindItems(env, scopes, items) == Ok([] + [Item(items[0].expr, items[0].alias)]);
    assert !AnchoredExpr(env, [DeclaredAll(env, [])] + outer, items[0].expr);
  }
}
