/** Name resolution through nested scopes: what a column reference means, given the tables of every
    enclosing select. */
module Scopes {

  datatype Error =
    | UnknownDatabase | UnknownNamespace | UnknownTable | DuplicateAlias | NoAlias
    | CannotFindColumn | AmbiguousColumn | InvalidTableReference

  datatype Result<+T> = Ok(value: T) | Err(error: Error)

  type TypeId = nat

  datatype Column = Column(oid: nat, typeId: TypeId)

  datatype Table = Table(oid: nat, columns: map<string, Column>)

  datatype Metadata = Metadata(database: nat, table: Table)

  /** What the catalog accessor answers. */
  datatype Accessor = Accessor(
    databases: map<string, nat>,
    namespaces: map<string, nat>,
    inNamespace: map<(nat, string), Table>,
    onPath: map<string, Table>)

  /** The tables one select brings into view: base tables, and derived tables with their columns. */
  datatype Scope = Scope(regular: map<string, Metadata>, nested: map<string, map<string, TypeId>>)

  const INVALID_OID: nat := 0

  datatype ColumnRef = ColumnRef(
    tableName: string, columnName: string,
    databaseOid: nat, tableOid: nat, columnOid: nat, typeId: TypeId, depth: int)

  function LowerChar(c: char): char {
    if 'A' <= c <= 'Z' then ((c as int) + 32) as char else c
  }

  function Lower(s: string): string {
    seq(|s|, i requires 0 <= i < |s| => LowerChar(s[i]))
  }

  // ---------------------------------------------------------------------------
  // Bringing tables into a scope
  // ---------------------------------------------------------------------------

  function TableNamed(a: Accessor, database: string, namespace: string, name: string): Result<Metadata> {
    if database !in a.databases then Err(UnknownDatabase)
    else if namespace != "" && namespace !in a.namespaces then Err(UnknownNamespace)
    else if namespace != "" then
      if (a.namespaces[namespace], name) !in a.inNamespace then Err(UnknownTable)
      else Ok(Metadata(a.databases[database], a.inNamespace[(a.namespaces[namespace], name)]))
    else if name !in a.onPath then Err(UnknownTable)
    else Ok(Metadata(a.databases[database], a.onPath[name]))
  }

  predicate Taken(s: Scope, alias: string) {
    alias in s.regular || alias in s.nested
  }

  function WithRegular(s: Scope, alias: string, table: Result<Metadata>): Result<Scope> {
    if table.Err? then Err(table.error)
    else if Taken(s, alias) then Err(DuplicateAlias)
    else Ok(s.(regular := s.regular[alias := table.value]))
  }

  function WithNested(s: Scope, alias: string, columns: map<string, TypeId>): Result<Scope> {
    if Taken(s, alias) then Err(DuplicateAlias) else Ok(s.(nested := s.nested[alias := columns]))
  }

  /** No alias names two tables of a scope. */
  ghost predicate Unambiguous(s: Scope) {
    s.regular.Keys !! s.nested.Keys
  }

  /** No table that can be added makes an alias name two tables. */
  lemma AddsKeepUnambiguous(s: Scope, alias: string, table: Result<Metadata>, columns: map<string, TypeId>)
    requires Unambiguous(s)
    ensures WithRegular(s, alias, table).Ok? ==> Unambiguous(WithRegular(s, alias, table).value)
    ensures WithNested(s, alias, columns).Ok? ==> Unambiguous(WithNested(s, alias, columns).value)
  {
  }

  /** Everything in view before is in view after, unchanged. */
  ghost predicate Extends(s: Scope, t: Scope) {
    (forall a :: a in s.regular ==> a in t.regular && t.regular[a] == s.regular[a]) &&
    (forall a :: a in s.nested ==> a in t.nested && t.nested[a] == s.nested[a])
  }

  // ---------------------------------------------------------------------------
  // Unqualified names
  // ---------------------------------------------------------------------------

  /** A table of a scope. */
  datatype Owner = Regular(alias: string) | Nested(alias: string)

  predicate Owns(s: Scope, o: Owner, col: string) {
    match o
    case Regular(a) => a in s.regular && col in s.regular[a].table.columns
    case Nested(a) => a in s.nested && col in s.nested[a]
  }

  /** The reference bound to a column of a base table, under the name it has. */
  function RegularColumn(t: Metadata, col: string, ref: ColumnRef): ColumnRef
    requires col in t.table.columns
  {
    var c := t.table.columns[col];
    ref.(columnName := col, databaseOid := t.database, tableOid := t.table.oid, columnOid := c.oid, typeId := c.typeId)
  }

  /** The reference bound to a column of a derived table. */
  function NestedColumn(columns: map<string, TypeId>, alias: string, col: string, ref: ColumnRef): ColumnRef
    requires col in columns
  {
    ref.(tableName := alias, columnName := col, typeId := columns[col])
  }

  /** The reference bound to a column of one of the tables of a scope, its depth aside. */
  function BoundTo(s: Scope, o: Owner, col: string, ref: ColumnRef): ColumnRef
    requires Owns(s, o, col)
  {
    match o
    case Regular(a) => RegularColumn(s.regular[a], col, ref).(tableName := a)
    case Nested(a) => NestedColumn(s.nested[a], a, col, ref)
  }

  ghost predicate OwnedIn(s: Scope, col: string) {
    exists o :: Owns(s, o, col)
  }

  /** Two tables of the scope have the column. */
  ghost predicate Contested(s: Scope, col: string) {
    exists o, p :: o != p && Owns(s, o, col) && Owns(s, p, col)
  }

  /** The one table with the column. */
  ghost function SoleOwner(s: Scope, col: string): (o: Owner)
    requires OwnedIn(s, col) && !Contested(s, col)
    ensures Owns(s, o, col)
    ensures forall p :: Owns(s, p, col) ==> p == o
  {
    var o :| Owns(s, o, col);
    o
  }

  /** What an unqualified name is bound to, looking outwards from the innermost scope. The depth of a
      scope is counted inwards from the outermost select. */
  ghost function Unqualified(scopes: seq<Scope>, ref: ColumnRef): Result<ColumnRef> {
    var col := Lower(ref.columnName);
    if scopes == [] then Err(CannotFindColumn)
    else if !OwnedIn(scopes[0], col) then Unqualified(scopes[1..], ref)
    else if Contested(scopes[0], col) then Err(AmbiguousColumn)
    else Ok(BoundTo(scopes[0], SoleOwner(scopes[0], col), col, ref).(depth := |scopes| - 1))
  }

  /** Only the innermost scope with the column has a say. */
  lemma UnqualifiedOutwards(s: Scope, rest: seq<Scope>, ref: ColumnRef)
    requires !OwnedIn(s, Lower(ref.columnName))
    ensures Unqualified([s] + rest, ref) == Unqualified(rest, ref)
  {
    assert ([s] + rest)[1..] == rest;
  }

  /** A column that one table of a scope has is bound to it there, whichever table is tried first. */
  lemma UnqualifiedSole(s: Scope, rest: seq<Scope>, ref: ColumnRef, o: Owner)
    requires Owns(s, o, Lower(ref.columnName)) && !Contested(s, Lower(ref.columnName))
    ensures Unqualified([s] + rest, ref) == Ok(BoundTo(s, o, Lower(ref.columnName), ref).(depth := |rest|))
  {
    var scopes, col := [s] + rest, Lower(ref.columnName);
    assert scopes[0] == s && OwnedIn(s, col) && SoleOwner(s, col) == o;
    assert Unqualified(scopes, ref) == Ok(BoundTo(s, SoleOwner(s, col), col, ref).(depth := |scopes| - 1));
  }

  lemma UnqualifiedContested(s: Scope, rest: seq<Scope>, ref: ColumnRef)
    requires Contested(s, Lower(ref.columnName))
    ensures Unqualified([s] + rest, ref) == Err(AmbiguousColumn)
  {
    assert ([s] + rest)[0] == s;
  }

  /** The innermost scope with the column, counted outwards. */
  ghost predicate IsNearest(scopes: seq<Scope>, col: string, k: nat) {
    k < |scopes| && OwnedIn(scopes[k], col) && forall i :: 0 <= i < k ==> !OwnedIn(scopes[i], col)
  }

  /** No scope has the column exactly when the name is not found. Otherwise the innermost scope that
      has it decides: the name is ambiguous exactly when two tables of that scope have it, and bound
      to a table exactly when that is the only one. */
  lemma {:induction false} UnqualifiedExact(scopes: seq<Scope>, ref: ColumnRef) returns (k: nat)
    ensures
      var col, r := Lower(ref.columnName), Unqualified(scopes, ref);
      if forall i :: 0 <= i < |scopes| ==> !OwnedIn(scopes[i], col) then r == Err(CannotFindColumn)
      else
        IsNearest(scopes, col, k) &&
        (r == Err(AmbiguousColumn) <==> Contested(scopes[k], col)) &&
        (forall o :: Owns(scopes[k], o, col) && !Contested(scopes[k], col) ==>
          r == Ok(BoundTo(scopes[k], o, col, ref).(depth := |scopes| - 1 - k)))
  {
    k := 0;
    if scopes != [] && !OwnedIn(scopes[0], Lower(ref.columnName)) {
      var rest := UnqualifiedExact(scopes[1..], ref);
      k := rest + 1;
    }
  }

  // ---------------------------------------------------------------------------
  // Qualified names
  // ---------------------------------------------------------------------------

  /** The innermost base table of an alias, and its depth. */
  function RegularIn(scopes: seq<Scope>, alias: string): Result<(Metadata, int)> {
    if scopes == [] then Err(InvalidTableReference)
    else if alias in scopes[0].regular then Ok((scopes[0].regular[alias], |scopes| - 1))
    else RegularIn(scopes[1..], alias)
  }

  /** The innermost derived table of an alias, and its depth. */
  function NestedIn(scopes: seq<Scope>, alias: string): Result<(map<string, TypeId>, int)> {
    if scopes == [] then Err(InvalidTableReference)
    else if alias in scopes[0].nested then Ok((scopes[0].nested[alias], |scopes| - 1))
    else NestedIn(scopes[1..], alias)
  }

  /** What a qualified name is bound to: the innermost base table of that alias anywhere, and only
      without one the innermost derived table. A base table keeps the name as it was written. */
  function Qualified(scopes: seq<Scope>, ref: ColumnRef): Result<ColumnRef> {
    var alias, col := Lower(ref.tableName), Lower(ref.columnName);
    match RegularIn(scopes, alias)
    case Ok((t, d)) =>
      if col in t.table.columns then Ok(RegularColumn(t, col, ref).(depth := d)) else Err(CannotFindColumn)
    case Err(_) => NestedReference(scopes, alias, col, ref)
  }

  function NestedReference(scopes: seq<Scope>, alias: string, col: string, ref: ColumnRef): Result<ColumnRef> {
    match NestedIn(scopes, alias)
    case Ok((columns, d)) =>
      if col in columns then Ok(NestedColumn(columns, alias, col, ref).(depth := d)) else Err(CannotFindColumn)
    case Err(_) => Err(InvalidTableReference)
  }

  /** The depth of the innermost scope in which the alias names any table, or -1. */
  function DepthTaken(scopes: seq<Scope>, alias: string): (d: int)
    ensures d < |scopes|
  {
    if scopes == [] then -1
    else if Taken(scopes[0], alias) then |scopes| - 1
    else DepthTaken(scopes[1..], alias)
  }

  function DepthRegular(scopes: seq<Scope>, alias: string): (d: int)
    ensures d <= DepthTaken(scopes, alias)
    ensures RegularIn(scopes, alias).Ok? <==> d >= 0
    ensures RegularIn(scopes, alias).Ok? ==> RegularIn(scopes, alias).value.1 == d
  {
    if scopes == [] then -1
    else if alias in scopes[0].regular then |scopes| - 1
    else DepthRegular(scopes[1..], alias)
  }

  function DepthNested(scopes: seq<Scope>, alias: string): (d: int)
    ensures d <= DepthTaken(scopes, alias)
    ensures NestedIn(scopes, alias).Ok? <==> d >= 0
    ensures NestedIn(scopes, alias).Ok? ==> NestedIn(scopes, alias).value.1 == d
  {
    if scopes == [] then -1
    else if alias in scopes[0].nested then |scopes| - 1
    else DepthNested(scopes[1..], alias)
  }

  lemma {:induction false} DepthTakenIs(scopes: seq<Scope>, alias: string)
    requires forall i :: 0 <= i < |scopes| ==> Unambiguous(scopes[i])
    ensures
      var r, n, t := DepthRegular(scopes, alias), DepthNested(scopes, alias), DepthTaken(scopes, alias);
      (t == r || t == n) && (r == n ==> t == -1)
  {
    if scopes != [] && !Taken(scopes[0], alias) {
      DepthTakenIs(scopes[1..], alias);
    }
  }

  /** The depth of the scope a qualified name is looked up in, or -1. */
  function DepthConsulted(scopes: seq<Scope>, alias: string): int {
    if DepthRegular(scopes, alias) >= 0 then DepthRegular(scopes, alias) else DepthNested(scopes, alias)
  }

  /** The lookup of a qualified name in one scope alone. */
  function LookupIn(s: Scope, ref: ColumnRef, d: int): Result<ColumnRef> {
    var alias, col := Lower(ref.tableName), Lower(ref.columnName);
    if alias in s.regular then
      if col in s.regular[alias].table.columns then Ok(RegularColumn(s.regular[alias], col, ref).(depth := d))
      else Err(CannotFindColumn)
    else if alias in s.nested then
      if col in s.nested[alias] then Ok(NestedColumn(s.nested[alias], alias, col, ref).(depth := d))
      else Err(CannotFindColumn)
    else Err(InvalidTableReference)
  }

  function LookupAt(scopes: seq<Scope>, ref: ColumnRef, d: int): Result<ColumnRef>
    requires d < |scopes|
  {
    if d < 0 then Err(InvalidTableReference) else LookupIn(scopes[|scopes| - 1 - d], ref, d)
  }

  /** A base table of the alias lies outside a derived table of the alias, and is taken in its place. */
  predicate Overrides(scopes: seq<Scope>, alias: string) {
    0 <= DepthRegular(scopes, alias) < DepthNested(scopes, alias)
  }

  /** For every reference, found or not, the scope consulted is the innermost one that has the alias,
      except exactly when that scope has it as a derived table and one further out as a base table. */
  lemma ConsultedIsInnermost(scopes: seq<Scope>, alias: string)
    requires forall i :: 0 <= i < |scopes| ==> Unambiguous(scopes[i])
    ensures DepthConsulted(scopes, alias) == DepthTaken(scopes, alias) <==> !Overrides(scopes, alias)
  {
    DepthTakenIs(scopes, alias);
  }

  /** The outcome is that of the scope consulted alone. */
  lemma QualifiedIsLookup(scopes: seq<Scope>, ref: ColumnRef)
    requires forall i :: 0 <= i < |scopes| ==> Unambiguous(scopes[i])
    ensures DepthConsulted(scopes, Lower(ref.tableName)) < |scopes|
    ensures Qualified(scopes, ref) == LookupAt(scopes, ref, DepthConsulted(scopes, Lower(ref.tableName)))
  {
    var alias := Lower(ref.tableName);
    if RegularIn(scopes, alias).Ok? {
      RegularAnchors(scopes, alias);
    } else if NestedIn(scopes, alias).Ok? {
      NestedAnchors(scopes, alias);
      var k := |scopes| - 1 - NestedIn(scopes, alias).value.1;
      assert Unambiguous(scopes[k]);
    }
  }

  /** Where a base table overrides, the innermost scope with the alias has the derived table only. */
  lemma InnermostIsNested(scopes: seq<Scope>, alias: string)
    requires forall i :: 0 <= i < |scopes| ==> Unambiguous(scopes[i])
    requires Overrides(scopes, alias)
    ensures
      var (columns, d) := NestedIn(scopes, alias).value;
      d == DepthTaken(scopes, alias) && 0 <= d < |scopes| &&
      var s := scopes[|scopes| - 1 - d];
      alias !in s.regular && alias in s.nested && s.nested[alias] == columns
  {
    DepthTakenIs(scopes, alias);
    NestedAnchors(scopes, alias);
    assert Unambiguous(scopes[|scopes| - 1 - DepthNested(scopes, alias)]);
  }

  /** For every reference, the outcome is that of the innermost scope with the alias, except exactly
      when a base table overrides the derived table there and either of the two has the column. */
  lemma QualifiedIsInnermost(scopes: seq<Scope>, ref: ColumnRef)
    requires forall i :: 0 <= i < |scopes| ==> Unambiguous(scopes[i])
    ensures
      var alias, col := Lower(ref.tableName), Lower(ref.columnName);
      Qualified(scopes, ref) == LookupAt(scopes, ref, DepthTaken(scopes, alias)) <==>
      !(Overrides(scopes, alias) &&
        (col in RegularIn(scopes, alias).value.0.table.columns || col in NestedIn(scopes, alias).value.0))
  {
    DepthTakenIs(scopes, Lower(ref.tableName));
    if Overrides(scopes, Lower(ref.tableName)) {
      InnermostIsNested(scopes, Lower(ref.tableName));
    } else {
      QualifiedIsLookup(scopes, ref);
    }
  }

  /** A derived table of the inner select is passed over for a base table of the outer one: the column
      both have is bound to the outer table, and a column only the inner one has is not found. */
  lemma OuterTableWins(ref: ColumnRef)
    requires Lower(ref.tableName) == "t"
    ensures
      var inner := Scope(map[], map["t" := map["a" := 1, "b" := 1]]);
      var outer := Scope(map["t" := Metadata(1, Table(7, map["a" := Column(3, 2)]))], map[]);
      var r := Qualified([inner, outer], ref);
      DepthTaken([inner, outer], "t") == 1 &&
      (Lower(ref.columnName) == "a" ==> r.Ok? && r.value.depth == 0) &&
      (Lower(ref.columnName) == "b" ==> r == Err(CannotFindColumn) && Owns(inner, Nested("t"), "b"))
  {
    var inner := Scope(map[], map["t" := map["a" := 1, "b" := 1]]);
    var outer := Scope(map["t" := Metadata(1, Table(7, map["a" := Column(3, 2)]))], map[]);
    assert [inner, outer][1..] == [outer];
    assert RegularIn([outer], "t").Ok?;
  }

  // ---------------------------------------------------------------------------
  // Every reference
  // ---------------------------------------------------------------------------

  /** What a column reference is bound to. One that already names a table by oid is left alone. */
  ghost function Bound(scopes: seq<Scope>, ref: ColumnRef): Result<ColumnRef> {
    if ref.tableOid != INVALID_OID then Ok(ref)
    else if ref.tableName == "" then Unqualified(scopes, ref)
    else Qualified(scopes, ref)
  }

  /** The depth of the reference names one of the scopes, and its table is there with that column. */
  ghost predicate Anchored(scopes: seq<Scope>, ref: ColumnRef) {
    0 <= ref.depth < |scopes| &&
    var s := scopes[|scopes| - 1 - ref.depth];
    var a := Lower(ref.tableName);
    (Owns(s, Regular(ref.tableName), ref.columnName) && FitsRegular(s, ref.tableName, ref)) ||
    (Owns(s, Regular(a), ref.columnName) && FitsRegular(s, a, ref)) ||
    (Owns(s, Nested(ref.tableName), ref.columnName) && s.nested[ref.tableName][ref.columnName] == ref.typeId)
  }

  predicate FitsRegular(s: Scope, alias: string, ref: ColumnRef)
    requires Owns(s, Regular(alias), ref.columnName)
  {
    var t := s.regular[alias];
    var c := t.table.columns[ref.columnName];
    ref.databaseOid == t.database && ref.tableOid == t.table.oid && ref.columnOid == c.oid && ref.typeId == c.typeId
  }

  lemma {:induction false} RegularAnchors(scopes: seq<Scope>, alias: string)
    requires RegularIn(scopes, alias).Ok?
    ensures
      var (t, d) := RegularIn(scopes, alias).value;
      0 <= d < |scopes| && alias in scopes[|scopes| - 1 - d].regular && scopes[|scopes| - 1 - d].regular[alias] == t
  {
    if alias !in scopes[0].regular {
      RegularAnchors(scopes[1..], alias);
    }
  }

  lemma {:induction false} NestedAnchors(scopes: seq<Scope>, alias: string)
    requires NestedIn(scopes, alias).Ok?
    ensures
      var (c, d) := NestedIn(scopes, alias).value;
      0 <= d < |scopes| && alias in scopes[|scopes| - 1 - d].nested && scopes[|scopes| - 1 - d].nested[alias] == c
  {
    if alias !in scopes[0].nested {
      NestedAnchors(scopes[1..], alias);
    }
  }

  lemma UnqualifiedIsAnchored(scopes: seq<Scope>, ref: ColumnRef)
    requires Unqualified(scopes, ref).Ok?
    ensures Anchored(scopes, Unqualified(scopes, ref).value)
  {
    var k := UnqualifiedExact(scopes, ref);
    var col := Lower(ref.columnName);
    var o :| Owns(scopes[k], o, col);
  }

  lemma QualifiedIsAnchored(scopes: seq<Scope>, ref: ColumnRef)
    requires Qualified(scopes, ref).Ok?
    ensures Anchored(scopes, Qualified(scopes, ref).value)
  {
    var alias := Lower(ref.tableName);
    if RegularIn(scopes, alias).Ok? {
      RegularAnchors(scopes, alias);
    } else {
      NestedAnchors(scopes, alias);
    }
  }

  /** Whatever is bound is anchored in the scopes it was bound in. */
  lemma BoundIsAnchored(scopes: seq<Scope>, ref: ColumnRef)
    requires Bound(scopes, ref).Ok? && ref.tableOid == INVALID_OID
    ensures Anchored(scopes, Bound(scopes, ref).value)
  {
    if ref.tableName == "" {
      UnqualifiedIsAnchored(scopes, ref);
    } else {
      QualifiedIsAnchored(scopes, ref);
    }
  }
}
