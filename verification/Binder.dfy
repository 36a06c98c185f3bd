/** The binder: contexts chained from the innermost select outwards, and the visitor that pushes and
    pops them while it binds a statement. */
module Binder {
  import opened Options
  import opened Scopes

  class ColumnValueExpression {
    var ref: ColumnRef

    constructor (ref: ColumnRef)
      ensures this.ref == ref
    {
      this.ref := ref;
    }
  }

  datatype Lookup = Found | Missing | Ambiguous | NoColumn

  /** What a lookup of an unqualified name amounts to for the caller. */
  function Outcome(r: Lookup, ref: ColumnRef): Result<ColumnRef> {
    match r
    case Found => Ok(ref)
    case Ambiguous => Err(AmbiguousColumn)
    case _ => Err(CannotFindColumn)
  }

  /** The scopes in view from a context, innermost first; none without one. */
  ghost function ScopesOf(c: BinderContext?): seq<Scope>
    requires c != null ==> c.Valid()
    reads if c == null then {} else {c} + c.above
  {
    if c == null then [] else c.Scopes()
  }

  class BinderContext {
    var regular: map<string, Metadata>
    var nested: map<string, map<string, TypeId>>
    const upper: BinderContext?
    const depth: nat
    /** The contexts around this one. */
    ghost const above: set<BinderContext>

    ghost predicate Valid()
      decreases depth
    {
      this !in above &&
      if upper == null then above == {} && depth == 0
      else above == {upper} + upper.above && depth == upper.depth + 1 && upper.Valid()
    }

    function Tables(): Scope
      reads this
    {
      Scope(regular, nested)
    }

    /** The tables in view, innermost scope first. */
    ghost function Scopes(): (scopes: seq<Scope>)
      requires Valid()
      reads this, above
      ensures |scopes| == depth + 1
      decreases depth
    {
      [Tables()] + if upper == null then [] else upper.Scopes()
    }

    /** The tables in view around this context. */
    ghost function Outer(): (scopes: seq<Scope>)
      requires Valid()
      reads above
      ensures |scopes| == depth && (upper != null ==> upper.Valid()) && scopes == ScopesOf(upper)
    {
      ScopesOf(upper)
    }

    constructor (upper: BinderContext?)
      requires upper != null ==> upper.Valid()
      ensures Valid() && this.upper == upper && fresh(this)
      ensures Tables() == Scope(map[], map[])
    {
      this.upper := upper;
      depth := if upper == null then 0 else upper.depth + 1;
      regular, nested := map[], map[];
      above := if upper == null then {} else {upper} + upper.above;
    }

    method AddRegularTable(a: Accessor, database: string, namespace: string, name: string, alias: string)
      returns (err: Result<()>)
      modifies this`regular
      ensures
        match WithRegular(old(Tables()), alias, TableNamed(a, database, namespace, name))
        case Ok(s) => err == Ok(()) && Tables() == s
        case Err(e) => err == Err(e) && Tables() == old(Tables())
    {
      if database !in a.databases {
        return Err(UnknownDatabase);
      }
      var table: Table;
      if namespace != "" {
        if namespace !in a.namespaces {
          return Err(UnknownNamespace);
        }
        if (a.namespaces[namespace], name) !in a.inNamespace {
          return Err(UnknownTable);
        }
        table := a.inNamespace[(a.namespaces[namespace], name)];
      } else {
        if name !in a.onPath {
          return Err(UnknownTable);
        }
        table := a.onPath[name];
      }
      if alias in nested || alias in regular {
        return Err(DuplicateAlias);
      }
      regular := regular[alias := Metadata(a.databases[database], table)];
      return Ok(());
    }

    /** A table that a statement is about to create, as its column definitions describe it. */
    method AddNewTable(name: string, definitions: seq<(string, TypeId)>) returns (err: Result<()>)
      modifies this`nested
      ensures
        match WithNested(old(Tables()), name, DefinedColumns(definitions))
        case Ok(s) => err == Ok(()) && Tables() == s
        case Err(e) => err == Err(e) && Tables() == old(Tables())
    {
      if name in regular || name in nested {
        return Err(DuplicateAlias);
      }
      var columns: map<string, TypeId> := map[];
      for i := 0 to |definitions|
        invariant columns == DefinedColumns(definitions[..i])
      {
        assert definitions[..i + 1][..i] == definitions[..i];
        columns := columns[definitions[i].0 := definitions[i].1];
      }
      assert definitions[..|definitions|] == definitions;
      nested := nested[name := columns];
      return Ok(());
    }

    method AddNestedTable(alias: string, items: seq<Item>) returns (err: Result<()>)
      modifies this`nested
      ensures
        match WithNested(old(Tables()), alias, NamedColumns(items))
        case Ok(s) => err == Ok(()) && Tables() == s
        case Err(e) => err == Err(e) && Tables() == old(Tables())
    {
      if alias in regular || alias in nested {
        return Err(DuplicateAlias);
      }
      var columns: map<string, TypeId> := map[];
      for i := 0 to |items|
        invariant columns == NamedColumns(items[..i])
      {
        assert items[..i + 1][..i] == items[..i];
        var item := items[i];
        var name := item.alias;
        if name == "" {
          if !item.expr.ColumnExpr? {
            continue;
          }
          name := item.expr.ref.columnName;
        }
        columns := columns[Lower(name) := TypeOf(item.expr)];
      }
      assert items[..|items|] == items;
      nested := nested[alias := columns];
      return Ok(());
    }

    /** Tries the tables of this context, in whatever order the maps yield them. */
    method SearchTables(col: string, expr: ColumnValueExpression) returns (r: Lookup, ghost owner: Owner)
      modifies expr
      ensures r == Missing ==> !OwnedIn(Tables(), col) && expr.ref == old(expr.ref)
      ensures r == Found ==> Owns(Tables(), owner, col) && !Contested(Tables(), col)
      ensures r == Found ==> expr.ref == BoundTo(Tables(), owner, col, old(expr.ref))
      ensures r == Ambiguous ==> Contested(Tables(), col)
      ensures r != NoColumn
    {
      ghost var s := Tables();
      var matched := false;
      owner := Regular("");
      var todo := regular.Keys;
      while todo != {}
        invariant todo <= regular.Keys
        invariant !matched ==> expr.ref == old(expr.ref)
        invariant matched ==> Owns(s, owner, col) && owner.Regular? && owner.alias !in todo
        invariant matched ==> expr.ref == BoundTo(s, owner, col, old(expr.ref))
        invariant forall a :: a in regular && a !in todo && Owns(s, Regular(a), col) ==> matched && owner == Regular(a)
        decreases todo
      {
        var alias :| alias in todo;
        todo := todo - {alias};
        if col in regular[alias].table.columns {
          if !matched {
            matched := true;
            owner := Regular(alias);
            BindColumn(col, regular[alias], expr);
            expr.ref := expr.ref.(tableName := alias);
          } else {
            assert Owns(s, Regular(alias), col);
            return Ambiguous, owner;
          }
        }
      }
      var names := nested.Keys;
      while names != {}
        invariant names <= nested.Keys
        invariant !matched ==> expr.ref == old(expr.ref)
        invariant matched ==> Owns(s, owner, col) && (owner.Nested? ==> owner.alias !in names)
        invariant matched ==> expr.ref == BoundTo(s, owner, col, old(expr.ref))
        invariant forall a :: a in regular && Owns(s, Regular(a), col) ==> matched && owner == Regular(a)
        invariant forall a :: a in nested && a !in names && Owns(s, Nested(a), col) ==> matched && owner == Nested(a)
        decreases names
      {
        var alias :| alias in names;
        names := names - {alias};
        if col in nested[alias] {
          if !matched {
            matched := true;
            owner := Nested(alias);
            expr.ref := expr.ref.(tableName := alias, typeId := nested[alias][col], columnName := col);
          } else {
            assert Owns(s, Nested(alias), col);
            return Ambiguous, owner;
          }
        }
      }
      assert forall o :: Owns(s, o, col) ==> matched && o == owner;
      r := if matched then Found else Missing;
    }

    /** Looks an unqualified name up, from this context outwards. */
    method SetColumnPosTuple(expr: ColumnValueExpression) returns (r: Lookup)
      requires Valid()
      modifies expr
      ensures Outcome(r, expr.ref) == Unqualified(Scopes(), old(expr.ref))
    {
      ghost var answer := Unqualified(Scopes(), expr.ref);
      var col := Lower(expr.ref.columnName);
      var current: BinderContext? := this;
      while current != null
        invariant current != null ==> current.Valid()
        invariant Unqualified(ScopesOf(current), old(expr.ref)) == answer
        invariant expr.ref == old(expr.ref)
        decreases if current == null then 0 else current.depth + 1
      {
        ghost var owner;
        r, owner := current.SearchTables(col, expr);
        if r == Ambiguous {
          UnqualifiedContested(current.Tables(), current.Outer(), old(expr.ref));
          return;
        }
        if r == Found {
          UnqualifiedSole(current.Tables(), current.Outer(), old(expr.ref), owner);
          expr.ref := expr.ref.(depth := current.depth);
          return;
        }
        UnqualifiedOutwards(current.Tables(), current.Outer(), old(expr.ref));
        current := current.upper;
      }
      return Missing;
    }

    /** Looks a base table up by its alias, from this context outwards. */
    method GetRegularTableObj(alias: string, expr: ColumnValueExpression) returns (found: bool, t: Metadata)
      requires Valid()
      modifies expr
      ensures
        match RegularIn(Scopes(), alias)
        case Ok((table, d)) => found && t == table && expr.ref == old(expr.ref).(depth := d)
        case Err(_) => !found && expr.ref == old(expr.ref)
    {
      var current: BinderContext? := this;
      while current != null
        invariant current != null ==> current.Valid()
        invariant RegularIn(ScopesOf(current), alias) == RegularIn(Scopes(), alias)
        invariant expr.ref == old(expr.ref)
        decreases if current == null then 0 else current.depth + 1
      {
        assert current.Scopes()[1..] == ScopesOf(current.upper);
        if alias in current.regular {
          expr.ref := expr.ref.(depth := current.depth);
          return true, current.regular[alias];
        }
        current := current.upper;
      }
      return false, Metadata(INVALID_OID, Table(INVALID_OID, map[]));
    }

    /** Looks a derived table up by its alias, from this context outwards, and binds its column. */
    method CheckNestedTableColumn(alias: string, col: string, expr: ColumnValueExpression) returns (r: Lookup)
      requires Valid()
      modifies expr
      ensures
        match NestedReference(Scopes(), alias, col, old(expr.ref))
        case Ok(ref) => r == Found && expr.ref == ref
        case Err(e) => r == if e == CannotFindColumn then NoColumn else Missing
    {
      var current: BinderContext? := this;
      while current != null
        invariant current != null ==> current.Valid()
        invariant NestedIn(ScopesOf(current), alias) == NestedIn(Scopes(), alias)
        invariant expr.ref == old(expr.ref)
        decreases if current == null then 0 else current.depth + 1
      {
        assert current.Scopes()[1..] == ScopesOf(current.upper);
        if alias in current.nested {
          if col !in current.nested[alias] {
            return NoColumn;
          }
          expr.ref := expr.ref.(typeId := current.nested[alias][col], depth := current.depth,
                                columnName := col, tableName := alias);
          return Found;
        }
        current := current.upper;
      }
      return Missing;
    }

    static method BindColumn(col: string, t: Metadata, expr: ColumnValueExpression)
      requires col in t.table.columns
      modifies expr
      ensures expr.ref == RegularColumn(t, col, old(expr.ref))
    {
      var c := t.table.columns[col];
      expr.ref := expr.ref.(databaseOid := t.database, tableOid := t.table.oid, columnOid := c.oid,
                            columnName := col, typeId := c.typeId);
    }
  }

  // ---------------------------------------------------------------------------
  // Statements
  // ---------------------------------------------------------------------------

  datatype Expr =
    | ColumnExpr(ref: ColumnRef)
    | Operator(typeId: TypeId, children: seq<Expr>)
    | Subquery(typeId: TypeId, select: Select)
    | Cast(typeId: TypeId, operand: Expr)
    | Case(typeId: TypeId, conditions: seq<Expr>, results: seq<Expr>)

  /** An entry of a select list. */
  datatype Item = Item(expr: Expr, alias: string)

  datatype TableRef =
    | BaseTable(database: string, namespace: string, name: string, alias: string)
    | DerivedTable(select: Select, alias: string)
    | Join(left: TableRef, right: TableRef, condition: Expr)
    | TableList(tables: seq<TableRef>)

  /** A select: its tables, the expressions of its other clauses in visiting order, its select list
      and the select it is in a union with, if any. */
  datatype Select = Select(from: seq<TableRef>, clauses: seq<Expr>, columns: seq<Item>, union: Option<Select>)

  function TypeOf(e: Expr): TypeId {
    match e
    case ColumnExpr(ref) => ref.typeId
    case _ => e.typeId
  }

  /** The columns of a table definition, the last of a name winning, as they are written. */
  function DefinedColumns(definitions: seq<(string, TypeId)>): map<string, TypeId> {
    if definitions == [] then map[]
    else
      var last := definitions[|definitions| - 1];
      DefinedColumns(definitions[..|definitions| - 1])[last.0 := last.1]
  }

  /** The columns a derived table offers: those with a name, the last of a name winning. */
  function NamedColumns(items: seq<Item>): map<string, TypeId> {
    if items == [] then map[]
    else
      var before, item := NamedColumns(items[..|items| - 1]), items[|items| - 1];
      if item.alias != "" then before[Lower(item.alias) := TypeOf(item.expr)]
      else if item.expr.ColumnExpr? then before[Lower(item.expr.ref.columnName) := TypeOf(item.expr)]
      else before
  }

  // ---------------------------------------------------------------------------
  // What binding a statement means
  // ---------------------------------------------------------------------------

  /** The catalog, and the database for tables that name none. */
  datatype Env = Env(accessor: Accessor, database: string)

  /** The operand of a cast, the results of a case and the other half of a union stay as they are. */
  ghost function BindExpr(env: Env, scopes: seq<Scope>, e: Expr): Result<Expr>
    decreases e
  {
    match e
    case ColumnExpr(ref) => var r := Bound(scopes, ref); if r.Ok? then Ok(ColumnExpr(r.value)) else Err(r.error)
    case Operator(typeId, children) =>
      var r := BindExprs(env, scopes, children);
      if r.Ok? then Ok(Operator(typeId, r.value)) else Err(r.error)
    case Subquery(typeId, select) =>
      var r := BindSelect(env, scopes, select);
      if r.Ok? then Ok(Subquery(typeId, r.value)) else Err(r.error)
    case Cast(_, _) => Ok(e)
    case Case(typeId, conditions, results) =>
      var r := BindExprs(env, scopes, conditions);
      if r.Ok? then Ok(Case(typeId, r.value, results)) else Err(r.error)
  }

  ghost function BindExprs(env: Env, scopes: seq<Scope>, es: seq<Expr>): Result<seq<Expr>>
    decreases es
  {
    if es == [] then Ok([])
    else
      var before := BindExprs(env, scopes, es[..|es| - 1]);
      if before.Err? then before
      else
        var last := BindExpr(env, scopes, es[|es| - 1]);
        if last.Ok? then Ok(before.value + [last.value]) else Err(last.error)
  }

  ghost function BindItems(env: Env, scopes: seq<Scope>, items: seq<Item>): Result<seq<Item>>
    decreases items
  {
    if items == [] then Ok([])
    else
      var before := BindItems(env, scopes, items[..|items| - 1]);
      if before.Err? then before
      else
        var item := items[|items| - 1];
        var last := BindExpr(env, scopes, item.expr);
        if last.Ok? then Ok(before.value + [Item(last.value, item.alias)]) else Err(last.error)
  }

  /** A table in a from clause, next to the tables of the clause already in scope s. */
  ghost function BindTable(env: Env, s: Scope, outer: seq<Scope>, t: TableRef): Result<(TableRef, Scope)>
    decreases t
  {
    match t
    case BaseTable(database, namespace, name, alias) =>
      var db := if database == "" then env.database else database;
      if name !in env.accessor.onPath then Err(UnknownTable)
      else
        var r := WithRegular(s, alias, TableNamed(env.accessor, db, namespace, name));
        if r.Ok? then Ok((t.(database := db), r.value)) else Err(r.error)
    case DerivedTable(select, alias) =>
      if alias == "" then Err(NoAlias)
      else
        var b := BindSelect(env, [s] + outer, select);
        if b.Err? then Err(b.error)
        else
          var r := WithNested(s, alias, NamedColumns(b.value.columns));
          if r.Ok? then Ok((DerivedTable(b.value, alias), r.value)) else Err(r.error)
    case Join(left, right, condition) =>
      var l := BindTable(env, s, outer, left);
      if l.Err? then l
      else
        var r := BindTable(env, l.value.1, outer, right);
        if r.Err? then r
        else
          var c := BindExpr(env, [r.value.1] + outer, condition);
          if c.Ok? then Ok((Join(l.value.0, r.value.0, c.value), r.value.1)) else Err(c.error)
    case TableList(tables) =>
      var r := BindTables(env, s, outer, tables);
      if r.Ok? then Ok((TableList(r.value.0), r.value.1)) else Err(r.error)
  }

  ghost function BindTables(env: Env, s: Scope, outer: seq<Scope>, ts: seq<TableRef>): Result<(seq<TableRef>, Scope)>
    decreases ts
  {
    if ts == [] then Ok(([], s))
    else
      var before := BindTables(env, s, outer, ts[..|ts| - 1]);
      if before.Err? then before
      else
        var last := BindTable(env, before.value.1, outer, ts[|ts| - 1]);
        if last.Ok? then Ok((before.value.0 + [last.value.0], last.value.1)) else Err(last.error)
  }

  ghost function BindSelect(env: Env, outer: seq<Scope>, select: Select): Result<Select>
    decreases select
  {
    var from := BindTables(env, Scope(map[], map[]), outer, select.from);
    if from.Err? then Err(from.error)
    else
      var scopes := [from.value.1] + outer;
      var clauses := BindExprs(env, scopes, select.clauses);
      if clauses.Err? then Err(clauses.error)
      else
        var columns := BindItems(env, scopes, select.columns);
        if columns.Err? then Err(columns.error)
        else Ok(Select(from.value.0, clauses.value, columns.value, select.union))
  }

  lemma {:induction false} ExprsFail(env: Env, scopes: seq<Scope>, es: seq<Expr>, i: nat)
    requires i <= |es| && BindExprs(env, scopes, es[..i]).Err?
    ensures BindExprs(env, scopes, es) == BindExprs(env, scopes, es[..i])
    decreases |es|
  {
    if i == |es| {
      assert es[..i] == es;
    } else {
      assert es[..|es| - 1][..i] == es[..i];
      ExprsFail(env, scopes, es[..|es| - 1], i);
    }
  }

  lemma {:induction false} ItemsFail(env: Env, scopes: seq<Scope>, items: seq<Item>, i: nat)
    requires i <= |items| && BindItems(env, scopes, items[..i]).Err?
    ensures BindItems(env, scopes, items) == BindItems(env, scopes, items[..i])
    decreases |items|
  {
    if i == |items| {
      assert items[..i] == items;
    } else {
      assert items[..|items| - 1][..i] == items[..i];
      ItemsFail(env, scopes, items[..|items| - 1], i);
    }
  }

  lemma {:induction false} TablesFail(env: Env, s: Scope, outer: seq<Scope>, ts: seq<TableRef>, i: nat)
    requires i <= |ts| && BindTables(env, s, outer, ts[..i]).Err?
    ensures BindTables(env, s, outer, ts) == BindTables(env, s, outer, ts[..i])
    decreases |ts|
  {
    if i == |ts| {
      assert ts[..i] == ts;
    } else {
      assert ts[..|ts| - 1][..i] == ts[..i];
      TablesFail(env, s, outer, ts[..|ts| - 1], i);
    }
  }

  // ---------------------------------------------------------------------------
  // The visitor
  // ---------------------------------------------------------------------------

  class BindNodeVisitor {
    const env: Env
    var context: BinderContext?

    ghost predicate Ready()
      reads this
    {
      context != null ==> context.Valid()
    }

    constructor (env: Env)
      ensures this.env == env && context == null
    {
      this.env := env;
      context := null;
    }

    method VisitColumn(ref: ColumnRef) returns (r: Result<ColumnRef>)
      requires Ready()
      ensures r == Bound(ScopesOf(context), ref)
    {
      if ref.tableOid != INVALID_OID {
        return Ok(ref);
      }
      var expr := new ColumnValueExpression(ref);
      var tableName, col := Lower(ref.tableName), Lower(ref.columnName);
      if tableName == "" {
        if context == null {
          return Err(CannotFindColumn);
        }
        var found := context.SetColumnPosTuple(expr);
        return Outcome(found, expr.ref);
      }
      if context == null {
        return Err(InvalidTableReference);
      }
      var found, t := context.GetRegularTableObj(tableName, expr);
      if found {
        if col !in t.table.columns {
          return Err(CannotFindColumn);
        }
        BinderContext.BindColumn(col, t, expr);
        return Ok(expr.ref);
      }
      var nested := context.CheckNestedTableColumn(tableName, col, expr);
      if nested == NoColumn {
        return Err(CannotFindColumn);
      }
      return if nested == Found then Ok(expr.ref) else Err(InvalidTableReference);
    }

    method VisitExpr(e: Expr) returns (r: Result<Expr>)
      requires Ready()
      modifies this`context
      ensures r == BindExpr(env, old(ScopesOf(context)), e)
      ensures r.Ok? ==> context == old(context)
      decreases e
    {
      match e
      case ColumnExpr(ref) =>
        var b := VisitColumn(ref);
        r := if b.Ok? then Ok(ColumnExpr(b.value)) else Err(b.error);
      case Operator(typeId, children) =>
        var b := VisitExprs(children);
        r := if b.Ok? then Ok(Operator(typeId, b.value)) else Err(b.error);
      case Subquery(typeId, select) =>
        var b := VisitSelect(select);
        r := if b.Ok? then Ok(Subquery(typeId, b.value)) else Err(b.error);
      case Cast(_, _) =>
        r := Ok(e);
      case Case(typeId, conditions, results) =>
        var b := VisitExprs(conditions);
        r := if b.Ok? then Ok(Case(typeId, b.value, results)) else Err(b.error);
    }

    method VisitExprs(es: seq<Expr>) returns (r: Result<seq<Expr>>)
      requires Ready()
      modifies this`context
      ensures r == BindExprs(env, old(ScopesOf(context)), es)
      ensures r.Ok? ==> context == old(context)
      decreases es
    {
      ghost var scopes := ScopesOf(context);
      var done := [];
      for i := 0 to |es|
        invariant context == old(context)
        invariant BindExprs(env, scopes, es[..i]) == Ok(done)
      {
        assert es[..i + 1][..i] == es[..i];
        var b := VisitExpr(es[i]);
        if b.Err? {
          ExprsFail(env, scopes, es, i + 1);
          return Err(b.error);
        }
        done := done + [b.value];
      }
      assert es[..|es|] == es;
      return Ok(done);
    }

    method VisitItems(items: seq<Item>) returns (r: Result<seq<Item>>)
      requires Ready()
      modifies this`context
      ensures r == BindItems(env, old(ScopesOf(context)), items)
      ensures r.Ok? ==> context == old(context)
      decreases items
    {
      ghost var scopes := ScopesOf(context);
      var done := [];
      for i := 0 to |items|
        invariant context == old(context)
        invariant BindItems(env, scopes, items[..i]) == Ok(done)
      {
        assert items[..i + 1][..i] == items[..i];
        var b := VisitExpr(items[i].expr);
        if b.Err? {
          ItemsFail(env, scopes, items, i + 1);
          return Err(b.error);
        }
        done := done + [Item(b.value, items[i].alias)];
      }
      assert items[..|items|] == items;
      return Ok(done);
    }

    method VisitTable(t: TableRef) returns (r: Result<TableRef>)
      requires context != null && context.Valid()
      modifies this`context, context
      ensures
        match BindTable(env, old(context.Tables()), old(context.Outer()), t)
        case Ok(b) =>
          r == Ok(b.0) && context == old(context) && context.Tables() == b.1 && context.Outer() == old(context.Outer())
        case Err(e) => r == Err(e)
      decreases t
    {
      match t
      case BaseTable(database, namespace, name, alias) =>
        var db := if database == "" then env.database else database;
        if name !in env.accessor.onPath {
          return Err(UnknownTable);
        }
        var err := context.AddRegularTable(env.accessor, db, namespace, name, alias);
        r := if err.Ok? then Ok(t.(database := db)) else Err(err.error);
      case DerivedTable(select, alias) =>
        if alias == "" {
          return Err(NoAlias);
        }
        var previous := context;
        var b := VisitSelect(select);
        if b.Err? {
          return Err(b.error);
        }
        context := previous;
        var err := context.AddNestedTable(alias, b.value.columns);
        r := if err.Ok? then Ok(DerivedTable(b.value, alias)) else Err(err.error);
      case Join(left, right, condition) =>
        var l := VisitTable(left);
        if l.Err? {
          return l;
        }
        var rt := VisitTable(right);
        if rt.Err? {
          return rt;
        }
        var c := VisitExpr(condition);
        r := if c.Ok? then Ok(Join(l.value, rt.value, c.value)) else Err(c.error);
      case TableList(tables) =>
        var b := VisitTables(tables);
        r := if b.Ok? then Ok(TableList(b.value)) else Err(b.error);
    }

    method VisitTables(ts: seq<TableRef>) returns (r: Result<seq<TableRef>>)
      requires context != null && context.Valid()
      modifies this`context, context
      ensures
        match BindTables(env, old(context.Tables()), old(context.Outer()), ts)
        case Ok(b) =>
          r == Ok(b.0) && context == old(context) && context.Tables() == b.1 && context.Outer() == old(context.Outer())
        case Err(e) => r == Err(e)
      decreases ts
    {
      ghost var s, outer := context.Tables(), context.Outer();
      var done := [];
      for i := 0 to |ts|
        invariant context == old(context) && context.Outer() == outer
        invariant BindTables(env, s, outer, ts[..i]) == Ok((done, context.Tables()))
      {
        assert ts[..i + 1][..i] == ts[..i];
        var b := VisitTable(ts[i]);
        if b.Err? {
          TablesFail(env, s, outer, ts, i + 1);
          return Err(b.error);
        }
        done := done + [b.value];
      }
      assert ts[..|ts|] == ts;
      return Ok(done);
    }

    /** Binds a select in a context of its own, and leaves the context as it was. */
    method VisitSelect(select: Select) returns (r: Result<Select>)
      requires Ready()
      modifies this`context
      ensures r == BindSelect(env, old(ScopesOf(context)), select)
      ensures r.Ok? ==> context == old(context)
      decreases select
    {
      context := new BinderContext(context);
      var from := VisitTables(select.from);
      if from.Err? {
        return Err(from.error);
      }
      var clauses := VisitExprs(select.clauses);
      if clauses.Err? {
        return Err(clauses.error);
      }
      var columns := VisitItems(select.columns);
      if columns.Err? {
        return Err(columns.error);
      }
      context := context.upper;
      return Ok(Select(from.value, clauses.value, columns.value, select.union));
    }
  }
}
