/** Which properties a join may ask of its children, and when asking the probe side for the sort order
    gives a sorted result. */
module JoinProperties {
  import opened Plans
  import opened MemoTable

  /** A column, by table alias and name. */
  datatype ColumnName = ColumnName(alias: string, name: string)

  type Row = map<ColumnName, int>

  /** What an expression computes from its parts. An operator has them as its children. A case and a
      subquery have no children: the conditions, results and default of a case, and the expressions of
      the enclosing select that a subquery reads, are kept apart. */
  datatype Kind = Operator(op: nat) | CaseWhen | Subquery(id: nat)

  /** A sort expression. The parts of a case are its conditions and results in turn, then the default. */
  datatype Expr =
    | ColumnValue(column: ColumnName)
    | Compound(kind: Kind, parts: seq<Expr>)

  datatype SortColumn = SortColumn(expr: Expr, ascending: bool)

  /** The one kind of property: an order. */
  datatype Property = Sort(columns: seq<SortColumn>)

  type PropertySet = seq<Property>

  /** What the join provides, and what it then asks of its two children. */
  datatype Choice = Choice(provided: PropertySet, left: PropertySet, right: PropertySet)

  // ---------------------------------------------------------------------------
  // Deriving the choices
  // ---------------------------------------------------------------------------

  /** The columns an expression reads. */
  function Columns(e: Expr): set<ColumnName>
    decreases e
  {
    match e
    case ColumnValue(c) => {c}
    case Compound(_, parts) => set i, c | 0 <= i < |parts| && c in Columns(parts[i]) :: c
  }

  /** The columns that the walk over an expression and its children collects. */
  function Collected(e: Expr): set<ColumnName>
    decreases e
  {
    match e
    case ColumnValue(c) => {c}
    case Compound(kind, parts) =>
      if kind.Operator? then set i, c | 0 <= i < |parts| && c in Collected(parts[i]) :: c else {}
  }

  /** Every column that the order reads belongs to the tables named. */
  ghost predicate Within(p: Property, aliases: set<string>) {
    forall i, c :: 0 <= i < |p.columns| && c in Columns(p.columns[i].expr) ==> c.alias in aliases
  }

  /** The test of the code: every column that is collected does. */
  ghost predicate Passes(p: Property, aliases: set<string>) {
    forall i, c :: 0 <= i < |p.columns| && c in Collected(p.columns[i].expr) ==> c.alias in aliases
  }

  ghost function HowMany(req: PropertySet, aliases: set<string>): nat {
    if req == [] then 0
    else HowMany(req[..|req| - 1], aliases) + if Passes(req[|req| - 1], aliases) then 1 else 0
  }

  /** Nothing provided and nothing asked; and once for every order that passes the test, all
      that is required provided, and asked of the probe side. */
  ghost function Choices(req: PropertySet, aliases: set<string>): seq<Choice> {
    [Choice([], [], [])] + seq(HowMany(req, aliases), _ => Choice(req, [], req))
  }

  method DeriveForJoin(groups: seq<Group>, gexpr: GroupExpr, requirements: PropertySet) returns (output: seq<Choice>)
    requires |gexpr.children| == 2 && gexpr.children[1] < |groups|
    ensures output == Choices(requirements, groups[gexpr.children[1]].aliases)
  {
    output := [Choice([], [], [])];
    for p := 0 to |requirements|
      invariant output == [Choice([], [], [])] +
        seq(HowMany(requirements[..p], groups[gexpr.children[1]].aliases), _ => Choice(requirements, [], requirements))
    {
      assert requirements[..p + 1][..p] == requirements[..p];
      var canPassDown := CanPassDown(requirements[p], groups[gexpr.children[1]]);
      if canPassDown {
        output := output + [Choice(requirements, [], requirements)];
      }
    }
    assert requirements[..|requirements|] == requirements;
  }

  method CanPassDown(p: Property, probe: Group) returns (canPassDown: bool)
    ensures canPassDown <==> Passes(p, probe.aliases)
  {
    for i := 0 to |p.columns|
      invariant forall k, c :: 0 <= k < i && c in Collected(p.columns[k].expr) ==> c.alias in probe.aliases
    {
      var tuples := Collected(p.columns[i].expr);
      while tuples != {}
        invariant tuples <= Collected(p.columns[i].expr)
        invariant forall c :: c in Collected(p.columns[i].expr) - tuples ==> c.alias in probe.aliases
        decreases tuples
      {
        var c :| c in tuples;
        if c.alias !in probe.aliases {
          return false;
        }
        tuples := tuples - {c};
      }
    }
    return true;
  }

  // ---------------------------------------------------------------------------
  // Orders
  // ---------------------------------------------------------------------------

  /** What the kinds of expressions compute from the values of their parts. */
  type Meaning = (Kind, seq<int>) -> int

  function Eval(m: Meaning, e: Expr, row: Row): int
    decreases e
  {
    match e
    case ColumnValue(c) => if c in row then row[c] else 0
    case Compound(kind, parts) => m(kind, seq(|parts|, i requires 0 <= i < |parts| => Eval(m, parts[i], row)))
  }

  /** The first row may come before the second. */
  function InOrder(m: Meaning, columns: seq<SortColumn>, a: Row, b: Row): bool {
    if columns == [] then true
    else
      var x, y := Eval(m, columns[0].expr, a), Eval(m, columns[0].expr, b);
      if x == y then InOrder(m, columns[1..], a, b) else x < y <==> columns[0].ascending
  }

  ghost predicate Sorted(m: Meaning, rows: seq<Row>, p: Property) {
    forall i, j :: 0 <= i < j < |rows| ==> InOrder(m, p.columns, rows[i], rows[j])
  }

  /** The rows have every order in the set. */
  ghost predicate Satisfies(m: Meaning, rows: seq<Row>, req: PropertySet) {
    forall k :: 0 <= k < |req| ==> Sorted(m, rows, req[k])
  }

  // ---------------------------------------------------------------------------
  // A join that streams its probe side
  // ---------------------------------------------------------------------------

  function Matching(left: seq<Row>, r: Row, on: (Row, Row) -> bool): seq<Row> {
    if left == [] then []
    else
      var before, l := Matching(left[..|left| - 1], r, on), left[|left| - 1];
      if on(l, r) then before + [l + r] else before
  }

  function StreamJoin(left: seq<Row>, right: seq<Row>, on: (Row, Row) -> bool): seq<Row> {
    if right == [] then []
    else StreamJoin(left, right[..|right| - 1], on) + Matching(left, right[|right| - 1], on)
  }

  /** No row has a column of the tables named. */
  ghost predicate Clear(rows: seq<Row>, aliases: set<string>) {
    forall i, c :: 0 <= i < |rows| && c in rows[i] ==> c.alias !in aliases
  }

  lemma {:induction false} EvalOfMerged(m: Meaning, e: Expr, l: Row, r: Row, aliases: set<string>)
    requires forall c :: c in Columns(e) ==> c.alias in aliases
    requires Clear([l], aliases)
    ensures Eval(m, e, l + r) == Eval(m, e, r)
    decreases e
  {
    match e
    case ColumnValue(c) => assert c in Columns(e) && [l][0] == l;
    case Compound(kind, parts) =>
      forall i | 0 <= i < |parts| ensures Eval(m, parts[i], l + r) == Eval(m, parts[i], r) {
        EvalOfMerged(m, parts[i], l, r, aliases);
      }
      assert seq(|parts|, i requires 0 <= i < |parts| => Eval(m, parts[i], l + r)) ==
             seq(|parts|, i requires 0 <= i < |parts| => Eval(m, parts[i], r));
  }

  /** Rows that agree with the two on every sort expression are in order if those are. */
  lemma {:induction false} InOrderSame(m: Meaning, columns: seq<SortColumn>, a: Row, b: Row, a': Row, b': Row)
    requires forall i :: 0 <= i < |columns| ==> Eval(m, columns[i].expr, a) == Eval(m, columns[i].expr, a')
    requires forall i :: 0 <= i < |columns| ==> Eval(m, columns[i].expr, b) == Eval(m, columns[i].expr, b')
    ensures InOrder(m, columns, a, b) == InOrder(m, columns, a', b')
  {
    if columns != [] {
      InOrderSame(m, columns[1..], a, b, a', b');
    }
  }

  lemma {:induction false} InOrderReflexive(m: Meaning, columns: seq<SortColumn>, a: Row)
    ensures InOrder(m, columns, a, a)
  {
    if columns != [] {
      InOrderReflexive(m, columns[1..], a);
    }
  }

  /** The sort expressions have the values they have on the probe row, whatever row of other tables it
      is joined with. */
  ghost predicate Independent(m: Meaning, p: Property, aliases: set<string>) {
    forall i, l: Row, r: Row :: 0 <= i < |p.columns| && Clear([l], aliases) ==>
      Eval(m, p.columns[i].expr, l + r) == Eval(m, p.columns[i].expr, r)
  }

  lemma WithinIsIndependent(m: Meaning, p: Property, aliases: set<string>)
    requires Within(p, aliases)
    ensures Independent(m, p, aliases)
  {
    forall i, l: Row, r: Row | 0 <= i < |p.columns| && Clear([l], aliases)
      ensures Eval(m, p.columns[i].expr, l + r) == Eval(m, p.columns[i].expr, r)
    {
      EvalOfMerged(m, p.columns[i].expr, l, r, aliases);
    }
  }

  /** Every row of the result has the values of the probe row it came from. */
  ghost predicate Carries(m: Meaning, p: Property, row: Row, r: Row) {
    forall i :: 0 <= i < |p.columns| ==> Eval(m, p.columns[i].expr, row) == Eval(m, p.columns[i].expr, r)
  }

  lemma {:induction false} MatchingCarries(m: Meaning, p: Property, left: seq<Row>, r: Row, on: (Row, Row) -> bool, aliases: set<string>)
    requires Independent(m, p, aliases) && Clear(left, aliases)
    ensures forall i :: 0 <= i < |Matching(left, r, on)| ==> Carries(m, p, Matching(left, r, on)[i], r)
  {
    if left != [] {
      var l := left[|left| - 1];
      MatchingCarries(m, p, left[..|left| - 1], r, on, aliases);
      assert Clear([l], aliases);
      assert Carries(m, p, l + r, r);
    }
  }

  /** Where in the probe side a row of the result came from. */
  lemma {:induction false} Origin(m: Meaning, p: Property, left: seq<Row>, right: seq<Row>, on: (Row, Row) -> bool, aliases: set<string>, i: nat)
    returns (k: nat)
    requires Independent(m, p, aliases) && Clear(left, aliases) && i < |StreamJoin(left, right, on)|
    ensures k < |right| && Carries(m, p, StreamJoin(left, right, on)[i], right[k])
    decreases |right|
  {
    var front := right[..|right| - 1];
    if i < |StreamJoin(left, front, on)| {
      k := Origin(m, p, left, front, on, aliases, i);
    } else {
      k := |right| - 1;
      MatchingCarries(m, p, left, right[k], on, aliases);
    }
  }

  /** Streaming the probe side in an order that depends on nothing else gives a result in that order. */
  lemma {:induction false} StreamKeepsOrder(m: Meaning, p: Property, left: seq<Row>, right: seq<Row>, on: (Row, Row) -> bool, aliases: set<string>)
    requires Independent(m, p, aliases) && Clear(left, aliases) && Sorted(m, right, p)
    ensures Sorted(m, StreamJoin(left, right, on), p)
    decreases |right|
  {
    if right != [] {
      var n := |right| - 1;
      var front := right[..n];
      StreamKeepsOrder(m, p, left, front, on, aliases);
      MatchingCarries(m, p, left, right[n], on, aliases);
      var out, done := StreamJoin(left, right, on), |StreamJoin(left, front, on)|;
      forall i, j | 0 <= i < j < |out| && j >= done ensures InOrder(m, p.columns, out[i], out[j]) {
        assert Carries(m, p, out[j], right[n]);
        if i < done {
          var k := Origin(m, p, left, front, on, aliases, i);
          InOrderSame(m, p.columns, out[i], out[j], right[k], right[n]);
        } else {
          assert Carries(m, p, out[i], right[n]);
          InOrderSame(m, p.columns, out[i], out[j], right[n], right[n]);
          InOrderReflexive(m, p.columns, right[n]);
        }
      }
    }
  }

  // ---------------------------------------------------------------------------
  // When the choice to push down is right
  // ---------------------------------------------------------------------------

  /** Whatever the inputs, a probe side that has what it was asked for gives what is provided. */
  ghost predicate Sound(m: Meaning, c: Choice, aliases: set<string>) {
    forall left, right, on ::
      Clear(left, aliases) && Satisfies(m, right, c.right) ==> Satisfies(m, StreamJoin(left, right, on), c.provided)
  }

  lemma IndependentIsSound(m: Meaning, req: PropertySet, aliases: set<string>)
    requires forall k :: 0 <= k < |req| ==> Independent(m, req[k], aliases)
    ensures Sound(m, Choice(req, [], req), aliases)
  {
    forall left: seq<Row>, right: seq<Row>, on: (Row, Row) -> bool | Clear(left, aliases) && Satisfies(m, right, req)
      ensures Satisfies(m, StreamJoin(left, right, on), req)
    {
      forall k | 0 <= k < |req| ensures Sorted(m, StreamJoin(left, right, on), req[k]) {
        StreamKeepsOrder(m, req[k], left, right, on, aliases);
      }
    }
  }

  predicate Always(l: Row, r: Row) {
    true
  }

  lemma JoinOfTwo(a: Row, b: Row, r: Row)
    ensures StreamJoin([a, b], [r], Always) == [a + r, b + r]
  {
    assert [a, b][..1] == [a] && [a][..0] == [];
    assert Matching([a], r, Always) == [a + r];
    assert Matching([a, b], r, Always) == [a + r, b + r];
    assert [r][..0] == [];
  }

  /** Two rows that may come in either order agree on every sort expression. */
  lemma {:induction false} EitherOrder(m: Meaning, columns: seq<SortColumn>, a: Row, b: Row, i: nat)
    requires InOrder(m, columns, a, b) && InOrder(m, columns, b, a) && i < |columns|
    ensures Eval(m, columns[i].expr, a) == Eval(m, columns[i].expr, b)
  {
    if i > 0 {
      EitherOrder(m, columns[1..], a, b, i - 1);
    }
  }

  /** One probe row, joined with two rows of other tables: a result in order either way round. */
  lemma SoundGivesOrder(m: Meaning, req: PropertySet, aliases: set<string>, n: nat, a: Row, b: Row, r: Row)
    requires Sound(m, Choice(req, [], req), aliases) && n < |req| && Clear([a, b], aliases)
    ensures InOrder(m, req[n].columns, a + r, b + r)
  {
    JoinOfTwo(a, b, r);
    assert Satisfies(m, [r], req);
    var out := StreamJoin([a, b], [r], Always);
    assert Sorted(m, out, req[n]);
    assert InOrder(m, req[n].columns, out[0], out[1]);
  }

  lemma SoundIsIndependent(m: Meaning, req: PropertySet, aliases: set<string>, n: nat)
    requires Sound(m, Choice(req, [], req), aliases) && n < |req|
    ensures Independent(m, req[n], aliases)
  {
    var none: Row := map[];
    forall i, l: Row, r: Row | 0 <= i < |req[n].columns| && Clear([l], aliases)
      ensures Eval(m, req[n].columns[i].expr, l + r) == Eval(m, req[n].columns[i].expr, r)
    {
      assert [l][0] == l;
      SoundGivesOrder(m, req, aliases, n, l, none, r);
      SoundGivesOrder(m, req, aliases, n, none, l, r);
      assert none + r == r;
      EitherOrder(m, req[n].columns, l + r, r, i);
    }
  }

  /** With given meanings, asking the probe side for all the required orders is right exactly when each
      of them has the values of the probe side. */
  lemma SoundExactly(m: Meaning, req: PropertySet, aliases: set<string>)
    ensures Sound(m, Choice(req, [], req), aliases) <==> forall k :: 0 <= k < |req| ==> Independent(m, req[k], aliases)
  {
    if Sound(m, Choice(req, [], req), aliases) {
      forall k | 0 <= k < |req| ensures Independent(m, req[k], aliases) {
        SoundIsIndependent(m, req, aliases, k);
      }
    } else if forall k :: 0 <= k < |req| ==> Independent(m, req[k], aliases) {
      IndependentIsSound(m, req, aliases);
    }
  }

  /** Right whatever the kinds of expressions mean. */
  ghost predicate AlwaysSound(c: Choice, aliases: set<string>) {
    forall m: Meaning :: Sound(m, c, aliases)
  }

  // The meaning that tells which columns are read: everything is a sum.

  function Total(values: seq<int>): int {
    if values == [] then 0 else values[0] + Total(values[1..])
  }

  function SumOfParts(kind: Kind, values: seq<int>): int {
    Total(values)
  }

  lemma {:induction false} TotalAtLeast(values: seq<int>, least: int)
    requires forall i :: 0 <= i < |values| ==> values[i] >= 0
    requires least <= 0 || exists i :: 0 <= i < |values| && values[i] >= least
    ensures Total(values) >= 0 && Total(values) >= least
  {
    if values != [] {
      TotalAtLeast(values[1..], 0);
      if least > 0 && values[0] < least {
        var i :| 0 <= i < |values| && values[i] >= least;
        assert values[1..][i - 1] == values[i];
        TotalAtLeast(values[1..], least);
      }
    }
  }

  lemma {:induction false} TotalOfNothing(values: seq<int>)
    requires forall i :: 0 <= i < |values| ==> values[i] == 0
    ensures Total(values) == 0
  {
    if values != [] {
      TotalOfNothing(values[1..]);
    }
  }

  lemma {:induction false} SumOfEmptyRow(e: Expr)
    ensures Eval(SumOfParts, e, map[]) == 0
    decreases e
  {
    if e.Compound? {
      forall i | 0 <= i < |e.parts| ensures Eval(SumOfParts, e.parts[i], map[]) == 0 {
        SumOfEmptyRow(e.parts[i]);
      }
      TotalOfNothing(seq(|e.parts|, i requires 0 <= i < |e.parts| => Eval(SumOfParts, e.parts[i], map[])));
    }
  }

  /** A column shows in the sum exactly when it is read. */
  lemma {:induction false} SumOfOneColumn(e: Expr, c: ColumnName)
    ensures Eval(SumOfParts, e, map[c := 1]) >= if c in Columns(e) then 1 else 0
    decreases e
  {
    if e.Compound? {
      var values := seq(|e.parts|, i requires 0 <= i < |e.parts| => Eval(SumOfParts, e.parts[i], map[c := 1]));
      forall i | 0 <= i < |e.parts| ensures values[i] >= if c in Columns(e.parts[i]) then 1 else 0 {
        SumOfOneColumn(e.parts[i], c);
      }
      if c in Columns(e) {
        var i :| 0 <= i < |e.parts| && c in Columns(e.parts[i]);
        assert values[i] >= 1;
      }
      TotalAtLeast(values, if c in Columns(e) then 1 else 0);
    }
  }

  lemma IndependentSumIsWithin(p: Property, aliases: set<string>)
    requires Independent(SumOfParts, p, aliases)
    ensures Within(p, aliases)
  {
    forall i, c | 0 <= i < |p.columns| && c in Columns(p.columns[i].expr) ensures c.alias in aliases {
      var e, l: Row, r: Row := p.columns[i].expr, map[c := 1], map[];
      SumOfOneColumn(e, c);
      SumOfEmptyRow(e);
      assert l + r == l;
      assert Clear([l], aliases) ==> Eval(SumOfParts, e, l + r) == Eval(SumOfParts, e, r);
    }
  }

  /** Asking the probe side for all the required orders is right, whatever their expressions compute,
      exactly when every column that one of them reads belongs to the probe side. */
  lemma PushDownExact(req: PropertySet, aliases: set<string>)
    ensures AlwaysSound(Choice(req, [], req), aliases) <==> forall k :: 0 <= k < |req| ==> Within(req[k], aliases)
  {
    if AlwaysSound(Choice(req, [], req), aliases) {
      SoundExactly(SumOfParts, req, aliases);
      forall k | 0 <= k < |req| ensures Within(req[k], aliases) {
        IndependentSumIsWithin(req[k], aliases);
      }
    } else if forall k :: 0 <= k < |req| ==> Within(req[k], aliases) {
      forall m: Meaning ensures Sound(m, Choice(req, [], req), aliases) {
        forall k | 0 <= k < |req| ensures Independent(m, req[k], aliases) {
          WithinIsIndependent(m, req[k], aliases);
        }
        IndependentIsSound(m, req, aliases);
      }
    }
  }

  // ---------------------------------------------------------------------------
  // When every choice offered is right
  // ---------------------------------------------------------------------------

  lemma {:induction false} HowManyPositive(req: PropertySet, aliases: set<string>)
    ensures HowMany(req, aliases) > 0 <==> exists k :: 0 <= k < |req| && Passes(req[k], aliases)
  {
    if req != [] {
      var front := req[..|req| - 1];
      HowManyPositive(front, aliases);
      assert forall k :: 0 <= k < |front| ==> front[k] == req[k];
    }
  }

  /** The push-down is offered exactly when some required order passes the test. */
  lemma OfferedExact(req: PropertySet, aliases: set<string>)
    ensures Choice(req, [], req) in Choices(req, aliases)[1..] <==>
            exists k :: 0 <= k < |req| && Passes(req[k], aliases)
  {
    HowManyPositive(req, aliases);
    var offers := Choices(req, aliases)[1..];
    assert |offers| == HowMany(req, aliases);
    assert |offers| > 0 ==> offers[0] == Choice(req, [], req);
  }

  ghost predicate AllRight(req: PropertySet, aliases: set<string>) {
    forall c :: c in Choices(req, aliases) ==> AlwaysSound(c, aliases)
  }

  /** Every choice offered is right exactly when no required order passes the test, or every column that
      any of them reads belongs to the probe side. The aliases of the probe group are those of the base
      tables below it, and the build side has none of them. */
  lemma OffersExact(groups: seq<Group>, creators: seq<GroupExpr>, gexpr: GroupExpr, req: PropertySet)
    requires AliasInv(groups, creators)
    requires |gexpr.children| == 2 && gexpr.children[1] < |groups|
    ensures var aliases := groups[gexpr.children[1]].aliases;
      && aliases == BaseAliases(creators, gexpr.children[1])
      && (AllRight(req, aliases) <==>
          ((exists k :: 0 <= k < |req| && Passes(req[k], aliases)) ==> forall k :: 0 <= k < |req| ==> Within(req[k], aliases)))
  {
    AllRightExact(req, groups[gexpr.children[1]].aliases);
  }

  lemma AllRightExact(req: PropertySet, aliases: set<string>)
    ensures AllRight(req, aliases) <==>
            ((exists k :: 0 <= k < |req| && Passes(req[k], aliases)) ==> forall k :: 0 <= k < |req| ==> Within(req[k], aliases))
  {
    var nothing, pushed := Choice([], [], []), Choice(req, [], req);
    var choices := Choices(req, aliases);
    OfferedExact(req, aliases);
    PushDownExact(req, aliases);
    PushDownExact([], aliases);
    assert forall c :: c in choices ==> c == nothing || c in choices[1..];
    assert forall c :: c in choices[1..] ==> c == pushed && c in choices;
  }

  /** The tables whose columns are collected. */
  ghost function CollectedAliases(p: Property): set<string> {
    set i, c | 0 <= i < |p.columns| && c in Collected(p.columns[i].expr) :: c.alias
  }

  /** With one required order, what is offered is right over every probe side exactly when the tables
      that the order reads are those whose columns are collected: none is read in the parts of a case or
      of a subquery alone. */
  lemma OneOrderExact(p: Property)
    ensures (forall aliases :: AllRight([p], aliases)) <==> Within(p, CollectedAliases(p))
  {
    var seen := CollectedAliases(p);
    assert [p][0] == p;
    if forall aliases :: AllRight([p], aliases) {
      AllRightExact([p], seen);
      assert Passes([p][0], seen);
    } else {
      var aliases :| !AllRight([p], aliases);
      AllRightExact([p], aliases);
      assert seen <= aliases;
    }
  }

  /** An order without cases and subqueries is such an order. */
  lemma {:induction false} OperatorsHideNothing(e: Expr)
    requires OnlyOperators(e)
    ensures Collected(e) == Columns(e)
    decreases e
  {
    if e.Compound? {
      forall i | 0 <= i < |e.parts| ensures Collected(e.parts[i]) == Columns(e.parts[i]) {
        OperatorsHideNothing(e.parts[i]);
      }
    }
  }

  predicate OnlyOperators(e: Expr)
    decreases e
  {
    e.Compound? ==> e.kind.Operator? && forall i :: 0 <= i < |e.parts| ==> OnlyOperators(e.parts[i])
  }

  /** With one required order without cases and subqueries, every choice offered is right. */
  lemma OneOrderOfOperators(p: Property, aliases: set<string>)
    requires forall i :: 0 <= i < |p.columns| ==> OnlyOperators(p.columns[i].expr)
    ensures AllRight([p], aliases)
  {
    forall i | 0 <= i < |p.columns| ensures Collected(p.columns[i].expr) == Columns(p.columns[i].expr) {
      OperatorsHideNothing(p.columns[i].expr);
    }
    OneOrderExact(p);
  }

  // ---------------------------------------------------------------------------
  // Choices that are wrong
  // ---------------------------------------------------------------------------

  /** The value of a case: the result of the first condition that holds, else the default. */
  function FirstThatHolds(values: seq<int>): int {
    if values == [] then 0
    else if |values| == 1 then values[0]
    else if values[0] != 0 then values[1]
    else FirstThatHolds(values[2..])
  }

  const CONSTANT_ZERO := Compound(Operator(0), [])
  const CONSTANT_ONE := Compound(Operator(1), [])
  const COMPARE_EQUAL := Operator(2)

  /** A case, equality and two constants mean what they do in SQL. */
  ghost predicate Usual(m: Meaning) {
    && (forall values :: m(CaseWhen, values) == FirstThatHolds(values))
    && m(Operator(0), []) == 0 && m(Operator(1), []) == 1
    && (forall a, b :: m(COMPARE_EQUAL, [a, b]) == if a == b then 1 else 0)
  }

  /** CASE WHEN l.b = 1 THEN 0 ELSE 1 END. */
  const BY_CASE := Compound(CaseWhen, [
    Compound(COMPARE_EQUAL, [ColumnValue(ColumnName("l", "b")), CONSTANT_ONE]), CONSTANT_ZERO, CONSTANT_ONE])

  lemma EvalByCase(m: Meaning, row: Row)
    requires Usual(m) && ColumnName("l", "b") in row
    ensures Eval(m, BY_CASE, row) == if row[ColumnName("l", "b")] == 1 then 0 else 1
  {
    var test, b := BY_CASE.parts[0], row[ColumnName("l", "b")];
    var holds := if b == 1 then 1 else 0;
    assert seq(2, i requires 0 <= i < 2 => Eval(m, test.parts[i], row)) == [b, 1];
    assert Eval(m, test, row) == holds;
    assert seq(3, i requires 0 <= i < 3 => Eval(m, BY_CASE.parts[i], row)) == [holds, 0, 1];
    assert FirstThatHolds([holds, 0, 1]) == if holds != 0 then 0 else FirstThatHolds([1]);
  }

  /** With one required order over a case of a build side column the push-down is offered, and the
      result is not in that order. */
  lemma CaseOrderFails(m: Meaning)
    requires Usual(m)
    ensures
      var p := Sort([SortColumn(BY_CASE, true)]);
      var c := Choice([p], [], [p]);
      c in Choices([p], {"r"}) && !Sound(m, c, {"r"})
  {
    var p := Sort([SortColumn(BY_CASE, true)]);
    assert Passes([p][0], {"r"});
    OfferedExact([p], {"r"});
    var b := ColumnName("l", "b");
    var one: Row, two: Row, none: Row := map[b := 1], map[b := 2], map[];
    if Sound(m, Choice([p], [], [p]), {"r"}) {
      assert Clear([two, one], {"r"});
      SoundGivesOrder(m, [p], {"r"}, 0, two, one, none);
      assert one + none == one && two + none == two;
      EvalByCase(m, one);
      EvalByCase(m, two);
      assert false;
    }
  }

  /** With two required orders one of them is enough for the offer, and the offer can be wrong. */
  lemma TwoOrdersCanFail(m: Meaning)
    ensures
      var byProbe := Sort([SortColumn(ColumnValue(ColumnName("r", "a")), true)]);
      var byBuild := Sort([SortColumn(ColumnValue(ColumnName("l", "b")), true)]);
      var c := Choice([byProbe, byBuild], [], [byProbe, byBuild]);
      c in Choices([byProbe, byBuild], {"r"}) && !Sound(m, c, {"r"})
  {
    var byProbe := Sort([SortColumn(ColumnValue(ColumnName("r", "a")), true)]);
    var b := ColumnName("l", "b");
    var byBuild := Sort([SortColumn(ColumnValue(b), true)]);
    var req := [byProbe, byBuild];
    assert Passes(req[0], {"r"});
    OfferedExact(req, {"r"});
    var one: Row, none: Row := map[b := 1], map[];
    SoundExactly(m, req, {"r"});
    assert Clear([one], {"r"}) && one + none == one;
    assert Eval(m, req[1].columns[0].expr, one + none) == 1 && Eval(m, req[1].columns[0].expr, none) == 0;
  }
}
