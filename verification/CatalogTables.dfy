/** The rows of pg_class, pg_index, pg_attribute and pg_namespace, and the properties
    every catalog operation has to keep. */
module CatalogTables {
  import opened Options
  import opened CatalogStorage

  type Oid = nat

  datatype ClassKind = REGULAR_TABLE | INDEX

  datatype TypeId = Fixed(code: nat, size: nat) | Varlen(code: nat)

  /** A column of a table or of an index key, as a schema object holds it. */
  datatype Column = Column(name: string, typeId: TypeId, maxVarlenSize: nat, nullable: bool, expression: string)
  {
    /** Only a column of a varlen type has a maximum size. */
    predicate WellFormed() {
      typeId.Fixed? ==> maxVarlenSize == 0
    }
  }

  /** A column with the oid it was given. */
  datatype BoundColumn = BoundColumn(oid: nat, column: Column)

  datatype ClassRow = ClassRow(oid: Oid, name: string, ns: Oid, kind: ClassKind, schema: Option<seq<BoundColumn>>)

  datatype IndexRow = IndexRow(oid: Oid, table: Oid)

  datatype AttributeRow = AttributeRow(
    classOid: Oid, num: nat, name: string, typeId: TypeId, len: nat, notNull: bool, source: string)

  datatype NamespaceRow = NamespaceRow(oid: Oid, name: string)

  // The key of each index.
  function ClassOid(r: ClassRow): Oid { r.oid }
  function ClassName(r: ClassRow): (string, Oid) { (r.name, r.ns) }
  function ClassNamespace(r: ClassRow): Oid { r.ns }
  function IndexOid(r: IndexRow): Oid { r.oid }
  function IndexTable(r: IndexRow): Oid { r.table }
  function AttributeOid(r: AttributeRow): (Oid, nat) { (r.classOid, r.num) }
  function AttributeName(r: AttributeRow): (string, Oid) { (r.name, r.classOid) }
  function AttributeOwner(r: AttributeRow): Oid { r.classOid }
  function NamespaceOid(r: NamespaceRow): Oid { r.oid }
  function NamespaceName(r: NamespaceRow): string { r.name }

  /** pg_class with its oid, (name, namespace) and namespace indexes. */
  datatype ClassTable = ClassTable(
    rows: map<Slot, ClassRow>,
    byOid: set<(Oid, Slot)>, byName: set<((string, Oid), Slot)>, byNamespace: set<(Oid, Slot)>)

  /** pg_index with its oid and table indexes. */
  datatype PgIndexTable = PgIndexTable(
    rows: map<Slot, IndexRow>,
    byOid: set<(Oid, Slot)>, byTable: set<(Oid, Slot)>)

  /** pg_attribute with its oid and name indexes. */
  datatype AttributeTable = AttributeTable(
    rows: map<Slot, AttributeRow>,
    byOid: set<((Oid, nat), Slot)>, byName: set<((string, Oid), Slot)>)

  /** pg_namespace with its oid and name indexes. */
  datatype NamespaceTable = NamespaceTable(
    rows: map<Slot, NamespaceRow>,
    byOid: set<(Oid, Slot)>, byName: set<(string, Slot)>)

  // ---------------------------------------------------------------------------
  // Agreement of a table with its indexes
  // ---------------------------------------------------------------------------

  // `listed` are the rows the indexes list: those of the table, and rows already deleted
  // from the table whose index entries are still to go.

  ghost function IndexedClasses(rows: map<Slot, ClassRow>, listed: map<Slot, ClassRow>): ClassTable {
    ClassTable(rows, Entries(listed, ClassOid), Entries(listed, ClassName), Entries(listed, ClassNamespace))
  }

  ghost function IndexedIndexes(rows: map<Slot, IndexRow>): PgIndexTable {
    PgIndexTable(rows, Entries(rows, IndexOid), Entries(rows, IndexTable))
  }

  ghost function IndexedColumns(rows: map<Slot, AttributeRow>): AttributeTable {
    AttributeTable(rows, Entries(rows, AttributeOid), Entries(rows, AttributeName))
  }

  ghost function IndexedNamespaces(rows: map<Slot, NamespaceRow>, listed: map<Slot, NamespaceRow>): NamespaceTable {
    NamespaceTable(rows, Entries(listed, NamespaceOid), Entries(listed, NamespaceName))
  }

  // ---------------------------------------------------------------------------
  // The catalog as its rows
  // ---------------------------------------------------------------------------

  datatype Rows = Rows(
    classes: map<Slot, ClassRow>, indexes: map<Slot, IndexRow>,
    columns: map<Slot, AttributeRow>, namespaces: map<Slot, NamespaceRow>)

  /** What the unique indexes enforce. Column oids start at one, so (class + 1, 0) is never a key. */
  ghost predicate KeysUnique(v: Rows) {
    && Unique(v.classes, ClassOid)
    && Unique(v.classes, ClassName)
    && Unique(v.indexes, IndexOid)
    && Unique(v.columns, AttributeOid)
    && Unique(v.columns, AttributeName)
    && Unique(v.namespaces, NamespaceOid)
    && Unique(v.namespaces, NamespaceName)
    && forall s :: s in v.columns ==> v.columns[s].num >= 1
  }

  ghost predicate SlotsBelow<R>(rows: map<Slot, R>, n: Slot) {
    forall s :: s in rows ==> s < n
  }

  /** Slots and oids not handed out yet occur nowhere. */
  ghost predicate Below(v: Rows, nextSlot: Slot, nextOid: Oid) {
    && SlotsBelow(v.classes, nextSlot) && SlotsBelow(v.indexes, nextSlot)
    && SlotsBelow(v.columns, nextSlot) && SlotsBelow(v.namespaces, nextSlot)
    && forall s :: s in v.classes ==> v.classes[s].oid < nextOid
  }

  ghost function OidsOfKind(classes: map<Slot, ClassRow>, kind: ClassKind): set<Oid> {
    set s | s in classes && classes[s].kind == kind :: classes[s].oid
  }

  ghost function Owners<R>(rows: map<Slot, R>, owner: R -> Oid): set<Oid> {
    set s | s in rows :: owner(rows[s])
  }

  /** Every object has columns and every column an object; pg_index holds exactly the indexes;
      every index is on a table. */
  ghost predicate Integrity(v: Rows) {
    && Owners(v.columns, AttributeOwner) == Owners(v.classes, ClassOid)
    && Owners(v.indexes, IndexOid) == OidsOfKind(v.classes, INDEX)
    && Owners(v.indexes, IndexTable) <= OidsOfKind(v.classes, REGULAR_TABLE)
  }

  lemma OwnersAbsent<R>(rows: map<Slot, R>, owner: R -> Oid, oid: Oid)
    ensures oid !in Owners(rows, owner) <==> forall s :: s in rows ==> owner(rows[s]) != oid
  {
    forall s | s in rows ensures owner(rows[s]) in Owners(rows, owner) {}
  }

  // ---------------------------------------------------------------------------
  // Removing objects
  // ---------------------------------------------------------------------------

  /** The rows that do not belong to a removed object. */
  ghost function Without<R>(rows: map<Slot, R>, owner: R -> Oid, removed: set<Oid>): map<Slot, R> {
    map s | s in rows && owner(rows[s]) !in removed :: rows[s]
  }

  /** The catalog without the rows of some objects in pg_class, pg_index and pg_attribute. */
  ghost function Removed(v: Rows, removed: set<Oid>): Rows {
    Rows(Without(v.classes, ClassOid, removed), Without(v.indexes, IndexOid, removed),
         Without(v.columns, AttributeOwner, removed), v.namespaces)
  }

  ghost function IndexesOn(indexes: map<Slot, IndexRow>, tables: set<Oid>): set<Oid> {
    set s | s in indexes && indexes[s].table in tables :: indexes[s].oid
  }

  ghost function ObjectsIn(classes: map<Slot, ClassRow>, ns: Oid, kind: ClassKind): set<Oid> {
    set s | s in classes && classes[s].ns == ns && classes[s].kind == kind :: classes[s].oid
  }

  /** What dropping a table removes. */
  ghost function DroppedWithTable(v: Rows, table: Oid): set<Oid> {
    {table} + IndexesOn(v.indexes, {table})
  }

  /** What dropping a namespace removes: its tables, the indexes on them wherever those live,
      and the indexes in the namespace. */
  ghost function DroppedWithNamespace(v: Rows, ns: Oid): set<Oid> {
    var tables := ObjectsIn(v.classes, ns, REGULAR_TABLE);
    tables + IndexesOn(v.indexes, tables) + ObjectsIn(v.classes, ns, INDEX)
  }

  lemma RemovedTwice(v: Rows, a: set<Oid>, b: set<Oid>)
    ensures Removed(Removed(v, a), b) == Removed(v, a + b)
  {
  }

  lemma RemovedNone(v: Rows)
    ensures Removed(v, {}) == v
  {
    assert Without(v.classes, ClassOid, {}) == v.classes;
    assert Without(v.indexes, IndexOid, {}) == v.indexes;
    assert Without(v.columns, AttributeOwner, {}) == v.columns;
  }

  lemma OwnersWithout<R>(rows: map<Slot, R>, owner: R -> Oid, removed: set<Oid>)
    ensures Owners(Without(rows, owner, removed), owner) == Owners(rows, owner) - removed
  {
    forall s | s in rows && owner(rows[s]) !in removed ensures owner(rows[s]) in Owners(Without(rows, owner, removed), owner) {
      assert s in Without(rows, owner, removed);
    }
  }

  lemma KindWithout(classes: map<Slot, ClassRow>, kind: ClassKind, removed: set<Oid>)
    ensures OidsOfKind(Without(classes, ClassOid, removed), kind) == OidsOfKind(classes, kind) - removed
  {
    forall s | s in classes && classes[s].kind == kind && classes[s].oid !in removed
      ensures classes[s].oid in OidsOfKind(Without(classes, ClassOid, removed), kind)
    {
      assert s in Without(classes, ClassOid, removed);
    }
  }

  /** Removing objects keeps integrity when no index is left behind by its table. */
  lemma RemovalKeepsIntegrity(v: Rows, removed: set<Oid>)
    requires Integrity(v)
    requires IndexesOn(v.indexes, removed) <= removed
    ensures Integrity(Removed(v, removed))
  {
    OwnersWithout(v.columns, AttributeOwner, removed);
    OwnersWithout(v.classes, ClassOid, removed);
    OwnersWithout(v.indexes, IndexOid, removed);
    KindWithout(v.classes, INDEX, removed);
    KindWithout(v.classes, REGULAR_TABLE, removed);
    forall t | t in Owners(Removed(v, removed).indexes, IndexTable)
      ensures t in OidsOfKind(v.classes, REGULAR_TABLE) - removed
    {
      var s :| s in Removed(v, removed).indexes && v.indexes[s].table == t;
      assert s in v.indexes && IndexTable(v.indexes[s]) in Owners(v.indexes, IndexTable);
      var i := v.indexes[s].oid;
      assert t in removed ==> i in IndexesOn(v.indexes, removed);
    }
  }

  // ---------------------------------------------------------------------------
  // Columns as attribute rows
  // ---------------------------------------------------------------------------

  /** The row CreateColumn writes. */
  function AttributeOf(classOid: Oid, num: nat, col: Column): AttributeRow {
    AttributeRow(classOid, num, col.name, col.typeId,
                 if col.typeId.Varlen? then col.maxVarlenSize else col.typeId.size,
                 !col.nullable, col.expression)
  }

  /** The column MakeColumn reads back. */
  function ColumnOf(r: AttributeRow): BoundColumn {
    var nullable := !r.notNull;
    BoundColumn(r.num,
      if r.typeId.Varlen? then Column(r.name, r.typeId, r.len, nullable, r.source)
      else Column(r.name, r.typeId, 0, nullable, r.source))
  }

  /** The columns with oids counted from one. */
  function Numbered(cols: seq<Column>): (r: seq<BoundColumn>)
    ensures |r| == |cols|
  {
    seq(|cols|, i requires 0 <= i < |cols| => BoundColumn(i + 1, cols[i]))
  }

  /** The rows of a list of columns: numbered from one, in consecutive slots. */
  ghost function ColumnRows(classOid: Oid, cols: seq<Column>, first: Slot): map<Slot, AttributeRow> {
    if cols == [] then map[]
    else
      var n := |cols| - 1;
      ColumnRows(classOid, cols[..n], first)[first + n := AttributeOf(classOid, n + 1, cols[n])]
  }

  predicate DistinctNames(cols: seq<Column>) {
    forall i, j :: 0 <= i < j < |cols| ==> cols[i].name != cols[j].name
  }

  predicate AllWellFormed(cols: seq<Column>) {
    forall i :: 0 <= i < |cols| ==> cols[i].WellFormed()
  }

  lemma {:induction false} ColumnRowsAt(classOid: Oid, cols: seq<Column>, first: Slot)
    ensures forall s :: s in ColumnRows(classOid, cols, first) <==> first <= s < first + |cols|
    ensures forall i :: 0 <= i < |cols| ==>
      first + i in ColumnRows(classOid, cols, first) &&
      ColumnRows(classOid, cols, first)[first + i] == AttributeOf(classOid, i + 1, cols[i])
  {
    if cols != [] {
      ColumnRowsAt(classOid, cols[..|cols| - 1], first);
    }
  }

  lemma ColumnRowAt(classOid: Oid, cols: seq<Column>, first: Slot, s: Slot)
    ensures s in ColumnRows(classOid, cols, first) <==> first <= s < first + |cols|
    ensures first <= s < first + |cols| ==>
      ColumnRows(classOid, cols, first)[s] == AttributeOf(classOid, s - first + 1, cols[s - first])
  {
    ColumnRowsAt(classOid, cols, first);
    if first <= s < first + |cols| {
      var i := s - first;
      assert ColumnRows(classOid, cols, first)[first + i] == AttributeOf(classOid, i + 1, cols[i]);
    }
  }

  /** The rows of a new class among the others: nothing of it is in the old rows, and the new ones
      are its columns in order. */
  lemma NewRows(rows: map<Slot, AttributeRow>, classOid: Oid, cols: seq<Column>, first: Slot, s: Slot)
    requires SlotsBelow(rows, first) && classOid !in Owners(rows, AttributeOwner)
    ensures var all := rows + ColumnRows(classOid, cols, first);
      && (s in all <==> s in rows || first <= s < first + |cols|)
      && (s in rows ==> s < first && all[s] == rows[s] && all[s].classOid != classOid)
      && (first <= s < first + |cols| ==> all[s] == AttributeOf(classOid, s - first + 1, cols[s - first]))
  {
    ColumnRowAt(classOid, cols, first, s);
    OwnersAbsent(rows, AttributeOwner, classOid);
  }

  /** The next column of a new class has a new slot and a new oid. */
  lemma NextColumnOid(rows: map<Slot, AttributeRow>, classOid: Oid, cols: seq<Column>, first: Slot, s: Slot)
    requires SlotsBelow(rows, first) && classOid !in Owners(rows, AttributeOwner)
    requires s in rows + ColumnRows(classOid, cols, first)
    ensures s < first + |cols|
    ensures AttributeOid((rows + ColumnRows(classOid, cols, first))[s]) != (classOid, |cols| + 1)
  {
    NewRows(rows, classOid, cols, first, s);
  }

  /** Its name is new exactly when it differs from the names of the columns before it. */
  lemma NextColumnName(rows: map<Slot, AttributeRow>, classOid: Oid, cols: seq<Column>, first: Slot, col: Column)
    requires SlotsBelow(rows, first) && classOid !in Owners(rows, AttributeOwner)
    requires DistinctNames(cols)
    ensures var written := rows + ColumnRows(classOid, cols, first);
      DistinctNames(cols + [col]) <==> forall s :: s in written ==> AttributeName(written[s]) != (col.name, classOid)
  {
    var written := rows + ColumnRows(classOid, cols, first);
    if j :| 0 <= j < |cols| && cols[j].name == col.name {
      NewRows(rows, classOid, cols, first, first + j);
      assert AttributeName(written[first + j]) == (col.name, classOid);
      assert (cols + [col])[j].name == (cols + [col])[|cols|].name;
    } else {
      forall s | s in written ensures AttributeName(written[s]) != (col.name, classOid) {
        NewRows(rows, classOid, cols, first, s);
      }
    }
  }

  /** One round of writing the columns of a new class. */
  lemma NextColumn(rows: map<Slot, AttributeRow>, classOid: Oid, cols: seq<Column>, first: Slot, i: nat,
                   written: map<Slot, AttributeRow>)
    requires i < |cols| && SlotsBelow(rows, first) && classOid !in Owners(rows, AttributeOwner)
    requires DistinctNames(cols[..i])
    requires written == rows + ColumnRows(classOid, cols[..i], first)
    ensures first + i !in written
    ensures forall s :: s in written ==> AttributeOid(written[s]) != (classOid, i + 1)
    ensures DistinctNames(cols[..i + 1]) <==> forall s :: s in written ==> AttributeName(written[s]) != (cols[i].name, classOid)
    ensures written[first + i := AttributeOf(classOid, i + 1, cols[i])] == rows + ColumnRows(classOid, cols[..i + 1], first)
    ensures DistinctNames(cols) ==> DistinctNames(cols[..i + 1])
  {
    forall s | s in written ensures s < first + i && AttributeOid(written[s]) != (classOid, i + 1) {
      NextColumnOid(rows, classOid, cols[..i], first, s);
    }
    assert cols[..i] + [cols[i]] == cols[..i + 1];
    NextColumnName(rows, classOid, cols[..i], first, cols[i]);
  }

  // ---------------------------------------------------------------------------
  // Reading columns back
  // ---------------------------------------------------------------------------

  predicate KeyLess(a: (Oid, nat), b: (Oid, nat)) {
    a.0 < b.0 || (a.0 == b.0 && a.1 < b.1)
  }

  predicate KeyAtMost(a: (Oid, nat), b: (Oid, nat)) {
    KeyLess(a, b) || a == b
  }

  /** The slots run through the keys in ascending order. */
  ghost predicate Ascending(slots: seq<Slot>, rows: map<Slot, AttributeRow>) {
    && (forall i :: 0 <= i < |slots| ==> slots[i] in rows)
    && (forall i, j :: 0 <= i < j < |slots| ==> KeyLess(AttributeOid(rows[slots[i]]), AttributeOid(rows[slots[j]])))
  }

  /** The closed range from (class, 0) to (class + 1, 0) holds the class's columns and no others. */
  lemma RangeIsOneClass(rows: map<Slot, AttributeRow>, classOid: Oid, s: Slot)
    requires s in rows && rows[s].num >= 1
    ensures KeyAtMost((classOid, 0), AttributeOid(rows[s])) && KeyAtMost(AttributeOid(rows[s]), (classOid + 1, 0))
            <==> rows[s].classOid == classOid
  {
  }

  /** Reading in ascending order the rows that a list of columns was written as gives the list
      back, whatever other classes share the table. */
  lemma ColumnRoundTrip(rows: map<Slot, AttributeRow>, classOid: Oid, cols: seq<Column>, first: Slot, slots: seq<Slot>)
    requires SlotsBelow(rows, first) && classOid !in Owners(rows, AttributeOwner) && AllWellFormed(cols)
    requires var all := rows + ColumnRows(classOid, cols, first);
      Ascending(slots, all) && forall s :: s in slots <==> s in all && all[s].classOid == classOid
    ensures |slots| == |cols|
    ensures forall i :: 0 <= i < |cols| ==>
      ColumnOf((rows + ColumnRows(classOid, cols, first))[slots[i]]) == Numbered(cols)[i]
  {
    ColumnSlotsInOrder(rows, classOid, cols, first, slots);
    var all := rows + ColumnRows(classOid, cols, first);
    forall i | 0 <= i < |cols| ensures slots[i] in all && ColumnOf(all[slots[i]]) == Numbered(cols)[i] {
      assert slots[i] == first + i;
      NextColumnReadsBack(rows, classOid, cols, first, i);
    }
  }

  lemma NextColumnReadsBack(rows: map<Slot, AttributeRow>, classOid: Oid, cols: seq<Column>, first: Slot, i: nat)
    requires SlotsBelow(rows, first) && classOid !in Owners(rows, AttributeOwner)
    requires i < |cols| && cols[i].WellFormed()
    ensures first + i in rows + ColumnRows(classOid, cols, first)
    ensures ColumnOf((rows + ColumnRows(classOid, cols, first))[first + i]) == Numbered(cols)[i]
  {
    NewRows(rows, classOid, cols, first, first + i);
    ColumnReadsBack(classOid, i + 1, cols[i]);
  }

  lemma ColumnSlotsInOrder(rows: map<Slot, AttributeRow>, classOid: Oid, cols: seq<Column>, first: Slot, slots: seq<Slot>)
    requires SlotsBelow(rows, first) && classOid !in Owners(rows, AttributeOwner)
    requires var all := rows + ColumnRows(classOid, cols, first);
      Ascending(slots, all) && forall s :: s in slots <==> s in all && all[s].classOid == classOid
    ensures |slots| == |cols| && forall i :: 0 <= i < |cols| ==> slots[i] == first + i
  {
    var all := rows + ColumnRows(classOid, cols, first);
    forall s: Slot ensures s in slots <==> first <= s < first + |cols| {
      NewRows(rows, classOid, cols, first, s);
    }
    forall i | 0 <= i < |slots|
      ensures all[slots[i]].classOid == classOid && all[slots[i]].num == slots[i] - first + 1
    {
      assert slots[i] in slots;
      NewRows(rows, classOid, cols, first, slots[i]);
    }
    forall i, j | 0 <= i < j < |slots| ensures slots[i] < slots[j] {
    }
    ConsecutiveSlots(slots, first, |cols|);
  }

  /** What CreateColumn writes, MakeColumn reads. */
  lemma ColumnReadsBack(classOid: Oid, num: nat, col: Column)
    requires col.WellFormed()
    ensures ColumnOf(AttributeOf(classOid, num, col)) == BoundColumn(num, col)
  {
  }

  /** An increasing sequence with the numbers of a range has the i-th of them in the i-th place. */
  lemma {:induction false} SlotAt(slots: seq<Slot>, first: Slot, n: nat, i: nat)
    requires forall i, j :: 0 <= i < j < |slots| ==> slots[i] < slots[j]
    requires forall s: Slot :: s in slots <==> first <= s < first + n
    requires i < n
    ensures i < |slots| && slots[i] == first + i
    decreases i
  {
    assert first + i in slots;
    var k :| 0 <= k < |slots| && slots[k] == first + i;
    if i == 0 {
      assert slots[0] in slots;
    } else {
      SlotAt(slots, first, n, i - 1);
    }
  }

  lemma ConsecutiveSlots(slots: seq<Slot>, first: Slot, n: nat)
    requires forall i, j :: 0 <= i < j < |slots| ==> slots[i] < slots[j]
    requires forall s: Slot :: s in slots <==> first <= s < first + n
    ensures |slots| == n && forall i :: 0 <= i < n ==> slots[i] == first + i
  {
    forall i | 0 <= i < n ensures i < |slots| && slots[i] == first + i {
      SlotAt(slots, first, n, i);
    }
    if n > 0 {
      SlotAt(slots, first, n, n - 1);
    }
    if slots != [] {
      SlotIsAtLeast(slots, first, n, |slots| - 1);
    }
  }

  lemma {:induction false} SlotIsAtLeast(slots: seq<Slot>, first: Slot, n: nat, i: nat)
    requires i < |slots| && forall i, j :: 0 <= i < j < |slots| ==> slots[i] < slots[j]
    requires forall s: Slot :: s in slots ==> first <= s < first + n
    ensures first + i <= slots[i] < first + n
  {
    assert slots[i] in slots;
    if i > 0 {
      SlotIsAtLeast(slots, first, n, i - 1);
    }
  }

  lemma {:induction false} LeastEntry(entries: set<((Oid, nat), Slot)>) returns (e: ((Oid, nat), Slot))
    requires entries != {}
    ensures e in entries && forall d :: d in entries ==> KeyAtMost(e.0, d.0)
  {
    var x :| x in entries;
    if entries == {x} {
      return x;
    }
    var rest := entries - {x};
    assert rest != {} by {
      assert entries == rest + {x};
    }
    var y := LeastEntry(rest);
    e := if KeyAtMost(x.0, y.0) then x else y;
    forall d | d in entries ensures KeyAtMost(e.0, d.0) {
      if d != x {
        assert d in rest;
      }
    }
  }

  /** The entries of a unique index in key order. */
  method InKeyOrder(entries: set<((Oid, nat), Slot)>) returns (list: seq<((Oid, nat), Slot)>)
    requires forall a, b :: a in entries && b in entries && a.0 == b.0 ==> a == b
    ensures forall e :: e in list <==> e in entries
    ensures forall i, j :: 0 <= i < j < |list| ==> KeyLess(list[i].0, list[j].0)
  {
    var todo := entries;
    list := [];
    while todo != {}
      invariant todo <= entries
      invariant forall e :: e in list <==> e in entries - todo
      invariant forall i, j :: 0 <= i < j < |list| ==> KeyLess(list[i].0, list[j].0)
      invariant forall i, e :: 0 <= i < |list| && e in todo ==> KeyLess(list[i].0, e.0)
      decreases todo
    {
      ghost var least := LeastEntry(todo);
      var e :| e in todo && forall d :: d in todo ==> KeyAtMost(e.0, d.0);
      forall d | d in todo - {e} ensures KeyLess(e.0, d.0) {
        assert KeyAtMost(e.0, d.0) && d != e;
      }
      list, todo := list + [e], todo - {e};
    }
  }

  // ---------------------------------------------------------------------------
  // Adding objects
  // ---------------------------------------------------------------------------

  /** The catalog after a table was created. */
  ghost function WithTable(v: Rows, slot: Slot, oid: Oid, name: string, ns: Oid, cols: seq<Column>): Rows {
    v.(classes := v.classes[slot := ClassRow(oid, name, ns, REGULAR_TABLE, Some(Numbered(cols)))],
       columns := v.columns + ColumnRows(oid, cols, slot + 1))
  }

  /** The catalog after an index was created. */
  ghost function WithIndex(v: Rows, slot: Slot, oid: Oid, name: string, ns: Oid, table: Oid, cols: seq<Column>): Rows {
    v.(classes := v.classes[slot := ClassRow(oid, name, ns, INDEX, Some(Numbered(cols)))],
       indexes := v.indexes[slot + 1 := IndexRow(oid, table)],
       columns := v.columns + ColumnRows(oid, cols, slot + 2))
  }

  /** The name is free in the namespace. */
  ghost predicate NameFree(classes: map<Slot, ClassRow>, name: string, ns: Oid) {
    forall s :: s in classes ==> ClassName(classes[s]) != (name, ns)
  }

  lemma OwnersAdd<R>(rows: map<Slot, R>, owner: R -> Oid, s: Slot, row: R)
    requires s !in rows
    ensures Owners(rows[s := row], owner) == Owners(rows, owner) + {owner(row)}
  {
    var rows' := rows[s := row];
    forall t | t in rows ensures owner(rows[t]) in Owners(rows', owner) {
      assert t in rows' && rows'[t] == rows[t];
    }
    assert s in rows' && owner(row) in Owners(rows', owner);
  }

  lemma KindAdd(classes: map<Slot, ClassRow>, s: Slot, row: ClassRow, kind: ClassKind)
    requires s !in classes
    ensures OidsOfKind(classes[s := row], kind) == OidsOfKind(classes, kind) + if row.kind == kind then {row.oid} else {}
  {
    var classes' := classes[s := row];
    forall t | t in classes && classes[t].kind == kind ensures classes[t].oid in OidsOfKind(classes', kind) {
      assert t in classes' && classes'[t] == classes[t];
    }
    assert s in classes';
  }

  lemma ColumnOwnersAdd(columns: map<Slot, AttributeRow>, oid: Oid, cols: seq<Column>, first: Slot)
    requires cols != [] && SlotsBelow(columns, first)
    ensures Owners(columns + ColumnRows(oid, cols, first), AttributeOwner) == Owners(columns, AttributeOwner) + {oid}
  {
    var all := columns + ColumnRows(oid, cols, first);
    forall s | s in all ensures (s in columns && all[s] == columns[s]) || all[s].classOid == oid {
      ColumnRowAt(oid, cols, first, s);
    }
    ColumnOwnersStay(columns, oid, cols, first);
    ColumnRowAt(oid, cols, first, first);
    assert first in all && AttributeOwner(all[first]) in Owners(all, AttributeOwner);
  }

  lemma ColumnOwnersStay(columns: map<Slot, AttributeRow>, oid: Oid, cols: seq<Column>, first: Slot)
    requires SlotsBelow(columns, first)
    ensures Owners(columns, AttributeOwner) <= Owners(columns + ColumnRows(oid, cols, first), AttributeOwner)
  {
    var all := columns + ColumnRows(oid, cols, first);
    forall s | s in columns ensures AttributeOwner(columns[s]) in Owners(all, AttributeOwner) {
      ColumnRowAt(oid, cols, first, s);
      assert s in all && all[s] == columns[s];
    }
  }

  lemma ColumnsStayUnique(columns: map<Slot, AttributeRow>, oid: Oid, cols: seq<Column>, first: Slot)
    requires SlotsBelow(columns, first) && oid !in Owners(columns, AttributeOwner) && DistinctNames(cols)
    requires Unique(columns, AttributeOid) && Unique(columns, AttributeName)
    requires forall s :: s in columns ==> columns[s].num >= 1
    ensures var all := columns + ColumnRows(oid, cols, first);
      && Unique(all, AttributeOid) && Unique(all, AttributeName)
      && (forall s :: s in all ==> all[s].num >= 1)
      && SlotsBelow(all, first + |cols|)
  {
    var all := columns + ColumnRows(oid, cols, first);
    OwnersAbsent(columns, AttributeOwner, oid);
    forall s | s in all
      ensures s in columns ==> s < first && all[s] == columns[s] && all[s].classOid != oid
      ensures s !in columns ==> first <= s < first + |cols| && all[s] == AttributeOf(oid, s - first + 1, cols[s - first])
    {
      ColumnRowAt(oid, cols, first, s);
    }
  }

  lemma NewTableKeepsKeys(v: Rows, slot: Slot, oid: Oid, name: string, ns: Oid, cols: seq<Column>)
    requires KeysUnique(v) && Below(v, slot, oid)
    requires oid !in Owners(v.classes, ClassOid) && oid !in Owners(v.columns, AttributeOwner)
    requires NameFree(v.classes, name, ns) && DistinctNames(cols)
    ensures KeysUnique(WithTable(v, slot, oid, name, ns, cols))
    ensures Below(WithTable(v, slot, oid, name, ns, cols), slot + 1 + |cols|, oid + 1)
  {
    ColumnsStayUnique(v.columns, oid, cols, slot + 1);
    OwnersAbsent(v.classes, ClassOid, oid);
  }

  lemma NewIndexKeepsKeys(v: Rows, slot: Slot, oid: Oid, name: string, ns: Oid, table: Oid, cols: seq<Column>)
    requires KeysUnique(v) && Below(v, slot, oid)
    requires oid !in Owners(v.classes, ClassOid) && oid !in Owners(v.indexes, IndexOid)
    requires oid !in Owners(v.columns, AttributeOwner)
    requires NameFree(v.classes, name, ns) && DistinctNames(cols)
    ensures KeysUnique(WithIndex(v, slot, oid, name, ns, table, cols))
    ensures Below(WithIndex(v, slot, oid, name, ns, table, cols), slot + 2 + |cols|, oid + 1)
  {
    ColumnsStayUnique(v.columns, oid, cols, slot + 2);
    OwnersAbsent(v.classes, ClassOid, oid);
    OwnersAbsent(v.indexes, IndexOid, oid);
  }

  /** A new table with its columns keeps integrity. */
  lemma NewTableIntegrity(v: Rows, slot: Slot, oid: Oid, name: string, ns: Oid, cols: seq<Column>)
    requires Integrity(v) && Below(v, slot, oid) && cols != []
    ensures Integrity(WithTable(v, slot, oid, name, ns, cols))
  {
    var row := ClassRow(oid, name, ns, REGULAR_TABLE, Some(Numbered(cols)));
    OwnersAdd(v.classes, ClassOid, slot, row);
    ColumnOwnersAdd(v.columns, oid, cols, slot + 1);
    KindAdd(v.classes, slot, row, INDEX);
    KindAdd(v.classes, slot, row, REGULAR_TABLE);
  }

  /** A new index with its columns keeps integrity exactly when the table it names exists. */
  lemma NewIndexIntegrity(v: Rows, slot: Slot, oid: Oid, name: string, ns: Oid, table: Oid, cols: seq<Column>)
    requires Integrity(v) && Below(v, slot, oid) && cols != []
    ensures Integrity(WithIndex(v, slot, oid, name, ns, table, cols)) <==> table in OidsOfKind(v.classes, REGULAR_TABLE)
  {
    var row := ClassRow(oid, name, ns, INDEX, Some(Numbered(cols)));
    OwnersAdd(v.classes, ClassOid, slot, row);
    OwnersAdd(v.indexes, IndexOid, slot + 1, IndexRow(oid, table));
    OwnersAdd(v.indexes, IndexTable, slot + 1, IndexRow(oid, table));
    ColumnOwnersAdd(v.columns, oid, cols, slot + 2);
    KindAdd(v.classes, slot, row, INDEX);
    KindAdd(v.classes, slot, row, REGULAR_TABLE);
  }

  ghost predicate OidFree(v: Rows, oid: Oid) {
    && oid !in Owners(v.classes, ClassOid)
    && oid !in Owners(v.columns, AttributeOwner)
    && oid !in Owners(v.indexes, IndexOid)
  }

  /** Creating a table keeps all the catalog promises. */
  lemma NewTableKept(v: Rows, slot: Slot, oid: Oid, name: string, ns: Oid, cols: seq<Column>)
    requires KeysUnique(v) && Below(v, slot, oid) && Integrity(v) && cols != []
    requires NameFree(v.classes, name, ns) && DistinctNames(cols)
    ensures var w := WithTable(v, slot, oid, name, ns, cols);
      KeysUnique(w) && Below(w, slot + 1 + |cols|, oid + 1) && Integrity(w)
  {
    NewTableKeepsKeys(v, slot, oid, name, ns, cols);
    NewTableIntegrity(v, slot, oid, name, ns, cols);
  }

  /** Creating an index keeps them exactly when the table it names exists. */
  lemma NewIndexKept(v: Rows, slot: Slot, oid: Oid, name: string, ns: Oid, table: Oid, cols: seq<Column>)
    requires KeysUnique(v) && Below(v, slot, oid) && Integrity(v) && cols != []
    requires NameFree(v.classes, name, ns) && DistinctNames(cols)
    ensures var w := WithIndex(v, slot, oid, name, ns, table, cols);
      && KeysUnique(w) && Below(w, slot + 2 + |cols|, oid + 1)
      && (Integrity(w) <==> table in OidsOfKind(v.classes, REGULAR_TABLE))
  {
    NewIndexKeepsKeys(v, slot, oid, name, ns, table, cols);
    NewIndexIntegrity(v, slot, oid, name, ns, table, cols);
  }

  /** Deleting a table straight after creating it gives the catalog back. */
  lemma CreateThenDelete(v: Rows, slot: Slot, oid: Oid, name: string, ns: Oid, cols: seq<Column>)
    requires Integrity(v) && Below(v, slot, oid)
    ensures Removed(WithTable(v, slot, oid, name, ns, cols), DroppedWithTable(WithTable(v, slot, oid, name, ns, cols), oid)) == v
  {
    var w := WithTable(v, slot, oid, name, ns, cols);
    OwnersAbsent(v.classes, ClassOid, oid);
    OwnersAbsent(v.indexes, IndexOid, oid);
    OwnersAbsent(v.columns, AttributeOwner, oid);
    forall s | s in v.indexes ensures v.indexes[s].table != oid {
      assert IndexTable(v.indexes[s]) in Owners(v.indexes, IndexTable);
    }
    assert DroppedWithTable(w, oid) == {oid};
    assert Without(w.classes, ClassOid, {oid}) == v.classes;
    forall s: Slot
      ensures s in w.columns && w.columns[s].classOid != oid <==> s in v.columns
      ensures s in v.columns ==> w.columns[s] == v.columns[s]
    {
      NewRows(v.columns, oid, cols, slot + 1, s);
    }
    assert Without(w.columns, AttributeOwner, {oid}) == v.columns;
    assert Without(w.indexes, IndexOid, {oid}) == v.indexes;
  }

  // ---------------------------------------------------------------------------
  // Cascading deletes
  // ---------------------------------------------------------------------------

  lemma IndexesOnAreIndexes(v: Rows, tables: set<Oid>)
    requires Integrity(v)
    ensures IndexesOn(v.indexes, tables) <= OidsOfKind(v.classes, INDEX)
  {
    forall i | i in IndexesOn(v.indexes, tables) ensures i in OidsOfKind(v.classes, INDEX) {
      var s :| s in v.indexes && v.indexes[s].table in tables && v.indexes[s].oid == i;
      assert IndexOid(v.indexes[s]) in Owners(v.indexes, IndexOid);
    }
  }

  /** Tables and indexes have different oids. */
  lemma KindsApart(v: Rows, oid: Oid)
    requires Unique(v.classes, ClassOid) && oid in OidsOfKind(v.classes, REGULAR_TABLE)
    ensures oid !in OidsOfKind(v.classes, INDEX)
  {
    var t :| t in v.classes && v.classes[t].kind == REGULAR_TABLE && v.classes[t].oid == oid;
    forall s | s in v.classes && v.classes[s].oid == oid ensures v.classes[s].kind == REGULAR_TABLE {
      assert ClassOid(v.classes[s]) == ClassOid(v.classes[t]);
    }
  }

  /** Dropping a table with its indexes keeps all the catalog promises. */
  lemma TableDropKept(v: Rows, table: Oid, nextSlot: Slot, nextOid: Oid)
    requires KeysUnique(v) && Below(v, nextSlot, nextOid) && Integrity(v) && table in OidsOfKind(v.classes, REGULAR_TABLE)
    ensures var w := Removed(v, DroppedWithTable(v, table));
      KeysUnique(w) && Below(w, nextSlot, nextOid) && Integrity(w)
  {
    var removed := DroppedWithTable(v, table);
    IndexesOnAreIndexes(v, {table});
    NoIndexOnIndexes(v, IndexesOn(v.indexes, {table}));
    assert IndexesOn(v.indexes, removed) <= IndexesOn(v.indexes, {table}) + IndexesOn(v.indexes, IndexesOn(v.indexes, {table}));
    RemovalKeepsIntegrity(v, removed);
  }

  /** Dropping an index keeps all the catalog promises. */
  lemma IndexDropKept(v: Rows, index: Oid, nextSlot: Slot, nextOid: Oid)
    requires KeysUnique(v) && Below(v, nextSlot, nextOid) && Integrity(v) && index in OidsOfKind(v.classes, INDEX)
    ensures var w := Removed(v, {index});
      KeysUnique(w) && Below(w, nextSlot, nextOid) && Integrity(w)
  {
    NoIndexOnIndexes(v, {index});
    RemovalKeepsIntegrity(v, {index});
  }

  /** No index is on an index. */
  lemma NoIndexOnIndexes(v: Rows, some: set<Oid>)
    requires Unique(v.classes, ClassOid) && Integrity(v) && some <= OidsOfKind(v.classes, INDEX)
    ensures IndexesOn(v.indexes, some) == {}
  {
    if i :| i in IndexesOn(v.indexes, some) {
      var s :| s in v.indexes && v.indexes[s].table in some && v.indexes[s].oid == i;
      assert IndexTable(v.indexes[s]) in Owners(v.indexes, IndexTable);
      KindsApart(v, v.indexes[s].table);
      assert false;
    }
  }

  lemma ObjectsInWithout(classes: map<Slot, ClassRow>, ns: Oid, kind: ClassKind, removed: set<Oid>)
    ensures ObjectsIn(Without(classes, ClassOid, removed), ns, kind) == ObjectsIn(classes, ns, kind) - removed
  {
    forall s | s in classes && classes[s].ns == ns && classes[s].kind == kind && classes[s].oid !in removed
      ensures classes[s].oid in ObjectsIn(Without(classes, ClassOid, removed), ns, kind)
    {
      assert s in Without(classes, ClassOid, removed);
    }
  }

  lemma IndexesOnUnion(indexes: map<Slot, IndexRow>, a: set<Oid>, b: set<Oid>)
    ensures IndexesOn(indexes, a + b) == IndexesOn(indexes, a) + IndexesOn(indexes, b)
  {
  }

  /** Some tables and all indexes on them. */
  ghost function WithTheirIndexes(v: Rows, tables: set<Oid>): set<Oid> {
    tables + IndexesOn(v.indexes, tables)
  }

  /** The catalog after a namespace was dropped. */
  ghost function NamespaceDropped(v: Rows, ns: Oid): Rows {
    Removed(v, DroppedWithNamespace(v, ns)).(namespaces := Without(v.namespaces, NamespaceOid, {ns}))
  }

  /** The row of the namespace can go before its objects. */
  lemma NamespaceRowGone(v: Rows, ns: Oid)
    requires KeysUnique(v) && Integrity(v)
    ensures var u := v.(namespaces := Without(v.namespaces, NamespaceOid, {ns}));
      KeysUnique(u) && Integrity(u) && Removed(u, DroppedWithNamespace(u, ns)) == NamespaceDropped(v, ns)
  {
  }

  /** Dropping a namespace leaves none of its objects, keeps all the catalog promises, and outside
      the namespace takes nothing but indexes on its tables. */
  lemma NamespaceDropKept(v: Rows, ns: Oid, nextSlot: Slot, nextOid: Oid)
    requires KeysUnique(v) && Below(v, nextSlot, nextOid) && Integrity(v)
    ensures var w := NamespaceDropped(v, ns);
      && KeysUnique(w) && Below(w, nextSlot, nextOid) && Integrity(w)
      && (forall s :: s in w.classes ==> w.classes[s].ns != ns)
    ensures forall s | s in v.classes && s !in NamespaceDropped(v, ns).classes && v.classes[s].ns != ns ::
      v.classes[s].kind == INDEX && v.classes[s].oid in IndexesOn(v.indexes, ObjectsIn(v.classes, ns, REGULAR_TABLE))
  {
    var tables, inside := ObjectsIn(v.classes, ns, REGULAR_TABLE), ObjectsIn(v.classes, ns, INDEX);
    var removed := DroppedWithNamespace(v, ns);
    IndexesOnAreIndexes(v, tables);
    NoIndexOnIndexes(v, IndexesOn(v.indexes, tables) + inside);
    IndexesOnUnion(v.indexes, tables, IndexesOn(v.indexes, tables) + inside);
    assert removed == tables + (IndexesOn(v.indexes, tables) + inside);
    RemovalKeepsIntegrity(v, removed);
    forall s | s in v.classes && v.classes[s].ns == ns ensures v.classes[s].oid in removed {
      assert v.classes[s].oid in (if v.classes[s].kind == INDEX then inside else tables);
    }
    forall s | s in v.classes && v.classes[s].oid in removed && v.classes[s].ns != ns
      ensures v.classes[s].kind == INDEX && v.classes[s].oid in IndexesOn(v.indexes, tables)
    {
      OutsideNamespace(v, ns, s);
    }
  }

  lemma OutsideNamespace(v: Rows, ns: Oid, s: Slot)
    requires Unique(v.classes, ClassOid) && Integrity(v)
    requires s in v.classes && v.classes[s].ns != ns
    ensures v.classes[s].oid !in ObjectsIn(v.classes, ns, REGULAR_TABLE) + ObjectsIn(v.classes, ns, INDEX)
    ensures v.classes[s].oid in OidsOfKind(v.classes, INDEX) ==> v.classes[s].kind == INDEX
    ensures v.classes[s].oid in IndexesOn(v.indexes, ObjectsIn(v.classes, ns, REGULAR_TABLE)) ==> v.classes[s].kind == INDEX
  {
    forall t | t in v.classes && v.classes[t].oid == v.classes[s].oid ensures t == s {
      assert ClassOid(v.classes[t]) == ClassOid(v.classes[s]);
    }
    IndexesOnAreIndexes(v, ObjectsIn(v.classes, ns, REGULAR_TABLE));
  }

  /** The objects of one kind among a namespace's objects. */
  lemma OfKindOnly(objects: set<(Oid, ClassKind)>, some: set<Oid>, classes: map<Slot, ClassRow>, ns: Oid, kind: ClassKind)
    requires forall oid: Oid, k: ClassKind :: (oid, k) in objects <==> oid in ObjectsIn(classes, ns, k)
    requires some == set o | o in objects && o.1 == kind :: o.0
    ensures some == ObjectsIn(classes, ns, kind) && some <= OidsOfKind(classes, kind)
  {
    forall oid: Oid ensures oid in some <==> oid in ObjectsIn(classes, ns, kind) {
      if oid in some {
        var o :| o in objects && o.1 == kind && o.0 == oid;
        assert (oid, kind) in objects;
      }
      if oid in ObjectsIn(classes, ns, kind) {
        assert (oid, kind) in objects;
      }
    }
  }
}
