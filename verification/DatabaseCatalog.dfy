/** The catalog of one database: creating and deleting tables, indexes and namespaces
    under the DDL lock. */
module DatabaseCatalogs {
  import opened Options
  import opened CatalogStorage
  import opened CatalogTables
  import opened CatalogConflicts
  import opened CatalogChanges
  import Lock = DdlLock

  class Txn {
    const start: nat
    var mustAbort: bool

    constructor (start: nat)
      ensures this.start == start && !mustAbort
    {
      this.start, mustAbort := start, false;
    }
  }

  /** TryLock succeeds for the present owner, and for a transaction that started no
      earlier than the last owner committed. */
  predicate CanLock(word: nat, start: nat) {
    word == Lock.Id(start) || (Lock.Committed(word) && !Lock.NewerThan(word, start))
  }

  /** A TryLock whose load and compare-and-swap no other step separates: the lock is had exactly when
      CanLock says so, with one release registered if it was not had before, and otherwise the
      transaction is marked to abort. */
  lemma TryLockIsLoadThenDecide(s: Lock.State, t: nat)
    requires Lock.Enabled(s, Lock.Load(t))
    ensures
      var loaded := Lock.Apply(s, Lock.Load(t));
      Lock.Enabled(loaded, Lock.Decide(t)) &&
      var r, ok := Lock.Apply(loaded, Lock.Decide(t)), CanLock(s.word, t);
      && r.word == (if ok then Lock.Id(t) else s.word)
      && r.txns[t].mustAbort == (s.txns[t].mustAbort || !ok)
      && r.txns[t].releases == (if ok && s.word != Lock.Id(t) then [s.word] else []) + s.txns[t].releases
  {
    assert [] + s.txns[t].releases == s.txns[t].releases;
  }

  class DatabaseCatalog {
    var writeLock: nat
    var nextOid: Oid
    var nextSlot: Slot
    var classes: ClassTable
    var indexes: PgIndexTable
    var columns: AttributeTable
    var namespaces: NamespaceTable
    /** What other transactions still hold. */
    var conflicts: Conflicts

    ghost function View(): Rows
      reads this
    {
      Rows(classes.rows, indexes.rows, columns.rows, namespaces.rows)
    }

    /** The indexes of pg_class, pg_index and pg_attribute agree with their tables; those of pg_class
        list besides the given rows, deleted from the table but not yet from its indexes. */
    ghost predicate Indexed(pending: map<Slot, ClassRow>)
      reads this`classes, this`indexes, this`columns
    {
      && classes == IndexedClasses(classes.rows, classes.rows + pending)
      && classes.rows.Keys !! pending.Keys
      && indexes == IndexedIndexes(indexes.rows)
      && columns == IndexedColumns(columns.rows)
    }

    /** Every index agrees with its table. */
    ghost predicate AllIndexed()
      reads this
    {
      && classes == IndexedClasses(classes.rows, classes.rows)
      && indexes == IndexedIndexes(indexes.rows)
      && columns == IndexedColumns(columns.rows)
      && namespaces == IndexedNamespaces(namespaces.rows, namespaces.rows)
    }

    lemma NothingPending()
      ensures AllIndexed() <==> Indexed(map[]) && namespaces == IndexedNamespaces(namespaces.rows, namespaces.rows)
    {
      assert classes.rows + map[] == classes.rows;
    }

    /** Every index agrees with its table, but those of pg_namespace still list the given rows. */
    ghost predicate PendingNamespace(listed: map<Slot, NamespaceRow>)
      reads this
    {
      Indexed(map[]) && namespaces == IndexedNamespaces(namespaces.rows, listed)
    }

    ghost function Next(): Counters
      reads this`nextSlot, this`nextOid
    {
      Counters(nextSlot, nextOid)
    }

    ghost predicate Consistent()
      reads this
    {
      AllIndexed() && View() in Sound(Next())
    }

    /** The transaction has the lock if it could be had, and else the word is as it was. */
    ghost predicate Locked(start: nat, before: nat)
      reads this`writeLock
    {
      writeLock == if CanLock(before, start) then Lock.Id(start) else before
    }

    /** No visible object of the namespace has the name, and none that another transaction holds. */
    ghost predicate Free(v: Rows, name: string, ns: Oid)
      reads this`conflicts
    {
      NameFree(v.classes, name, ns) && (name, ns) !in conflicts.names
    }

    method TryLock(txn: Txn) returns (ok: bool)
      modifies this`writeLock, txn`mustAbort
      ensures ok == CanLock(old(writeLock), txn.start)
      ensures writeLock == if ok then Lock.Id(txn.start) else old(writeLock)
      ensures txn.mustAbort == (old(txn.mustAbort) || !ok)
    {
      var currentVal := writeLock;
      if currentVal == Lock.Id(txn.start) {
        return true;
      }
      var ownedByOtherTxn := !Lock.Committed(currentVal);
      var newerCommittedVersion := Lock.Committed(currentVal) && Lock.NewerThan(currentVal, txn.start);
      if ownedByOtherTxn || newerCommittedVersion {
        txn.mustAbort := true;
        return false;
      }
      writeLock := Lock.Id(txn.start);
      return true;
    }

    // -------------------------------------------------------------------------
    // Columns
    // -------------------------------------------------------------------------

    // A key that holds an oid drawn by this transaction occurs in no other one's rows.

    method CreateColumn(txn: Txn, classOid: Oid, num: nat, col: Column) returns (ok: bool)
      requires columns == IndexedColumns(columns.rows) && nextSlot !in columns.rows
      requires forall s :: s in columns.rows ==> AttributeOid(columns.rows[s]) != (classOid, num)
      modifies this`columns, this`nextSlot, txn`mustAbort
      ensures ok <==> forall s :: s in old(columns.rows) ==> AttributeName(old(columns.rows)[s]) != (col.name, classOid)
      ensures nextSlot == old(nextSlot) + 1
      ensures columns.rows == old(columns.rows)[old(nextSlot) := AttributeOf(classOid, num, col)]
      ensures ok ==> columns == IndexedColumns(columns.rows)
      ensures txn.mustAbort == (old(txn.mustAbort) || !ok)
    {
      var slot, row := nextSlot, AttributeOf(classOid, num, col);
      ghost var before := columns.rows;
      nextSlot := nextSlot + 1;
      columns := columns.(rows := columns.rows[slot := row]);
      UniqueCheck(before, AttributeName, slot, row, {}, (col.name, classOid));
      if Refused(columns.byName, columns.rows, {}, (col.name, classOid)) {
        txn.mustAbort := true;
        return false;
      }
      columns := columns.(byName := columns.byName + {((col.name, classOid), slot)});
      columns := columns.(byOid := columns.byOid + {((classOid, num), slot)});
      EntriesAdd(before, AttributeName, slot, row);
      EntriesAdd(before, AttributeOid, slot, row);
      return true;
    }

    method CreateColumns(txn: Txn, classOid: Oid, cols: seq<Column>) returns (ok: bool)
      requires columns == IndexedColumns(columns.rows) && SlotsBelow(columns.rows, nextSlot)
      requires classOid !in Owners(columns.rows, AttributeOwner)
      modifies this`columns, this`nextSlot, txn`mustAbort
      ensures ok <==> DistinctNames(cols)
      ensures nextSlot >= old(nextSlot)
      ensures ok ==> nextSlot == old(nextSlot) + |cols|
      ensures ok ==> columns == IndexedColumns(old(columns.rows) + ColumnRows(classOid, cols, old(nextSlot)))
      ensures txn.mustAbort == (old(txn.mustAbort) || !ok)
    {
      ghost var before, first := columns.rows, nextSlot;
      assert before + ColumnRows(classOid, cols[..0], first) == before;
      var i := 0;
      while i < |cols|
        invariant 0 <= i <= |cols| && nextSlot == first + i
        invariant columns == IndexedColumns(before + ColumnRows(classOid, cols[..i], first))
        invariant DistinctNames(cols[..i])
        invariant txn.mustAbort == old(txn.mustAbort)
      {
        NextColumn(before, classOid, cols, first, i, columns.rows);
        ok := CreateColumn(txn, classOid, i + 1, cols[i]);
        if !ok {
          return;
        }
        i := i + 1;
      }
      assert cols[..i] == cols;
      return true;
    }

    /** The visible slots with keys in a closed range, in key order. */
    method ScanAscending(low: (Oid, nat), high: (Oid, nat)) returns (slots: seq<Slot>)
      requires columns == IndexedColumns(columns.rows) && Unique(columns.rows, AttributeOid)
      ensures Ascending(slots, columns.rows)
      ensures forall s :: s in slots <==>
        s in columns.rows && KeyAtMost(low, AttributeOid(columns.rows[s])) && KeyAtMost(AttributeOid(columns.rows[s]), high)
    {
      EntriesAt(columns.rows, AttributeOid);
      var found := set e | e in columns.byOid && e.1 in columns.rows && KeyAtMost(low, e.0) && KeyAtMost(e.0, high);
      forall e | e in found ensures e.0 == AttributeOid(columns.rows[e.1]) {
        assert (e.0, e.1) in columns.byOid;
      }
      var list := InKeyOrder(found);
      slots := [];
      for k := 0 to |list|
        invariant |slots| == k && forall i :: 0 <= i < k ==> slots[i] == list[i].1
      {
        slots := slots + [list[k].1];
      }
      forall i | 0 <= i < |list|
        ensures slots[i] in columns.rows && AttributeOid(columns.rows[slots[i]]) == list[i].0
        ensures KeyAtMost(low, list[i].0) && KeyAtMost(list[i].0, high)
      {
        assert list[i] in found;
      }
      forall s | s in columns.rows && KeyAtMost(low, AttributeOid(columns.rows[s])) && KeyAtMost(AttributeOid(columns.rows[s]), high)
        ensures s in slots
      {
        var e := (AttributeOid(columns.rows[s]), s);
        assert e in found;
        var i :| 0 <= i < |list| && list[i] == e;
        assert slots[i] == s;
      }
    }

    /** The slots of a class's columns, by the closed range from (class, 0) to (class + 1, 0). */
    method ColumnSlots(classOid: Oid) returns (slots: seq<Slot>)
      requires columns == IndexedColumns(columns.rows) && Unique(columns.rows, AttributeOid)
      requires forall s :: s in columns.rows ==> columns.rows[s].num >= 1
      ensures Ascending(slots, columns.rows)
      ensures forall s :: s in slots <==> s in columns.rows && columns.rows[s].classOid == classOid
    {
      slots := ScanAscending((classOid, 0), (classOid + 1, 0));
      forall s | s in columns.rows ensures s in slots <==> columns.rows[s].classOid == classOid {
        RangeIsOneClass(columns.rows, classOid, s);
      }
    }

    /** The columns of a class in the order of their oids; for a class whose columns were written
        as a list, that list. */
    method GetColumns(classOid: Oid) returns (cols: seq<BoundColumn>)
      requires columns == IndexedColumns(columns.rows) && Unique(columns.rows, AttributeOid)
      requires forall s :: s in columns.rows ==> columns.rows[s].num >= 1
      requires classOid in Owners(columns.rows, AttributeOwner)
      ensures forall i, j :: 0 <= i < j < |cols| ==> cols[i].oid < cols[j].oid
      ensures forall b :: b in cols <==>
        exists s :: s in columns.rows && columns.rows[s].classOid == classOid && b == ColumnOf(columns.rows[s])
      ensures forall others: map<Slot, AttributeRow>, l: seq<Column>, first: Slot |
        columns.rows == others + ColumnRows(classOid, l, first) && SlotsBelow(others, first) &&
        classOid !in Owners(others, AttributeOwner) && AllWellFormed(l) :: cols == Numbered(l)
    {
      var slots := ColumnSlots(classOid);
      cols := [];
      for k := 0 to |slots|
        invariant |cols| == k && forall i :: 0 <= i < k ==> cols[i] == ColumnOf(columns.rows[slots[i]])
      {
        cols := cols + [ColumnOf(columns.rows[slots[k]])];
      }
      forall others: map<Slot, AttributeRow>, l: seq<Column>, first: Slot |
        columns.rows == others + ColumnRows(classOid, l, first) && SlotsBelow(others, first) &&
        classOid !in Owners(others, AttributeOwner) && AllWellFormed(l)
        ensures cols == Numbered(l)
      {
        ColumnRoundTrip(others, classOid, l, first, slots);
      }
      assert forall i :: 0 <= i < |slots| ==> slots[i] in slots;
    }

    /** The code asserts that there are columns; where assertions are off, none are deleted. */
    method DeleteColumns(txn: Txn, classOid: Oid) returns (ok: bool)
      requires columns == IndexedColumns(columns.rows) && KeysUnique(View())
      modifies this`columns, txn`mustAbort
      ensures ok <==> NoneHeld(old(columns.rows), AttributeOwner, {classOid}, conflicts.columns)
      ensures columns == IndexedColumns(columns.rows)
      ensures Thinned(old(columns.rows), columns.rows, AttributeOwner, {classOid}, conflicts.columns)
      ensures ok ==> columns.rows == Without(old(columns.rows), AttributeOwner, {classOid})
      ensures txn.mustAbort == (old(txn.mustAbort) || !ok)
    {
      var slots := ColumnSlots(classOid);
      ghost var before, gone := columns.rows, {};
      assert before - gone == before;
      var i := 0;
      while i < |slots|
        invariant 0 <= i <= |slots|
        invariant columns == IndexedColumns(before - gone)
        invariant forall s :: s in gone <==> s in slots[..i]
        invariant gone !! conflicts.columns && txn.mustAbort == old(txn.mustAbort)
      {
        var slot := slots[i];
        var row := columns.rows[slot];
        if slot in conflicts.columns {
          txn.mustAbort := true;
          assert slot in before;
          return false;
        }
        DeleteColumnRow(classOid, slot, row);
        assert before - gone - {slot} == before - (gone + {slot});
        gone := gone + {slot};
        i := i + 1;
      }
      assert before - gone == Without(before, AttributeOwner, {classOid});
      return true;
    }

    method DeleteColumnRow(classOid: Oid, slot: Slot, row: AttributeRow)
      requires columns == IndexedColumns(columns.rows)
      requires slot in columns.rows && columns.rows[slot] == row && row.classOid == classOid
      modifies this`columns
      ensures columns == IndexedColumns(old(columns.rows) - {slot})
    {
      EntriesRemove(columns.rows, AttributeOid, slot);
      EntriesRemove(columns.rows, AttributeName, slot);
      columns := columns.(rows := columns.rows - {slot});
      columns := columns.(byOid := columns.byOid - {((classOid, row.num), slot)});
      columns := columns.(byName := columns.byName - {((row.name, classOid), slot)});
    }

    // -------------------------------------------------------------------------
    // Creating tables and indexes
    // -------------------------------------------------------------------------

    /** Inserts a row into pg_class and its three indexes, two of them unique. */
    method InsertClass(txn: Txn, row: ClassRow) returns (ok: bool)
      requires classes == IndexedClasses(classes.rows, classes.rows) && nextSlot !in classes.rows
      modifies this`classes, this`nextSlot, txn`mustAbort
      ensures ok <==> row.oid !in Owners(old(classes.rows), ClassOid) && Free(old(View()), row.name, row.ns)
      ensures nextSlot == old(nextSlot) + 1
      ensures classes.rows == old(classes.rows)[old(nextSlot) := row]
      ensures ok ==> classes == IndexedClasses(classes.rows, classes.rows)
      ensures txn.mustAbort == (old(txn.mustAbort) || !ok)
    {
      var slot := nextSlot;
      ghost var before := classes.rows;
      nextSlot := nextSlot + 1;
      classes := classes.(rows := classes.rows[slot := row]);
      UniqueCheck(before, ClassOid, slot, row, {}, row.oid);
      OwnersAbsent(before, ClassOid, row.oid);
      if Refused(classes.byOid, classes.rows, {}, row.oid) {
        txn.mustAbort := true;
        return false;
      }
      classes := classes.(byOid := classes.byOid + {(row.oid, slot)});
      UniqueCheck(before, ClassName, slot, row, conflicts.names, (row.name, row.ns));
      if Refused(classes.byName, classes.rows, conflicts.names, (row.name, row.ns)) {
        txn.mustAbort := true;
        return false;
      }
      classes := classes.(byName := classes.byName + {((row.name, row.ns), slot)});
      classes := classes.(byNamespace := classes.byNamespace + {(row.ns, slot)});
      EntriesAdd(before, ClassOid, slot, row);
      EntriesAdd(before, ClassName, slot, row);
      EntriesAdd(before, ClassNamespace, slot, row);
      return true;
    }

    /** Inserts a row into pg_index and its two indexes. */
    method InsertIndexRow(txn: Txn, row: IndexRow) returns (ok: bool)
      requires indexes == IndexedIndexes(indexes.rows) && nextSlot !in indexes.rows
      modifies this`indexes, this`nextSlot, txn`mustAbort
      ensures ok <==> row.oid !in Owners(old(indexes.rows), IndexOid)
      ensures nextSlot == old(nextSlot) + 1
      ensures indexes.rows == old(indexes.rows)[old(nextSlot) := row]
      ensures ok ==> indexes == IndexedIndexes(indexes.rows)
      ensures txn.mustAbort == (old(txn.mustAbort) || !ok)
    {
      var slot := nextSlot;
      ghost var before := indexes.rows;
      nextSlot := nextSlot + 1;
      indexes := indexes.(rows := indexes.rows[slot := row]);
      UniqueCheck(before, IndexOid, slot, row, {}, row.oid);
      OwnersAbsent(before, IndexOid, row.oid);
      if Refused(indexes.byOid, indexes.rows, {}, row.oid) {
        txn.mustAbort := true;
        return false;
      }
      indexes := indexes.(byOid := indexes.byOid + {(row.oid, slot)});
      indexes := indexes.(byTable := indexes.byTable + {(row.table, slot)});
      EntriesAdd(before, IndexOid, slot, row);
      EntriesAdd(before, IndexTable, slot, row);
      return true;
    }

    /** Writes the columns, reads them back and stores what was read as the object's schema. */
    method FillSchema(txn: Txn, slot: Slot, cols: seq<Column>) returns (ok: bool)
      requires classes == IndexedClasses(classes.rows, classes.rows) && slot in classes.rows
      requires columns == IndexedColumns(columns.rows) && SlotsBelow(columns.rows, nextSlot)
      requires Unique(columns.rows, AttributeOid) && Unique(columns.rows, AttributeName)
      requires forall s :: s in columns.rows ==> columns.rows[s].num >= 1
      requires classes.rows[slot].oid !in Owners(columns.rows, AttributeOwner)
      requires cols != [] && AllWellFormed(cols)
      modifies this`classes, this`columns, this`nextSlot, txn`mustAbort
      ensures ok <==> DistinctNames(cols)
      ensures nextSlot >= old(nextSlot)
      ensures ok ==>
        && nextSlot == old(nextSlot) + |cols|
        && columns == IndexedColumns(old(columns.rows) + ColumnRows(old(classes.rows)[slot].oid, cols, old(nextSlot)))
        && classes.rows == old(classes.rows)[slot := old(classes.rows)[slot].(schema := Some(Numbered(cols)))]
        && classes == IndexedClasses(classes.rows, classes.rows)
      ensures txn.mustAbort == (old(txn.mustAbort) || !ok)
    {
      var oid := classes.rows[slot].oid;
      ghost var before, first := columns.rows, nextSlot;
      ok := CreateColumns(txn, oid, cols);
      if ok {
        ColumnOwnersAdd(before, oid, cols, first);
        ColumnsStayUnique(before, oid, cols, first);
        var schema := GetColumns(oid);
        assert schema == Numbered(cols);
        var row := classes.rows[slot].(schema := Some(schema));
        EntriesUpdate(classes.rows, ClassOid, slot, row);
        EntriesUpdate(classes.rows, ClassName, slot, row);
        EntriesUpdate(classes.rows, ClassNamespace, slot, row);
        classes := classes.(rows := classes.rows[slot := row]);
      }
    }

    method CreateTableEntry(txn: Txn, oid: Oid, ns: Oid, name: string, cols: seq<Column>) returns (ok: bool)
      requires AllIndexed() && KeysUnique(View()) && Below(View(), nextSlot, oid) && OidFree(View(), oid)
      requires cols != [] && AllWellFormed(cols)
      modifies this`classes, this`columns, this`nextSlot, txn`mustAbort
      ensures ok <==> Free(old(View()), name, ns) && DistinctNames(cols)
      ensures nextSlot >= old(nextSlot)
      ensures ok ==>
        && AllIndexed() && nextSlot == old(nextSlot) + 1 + |cols|
        && View() == WithTable(old(View()), old(nextSlot), oid, name, ns, cols)
      ensures txn.mustAbort == (old(txn.mustAbort) || !ok)
    {
      var slot := nextSlot;
      ok := InsertClass(txn, ClassRow(oid, name, ns, REGULAR_TABLE, None));
      if ok {
        ok := FillSchema(txn, slot, cols);
      }
    }

    method CreateTable(txn: Txn, ns: Oid, name: string, cols: seq<Column>) returns (r: Option<Oid>)
      requires Consistent()
      requires cols != [] && AllWellFormed(cols)
      modifies this`writeLock, this`nextOid, this`nextSlot, this`classes, this`indexes, this`columns, txn`mustAbort
      ensures !CanLock(old(writeLock), txn.start) ==> r == None && unchanged(this)
      ensures CanLock(old(writeLock), txn.start) ==>
        && (r.Some? <==> Free(old(View()), name, ns) && DistinctNames(cols))
        && nextOid == old(nextOid) + 1 && nextSlot >= old(nextSlot) && writeLock == Lock.Id(txn.start)
      ensures r.Some? ==>
        && r.value == old(nextOid) && Consistent()
        && View() == WithTable(old(View()), old(nextSlot), r.value, name, ns, cols)
        && nextSlot == old(nextSlot) + 1 + |cols|
      ensures txn.mustAbort == (old(txn.mustAbort) || r.None?)
    {
      var locked := TryLock(txn);
      if !locked {
        return None;
      }
      var oid := nextOid;
      nextOid := nextOid + 1;
      var ok := CreateTableEntry(txn, oid, ns, name, cols);
      if ok {
        NewTableKept(old(View()), old(nextSlot), oid, name, ns, cols);
      }
      return if ok then Some(oid) else None;
    }

    /** Inserts the rows of an index into pg_class and pg_index. */
    method InsertIndexObject(txn: Txn, oid: Oid, ns: Oid, name: string, table: Oid) returns (ok: bool)
      requires AllIndexed() && Below(View(), nextSlot, oid) && OidFree(View(), oid)
      modifies this`classes, this`indexes, this`nextSlot, txn`mustAbort
      ensures ok <==> Free(old(View()), name, ns)
      ensures nextSlot >= old(nextSlot)
      ensures txn.mustAbort == (old(txn.mustAbort) || !ok)
      ensures ok ==>
        && AllIndexed() && nextSlot == old(nextSlot) + 2
        && classes.rows == old(classes.rows)[old(nextSlot) := ClassRow(oid, name, ns, INDEX, None)]
        && indexes.rows == old(indexes.rows)[old(nextSlot) + 1 := IndexRow(oid, table)]
    {
      ok := InsertClass(txn, ClassRow(oid, name, ns, INDEX, None));
      if ok {
        ok := InsertIndexRow(txn, IndexRow(oid, table));
        assert ok;
      }
    }

    method CreateIndexEntry(txn: Txn, oid: Oid, ns: Oid, name: string, table: Oid, cols: seq<Column>) returns (ok: bool)
      requires AllIndexed() && KeysUnique(View()) && Below(View(), nextSlot, oid) && OidFree(View(), oid)
      requires cols != [] && AllWellFormed(cols)
      modifies this`classes, this`indexes, this`columns, this`nextSlot, txn`mustAbort
      ensures ok <==> Free(old(View()), name, ns) && DistinctNames(cols)
      ensures nextSlot >= old(nextSlot)
      ensures ok ==>
        && AllIndexed() && nextSlot == old(nextSlot) + 2 + |cols|
        && View() == WithIndex(old(View()), old(nextSlot), oid, name, ns, table, cols)
      ensures txn.mustAbort == (old(txn.mustAbort) || !ok)
    {
      var slot := nextSlot;
      ok := InsertIndexObject(txn, oid, ns, name, table);
      if ok {
        ok := FillSchema(txn, slot, cols);
      }
    }

    /** The table an index names is not looked up: the catalog stays consistent exactly when it exists. */
    method CreateIndex(txn: Txn, ns: Oid, name: string, table: Oid, cols: seq<Column>) returns (r: Option<Oid>)
      requires Consistent()
      requires cols != [] && AllWellFormed(cols)
      modifies this`writeLock, this`nextOid, this`nextSlot, this`classes, this`indexes, this`columns, txn`mustAbort
      ensures !CanLock(old(writeLock), txn.start) ==> r == None && unchanged(this)
      ensures CanLock(old(writeLock), txn.start) ==>
        && (r.Some? <==> Free(old(View()), name, ns) && DistinctNames(cols))
        && nextOid == old(nextOid) + 1 && nextSlot >= old(nextSlot) && writeLock == Lock.Id(txn.start)
      ensures r.Some? ==>
        && r.value == old(nextOid)
        && View() == WithIndex(old(View()), old(nextSlot), r.value, name, ns, table, cols)
        && nextSlot == old(nextSlot) + 2 + |cols|
        && (Consistent() <==> table in OidsOfKind(old(classes.rows), REGULAR_TABLE))
      ensures txn.mustAbort == (old(txn.mustAbort) || r.None?)
    {
      var locked := TryLock(txn);
      if !locked {
        return None;
      }
      var oid := nextOid;
      nextOid := nextOid + 1;
      var ok := CreateIndexEntry(txn, oid, ns, name, table, cols);
      if ok {
        NewIndexKept(old(View()), old(nextSlot), oid, name, ns, table, cols);
      }
      return if ok then Some(oid) else None;
    }

    // -------------------------------------------------------------------------
    // Deleting indexes, tables and namespaces
    // -------------------------------------------------------------------------

    /** Finds the one visible pg_class row of an object through the oid index. */
    method FindClass(oid: Oid, ghost pending: map<Slot, ClassRow>) returns (slot: Slot)
      requires classes == IndexedClasses(classes.rows, classes.rows + pending) && classes.rows.Keys !! pending.Keys
      requires oid in Owners(classes.rows, ClassOid)
      ensures slot in classes.rows && classes.rows[slot].oid == oid
    {
      ScanKeyExact(classes.rows, pending, ClassOid, oid);
      OwnersAbsent(classes.rows, ClassOid, oid);
      ghost var s :| s in classes.rows && ClassOid(classes.rows[s]) == oid;
      assert s in ScanKey(classes.byOid, classes.rows, oid);
      slot :| slot in ScanKey(classes.byOid, classes.rows, oid);
    }

    /** Removes the entries of a deleted pg_class row from the three indexes. */
    method DeleteClassEntries(slot: Slot, row: ClassRow, ghost pending: map<Slot, ClassRow>)
      requires slot !in classes.rows && slot !in pending
      requires classes == IndexedClasses(classes.rows, (classes.rows + pending)[slot := row])
      modifies this`classes
      ensures classes == IndexedClasses(old(classes.rows), old(classes.rows) + pending)
    {
      ghost var listed := (classes.rows + pending)[slot := row];
      EntriesRemove(listed, ClassOid, slot);
      EntriesRemove(listed, ClassName, slot);
      EntriesRemove(listed, ClassNamespace, slot);
      assert listed - {slot} == classes.rows + pending;
      classes := classes.(byOid := classes.byOid - {(row.oid, slot)});
      classes := classes.(byName := classes.byName - {((row.name, row.ns), slot)});
      classes := classes.(byNamespace := classes.byNamespace - {(row.ns, slot)});
    }

    /** Finds the one visible pg_index row of an index through the oid index. */
    method FindIndexRow(index: Oid) returns (slot: Slot)
      requires indexes == IndexedIndexes(indexes.rows) && index in Owners(indexes.rows, IndexOid)
      ensures slot in indexes.rows && indexes.rows[slot].oid == index
    {
      assert indexes.rows + map[] == indexes.rows;
      ScanKeyExact(indexes.rows, map[], IndexOid, index);
      OwnersAbsent(indexes.rows, IndexOid, index);
      ghost var s :| s in indexes.rows && IndexOid(indexes.rows[s]) == index;
      assert s in ScanKey(indexes.byOid, indexes.rows, index);
      slot :| slot in ScanKey(indexes.byOid, indexes.rows, index);
    }

    /** Deletes the pg_index row of an index and its entries. Whether the row could be deleted is asserted
        and nothing more; if not, the transaction is marked, and the removal of the entries, which waits for
        its commit, never happens. */
    method DeleteIndexRow(txn: Txn, index: Oid)
      requires indexes == IndexedIndexes(indexes.rows) && Unique(indexes.rows, IndexOid)
      requires index in Owners(indexes.rows, IndexOid)
      modifies this`indexes, txn`mustAbort
      ensures
        if NoneHeld(old(indexes.rows), IndexOid, {index}, conflicts.indexes)
        then indexes == IndexedIndexes(Without(old(indexes.rows), IndexOid, {index})) && txn.mustAbort == old(txn.mustAbort)
        else indexes == old(indexes) && txn.mustAbort
    {
      var slot := FindIndexRow(index);
      if slot in conflicts.indexes {
        txn.mustAbort := true;
        return;
      }
      var row := indexes.rows[slot];
      EntriesRemove(indexes.rows, IndexOid, slot);
      EntriesRemove(indexes.rows, IndexTable, slot);
      assert indexes.rows - {slot} == Without(indexes.rows, IndexOid, {index});
      indexes := indexes.(rows := indexes.rows - {slot});
      indexes := indexes.(byOid := indexes.byOid - {(index, slot)});
      indexes := indexes.(byTable := indexes.byTable - {(row.table, slot)});
    }

    /** Removes an object's row from pg_class, leaving its index entries pending. */
    method DeleteClassRow(txn: Txn, oid: Oid, ghost pending: map<Slot, ClassRow>) returns (ok: bool, slot: Slot, row: ClassRow)
      requires classes == IndexedClasses(classes.rows, classes.rows + pending) && classes.rows.Keys !! pending.Keys
      requires oid in Owners(classes.rows, ClassOid) && Unique(classes.rows, ClassOid)
      modifies this`classes, txn`mustAbort
      ensures ok <==> NoneHeld(old(classes.rows), ClassOid, {oid}, conflicts.classes)
      ensures txn.mustAbort == (old(txn.mustAbort) || !ok)
      ensures !ok ==> classes == old(classes)
      ensures ok ==>
        && slot !in classes.rows && slot !in pending && row.oid == oid
        && slot in old(classes.rows) && old(classes.rows)[slot] == row
        && classes.rows == Without(old(classes.rows), ClassOid, {oid})
        && classes == IndexedClasses(classes.rows, (classes.rows + pending)[slot := row])
    {
      slot := FindClass(oid, pending);
      row := classes.rows[slot];
      if slot in conflicts.classes {
        txn.mustAbort := true;
        return false, slot, row;
      }
      assert classes.rows - {slot} == Without(classes.rows, ClassOid, {oid});
      assert (classes.rows - {slot} + pending)[slot := row] == classes.rows + pending;
      classes := classes.(rows := classes.rows - {slot});
      ok := true;
    }

    /** Deletes an object's columns and its pg_class row; the row's index entries are left pending. */
    method DetachObject(txn: Txn, oid: Oid, ghost pending: map<Slot, ClassRow>) returns (ok: bool, slot: Slot, row: ClassRow)
      requires Indexed(pending) && KeysUnique(View()) && oid in Owners(classes.rows, ClassOid)
      modifies this`classes, this`columns, txn`mustAbort
      ensures ok <==> RowsClear(old(View()), {oid}, conflicts)
      ensures ok ==>
        && slot !in classes.rows && slot !in pending && txn.mustAbort == old(txn.mustAbort)
        && classes == IndexedClasses(Without(old(classes.rows), ClassOid, {oid}), (classes.rows + pending)[slot := row])
        && columns == IndexedColumns(Without(old(columns.rows), AttributeOwner, {oid}))
      ensures !ok ==>
        && Indexed(pending)
        && (View(), txn.mustAbort) in Outcomes(old(View()), {oid}, conflicts, old(txn.mustAbort))
    {
      ghost var v := View();
      ok := DeleteColumns(txn, oid);
      if ok {
        ok, slot, row := DeleteClassRow(txn, oid, pending);
      } else {
        slot, row := 0, ClassRow(oid, "", 0, REGULAR_TABLE, None);
      }
      if !ok {
        OutcomeAtColumns(v, columns.rows, oid, conflicts, old(txn.mustAbort));
      }
    }

    /** Deletes the rows of an index from pg_attribute, pg_class and pg_index, in that order. */
    method DeleteIndexRows(txn: Txn, index: Oid, ghost pending: map<Slot, ClassRow>) returns (ok: bool)
      requires Indexed(pending) && KeysUnique(View()) && IndexPresent(View(), index)
      modifies this`classes, this`indexes, this`columns, txn`mustAbort
      ensures ok <==> RowsClear(old(View()), {index}, conflicts)
      ensures Indexed(pending)
      ensures (View(), txn.mustAbort) in Outcomes(old(View()), {index}, conflicts, old(txn.mustAbort))
    {
      ghost var v := View();
      OwnersAbsent(classes.rows, ClassOid, index);
      var slot, row;
      ok, slot, row := DetachObject(txn, index, pending);
      if ok {
        DeleteClassEntries(slot, row, pending);
        DeleteIndexRow(txn, index);
        OutcomeOfIndex(v, View(), index, conflicts, old(txn.mustAbort), txn.mustAbort);
      }
    }

    /** Answers true although the row in pg_index stayed, if that one was held; the transaction is marked. */
    method DeleteIndex(txn: Txn, index: Oid, ghost pending: map<Slot, ClassRow>) returns (ok: bool)
      requires Indexed(pending) && KeysUnique(View()) && IndexPresent(View(), index)
      modifies this`classes, this`indexes, this`columns, this`writeLock, txn`mustAbort
      ensures ok <==> CanLock(old(writeLock), txn.start) && RowsClear(old(View()), {index}, conflicts)
      ensures Locked(txn.start, old(writeLock)) && Indexed(pending)
      ensures
        if CanLock(old(writeLock), txn.start)
        then (View(), txn.mustAbort) in Outcomes(old(View()), {index}, conflicts, old(txn.mustAbort))
        else View() == old(View()) && txn.mustAbort
    {
      ok := TryLock(txn);
      if ok {
        ok := DeleteIndexRows(txn, index, pending);
      }
    }

    /** The indexes on a table, through the table index of pg_index. */
    method GetIndexOids(table: Oid) returns (oids: set<Oid>)
      requires indexes == IndexedIndexes(indexes.rows)
      ensures oids == IndexesOn(indexes.rows, {table})
    {
      assert indexes.rows + map[] == indexes.rows;
      ScanKeyExact(indexes.rows, map[], IndexTable, table);
      oids := set s | s in ScanKey(indexes.byTable, indexes.rows, table) :: indexes.rows[s].oid;
    }

    /** Deletes one more index after others, deleted or given up half way. */
    method DeleteOneMore(txn: Txn, index: Oid, ghost pending: map<Slot, ClassRow>, ghost v: Rows, ghost all: set<Oid>,
                         ghost todo: set<Oid>, ghost before: bool)
      returns (ok: bool)
      requires Indexed(pending) && KeysUnique(v) && IndexPresent(v, index) && index in todo && todo <= all
      requires (View(), txn.mustAbort) in Ongoing(v, all - todo, all - todo, conflicts, before)
      requires writeLock == Lock.Id(txn.start)
      modifies this`classes, this`indexes, this`columns, this`writeLock, txn`mustAbort
      ensures writeLock == old(writeLock) && Indexed(pending)
      ensures ok ==> (View(), txn.mustAbort) in Ongoing(v, all - (todo - {index}), all - (todo - {index}), conflicts, before)
      ensures !ok ==> !RowsClear(v, all, conflicts) && (View(), txn.mustAbort) in Outcomes(v, all, conflicts, before)
    {
      ghost var w, marked, done := View(), txn.mustAbort, all - todo;
      PartlyKeepsKeys(v, w, done, conflicts);
      UntouchedIndex(v, w, done, conflicts, index);
      StillClear(v, w, done, conflicts, {index});
      ok := DeleteIndex(txn, index, pending);
      OneMoreIndex(v, w, View(), all, todo, index, conflicts, before, marked, txn.mustAbort);
    }

    /** Deletes the given indexes, in any order, up to the first whose columns or class row are held. */
    method DeleteIndexSet(txn: Txn, oids: set<Oid>, ghost pending: map<Slot, ClassRow>) returns (ok: bool)
      requires Indexed(pending) && KeysUnique(View())
      requires forall i :: i in oids ==> IndexPresent(View(), i)
      requires writeLock == Lock.Id(txn.start)
      modifies this`classes, this`indexes, this`columns, this`writeLock, txn`mustAbort
      ensures writeLock == old(writeLock) && Indexed(pending)
      ensures ok <==> RowsClear(old(View()), oids, conflicts)
      ensures (View(), txn.mustAbort) in Outcomes(old(View()), oids, conflicts, old(txn.mustAbort))
    {
      ghost var v := View();
      var todo := oids;
      OutcomeNone(v, conflicts, txn.mustAbort);
      assert oids - todo == {};
      while todo != {}
        invariant Indexed(pending) && writeLock == Lock.Id(txn.start) && todo <= oids
        invariant (View(), txn.mustAbort) in Ongoing(v, oids - todo, oids - todo, conflicts, old(txn.mustAbort))
        decreases todo
      {
        var index :| index in todo;
        var one := DeleteOneMore(txn, index, pending, v, oids, todo, old(txn.mustAbort));
        if !one {
          return false;
        }
        todo := todo - {index};
      }
      assert oids - todo == oids;
      return true;
    }

    method DeleteIndexes(txn: Txn, table: Oid, ghost pending: map<Slot, ClassRow>) returns (ok: bool)
      requires Indexed(pending) && KeysUnique(View())
      requires forall i :: i in IndexesOn(indexes.rows, {table}) ==> IndexPresent(View(), i)
      modifies this`classes, this`indexes, this`columns, this`writeLock, txn`mustAbort
      ensures Locked(txn.start, old(writeLock)) && Indexed(pending)
      ensures ok <==> CanLock(old(writeLock), txn.start) &&
                      RowsClear(old(View()), IndexesOn(old(indexes.rows), {table}), conflicts)
      ensures
        if CanLock(old(writeLock), txn.start)
        then (View(), txn.mustAbort) in Outcomes(old(View()), IndexesOn(old(indexes.rows), {table}), conflicts, old(txn.mustAbort))
        else View() == old(View()) && txn.mustAbort
    {
      ok := TryLock(txn);
      if ok {
        var oids := GetIndexOids(table);
        ok := DeleteIndexSet(txn, oids, pending);
      }
    }

    /** Deletes a table's columns and its pg_class row; the row's index entries are left pending. */
    method DetachTable(txn: Txn, table: Oid) returns (ok: bool, slot: Slot, row: ClassRow)
      requires Indexed(map[]) && KeysUnique(View()) && TablePresent(View(), table)
      modifies this`classes, this`columns, txn`mustAbort
      ensures ok <==> RowsClear(old(View()), {table}, conflicts)
      ensures (View(), txn.mustAbort) in Outcomes(old(View()), {table}, conflicts, old(txn.mustAbort))
      ensures if ok then slot !in classes.rows && Indexed(map[slot := row]) else Indexed(map[])
    {
      ghost var v := View();
      OwnersAbsent(classes.rows, ClassOid, table);
      ok, slot, row := DetachObject(txn, table, map[]);
      if ok {
        TableHasNoIndexRow(v, table, conflicts);
        OutcomeClear(v, {table}, conflicts, txn.mustAbort);
        assert (classes.rows + map[])[slot := row] == classes.rows + map[slot := row];
      }
    }

    /** Removes the pending entries of a table's pg_class row. */
    method DeleteTableEntries(slot: Slot, row: ClassRow)
      requires Indexed(map[slot := row])
      modifies this`classes
      ensures Indexed(map[]) && View() == old(View())
    {
      assert slot in map[slot := row];
      assert classes.rows + map[slot := row] == (classes.rows + map[])[slot := row];
      DeleteClassEntries(slot, row, map[]);
    }

    /** Answers true although an index on the table stayed, if rows of that one were held: the answer of
        the nested call is dropped. The transaction is marked then. */
    method DeleteTable(txn: Txn, table: Oid) returns (ok: bool)
      requires Indexed(map[]) && KeysUnique(View()) && TablePresent(View(), table)
      modifies this`classes, this`indexes, this`columns, this`writeLock, txn`mustAbort
      ensures ok <==> CanLock(old(writeLock), txn.start) && RowsClear(old(View()), {table}, conflicts)
      ensures Locked(txn.start, old(writeLock)) && Indexed(map[])
      ensures
        if CanLock(old(writeLock), txn.start)
        then (View(), txn.mustAbort) in Outcomes(old(View()), DroppedWithTable(old(View()), table), conflicts, old(txn.mustAbort))
        else View() == old(View()) && txn.mustAbort
    {
      ok := TryLock(txn);
      if ok {
        ghost var v := View();
        var slot, row;
        ok, slot, row := DetachTable(txn, table);
        TableHasNoIndexRow(v, table, conflicts);
        if !ok {
          OutcomeGivenUp(v, View(), {table}, DroppedWithTable(v, table), conflicts, old(txn.mustAbort), txn.mustAbort);
          return;
        }
        ghost var w, marked := View(), txn.mustAbort;
        TableGone(v, w, table, conflicts);
        var all := DeleteIndexes(txn, table, map[slot := row]);
        OutcomeTwice(v, w, View(), {table}, IndexesOn(v.indexes, {table}), conflicts, old(txn.mustAbort), marked, txn.mustAbort);
        DeleteTableEntries(slot, row);
      }
    }

    /** The visible objects of a namespace, through the namespace index of pg_class. */
    method GetNamespaceClassOids(ns: Oid) returns (objects: set<(Oid, ClassKind)>)
      requires classes == IndexedClasses(classes.rows, classes.rows + map[])
      ensures forall oid: Oid, kind: ClassKind :: (oid, kind) in objects <==> oid in ObjectsIn(classes.rows, ns, kind)
    {
      ScanKeyExact(classes.rows, map[], ClassNamespace, ns);
      objects := set s | s in ScanKey(classes.byNamespace, classes.rows, ns) :: (classes.rows[s].oid, classes.rows[s].kind);
    }

    /** Deletes the given tables, in any order, up to the first whose columns or class row are held. */
    method DeleteTables(txn: Txn, tables: set<Oid>) returns (ok: bool)
      requires Indexed(map[]) && KeysUnique(View()) && Integrity(View())
      requires tables <= OidsOfKind(classes.rows, REGULAR_TABLE)
      requires writeLock == Lock.Id(txn.start)
      modifies this`classes, this`indexes, this`columns, this`writeLock, txn`mustAbort
      ensures writeLock == old(writeLock) && Indexed(map[])
      ensures ok <==> RowsClear(old(View()), tables, conflicts)
      ensures (View(), txn.mustAbort) in
              Outcomes(old(View()), WithTheirIndexes(old(View()), tables), conflicts, old(txn.mustAbort))
    {
      ghost var v := View();
      var todo := tables;
      OutcomeNone(v, conflicts, txn.mustAbort);
      assert tables - todo == {} && WithTheirIndexes(v, {}) == {};
      while todo != {}
        invariant Indexed(map[]) && writeLock == Lock.Id(txn.start) && todo <= tables
        invariant (View(), txn.mustAbort) in
                  Ongoing(v, WithTheirIndexes(v, tables - todo), tables - todo, conflicts, old(txn.mustAbort))
        decreases todo
      {
        var table :| table in todo;
        var one := DeleteNextTable(txn, table, v, tables, todo, old(txn.mustAbort));
        if !one {
          return false;
        }
        todo := todo - {table};
      }
      assert tables - todo == tables;
      return true;
    }

    /** Deletes one more table after others, deleted or given up half way. */
    method DeleteNextTable(txn: Txn, table: Oid, ghost v: Rows, ghost all: set<Oid>, ghost todo: set<Oid>, ghost before: bool)
      returns (ok: bool)
      requires Indexed(map[]) && KeysUnique(v) && Integrity(v)
      requires table in todo && todo <= all <= OidsOfKind(v.classes, REGULAR_TABLE)
      requires (View(), txn.mustAbort) in Ongoing(v, WithTheirIndexes(v, all - todo), all - todo, conflicts, before)
      requires writeLock == Lock.Id(txn.start)
      modifies this`classes, this`indexes, this`columns, this`writeLock, txn`mustAbort
      ensures writeLock == old(writeLock) && Indexed(map[])
      ensures ok ==>
        var done := all - (todo - {table});
        (View(), txn.mustAbort) in Ongoing(v, WithTheirIndexes(v, done), done, conflicts, before)
      ensures !ok ==>
        && !RowsClear(v, all, conflicts)
        && (View(), txn.mustAbort) in Outcomes(v, WithTheirIndexes(v, all), conflicts, before)
    {
      ghost var w, marked, done := View(), txn.mustAbort, all - todo;
      NextTable(v, w, done, table, conflicts);
      StillClear(v, w, WithTheirIndexes(v, done), conflicts, {table});
      ok := DeleteTable(txn, table);
      OneMoreTableTried(v, w, View(), all, todo, table, conflicts, before, marked, txn.mustAbort);
    }

    /** Deletes the namespace's row; its index entries are left pending. */
    method DetachNamespace(txn: Txn, ns: Oid) returns (ok: bool, slot: Slot, row: NamespaceRow)
      requires namespaces == IndexedNamespaces(namespaces.rows, namespaces.rows)
      requires Unique(namespaces.rows, NamespaceOid) && ns in Owners(namespaces.rows, NamespaceOid)
      modifies this`namespaces, txn`mustAbort
      ensures ok <==> NoneHeld(old(namespaces.rows), NamespaceOid, {ns}, conflicts.namespaces)
      ensures txn.mustAbort == (old(txn.mustAbort) || !ok)
      ensures !ok ==> namespaces == old(namespaces)
      ensures ok ==> slot !in namespaces.rows && row.oid == ns && namespaces.rows[slot := row] == old(namespaces.rows)
      ensures ok ==>
        namespaces == IndexedNamespaces(Without(old(namespaces.rows), NamespaceOid, {ns}), namespaces.rows[slot := row])
    {
      assert namespaces.rows + map[] == namespaces.rows;
      ScanKeyExact(namespaces.rows, map[], NamespaceOid, ns);
      OwnersAbsent(namespaces.rows, NamespaceOid, ns);
      ghost var s :| s in namespaces.rows && NamespaceOid(namespaces.rows[s]) == ns;
      assert s in ScanKey(namespaces.byOid, namespaces.rows, ns);
      slot :| slot in ScanKey(namespaces.byOid, namespaces.rows, ns);
      row := namespaces.rows[slot];
      if slot in conflicts.namespaces {
        txn.mustAbort := true;
        return false, slot, row;
      }
      assert namespaces.rows - {slot} == Without(namespaces.rows, NamespaceOid, {ns});
      assert (namespaces.rows - {slot})[slot := row] == namespaces.rows;
      namespaces := namespaces.(rows := namespaces.rows - {slot});
      ok := true;
    }

    method DeleteNamespaceEntries(slot: Slot, row: NamespaceRow)
      requires slot !in namespaces.rows
      requires namespaces == IndexedNamespaces(namespaces.rows, namespaces.rows[slot := row])
      modifies this`namespaces
      ensures namespaces == IndexedNamespaces(old(namespaces.rows), old(namespaces.rows))
    {
      ghost var listed := namespaces.rows[slot := row];
      EntriesRemove(listed, NamespaceOid, slot);
      EntriesRemove(listed, NamespaceName, slot);
      assert listed - {slot} == namespaces.rows;
      namespaces := namespaces.(byOid := namespaces.byOid - {(row.oid, slot)});
      namespaces := namespaces.(byName := namespaces.byName - {(row.name, slot)});
    }

    /** Deletes the tables of a namespace with their indexes. */
    method DeleteNamespaceTables(txn: Txn, ns: Oid) returns (ok: bool)
      requires Indexed(map[]) && KeysUnique(View()) && Integrity(View())
      requires writeLock == Lock.Id(txn.start)
      modifies this`classes, this`indexes, this`columns, this`writeLock, txn`mustAbort
      ensures writeLock == old(writeLock) && Indexed(map[])
      ensures ok <==> RowsClear(old(View()), ObjectsIn(old(classes.rows), ns, REGULAR_TABLE), conflicts)
      ensures (View(), txn.mustAbort) in Outcomes(old(View()), WithTheirIndexes(old(View()), ObjectsIn(old(classes.rows), ns, REGULAR_TABLE)), conflicts, old(txn.mustAbort))
    {
      var objects := GetNamespaceClassOids(ns);
      var tables := set o | o in objects && o.1 == REGULAR_TABLE :: o.0;
      OfKindOnly(objects, tables, classes.rows, ns, REGULAR_TABLE);
      ok := DeleteTables(txn, tables);
    }

    /** Deletes the indexes in a namespace. */
    method DeleteNamespaceIndexes(txn: Txn, ns: Oid) returns (ok: bool)
      requires Indexed(map[]) && KeysUnique(View())
      requires OidsOfKind(classes.rows, INDEX) <= Owners(indexes.rows, IndexOid)
      requires writeLock == Lock.Id(txn.start)
      modifies this`classes, this`indexes, this`columns, this`writeLock, txn`mustAbort
      ensures writeLock == old(writeLock) && Indexed(map[])
      ensures ok <==> RowsClear(old(View()), ObjectsIn(old(classes.rows), ns, INDEX), conflicts)
      ensures (View(), txn.mustAbort) in Outcomes(old(View()), ObjectsIn(old(classes.rows), ns, INDEX), conflicts, old(txn.mustAbort))
    {
      var objects := GetNamespaceClassOids(ns);
      var stragglers := set o | o in objects && o.1 == INDEX :: o.0;
      OfKindOnly(objects, stragglers, classes.rows, ns, INDEX);
      ok := DeleteIndexSet(txn, stragglers, map[]);
    }

    /** The cascade: the tables first, then the namespace's objects are looked up again for indexes
        that were built on tables elsewhere. */
    method DeleteNamespaceObjects(txn: Txn, ns: Oid) returns (ok: bool)
      requires Indexed(map[]) && KeysUnique(View()) && Integrity(View())
      requires writeLock == Lock.Id(txn.start)
      modifies this`classes, this`indexes, this`columns, this`writeLock, txn`mustAbort
      ensures writeLock == old(writeLock) && Indexed(map[])
      ensures ok <==> RowsClear(old(View()), ObjectsIn(old(classes.rows), ns, REGULAR_TABLE), conflicts) &&
                      RowsClear(old(View()), ObjectsIn(old(classes.rows), ns, INDEX), conflicts)
      ensures (View(), txn.mustAbort) in Outcomes(old(View()), DroppedWithNamespace(old(View()), ns), conflicts, old(txn.mustAbort))
    {
      ghost var v, tables := View(), ObjectsIn(classes.rows, ns, REGULAR_TABLE);
      ok := DeleteNamespaceTables(txn, ns);
      ghost var w, marked, gone := View(), txn.mustAbort, WithTheirIndexes(v, tables);
      if !ok {
        NamespaceGivenUp(v, w, ns, conflicts, old(txn.mustAbort), marked);
        return;
      }
      PartlyKeepsKeys(v, w, gone, conflicts);
      ClassRowsHaveIndexRows(v, w, gone, conflicts);
      StragglersClear(v, w, gone, conflicts, ns);
      ok := DeleteNamespaceIndexes(txn, ns);
      OutcomeOfNamespace(v, w, View(), ns, conflicts, old(txn.mustAbort), marked, txn.mustAbort);
    }

    /** Deletes a namespace's row, its objects and the row's index entries, in that order. */
    method DropNamespace(txn: Txn, ns: Oid) returns (ok: bool)
      requires AllIndexed() && KeysUnique(View()) && Integrity(View()) && ns in Owners(namespaces.rows, NamespaceOid)
      requires writeLock == Lock.Id(txn.start)
      modifies this`classes, this`indexes, this`columns, this`namespaces, this`writeLock, txn`mustAbort
      ensures writeLock == old(writeLock)
      ensures ok <==> NamespaceRowsClear(old(View()), ns, conflicts)
      ensures (View(), txn.mustAbort) in DropOutcomes(old(View()), ns, conflicts, old(txn.mustAbort))
      ensures if ok then AllIndexed() else PendingNamespace(old(namespaces.rows))
    {
      NothingPending();
      ghost var v := View();
      NamespaceRowGone(v, ns);
      NamespaceRowAside(v, ns, conflicts);
      var slot, row;
      ok, slot, row := DetachNamespace(txn, ns);
      if !ok {
        NothingDropped(v, ns, conflicts, old(txn.mustAbort));
        return;
      }
      ok := DeleteNamespaceObjects(txn, ns);
      CascadeOutcome(v, View(), ns, conflicts, old(txn.mustAbort), txn.mustAbort);
      if !ok {
        return;
      }
      DeleteNamespaceEntries(slot, row);
      NothingPending();
    }

    method DeleteNamespace(txn: Txn, ns: Oid) returns (ok: bool)
      requires Consistent() && ns in Owners(namespaces.rows, NamespaceOid)
      modifies this`classes, this`indexes, this`columns, this`namespaces, this`writeLock, txn`mustAbort
      ensures ok <==> CanLock(old(writeLock), txn.start) && NamespaceRowsClear(old(View()), ns, conflicts)
      ensures Locked(txn.start, old(writeLock))
      ensures if ok then AllIndexed() else PendingNamespace(old(namespaces.rows))
      ensures
        if CanLock(old(writeLock), txn.start)
        then (View(), txn.mustAbort) in DropOutcomes(old(View()), ns, conflicts, old(txn.mustAbort))
        else View() == old(View()) && txn.mustAbort
      ensures !CanLock(old(writeLock), txn.start) || NamespaceClear(old(View()), ns, conflicts) ==> Consistent()
    {
      ghost var v := View();
      ok := TryLock(txn);
      if ok {
        ok := DropNamespace(txn, ns);
        ClearDropKept(v, View(), ns, conflicts, old(txn.mustAbort), txn.mustAbort, Next());
      }
    }

    // -------------------------------------------------------------------------
    // Operations on a consistent catalog
    // -------------------------------------------------------------------------

    /** A table deleted from a consistent catalog leaves it consistent, if no row that goes is held. */
    method DropTable(txn: Txn, table: Oid) returns (ok: bool)
      requires Consistent() && table in OidsOfKind(classes.rows, REGULAR_TABLE)
      modifies this`classes, this`indexes, this`columns, this`writeLock, txn`mustAbort
      ensures ok <==> CanLock(old(writeLock), txn.start) && RowsClear(old(View()), {table}, conflicts)
      ensures Locked(txn.start, old(writeLock)) && AllIndexed()
      ensures
        if CanLock(old(writeLock), txn.start)
        then (View(), txn.mustAbort) in Outcomes(old(View()), DroppedWithTable(old(View()), table), conflicts, old(txn.mustAbort))
        else View() == old(View()) && txn.mustAbort
      ensures !CanLock(old(writeLock), txn.start) || Clear(old(View()), DroppedWithTable(old(View()), table), conflicts)
              ==> Consistent()
    {
      ghost var v := View();
      NothingPending();
      TablesArePresent(v, table);
      TableDropKept(v, table, nextSlot, nextOid);
      ok := DeleteTable(txn, table);
      NothingPending();
    }

    /** The same for an index. */
    method DropIndex(txn: Txn, index: Oid) returns (ok: bool)
      requires Consistent() && index in OidsOfKind(classes.rows, INDEX)
      modifies this`classes, this`indexes, this`columns, this`writeLock, txn`mustAbort
      ensures ok <==> CanLock(old(writeLock), txn.start) && RowsClear(old(View()), {index}, conflicts)
      ensures Locked(txn.start, old(writeLock)) && AllIndexed()
      ensures
        if CanLock(old(writeLock), txn.start)
        then (View(), txn.mustAbort) in Outcomes(old(View()), {index}, conflicts, old(txn.mustAbort))
        else View() == old(View()) && txn.mustAbort
      ensures !CanLock(old(writeLock), txn.start) || Clear(old(View()), {index}, conflicts) ==> Consistent()
    {
      ghost var v := View();
      NothingPending();
      IndexDropKept(v, index, nextSlot, nextOid);
      ok := DeleteIndex(txn, index, map[]);
      NothingPending();
    }

    /** What the code asks of a caller: objects with columns, drops of objects that exist. */
    ghost predicate Sensible(c: Change)
      reads this
    {
      match c
      case TableMade(slot, oid, _, _, cols) => slot == nextSlot && oid == nextOid && cols != [] && AllWellFormed(cols)
      case IndexMade(slot, oid, _, _, _, cols) => slot == nextSlot && oid == nextOid && cols != [] && AllWellFormed(cols)
      case _ => Allowed(View(), c, Next())
    }

    /** Every operation on a consistent catalog either marks its transaction or makes its change, one that
        is allowed, and then the catalog is consistent unless an index was put on a table that is not there. */
    method Perform(txn: Txn, c: Change)
      requires Consistent() && Sensible(c)
      modifies this`writeLock, this`nextOid, this`nextSlot, this`classes, this`indexes, this`columns, this`namespaces, txn`mustAbort
      ensures old(txn.mustAbort) ==> txn.mustAbort
      ensures old(Next()).AtMost(Next())
      ensures txn.mustAbort || (
        && CanLock(old(writeLock), txn.start) && writeLock == Lock.Id(txn.start)
        && Allowed(old(View()), c, old(Next()))
        && View() == Effect(old(View()), c) && Next() == After(old(Next()), c)
        && (Consistent() <==> OnTable(old(View()), c)))
    {
      match c
      case TableMade(slot, oid, ns, name, cols) => {
        var r := CreateTable(txn, ns, name, cols);
      }
      case IndexMade(slot, oid, ns, name, table, cols) => {
        var r := CreateIndex(txn, ns, name, table, cols);
      }
      case TableDropped(table) => {
        var ok := DropTable(txn, table);
      }
      case IndexDropped(index) => {
        var ok := DropIndex(txn, index);
      }
      case NamespaceErased(ns) => {
        var ok := DeleteNamespace(txn, ns);
      }
    }
  }
}
