/** What happens to catalog rows that another transaction still holds. A transaction that aborts gives
    the DDL lock back before its changes are rolled back, so the next owner can meet rows whose newest
    version is not its own. Deleting such a row fails, and marks the transaction to abort. */
module CatalogConflicts {
  import opened CatalogStorage
  import opened CatalogTables
  import opened CatalogChanges

  /** The rows that are still held by another transaction when a call comes to them, and the names under
      which such a transaction has an index entry for a pg_class row that the present one cannot see.
      An aborting owner of the DDL lock takes its entries out before it gives the lock back, so between
      owners there are no such names; here they are arbitrary. */
  datatype Conflicts = Conflicts(
    classes: set<Slot>, indexes: set<Slot>, columns: set<Slot>, namespaces: set<Slot>,
    names: set<(string, Oid)>)

  // ---------------------------------------------------------------------------
  // Objects that can be deleted
  // ---------------------------------------------------------------------------

  ghost predicate NoneHeld<R>(rows: map<Slot, R>, owner: R -> Oid, objects: set<Oid>, held: set<Slot>) {
    forall s :: s in rows && owner(rows[s]) in objects ==> s !in held
  }

  /** No column and no class row of the objects is held. */
  ghost predicate RowsClear(v: Rows, objects: set<Oid>, k: Conflicts) {
    NoneHeld(v.classes, ClassOid, objects, k.classes) && NoneHeld(v.columns, AttributeOwner, objects, k.columns)
  }

  /** No row of the objects is held. */
  ghost predicate Clear(v: Rows, objects: set<Oid>, k: Conflicts) {
    RowsClear(v, objects, k) && NoneHeld(v.indexes, IndexOid, objects, k.indexes)
  }

  // ---------------------------------------------------------------------------
  // A catalog that has lost some rows of some objects
  // ---------------------------------------------------------------------------

  /** Only rows of the objects are gone, and none that was held. */
  ghost predicate Thinned<R>(rows: map<Slot, R>, thin: map<Slot, R>, owner: R -> Oid, objects: set<Oid>, held: set<Slot>) {
    (forall s :: s in thin ==> s in rows && thin[s] == rows[s]) &&
    (forall s :: s in rows && s !in thin ==> owner(rows[s]) in objects && s !in held)
  }

  /** An object loses its columns first, then its class row, then its row in pg_index. */
  ghost predicate InTurn(v: Rows, w: Rows) {
    (forall s :: s in v.classes && s !in w.classes ==> v.classes[s].oid !in Owners(w.columns, AttributeOwner)) &&
    (forall s :: s in v.indexes && s !in w.indexes ==> v.indexes[s].oid !in Owners(w.classes, ClassOid))
  }

  /** What deleting the objects can leave behind when it is given up half way. */
  ghost predicate Partly(v: Rows, w: Rows, objects: set<Oid>, k: Conflicts) {
    && Thinned(v.classes, w.classes, ClassOid, objects, k.classes)
    && Thinned(v.indexes, w.indexes, IndexOid, objects, k.indexes)
    && Thinned(v.columns, w.columns, AttributeOwner, objects, k.columns)
    && w.namespaces == v.namespaces
    && InTurn(v, w)
  }

  lemma PartlyWiden(v: Rows, w: Rows, a: set<Oid>, b: set<Oid>, k: Conflicts)
    requires Partly(v, w, a, k) && a <= b
    ensures Partly(v, w, b, k)
  {
  }

  lemma ThinnedTwice<R>(rows: map<Slot, R>, mid: map<Slot, R>, thin: map<Slot, R>, owner: R -> Oid,
                        a: set<Oid>, b: set<Oid>, held: set<Slot>)
    requires Thinned(rows, mid, owner, a, held) && Thinned(mid, thin, owner, b, held)
    ensures Thinned(rows, thin, owner, a + b, held)
  {
  }

  lemma OwnersThinned<R>(rows: map<Slot, R>, thin: map<Slot, R>, owner: R -> Oid, objects: set<Oid>, held: set<Slot>)
    requires Thinned(rows, thin, owner, objects, held)
    ensures Owners(thin, owner) <= Owners(rows, owner) && Owners(rows, owner) - objects <= Owners(thin, owner)
  {
    forall s | s in thin ensures owner(thin[s]) in Owners(rows, owner) {
      assert s in rows && owner(rows[s]) in Owners(rows, owner);
    }
    forall s | s in rows && owner(rows[s]) !in objects ensures owner(rows[s]) in Owners(thin, owner) {
      assert s in thin && owner(thin[s]) in Owners(thin, owner);
    }
  }

  lemma InTurnTwice(v: Rows, w: Rows, x: Rows, a: set<Oid>, b: set<Oid>, k: Conflicts)
    requires Partly(v, w, a, k) && Partly(w, x, b, k)
    ensures InTurn(v, x)
  {
    OwnersThinned(w.columns, x.columns, AttributeOwner, b, k.columns);
    OwnersThinned(w.classes, x.classes, ClassOid, b, k.classes);
    forall s | s in v.classes && s !in x.classes ensures v.classes[s].oid !in Owners(x.columns, AttributeOwner) {
      if s in w.classes {
        assert w.classes[s].oid !in Owners(x.columns, AttributeOwner);
      } else {
        assert v.classes[s].oid !in Owners(w.columns, AttributeOwner);
      }
    }
    forall s | s in v.indexes && s !in x.indexes ensures v.indexes[s].oid !in Owners(x.classes, ClassOid) {
      if s in w.indexes {
        assert w.indexes[s].oid !in Owners(x.classes, ClassOid);
      } else {
        assert v.indexes[s].oid !in Owners(w.classes, ClassOid);
      }
    }
  }

  lemma PartlyTwice(v: Rows, w: Rows, x: Rows, a: set<Oid>, b: set<Oid>, k: Conflicts)
    requires Partly(v, w, a, k) && Partly(w, x, b, k)
    ensures Partly(v, x, a + b, k)
  {
    ThinnedTwice(v.classes, w.classes, x.classes, ClassOid, a, b, k.classes);
    ThinnedTwice(v.indexes, w.indexes, x.indexes, IndexOid, a, b, k.indexes);
    ThinnedTwice(v.columns, w.columns, x.columns, AttributeOwner, a, b, k.columns);
    InTurnTwice(v, w, x, a, b, k);
  }

  /** Deleting all rows of objects none of which is held. */
  lemma PartlyRemoved(v: Rows, objects: set<Oid>, k: Conflicts)
    requires Clear(v, objects, k)
    ensures Partly(v, Removed(v, objects), objects, k)
  {
  }

  lemma PartlyKeepsKeys(v: Rows, w: Rows, objects: set<Oid>, k: Conflicts)
    requires Partly(v, w, objects, k) && KeysUnique(v)
    ensures KeysUnique(w)
  {
  }

  // ---------------------------------------------------------------------------
  // The outcome of a delete
  // ---------------------------------------------------------------------------

  /** How deleting objects can end, as the catalog and whether the transaction is marked to abort. If none
      of their rows is held, the objects are gone and the mark is as before; otherwise some of their rows
      may be gone, and the transaction is marked. */
  ghost function Outcomes(v: Rows, objects: set<Oid>, k: Conflicts, before: bool): iset<(Rows, bool)> {
    iset o: (Rows, bool) |
      Partly(v, o.0, objects, k) && if Clear(v, objects, k) then o == (Removed(v, objects), before) else o.1
  }

  /** How it can stand while no class row and no column tried was held. */
  ghost function Ongoing(v: Rows, objects: set<Oid>, tried: set<Oid>, k: Conflicts, before: bool): iset<(Rows, bool)> {
    iset o: (Rows, bool) | RowsClear(v, tried, k) && o in Outcomes(v, objects, k, before)
  }

  lemma OutcomeNone(v: Rows, k: Conflicts, marked: bool)
    ensures (v, marked) in Outcomes(v, {}, k, marked)
  {
    RemovedNone(v);
  }

  lemma NoneHeldAfter<R>(rows: map<Slot, R>, owner: R -> Oid, a: set<Oid>, b: set<Oid>, held: set<Slot>)
    requires NoneHeld(rows, owner, a, held)
    ensures NoneHeld(Without(rows, owner, a), owner, b, held) <==> NoneHeld(rows, owner, b, held)
  {
    forall s | s in rows && owner(rows[s]) in b && s in held ensures s in Without(rows, owner, a) {
    }
  }

  lemma ClearAfter(v: Rows, a: set<Oid>, b: set<Oid>, k: Conflicts)
    requires Clear(v, a, k)
    ensures Clear(Removed(v, a), b, k) <==> Clear(v, b, k)
  {
    NoneHeldAfter(v.classes, ClassOid, a, b, k.classes);
    NoneHeldAfter(v.columns, AttributeOwner, a, b, k.columns);
    NoneHeldAfter(v.indexes, IndexOid, a, b, k.indexes);
  }

  /** One delete after another. */
  lemma OutcomeTwice(v: Rows, w: Rows, x: Rows, a: set<Oid>, b: set<Oid>, k: Conflicts, m0: bool, m1: bool, m2: bool)
    requires (w, m1) in Outcomes(v, a, k, m0) && (x, m2) in Outcomes(w, b, k, m1)
    ensures (x, m2) in Outcomes(v, a + b, k, m0)
  {
    PartlyTwice(v, w, x, a, b, k);
    if Clear(v, a, k) {
      ClearAfter(v, a, b, k);
      RemovedTwice(v, a, b);
    }
  }

  /** A delete given up before its other objects were tried. */
  lemma OutcomeGivenUp(v: Rows, w: Rows, a: set<Oid>, b: set<Oid>, k: Conflicts, before: bool, after: bool)
    requires (w, after) in Outcomes(v, a, k, before) && !Clear(v, a, k) && a <= b
    ensures (w, after) in Outcomes(v, b, k, before)
  {
    PartlyWiden(v, w, a, b, k);
    assert a + b == b;
  }

  /** Given up among the columns, or at the class row. */
  lemma OutcomeAtColumns(v: Rows, columns: map<Slot, AttributeRow>, oid: Oid, k: Conflicts, before: bool)
    requires Thinned(v.columns, columns, AttributeOwner, {oid}, k.columns) && !RowsClear(v, {oid}, k)
    ensures (v.(columns := columns), true) in Outcomes(v, {oid}, k, before)
  {
  }

  /** Columns and class row gone; the row in pg_index stayed, if there was one and it was held. */
  lemma OutcomeAtIndexRow(v: Rows, oid: Oid, k: Conflicts, before: bool)
    requires RowsClear(v, {oid}, k) && !NoneHeld(v.indexes, IndexOid, {oid}, k.indexes)
    ensures
      var w := v.(classes := Without(v.classes, ClassOid, {oid}), columns := Without(v.columns, AttributeOwner, {oid}));
      (w, true) in Outcomes(v, {oid}, k, before)
  {
  }

  lemma OutcomeClear(v: Rows, objects: set<Oid>, k: Conflicts, marked: bool)
    requires Clear(v, objects, k)
    ensures (Removed(v, objects), marked) in Outcomes(v, objects, k, marked)
  {
    PartlyRemoved(v, objects, k);
  }

  // ---------------------------------------------------------------------------
  // What the deletes look up is still there
  // ---------------------------------------------------------------------------

  /** An index with its rows in pg_class and pg_index. */
  ghost predicate IndexPresent(v: Rows, index: Oid) {
    index in OidsOfKind(v.classes, INDEX) && index in Owners(v.indexes, IndexOid)
  }

  /** A table whose indexes all have their rows in pg_class. */
  ghost predicate TablePresent(v: Rows, table: Oid) {
    && table in OidsOfKind(v.classes, REGULAR_TABLE)
    && table !in Owners(v.indexes, IndexOid)
    && IndexesOn(v.indexes, {table}) <= OidsOfKind(v.classes, INDEX)
  }

  lemma KindThinned(rows: map<Slot, ClassRow>, thin: map<Slot, ClassRow>, kind: ClassKind, objects: set<Oid>, held: set<Slot>)
    requires Thinned(rows, thin, ClassOid, objects, held)
    ensures OidsOfKind(thin, kind) <= OidsOfKind(rows, kind)
    ensures OidsOfKind(rows, kind) - objects <= OidsOfKind(thin, kind)
  {
    forall s | s in rows && rows[s].kind == kind && rows[s].oid !in objects ensures rows[s].oid in OidsOfKind(thin, kind) {
      assert ClassOid(rows[s]) !in objects && s in thin;
    }
  }

  lemma IndexesOnThinned(rows: map<Slot, IndexRow>, thin: map<Slot, IndexRow>, tables: set<Oid>, objects: set<Oid>, held: set<Slot>)
    requires Thinned(rows, thin, IndexOid, objects, held) && IndexesOn(rows, tables) !! objects
    ensures IndexesOn(thin, tables) == IndexesOn(rows, tables)
  {
    forall s | s in rows && rows[s].table in tables ensures rows[s].oid in IndexesOn(thin, tables) {
      assert rows[s].oid in IndexesOn(rows, tables);
      assert IndexOid(rows[s]) !in objects && s in thin;
    }
  }

  lemma UntouchedIndex(v: Rows, w: Rows, a: set<Oid>, k: Conflicts, index: Oid)
    requires Partly(v, w, a, k) && IndexPresent(v, index) && index !in a
    ensures IndexPresent(w, index)
  {
    KindThinned(v.classes, w.classes, INDEX, a, k.classes);
    OwnersThinned(v.indexes, w.indexes, IndexOid, a, k.indexes);
  }

  lemma UntouchedTable(v: Rows, w: Rows, a: set<Oid>, k: Conflicts, table: Oid)
    requires Partly(v, w, a, k) && TablePresent(v, table) && DroppedWithTable(v, table) !! a
    ensures TablePresent(w, table) && DroppedWithTable(w, table) == DroppedWithTable(v, table)
  {
    KindThinned(v.classes, w.classes, REGULAR_TABLE, a, k.classes);
    KindThinned(v.classes, w.classes, INDEX, a, k.classes);
    OwnersThinned(v.indexes, w.indexes, IndexOid, a, k.indexes);
    IndexesOnThinned(v.indexes, w.indexes, {table}, a, k.indexes);
  }

  lemma NoneHeldThinned<R>(rows: map<Slot, R>, thin: map<Slot, R>, owner: R -> Oid, a: set<Oid>, objects: set<Oid>, held: set<Slot>)
    requires Thinned(rows, thin, owner, a, held)
    ensures NoneHeld(thin, owner, objects, held) <==> NoneHeld(rows, owner, objects, held)
  {
    forall s | s in rows && s in held ensures s in thin {
    }
  }

  /** A row that is held stays, so whether the objects are clear stays as it was. */
  lemma StillClear(v: Rows, w: Rows, a: set<Oid>, k: Conflicts, objects: set<Oid>)
    requires Partly(v, w, a, k)
    ensures RowsClear(w, objects, k) <==> RowsClear(v, objects, k)
    ensures Clear(w, objects, k) <==> Clear(v, objects, k)
  {
    NoneHeldThinned(v.classes, w.classes, ClassOid, a, objects, k.classes);
    NoneHeldThinned(v.columns, w.columns, AttributeOwner, a, objects, k.columns);
    NoneHeldThinned(v.indexes, w.indexes, IndexOid, a, objects, k.indexes);
  }

  /** An index that still has its class row still has its row in pg_index. */
  lemma ClassRowsHaveIndexRows(v: Rows, w: Rows, a: set<Oid>, k: Conflicts)
    requires Partly(v, w, a, k) && Integrity(v)
    ensures OidsOfKind(w.classes, INDEX) <= Owners(w.indexes, IndexOid)
  {
    KindThinned(v.classes, w.classes, INDEX, a, k.classes);
    forall i | i in OidsOfKind(w.classes, INDEX) ensures i in Owners(w.indexes, IndexOid) {
      var c :| c in w.classes && w.classes[c].kind == INDEX && w.classes[c].oid == i;
      assert ClassOid(w.classes[c]) in Owners(w.classes, ClassOid);
      var s :| s in v.indexes && IndexOid(v.indexes[s]) == i;
      assert s in w.indexes && IndexOid(w.indexes[s]) in Owners(w.indexes, IndexOid);
    }
  }

  lemma TablesArePresent(v: Rows, table: Oid)
    requires KeysUnique(v) && Integrity(v) && table in OidsOfKind(v.classes, REGULAR_TABLE)
    ensures TablePresent(v, table)
  {
    KindsApart(v, table);
    IndexesOnAreIndexes(v, {table});
  }

  lemma TableHasNoIndexRow(v: Rows, table: Oid, k: Conflicts)
    requires table !in Owners(v.indexes, IndexOid)
    ensures Removed(v, {table}) ==
            v.(classes := Without(v.classes, ClassOid, {table}), columns := Without(v.columns, AttributeOwner, {table}))
    ensures Clear(v, {table}, k) <==> RowsClear(v, {table}, k)
  {
    OwnersAbsent(v.indexes, IndexOid, table);
    assert Without(v.indexes, IndexOid, {table}) == v.indexes;
  }

  /** After some tables with their indexes, deleted or given up half way, the next table is as it was. */
  lemma NextTable(v: Rows, w: Rows, done: set<Oid>, table: Oid, k: Conflicts)
    requires KeysUnique(v) && Integrity(v) && Partly(v, w, WithTheirIndexes(v, done), k)
    requires done <= OidsOfKind(v.classes, REGULAR_TABLE) && table in OidsOfKind(v.classes, REGULAR_TABLE) - done
    ensures KeysUnique(w) && TablePresent(w, table) && DroppedWithTable(w, table) == DroppedWithTable(v, table)
    ensures WithTheirIndexes(v, done) + DroppedWithTable(v, table) == WithTheirIndexes(v, done + {table})
  {
    PartlyKeepsKeys(v, w, WithTheirIndexes(v, done), k);
    TablesArePresent(v, table);
    IndexesOnUnion(v.indexes, done, {table});
    OtherTablesIndexes(v, done, table);
    UntouchedTable(v, w, WithTheirIndexes(v, done), k, table);
  }

  lemma OtherTablesIndexes(v: Rows, done: set<Oid>, table: Oid)
    requires KeysUnique(v) && Integrity(v)
    requires done <= OidsOfKind(v.classes, REGULAR_TABLE) && table in OidsOfKind(v.classes, REGULAR_TABLE) - done
    ensures DroppedWithTable(v, table) !! WithTheirIndexes(v, done)
  {
    IndexesOnAreIndexes(v, done + {table});
    IndexesOnUnion(v.indexes, done, {table});
    forall o | o in DroppedWithTable(v, table) ensures o !in WithTheirIndexes(v, done) {
      if o in OidsOfKind(v.classes, REGULAR_TABLE) {
        KindsApart(v, o);
      }
      if o in IndexesOn(v.indexes, {table}) {
        var s :| s in v.indexes && v.indexes[s].table in {table} && v.indexes[s].oid == o;
        forall t | t in v.indexes && v.indexes[t].oid == o ensures t == s {
          assert IndexOid(v.indexes[s]) == IndexOid(v.indexes[t]);
        }
      }
    }
  }

  /** Whether the indexes still in a namespace are clear does not change while objects are deleted. */
  lemma StragglersClear(v: Rows, w: Rows, a: set<Oid>, k: Conflicts, ns: Oid)
    requires KeysUnique(v) && Partly(v, w, a, k)
    ensures ObjectsIn(w.classes, ns, INDEX) <= ObjectsIn(v.classes, ns, INDEX)
    ensures RowsClear(w, ObjectsIn(w.classes, ns, INDEX), k) <==> RowsClear(v, ObjectsIn(v.classes, ns, INDEX), k)
  {
    var before, after := ObjectsIn(v.classes, ns, INDEX), ObjectsIn(w.classes, ns, INDEX);
    StillClear(v, w, a, k, before);
    forall s | s in w.classes && w.classes[s].oid in before ensures w.classes[s].oid in after {
      var c :| c in v.classes && v.classes[c].ns == ns && v.classes[c].kind == INDEX && v.classes[c].oid == w.classes[s].oid;
      assert ClassOid(v.classes[c]) == ClassOid(v.classes[s]);
    }
    forall s | s in w.columns && w.columns[s].classOid in before ensures w.columns[s].classOid in after {
      var c :| c in v.classes && v.classes[c].ns == ns && v.classes[c].kind == INDEX && v.classes[c].oid == w.columns[s].classOid;
      assert AttributeOwner(w.columns[s]) in Owners(w.columns, AttributeOwner);
      assert c in w.classes;
    }
  }

  /** No row of the namespace or of what goes with it is held. */
  ghost predicate NamespaceClear(v: Rows, ns: Oid, k: Conflicts) {
    NoneHeld(v.namespaces, NamespaceOid, {ns}, k.namespaces) && Clear(v, DroppedWithNamespace(v, ns), k)
  }

  /** The tables first, then the indexes the namespace still holds. */
  lemma OutcomeOfNamespace(v: Rows, w: Rows, x: Rows, ns: Oid, k: Conflicts, m0: bool, m1: bool, m2: bool)
    requires KeysUnique(v)
    requires (w, m1) in Outcomes(v, WithTheirIndexes(v, ObjectsIn(v.classes, ns, REGULAR_TABLE)), k, m0)
    requires (x, m2) in Outcomes(w, ObjectsIn(w.classes, ns, INDEX), k, m1)
    ensures (x, m2) in Outcomes(v, DroppedWithNamespace(v, ns), k, m0)
  {
    var a, b := WithTheirIndexes(v, ObjectsIn(v.classes, ns, REGULAR_TABLE)), ObjectsIn(w.classes, ns, INDEX);
    var all := DroppedWithNamespace(v, ns);
    OutcomeTwice(v, w, x, a, b, k, m0, m1, m2);
    StragglersClear(v, w, a, k, ns);
    if Clear(v, a, k) {
      ObjectsInWithout(v.classes, ns, INDEX, a);
      assert a + b == all;
    } else {
      OutcomeGivenUp(v, x, a + b, all, k, m0, m2);
    }
  }

  /** A delete given up because rows of some of the objects tried are held. */
  lemma GivenUp(v: Rows, w: Rows, a: set<Oid>, b: set<Oid>, k: Conflicts, before: bool, after: bool)
    requires (w, after) in Outcomes(v, a, k, before) && !RowsClear(v, a, k) && a <= b
    ensures (w, after) in Outcomes(v, b, k, before) && !RowsClear(v, b, k)
  {
    OutcomeGivenUp(v, w, a, b, k, before, after);
    assert a + b == b;
  }

  lemma TablesGivenUp(v: Rows, w: Rows, a: set<Oid>, b: set<Oid>, k: Conflicts, before: bool, after: bool)
    requires (w, after) in Outcomes(v, WithTheirIndexes(v, a), k, before) && !RowsClear(v, a, k) && a <= b
    ensures (w, after) in Outcomes(v, WithTheirIndexes(v, b), k, before) && !RowsClear(v, b, k)
  {
    assert a + WithTheirIndexes(v, a) == WithTheirIndexes(v, a) && a + b == b;
    IndexesOnUnion(v.indexes, a, b);
    OutcomeGivenUp(v, w, WithTheirIndexes(v, a), WithTheirIndexes(v, b), k, before, after);
  }

  lemma NamespaceGivenUp(v: Rows, w: Rows, ns: Oid, k: Conflicts, before: bool, after: bool)
    requires (w, after) in Outcomes(v, WithTheirIndexes(v, ObjectsIn(v.classes, ns, REGULAR_TABLE)), k, before)
    requires !RowsClear(v, ObjectsIn(v.classes, ns, REGULAR_TABLE), k)
    ensures (w, after) in Outcomes(v, DroppedWithNamespace(v, ns), k, before)
  {
    var tables := ObjectsIn(v.classes, ns, REGULAR_TABLE);
    assert tables + WithTheirIndexes(v, tables) == WithTheirIndexes(v, tables);
    OutcomeGivenUp(v, w, WithTheirIndexes(v, tables), DroppedWithNamespace(v, ns), k, before, after);
  }

  /** After a table's own rows are gone its indexes are as they were. */
  lemma TableGone(v: Rows, w: Rows, table: Oid, k: Conflicts)
    requires TablePresent(v, table) && KeysUnique(v) && w == Removed(v, {table}) && Clear(v, {table}, k)
    ensures KeysUnique(w) && IndexesOn(w.indexes, {table}) == IndexesOn(v.indexes, {table})
    ensures forall i :: i in IndexesOn(w.indexes, {table}) ==> IndexPresent(w, i)
  {
    TableHasNoIndexRow(v, table, k);
    PartlyRemoved(v, {table}, k);
    PartlyKeepsKeys(v, w, {table}, k);
    KindWithout(v.classes, INDEX, {table});
    forall i | i in IndexesOn(w.indexes, {table}) ensures IndexPresent(w, i) {
      var s :| s in v.indexes && v.indexes[s].table in {table} && v.indexes[s].oid == i;
      assert IndexOid(v.indexes[s]) in Owners(v.indexes, IndexOid);
    }
  }

  /** Nothing that the cascade tests for itself is held: the namespace's row, and the columns and class
      rows of the objects in the namespace. */
  ghost predicate NamespaceRowsClear(v: Rows, ns: Oid, k: Conflicts) {
    && NoneHeld(v.namespaces, NamespaceOid, {ns}, k.namespaces)
    && RowsClear(v, ObjectsIn(v.classes, ns, REGULAR_TABLE), k)
    && RowsClear(v, ObjectsIn(v.classes, ns, INDEX), k)
  }

  /** What a cascade can leave behind when it is given up: some rows of its objects are gone, none that
      was held, and of the namespaces at most the row of this one, first of all. */
  ghost predicate PartlyDropped(v: Rows, w: Rows, ns: Oid, k: Conflicts) {
    && Partly(v.(namespaces := w.namespaces), w, DroppedWithNamespace(v, ns), k)
    && (w == v || (w.namespaces == Without(v.namespaces, NamespaceOid, {ns}) &&
                   NoneHeld(v.namespaces, NamespaceOid, {ns}, k.namespaces)))
  }

  /** How dropping a namespace can end: it is gone with its objects, or the transaction is marked. */
  ghost function DropOutcomes(v: Rows, ns: Oid, k: Conflicts, before: bool): iset<(Rows, bool)> {
    iset o: (Rows, bool) |
      if NamespaceClear(v, ns, k) then o == (NamespaceDropped(v, ns), before) else o.1 && PartlyDropped(v, o.0, ns, k)
  }

  lemma NothingDropped(v: Rows, ns: Oid, k: Conflicts, before: bool)
    requires !NoneHeld(v.namespaces, NamespaceOid, {ns}, k.namespaces)
    ensures (v, true) in DropOutcomes(v, ns, k, before)
  {
    PartlyWiden(v, v, {}, DroppedWithNamespace(v, ns), k);
  }

  /** The namespace's row first, then its objects. */
  lemma CascadeOutcome(v: Rows, w: Rows, ns: Oid, k: Conflicts, before: bool, after: bool)
    requires KeysUnique(v) && Integrity(v) && NoneHeld(v.namespaces, NamespaceOid, {ns}, k.namespaces)
    requires var u := v.(namespaces := Without(v.namespaces, NamespaceOid, {ns}));
      (w, after) in Outcomes(u, DroppedWithNamespace(u, ns), k, before)
    ensures (w, after) in DropOutcomes(v, ns, k, before)
  {
    NamespaceRowGone(v, ns);
    NamespaceRowAside(v, ns, k);
  }

  /** A namespace dropped without conflicts leaves a catalog that keeps all its promises. */
  lemma ClearDropKept(v: Rows, w: Rows, ns: Oid, k: Conflicts, before: bool, after: bool, next: Counters)
    requires v in Sound(next) && (w, after) in DropOutcomes(v, ns, k, before)
    ensures NamespaceClear(v, ns, k) ==> NamespaceRowsClear(v, ns, k) && w in Sound(next)
  {
    NamespaceDropKept(v, ns, next.slot, next.oid);
  }

  lemma NamespaceRowAside(v: Rows, ns: Oid, k: Conflicts)
    ensures var u := v.(namespaces := Without(v.namespaces, NamespaceOid, {ns}));
      && DroppedWithNamespace(u, ns) == DroppedWithNamespace(v, ns)
      && (Clear(u, DroppedWithNamespace(v, ns), k) <==> Clear(v, DroppedWithNamespace(v, ns), k))
      && (RowsClear(u, ObjectsIn(v.classes, ns, REGULAR_TABLE), k) <==> RowsClear(v, ObjectsIn(v.classes, ns, REGULAR_TABLE), k))
      && (RowsClear(u, ObjectsIn(v.classes, ns, INDEX), k) <==> RowsClear(v, ObjectsIn(v.classes, ns, INDEX), k))
  {
  }

  /** An index whose columns and class row are gone, and its row in pg_index unless that was held. */
  lemma OutcomeOfIndex(v: Rows, w: Rows, index: Oid, k: Conflicts, before: bool, after: bool)
    requires RowsClear(v, {index}, k)
    requires
      var clear := NoneHeld(v.indexes, IndexOid, {index}, k.indexes);
      && w == v.(classes := Without(v.classes, ClassOid, {index}), columns := Without(v.columns, AttributeOwner, {index}),
                 indexes := if clear then Without(v.indexes, IndexOid, {index}) else v.indexes)
      && after == (before || !clear)
    ensures (w, after) in Outcomes(v, {index}, k, before)
  {
    if NoneHeld(v.indexes, IndexOid, {index}, k.indexes) {
      OutcomeClear(v, {index}, k, before);
    } else {
      OutcomeAtIndexRow(v, index, k, before);
    }
  }

  lemma OneMoreIndex(v: Rows, w: Rows, x: Rows, all: set<Oid>, todo: set<Oid>, index: Oid, k: Conflicts,
                     m0: bool, m1: bool, m2: bool)
    requires index in todo && todo <= all
    requires (w, m1) in Ongoing(v, all - todo, all - todo, k, m0) && (x, m2) in Outcomes(w, {index}, k, m1)
    ensures RowsClear(v, {index}, k) ==> (x, m2) in Ongoing(v, all - (todo - {index}), all - (todo - {index}), k, m0)
    ensures !RowsClear(v, {index}, k) ==> !RowsClear(v, all, k) && (x, m2) in Outcomes(v, all, k, m0)
  {
    var done := all - todo;
    assert done + {index} == all - (todo - {index});
    OutcomeTwice(v, w, x, done, {index}, k, m0, m1, m2);
    if !RowsClear(v, {index}, k) {
      GivenUp(v, x, done + {index}, all, k, m0, m2);
    }
  }

  lemma OneMoreTableTried(v: Rows, w: Rows, x: Rows, all: set<Oid>, todo: set<Oid>, table: Oid, k: Conflicts,
                          m0: bool, m1: bool, m2: bool)
    requires table in todo && todo <= all
    requires (w, m1) in Ongoing(v, WithTheirIndexes(v, all - todo), all - todo, k, m0)
    requires (x, m2) in Outcomes(w, DroppedWithTable(v, table), k, m1)
    ensures
      var done := all - (todo - {table});
      RowsClear(v, {table}, k) ==> (x, m2) in Ongoing(v, WithTheirIndexes(v, done), done, k, m0)
    ensures !RowsClear(v, {table}, k) ==> !RowsClear(v, all, k) && (x, m2) in Outcomes(v, WithTheirIndexes(v, all), k, m0)
  {
    var done := all - todo;
    assert done + {table} == all - (todo - {table});
    IndexesOnUnion(v.indexes, done, {table});
    assert WithTheirIndexes(v, done) + DroppedWithTable(v, table) == WithTheirIndexes(v, done + {table});
    OutcomeTwice(v, w, x, WithTheirIndexes(v, done), DroppedWithTable(v, table), k, m0, m1, m2);
    if !RowsClear(v, {table}, k) {
      TablesGivenUp(v, x, done + {table}, all, k, m0, m2);
    }
  }
}
