/** Tables as maps from slot to row and indexes as sets of (key, slot), the way the
    catalog uses them. The rows are those visible to the transaction that holds the
    DDL lock; an index entry whose slot holds no such row is invisible to a scan. */
module CatalogStorage {

  type Slot = nat

  /** The entries of an index that agrees with the rows: one for each row, under the row's key. */
  ghost function Entries<R, K>(rows: map<Slot, R>, key: R -> K): set<(K, Slot)> {
    set s | s in rows :: (key(rows[s]), s)
  }

  ghost predicate Unique<R, K>(rows: map<Slot, R>, key: R -> K) {
    forall s, t :: s in rows && t in rows && key(rows[s]) == key(rows[t]) ==> s == t
  }

  /** ScanKey: the visible slots under a key. */
  function ScanKey<K(==), R>(index: set<(K, Slot)>, rows: map<Slot, R>, key: K): set<Slot> {
    set e | e in index && e.0 == key && e.1 in rows :: e.1
  }

  lemma EntriesAt<R, K(!new)>(rows: map<Slot, R>, key: R -> K)
    ensures forall k: K, s: Slot :: (k, s) in Entries(rows, key) <==> s in rows && key(rows[s]) == k
  {
  }

  lemma SameEntries<K(!new)>(a: set<(K, Slot)>, b: set<(K, Slot)>)
    requires forall k: K, s: Slot :: (k, s) in a <==> (k, s) in b
    ensures a == b
  {
    forall e: (K, Slot) ensures e in a <==> e in b {
      assert e == (e.0, e.1);
    }
  }

  lemma EntriesAdd<R, K(!new)>(rows: map<Slot, R>, key: R -> K, s: Slot, row: R)
    requires s !in rows
    ensures Entries(rows[s := row], key) == Entries(rows, key) + {(key(row), s)}
  {
    EntriesAt(rows, key);
    EntriesAt(rows[s := row], key);
    SameEntries(Entries(rows[s := row], key), Entries(rows, key) + {(key(row), s)});
  }

  lemma EntriesRemove<R, K(!new)>(rows: map<Slot, R>, key: R -> K, s: Slot)
    requires s in rows
    ensures Entries(rows - {s}, key) == Entries(rows, key) - {(key(rows[s]), s)}
  {
    EntriesAt(rows, key);
    EntriesAt(rows - {s}, key);
    SameEntries(Entries(rows - {s}, key), Entries(rows, key) - {(key(rows[s]), s)});
  }

  /** A changed row leaves an index alone when its key is unchanged. */
  lemma EntriesUpdate<R, K(!new)>(rows: map<Slot, R>, key: R -> K, s: Slot, row: R)
    requires s in rows && key(row) == key(rows[s])
    ensures Entries(rows[s := row], key) == Entries(rows, key)
  {
    EntriesAt(rows, key);
    EntriesAt(rows[s := row], key);
    SameEntries(Entries(rows[s := row], key), Entries(rows, key));
  }

  /** An index that agrees with the rows, and with some rows already deleted from the
      table, scans to exactly the visible rows with the key. */
  lemma ScanKeyExact<R, K(!new)>(rows: map<Slot, R>, pending: map<Slot, R>, key: R -> K, k: K)
    requires rows.Keys !! pending.Keys
    ensures ScanKey(Entries(rows + pending, key), rows, k) == set s | s in rows && key(rows[s]) == k
  {
    EntriesAt(rows + pending, key);
    var index := Entries(rows + pending, key);
    forall s: Slot ensures s in ScanKey(index, rows, k) <==> s in rows && key(rows[s]) == k {
      if s in rows && key(rows[s]) == k {
        assert (k, s) in index;
      }
    }
  }

  /** The check InsertUnique makes: the index lists a visible row under the key, or one that another
      transaction holds. The keys of such rows that are not visible are `held`. */
  predicate Refused<K(==), R>(index: set<(K, Slot)>, rows: map<Slot, R>, held: set<K>, key: K) {
    ScanKey(index, rows, key) != {} || key in held
  }

  /** A row already in the table but not yet in the index does not count. */
  lemma UniqueCheck<R, K(!new)>(rows: map<Slot, R>, key: R -> K, slot: Slot, row: R, held: set<K>, k: K)
    requires slot !in rows
    ensures !Refused(Entries(rows, key), rows[slot := row], held, k) <==>
            k !in held && forall s :: s in rows ==> key(rows[s]) != k
  {
    EntriesAt(rows, key);
    var found := ScanKey(Entries(rows, key), rows[slot := row], k);
    forall s | s in rows && key(rows[s]) == k ensures s in found {
      assert (k, s) in Entries(rows, key);
    }
    if found != {} {
      var s :| s in found;
      assert (k, s) in Entries(rows, key);
    }
  }
}
