/** What a catalog operation that succeeds does to the rows, and what it keeps. */
module CatalogChanges {
  import opened CatalogStorage
  import opened CatalogTables

  /** An operation that succeeded; one that made an object has the first slot and the oid it took. */
  datatype Change =
    | TableMade(slot: Slot, oid: Oid, ns: Oid, name: string, cols: seq<Column>)
    | IndexMade(slot: Slot, oid: Oid, ns: Oid, name: string, table: Oid, cols: seq<Column>)
    | TableDropped(table: Oid)
    | IndexDropped(index: Oid)
    | NamespaceErased(ns: Oid)

  /** Slots and oids not handed out yet. */
  datatype Counters = Counters(slot: Slot, oid: Oid)
  {
    predicate AtMost(other: Counters) {
      slot <= other.slot && oid <= other.oid
    }
  }

  /** What every catalog promises. */
  ghost predicate Promises(v: Rows, next: Counters) {
    KeysUnique(v) && Below(v, next.slot, next.oid) && Integrity(v)
  }

  /** The catalogs that keep them. */
  ghost function Sound(next: Counters): iset<Rows> {
    iset v: Rows | Promises(v, next)
  }

  /** The operation can succeed on the rows. Nothing is said of the table a new index names. */
  ghost predicate Allowed(v: Rows, c: Change, next: Counters) {
    match c
    case TableMade(slot, oid, ns, name, cols) =>
      slot == next.slot && oid == next.oid && cols != [] && DistinctNames(cols) && NameFree(v.classes, name, ns)
    case IndexMade(slot, oid, ns, name, table, cols) =>
      slot == next.slot && oid == next.oid && cols != [] && DistinctNames(cols) && NameFree(v.classes, name, ns)
    case TableDropped(table) => table in OidsOfKind(v.classes, REGULAR_TABLE)
    case IndexDropped(index) => index in OidsOfKind(v.classes, INDEX)
    case NamespaceErased(ns) => ns in Owners(v.namespaces, NamespaceOid)
  }

  /** The table a new index names exists. */
  ghost predicate OnTable(v: Rows, c: Change) {
    c.IndexMade? ==> c.table in OidsOfKind(v.classes, REGULAR_TABLE)
  }

  ghost function Effect(v: Rows, c: Change): Rows {
    match c
    case TableMade(slot, oid, ns, name, cols) => WithTable(v, slot, oid, name, ns, cols)
    case IndexMade(slot, oid, ns, name, table, cols) => WithIndex(v, slot, oid, name, ns, table, cols)
    case TableDropped(table) => Removed(v, DroppedWithTable(v, table))
    case IndexDropped(index) => Removed(v, {index})
    case NamespaceErased(ns) => NamespaceDropped(v, ns)
  }

  function After(next: Counters, c: Change): Counters {
    match c
    case TableMade(_, _, _, _, cols) => Counters(next.slot + 1 + |cols|, next.oid + 1)
    case IndexMade(_, _, _, _, _, cols) => Counters(next.slot + 2 + |cols|, next.oid + 1)
    case _ => next
  }

  /** An operation keeps the promises exactly when a new index is on a table that exists. */
  lemma ChangeKept(v: Rows, c: Change, next: Counters)
    requires Promises(v, next) && Allowed(v, c, next)
    ensures Promises(Effect(v, c), After(next, c)) <==> OnTable(v, c)
  {
    match c
    case TableMade(slot, oid, ns, name, cols) => NewTableKept(v, slot, oid, name, ns, cols);
    case IndexMade(slot, oid, ns, name, table, cols) => NewIndexKept(v, slot, oid, name, ns, table, cols);
    case TableDropped(table) => TableDropKept(v, table, next.slot, next.oid);
    case IndexDropped(index) => IndexDropKept(v, index, next.slot, next.oid);
    case NamespaceErased(ns) => NamespaceDropKept(v, ns, next.slot, next.oid);
  }

  /** The rows after some operations. */
  ghost function Replay(v: Rows, changes: seq<Change>): Rows {
    if changes == [] then v
    else Effect(Replay(v, changes[..|changes| - 1]), changes[|changes| - 1])
  }
}
