/** The life of the heap objects that pg_class rows point to: schemas, tables and
    indexes. Creating an object registers what an abort has to undo, dropping it
    registers what a commit has to free, and most of the freeing is deferred. The
    steps of the transaction that holds the DDL lock interleave freely with the
    running of deferred actions, in any order. */
module ObjectLife {
  import opened Options

  type Oid = nat
  type Obj = nat

  /** A pg_class row, as far as it points to objects. */
  datatype Entry = Entry(isIndex: bool, schema: Obj, ptr: Option<Obj>)

  datatype AbortAction =
    | DeleteSchema(schema: Obj)      // at once
    | DeleteTable(table: Obj)        // deferred
    | DropIndex(index: Obj)          // unregistered at once, deleted deferred

  /** Both defer the deletion of the two objects twice; the second unregisters the index at once. */
  datatype CommitAction =
    | DropTableObjects(schema: Obj, table: Obj)
    | DropIndexObjects(schema: Obj, index: Obj)

  /** A deferred deletion, which may first have to be deferred again. */
  datatype Deferred = Deferred(rounds: nat, objs: seq<Obj>)

  /** The heap as the actions see it. */
  datatype Heap = Heap(live: set<Obj>, doubleFree: bool, registered: set<Obj>, deferred: seq<Deferred>)

  datatype State = State(
    inTxn: bool,
    rows: map<Oid, Entry>,       // what the transaction sees
    saved: map<Oid, Entry>,      // what was committed before it
    heap: Heap,
    bwtrees: set<Obj>,           // which objects are indexes of type BWTREE
    nextObj: Obj,
    commitActions: seq<CommitAction>,
    abortActions: seq<AbortAction>)

  datatype Step =
    | Begin
    | Create(oid: Oid, isIndex: bool)
    | SetPointer(oid: Oid, bwtree: bool)
    | Drop(oid: Oid)
    | Commit
    | Abort
    | RunDeferred(i: nat)

  const Init := State(false, map[], map[], Heap({}, false, {}, []), {}, 0, [], [])

  // ---------------------------------------------------------------------------
  // Actions
  // ---------------------------------------------------------------------------

  function Free(h: Heap, o: Obj): Heap {
    if o in h.live then h.(live := h.live - {o}) else h.(doubleFree := true)
  }

  function FreeAll(h: Heap, objs: seq<Obj>): Heap
    decreases |objs|
  {
    if objs == [] then h else FreeAll(Free(h, objs[0]), objs[1..])
  }

  function Unregister(h: Heap, index: Obj, bwtrees: set<Obj>): Heap {
    if index in bwtrees then h.(registered := h.registered - {index}) else h
  }

  function Defer(h: Heap, d: Deferred): Heap {
    h.(deferred := h.deferred + [d])
  }

  function RunAbortAction(h: Heap, a: AbortAction, bwtrees: set<Obj>): Heap {
    match a
    case DeleteSchema(schema) => Free(h, schema)
    case DeleteTable(table) => Defer(h, Deferred(0, [table]))
    case DropIndex(index) => Defer(Unregister(h, index, bwtrees), Deferred(0, [index]))
  }

  function RunCommitAction(h: Heap, a: CommitAction, bwtrees: set<Obj>): Heap {
    match a
    case DropTableObjects(schema, table) => Defer(h, Deferred(1, [schema, table]))
    case DropIndexObjects(schema, index) => Defer(Unregister(h, index, bwtrees), Deferred(1, [schema, index]))
  }

  function RunAbort(h: Heap, actions: seq<AbortAction>, bwtrees: set<Obj>): Heap
    decreases |actions|
  {
    if actions == [] then h else RunAbort(RunAbortAction(h, actions[0], bwtrees), actions[1..], bwtrees)
  }

  function RunCommit(h: Heap, actions: seq<CommitAction>, bwtrees: set<Obj>): Heap
    decreases |actions|
  {
    if actions == [] then h else RunCommit(RunCommitAction(h, actions[0], bwtrees), actions[1..], bwtrees)
  }

  // ---------------------------------------------------------------------------
  // Steps
  // ---------------------------------------------------------------------------

  /** An object's pointer is set once, and an object is dropped only after that. */
  predicate Enabled(s: State, step: Step) {
    match step
    case Begin => !s.inTxn
    case Create(oid, _) => s.inTxn && oid !in s.rows
    case SetPointer(oid, bwtree) => s.inTxn && oid in s.rows && s.rows[oid].ptr.None? && (bwtree ==> s.rows[oid].isIndex)
    case Drop(oid) => s.inTxn && oid in s.rows && s.rows[oid].ptr.Some?
    case Commit => s.inTxn
    case Abort => s.inTxn
    case RunDeferred(i) => i < |s.heap.deferred|
  }

  function Apply(s: State, step: Step): State
    requires Enabled(s, step)
  {
    match step
    case Begin =>
      s.(inTxn := true, saved := s.rows)
    case Create(oid, isIndex) =>
      s.(rows := s.rows[oid := Entry(isIndex, s.nextObj, None)],
         heap := s.heap.(live := s.heap.live + {s.nextObj}),
         nextObj := s.nextObj + 1,
         abortActions := [DeleteSchema(s.nextObj)] + s.abortActions)
    case SetPointer(oid, bwtree) =>
      s.(rows := s.rows[oid := s.rows[oid].(ptr := Some(s.nextObj))],
         heap := s.heap.(live := s.heap.live + {s.nextObj},
                         registered := s.heap.registered + if bwtree then {s.nextObj} else {}),
         bwtrees := s.bwtrees + if bwtree then {s.nextObj} else {},
         nextObj := s.nextObj + 1,
         abortActions := [if s.rows[oid].isIndex then DropIndex(s.nextObj) else DeleteTable(s.nextObj)] + s.abortActions)
    case Drop(oid) =>
      var e := s.rows[oid];
      s.(rows := s.rows - {oid},
         commitActions := [if e.isIndex then DropIndexObjects(e.schema, e.ptr.value)
                           else DropTableObjects(e.schema, e.ptr.value)] + s.commitActions)
    case Commit =>
      s.(inTxn := false, saved := s.rows, heap := RunCommit(s.heap, s.commitActions, s.bwtrees),
         commitActions := [], abortActions := [])
    case Abort =>
      s.(inTxn := false, rows := s.saved, heap := RunAbort(s.heap, s.abortActions, s.bwtrees),
         commitActions := [], abortActions := [])
    case RunDeferred(i) =>
      var d := s.heap.deferred[i];
      var h := s.heap.(deferred := s.heap.deferred[..i] + s.heap.deferred[i + 1..]);
      s.(heap := if d.rounds > 0 then Defer(h, Deferred(d.rounds - 1, d.objs)) else FreeAll(h, d.objs))
  }

  predicate Feasible(s: State, steps: seq<Step>)
    decreases steps
  {
    steps == [] || (Enabled(s, steps[0]) && Feasible(Apply(s, steps[0]), steps[1..]))
  }

  function Exec(s: State, steps: seq<Step>): State
    requires Feasible(s, steps)
    decreases steps
  {
    if steps == [] then s else Exec(Apply(s, steps[0]), steps[1..])
  }

  // ---------------------------------------------------------------------------
  // Who holds an object: the places are counted for one object at a time
  // ---------------------------------------------------------------------------

  function One(b: bool): nat {
    if b then 1 else 0
  }

  ghost function SchemaRefs(rows: map<Oid, Entry>, o: Obj): set<Oid> {
    set oid | oid in rows && rows[oid].schema == o
  }

  ghost function TableRefs(rows: map<Oid, Entry>, o: Obj): set<Oid> {
    set oid | oid in rows && rows[oid].ptr == Some(o) && !rows[oid].isIndex
  }

  ghost function IndexRefs(rows: map<Oid, Entry>, o: Obj): set<Oid> {
    set oid | oid in rows && rows[oid].ptr == Some(o) && rows[oid].isIndex
  }

  /** References from rows other than to an index. */
  ghost function PlainInRows(rows: map<Oid, Entry>, o: Obj): nat {
    |SchemaRefs(rows, o)| + |TableRefs(rows, o)|
  }

  ghost function InRows(rows: map<Oid, Entry>, o: Obj): nat {
    PlainInRows(rows, o) + |IndexRefs(rows, o)|
  }

  ghost function PlainInEntry(e: Entry, o: Obj): nat {
    One(e.schema == o) + One(e.ptr == Some(o) && !e.isIndex)
  }

  ghost function InEntry(e: Entry, o: Obj): nat {
    PlainInEntry(e, o) + One(e.ptr == Some(o) && e.isIndex)
  }

  ghost function SchemasInAborts(actions: seq<AbortAction>, o: Obj): nat {
    if actions == [] then 0 else One(actions[0] == DeleteSchema(o)) + SchemasInAborts(actions[1..], o)
  }

  ghost function PlainInAborts(actions: seq<AbortAction>, o: Obj): nat {
    if actions == [] then 0
    else One(actions[0] == DeleteSchema(o)) + One(actions[0] == DeleteTable(o)) + PlainInAborts(actions[1..], o)
  }

  ghost function InAborts(actions: seq<AbortAction>, o: Obj): nat {
    if actions == [] then 0
    else One(actions[0] == DeleteSchema(o)) + One(actions[0] == DeleteTable(o)) + One(actions[0] == DropIndex(o)) +
         InAborts(actions[1..], o)
  }

  ghost function PlainInCommit(a: CommitAction, o: Obj): nat {
    match a
    case DropTableObjects(schema, table) => One(schema == o) + One(table == o)
    case DropIndexObjects(schema, index) => One(schema == o)
  }

  ghost function InCommit(a: CommitAction, o: Obj): nat {
    PlainInCommit(a, o) + One(a.DropIndexObjects? && a.index == o)
  }

  ghost function PlainInCommits(actions: seq<CommitAction>, o: Obj): nat {
    if actions == [] then 0 else PlainInCommit(actions[0], o) + PlainInCommits(actions[1..], o)
  }

  ghost function InCommits(actions: seq<CommitAction>, o: Obj): nat {
    if actions == [] then 0 else InCommit(actions[0], o) + InCommits(actions[1..], o)
  }

  ghost function InDeferred(deferred: seq<Deferred>, o: Obj): nat {
    if deferred == [] then 0 else multiset(deferred[0].objs)[o] + InDeferred(deferred[1..], o)
  }

  // ---------------------------------------------------------------------------
  // The invariant
  // ---------------------------------------------------------------------------

  /** Conservation for one object. It is live exactly when one of these holds it, and then only one
      does: a committed row, an abort action of the running transaction, a deferred deletion. And
      what committed rows and abort actions hold is what the transaction's rows and its commit
      actions hold. */
  ghost predicate Balanced(s: State, o: Obj) {
    && One(o in s.heap.live) == InRows(s.saved, o) + InAborts(s.abortActions, o) + InDeferred(s.heap.deferred, o)
    && InRows(s.rows, o) + InCommits(s.commitActions, o) == InRows(s.saved, o) + InAborts(s.abortActions, o)
    && (o in s.heap.registered <==> o in s.bwtrees && InRows(s.saved, o) + InAborts(s.abortActions, o) > 0)
    && (o in s.bwtrees ==> PlainInRows(s.rows, o) + PlainInRows(s.saved, o) +
                           PlainInAborts(s.abortActions, o) + PlainInCommits(s.commitActions, o) == 0)
    && (o >= s.nextObj ==> o !in s.bwtrees && o !in s.heap.live)
  }

  ghost predicate Inv(s: State) {
    && !s.heap.doubleFree
    && (!s.inTxn ==> s.rows == s.saved && s.commitActions == [] && s.abortActions == [])
    && forall o :: Balanced(s, o)
  }

  // ---------------------------------------------------------------------------
  // Counting lemmas
  // ---------------------------------------------------------------------------

  lemma SchemaAdd(rows: map<Oid, Entry>, oid: Oid, e: Entry, o: Obj)
    requires oid !in rows
    ensures |SchemaRefs(rows[oid := e], o)| == |SchemaRefs(rows, o)| + One(e.schema == o)
  {
    assert SchemaRefs(rows[oid := e], o) == SchemaRefs(rows, o) + if e.schema == o then {oid} else {};
  }

  lemma TableAdd(rows: map<Oid, Entry>, oid: Oid, e: Entry, o: Obj)
    requires oid !in rows
    ensures |TableRefs(rows[oid := e], o)| == |TableRefs(rows, o)| + One(e.ptr == Some(o) && !e.isIndex)
  {
    assert TableRefs(rows[oid := e], o) == TableRefs(rows, o) + if e.ptr == Some(o) && !e.isIndex then {oid} else {};
  }

  lemma IndexAdd(rows: map<Oid, Entry>, oid: Oid, e: Entry, o: Obj)
    requires oid !in rows
    ensures |IndexRefs(rows[oid := e], o)| == |IndexRefs(rows, o)| + One(e.ptr == Some(o) && e.isIndex)
  {
    assert IndexRefs(rows[oid := e], o) == IndexRefs(rows, o) + if e.ptr == Some(o) && e.isIndex then {oid} else {};
  }

  lemma CountAdd(rows: map<Oid, Entry>, oid: Oid, e: Entry, o: Obj)
    requires oid !in rows
    ensures PlainInRows(rows[oid := e], o) == PlainInRows(rows, o) + PlainInEntry(e, o)
    ensures InRows(rows[oid := e], o) == InRows(rows, o) + InEntry(e, o)
  {
    SchemaAdd(rows, oid, e, o);
    TableAdd(rows, oid, e, o);
    IndexAdd(rows, oid, e, o);
  }

  lemma CountRemove(rows: map<Oid, Entry>, oid: Oid, o: Obj)
    requires oid in rows
    ensures PlainInRows(rows, o) == PlainInRows(rows - {oid}, o) + PlainInEntry(rows[oid], o)
    ensures InRows(rows, o) == InRows(rows - {oid}, o) + InEntry(rows[oid], o)
  {
    CountAdd(rows - {oid}, oid, rows[oid], o);
    assert (rows - {oid})[oid := rows[oid]] == rows;
  }

  lemma CountUpdate(rows: map<Oid, Entry>, oid: Oid, e: Entry, o: Obj)
    requires oid in rows
    ensures PlainInRows(rows[oid := e], o) + PlainInEntry(rows[oid], o) == PlainInRows(rows, o) + PlainInEntry(e, o)
    ensures InRows(rows[oid := e], o) + InEntry(rows[oid], o) == InRows(rows, o) + InEntry(e, o)
  {
    CountRemove(rows, oid, o);
    CountAdd(rows - {oid}, oid, e, o);
    assert (rows - {oid})[oid := e] == rows[oid := e];
  }

  lemma {:induction false} DeferredConcat(a: seq<Deferred>, b: seq<Deferred>, o: Obj)
    ensures InDeferred(a + b, o) == InDeferred(a, o) + InDeferred(b, o)
  {
    if a == [] {
      assert a + b == b;
    } else {
      DeferredConcat(a[1..], b, o);
      assert (a + b)[1..] == a[1..] + b;
    }
  }

  lemma DeferredAppend(a: seq<Deferred>, d: Deferred, o: Obj)
    ensures InDeferred(a + [d], o) == InDeferred(a, o) + multiset(d.objs)[o]
  {
    DeferredConcat(a, [d], o);
  }

  lemma DeferredTake(d: seq<Deferred>, i: nat, o: Obj)
    requires i < |d|
    ensures InDeferred(d, o) == InDeferred(d[..i] + d[i + 1..], o) + multiset(d[i].objs)[o]
  {
    assert d == d[..i] + ([d[i]] + d[i + 1..]);
    DeferredConcat(d[..i], [d[i]] + d[i + 1..], o);
    DeferredConcat([d[i]], d[i + 1..], o);
    DeferredConcat(d[..i], d[i + 1..], o);
  }

  // ---------------------------------------------------------------------------
  // What running actions does
  // ---------------------------------------------------------------------------

  /** Objects that are live and named once are freed without a double free. */
  lemma {:induction false} FreeAllEffect(h: Heap, objs: seq<Obj>)
    requires !h.doubleFree
    requires forall o :: multiset(objs)[o] <= One(o in h.live)
    ensures var h' := FreeAll(h, objs);
      && !h'.doubleFree && h'.registered == h.registered && h'.deferred == h.deferred
      && forall o :: One(o in h'.live) + multiset(objs)[o] == One(o in h.live)
    decreases |objs|
  {
    if objs != [] {
      assert objs == [objs[0]] + objs[1..];
      assert multiset(objs)[objs[0]] >= 1;
      assert objs[0] in h.live;
      var h1 := Free(h, objs[0]);
      forall o ensures multiset(objs[1..])[o] <= One(o in h1.live) {
        assert multiset(objs)[o] == multiset(objs[1..])[o] + One(o == objs[0]);
      }
      FreeAllEffect(h1, objs[1..]);
      forall o ensures One(o in FreeAll(h, objs).live) + multiset(objs)[o] == One(o in h.live) {
        assert multiset(objs)[o] == multiset(objs[1..])[o] + One(o == objs[0]);
      }
    }
  }

  lemma CommitActionDefers(h: Heap, a: CommitAction, bwtrees: set<Obj>, o: Obj)
    ensures InDeferred(RunCommitAction(h, a, bwtrees).deferred, o) == InDeferred(h.deferred, o) + InCommit(a, o)
  {
    match a {
      case DropTableObjects(schema, table) => DeferredAppend(h.deferred, Deferred(1, [schema, table]), o);
      case DropIndexObjects(schema, index) => DeferredAppend(h.deferred, Deferred(1, [schema, index]), o);
    }
  }

  /** Committing moves what the commit actions hold to the deferred deletions. */
  lemma {:induction false} RunCommitDefers(h: Heap, actions: seq<CommitAction>, bwtrees: set<Obj>, o: Obj)
    ensures var h' := RunCommit(h, actions, bwtrees);
      && h'.live == h.live && h'.doubleFree == h.doubleFree
      && InDeferred(h'.deferred, o) == InDeferred(h.deferred, o) + InCommits(actions, o)
    decreases |actions|
  {
    if actions != [] {
      CommitActionDefers(h, actions[0], bwtrees, o);
      RunCommitDefers(RunCommitAction(h, actions[0], bwtrees), actions[1..], bwtrees, o);
    }
  }

  /** It unregisters the indexes among it. */
  lemma {:induction false} RunCommitUnregisters(h: Heap, actions: seq<CommitAction>, bwtrees: set<Obj>, o: Obj)
    ensures o in RunCommit(h, actions, bwtrees).registered <==>
            o in h.registered && !(o in bwtrees && InCommits(actions, o) > PlainInCommits(actions, o))
    decreases |actions|
  {
    if actions != [] {
      RunCommitUnregisters(RunCommitAction(h, actions[0], bwtrees), actions[1..], bwtrees, o);
      PlainAtMost(actions[1..], o);
    }
  }

  lemma {:induction false} PlainAtMost(actions: seq<CommitAction>, o: Obj)
    ensures PlainInCommits(actions, o) <= InCommits(actions, o)
  {
    if actions != [] {
      PlainAtMost(actions[1..], o);
    }
  }

  /** Aborting frees the schemas among what the abort actions hold, each of them once. */
  lemma {:induction false} RunAbortFrees(h: Heap, actions: seq<AbortAction>, bwtrees: set<Obj>)
    requires !h.doubleFree
    requires forall o :: SchemasInAborts(actions, o) <= One(o in h.live)
    ensures !RunAbort(h, actions, bwtrees).doubleFree
    ensures forall o :: One(o in RunAbort(h, actions, bwtrees).live) + SchemasInAborts(actions, o) == One(o in h.live)
    decreases |actions|
  {
    if actions != [] {
      var a, rest := actions[0], actions[1..];
      var h1 := RunAbortAction(h, a, bwtrees);
      assert a.DeleteSchema? ==> SchemasInAborts(actions, a.schema) >= 1;
      assert !h1.doubleFree;
      forall o: Obj ensures One(o in h1.live) + One(a == DeleteSchema(o)) == One(o in h.live) {
      }
      forall o: Obj ensures SchemasInAborts(rest, o) <= One(o in h1.live) {
        assert SchemasInAborts(actions, o) == One(a == DeleteSchema(o)) + SchemasInAborts(rest, o);
      }
      RunAbortFrees(h1, rest, bwtrees);
    }
  }

  lemma AbortActionDefers(h: Heap, a: AbortAction, bwtrees: set<Obj>, o: Obj)
    ensures InDeferred(RunAbortAction(h, a, bwtrees).deferred, o) ==
            InDeferred(h.deferred, o) + One(a == DeleteTable(o)) + One(a == DropIndex(o))
  {
    match a {
      case DeleteSchema(_) =>
      case DeleteTable(table) => DeferredAppend(h.deferred, Deferred(0, [table]), o);
      case DropIndex(index) => DeferredAppend(h.deferred, Deferred(0, [index]), o);
    }
  }

  /** The rest moves to the deferred deletions. */
  lemma {:induction false} RunAbortDefers(h: Heap, actions: seq<AbortAction>, bwtrees: set<Obj>, o: Obj)
    ensures InDeferred(RunAbort(h, actions, bwtrees).deferred, o) + SchemasInAborts(actions, o) ==
            InDeferred(h.deferred, o) + InAborts(actions, o)
    decreases |actions|
  {
    if actions != [] {
      AbortActionDefers(h, actions[0], bwtrees, o);
      RunAbortDefers(RunAbortAction(h, actions[0], bwtrees), actions[1..], bwtrees, o);
    }
  }

  /** The indexes among it are unregistered. */
  lemma {:induction false} RunAbortUnregisters(h: Heap, actions: seq<AbortAction>, bwtrees: set<Obj>, o: Obj)
    ensures o in RunAbort(h, actions, bwtrees).registered <==>
            o in h.registered && !(o in bwtrees && InAborts(actions, o) > PlainInAborts(actions, o))
    decreases |actions|
  {
    if actions != [] {
      RunAbortUnregisters(RunAbortAction(h, actions[0], bwtrees), actions[1..], bwtrees, o);
      PlainAtMostAborts(actions[1..], o);
    }
  }

  lemma {:induction false} PlainAtMostAborts(actions: seq<AbortAction>, o: Obj)
    ensures SchemasInAborts(actions, o) <= PlainInAborts(actions, o) <= InAborts(actions, o)
  {
    if actions != [] {
      PlainAtMostAborts(actions[1..], o);
    }
  }

  // ---------------------------------------------------------------------------
  // Every step keeps the invariant
  // ---------------------------------------------------------------------------

  lemma CreateBalanced(s: State, oid: Oid, isIndex: bool, o: Obj)
    requires Inv(s) && Enabled(s, Create(oid, isIndex))
    ensures Balanced(Apply(s, Create(oid, isIndex)), o)
  {
    assert Balanced(s, o) && Balanced(s, s.nextObj);
    CountAdd(s.rows, oid, Entry(isIndex, s.nextObj, None), o);
  }

  /** Nothing holds the next object yet. */
  lemma NewObjectUnheld(s: State)
    requires Inv(s)
    ensures InRows(s.saved, s.nextObj) == 0 && InRows(s.rows, s.nextObj) == 0
    ensures InAborts(s.abortActions, s.nextObj) == 0 && InCommits(s.commitActions, s.nextObj) == 0
    ensures PlainInAborts(s.abortActions, s.nextObj) == 0 && PlainInCommits(s.commitActions, s.nextObj) == 0
    ensures s.nextObj !in s.heap.live && s.nextObj !in s.bwtrees && s.nextObj !in s.heap.registered
    ensures InDeferred(s.heap.deferred, s.nextObj) == 0
  {
    assert Balanced(s, s.nextObj);
    PlainAtMost(s.commitActions, s.nextObj);
    PlainAtMostAborts(s.abortActions, s.nextObj);
  }

  lemma SetPointerBalanced(s: State, oid: Oid, bwtree: bool, o: Obj)
    requires Inv(s) && Enabled(s, SetPointer(oid, bwtree))
    ensures Balanced(Apply(s, SetPointer(oid, bwtree)), o)
  {
    assert Balanced(s, o);
    if o == s.nextObj {
      NewObjectUnheld(s);
      SetPointerNew(s, oid, bwtree);
    } else {
      SetPointerOther(s, oid, bwtree, o);
    }
  }

  lemma SetPointerCounts(s: State, oid: Oid, bwtree: bool, o: Obj)
    requires Enabled(s, SetPointer(oid, bwtree))
    ensures var t, n, index := Apply(s, SetPointer(oid, bwtree)), One(o == s.nextObj), s.rows[oid].isIndex;
      && InRows(t.rows, o) == InRows(s.rows, o) + n
      && PlainInRows(t.rows, o) == PlainInRows(s.rows, o) + (if index then 0 else n)
      && InAborts(t.abortActions, o) == InAborts(s.abortActions, o) + n
      && PlainInAborts(t.abortActions, o) == PlainInAborts(s.abortActions, o) + (if index then 0 else n)
  {
    var a := if s.rows[oid].isIndex then DropIndex(s.nextObj) else DeleteTable(s.nextObj);
    CountUpdate(s.rows, oid, s.rows[oid].(ptr := Some(s.nextObj)), o);
  }

  lemma SetPointerOther(s: State, oid: Oid, bwtree: bool, o: Obj)
    requires Balanced(s, o) && Enabled(s, SetPointer(oid, bwtree)) && o != s.nextObj
    ensures Balanced(Apply(s, SetPointer(oid, bwtree)), o)
  {
    SetPointerCounts(s, oid, bwtree, o);
  }

  lemma SetPointerNew(s: State, oid: Oid, bwtree: bool)
    requires Enabled(s, SetPointer(oid, bwtree)) && Balanced(s, s.nextObj)
    requires InRows(s.saved, s.nextObj) == 0 && InRows(s.rows, s.nextObj) == 0
    requires InAborts(s.abortActions, s.nextObj) == 0 && InCommits(s.commitActions, s.nextObj) == 0
    requires PlainInAborts(s.abortActions, s.nextObj) == 0 && PlainInCommits(s.commitActions, s.nextObj) == 0
    requires s.nextObj !in s.heap.live && s.nextObj !in s.bwtrees && s.nextObj !in s.heap.registered
    requires InDeferred(s.heap.deferred, s.nextObj) == 0
    ensures Balanced(Apply(s, SetPointer(oid, bwtree)), s.nextObj)
  {
    SetPointerCounts(s, oid, bwtree, s.nextObj);
  }

  lemma DropBalanced(s: State, oid: Oid, o: Obj)
    requires Inv(s) && Enabled(s, Drop(oid))
    ensures Balanced(Apply(s, Drop(oid)), o)
  {
    assert Balanced(s, o);
    CountRemove(s.rows, oid, o);
  }

  lemma CommitBalanced(s: State, o: Obj)
    requires Inv(s) && Enabled(s, Commit)
    ensures Balanced(Apply(s, Commit), o)
    ensures !Apply(s, Commit).heap.doubleFree
  {
    assert Balanced(s, o);
    RunCommitDefers(s.heap, s.commitActions, s.bwtrees, o);
    RunCommitUnregisters(s.heap, s.commitActions, s.bwtrees, o);
  }

  lemma AbortBalanced(s: State)
    requires Inv(s) && Enabled(s, Abort)
    ensures forall o :: Balanced(Apply(s, Abort), o)
    ensures !Apply(s, Abort).heap.doubleFree
  {
    forall o: Obj ensures SchemasInAborts(s.abortActions, o) <= One(o in s.heap.live) {
      assert Balanced(s, o);
      PlainAtMostAborts(s.abortActions, o);
    }
    RunAbortFrees(s.heap, s.abortActions, s.bwtrees);
    forall o: Obj ensures Balanced(Apply(s, Abort), o) {
      assert Balanced(s, o);
      RunAbortDefers(s.heap, s.abortActions, s.bwtrees, o);
      RunAbortUnregisters(s.heap, s.abortActions, s.bwtrees, o);
      PlainAtMostAborts(s.abortActions, o);
    }
  }

  lemma RunDeferredBalanced(s: State, i: nat)
    requires Inv(s) && Enabled(s, RunDeferred(i))
    ensures forall o :: Balanced(Apply(s, RunDeferred(i)), o)
    ensures !Apply(s, RunDeferred(i)).heap.doubleFree
  {
    var d := s.heap.deferred[i];
    var h := s.heap.(deferred := s.heap.deferred[..i] + s.heap.deferred[i + 1..]);
    forall o: Obj ensures InDeferred(s.heap.deferred, o) == InDeferred(h.deferred, o) + multiset(d.objs)[o] {
      DeferredTake(s.heap.deferred, i, o);
    }
    if d.rounds > 0 {
      forall o: Obj ensures Balanced(Apply(s, RunDeferred(i)), o) {
        assert Balanced(s, o);
        DeferredConcat(h.deferred, [Deferred(d.rounds - 1, d.objs)], o);
      }
    } else {
      forall o: Obj ensures multiset(d.objs)[o] <= One(o in h.live) {
        assert Balanced(s, o);
      }
      FreeAllEffect(h, d.objs);
      forall o: Obj ensures Balanced(Apply(s, RunDeferred(i)), o) {
        assert Balanced(s, o);
      }
    }
  }

  lemma StepInv(s: State, step: Step)
    requires Inv(s) && Enabled(s, step)
    ensures Inv(Apply(s, step))
  {
    match step {
      case Begin => forall o: Obj ensures Balanced(Apply(s, Begin), o) { assert Balanced(s, o); }
      case Create(oid, isIndex) => forall o: Obj ensures Balanced(Apply(s, step), o) { CreateBalanced(s, oid, isIndex, o); }
      case SetPointer(oid, bwtree) => forall o: Obj ensures Balanced(Apply(s, step), o) { SetPointerBalanced(s, oid, bwtree, o); }
      case Drop(oid) => forall o: Obj ensures Balanced(Apply(s, step), o) { DropBalanced(s, oid, o); }
      case Commit => forall o: Obj ensures Balanced(Apply(s, step), o) { CommitBalanced(s, o); } CommitBalanced(s, 0);
      case Abort => AbortBalanced(s);
      case RunDeferred(i) => RunDeferredBalanced(s, i);
    }
  }

  lemma {:induction false} RunInv(s: State, steps: seq<Step>)
    requires Inv(s) && Feasible(s, steps)
    ensures Inv(Exec(s, steps))
    decreases steps
  {
    if steps != [] {
      StepInv(s, steps[0]);
      RunInv(Apply(s, steps[0]), steps[1..]);
    }
  }

  // ---------------------------------------------------------------------------
  // Whole runs
  // ---------------------------------------------------------------------------

  /** Some committed row points to the object. */
  ghost predicate Referenced(rows: map<Oid, Entry>, o: Obj) {
    exists oid :: oid in rows && (rows[oid].schema == o || rows[oid].ptr == Some(o))
  }

  lemma ReferencedIffCounted(rows: map<Oid, Entry>, o: Obj)
    ensures Referenced(rows, o) <==> InRows(rows, o) > 0
  {
    if oid :| oid in rows && (rows[oid].schema == o || rows[oid].ptr == Some(o)) {
      CountRemove(rows, oid, o);
    } else {
      assert SchemaRefs(rows, o) == {} && TableRefs(rows, o) == {} && IndexRefs(rows, o) == {};
    }
  }

  /** No run of any transactions, ended either way, frees an object twice; an object a row points to
      is always live; and no index is registered with the garbage collector after it was freed. */
  lemma NeverFreedTwice(steps: seq<Step>)
    requires Feasible(Init, steps)
    ensures var s := Exec(Init, steps);
      && !s.heap.doubleFree
      && s.heap.registered <= s.heap.live * s.bwtrees
      && forall o :: Referenced(s.rows, o) || Referenced(s.saved, o) ==> o in s.heap.live
  {
    RunInv(Init, steps);
    var s := Exec(Init, steps);
    forall o: Obj
      ensures o in s.heap.registered ==> o in s.heap.live && o in s.bwtrees
      ensures Referenced(s.rows, o) || Referenced(s.saved, o) ==> o in s.heap.live
    {
      assert Balanced(s, o);
      ReferencedIffCounted(s.rows, o);
      ReferencedIffCounted(s.saved, o);
    }
  }

  /** Once no transaction runs and every deferred action has run, the live objects are exactly those
      that committed rows point to, each pointed to once, and the registered indexes are exactly the
      live ones of type BWTREE. */
  lemma DrainedHeapIsExact(steps: seq<Step>)
    requires Feasible(Init, steps)
    requires !Exec(Init, steps).inTxn && Exec(Init, steps).heap.deferred == []
    ensures var s := Exec(Init, steps);
      && s.heap.registered == s.heap.live * s.bwtrees
      && forall o :: (o in s.heap.live <==> Referenced(s.rows, o)) && InRows(s.rows, o) <= 1
  {
    RunInv(Init, steps);
    var s := Exec(Init, steps);
    forall o: Obj
      ensures o in s.heap.registered <==> o in s.heap.live && o in s.bwtrees
      ensures (o in s.heap.live <==> Referenced(s.rows, o)) && InRows(s.rows, o) <= 1
    {
      assert Balanced(s, o);
      ReferencedIffCounted(s.rows, o);
    }
  }

  // ---------------------------------------------------------------------------
  // The deferred actions do come to an end
  // ---------------------------------------------------------------------------

  /** How many runs the deferred actions need between them. */
  function Work(deferred: seq<Deferred>): nat {
    if deferred == [] then 0 else deferred[0].rounds + 1 + Work(deferred[1..])
  }

  lemma {:induction false} WorkConcat(a: seq<Deferred>, b: seq<Deferred>)
    ensures Work(a + b) == Work(a) + Work(b)
  {
    if a == [] {
      assert a + b == b;
    } else {
      assert (a + b)[1..] == a[1..] + b;
      WorkConcat(a[1..], b);
    }
  }

  lemma {:induction false} FreeAllDefersNothing(h: Heap, objs: seq<Obj>)
    ensures FreeAll(h, objs).deferred == h.deferred
    decreases |objs|
  {
    if objs != [] {
      FreeAllDefersNothing(Free(h, objs[0]), objs[1..]);
    }
  }

  /** Running any one of them leaves one run less. */
  lemma RunLeavesLess(s: State, i: nat)
    requires i < |s.heap.deferred|
    ensures Work(Apply(s, RunDeferred(i)).heap.deferred) == Work(s.heap.deferred) - 1
  {
    var all, d := s.heap.deferred, s.heap.deferred[i];
    var h := s.heap.(deferred := all[..i] + all[i + 1..]);
    assert all == all[..i] + ([d] + all[i + 1..]);
    WorkConcat(all[..i], [d] + all[i + 1..]);
    WorkConcat([d], all[i + 1..]);
    WorkConcat(all[..i], all[i + 1..]);
    WorkConcat(h.deferred, [Deferred(if d.rounds > 0 then d.rounds - 1 else 0, d.objs)]);
    FreeAllDefersNothing(h, d.objs);
  }

  /** Whichever is run next, each time, after exactly so many runs none is left, and not before. */
  lemma {:induction false} DeferredActionsEnd(s: State, steps: seq<Step>)
    requires Feasible(s, steps) && forall i :: 0 <= i < |steps| ==> steps[i].RunDeferred?
    ensures |steps| <= Work(s.heap.deferred)
    ensures Exec(s, steps).heap.deferred == [] <==> |steps| == Work(s.heap.deferred)
    decreases |steps|
  {
    if steps != [] {
      RunLeavesLess(s, steps[0].i);
      DeferredActionsEnd(Apply(s, steps[0]), steps[1..]);
    }
  }
}
