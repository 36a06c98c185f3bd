# A Dafny model of the hard parts of terrier

terrier is an in-memory database system written in C++. This project models the parts of it with
the most state and branching, and proves what they keep over all inputs and all runs:

- the optimizer's memo table, and the iterators that enumerate rule bindings over it;
- the cost table of a memo group, and the sort push-down of inner joins;
- the DDL lock of a database catalog, as interleaved steps of any number of transactions;
- the catalog itself: pg_class, pg_index, pg_attribute and pg_namespace with their indexes, and the
  create and drop cascades over them;
- the life of the heap objects that catalog rows point to, through commit, abort and deferred actions;
- the binder: scopes, name lookup, and the visitor that binds nested selects;
- the access observer that decides which blocks are cold;
- the bracket scanners and the preprocessor tracking of the repository's linter.

`dafny verify dfyconfig.toml` checks everything.

## How it is built

- Options.dfy: the option type
- Plans.dfy, Bindings.dfy, BindingIterators.dfy, BindingRuns.dfy: memo values; what the bindings of a pattern are; the two iterators; when the enumeration ends
- MemoTable.dfy: the memo with its hash table and alias sets
- LowestCosts.dfy: the cheapest expression per property set
- JoinProperties.dfy: sort push-down for joins
- DdlLock.dfy: the lock word as a state machine
- CatalogStorage.dfy, CatalogTables.dfy, CatalogConflicts.dfy, DatabaseCatalog.dfy: rows and indexes; catalog rows and the meaning of create and drop; rows held by other transactions; the catalog class
- CatalogChanges.dfy, CatalogRuns.dfy: the operations as changes of rows; whole runs of interleaved transactions that change the catalog
- ObjectLife.dfy: schemas, tables and indexes on the heap
- Scopes.dfy, Binder.dfy, BoundStatements.dfy: name resolution; contexts and the visitor; what a bound statement guarantees
- AccessObserver.dfy: cold blocks
- LintText.dfy, BracketScan.dfy, NestingState.dfy: the linter

Code that works by changing things in place is a class or a method with a loop, proved equal to a
function on values. What the code promises is then proved about those functions. Iteration over a
hash map or a hash set picks its elements in an arbitrary order.

What the model takes as given:

- The rows and indexes of a catalog are those that the transaction holding the DDL lock sees. A `ScanKey`
  returns the visible rows whose index entry has the key.
- Who else can be at work then is proved, not assumed: by `DdlLock.WhoOverlapsOwner` every earlier owner
  that committed did so before the present owner started, and any other has ended or is aborting with the
  lock already given back, and `DdlLock.AbortingOwnerLingers` is a run in which the last case happens. An
  abort gives the lock back before it rolls back its rows (src/transaction/transaction_manager.cpp:148-164).
  Such rows are the `Conflicts` of a catalog: deleting one fails and marks the transaction to abort
  (src/storage/data_table.cpp:239-243, src/include/storage/sql_table.h:127-132), and `InsertUnique` refuses
  the key of one as it refuses the key of a visible row (src/include/storage/index/bwtree_index.h:67-91).
  Which rows are held is arbitrary, and fixed for the length of a call. The names refused because of a row
  that is not visible are arbitrary too, which is more than the code can show: an aborting owner's end
  actions take its index entries out before the one that gives the lock back.
- A transaction sees what was committed before it started. The code keeps a new transaction waiting while a
  commit makes its rows visible (src/transaction/transaction_manager.cpp:18-23 and 51-72).
- A transaction that is marked to abort does not commit. The code asserts this where it commits
  (src/transaction/transaction_manager.cpp:82-85) and relies on its callers where assertions are off.
- The timestamp manager draws every start, commit and abort time from one increasing counter, and the
  id of an unfinished transaction is its start time with the top bit set. End actions run in the
  reverse of the order they were registered in.
- A catalog object gets its pointer once, and is dropped only after that.
- A join streams its probe side, which is its right child, and its build side has no table of the
  probe side. This is what the comment at the push-down states. Costs are real numbers.
- The parser leaves the table oid of a column reference invalid and its depth at -1.

Where the code does not do what one might expect, the model follows the code:

- A LEAF pattern over a group without logical expressions is offered for ever.
  `BindingRuns.EndsExactlyWhenDrains` proves `Bindings.Drains`, no such group reached at any depth, to be
  the exact condition under which the enumeration ends.
- `CreateIndex` does not look up the table it names. `CatalogTables.NewIndexKept` proves the catalog
  stays consistent exactly when that table exists.
- The push-down is offered when any one of the required orders passes the test for the probe side, although
  it then promises all of them, and the test only sees columns that are reached through the children of an
  expression. A case and a subquery have no children (src/include/parser/expression/case_expression.h:82-86,
  src/include/parser/expression/subquery_expression.h:20-21), so `ORDER BY CASE WHEN l.b = 1 THEN 0 ELSE 1 END`
  passes for every probe side. `JoinProperties.PushDownExact` proves the push-down right, whatever the
  operations compute, exactly when every column read anywhere in an order is of the probe side;
  `JoinProperties.OffersExact` says when every choice offered is right, and `JoinProperties.OneOrderExact`
  which orders are safe by themselves. `JoinProperties.CaseOrderFails` and `JoinProperties.TwoOrdersCanFail`
  are the two ways in which it goes wrong.
- A qualified name prefers a base table of an outer select to a derived table of the inner one, so it can be
  bound to the wrong table or rejected although the inner one has the column. `Scopes.QualifiedIsInnermost`
  has the exact condition, for every reference, and `Scopes.OuterTableWins` a reference of each kind.
- The binder does not look under a cast, into the results of a case, or at the other half of a union
  (src/binder/bind_node_visitor.cpp:463-467, 502-507 and 43-87). Columns there keep what the parser gave them.
  `BoundStatements.AnchoredExactlyWhenReached` proves that a statement that binds has all its columns bound
  exactly when there are none in those places, and `BoundStatements.CastIsNotBound` is a statement with one.
- `DeleteTable` drops the answer of its nested `DeleteIndexes`, and `DeleteIndex` only asserts that the row
  in pg_index could be deleted. Either can therefore answer true although rows stayed. Their contracts say
  exactly when, and that the transaction is marked to abort then.
- `DeleteColumns` asserts that there is a column. After such a `DeleteTable` the second pass of
  `DeleteNamespace` can meet an index whose columns are already gone; the model follows the code with
  assertions off and deletes none.

## Model

| member | source | states |
|---|---|---|
| Bindings.RemainingStep | src/optimizer/binding.cpp:109-122 | one carry of the odometer over the child bindings hands out exactly the next tuple of the product and leaves the rest |
| Bindings.RemainingFromZero | src/optimizer/binding.cpp:73-75 | from all zeros the odometer still has the whole product ahead |
| Bindings.RemainingAtEnd | src/optimizer/binding.cpp:124-126 | with every wheel at its end one tuple is left, so the iterator stops having missed none |
| Bindings.ProductMember | src/optimizer/binding.cpp:128-132 | a tuple is produced exactly when it takes one binding of each child |
| Bindings.GroupBindingsExact | src/optimizer/binding.cpp:13-53 | a tree is enumerated for a group and a pattern exactly when it is an operator tree of that group with that shape |
| Bindings.ExprBindingsExact | src/optimizer/binding.cpp:55-101 | the same for one group expression: root type, number of children and every child match |
| Bindings.BindingCount | src/optimizer/binding.cpp:13-140 | the number of bindings is the sum over expressions of the products over children |
| Bindings.BindingsNoDup | src/optimizer/binding.cpp:13-140 | no tree is enumerated twice for a group and a pattern |
| Bindings.TreeDeterminesGroup | src/optimizer/binding.cpp:13-140 | in a hash-consed memo a tree bound in two groups, by whatever patterns, was bound in one |
| BindingIterators.GroupExprBindingIterator.constructor | src/optimizer/binding.cpp:55-101 | a new iterator over an expression has exactly its bindings to hand out, none when a child has none |
| BindingIterators.GroupExprBindingIterator.MatchChildren | src/optimizer/binding.cpp:57-93 | tests root type, number of children and that every child has a binding; together they hold exactly when the expression has bindings |
| BindingIterators.GroupExprBindingIterator.BindChildren | src/optimizer/binding.cpp:80-97 | the bindings of the children in order, up to and including the first child without any |
| BindingIterators.GroupExprBindingIterator.HasNext | src/optimizer/binding.cpp:103-140 | answers whether a binding is left, makes it current and loses none |
| BindingIterators.GroupExprBindingIterator.Advance | src/optimizer/binding.cpp:109-126 | turns the odometer to the next tuple, or reports that this was the last |
| BindingIterators.GroupExprBindingIterator.PickChildren | src/optimizer/binding.cpp:128-132 | takes the binding of each child at its position |
| BindingIterators.GroupExprBindingIterator.Next | src/include/optimizer/binding.h:146-149 | hands out the first of the bindings left |
| BindingIterators.GroupBindingIterator.constructor | src/include/optimizer/binding.h:67-75 | a new iterator over a group has exactly the group's bindings to hand out |
| BindingIterators.GroupBindingIterator.OpenNext | src/optimizer/binding.cpp:26-40 | moves past expressions without bindings and loses none |
| BindingIterators.GroupBindingIterator.TryCurrent | src/optimizer/binding.cpp:18-24 | an iterator without a binding left is given up and none is lost |
| BindingIterators.GroupBindingIterator.HasNext | src/optimizer/binding.cpp:13-43 | answers whether a binding is left and loses none |
| BindingIterators.GroupBindingIterator.Next | src/optimizer/binding.cpp:45-53 | hands out the first of the bindings left, except that a LEAF pattern over an empty group does not move |
| BindingIterators.AllBindings | src/optimizer/binding.cpp:83-88 | driving the iterator to its end yields the bindings in order, whenever every group reached by a LEAF pattern has an expression |
| BindingIterators.TakeBindings | src/optimizer/binding.cpp:13-53 | any number of rounds yields that many of the bindings, in order, and reports whether any are left |
| BindingIterators.TakeLeafOfEmptyGroup | src/optimizer/binding.cpp:13-50 | over a group without expressions a LEAF pattern yields its binding in every round and never reports the end |
| BindingRuns.LeafLoopEnds | src/optimizer/binding.cpp:86-88 | the loop over a LEAF pattern ends, after one binding, exactly when the group has an expression |
| BindingRuns.EndsExactlyWhenDrains | src/optimizer/binding.cpp:13-101 | for every memo, group and pattern, driving the iterators ends for some bound on the rounds exactly when no group reached by a LEAF pattern at any depth is empty, and what is yielded then is the list of bindings |
| MemoTable.Memo.constructor | src/optimizer/memo.cpp:11-46 | an empty memo satisfies the invariant |
| MemoTable.Memo.InsertExpression | src/optimizer/memo.cpp:11-46 | a stored expression is returned with its group and nothing changes; a new one goes to the table and to exactly one group; a LEAF only names its group; table and groups stay in agreement |
| MemoTable.Memo.AddExpression | src/optimizer/memo.cpp:32-45 | storing a new expression with its group keeps the invariant and changes no other group |
| MemoTable.Memo.AddNewGroup | src/optimizer/memo.cpp:48-73 | appends one group whose aliases are those of the base tables below its expression |
| MemoTable.Memo.CollectAliases | src/optimizer/memo.cpp:51-69 | a get has its own alias, any other expression the union over its child groups |
| MemoTable.Memo.EraseExpression | src/include/optimizer/memo.h:108-115 | removes the only logical expression from table and group together |
| MemoTable.AddKeepsInv | src/optimizer/memo.cpp:32-45 | after storing a new expression every expression is still owned once, by the group the table names |
| MemoTable.EraseKeepsInv | src/include/optimizer/memo.h:108-115 | and so after erasing one |
| MemoTable.NewGroupKeepsAliases | src/optimizer/memo.cpp:48-73 | alias sets remain the base aliases of the tree each group was created for |
| MemoTable.MemoIsHashConsed | src/optimizer/memo.cpp:11-46 | in every memo built by insertions no expression is in two places and child groups exist |
| MemoTable.BindingsOfMemo | src/optimizer/binding.cpp:13-140 | over such a memo no rule sees a tree twice, and a tree names the group it was bound in |
| LowestCosts.Group.SetExpressionCost | src/optimizer/group.cpp:39-59 | answers true exactly when it beats every earlier offer for the properties, and keeps the table the summary of all offers |
| LowestCosts.Group.GetBestExpression | src/optimizer/group.cpp:61-68 | the expression of the earliest of the cheapest offers, nothing exactly when there was no offer |
| LowestCosts.BestIsEarliestCheapest | src/optimizer/group.cpp:39-68 | after any offers the entry is cheaper than all before it and no dearer than any after it |
| JoinProperties.DeriveForJoin | src/optimizer/child_property_deriver.cpp:148-185 | the empty choice first, then one push-down per required order that passes the test |
| JoinProperties.CanPassDown | src/optimizer/child_property_deriver.cpp:154-177 | an order passes exactly when every column that is reached through children from one of its sort expressions is of a probe alias |
| JoinProperties.StreamKeepsOrder | src/optimizer/child_property_deriver.cpp:151-152 | a join that streams a probe side in an order that depends on that side alone yields rows in the same order, for any inputs and any join predicate |
| JoinProperties.OfferedExact | src/optimizer/child_property_deriver.cpp:153-184 | the push-down is offered exactly when some required order passes, which one over the parts of a case always does |
| JoinProperties.PushDownExact | src/optimizer/child_property_deriver.cpp:179-182 | asking the probe side for all the required orders is right, whatever the operations compute, exactly when every column that any of them reads, parts of cases and subqueries included, is of a probe alias |
| JoinProperties.SoundExactly | src/optimizer/child_property_deriver.cpp:151-152 | for given meanings of the operations it is right exactly when every sort expression has the value it has on the probe row |
| JoinProperties.OffersExact | src/optimizer/child_property_deriver.cpp:148-185 | with the aliases the memo computed, every choice offered is right exactly when no required order passes the test or all the columns they read are of the probe side |
| JoinProperties.OneOrderExact | src/optimizer/child_property_deriver.cpp:153-184 | a single required order is handled rightly over every probe side exactly when no table is read in the parts of a case or a subquery alone |
| JoinProperties.OneOrderOfOperators | src/optimizer/child_property_deriver.cpp:153-184 | and so whenever it has no case and no subquery |
| JoinProperties.OperatorsHideNothing | src/include/parser/expression_util.h:311-320 | the walk over children collects every column read, in an expression without cases and subqueries |
| JoinProperties.CaseOrderFails | src/include/parser/expression/case_expression.h:82-86 | one order by a case over a build side column for which the push-down is offered and the result is out of order, if case, equality and constants mean what they do in SQL |
| JoinProperties.IndependentIsSound | src/optimizer/child_property_deriver.cpp:179-182 | any number of required orders that have the values of the probe side may be pushed down together |
| JoinProperties.TwoOrdersCanFail | src/optimizer/child_property_deriver.cpp:148-185 | two orders over columns for which the choice offered is wrong |
| DdlLock.StepInv | src/catalog/database_catalog.cpp:2004-2034 | every step of every transaction keeps the lock's invariant, and the committed value never goes down |
| DdlLock.RunInv | src/catalog/database_catalog.cpp:2004-2034 | and so does every run |
| DdlLock.CommittedDdlIsSerial | src/catalog/database_catalog.cpp:2004-2034 | in every interleaving, of two transactions that went through TryLock and committed one drew its commit time before the other started |
| DdlLock.WordMeaning | src/catalog/database_catalog.cpp:2004-2034 | the word is the id of the one transaction with a release pending, or the greatest commit time of an owner and no release is pending |
| DdlLock.OwnerIsLatest | src/catalog/database_catalog.cpp:2004-2034 | while a transaction owns the lock every earlier committed owner finished before it started |
| DdlLock.WhoOverlapsOwner | src/transaction/transaction_manager.cpp:148-192 | in every run, while a transaction owns the lock an earlier owner has committed before it started, has ended, or is aborting with its release done |
| DdlLock.AbortingOwnerLingers | src/transaction/transaction_manager.cpp:148-164 | a run in which the second owner holds the lock while the first is still aborting |
| DdlLock.AbortRestoresWord | src/catalog/database_catalog.cpp:2024-2030 | whatever happens in between, an abort puts back the word the acquisition replaced |
| DdlLock.WordStep | src/catalog/database_catalog.cpp:2024-2030 | only a commit action moves the committed value, to its own commit time |
| CatalogStorage.ScanKeyExact | src/catalog/database_catalog.cpp:770-778 | an index that agrees with its table scans to exactly the visible rows with the key |
| CatalogStorage.UniqueCheck | src/include/storage/index/bwtree_index.h:59-92 | the check of a unique insert fails exactly when another visible row has the key, or a row held by another transaction has it |
| CatalogTables.ColumnRoundTrip | src/catalog/database_catalog.cpp:529-650 | reading a class's columns in key order gives back the list they were written from, whatever else is in pg_attribute |
| CatalogTables.ColumnReadsBack | src/catalog/database_catalog.cpp:1978-2002 | what CreateColumn writes for one column is what MakeColumn reads |
| CatalogTables.RangeIsOneClass | src/catalog/database_catalog.cpp:619-628 | the closed key range that is scanned holds the columns of that class and no others |
| CatalogTables.NextColumn | src/catalog/database_catalog.cpp:529-599 | writing the next column succeeds exactly when no earlier column of the list has its name |
| CatalogTables.NewTableKept | src/catalog/database_catalog.cpp:1764-1867 | a new table with its columns keeps unique keys, fresh oids and referential integrity |
| CatalogTables.NewIndexKept | src/catalog/database_catalog.cpp:1415-1588 | a new index keeps them exactly when the table it names exists |
| CatalogTables.CreateThenDelete | src/catalog/database_catalog.cpp:732-847 | deleting a table straight after creating it gives the rows back |
| CatalogTables.RemovalKeepsIntegrity | src/catalog/database_catalog.cpp:740-847 | removing objects keeps integrity when the indexes on them go too |
| CatalogTables.TableDropKept | src/catalog/database_catalog.cpp:756-847 | dropping a table with its indexes keeps all the catalog promises |
| CatalogTables.IndexDropKept | src/catalog/database_catalog.cpp:1007-1148 | and so does dropping an index |
| CatalogTables.NamespaceDropKept | src/catalog/database_catalog.cpp:403-487 | dropping a namespace leaves none of its objects, keeps the promises, and outside takes only indexes on its tables |
| CatalogTables.InKeyOrder | src/catalog/database_catalog.cpp:627-628 | the ascending scan visits every entry of a unique index once, in key order |
| CatalogConflicts.OutcomeTwice | src/catalog/database_catalog.cpp:740-754 | two deletes that may each be given up half way are one delete of both sets of objects that may be |
| CatalogConflicts.StillClear | src/storage/data_table.cpp:239-253 | deleting, even half way, never changes whether an object has held rows, so what a later delete does can be read off the catalog before the call |
| CatalogConflicts.ClassRowsHaveIndexRows | src/catalog/database_catalog.cpp:1095-1098 | after any deletes given up half way an index with a class row still has its row in pg_index, as DeleteIndex expects |
| CatalogConflicts.NextTable | src/catalog/database_catalog.cpp:440-450 | after some tables with their indexes, deleted or given up half way, the next table and its indexes are as they were |
| CatalogConflicts.StragglersClear | src/catalog/database_catalog.cpp:456-468 | whether the indexes found by the second pass are clear is decided before the first |
| CatalogConflicts.OutcomeOfNamespace | src/catalog/database_catalog.cpp:437-469 | deleting the tables first and then what the namespace still holds removes exactly the objects of the cascade when none is held, and otherwise only rows of theirs |
| CatalogConflicts.CascadeOutcome | src/catalog/database_catalog.cpp:429-469 | with the namespace's own row deleted first, the whole drop ends with all of it gone, or with the transaction marked and no held row gone |
| DatabaseCatalogs.DatabaseCatalog.TryLock | src/catalog/database_catalog.cpp:2004-2034 | succeeds exactly when the word allows it; otherwise the transaction must abort and the word stays |
| DatabaseCatalogs.TryLockIsLoadThenDecide | src/catalog/database_catalog.cpp:2004-2034 | it is the load and the decision of the lock's state machine with nothing in between, which also register the one release |
| DatabaseCatalogs.DatabaseCatalog.CreateColumn | src/catalog/database_catalog.cpp:529-599 | adds one row and its two index entries, or fails exactly when the class has a column of that name |
| DatabaseCatalogs.DatabaseCatalog.CreateColumns | src/catalog/database_catalog.cpp:1847-1852 | writes the list with oids counted from one, exactly when its names are distinct |
| DatabaseCatalogs.DatabaseCatalog.GetColumns | src/catalog/database_catalog.cpp:603-650 | the columns in order of their oids; for columns written as a list, that list |
| DatabaseCatalogs.DatabaseCatalog.ScanAscending | src/catalog/database_catalog.cpp:627-628 | the visible rows with keys in the closed range, in key order |
| DatabaseCatalogs.DatabaseCatalog.ColumnSlots | src/catalog/database_catalog.cpp:619-628 | the range scan finds the rows of the class, in order, and no others |
| DatabaseCatalogs.DatabaseCatalog.DeleteColumns | src/catalog/database_catalog.cpp:655-730 | succeeds exactly when no row of the class is held, and then removes exactly its rows and their entries in every index; otherwise only rows of the class that were not held are gone, the indexes agree, and the transaction is marked |
| DatabaseCatalogs.DatabaseCatalog.InsertClass | src/catalog/database_catalog.cpp:1764-1845 | adds a class row to the table and its three indexes, or fails exactly when oid or name is taken by a visible row or the name by a row that is held |
| DatabaseCatalogs.DatabaseCatalog.InsertIndexRow | src/catalog/database_catalog.cpp:1498-1561 | adds a row to pg_index and its two indexes |
| DatabaseCatalogs.DatabaseCatalog.FillSchema | src/catalog/database_catalog.cpp:1847-1864 | writes the columns, reads them back and stores what was read, which is what was asked for |
| DatabaseCatalogs.DatabaseCatalog.CreateTableEntry | src/catalog/database_catalog.cpp:1764-1867 | the new rows on success, with every index in agreement; success exactly when no visible or held object has the name and the column names are distinct |
| DatabaseCatalogs.DatabaseCatalog.CreateTable | src/catalog/database_catalog.cpp:732-738 | with the lock, a table under a fresh oid in a consistent catalog exactly when the name is free and the column names distinct; otherwise no table and a marked transaction |
| DatabaseCatalogs.DatabaseCatalog.CreateIndexEntry | src/catalog/database_catalog.cpp:1415-1588 | the same for an index, in pg_class, pg_index and pg_attribute |
| DatabaseCatalogs.DatabaseCatalog.CreateIndex | src/catalog/database_catalog.cpp:999-1005 | the same for an index; the catalog is consistent exactly when the table exists |
| DatabaseCatalogs.DatabaseCatalog.GetIndexOids | src/catalog/database_catalog.cpp:963-997 | exactly the indexes on the table |
| DatabaseCatalogs.DatabaseCatalog.DetachObject | src/catalog/database_catalog.cpp:1009-1045 | removes an object's columns and class row, or fails exactly when one of them is held, leaving only rows that were |
| DatabaseCatalogs.DatabaseCatalog.DeleteIndexRow | src/catalog/database_catalog.cpp:1090-1128 | removes the row in pg_index and its entries; if the row is held nothing changes but the mark |
| DatabaseCatalogs.DatabaseCatalog.DeleteIndexSet | src/catalog/database_catalog.cpp:745-753 | deletes the indexes in any order up to the first with a held column or class row |
| DatabaseCatalogs.DatabaseCatalog.DeleteIndex | src/catalog/database_catalog.cpp:1007-1148 | true exactly when the lock could be had and no column and no class row of the index is held; if no row at all is held exactly the index is gone from all three tables and all their indexes; otherwise the transaction is marked, only rows of the index that were not held are gone, and every catalog index agrees |
| DatabaseCatalogs.DatabaseCatalog.DeleteIndexes | src/catalog/database_catalog.cpp:740-754 | the same for all the indexes on a table, in whatever order |
| DatabaseCatalogs.DatabaseCatalog.DetachTable | src/catalog/database_catalog.cpp:756-792 | the same for the table's columns and class row, its class index entries still pending |
| DatabaseCatalogs.DatabaseCatalog.DeleteTable | src/catalog/database_catalog.cpp:756-847 | true exactly when the lock could be had and no column and no class row of the table is held; if no row of the table or of an index on it is held exactly they are gone; otherwise the transaction is marked and only rows of theirs that were not held are gone; every index of every catalog table agrees |
| DatabaseCatalogs.DatabaseCatalog.GetNamespaceClassOids | src/catalog/database_catalog.cpp:1869-1902 | exactly the objects of the namespace with their kinds |
| DatabaseCatalogs.DatabaseCatalog.DetachNamespace | src/catalog/database_catalog.cpp:409-435 | removes the namespace's row, or fails exactly when it is held |
| DatabaseCatalogs.DatabaseCatalog.DeleteTables | src/catalog/database_catalog.cpp:437-450 | the same for tables in any order, each with the indexes on it, none twice |
| DatabaseCatalogs.DatabaseCatalog.DeleteNamespaceObjects | src/catalog/database_catalog.cpp:437-469 | the cascade takes the tables, the indexes on them and the remaining indexes of the namespace, or is given up with the transaction marked; it reports true exactly when no column and no class row of an object of the namespace is held |
| DatabaseCatalogs.DatabaseCatalog.DeleteNamespace | src/catalog/database_catalog.cpp:403-487 | true exactly when the lock could be had and nothing the cascade tests is held; if no row at all is held exactly the namespace and the objects of the cascade are gone and the catalog is consistent; otherwise the transaction is marked and only rows of theirs that were not held are gone; the indexes of pg_class, pg_index and pg_attribute agree either way, and those of pg_namespace list what they did if it is given up |
| DatabaseCatalogs.DatabaseCatalog.DropTable | src/catalog/database_catalog.cpp:756-847 | a table deleted from a consistent catalog leaves it consistent if no row that goes is held, and every index in agreement in any case |
| DatabaseCatalogs.DatabaseCatalog.DropIndex | src/catalog/database_catalog.cpp:1007-1148 | the same for an index |
| DatabaseCatalogs.DatabaseCatalog.Perform | src/catalog/database_catalog.cpp:732-1148 | every create and drop on a consistent catalog marks its transaction, or makes exactly its change and leaves the catalog consistent exactly unless an index names a table that is not there |
| CatalogChanges.ChangeKept | src/catalog/database_catalog.cpp:403-1148 | each of the five operations keeps unique keys, fresh oids and integrity exactly when a new index is on a table that exists |
| CatalogRuns.OwnerSeesAll | src/storage/data_table.cpp:363-373 | in every state of every run, whoever has the lock sees all that was committed, and its own changes |
| CatalogRuns.DdlIsSerial | src/catalog/database_catalog.cpp:2004-2034 | in every interleaving, a transaction that changed the catalog and can commit has the lock, and its commit makes the catalog the latest committed rows with its own changes: none is lost and none overwritten |
| CatalogRuns.CommittedCatalogsKept | src/catalog/database_catalog.cpp:403-1148 | over every run of any number of transactions that create, drop, fail, commit and abort in any interleaving, every transaction, whenever it started, sees a committed catalog with unique keys, fresh oids and integrity, if indexes are made on tables their maker sees |
| ObjectLife.StepInv | src/catalog/database_catalog.cpp:834-843 | every create, drop, commit, abort and deferred action keeps each object's references in balance |
| ObjectLife.RunInv | src/catalog/database_catalog.cpp:1132-1144 | and so does every run, with deferred actions in any order |
| ObjectLife.NeverFreedTwice | src/catalog/database_catalog.cpp:834-843 | no run frees an object twice, rows point to live objects, and only live indexes are registered with the collector |
| ObjectLife.DrainedHeapIsExact | src/catalog/database_catalog.cpp:1200-1218 | once everything deferred has run, the live objects are exactly those committed rows point to, each once |
| ObjectLife.DeferredActionsEnd | src/catalog/database_catalog.cpp:834-843 | whichever deferred action runs next each time, none is left after exactly as many runs as their nesting counts, and not before |
| ObjectLife.RunAbortFrees | src/catalog/database_catalog.cpp:1855-1856 | an abort frees at once exactly the schemas created, each once |
| ObjectLife.RunAbortDefers | src/catalog/database_catalog.cpp:1210-1216 | and defers exactly the tables and indexes |
| ObjectLife.RunAbortUnregisters | src/catalog/database_catalog.cpp:1210-1216 | and unregisters exactly the new indexes that were registered |
| ObjectLife.RunCommitDefers | src/catalog/database_catalog.cpp:834-843 | a commit defers exactly the objects of what was dropped |
| ObjectLife.RunCommitUnregisters | src/catalog/database_catalog.cpp:1132-1136 | and unregisters exactly the dropped indexes that were registered |
| Scopes.UnqualifiedExact | src/binder/binder_context.cpp:123-166 | a name is not found exactly when no scope has it; else the innermost scope that has it decides, ambiguous exactly when two of its tables have it |
| Scopes.UnqualifiedSole | src/binder/binder_context.cpp:131-160 | the one table with the column is bound, whichever table is tried first |
| Scopes.QualifiedIsInnermost | src/binder/bind_node_visitor.cpp:488-498 | for every reference, found or not, the outcome is that of the innermost scope with the alias, except exactly when that has a derived table, a base table of the alias is further out, and either of the two has the column |
| Scopes.ConsultedIsInnermost | src/binder/bind_node_visitor.cpp:488-498 | the scope consulted for an alias is the innermost one that has it, except exactly when that has it as a derived table and one further out as a base table |
| Scopes.QualifiedIsLookup | src/binder/bind_node_visitor.cpp:488-498 | the outcome, error or not, is that of the scope consulted alone |
| Scopes.OuterTableWins | src/binder/bind_node_visitor.cpp:488-498 | two scopes in which a column is bound to the outer table, and another is not found although the inner table has it |
| Scopes.BoundIsAnchored | src/binder/bind_node_visitor.cpp:469-500 | the depth of a bound column names a scope that has its table with that column, oid and type |
| Binder.BinderContext.constructor | src/include/binder/binder_context.h:47-49 | a new context is empty and one deeper than the one around it |
| Binder.BinderContext.AddRegularTable | src/binder/binder_context.cpp:25-61 | adds the table under its alias, or fails on an unknown name or a taken alias and changes nothing |
| Binder.BinderContext.AddNestedTable | src/binder/binder_context.cpp:78-101 | adds the named columns of a select list, the last of a name winning, or fails on a taken alias |
| Binder.BinderContext.AddNewTable | src/binder/binder_context.cpp:63-76 | adds the columns of a table definition, the last of a name winning, or fails on a taken alias |
| Scopes.AddsKeepUnambiguous | src/binder/binder_context.cpp:25-101 | no table that can be added, of any of the three kinds, makes an alias name two tables |
| Binder.BinderContext.SearchTables | src/binder/binder_context.cpp:131-156 | in one scope, finds the one table with the column, none, or that there are two, in whatever order the maps yield them |
| Binder.BinderContext.SetColumnPosTuple | src/binder/binder_context.cpp:123-166 | binds an unqualified name as the scopes require |
| Binder.BinderContext.GetRegularTableObj | src/binder/binder_context.cpp:168-181 | finds the innermost base table of an alias and its depth |
| Binder.BinderContext.CheckNestedTableColumn | src/binder/binder_context.cpp:183-202 | binds a column of the innermost derived table of an alias; a missing column is an error there, not a reason to look further |
| Binder.BindNodeVisitor.VisitColumn | src/binder/bind_node_visitor.cpp:469-500 | binds a reference: qualified to a base table anywhere first, then to a derived table |
| Binder.BindNodeVisitor.VisitExpr | src/binder/bind_node_visitor.cpp:457-512 | binds an expression and its subqueries as passing scopes down by value would, skipping the operand of a cast and the results of a case as the code does, and leaves the context as it was |
| Binder.BindNodeVisitor.VisitTable | src/binder/bind_node_visitor.cpp:90-124 | binds a table and brings it into the current context, changing no context around it |
| Binder.BindNodeVisitor.VisitTables | src/binder/bind_node_visitor.cpp:114-116 | binds a list of tables one after another, each seeing those before it |
| Binder.BindNodeVisitor.VisitSelect | src/binder/bind_node_visitor.cpp:43-87 | binds a select of any nesting exactly as passing scopes down by value would, leaves the other half of a union alone, and leaves the context as it was |
| BoundStatements.SelectBinds | src/binder/bind_node_visitor.cpp:43-124 | in a statement that binds and has no column where the visitor does not go, every column at every depth of nesting has a depth that names a select around it which declares its table with that column |
| BoundStatements.AnchoredExactlyWhenReached | src/binder/bind_node_visitor.cpp:43-124 | in every statement that binds, all columns are so anchored exactly when none is under a cast, among the results of a case, or in the other half of a union |
| BoundStatements.CastIsNotBound | src/binder/bind_node_visitor.cpp:463-467 | a select without tables that binds, whatever selects are around it, and leaves the column in its cast unbound |
| BoundStatements.TableDeclares | src/binder/bind_node_visitor.cpp:90-124 | a from clause adds to its scope exactly what it declares |
| BoundStatements.TableKeepsUnambiguous | src/binder/binder_context.cpp:53-101 | however a from clause is nested, no alias comes to name two tables of its scope |
| AccessObservers.AccessObserver.ObserveGCInvocation | src/storage/access_observer.cpp:5-15 | one pass in any order queues and forgets exactly the cold blocks |
| AccessObservers.AccessObserver.ObserveWrite | src/storage/access_observer.cpp:17-21 | stamps the block with the present epoch exactly when it is full |
| AccessObservers.QueuedExactlyWhenCold | src/storage/access_observer.cpp:5-21 | in any run a block is queued once for every time the eleventh collection since its last full write comes, and watched exactly until then |
| AccessObservers.QueuedAtMostOncePerWrite | src/storage/access_observer.cpp:5-21 | in any run a block is queued at most once for every full write |
| BracketScan.FindEndOfExpressionInLine | build-support/cpplint.py:1744-1819 | the loop computes the forward scan, with its end, mismatch and carry-over results |
| BracketScan.CloseExpression | build-support/cpplint.py:1822-1863 | the same line by line |
| BracketScan.FindStartOfExpressionInLine | build-support/cpplint.py:1866-1940 | the loop computes the backward scan |
| BracketScan.ReverseCloseExpression | build-support/cpplint.py:1943-1978 | the same line by line |
| BracketScan.ForwardIgnoresAngles | build-support/cpplint.py:1744-1819 | from a bracket, template arguments, shifts, arrows, operator functions and semicolons make no difference: the scan does what a matcher of the three kinds of bracket does |
| BracketScan.BackwardIgnoresAngles | build-support/cpplint.py:1866-1940 | the same backwards |
| BracketScan.ForwardExact | build-support/cpplint.py:1744-1819 | that matcher finds a position exactly when the two brackets enclose a well-nested text |
| BracketScan.BackwardExact | build-support/cpplint.py:1866-1940 | the same backwards |
| BracketScan.LineForward | build-support/cpplint.py:1854-1860 | scanning on with the carried stack is scanning the joined text |
| BracketScan.LineBackward | build-support/cpplint.py:1969-1975 | the same backwards |
| BracketScan.CloseExact | build-support/cpplint.py:1822-1863 | over any lines, the end found is the bracket that encloses a well-nested text with the first, and is found exactly when there is one |
| BracketScan.OpenExact | build-support/cpplint.py:1943-1978 | the same backwards |
| BracketScan.CloseFindsPartner | build-support/cpplint.py:1822-1863 | what is found is just past a closing bracket of the same kind |
| BracketScan.CloseInvertsOpen | build-support/cpplint.py:1822-1978 | forward from one bracket finds the second exactly when backward from the second finds the first |
| NestingStates.NestingState.UpdatePreprocessor | build-support/cpplint.py:2757-2811 | saves and restores the block stack as the directive requires; a stray #else or #endif changes nothing |
| NestingStates.NestingState.Update | build-support/cpplint.py:2814-2836 | the directive acts before the braces of its own line do, whatever these make of the line, its number and the stack |
| NestingStates.NestingState.UpdateAll | build-support/cpplint.py:2814-2836 | a whole file is the run of its lines |
| NestingStates.RunCompiled | build-support/cpplint.py:2757-2811 | for any lines, well nested or not, and whatever braces do, every branch after a first one can be cut out |
| NestingStates.OnlyFirstBranchesCount | build-support/cpplint.py:2768-2774 | a file that ends outside every #else leaves exactly the blocks of its first branches |
| NestingStates.OtherBranchesDoNotMatter | build-support/cpplint.py:2772-2774 | files with the same first branches leave the same blocks |
| NestingStates.BranchStartsAsIf | build-support/cpplint.py:2792-2793 | every later branch is read with the stack from before its #if, whatever the branches before it did |

## Left out

- The version chains of the storage engine: a catalog has the rows visible to the lock holder and the set of rows that others hold. A rollback that finishes during a call, so that a row is held when one part of the call meets it and free when another does, is not modelled.
- DatabaseCatalogs.DatabaseCatalog.TryLock: load and compare-and-swap are one step of the class, so the failure of the compare-and-swap does not occur in it, and the release is not registered there. Both are in DdlLock, whose steps interleave in every way.
- BoundStatements.SelectBinds: does not hold of every statement that binds, because the binder skips casts, case results and unions; AnchoredExactlyWhenReached has both directions.
- BindingIterators.TakeBindings: is about patterns that drain, because over others the code makes no progress; EndsExactlyWhenDrains and TakeLeafOfEmptyGroup are about the rest.
- JoinProperties.PushDownExact: takes a case as one more operation on the values of its parts. With the meaning of a case fixed, one whose results are all alike is right although its conditions read the build side.
- Wrap-around of the 32-bit oid counter, the 64-bit clock and the 64-bit collector epoch.
- What a failed create leaves behind: the transaction must abort, which takes its rows back.
- Namespaces are only dropped, not created; renaming, schema updates, constraints, procedures, languages, types and bootstrap are not modelled.
- Projected rows, variable-length values, JSON and the write-ahead log records of catalog changes.
- Threads inside one transaction, and when the deferred-action manager gets to run: its actions run in any order, at any time.
- The star in a select list, whose expansion order follows a hash map, and the type and name inference of expressions, which are fixed per expression here.
- Binding of insert, update, delete, create and drop statements.
- What the binder's context holds after an error: the exception ends the statement.
- How property sets are hashed and compared as keys: LowestCosts takes equal keys as given, and sort properties that differ only in direction as different.
- Costs that are not numbers, and SetLocalHashTable of a group expression.
- The other operators of the child property deriver, and outer joins, which derive nothing.
- The transition table of a connection, network buffers and the traffic cop: finite tables and plumbing.
- Everything in the linter that is a style check, and what Update does to the block stack with the braces of a line: any function of the line, its number and the stack stands for it.
- BracketScan.CloseExpression: a start at an angle bracket follows the code, but nothing is claimed about what it finds, since the code only guesses there.
