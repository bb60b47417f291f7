# miniRDB in Dafny

A model of the storage engine, executor and expression parser of miniRDB (a small SQL
database in C) with machine-checked proofs. `dafny verify dfyconfig.toml` checks all of it.

| file | what it models |
|---|---|
| `Pages.dfy` | what a page holds, seen from above the byte level |
| `SlottedPage.dfy`, `CellBytes.dfy` | the bytes of a node page, in place in an array, and their relation to the cells of the tree model |
| `Journal.dfy` | cache, database file and rollback journal as a step machine with crashes |
| `Pager.dfy` | the pager and transaction objects; every method logs the steps it takes in that machine |
| `Trees.dfy`, `Splits.dfy`, `Inserts.dfy`, `Deletes.dfy`, `Leaves.dfy` | the mathematics of the B+tree: shape, order, splits and what they lose, leaf chain |
| `BTree.dfy`, `Cursor.dfy` | the B+tree and its cursors over the pager's pages |
| `Forest.dfy` | all trees of a database over one pager: every page is the header, free, or in exactly one tree, in memory and after every crash |
| `Values.dfy`, `IndexKeys.dfy`, `Records.dfy` | values and their order, index keys, row payloads |
| `Expressions.dfy`, `Meaning.dfy` | evaluation of expressions, and what its results mean |
| `Queries.dfy`, `Joins.dfy` | nested-loop joins: which combinations, how often, in which order, and when they fail |
| `Probes.dfy`, `ProbeExact.dfy`, `ProbeOrder.dfy` | index probes, and exactly when they give what a scan gives |
| `Tables.dfy`, `Holdings.dfy`, `Statements.dfy` | INSERT, UPDATE, DELETE and CREATE INDEX on the trees of a table and its indexes; what the cells of these trees mean |
| `Agreement.dfy` | what these statements maintain is what the probes need |
| `Groups.dfy`, `Ordering.dfy` | streaming GROUP BY and the order of ORDER BY |
| `CatalogEntries.dfy`, `Catalog.dfy` | stored definitions, the catalog arrays and the catalog tree, reopening |
| `Database.dfy` | the catalog and all tables over one set of trees: every writing statement inside its transaction |
| `Losses.dfy` | runs that lose a row, a table definition or a table's tree |
| `Parser.dfy`, `Precedence.dfy` | the expression grammar on tokens, a printer, the parser object; what the grammar reads as what |

The layers meet through their contracts. `Pager` runs are runs of `Journal`; a `BTree` is laid
over the pages of a `Pager` and refines a sorted sequence of rows; a `Forest` holds all trees of
one pager; a `Statements.Table` and a `Catalogs.Catalog` are laid over a `Forest`: a table tree
holds the records of a map from rowid to row (`Holdings.HoldsRows`), an index tree a set of keys
(`Holdings.HoldsKeys`), and `IndexKeys.Rank` puts key bytes in the order of tree keys, so that
inserting, deleting, seeking and scanning in the tree is inserting, deleting, seeking and scanning
in a list of keys in byte order; `Agreement.TableServesProbes` takes the trees of any table to the
lists the queries read; a `Databases.Database` holds a catalog and the tables it describes over
one forest and begins and ends a transaction around each statement; `CellBytes` relates tree cells
to page bytes.

## What the proofs found

The model follows the code where its own documentation or intent differs.

- `do_split` splits by cell count and ignores refused cells. An insertion into a table keeps
  every row exactly if the halves of the leaf it comes to fit (`BTrees.BTree.TableInsert`: the row
  is in its place if and only if `SplitFits`); otherwise it reports success all the same.
  `Losses.LargeRowIsLost` is a run: three rows of one byte and one of 4066, four successes, three
  rows. `Losses.FifthTableIsLost` is the same in the catalog: five plain CREATE TABLE statements,
  five successes, four stored definitions. Index trees and separators always fit; a set of rows is
  safe in every order if and only if it is `Splittable` (`Splits.SplittableFits` and
  `Splits.UnsplittableLoses`), which rows of similar size are, and every row of a table without
  TEXT columns (`Statements.NoTextIsRoomy`).
- The journal protects a page in a transaction if and only if no frame holds it dirty when the
  transaction begins (`Journal.BeginProtectsPageIffClean`). `catalog_open` opens a cursor on the
  catalog and, for the next rowids, on every table, and so makes each of their roots that is still
  all zeros a leaf, outside any transaction, on every start. So the first transaction of a session
  protects a page if and only if it is no such root (`Journal.OpeningProtectsIff`); it is wholly
  protected if and only if the file is not new and has no table that nothing has touched since its
  CREATE TABLE, unless the cache overflows while the catalog is opened (`Journal.FirstTransactionProtectedIff`, `Catalogs.OpenedProtectsIff`,
  `Journal.FirstTransactionEscapes` for an input of each kind). A crash in it spares every other
  tree (`Forests.FirstTransactionSparesTrees`), and from the first commit or the end of the first
  rollback of the session on everything is protected (`Journal.SoundAfterCommit`).
- ROLLBACK does not reload the catalog arrays: after BEGIN, CREATE TABLE, ROLLBACK the array has a
  table whose root page belongs to no tree (`Losses.RolledBackTableStays`).
- `src/record.h:14-17` promises that key bytes reproduce value order, then rowid order.
  `IndexKeys.KeysOrderedAsPromised` says for which pairs they do: negative rowids, -0.0 against
  0.0, NaN and texts that start with each other break it (`TextKeysOutOfOrder` for a pair).
- On one table, and at a last joined table, an index probe gives what the scan gives if and only if
  its value is NULL or every value of the column that compares equal to it is it; and where the
  value fails to evaluate, if and only if the table has a row (`ExactProbes.ProbeIsScanIff`,
  `ExactProbes.JoinedProbeIsScanIff`). An INT probe of a REAL column
  finds nothing (`Probes.IntProbeMissesRealRow`). Two rows with the probe value come in rowid order
  if and only if both rowids or none is negative (`ProbeOrder.VisitedInOrderIff`).
- An UPDATE whose new row is too large for a page, or moves a primary key onto one in use, has
  already deleted the row; inside an explicit transaction the row stays lost, though the indexes
  agree with what is left (`Statements.Table.ExecUpdate`, `UpdateFailed`).
- AND and OR evaluate both sides: neither hides the failure of an operand
  (`Meanings.FailureMeans`). A NaN compares equal to every number (`Values.Same`).
- An UPDATE evaluates every assignment, and of two for one column the later counts
  (`Tables.NewRowMeans`); an INSERT whose column list names a column twice does not evaluate the
  earlier expression at all (`Tables.InsertRowMeans`).
- Comparisons do not associate, so `a < b < c` ends before the second one
  (`Precedence.TwoOperators`), and NOT stands only where AND or OR could
  (`Precedence.InfixThenPrefix`).
- A statement of its own that fails leaves every table with the rows and keys it had, but not the
  next rowid: rowids a failed INSERT has used are not used again before the file is reopened
  (`Databases.Database.Insert`).

## Model

| member | source | states |
|---|---|---|
| Journal.ReplayAt | src/txn.c:18-29 | after a replay each journalled page holds its pre-image and every other page what the file had |
| Journal.RecoveryIsRestartable | src/txn.c:18-40 | replaying a prefix of the journal, losing power, and replaying it all leaves the same file as one replay |
| Journal.StepIsAtomic | src/txn.c:62-106 | every step of the machine keeps: journal overlaid on the file is the image at the last commit; commit alone moves it |
| Journal.StepLogical | src/pager.c:118-207 | load, touch, evict, flush and journal steps leave the pages the layers above see as they were; a write changes one |
| Journal.RunsAreAtomic | src/txn.c:18-106 | over every run, cut anywhere, recovery shows exactly the pages of the last commit before the cut |
| Journal.RecoveryCompletes | src/txn.c:31-40 | from every sound state with a journal, in a transaction or after a crash, the replay runs to its end and then the cache shows the durable pages |
| Journal.CrashShowsLastCommit | src/txn.c:31-40 | crash at any state of any run, recover: the pages are those last committed |
| Journal.BeginProtectsIffClean | src/txn.c:76-84 | whatever follows a begin short of its commit is taken back by a crash, exactly if no frame was dirty at the begin |
| Journal.BeginProtectsPageIffClean | src/txn.c:57-84 | page by page: what follows does to a page is taken back by a crash, exactly if no frame held that page dirty at the begin, whatever became of the others |
| Journal.DirtyFrameEscapes | src/pager.c:179-194 | any frame dirty at begin can reach the file with no journal entry to take it back |
| Journal.OpeningProtectsIff | src/catalog.c:92-125 | after catalog_open, in any order and with any evictions, the first begin protects a page exactly if it is no catalog or table root still all zeros in the file |
| Journal.FirstTransactionProtectedIff | src/catalog.c:76-125 | in terms of the file opened: the first transaction is protected exactly if no such root is all zeros there, unless the cache overflowed while the catalog was opened |
| Journal.OpeningEnsures | src/btree.c:208-216 | opening changes no page but these roots, which are empty leaves afterwards |
| Journal.FirstTransactionEscapes | src/btree.c:208-216 | a new file, and a file with one committed and untouched table, are sound and yet their first transaction is not protected |
| Journal.SoundAfterCommit | src/txn.c:86-106 | whatever a run wrote without a transaction before, after a commit or a finished rollback every state is sound while the discipline is kept |
| Journal.KeptWith | src/txn.c:62-106 | along a run page 1 stays a header wherever it is stored, and only a commit adds an image that a crash can show |
| Journal.FreshlyOpened | src/pager.c:72-111 | a freshly opened file is a sound start |
| Journal.Advance | src/txn.c:62-106 | any step extends a reached run; only commit moves the durable pages, only a write the logical ones |
| Pager.Txn.WriteHook | src/txn.c:57-74 | a page is journaled once, with its pre-image, and only while a transaction is active |
| Pager.Pager.FindVictim | src/pager.c:133-155 | the first unused frame, else the least recently used unpinned one, or none if all are pinned |
| Pager.Pager.EvictFrame | src/pager.c:133-155 | eviction writes a dirty page back and changes nothing the layers above see |
| Pager.Pager.LoadPage | src/pager.c:157-169 | the page is in exactly one frame afterwards with its logical content, unless every frame is pinned |
| Pager.Pager.GetPage | src/pager.c:171-177 | pins the page's frame and makes it the most recently used; no other frame and no page changes |
| Pager.Pager.GetPageForWrite | src/pager.c:179-194 | the pre-image is journaled before the frame becomes dirty |
| Pager.Pager.Read | src/pager.c:171-177 | returns the logical content of the page and changes no page |
| Pager.Pager.Write | src/pager.c:179-194 | changes exactly one logical page; what a crash would show is unchanged |
| Pager.Pager.Allocate | src/pager.c:209-225 | a zeroed page that nobody owned, conserving header, free list and owned pages as a partition of all pages |
| Pager.Pager.Free | src/pager.c:227-234 | the page leaves its owner for the head of the acyclic free list, pages still conserved |
| Pager.AllocateConserves | src/pager.c:209-225 | every page number stays header, free or owned, exactly one of the three, through an allocation |
| Pager.FreeConserves | src/pager.c:227-234 | and through a free |
| Pager.Pager.FlushAll | src/pager.c:236-242 | afterwards no frame is dirty; logical and durable pages unchanged |
| Pager.Pager.Begin | src/txn.c:76-84 | refused while one is active; otherwise the durable pages are the logical ones and are kept for rollback |
| Pager.Pager.Commit | src/txn.c:86-94 | afterwards a crash shows exactly the pages written |
| Pager.Pager.Rollback | src/txn.c:96-106 | pages, header fields, free list and ownership return to those at begin |
| Pager.Pager.Recover | src/txn.c:31-40 | after a crash the cache shows the pages of the last commit and page conservation holds |
| Pager.Pager.CrashLeavesGoodFile | src/txn.c:18-106 | cut after any step, the file and the journal can be opened and recovered and show an image of some commit, in which the pages are conserved |
| Pager.OpenAndRecover | src/main.c:164-166 | opening such a file and recovering gives a valid pager that shows that image; a file without the header is refused |
| Pager.Pager.AtLastCommit | src/txn.c:76-106 | between operations the durable pages are conserved, with the owners of the last begin or the present ones |
| Pager.Pager.AutoBegin | src/txn.c:131-134 | every statement runs inside a transaction, its own or the explicit one |
| Pager.Pager.AutoEnd | src/txn.c:136-140 | outside an explicit transaction success is durable and failure leaves no trace; inside one nothing happens |
| Pager.Pager.TxnCommit | src/txn.c:115-120 | commits an explicit transaction only |
| Pager.Pager.TxnRollback | src/txn.c:122-127 | rolls back an explicit transaction only |
| Pager.Pager.CrashAnywhere | src/txn.c:18-106 | the steps this object has taken form a run of the machine, and a crash after any of them shows the last commit before it |
| SlottedPages.InsertCellRaw | src/btree.c:166-177 | accepts exactly when the cell and its pointer fit, and then the page holds the old cells with the new one at its place, disjoint and without holes |
| SlottedPages.DeleteCell | src/btree.c:179-184 | the page holds exactly the other cells, in order, packed again |
| SlottedPages.CompactPage | src/btree.c:149-164 | whatever holes there were, the cells the pointers lead to end up packed against the page end in pointer order, header bytes untouched |
| SlottedPages.LenOfCell | src/btree.c:72-92 | the length read from a cell's bytes is the length of the cell |
| SlottedPages.InsertedHolds | src/btree.c:166-177 | layout invariants (disjoint cells, content start = page end minus total length) after an insertion |
| CellBytes.InsertCell | src/btree.c:143-177 | the byte-level free-space test is the tree model's, and the insertion is the tree model's |
| CellBytes.RemoveCell | src/btree.c:179-184 | deletion of bytes is removal in the tree model's sequence of cells |
| CellBytes.EncodedUsed | src/btree.c:143-147 | the space the tree model charges is the bytes plus pointers a page uses |
| CellBytes.KeyCompareIsRankOrder | src/btree.c:129-141 | comparing key bytes is comparing the ranks the tree model orders by |
| CellBytes.FindIndex | src/btree.c:188-198 | the search over bytes finds the position the tree model's bound asks for |
| Splits.FillKeepsAllIffFits | src/btree.c:245-298 | filling a half keeps all cells exactly if together they fit |
| Splits.SettledKeepsAllIffFits | src/btree.c:245-298 | the leaf and its new sibling together hold all cells exactly if each half fits |
| Splits.NarrowCellsSplit | src/btree.c:245-298 | overfull pages of table separators or keys of 9 to 96 bytes always split into halves that fit |
| Splits.EvenSplitFits | src/btree.c:245-298 | so do any cells whose costs lie in [m, M] with floor(n/2)*m >= M |
| Splits.IndexSplitFits | src/btree.c:515-529 | in a good index tree no insertion can lose a cell |
| Splits.SimilarRowsSplit | src/btree.c:430-445 | rows of similar size never overfill a page in a way that cannot be split |
| Splits.SplittableFits | src/btree.c:430-445 | among rows every overfull page of which splits into halves that fit, no insertion of a new one loses a row |
| Splits.UnsplittableLoses | src/btree.c:430-445 | among any others some leaf and some row lose one |
| Inserts.PutInsertsIffFits | src/btree.c:245-298 | what an insertion leaves is the old rows and the new one in order exactly if its leaf fits or its halves do |
| Inserts.LeafSplitGrown | src/btree.c:250-272 | both halves of a split leaf are good trees around the promoted key, chained, and hold the old rows and the new one |
| Inserts.ForkSplitGrown | src/btree.c:273-297 | the same for a split interior page |
| Inserts.KidGrownPrepares | src/btree.c:362-382 | replacing one child by what it grew into keeps order, bounds, depth and page disjointness of all children |
| Deletes.TreeLoses | src/btree.c:482-513 | removing a key from its leaf keeps the tree good and removes exactly that key, even if the leaf becomes empty |
| Deletes.RootGrows | src/btree.c:407-426 | with the old root copied to a new page and one separator in the root, the tree is good, one level higher, same root page |
| Leaves.LeavesChained | src/btree.c:605-621 | following next links from the first leaf visits the leaves in order and ends |
| Leaves.StepDown | src/btree.c:447-480 | each step of a descent keeps: the key, if anywhere, is under the current page |
| BTrees.BTree.FindIndex | src/btree.c:188-198 | the first cell not below (or above) the key |
| BTrees.BTree.FillPage | src/btree.c:253-288 | the page is the node intended exactly if the cells fit |
| BTrees.BTree.DoSplit | src/btree.c:245-298 | right page fresh, halves and links as stated, every other page untouched |
| BTrees.BTree.SplitLeaf | src/btree.c:250-272 | the split of a leaf, lossless or not; leaf and sibling are the two halves of all cells exactly if the halves fit |
| BTrees.BTree.InsertRecursive | src/btree.c:302-405 | for any row and any cascade of splits: good tree, or two with a promoted key, holding the old rows and the new one as far as the leaf's split keeps them; a duplicate rowid changes nothing; pages of others untouched |
| BTrees.BTree.GrowRoot | src/btree.c:407-426 | the root keeps its page number and the tree its rows |
| BTrees.BTree.EnsureRoot | src/btree.c:208-216 | a zeroed root becomes an empty leaf, any other stays |
| BTrees.BTree.TableInsert | src/btree.c:430-445 | succeeds exactly for a row that fits a page with a new rowid; then the rows are the old ones with it in order if and only if the split of its leaf fits, and else are those the split keeps |
| BTrees.BTree.IndexInsert | src/btree.c:515-529 | always succeeds for a new key, adds exactly it and loses none |
| BTrees.BTree.TableSearch | src/btree.c:447-480 | finds a payload exactly if the rowid is there, and it is that row's |
| BTrees.BTree.Delete | src/btree.c:482-560 | succeeds exactly if the key is there, removes exactly it, frees no page |
| BTrees.BTree.Destroy | src/btree.c:564-589 | each page of the tree goes to the free list exactly once and no other page changes |
| Cursors.Cursor.First | src/btree.c:605-637 | at the first row, past any empty leaves, or at the end if there is none |
| Cursors.Cursor.Seek | src/btree.c:639-663 | at the least key not below the given one, wherever empty leaves lie |
| Cursors.Cursor.Next | src/btree.c:665-676 | exactly one row further |
| Cursors.Cursor.Current | src/btree.c:687-718 | the row at the cursor's place |
| Cursors.Cursor.Scan | src/btree.c:605-676 | first and next until the end give every row exactly once, ascending, and terminate |
| Forests.Forest.Create | src/pager.c:85-94 | a new database: header, and page 2 in the tree of the catalog |
| Forests.Forest.NewTree | src/catalog.c:159 | a tree on a page that was in none; all others as they were |
| Forests.Forest.InsertRow | src/btree.c:430-445 | afterwards every page is still the header, free or in exactly one tree, and only this tree has changed, as TableInsert says |
| Forests.Forest.InsertKey | src/btree.c:515-529 | the same for an index tree |
| Forests.Forest.Delete | src/btree.c:482-560 | the same for a deletion, which keeps the pages of the tree |
| Forests.Forest.Search | src/btree.c:447-480 | finds the payload exactly if the rowid is there; no tree changes |
| Forests.Forest.Scan | src/btree.c:605-676 | gives the rows of the tree in order; no tree changes |
| Forests.Forest.Destroy | src/btree.c:564-589 | the tree is gone, its pages and no others are free, the other trees as they were |
| Forests.Forest.Commit | src/txn.c:86-94 | afterwards a crash shows the present trees |
| Forests.Forest.Rollback | src/txn.c:96-106 | the trees of the begin are back, every page again in exactly one of them, free, or the header |
| Forests.Forest.CrashLeavesTrees | src/txn.c:18-106 | cut after any journal step of any run of these operations, the file and the journal show the pages of the last commit, and there every page is the header, free or in exactly one tree |
| Forests.Forest.CrashNow | src/txn.c:31-40 | between operations a crash shows the trees of the last begin, or the present ones outside a transaction |
| Forests.Forest.Reopen | src/main.c:164-166 | what was planted in the image that the file and the journal show is there again |
| Forests.OpeningKeepsTrees | src/catalog.c:92-125 | catalog_open leaves every tree as it was, a root that was all zeros being an empty leaf |
| Forests.FirstTransactionSparesTrees | src/txn.c:57-74 | wherever the first transaction after it is cut, a crash shows every tree as it was opened, but for those whose root was all zeros in the file |
| Forests.Replanted | src/btree.c:302-405 | a changed tree among unchanged others keeps each page in exactly one tree |
| Values.MagnitudeGrows | src/record.c:84-93 | the bits of non-negative doubles are in the order of the numbers they stand for |
| Values.ByteCompareTransitive | src/types.c:62-69 | text and key order is transitive |
| Values.CompareMeans | src/types.c:57-81 | value_compare of two values of one type is the order of integers, of the numbers doubles stand for, or of the first differing byte and then the length; NULL is below all, a NaN equal to every number |
| IndexKeys.IndexKeyEncode | src/record.c:115-136 | fills the buffer with exactly the key of value and rowid |
| IndexKeys.IndexKeyDecode | src/record.c:138-162 | decodes the key of any value of any type and any rowid back to both |
| IndexKeys.EncodeInjective | src/record.c:115-136 | different (value, rowid) pairs have different keys |
| IndexKeys.TotalOrderIsNumeric | src/record.c:84-93 | totalOrder (section 5.10 of IEEE 754-2008) is numeric order on numbers except between the two zeros |
| IndexKeys.KeysInOrder | src/record.c:115-136 | keys of one type other than TEXT compare as the values do (for REAL by totalOrder), then by unsigned rowid |
| IndexKeys.KeysOrderedAsPromised | src/record.h:14-17 | for any two comparable values and rowids: the key bytes are in the promised order exactly if the pair is Orderly |
| IndexKeys.TextKeysOrderedAsPromised | src/record.h:14-17 | for TEXT, equal or not: exactly if equal texts have both rowids negative or none, and of a text and a longer one the shorter one's rowid is small enough |
| IndexKeys.TextAndZeroAppended | src/record.h:14-17 | a text against itself with a zero byte: in order exactly if one rowid is at most a 256th of the other |
| IndexKeys.TextKeysOutOfOrder | src/record.h:14-17 | a pair of TEXT keys with small rowids in the wrong order |
| IndexKeys.PrefixMatches | src/executor.c:945-955 | the keys a probe accepts are those of the probe value, for TEXT also of longer texts |
| IndexKeys.SeekKeyIsLeast | src/executor.c:945-951 | no key of the probe value is below the rowid-0 seek key |
| IndexKeys.PrefixIsContiguous | src/executor.c:951-955 | keys with a common prefix stand next to each other |
| IndexKeys.RankOrder | src/btree.c:129-141 | memcmp-then-length order is the order of ranks |
| IndexKeys.RankInjective | src/btree.c:129-141 | different keys have different ranks |
| Records.EncodedSize | src/record.c:15-27 | the size computed is the length of what is serialized |
| Records.Serialize | src/record.c:29-52 | writes the row's record, guided by column types alone |
| Records.Deserialize | src/record.c:54-82 | gives back exactly the row that was serialized |
| Expressions.ResolvedEarly | src/executor.c:63-91 | a column the planner resolves among the first tables keeps its value when more are bound, unless it becomes ambiguous |
| Expressions.EvaluatedEarly | src/executor.c:261-271 | so does every expression the planner accepts, correlated subqueries apart |
| Expressions.MatchedColumn | src/executor.c:273-284 | a column the planner matches to a table evaluates to that table's column, if it evaluates |
| Expressions.KeptRowMatchesProbe | src/executor.c:286-308 | where a condition with a probe keeps a row, the indexed column compares equal to the probe value, neither NULL |
| Meanings.ConditionsMean | src/executor.c:231-238 | a row is kept exactly if the condition is absent or true: not zero, not NULL, not empty |
| Meanings.ComparisonsMean | src/executor.c:123-137 | the six comparisons of two values of one type by their order |
| Meanings.NullMeans | src/executor.c:93-137 | comparison and arithmetic with NULL are NULL and keep no row |
| Meanings.FailureMeans | src/executor.c:140-197 | an operator fails if an operand does, AND and OR included |
| Meanings.ConnectivesMean | src/executor.c:151-187 | the three-valued tables of AND, OR and NOT |
| Meanings.IntArithmeticMeans | src/executor.c:109-119 | INT arithmetic is exact where the result fits, division truncates and fails by zero |
| Meanings.DivisionByZeroFails | src/executor.c:97-118 | dividing a number by a zero of any type fails |
| Meanings.NegationMeans | src/executor.c:151-163 | unary minus of a REAL is exact |
| Meanings.TextArithmeticFails | src/executor.c:93-96 | arithmetic with TEXT fails, unless the other operand is NULL |
| Meanings.ColumnMeans | src/executor.c:63-91 | a column has its value in the innermost context that has such a column, or table if qualified; two columns of an unqualified name are an error, of a qualified one the first counts |
| Meanings.ProbeFoundIff | src/executor.c:286-308 | the planner takes the first conjunct that equates an indexed column of the table with an expression over earlier tables, and finds none only if there is none |
| Queries.Select.ExecFromLevel | src/executor.c:912-993 | the loops accept the combinations the specification of nested loops gives, in order, or fail exactly when it does |
| Queries.Select.ScanLoop | src/executor.c:973-986 | the same for a scanned level |
| Queries.Select.ProbeLoop | src/executor.c:945-971 | the same for a probed level |
| Joins.ScanSelects | src/executor.c:912-993 | a scan without errors accepts exactly the combinations of rows, one per table, that meet every ON condition and WHERE |
| Joins.ScanCounts | src/executor.c:912-993 | and each of them as often as the tables hold its rows |
| Joins.ScanInOrder | src/executor.c:912-993 | in the order of the rows, those of the first table first |
| Joins.ScanFailsIff | src/executor.c:912-993 | a scan fails exactly if on some rows that meet the ON conditions so far the next ON condition or WHERE fails |
| Joins.PlanMeans | src/executor.c:538-559 | the index of each table is chosen by WHERE for the first and by ON for the others, from the tables before |
| Joins.PlanSelects | src/executor.c:912-993 | so does the plan with index probes, each combination as often |
| Probes.RunIsComplete | src/executor.c:945-955 | every key with the probe's prefix is visited |
| Probes.ProbeVisits | src/executor.c:945-970 | a probe visits rows of the table, none twice, among them every row with the probe value |
| Probes.RowWithoutValueIsRejected | src/executor.c:286-308 | a row without the probe value is rejected by the ON condition of its level or, at the first level, by WHERE with any rows of the other tables |
| Probes.SkippedRowIsRejected | src/executor.c:945-970 | a row the probe skips contributes nothing to the scan |
| Probes.PlanFromHere | src/executor.c:912-993 | from any bound tables on, plan and scan accept the same multiset |
| Probes.ProbesAcceptWhatScansAccept | src/executor.c:912-993 | for any number of joined tables the index plan fails nowhere the scan does not, and accepts the same multiset of combinations |
| ExactProbes.ProbeFindsAllIff | src/executor.c:945-970 | the probe finds every row the comparison keeps exactly if each such row's column is the probe value itself |
| ExactProbes.ProbeIsScanIff | src/executor.c:912-993 | on one table plan and scan have the same outcome exactly if: the value fails and there is a row, or it is NULL, or no value of the column only compares equal to it |
| ExactProbes.JoinedProbeIsScanIff | src/executor.c:912-993 | the same at the last of any number of joined tables, with the rows of the others bound |
| ExactProbes.FailingProbeOfJoin | src/executor.c:938-942 | at a joined table a failing probe value fails the plan, and the scan unless the table is empty |
| Probes.MatchingProbesAcceptWhatScansAccept | src/executor.c:912-993 | so where every probe value has the type of its column, NaN and zeros of the other sign apart |
| ProbeOrder.ProbesKeepTheOrder | src/executor.c:912-993 | with rowids of one sign in each table the accepted list is the same, order included, so LIMIT without ORDER BY agrees too |
| ProbeOrder.VisitedInOrderIff | src/executor.c:945-970 | two visited rows with the probe value come in rowid order exactly if both rowids or none is negative |
| ProbeOrder.VisitsRise | src/executor.c:945-970 | of the rows a probe visits, for TEXT too many, those that contribute come in rowid order |
| Probes.ProbeFailsOnEmptyTable | src/executor.c:938-942 | why the probe value must evaluate |
| Probes.IntProbeMissesRealRow | src/record.c:115-136 | an INT probe of a REAL column accepts nothing where the scan keeps the row |
| Holdings.HoldsInserted | src/btree.c:430-445 | a cell inserted in order into a tree that holds rows gives a tree that holds one row more |
| Holdings.HoldsRemoved | src/btree.c:482-513 | and removed, one row less |
| Holdings.HoldsCount | src/btree.c:605-676 | a table tree has as many cells as the table has rows |
| Holdings.HoldsKeyInserted | src/btree.c:515-529 | an index tree that holds a set of keys holds one more after the insertion |
| Holdings.HoldsKeyRemoved | src/btree.c:531-560 | and one less after the deletion |
| Holdings.KeysRead | src/btree.c:605-676 | an index tree that holds a set of keys reads as these keys, each once, in byte order |
| Holdings.SeekAgrees | src/btree.c:639-663 | a seek in the tree finds the first key not below the given one in byte order |
| Holdings.InsertReads | src/btree.c:515-529 | the insertion into the tree is the insertion into the list of keys in byte order |
| Holdings.RemoveReads | src/btree.c:531-560 | the deletion from the tree is the deletion from that list |
| Statements.Table.InsertRowIndexes | src/executor.c:403-412 | each index gains exactly the row's key, which it did not have |
| Statements.Table.DeleteRowIndexes | src/executor.c:414-423 | each index loses exactly the row's key |
| Statements.Table.PutRow | src/executor.c:462-480 | succeeds exactly for a row that fits a page with a new rowid; the indexes gain its keys; table and indexes agree afterwards exactly if the split of its leaf fits |
| Statements.Table.TakeRow | src/executor.c:1192-1197 | table and indexes lose exactly the row |
| Statements.Table.Fetch | src/executor.c:956-966 | the row of a rowid, read back from the tree |
| Statements.NoTextIsRoomy | src/btree.c:245-298 | a table of at most 32 columns, none of them TEXT, never loses a row to a split |
| Statements.Table.ColumnOfRow | src/executor.c:1168-1174 | in WHERE and SET of UPDATE and DELETE a column name, alone or with the name of the table, is the value of the row |
| Tables.KeyIsRowid | src/executor.c:465 | the primary key of any row that can be stored is an integer, and is the rowid the row gets |
| Tables.KeysWith | src/executor.c:403-412 | a new row adds exactly one new key to an index's key set |
| Tables.KeysWithout | src/executor.c:414-423 | removing a row removes exactly its key |
| Tables.CoerceMeans | src/executor.c:390-401 | a column accepts NULL unless NOT NULL, values of its type, and an INT if it is REAL, of which the cast is stored |
| Tables.NewRowMeans | src/executor.c:1180-1186 | each column of the new row holds the value that the last assignment to it has on the old row, or what it held; it fails exactly if some assignment has no value its column accepts |
| Tables.InsertRowMeans | src/executor.c:429-463 | each column holds the value at its own place, with a column list that at the last place naming it, NULL if none does; it fails exactly if one of these has no value its column accepts |
| Statements.Table.CollectMatching | src/executor.c:1115-1147 | the rowids of exactly the rows WHERE keeps, ascending; fails exactly if some row's condition fails |
| Statements.Table.CreateIndex | src/executor.c:346-380 | fails exactly for an unknown column or if the catalog grants no tree; otherwise the new index tree has exactly the keys of the rows and the others are untouched |
| Statements.Table.ExecInsert | src/executor.c:425-484 | rows are added one by one, each column with the value given for it, until one is refused: a value fails or is not accepted, the row is too large, or its key is in use; indexes agree, failing or not; without a primary key no rowid ever collides; the next rowid is the least above the old one and all inserted |
| Statements.Table.InsertedMeans | src/executor.c:441-480 | the rows that came hold what their expressions give, under their primary keys or the next rowids, and no other row changes |
| Statements.Table.RefusedMeans | src/executor.c:447-475 | why a row is refused, in terms of its expressions |
| Statements.Table.ListedMeans | src/executor.c:430-436 | a column list is accepted exactly if each name in it is a column |
| Statements.Table.ExecUpdate | src/executor.c:1149-1222 | each matched row holds what SET says, computed from its old values, and every other row what it held; indexes agree and primary key = rowid, failing or not; what a failure leaves is stated exactly, with the row lost when its new version is too large or its key in use |
| Statements.Table.OutcomeMeans | src/executor.c:1163-1219 | success and failure in terms of the values before and after: a column that SET names has the last value assigned, the others are as before |
| Statements.Table.UpdateIsSimultaneous | src/executor.c:1149-1222 | without subqueries a successful UPDATE sets all matched rows from the rows before, even when primary keys move, and conserves the number of rows |
| Statements.Table.ExecDelete | src/executor.c:1224-1246 | removes exactly the rows WHERE keeps, the others as before; indexes agree |
| Agreement.MaintainedIndexAgrees | src/executor.c:403-423 | an index with exactly the keys of the rows satisfies the agreement the probe theorems assume |
| Agreement.TableServesProbes | src/executor.c:912-993 | so a table after any of these statements, with its rows and keys read from its trees, meets those hypotheses |
| Agreement.CursorSeeks | src/btree.c:639-663 | the seek of a probe is the seek of a cursor in the index tree |
| Tables.RewritingConserves | src/executor.c:1149-1222 | rewriting rows under new rowids keeps their number |
| Tables.NewRowWithoutSubqueries | src/executor.c:1176-1186 | without subqueries the new row depends on the old row alone |
| Groups.StreamPartitions | src/executor.c:722-769 | streaming equals partition-then-fold: keys pairwise different, every row in its class, each aggregate folded over exactly its class |
| Groups.CountsAddUp | src/executor.c:722-769 | for any keys at all, the groups' COUNT(*) add up to the rows accepted |
| Groups.CountCounts | src/executor.c:650-658 | COUNT(arg) is the number of values that are not NULL |
| Groups.MinIsLeast | src/executor.c:667-670 | MIN is a value of the group that no other is below |
| Groups.MaxIsGreatest | src/executor.c:671-674 | MAX likewise |
| Groups.SumAdds | src/executor.c:663-666 | SUM and AVG add each value that is not NULL once, in order, to zero; AVG counts them |
| Groups.AggregateMeans | src/executor.c:681-693 | the result of each aggregate over the values of its rows, NULL where none is left |
| Groups.GroupResults | src/executor.c:650-769 | so for each aggregate of each group of a partition |
| Groups.GroupsInOrder | src/executor.c:733-757 | for any keys at all, the groups come in the order of the rows that founded them, each of which matched none before |
| Groups.ItemsMean | src/executor.c:724-767 | keys and arguments are the values of the GROUP BY expressions and of the arguments on each row |
| Groups.SameKeyTransitive | src/executor.c:733-739 | key matching is transitive on keys of one type, NaN apart |
| Groups.Grouping.GroupRow | src/executor.c:722-769 | puts the row into the first matching group or a new one, fails exactly if an expression does |
| Groups.GroupQuery | src/executor.c:912-936 | the groups of a query with regular keys are the classes of the combinations it accepts, each aggregate folded over its class |
| Ordering.OrderByCompare | src/executor.c:995-1002 | negative exactly if a comes first: by the first key that differs, less if ascending and greater if descending, or if none differs by place |
| Ordering.OrderIsTotal | src/executor.c:995-1002 | a strict total order on rows found at different places |
| Ordering.SortedIsUnique | src/executor.c:995-1002 | two sorted lists of the same rows are the same list, so the result does not depend on how qsort works |
| Ordering.SortedMeans | src/executor.c:995-1002 | a result is sorted exactly if each row comes first, in that sense, before all later ones |
| Ordering.SortedByOne | src/executor.c:995-1002 | by one ascending key the keys never fall, by a descending one they never rise, and equal keys keep the order found |
| Ordering.CompareFromTransitive | src/executor.c:995-1002 | transitivity through mixed ascending and descending keys |
| CatalogEntries.DeserializeTable | src/catalog.c:22-54 | gives back the table that was stored, but for the next rowid |
| CatalogEntries.DeserializeIndex | src/catalog.c:56-74 | gives back the index that was stored |
| CatalogEntries.NextRowid | src/catalog.c:76-90 | above every stored rowid, and the least such number if there is one |
| Catalogs.Catalog.Open | src/catalog.c:92-125 | from the tree of any valid catalog the arrays come back the same, in the same order, with next rowids above all rowids |
| CatalogEntries.NextOfScan | src/catalog.c:100-118 | merging two increasing arrays by rowid meets each one's entries in array order |
| Catalogs.Catalog.CreateTable | src/catalog.c:149-171 | refused for a known name or a full catalog; otherwise array and trees gain exactly the table, and array, entries and trees agree exactly if no split of the catalog tree loses an entry |
| Catalogs.Catalog.CreateIndex | src/catalog.c:210-231 | the same for an index |
| Catalogs.Catalog.DropIndex | src/catalog.c:233-239 | array, entries and trees lose exactly the index, and the pages of its tree are free |
| Catalogs.Catalog.DropTable | src/catalog.c:186-208 | the table and exactly its indexes go, the others in order; their trees are gone and their pages free, no other tree changes |
| Catalogs.OpenedProtectsIff | src/catalog.c:92-125 | opening leaves the catalog's trees, and the first transaction is protected exactly if neither the catalog's root nor any table's is all zeros in the file |
| Databases.RootsApart | src/catalog.c:149-231 | no tree belongs to two tables, counting their indexes |
| Databases.OthersStand | src/executor.c:403-484 | a statement on one table keeps the catalog and every other table with its indexes |
| Databases.Database.Insert | src/main.c:88-133 | INSERT in its transaction: alone it is durable if it succeeds and else every table has the rows and trees of before; inside an explicit transaction what it did stays; no other table changes |
| Databases.Database.Update | src/main.c:88-133 | the same for UPDATE, so that a row lost by a failing one is lost in an explicit transaction only |
| Databases.Database.Delete | src/main.c:88-133 | the same for DELETE |
| Databases.Database.CreateTable | src/executor.c:314-338 | fails exactly for two primary keys or one that is not INT, a known name or a full catalog, changing nothing; else catalog and database have one empty table more, its columns with the names, types and NOT NULL of the definition |
| Databases.CheckKeys | src/executor.c:320-335 | accepts exactly the columns with at most one primary key, an INT, and finds it |
| Databases.DescribedConforms | src/executor.c:320-335 | a table made from a definition has its name, its columns and its primary key |
| Databases.Database.CreateIndex | src/executor.c:346-380 | fails exactly for an unknown table or column, a known name or a full catalog, changing nothing; else the catalog has the index, the table maintains it, and its tree holds exactly the keys of the rows |
| Databases.Database.DropTable | src/executor.c:340-344 | fails exactly for an unknown table; else it goes with exactly its indexes, the other tables as they were |
| Databases.Database.DropIndex | src/executor.c:382-386 | fails exactly for an unknown index; else its table has exactly the other indexes |
| Databases.Database.Rollback | src/txn.c:96-106 | all tables have the rows and index keys of the begin, if no definition has come since; the next rowids stay |
| Losses.LargeRowIsLost | src/btree.c:245-298 | four insertions into an empty table succeed and leave three rows |
| Losses.FifthTableIsLost | src/catalog.c:149-171 | five CREATE TABLE succeed and leave four entries in the catalog tree |
| Losses.RolledBackTableStays | src/main.c:108-113 | BEGIN, CREATE TABLE, ROLLBACK leave the table in the array without a tree |
| Parsers.PrintParses | src/parser.c:91-295 | printing an operand for any level and parsing at that level gives it back and goes on with what follows |
| Parsers.PrintedExpressionParses | src/parser.c:283-295 | parse_or on the printed tokens returns the same tree and consumes exactly them |
| Precedence.TwoOperators | src/parser.c:206-295 | between three operands the tighter of two operators binds first, of equals the left, in the order OR, AND, comparisons, + -, * /; a comparison does not continue after another |
| Precedence.PrefixThenInfix | src/parser.c:191-267 | NOT takes a whole comparison but neither AND nor OR; unary minus takes one operand |
| Precedence.InfixThenPrefix | src/parser.c:191-295 | after an operator stands unary minus always, NOT only after AND or OR |
| Precedence.PrefixesRepeat | src/parser.c:191-267 | NOT and unary minus repeat |
| Precedence.LevelsAre | src/parser.c:206-295 | the levels of the grammar are this order for all pairs of infix operators |
| Precedence.LiteralsAreOperands | src/parser.c:93-112 | literals and NULL stand for their values |
| Precedence.NamesAreOperands | src/parser.c:160-183 | a name is a column, with a dot of a table, cut to 63 characters |
| Precedence.ParenthesesAreOperands | src/parser.c:126-130 | an expression in parentheses is an operand and means the same |
| Precedence.CallsAreOperands | src/parser.c:141-158 | an aggregate name and an argument in parentheses is a call |
| Precedence.CountStarIsOperand | src/parser.c:148-150 | COUNT(*) is the call without an argument |
| Precedence.AggregateNames | src/parser.c:133-138 | the five names, in any case, and no others |
| Precedence.PrintedIsOperand | src/parser.c:91-295 | whatever the printer prints as an operand or as an expression is one |
| Parsers.ParsedIsPrintable | src/parser.c:91-295 | every tree the parser returns, subqueries apart, is one the printer round-trips |
| Parsers.Parser.ParseOr | src/parser.c:283-295 | the parser object agrees with the grammar: same tree, same tokens consumed, failed exactly when the grammar has no parse |
| Parsers.Parser.ParsePrimary | src/parser.c:91-189 | the same for primaries: literals, columns, aggregates, parentheses |
| Parsers.UnescapeQuoted | src/parser.c:65-83 | a text with its quotes doubled reads back as the text |
| Parsers.UnescapeString | src/parser.c:65-83 | the loop computes that reading for any input |

## Left out

- BTrees.BTree.IndexInsert: requires the key to be absent, which the executor guarantees (`Tables.KeysWith`), and 9 to 96 key bytes, the size of the executor's buffers.
- BTrees.BTree.EnsureRoot: requires an active transaction; the calls that `catalog_open` makes before the first one are steps of the machine (`Journal.OpenStep`), where `Journal.OpeningProtectsIff` says what they cost.
- Pager.Pager.GetPageForWrite: requires an active transaction for the same reason; the machine has the write without one.
- Forests.Forest.Reopen: the object is as after `txn_recover`; where the file has roots that are all zeros, what it says of rollback and crash holds from the first commit of the session on (`Journal.SoundAfterCommit`), and before that of the other pages (`Journal.OpeningProtectsIff`).
- Forests.Forest.Create: the same for the root of the catalog.
- Forests.Forest.InsertRow: requires that the split, if there is one, leaves two pages that can be read (`SplitReadable`, weaker than fitting); after one that does not, the page is modelled (`Garbled`) but nothing later is said of the tree.
- Catalogs.Catalog.CreateTable: requires the same of the catalog tree.
- Catalogs.Catalog.CreateIndex: requires the same of the catalog tree.
- Statements.Table.ExecInsert: requires that the rows at hand and to come are `Splittable`, without which some order of them loses a row (`Splits.UnsplittableLoses`), and that keys fit 96 bytes.
- Statements.Table.ExecUpdate: requires the same; subqueries see what they see (a parameter per row), and the simultaneous reading is claimed without them.
- Pager.Pager.GetPage: pins are modelled, but the tree code reads and writes through copies (`Read`, `Write`) that pin and unpin at once.
- Probes.ProbesAcceptWhatScansAccept: assumes agreement of indexes and tables, distinct aliases, no error in the scan, and of each probe value that it evaluates, that its subqueries are not correlated with the query and that no value of the column only compares equal to it; the exact condition is stated for one table.
- Probes.PlanFromHere: assumes the same.
- Joins.PlanSelects: assumes the same.
- ProbeOrder.ProbesKeepTheOrder: assumes the same, and no table with both negative rowids and others.
- Groups.StreamPartitions: assumes each key position holds one type or NULL and no NaN, since value_compare is no equivalence otherwise; comparison across types is a parameter, as in expressions.
- Groups.GroupQuery: folds the accepted rows after the loops instead of inside them.
- Groups.Grouping.GroupRow: the addition of doubles in SUM and AVG is a parameter; what is added is not.
- Groups.AggregateMeans: assumes fewer than 2^63 rows, and for MIN and MAX values of one type and no NaN; the division of AVG is a parameter.
- Expressions.KeptRowMatchesProbe: arithmetic of doubles, INT arithmetic that overflows (undefined in C), comparison across types and the results of subqueries are parameters of the evaluation.
- Meanings.ComparisonsMean: compares values of one type; across types the result is that parameter.
- Catalogs.Catalog.Open: assumes 32-bit page numbers and names below 64 bytes, and takes the rows of the trees as parameters, since it reads them outside a transaction; the root pages it writes there are the subject of `Catalogs.OpenedProtectsIff`.
- Databases.Database.CreateTable: requires that the catalog's leaf keeps its entries when the new one comes; `Catalogs.Catalog.CreateTable` says what happens otherwise.
- Databases.Database.CreateIndex: requires the same, and keys of at most 96 bytes.
- Databases.Database.Rollback: says nothing of a rollback after a definition in the same transaction, which breaks the catalog (`Losses.RolledBackTableStays`).
- ExactProbes.JoinedProbeIsScanIff: takes an ON condition that is one equation, no name in it ambiguous, and no WHERE.
- Pager.OpenAndRecover: says nothing of a file with a header that no run of this program left.
- Parsers.Parser.ParseOr: parse_select inside parentheses is a parameter, and tokens are given without lexical errors.
- Index keys longer than the 96-byte buffers of the executor, which the code does not check.
- The wrap-around of 32-bit page numbers and of 64-bit rowids; the next rowid is assumed to fit.
- Torn page writes and torn journal removal: only the last journal entry may be torn, as the replay handles it.
- The C library below: files, fsync, memory, error texts.
- finalize_groups, HAVING, LIMIT, the output plan and result sets.
- Statement grammar, lexer, meta-commands, table printing, the web application.
