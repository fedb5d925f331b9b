# leafdb in Dafny

A model of the leafdb database engine, with proofs of what its layers promise. leafdb
keeps tables in B+ trees over fixed-size pages, caches the pages in a pool with shadow
copies for rollback, makes commits durable through a framed log that is replayed after a
crash, and answers SQL through a planner, staged filters and hash joins.

The files follow the layers:

- `Bytes`, `NodeCodec`, `Cells`: byte formats, nodes in pages, sorted runs of cells.
- `Tree`, `TreeInsert`, `TreeDelete`, `TreeOps`: the tree and its operations as functions,
  with the invariant they keep. `TreeBounds` says exactly when they fail, `TreeFill` how
  full they keep the nodes, `TreeScan` what the leaf chain visits, `TreeCheck` that
  `check` passes, `Runs` what whole runs amount to.
- `Disk`, `Pager`: the data file, the buffer pool and the pager as classes.
- `StoredTree`, `BTree`, `StoredRuns`: the tree algorithms over the pager, proved to do to
  the pages what the functions do to trees. `NodeCache`: the decoded nodes beside them.
- `Crc`, `Wal`, `Recovery`: the checksum, the log and redo recovery.
- `Session`, `Steps`, `DurableTree`, `Reader`: transactions, whole runs with crashes in
  them, statements, and reading sessions.
- `Sql`, `Values`, `Evaluate`, `Semantics`, `Sort`, `Join`, `Planner`, `Pushdown`, `BaseScan`, `OuterPushdown`,
  `Exceptions`, `Agreement`, `HashExceptions`: expressions and what they mean, sorting,
  joins, the plan, the planned run of a query, and where it raises.
- `Grammar`, `PrintParse`, `Language`, `Parser`: the expression parser and its language.
- `Order`, `Index`: secondary indexes and the row selection of UPDATE and DELETE.

Run `dafny verify dfyconfig.toml` to verify everything.

## Main results

- **Pages hold the map.** `StoredRuns.Execute`: any sequence of inserts, upserts and
  deletes through the pager leaves in the pages the table its answers describe.
  `BTree.BTree.RangeScan`: scans yield exactly the entries in range.
- **Bounds.** `Runs.FixedRunChecked` and `TreeFill.HeightBound`: with cells of one size
  nothing fails, `check` passes and the height is logarithmic.
- **Crashes.** `Steps.Run`: any steps in any order, crashes among them, answer and end as
  the committed transactions say. `Session.Session.CrashNow`, `CrashInCommit`,
  `CrashInWriteBack` and `DurableTree.StatementIsAtomic`: in every safe state recovery
  brings back exactly the committed pages. `Recovery.RestartTheorem`: recovery can be
  interrupted anywhere.
- **Readers.** `Reader.ReadSession.Refresh` and `Read`: a whole number of batches, never
  fewer, constant inside a transaction; every page of an adopted batch can be read.
- **Queries.** `BaseScan.RunSelect`: the planned run has the rows of the naive one.
  `Agreement.RaiseAlone`: when only one of the two raises. `Join.Run` and
  `HashExceptions.HashRaisesAlike`: the same for hash joins and nested loops.
- **What queries mean.** `Semantics.EvaluatedBinary`, `CompiledBinary` and their
  neighbours: operators, truth tables, BETWEEN, IN and names, stated on values alone.
  `Join.JoinConsists`: which rows a join has and how often. `Sort.OrderBy`: the order.
- **The parser.** `Parser.Parser.ParseExpression`: it reads an expression exactly where the
  tokens say one. `Language.SaysOnlyOne`: they say at most one. `PrintParse.RoundTrip`.
- **The rest.** `Crc.Crc32Of` and `Crc.BurstDetected`; `Evaluate.CompileRefinesEval`;
  `Index.IndexedTable.MatchingRows`.

## Findings

Properties that the code does not have, each with an input and with the condition under
which it does.

| property | fails at | holds if and only if |
|---|---|---|
| An insert of a legal row succeeds (leafdb/btree.py:187) | `TreeBounds.CountSplitOverflows` | the leaf can hold the cell whole or halved by count: `TreeBounds.InsertSucceedsIff`; always with cells of at most 216 bytes |
| An upsert of a legal row succeeds (leafdb/btree.py:213-224) | `TreeBounds.UpsertOverflows` | the leaf can place a new cell, or fits with the old one replaced: `TreeBounds.UpsertSucceedsIff` |
| A delete completes (leafdb/btree.py:305) | `TreeBounds.LoneLenderReached` | no underfull leaf borrows from a right neighbour of one cell: `TreeBounds.BreaksIff`; always with cells of at most 216 bytes |
| `check` passes after legal operations (leafdb/btree.py:410-419) | `TreeCheck.CheckFails` | no node below the root is underfull: `TreeCheck.CheckIff`; always with cells of one size of at most 65 bytes: `Runs.FixedRunChecked` |
| A checkpoint keeps committed pages (leafdb/pager.py:122-123) | `Session.CommittedPageLost` | every page without a dirty mark was in the file: `Session.Session.Checkpoint`; a rollback breaks this unless the file held the dirty pages it touched: `Session.Session.Rollback` |
| Appends after opening are readable (leafdb/engine.py:69-73) | `Wal.LeftoverJoins` | the log ends at a commit boundary: `Wal.AppendsIff`; after opening, if a batch was applied or the log was empty: `Session.Session.constructor` |
| A reader keeps what it has adopted (leafdb/engine.py:114-116) | `Reader.EvictionForgets` | each of the oldest pages of its pool, as many as must make room, is dirty or what the file holds: `Reader.ReadSession.Read` |
| A search shows what the page holds (leafdb/btree.py:111-120) | `NodeCache.RolledBackRowFound`, `NodeCache.RefusedRowFound` | after inserts into a leaf and a rollback, nothing was changed or the leaf was loaded again after its first write: `NodeCache.RunAndRollBack` |
| WHERE is its conjuncts, one filter after the other (leafdb/executor.py:560-562) | `Evaluate.LooseWhere` | no truthy conjunct is other than Boolean when all are truthy: `Evaluate.WhereByConjuncts`; always with Boolean conjuncts: `Evaluate.BooleanWhere` |
| Pushdown keeps the rows under RIGHT and FULL joins (leafdb/planner.py:86-114) | `BaseScan.RightJoinDiffers` | no right row is matched by rows that are filtered out only, and the condition holds of a missing row if any right row is unmatched: `OuterPushdown.OuterFilterIff`, `OuterPushdown.OneOuterJoin` |
| The planned run raises as the unoptimised one does (leafdb/executor.py:555-568) | `Exceptions.PlanRaisesAlone`, `Agreement.KeySearchAnswers` | it is not so that a conjunct raises on a row the plan checks while False conjuncts cut every joined row that extends a raising one and ON never raises, nor that the unoptimised run raises while the scan, an earlier conjunct or different keys keep every raising row from the plan: `Agreement.RaiseAlone`, `Agreement.OutcomesAgree`; for one table `Agreement.OneTable`; always with conditions of equality, connectives, IS NULL and IN: `Exceptions.ScanNeverRaises` |
| A hash join raises as a nested loop does (leafdb/executor.py:688-718) | `HashExceptions.HashJoinAnswers` | the hash join raises, or no pair with different keys raises in a conjunct in front of the equality and no pair with a missing key in one beside it: `HashExceptions.HashRaisesAlike`; with the equality first, `HashExceptions.EqualityFirst` |

The code and its documentation disagree in these places; the model follows the code.

- `refresh_from_wal` promises that `force` looks at the file; it returns before that when
  the published end is not ahead of its own position (leafdb/engine.py:109-111), as
  `Reader.ReadSession.Refresh` states.
- Rolled-back pages lose dirty marks that a commit had set (docs/DESIGN.md:46-49).

## Model

| member | source | states |
|---|---|---|
| Bytes.U32RoundTrip | leafdb/btree.py:15 | Reading a packed unsigned 32-bit field at any place of a buffer gives the number back |
| Bytes.I64RoundTrip | leafdb/btree.py:16 | The same for the signed 64-bit keys, negative ones included |
| Bytes.U32Bytes | leafdb/btree.py:15 | A packed unsigned field is four bytes, the most significant first |
| Bytes.I64Bytes | leafdb/btree.py:16 | A packed key is eight bytes, the most significant first, a negative one as its value plus 2^64 |
| NodeCodec.NodeFromBytes | leafdb/btree.py:76-97 | The parsing loops compute exactly the decoding function, failure included: short buffers and unknown kinds |
| NodeCodec.RoundTrip | leafdb/btree.py:47-97 | Decoding any buffer that begins with the bytes of a node gives that node, whatever follows them |
| NodeCodec.LeafLayout | leafdb/btree.py:47-59 | Where each field of a leaf stands: kind 0, the next page or the mark, the count, then every cell with its key, length and bytes |
| NodeCodec.InternalLayout | leafdb/btree.py:60-74 | And of an internal node: kind 1, the two counts, the keys, the children |
| NodeCodec.DecodePage | leafdb/pager.py:96 | A node that fits a page is read back from its zero-padded page image |
| Tree.ItemsSorted | leafdb/btree.py:363-388 | The cells of a tree that meets the invariant are in strictly ascending key order and inside its bounds |
| Tree.Cut | leafdb/btree.py:197-204 | A row of siblings falls at any separator into two rows that meet the invariant on either side of it |
| Tree.ReplaceByTwo | leafdb/btree.py:174-183 | Taking in a new separator and sibling beside child i keeps bounds, heights and the leaf chain |
| Tree.ReplaceByOne | leafdb/btree.py:280-291 | Taking out a separator when two children have become one keeps them too |
| TreeInsert.InsertContents | leafdb/btree.py:162-207 | An insert puts the cell at its place among the cells, in both halves if nodes split; a duplicate changes nothing |
| TreeInsert.InsertGood | leafdb/btree.py:162-207 | An insert keeps order, bounds, page fit, equal leaf depth and the leaf chain, in both halves of every split, and allocates at most one page a level |
| TreeInsert.InsertUses | leafdb/btree.py:190-206 | No page holds two nodes after an insert: the pages are those before and the newly allocated ones |
| TreeDelete.OneMore | leafdb/btree.py:293-309 | Moving one legal cell into an underfull leaf never overfills it |
| TreeDelete.MergeSize | leafdb/btree.py:126-134 | A merge that rebalancing reaches has at most 2785 bytes |
| TreeDelete.RebalanceItems | leafdb/btree.py:257-316 | Borrowing and merging keep all cells in order |
| TreeDelete.RebalanceGood | leafdb/btree.py:257-316 | Rebalancing restores the invariant among the children; if it breaks off, only the underfull child is out of place |
| TreeDelete.DeleteContents | leafdb/btree.py:237-255 | A delete takes exactly the named cell out, or reports that it is missing |
| TreeDelete.DeleteGood | leafdb/btree.py:237-316 | A delete keeps order, bounds, page fit, equal leaf depth and the leaf chain, through borrows, merges and cascades of them |
| TreeDelete.DeleteUses | leafdb/btree.py:237-316 | A delete allocates nothing and never makes two nodes share a page |
| TreeOps.SearchWhole | leafdb/btree.py:136-145 | `search` is the lookup in the table of the tree, for every key, with separators that may lag behind |
| TreeOps.InsertWhole | leafdb/btree.py:147-160 | `insert` adds one entry and leaves a whole tree, or fails with the tree as it was; every failure says what it means |
| TreeOps.UpsertWhole | leafdb/btree.py:209-224 | `upsert` sets one entry and leaves a whole tree, or fails with the tree as it was |
| TreeOps.DeleteWhole | leafdb/btree.py:226-235 | `delete` finds a key if and only if it is in the table, takes that entry out, and leaves a whole tree also when it breaks off |
| TreeBounds.OverflowIff | leafdb/btree.py:186-207 | An insert overflows a page if and only if the leaf it reaches can hold the new cell neither whole nor halved by cell count |
| TreeBounds.InsertSucceedsIff | leafdb/btree.py:147-195 | An insert succeeds if and only if its arguments are in range, the key is new and that leaf can place the cell |
| TreeBounds.CountSplitOverflows | leafdb/btree.py:187-195 | Rows of 0, 2048 and 2048 bytes: an insert of legal rows that fails |
| TreeBounds.OverwriteIff | leafdb/btree.py:215-224 | Overwriting succeeds if and only if the key is there and its leaf still fits the page |
| TreeBounds.UpsertSucceedsIff | leafdb/btree.py:209-224 | An upsert succeeds if and only if its arguments are in range and the leaf can place a new cell, or fits with an old one replaced |
| TreeBounds.UpsertOverflows | leafdb/btree.py:213-224 | Rows of 2048 and 2000 bytes, the second replaced by one of 2048: an upsert of legal rows that fails although a split would do |
| TreeBounds.SmallPlaceable | leafdb/btree.py:186-195 | With cells of at most 216 bytes both halves of an overfull leaf fit their pages, whatever the sizes |
| TreeBounds.SmallInsertSucceeds | leafdb/btree.py:147-195 | With such cells an insert in range fails on a duplicate key only |
| TreeBounds.BreaksIff | leafdb/btree.py:302-305 | A delete breaks off with an IndexError if and only if an underfull leaf is to borrow from a right neighbour of one cell |
| TreeBounds.LoneLenderReached | leafdb/btree.py:302-305 | Five legal operations on rows of 1409 bytes that end in that IndexError |
| TreeBounds.SmallDeleteSucceeds | leafdb/btree.py:132-134 | With cells of at most 216 bytes a lender keeps a cell, so a delete never breaks off |
| TreeFill.FixedInsert | leafdb/btree.py:126-207 | With cells of one size of at most 65 bytes an insert keeps every node below the root at a third of a page and fails on a duplicate only |
| TreeFill.FixedUpsert | leafdb/btree.py:209-224 | With such cells an upsert never fails and keeps that fill |
| TreeFill.FixedDelete | leafdb/btree.py:226-316 | With such cells a delete never breaks off and keeps that fill through borrows, cascaded merges and root collapse |
| TreeFill.HeightBound | leafdb/btree.py:126-134 | A tree with h internal levels has at least 2 * 114^(h-1) times the minimum of a leaf in it: the height is logarithmic |
| TreeScan.ChainOrder | leafdb/btree.py:186-195 | The leaf chain starts at the leftmost leaf and visits exactly the leaves of the tree, in order |
| TreeScan.LeavesBefore | leafdb/btree.py:318-324 | All leaves left of the one a key is routed to hold smaller keys only |
| TreeScan.SelectMeaning | leafdb/btree.py:326-332 | The selected entries are exactly those in range, in ascending order |
| TreeCheck.CheckIff | leafdb/btree.py:363-421 | A whole tree passes `check` if and only if no node below its root is underfull: strict separators, separators at most the minimum to their right, chain against walk and equal depth always hold |
| TreeCheck.CheckFails | leafdb/btree.py:410-419 | Rows of 0, 0, 2048 and 2015 bytes: four legal inserts after which `check` fails |
| TreeCheck.CheckPasses | leafdb/btree.py:363-421 | A tree of equal small cells passes every assertion of `check` |
| Runs.DoMeans | leafdb/btree.py:147-235 | One operation on the tree is that operation on its table, up to the failures for lack of space |
| Runs.RunMeans | leafdb/btree.py:147-235 | After any sequence of inserts, upserts and deletes the table is the one the answers describe, and no answer is wrong |
| Runs.RunSearch | leafdb/btree.py:136-145 | A search after any run is a lookup in that table |
| Runs.FixedRun | leafdb/btree.py:147-316 | With cells of one size every run behaves exactly as on a map and keeps the fill |
| Runs.SmallRun | leafdb/btree.py:147-316 | With cells of at most 216 bytes every run of inserts and deletes behaves exactly as on a map |
| Runs.FixedRunFromEmpty | leafdb/btree.py:147-316 | From the empty root: the table and the height bound after any run |
| Runs.RunComplete | leafdb/btree.py:147-316 | A run answers every operation as long as the page numbers suffice |
| Runs.FixedRunChecked | leafdb/btree.py:363-421 | Up to 600 million operations on cells of one size from the empty root: all answered as on a map, and `check` passes |
| BTree.BTree.Load | leafdb/btree.py:111-120 | Loading the page of a node gives that node and changes no page |
| BTree.BTree.Search | leafdb/btree.py:136-145 | The descent through the pages finds what the tree says |
| BTree.BTree.SplitLeaf | leafdb/btree.py:186-195 | A leaf split on pages does what the split on trees does, and touches its page and a new one |
| BTree.BTree.Absorb | leafdb/btree.py:178-184 | Taking in a sibling on pages, with the split of the internal node if it overflows |
| BTree.BTree.InsertAt | leafdb/btree.py:162-184 | The recursive insert on pages agrees with the one on trees and changes no page outside the subtree |
| BTree.BTree.Insert | leafdb/btree.py:147-160 | `insert` on pages: the tree they hold afterwards, its table, and that a failure changes none of the pages in use |
| BTree.BTree.Overwrite | leafdb/btree.py:215-224 | The overwriting loop on pages sets the cell in its leaf, or fails and changes nothing |
| BTree.BTree.Upsert | leafdb/btree.py:209-224 | `upsert` on pages: the tree they hold afterwards and its table |
| BTree.BTree.BorrowLeft | leafdb/btree.py:293-300 | A borrow from the left writes the two neighbours and the parent, and nothing else |
| BTree.BTree.BorrowRight | leafdb/btree.py:302-309 | A borrow from the right, with the IndexError of a lender of one cell |
| BTree.BTree.MergeAt | leafdb/btree.py:280-316 | A merge writes the lower page; the children that remain are stored |
| BTree.BTree.Rebalance | leafdb/btree.py:257-291 | Rebalancing on pages agrees with the one on trees, whichever branch it takes |
| BTree.BTree.DeleteAt | leafdb/btree.py:237-255 | The recursive delete on pages agrees with the one on trees and changes no page outside the subtree |
| BTree.BTree.CollapseRoot | leafdb/btree.py:231-235 | A root without separators gives way to its only child |
| BTree.BTree.Delete | leafdb/btree.py:226-235 | `delete` on pages: found if and only if the key is in the table, and the tree they hold afterwards, also after the IndexError |
| BTree.BTree.RangeScan | leafdb/btree.py:318-335 | A scan from any bound to any bound yields exactly the entries in range, in ascending order, and ends |
| BTree.ScanLeaf | leafdb/btree.py:327-332 | The loop over one leaf extends the selection by what the leaf has in range, and stops at the first key above it |
| NodeCache.Nodes.Load | leafdb/btree.py:111-120 | Loading gives the cached node if it belongs to the very bytes object in the pool, and otherwise decodes the page |
| NodeCache.Nodes.Insert | leafdb/btree.py:162-195 | An insert changes the cached node in place, also when it is refused; the page changes only when it is written |
| NodeCache.Nodes.Rollback | leafdb/pager.py:116-125 | The saved bytes objects themselves come back |
| NodeCache.RunAndRollBack | leafdb/btree.py:111-120 | After any inserts and searches of a leaf in a transaction that is rolled back, the cache shows the wrong node if and only if the node was changed and not loaded again after the first write of the leaf |
| NodeCache.InsertRolledBack | leafdb/btree.py:111-120 | A row whose insert is rolled back at once, written or refused, is found by the next search |
| NodeCache.RolledBackRowFound | leafdb/btree.py:111-120 | BEGIN, an insert into an empty leaf, ROLLBACK: a search finds the row |
| NodeCache.RefusedRowFound | leafdb/btree.py:186-195 | Rows of 0 and 2048 bytes and a refused third one of 2048, rolled back: a search finds it |
| StoredTree.StoredFrame | leafdb/btree.py:111-120 | Only the pages of its own nodes matter to a stored tree |
| StoredTree.ScanFacts | leafdb/btree.py:318-335 | What a scan relies on: the chained leaves are in their pages, hold the cells in order, and those skipped hold nothing wanted |
| StoredRuns.Perform | leafdb/btree.py:147-235 | One operation through the pager is that operation on the tree the pages hold |
| StoredRuns.Execute | leafdb/btree.py:147-235 | Any sequence of operations through the pager: all answered, and the pages hold the table those answers describe |
| StoredRuns.ExecuteAndSearch | leafdb/btree.py:136-235 | A search of the pages afterwards is a lookup in that table |
| Disk.PageOfWrite | leafdb/pager.py:55-64 | A page write changes that page and no other, also past the end of the file |
| Disk.PageOfExtend | leafdb/wal.py:147-151 | Growing a file changes no page that is read with padding |
| Pager.BufferPool.Get | leafdb/pager.py:17-21 | A hit returns the image and moves the page to the young end |
| Pager.BufferPool.Put | leafdb/pager.py:23-27 | Putting an image moves the page to the young end and marks it dirty if asked |
| Pager.Pager.EvictOldest | leafdb/pager.py:69-73 | The page used longest ago goes; it reaches the file if and only if it is dirty |
| Pager.Pager.EvictIfFull | leafdb/pager.py:66-73 | Nothing is evicted inside a transaction; outside, exactly as many of the oldest pages go as make room, the dirty ones to the file |
| Pager.Pager.Get | leafdb/pager.py:75-86 | A read returns the image of the view or the IndexError; the oldest pages make room, the page read becomes the youngest, and what stays in the pool is unchanged |
| Pager.ViewAfterRead | leafdb/pager.py:66-86 | A read changes what other reads see if and only if it lets go of a page that is neither dirty nor in the file |
| Pager.Pager.SaveImage | leafdb/pager.py:91-95 | The pre-image kept at the first write of a page lets the view be restored |
| Pager.Pager.Write | leafdb/pager.py:88-102 | A write sets one page of the view, or fails and changes nothing; in a transaction it touches the pool only |
| Pager.Pager.Allocate | leafdb/pager.py:104-108 | The next page number, with a zero page in the view |
| Pager.Pager.Begin | leafdb/pager.py:110-114 | A transaction begins with nothing touched, or the error if one is open |
| Pager.Pager.Rollback | leafdb/pager.py:116-125 | Every page of the view is back to what it was at begin, whatever was written, read or allocated; the touched pages are clean |
| Pager.Pager.CollectCommit | leafdb/pager.py:127-132 | The touched pages with the images the view shows, and the page count |
| Pager.Pager.Flush | leafdb/pager.py:134-137 | Every dirty page reaches the file, no other page changes |
| Crc.TableStep | native/src/core.cpp:31-32 | One table lookup takes in the eight bits of a byte |
| Crc.Table | native/src/core.cpp:12-25 | The table construction: every entry is eight shift steps of its index |
| Crc.Crc32Of | native/src/core.cpp:28-34 | The table-driven loop computes the bit-at-a-time reflected CRC-32 of section 8 of RFC 1952, for any length |
| Crc.CheckValue | native/src/core.cpp:12-34 | The published check value: the checksum of the characters 123456789 is 0xCBF43926 |
| Crc.ShiftAllInjective | native/src/core.cpp:28-34 | Bytes that follow never hide a difference of the register |
| Crc.BurstDetected | native/src/core.cpp:28-34 | Two messages that differ within four consecutive bytes only have different CRCs |
| Wal.WrittenFrame | leafdb/wal.py:17-19 | A frame that was written is the frame that is read |
| Wal.FrameLayout | leafdb/wal.py:17-19 | Where each field of a frame stands: the magic bytes, page, length and checksum, and the payload |
| Wal.LongerFrame | leafdb/wal.py:78-89 | More data behind it does not change a frame |
| Wal.CutFrame | leafdb/wal.py:84-85 | A frame that is cut short is no frame |
| Wal.ReadBatchesFrom | leafdb/wal.py:56-96 | The parse loop with its offset and end computes the reading function, the struct.error included |
| Wal.ScanBatch | leafdb/wal.py:38-46 | An appended batch is read back, over whatever images were pending in front of it |
| Wal.ReadPrefix | leafdb/wal.py:56-96 | Any byte prefix reads as exactly the batches whose commit frame lies wholly in it, each with its end offset |
| Wal.PrefixTheorem | leafdb/wal.py:17-96 | The same for a whole log made by appends, from its header on |
| Wal.CompleteIs | leafdb/wal.py:90-93 | The number of those batches is the greatest whose end lies in the prefix |
| Wal.ResumeTheorem | leafdb/wal.py:56-96 | Reading on from a returned offset and concatenating is reading the longer log at once, for any bytes at all |
| Wal.AppendsIff | leafdb/engine.py:69-73 | Every later append is readable if and only if the log ends at a commit boundary |
| Wal.LeftoverJoins | leafdb/engine.py:69-73 | A page frame left without its commit becomes part of the next transaction |
| Wal.ChecksumDetects | leafdb/wal.py:87-88 | The checksum of a payload damaged within four consecutive bytes differs |
| Wal.DamagedFrame | leafdb/wal.py:139-140 | A frame so damaged is rejected, and reading stops in front of it |
| Recovery.RecoverFile | leafdb/wal.py:118-158 | The recovery loop, which applies batches as it reads them, computes the recovery function |
| Recovery.RestartTheorem | leafdb/wal.py:118-158 | From whatever an interrupted recovery has left, even half a page, running it again gives the file of an uninterrupted one; for every log |
| Recovery.RestartAfterSome | leafdb/wal.py:144-151 | In particular after any subset of its page writes and extensions |
| Recovery.RecoverTwice | leafdb/wal.py:118-158 | Recovering twice is recovering once |
| Recovery.PageOfEntries | leafdb/wal.py:142-153 | After replaying, every page is its last committed image, or as it was in the file |
| Recovery.RecoverWhole | leafdb/wal.py:118-158 | The same for a log made by appends, with the number of batches applied |
| Recovery.RecoverCut | leafdb/wal.py:118-158 | With any number of bytes of one more append behind it: the pages of before, unless the append is complete |
| Session.Session.constructor | leafdb/engine.py:63-88 | Opening recovers the file; later commits are safe if and only if a batch was applied or the log had no bytes behind its header |
| Session.WriteBackDurable | leafdb/pager.py:66-73 | Dirty pages that are written back do not show through the log |
| Session.Session.Read | leafdb/pager.py:75-86 | A read returns the view; afterwards reads see the committed pages if and only if each of the oldest pages, as many as must make room, was dirty or what the file held |
| Session.Session.Begin | leafdb/engine.py:385-390 | BEGIN keeps every page, or the TransactionError |
| Session.Session.Write | leafdb/pager.py:88-102 | Inside a transaction a write never changes the file |
| Session.Session.Allocate | leafdb/pager.py:104-108 | Inside a transaction: the next page number, with a zero page that counts as touched |
| Session.Session.Commit | leafdb/engine.py:403-415 | COMMIT in any safe state: exactly the touched pages become committed, the log grows by their batch, the file stays |
| Session.Session.Rollback | leafdb/engine.py:421-432 | ROLLBACK in any safe state: reads see what they saw at begin; the pool stays tidy if and only if the file held every dirty page that was touched |
| Session.Session.Checkpoint | leafdb/engine.py:206-217 | CHECKPOINT loses nothing if and only if every page without a dirty mark was in the file; an error while a transaction or another session is open |
| Session.Session.CrashNow | leafdb/wal.py:118-158 | In every safe state a crash and recovery bring back exactly the committed pages |
| Session.Session.CrashInCommit | leafdb/engine.py:403-415 | In every safe state with a transaction open, any part of the commit append: its pages if the append is whole, none of them otherwise |
| Session.Session.CrashInWriteBack | leafdb/pager.py:66-73 | A crash in an eviction or a flush, with some dirty pages in the file and any part of one more: exactly the committed pages come back |
| Session.Session.CrashInReset | leafdb/wal.py:98-104 | A crash with any part of the new log header written: the file alone has the committed pages |
| Recovery.RecoverSize | leafdb/wal.py:142-151 | The recovered file is long enough for every page of the log, and for every page it was long enough for before |
| Steps.Reopen | leafdb/engine.py:63-88 | A crash and opening again lead to the committed pages, all of them below the new page count |
| Steps.Run | leafdb/engine.py:206-432 | Reads, writes, allocations, transactions, checkpoints and crashes in any order: every answer is the one that the committed and the own writes so far say, and a crash at the end would bring back exactly the committed pages |
| Session.RollbackClean | leafdb/pager.py:116-125 | When rolled-back pages may leave the pool without loss: exactly when the file held them |
| Session.CommittedPageLost | leafdb/pager.py:122-123 | Commit a page, write it again, roll back, checkpoint: the committed page is in neither file nor log |
| DurableTree.InsertRow | leafdb/engine.py:270-278 | One INSERT as a transaction: the row is committed, or the statement has no effect |
| DurableTree.DeleteRow | leafdb/engine.py:270-278 | One DELETE as a transaction, with rollback after the IndexError |
| DurableTree.StatementIsAtomic | leafdb/engine.py:403-415 | A crash at any byte of its commit leaves the tree before the statement or the tree after it |
| Reader.ReadNew | leafdb/wal.py:56-96 | Reading on from a batch boundary in any prefix gives the batches that lie in it |
| Reader.ReadSession.Adopt | leafdb/engine.py:114-116 | Adopted images are in the pool and clean |
| Reader.LatestIsCounted | leafdb/engine.py:117-118 | Every page of an adopted batch is below the page count |
| Reader.ReadSession.Refresh | leafdb/engine.py:92-125 | A refresh, even in the middle of an append, shows a whole number of batches, exactly those in what it may read, never fewer than before, and the page count is the greatest of its old value and theirs; nothing new inside a transaction or when the published end is not ahead |
| Reader.ReadSession.Read | leafdb/pager.py:75-86 | A reader sees its base with the adopted batches over it, or the IndexError exactly from the page count on; every page of a batch that counts its pages reads as the last adopted image; and it goes on doing so if and only if each of the oldest pages, as many as must make room, is dirty or what the file holds |
| Reader.ReadSession.Begin | leafdb/engine.py:385-390 | BEGIN keeps what the session shows |
| Reader.ReadSession.End | leafdb/engine.py:403-415 | So does COMMIT of a transaction that has written nothing |
| Reader.EvictionForgets | leafdb/engine.py:114-116 | One adopted page and a pool of one: reading another page makes the session forget the batch |
| Values.StrCmpIs | leafdb/executor.py:434-444 | Text compares by the first character that differs, a proper prefix first |
| Values.OrderCmpIs | leafdb/executor.py:434-444 | Two values other than NULL compare if both are text or both are numbers; True is 1 and False is 0 |
| Semantics.EvaluatedBinary | leafdb/executor.py:162-188 | The interpreter: exceptions of an operand pass on, NULL makes NULL, `=` and `<>` say whether the values are the same, `<`, `<=`, `>`, `>=` are the order of text and numbers and raise on a mix, `+`, `-`, `*` are those of integers and raise on others |
| Semantics.CompiledBinary | leafdb/executor.py:361-415 | The same for the closures |
| Semantics.UnaryMeans | leafdb/executor.py:111-161 | Minus is the negative of an integer and raises on text and Booleans; IS NULL and IS NOT NULL; for both evaluators |
| Semantics.EvaluatedConnective | leafdb/executor.py:447-460 | AND and OR follow the table of three truth values, line by line |
| Semantics.CompiledConnective | leafdb/executor.py:335-359 | And so do the closures, which do not look at the right side if the left one decides |
| Semantics.NotMeans | leafdb/executor.py:153-156 | NOT follows its table, for both evaluators |
| Semantics.EvaluatedBetween | leafdb/executor.py:114-123 | BETWEEN holds from the one bound to the other, both included; NULL if one of the three is, an exception if they do not compare |
| Semantics.CompiledBetween | leafdb/executor.py:248-266 | The same for the closures, which do not look at the bounds of NULL |
| Semantics.BetweenIsAnd | leafdb/executor.py:248-266 | On values that compare, x BETWEEN lo AND hi is lo <= x AND x <= hi |
| Semantics.EvaluatedIn | leafdb/executor.py:124-139 | IN is True at the first item that is the same, raises if an item in front of it does, and is NULL without a hit if an item is NULL |
| Semantics.CompiledIn | leafdb/executor.py:268-289 | The same for the closures |
| Semantics.ResolveMeans | leafdb/executor.py:69-87 | A column is the first of its name in the table of its alias, or in the only table that has the name |
| Semantics.ColumnMeans | leafdb/executor.py:94-104 | Its value is that place of the row of its table, or NULL where an outer join has none |
| Semantics.BelowKeeps | leafdb/executor.py:555-562 | WHERE x < n keeps exactly the rows whose x is a number below n |
| Evaluate.CompileRefinesEval | leafdb/executor.py:89-417 | Whenever the interpreter returns a value, the short-circuiting closure returns the same one |
| Evaluate.ClosureAnswersMore | leafdb/executor.py:335-346 | A false left side lets the closure answer where the interpreter raises |
| Evaluate.ConjunctsHold | leafdb/planner.py:4-7 | A condition is true if and only if every conjunct is, whether or not anything raises |
| Evaluate.BooleanWhere | leafdb/planner.py:4-7 | With Boolean conjuncts, filtering by the whole condition and by its conjuncts keep the same rows |
| Evaluate.WhereByConjuncts | leafdb/executor.py:560-562 | Without that: they differ exactly where all conjuncts are truthy and one is not a Boolean |
| Evaluate.LooseWhere | leafdb/executor.py:560-562 | WHERE 1 AND 2 keeps a row as a whole and loses it conjunct by conjunct |
| Evaluate.ChainStops | leafdb/executor.py:335-346 | Evaluating a condition is evaluating its conjuncts from left to right up to the first that raises or is False |
| Evaluate.RaisedUncut | leafdb/executor.py:335-346 | So it raises if and only if some conjunct does and none in front of it is False |
| Sort.CompareSigns | leafdb/executor.py:511-518 | Exactly one of less, equal and greater: `sort_wrap` orders all values |
| Sort.CompareIs | leafdb/executor.py:511-518 | Less is standing before: NULL first, then text by its first differing character, then integers by size, then False, then True |
| Sort.CompareTransitive | leafdb/executor.py:511-518 | And transitively |
| Sort.PassOrdered | leafdb/executor.py:643-645 | A stable pass by key k over rows in order by the later keys leaves them in order by key k and the later keys |
| Sort.OrderBy | leafdb/executor.py:643-645 | Sorting from the last key to the first gives a permutation in which each row, at the first key on which it differs from a later one, stands before it in the order of `sort_wrap`, or behind it if the key descends; ties are in input order |
| Sort.OnlyOrder | leafdb/executor.py:643-645 | That order is unique |
| Join.SamePairs | leafdb/executor.py:695-714 | Row by row and column by column there are the same matching pairs |
| Join.RowCount | leafdb/executor.py:720-727 | A join has its matches, its unmatched left rows if LEFT or FULL, and its unmatched right rows if RIGHT or FULL |
| Join.JoinConsists | leafdb/executor.py:669-728 | How often any row is in a join: once for each pair that makes it and on which ON is true, once for each left row that makes it and has no match, if LEFT or FULL, once for each such right row, if RIGHT or FULL |
| Join.BucketIsRow | leafdb/executor.py:693-703 | Probing the bucket of a left row finds all its matches |
| Join.BucketTestsRow | leafdb/executor.py:693-703 | And evaluates the ON condition on exactly the rows with its key |
| Join.Run | leafdb/executor.py:669-728 | Hash join on either side and nested loop have the same rows, each as often as the pairs, lone left and lone right rows that make it, for all four kinds; an exception if and only if ON raises on a pair it is evaluated on |
| Planner.OwnerResolves | leafdb/planner.py:229-241 | The owner the planner finds for a column is where the column resolves |
| Planner.EquiForced | leafdb/planner.py:228-264 | An ON condition that is true forces the extracted columns to be there and have the same key |
| HashExceptions.EqualityOfKeys | leafdb/executor.py:688-714 | On every pair of rows the extracted equality is NULL if a key is missing, and otherwise whether the keys are the same |
| HashExceptions.UntestedRaises | leafdb/executor.py:335-346 | A pair with different keys raises exactly where a conjunct in front of the equality does, one with a missing key where any other conjunct does |
| HashExceptions.HashRaisesAlike | leafdb/executor.py:688-718 | A hash join raises only where the nested loop does; they raise alike if and only if the hash join does, or no pair with different keys raises in front of the equality and no pair with a missing key beside it |
| HashExceptions.EqualityFirst | leafdb/executor.py:688-718 | If the equality is the first conjunct of ON, only pairs with a missing key make a difference |
| HashExceptions.HashJoinAnswers | leafdb/executor.py:688-718 | One row in each table, ON a.z < b.w AND a.y = b.x: the hash join answers, the nested loop raises |
| Planner.EarlyIsLate | leafdb/planner.py:86-114 | A condition whose columns resolve early has the same value, or exception, early and late |
| Planner.StageIsEnough | leafdb/planner.py:86-114 | At its stage a conjunct keeps the rows it would keep at the end |
| Pushdown.FilterFlat | leafdb/executor.py:555-568 | For INNER and LEFT joins, filtering before the join is filtering after it |
| Pushdown.ApplyStage | leafdb/executor.py:555-562 | A stage keeps the rows that pass its conjuncts, or raises if and only if a conjunct does on a row that gets to it |
| Pushdown.Pipeline | leafdb/executor.py:543-568 | The staged run with hash joins has the rows of the naive one, or raises if and only if a condition does on a row that reaches it |
| BaseScan.LookUpIsFilter | leafdb/engine.py:681-692 | An index lookup is a filter of the table, in table order |
| BaseScan.ConjunctTests | leafdb/planner.py:132-149 | The conjunct behind a shortcut keeps exactly the rows with its value |
| BaseScan.RestrictedMeaning | leafdb/planner.py:132-149 | Starting from the rows that one conjunct keeps gives the rows of the query |
| BaseScan.RunSelect | leafdb/executor.py:543-568 | The whole planned run, with key search or index scan: the rows of the query, or an exception exactly as said |
| BaseScan.ScanFinds | leafdb/executor.py:652-667 | Key search and index scan find exactly the base rows with the value of the conjunct |
| BaseScan.RightJoinDiffers | leafdb/planner.py:86-114 | One row in each table, RIGHT JOIN, a condition on the base table: pushdown gives a row too many |
| OuterPushdown.OuterFilterIff | leafdb/executor.py:720-727 | For RIGHT and FULL joins, filtering the left rows before and the joined rows after give the same rows if and only if every right row that no passing row matches is matched by none and the condition holds of the missing part |
| OuterPushdown.OneOuterJoin | leafdb/planner.py:86-114 | The same for a query with one such join and a condition on the base table |
| Exceptions.TotalHasValue | leafdb/executor.py:197-417 | Equality, connectives, IS NULL and IN never raise on rows that fit |
| Exceptions.ScanNeverRaises | leafdb/executor.py:543-568 | A query whose conditions are of that kind and compile raises neither as planned nor unoptimised, whatever the rows |
| Exceptions.PlanRaisesAlone | leafdb/executor.py:555-568 | A query that raises as planned and answers unoptimised |
| Agreement.PlainSites | leafdb/executor.py:335-346 | The unoptimised run raises if and only if ON does on some pair of joined rows, or a conjunct does at its stage on a row that some joined row extends without a False conjunct in front |
| Agreement.PlanSites | leafdb/executor.py:543-568 | The planned run raises if and only if a conjunct or ON does on a row that the scan finds, whose earlier conjuncts are True and, for ON, whose keys are the same |
| Agreement.RaiseAlone | leafdb/executor.py:543-568 | The planned run raises alone if and only if a conjunct does on a row it gets to, while a False conjunct cuts every joined row that extends a raising one and ON never raises; the unoptimised run raises alone if and only if every raising row is kept away by the scan, an earlier conjunct or different keys |
| Agreement.OutcomesAgree | leafdb/executor.py:543-568 | So for the result of the planned run, from whatever scan |
| Agreement.OneTable | leafdb/executor.py:543-562 | Without joins the planned run never raises alone; the two agree if and only if WHERE does not compile, raises on no row, or raises after True conjuncts only on a row that the scan finds |
| Agreement.KeySearchAnswers | leafdb/executor.py:652-667 | WHERE a.x < text AND a.x = 7 with primary key x and the row 1: the key search answers, a full scan raises |
| Parser.Parser.Next | leafdb/sqlparse.py:253-257 | The cursor advances by one and never leaves the end |
| Parser.Parser.ParseExpression | leafdb/sqlparse.py:529-530 | What is read is what the tokens up to the cursor say; and whatever tokens say in front of one that does not go on with it is read, with the cursor behind it |
| Parser.Parser.ParseOr | leafdb/sqlparse.py:532-536 | The loops and calls of the parser compute the grammar function, and the cursor stands behind what was read |
| Parser.Parser.ParsePredicate | leafdb/sqlparse.py:549-583 | The same for predicates: IS NULL, BETWEEN, IN, LIKE, comparisons and the dangling NOT |
| Parser.Parser.ParsePrimary | leafdb/sqlparse.py:608-647 | The same for literals, columns, aggregate calls and parentheses |
| Grammar.ParseOr | leafdb/sqlparse.py:529-647 | Parsing ends on every token list, behind where it began and before the end |
| Language.Sound | leafdb/sqlparse.py:529-647 | At every level, an expression that is read is said there by the tokens read: every operator by one of its spellings, signs, NOT, predicates, calls, and parentheses that close |
| Language.Complete | leafdb/sqlparse.py:529-647 | At every level, whatever is said in front of a token that does not go on with it is read, with any parentheses, both spellings of <>, unary plus and keywords as names |
| Language.ParsesWhatIsSaid | leafdb/sqlparse.py:529-647 | So an expression is read exactly where it is said |
| Language.SaysOnlyOne | leafdb/sqlparse.py:529-647 | The grammar is unambiguous: tokens say at most one expression |
| PrintParse.Chain | leafdb/sqlparse.py:532-597 | Chains of operators of one level are read from the left |
| PrintParse.WrapParses | leafdb/sqlparse.py:529-647 | An operand is read back at any level, with parentheses only where its level is too loose |
| PrintParse.RoundTrip | leafdb/sqlparse.py:529-647 | Every expression the grammar can say, printed with the fewest parentheses, parses back to itself with all tokens used |
| Parser.ParsePrinted | leafdb/sqlparse.py:529-647 | And the parser does so |
| Index.AddedExact | leafdb/engine.py:694-700 | Adding a row to an exact index of the other rows makes it exact |
| Index.RemovedExact | leafdb/engine.py:702-712 | Removing one keeps it exact |
| Index.IndexedTable.Insert | leafdb/engine.py:557-566 | INSERT keeps every index exact, or fails on a row id that is there |
| Index.IndexedTable.Update | leafdb/engine.py:593-596 | UPDATE of a row keeps every index exact |
| Index.IndexedTable.Delete | leafdb/engine.py:606-611 | DELETE of a row keeps every index exact |
| Index.IndexedTable.CreateIndex | leafdb/engine.py:464-482 | A new index is exact |
| Index.IndexedTable.Lookup | leafdb/engine.py:681-692 | An index lookup is the filtered table scan in the same order |
| Index.SelectIsLookUp | leafdb/executor.py:665-666 | It is the lookup that the planned scan speaks of |
| Index.SelectIsFindPk | leafdb/executor.py:654-664 | And the key search is the one it speaks of |
| Index.IndexedTable.Candidates | leafdb/engine.py:615-651 | Whatever shortcut is taken, no row that WHERE keeps is missing |
| Index.IndexedTable.MatchingRows | leafdb/engine.py:615-655 | The rows are those of a full scan with the whole WHERE, in the same order; no exception where the full scan has none |
| Index.IndexedTable.DeleteWhere | leafdb/engine.py:601-613 | DELETE removes exactly the rows WHERE keeps, counts them, and keeps every index exact |
| Index.IndexedTable.UpdateWhere | leafdb/engine.py:570-599 | UPDATE reassigns exactly the rows WHERE keeps, from their old values, counts them, and keeps every index exact |
| Order.LeastFirst | leafdb/engine.py:687 | The least element first, in a sorted set and in the part of it that is wanted |

## Left out

- BTree.BTree.Load: without the node cache, as if every load decoded the page; that is what the code does as long as no page is stale in the sense of NodeCache, which models inserts into one leaf, searches and rollbacks with the cache.
- StoredRuns.ExecuteAndSearch: without the node cache too; a search in memory after a failed operation is in NodeCache.
- NodeCache.RunAndRollBack: one leaf; borrows and merges of cached nodes are left out.
- BTree.BTree.Insert: keys are integers; the TypeError for others, statistics and `stats` are left out. Page numbers stay below the mark 0xFFFFFFFF.
- BTree.BTree.RangeScan: the scan is a list, not a lazy generator that sees later changes.
- BTree.BTree.Descend: the copy in native/src/core.cpp, which takes next_leaf 0 for the end of the chain, is not modelled apart from the checksum.
- Recovery.RecoverFile: the copy in native/src/core.cpp extends the file before each write and reads a commit payload without looking at its length; not modelled.
- Pager.Pager.Flush: called outside transactions only; the pool capacity is at least one; the order in which rollback re-inserts pages is left open.
- Session.Session.Commit: the page count fits 32 bits, as the frame format demands; file system errors, fsync and the catalog page are left out.
- Steps.Run: one session. A run ends at a commit with more pages than a frame can say, and at a checkpoint after a rolled-back write, which may lose pages (Session.CommittedPageLost); what a page read outside a transaction after such a rollback shows is left open.
- DurableTree.InsertRow: one tree operation as a statement, without the catalog page that every writing statement also writes and without the node cache.
- DurableTree.DeleteRow: the same.
- Reader.ReadSession.Refresh: the session's data file is its own; writers must neither evict nor flush while other sessions are open. Reloading the catalog and the indexes is left out.
- Several writers, opening on a non-empty log beside a writer, and other processes: the code makes no claim that could be proved.
- BaseScan.RunSelect: INNER and LEFT joins, WHERE conjuncts that are Boolean, no Boolean literal, no LIKE and no division; RIGHT and FULL joins are in OuterPushdown, for one join. Grouping, aggregates, DISTINCT, LIMIT and projection are left out.
- Evaluate.CompileRefinesEval: LIKE, division and floating point are not modelled; the values are NULL, Booleans, integers and strings.
- Semantics.EvaluatedBinary: without division.
- Semantics.CompiledBinary: without division.
- Index.IndexedTable.MatchingRows: conditions without LIKE and division.
- Index.IndexedTable.UpdateWhere: assignments are a function of the row; coercion, encoding and the row size limit are part of it. A statement that fails half-way is undone by the rollback of Session.
- Sort.OrderBy: the built-in stable sort is modelled as an insertion sort with its stability, reversed or not.
- PrintParse.RoundTrip: over tokens; the tokenizer, the sign of number literals and statements other than expressions are left out.
- Parser.Parser.ParseCall: error messages are left out.
- `bulk_load`, `vacuum`, the free list, the primary key fast path, catalog text, the row codec and type coercion: easy beside the rest, or without a property that holds.
