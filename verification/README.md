# A small relational database: model and proofs

This project models a small database server written in C++ and proves properties of the model. The
server keeps tables in memory, enforces unique indexed columns with a B\*+ tree in a file of fixed-size
pages, answers SELECT, UPDATE and DELETE with WHERE conditions, saves tables to files and carries out
requests one after the other on a worker thread.

- **The index** (`IndexTypes`, `IndexLayout`, `TreeModel`, `TreeSteps`, `TreeMoves`, `LeafMoves`, `TreeSearch`,
  `TreeSize`, `BStarPlusIndex`, `TreeFacts`). `BStarPlusIndex` is a class whose methods read nodes from the bytes
  of a file, edit them in memory and write them back in the order of the C++ methods, with the same mutual
  recursion along the path. Its invariant `Valid()` says that the pages hold a tree: keys in ascending order, all
  leaves at one depth, no page shared, exact separators, intact links between leaves, every page at least half
  full, and a metadata page that agrees with the fields. Insertion and erasure refine a map; a range is read
  along the leaves. Between two writes the tree is not in order, so the proofs speak of a tree with a hole
  (`Ctx`) and of a family of children of which some are in memory only (`Family`); each write turns one such
  picture into the next.
- **Pages and bytes** (`ByteCodec`, `NodeCodec`, `DiskManager`). Nodes and metadata as bytes, both ways, and pages
  in one file. The index runs over this file; opening it again gives the same index.
- **Tables and queries** (`Values`, `Table`, `Queries`, `QueryEngine`). Every index of a table is exactly the map
  from the values of its column to the ids of their rows. SELECT, UPDATE and DELETE find the rows on which
  the condition is true (`Satisfied`), whether they use an index or scan all rows.
- **WHERE conditions** (`ConditionSyntax`, `ConditionGrammar`, `ConditionParser`, `ConditionMeaning`). The parser
  relinks nodes on the heap. It reads exactly the expressions of the grammar, and the structure that it builds
  has the usual meaning of AND and OR exactly under a condition on the expression. What a token means is said of the
  token (`StandsAt`), what a comparison says of a row in the order of keys (`Queries.Holds`), and
  `Queries.ParsedSelects` leads from the tokens of the condition to the rows of the result.
- **The asynchronous executor** (`ExecutorModel`, `AsyncExecutor`). A state machine whose steps are what happens
  under one lock. Its properties hold in every run, that is, in every interleaving of submitters, worker and
  destructor: which snapshots are stored, and whose answer each of them holds. The methods of
  `AsyncExecutor` are the steps.
- **Persistence** (`StringPool`, `TableFile`, `TablePersistence`). A table saved and loaded into a pool that may hold
  other strings under other ids means the same.

Exceptions are results (`KeyRejected`, `Failed(...)`, `None`, `null`). A precondition states what a caller has to
see to, or one of the limits listed under "Left out".

## Findings

Six properties do not hold for all inputs. In each case the exact condition is proved.

- **Indexed strings of more than 256 bytes or with a NUL.** Validation accepts them (`TableStorage.LongStringAccepted`
  is an input with 257 bytes), the row is stored, and then the index throws (storage/src/table.cpp:122-148). Table
  and indexes agree after an insertion, an update or the attachment of an index exactly if that does not happen
  (`Table.Insert`, `Table.Update`, `Table.AttachIndex`). Inside the index a string that is too long looks like a page
  that is too full (index/src/bstarplus_tree_index.cpp:392-399), and a split is begun. `BStarPlusIndex.Insert` says
  exactly when this leaves the index in order: when the string belongs to the page that is written first, since
  then nothing has been written when the exception is raised. Otherwise a leaf links to a page that is empty, and
  entries are lost.
- **WHERE conditions regrouped.** A chain of three or more operands that starts with a bare comparison and has the
  other operator within an inner operand is regrouped: `a OR b AND c OR d` is evaluated as `a OR (b AND (c OR d))`
  (server/parser/src/parser.cpp:218-250). `ConditionMeaning.ParsedMeaning` has both directions,
  `ConditionMeaning.ChainRegrouped` the example, `ConditionMeaning.RepeatsCanAgree` the reason why the exact
  condition asks for different comparisons.
- **BETWEEN with a column as upper bound.** Index access takes the name of that column for a literal
  (executor/src/query_engine.cpp:384-392). In an integer column a name is no number, so the statement fails
  (`Queries.ColumnBoundFails`) although a full scan can find rows (`Queries.ColumnBoundHits` says when). In a string
  column rows can be missed. Let the greatest value be 256 times the byte 255, or, if the upper column has an index,
  too, 255 times that byte and a byte 254: the greatest string with a greater one in the upper column. Rows that the
  table can hold are missed exactly if the upper column is another string column, the lower bound is a string that
  does not lie above the greatest value, and the name of the upper column lies below it
  (`Queries.ColumnBoundMisses`). For a given table, SELECT and DELETE say that their result is that of a full scan
  exactly if none of its rows is missed (`QueryEngine.Misses`).
- **Literals that are no keys.** `id = 'abc'` and `id = NULL` throw if `id` is an integer column with an index, where
  a full scan selects no row (`Queries.NoKeyNoRow`); so does a single comparison of a literal with an unknown column,
  even on an empty table. `CollectCandidateRows` has these exceptions in both directions (`BadBounds`,
  `NamesNoColumn`).
- **The offset of the last page.** The check in `page_offset` does not count the page of metadata; for page
  2^51 - 1 the offset overflows (index/src/DiskManager.cpp:66-75, `DiskStorage.CheckedOffsets`). The model has
  pages up to the one before.
- **The next row id after loading.** It is one more than the largest id, in 64 bits (storage/src/table.cpp:409-411):
  if the last id of all has been given away, it starts again at 1 (`TablePersistence.SavedIsLoaded`).

The minimum of two thirds that `min_leaf_key_count` and `min_internal_key_count` suggest is not an invariant: nodes
are half full at least (`TreeFacts.Occupancy`).

## Model

Paths are relative to the root of the repository.

| member | source | states |
|---|---|---|
| `BStarPlusTree.BStarPlusIndex.Insert` | index/src/bstarplus_tree_index.cpp:1354-1402 | Insertion refines map insertion: a key of the other kind and a present key are reported and change nothing; a string that cannot be written is reported exactly when it has more than 256 bytes or a NUL and is not present; otherwise the contents gain exactly this pair and all invariants hold again, the metadata page included. After the report of an unwritable string the index is still valid with the same contents exactly if the string is not too long, or the index was empty, or the string would have come into the page that the split writes first |
| `BStarPlusTree.BStarPlusIndex.Erase` | index/src/bstarplus_tree_index.cpp:1404-1460 | Erasure refines map deletion: true exactly if the key was present, the contents are the old ones without it, all invariants hold again after every borrow, merge, redistribution and shrinking of the root, and nothing changes otherwise |
| `BStarPlusTree.BStarPlusIndex.Find` | index/src/bstarplus_tree_index.cpp:1462-1494 | The result is that of looking the key up in the map; as many pages are read as the height, and the last one is that of the leaf at which find_leaf arrives |
| `BStarPlusTree.BStarPlusIndex.FindLeaf` | index/src/bstarplus_tree_index.cpp:496-519 | The path has as many pages as the height, the leaf at its end is the one that the separators lead to, all keys to its left are smaller and all to its right greater than the key sought |
| `BStarPlusTree.BStarPlusIndex.RangeSearch` | index/src/bstarplus_tree_index.cpp:1497-1515 | The records of exactly the entries with keys in the closed range, in ascending key order, read along the chain of leaves |
| `TreeSearch.InRangeMeaning` | index/src/bstarplus_tree_index.cpp:1497-1515 | The range contains exactly the entries with keys between the bounds, both included, and is in ascending order |
| `BStarPlusTree.BStarPlusIndex.constructor` | index/src/bstarplus_tree_index.cpp:361-378 | A file without a key kind becomes a valid empty index of the given kind, and its metadata page says so |
| `BStarPlusTree.BStarPlusIndex.Reopen` | index/src/bstarplus_tree_index.cpp:361-378 | Whatever operations have been completed, an index opened over the bytes they left has the same kind, contents and map, and is valid |
| `BStarPlusTree.BStarPlusIndex.ReadNode` | index/src/bstarplus_tree_index.cpp:384-386 | Reading a page of a valid index never fails and gives the node written last |
| `BStarPlusTree.BStarPlusIndex.WriteNode` | index/src/bstarplus_tree_index.cpp:388-390 | Every node ever written is well shaped, fits its page and has writable keys, so that write_node does not throw; the page holds the node afterwards, other pages and the metadata are unchanged |
| `BStarPlusTree.BStarPlusIndex.TryWriteNode` | index/src/bstarplus_tree_index.cpp:388-390 | A node that fits by count is written exactly if all its keys can be; otherwise the file is unchanged |
| `BStarPlusTree.BStarPlusIndex.SubtreeMinKey` | index/src/bstarplus_tree_index.cpp:401-417 | The smallest key of the subtree |
| `BStarPlusTree.BStarPlusIndex.LeftmostLeafPageId` | index/src/bstarplus_tree_index.cpp:419-431 | The page of the first leaf of the subtree |
| `BStarPlusTree.BStarPlusIndex.RebuildInternalKeys` | index/src/bstarplus_tree_index.cpp:433-447 | The separators become the smallest keys of the children, as the pages hold them at that moment |
| `BStarPlusTree.BStarPlusIndex.PropagateSubtreeMinChange` | index/src/bstarplus_tree_index.cpp:449-478 | After a change of the smallest key below a page the one separator above that shows it is corrected, however far up it is, and the tree has exact separators again |
| `BStarPlusTree.BStarPlusIndex.PromoteSingleChildRoot` | index/src/bstarplus_tree_index.cpp:480-494 | A root with one child gives way to it; leaves and entries stay the same, the height drops by one and the first leaf is right |
| `BStarPlusTree.BStarPlusIndex.InsertIntoParent` | index/src/bstarplus_tree_index.cpp:521-572 | Two halves of the root come under a new root with the exact separator; the height grows by one |
| `BStarPlusTree.BStarPlusIndex.SplitLeaf` | index/src/bstarplus_tree_index.cpp:574-646 | A leaf with one entry too many, in memory: afterwards the pages hold a tree with the same entries in order and intact links, at any depth of recursion |
| `BStarPlusTree.BStarPlusIndex.TryGiveToRightLeaf` | index/src/bstarplus_tree_index.cpp:648-684 | Either the last entry goes to the next leaf and the tree is in order again, or nothing is written and the next leaf is full |
| `BStarPlusTree.BStarPlusIndex.TryGiveToLeftLeaf` | index/src/bstarplus_tree_index.cpp:686-722 | Either the first entry goes to the leaf before and the tree is in order again, or nothing is written and that leaf is full |
| `BStarPlusTree.BStarPlusIndex.SplitLeafPair` | index/src/bstarplus_tree_index.cpp:768-838 | Two full leaves and one entry become three leaves, none too full or too empty, linked in order; the parent is rebuilt or split in its turn |
| `BStarPlusTree.BStarPlusIndex.RedistributeLeafPair` | index/src/bstarplus_tree_index.cpp:724-766 | Two leaves share out their entries evenly and the separators up to the root are exact |
| `BStarPlusTree.BStarPlusIndex.TryRedistributeInternalWithRight` | index/src/bstarplus_tree_index.cpp:869-903 | Either the children are shared with the next node and the tree is in order again, or nothing is written and that node is full |
| `BStarPlusTree.BStarPlusIndex.TryRedistributeInternalWithLeft` | index/src/bstarplus_tree_index.cpp:905-939 | Either the children are shared with the node before and the tree is in order again, or nothing is written and that node is full |
| `BStarPlusTree.BStarPlusIndex.RedistributeInternalPair` | index/src/bstarplus_tree_index.cpp:840-867 | Two internal nodes share out their children evenly and the separators up to the root are exact |
| `BStarPlusTree.BStarPlusIndex.SplitInternalPair` | index/src/bstarplus_tree_index.cpp:941-989 | Two full internal nodes and one child become three, none too full or too empty; the parent is rebuilt or split in its turn |
| `BStarPlusTree.BStarPlusIndex.SplitInternal` | index/src/bstarplus_tree_index.cpp:991-1054 | An internal node with one child too many, in memory: afterwards the pages hold a tree with the same leaves; the recursion ends because the path gets shorter |
| `BStarPlusTree.BStarPlusIndex.HandleInternalAfterChildRemoved` | index/src/bstarplus_tree_index.cpp:1056-1083 | A node that has lost a child, in memory: afterwards the pages hold a tree with the same leaves and exact separators |
| `BStarPlusTree.BStarPlusIndex.FixLeafUnderflow` | index/src/bstarplus_tree_index.cpp:1085-1215 | An underfull leaf, in memory, borrows from or merges with a neighbour: afterwards the pages hold a tree with the same entries in order and intact links; the exception for a leaf without a neighbour is unreachable |
| `BStarPlusTree.BStarPlusIndex.FixInternalUnderflow` | index/src/bstarplus_tree_index.cpp:1217-1352 | An underfull internal node, in memory, borrows from or merges with a neighbour, up to the root: afterwards the pages hold a tree with the same leaves; the exceptions are unreachable |
| `BStarPlusTree.BStarPlusIndex.SplitRejected` | index/src/bstarplus_tree_index.cpp:768-838 | Two leaves with a key that cannot be written: the first third is written, linked to a page that is new, exactly if the key is not in it; otherwise no page changes |
| `TreeFacts.SizeBoundsHeight` | index/src/bstarplus_tree_index.cpp:113-131 | In every valid index the size is the number of keys, and from height 2 on at least 2 * 113 * 127^(h-2) for integer keys and 2 * 8 * 8^(h-2) for strings |
| `TreeFacts.Occupancy` | index/src/bstarplus_tree_index.cpp:113-131 | Every leaf is at the same depth; every node but the root is at least half full and not overfull |
| `TreeFacts.SeparatorsExact` | index/src/bstarplus_tree_index.cpp:433-478 | At every level each separator is the smallest key below the child to its right and greater than all keys below the children to its left |
| `TreeFacts.ChainVisitsLeaves` | index/src/bstarplus_tree_index.cpp:628-638 | Following the next-page links from first_leaf_page_id visits the leaves of the tree in key order, each once, and nothing else, however long one goes on |
| `TreeFacts.PagesHoldTree` | index/src/bstarplus_tree_index.cpp:384-390 | The bytes of the page of any subtree decode to its top node |
| `TreeFacts.KeysAreWritable` | index/src/bstarplus_tree_index.cpp:171-226 | All keys of a valid index can be written |
| `TreeFacts.LowTree` | index/src/DiskManager.cpp:177-199 | No index whose pages have file offsets is higher than 52, so that the height fits its field |
| `KeyOrder.KeyLessIsRank` | index/src/bstarplus_tree_index.cpp:159-169 | The comparison of two keys of one kind is a strict total order, embedded in the real numbers; byte strings compare as unsigned bytes |
| `KeyOrder.LexMeaning` | index/src/bstarplus_tree_index.cpp:159-169 | The first byte in which two strings differ decides, and a string comes before those that it is the start of |
| `NodeCodec.SerializeNode` | index/src/bstarplus_tree_index.cpp:248-290 | The page is written exactly for well shaped nodes of writable keys whose reckoned size fits; its bytes are header, keys, payload, zeros |
| `NodeCodec.DeserializeNode` | index/src/bstarplus_tree_index.cpp:292-355 | The loops over the page read what the format says, with the same rejections of damaged pages |
| `NodeCodec.DecodedExactly` | index/src/bstarplus_tree_index.cpp:292-355 | Exactly which pages are read: those of one page size with the magic number, the version and a known type, whose counts go together and whose keys and payload lie within the page |
| `NodeCodec.NodeBack` | index/src/bstarplus_tree_index.cpp:248-355 | Reading a written page gives the node back |
| `NodeCodec.KeyBack` | index/src/bstarplus_tree_index.cpp:204-246 | A written key is read back, the padding of strings removed |
| `NodeCodec.NodeLayout` | index/src/bstarplus_tree_index.cpp:248-290 | Where a page has what: each field of the header at its offset, keys from byte 32 on, strings with zeros up to 256 bytes, then the records or children, then zeros |
| `ByteCodec.LittleEndian` | index/src/bstarplus_tree_index.cpp:19-44 | Byte i of a number is its digit i to the base 256 |
| `NodeCodec.FitsByCount` | index/src/bstarplus_tree_index.cpp:80-124 | A well shaped node fits exactly if its key count is at most the maximum for its kind, although records are reckoned with ten bytes and written with eight |
| `DiskStorage.DiskPageManager.constructor` | index/src/DiskManager.cpp:21-55 | A new file has no pages and empty metadata |
| `DiskStorage.DiskPageManager.AllocatePage` | index/src/DiskManager.cpp:77-98 | A zero page is appended; all other pages and the metadata are unchanged |
| `DiskStorage.DiskPageManager.ReadPage` | index/src/DiskManager.cpp:100-116 | A page reads back what was written to it last; no other page can be read |
| `DiskStorage.DiskPageManager.WritePage` | index/src/DiskManager.cpp:118-134 | Exactly this page is replaced; other pages and the metadata are unchanged; wrong ids and sizes are rejected |
| `DiskStorage.DiskPageManager.ReadMetadata` | index/src/DiskManager.cpp:151-175 | The metadata written last |
| `DiskStorage.DiskPageManager.WriteMetadata` | index/src/DiskManager.cpp:177-199 | The metadata can be read back and no page changes |
| `DiskStorage.Open` | index/src/DiskManager.cpp:21-55 | A file opens exactly if it has at least one page and a whole number of pages, and then shows its pages and metadata |
| `DiskStorage.PageWritten` | index/src/DiskManager.cpp:66-75 | Pages do not overlap each other or the metadata page |
| `DiskStorage.CheckedOffsets` | index/src/DiskManager.cpp:66-75 | Of the page ids that pass the check exactly one has an offset that does not fit std::streamoff |
| `Values.CompareIsKeyOrder` | storage/src/value.cpp:59-76 | Values compare exactly if neither is NULL and both have one type, then as their index keys, and equal exactly if they are the same |
| `Values.KeyOfMatches` | storage/src/value.cpp:52-57 | A value fits a column type exactly if its key fits the index of that type |
| `StringPools.StringPool.Intern` | storage/src/string_pool.cpp:19-38 | The id stands for the string; ids given before keep their meaning, a known string keeps its id, and no two ids have one string |
| `StringPools.StringPool.Get` | storage/src/string_pool.cpp:40-45 | The string of a known id and nothing for an unknown one; in a pool that is in order, that string has this id, so that Get undoes Intern |
| `StringPools.StringPool.Serialize` | storage/src/string_pool.cpp:48-59 | The loop writes the count and each string with its length |
| `StringPools.StringPool.Deserialize` | storage/src/string_pool.cpp:61-78 | Any stream is read, also one that ends too early: then the last string is filled up with zeros, and those after it are empty; the pool is in order exactly if the strings are different |
| `StringPools.PoolBack` | storage/src/string_pool.cpp:48-78 | Reading a written pool gives its strings back |
| `StringPools.PoolRestored` | storage/src/string_pool.cpp:48-78 | Round trip: from the bytes of a pool in order all of it is restored, the ids by string included |
| `StringPools.ComparedByMeaning` | storage/src/value.cpp:59-86 | Comparing values that hold pool ids is comparing their strings, and equal ids mean equal strings |
| `TableStorage.Table.Insert` | storage/src/table.cpp:122-130 | A row is stored under the next id, last in the order and in every index, exactly if it has the right arity and types, no NULL where none may be and no value twice in an indexed column; otherwise the first fault is reported and nothing changes. The table agrees with its indexes again exactly if no index rejects a value, which happens exactly for indexed strings of more than 256 bytes or with a NUL |
| `TableStorage.Table.Update` | storage/src/table.cpp:132-148 | Exactly one cell changes if the changed row is acceptable; the faults are those of validation; table and indexes agree again exactly if the index takes the new value |
| `TableStorage.Table.Erase` | storage/src/table.cpp:150-162 | Exactly this row disappears from rows, order and indexes |
| `TableStorage.Table.InsertRow` | storage/src/table.cpp:193-219 | Each value supplied is stored as given, each one not supplied is the default of its column if there is one, and NULL otherwise; the first column without value and default that is NOT NULL is reported, and otherwise the verdict of validation |
| `TableStorage.Table.Validate` | storage/src/table.cpp:96-120 | The verdict on the row: no fault, or that of the first column that has one |
| `TableStorage.VerdictMeaning` | storage/src/table.cpp:96-120 | The verdict in terms of the fields of columns and rows: arity; then in the first column with a fault NULL where none may be, a value of the wrong type, or in an indexed column a value that another row has |
| `TableStorage.Table.ValueExistsInColumn` | storage/src/table.cpp:71-94 | Asked of the index or of the rows, the answer is the same: whether another row has the value |
| `TableStorage.Table.AttachIndex` | storage/src/table.cpp:416-432 | Any index is attached to any column, with or without rebuild; rebuilding stops at the first value that is NULL, no key, or taken. Table and index agree afterwards exactly if the column is an indexed one of the type of the index, all its values can be keys, and the index has held exactly the rows that have not been entered |
| `TableStorage.Table.NotifyIndexesInsert` | storage/src/table.cpp:164-171 | All indexes mirror the rows with the new one, unless one of them rejects its value |
| `TableStorage.Table.NotifyIndexesUpdate` | storage/src/table.cpp:173-182 | The index of the column mirrors the changed rows, or has lost the old value without taking the new one |
| `TableStorage.Table.NotifyIndexesErase` | storage/src/table.cpp:184-190 | All indexes mirror the remaining rows |
| `TableStorage.Table.NoAgreement` | storage/src/table.cpp:122-130 | A table with a row whose indexed value cannot be a key does not agree with its index |
| `TableStorage.LongStringAccepted` | storage/src/table.cpp:96-120 | Validation accepts a string of 257 bytes in an indexed column, which the index cannot take |
| `QueryExecution.QueryEngine.Select` | executor/src/query_engine.cpp:206-231 | The rows are exactly those on which the condition is true, by the meaning of its comparisons, none twice, unless index access misses one, which it never does with literal bounds; they come in the order of the table or of the keys of the index. Index access misses none exactly if the rows are those of a full scan. An unknown column in a single comparison and a literal that is no key always make it fail; otherwise it fails with literal bounds exactly if a comparison cannot be evaluated on some row |
| `QueryExecution.QueryEngine.Update` | executor/src/query_engine.cpp:153-177 | After success each row on which the condition was true, unless index access misses it, has in each cell the value of the last assignment whose column that is, and the old one if there is none; if any row was assigned to, every assignment names a column. Failed or not, rows on which the condition was false are as before, and the others have some of the assignments, from the first one on. Each kind of failure has its reason; table and indexes agree again exactly if no index has rejected a value |
| `QueryExecution.RowAfterUnique` | executor/src/query_engine.cpp:169-172 | There is one such row: what Update says of the cells leaves no choice |
| `QueryExecution.QueryEngine.Delete` | executor/src/query_engine.cpp:179-204 | A successful statement removes exactly the rows on which the condition is true, exactly if index access misses none, and never another one; a failed one changes nothing, and it fails as SELECT does |
| `QueryExecution.QueryEngine.CollectCandidateRows` | executor/src/query_engine.cpp:370-406 | An index is used exactly for a single EQ or BETWEEN of its column with a literal, and then the candidates come in the order of its keys; the exceptions come exactly for an unknown column and for a literal that is no key; the candidates contain every selected row, each once, exactly if index access misses none |
| `Queries.SimpleMeaning` | executor/src/query_engine.cpp:292-333 | A comparison is true exactly as its operator means it: both operands of one type and not NULL, with their keys equal, different, less, greater, at most or at least; BETWEEN from the lower bound on and below the upper one; LIKE for two strings by the matcher. An exception comes exactly for an unknown column or a pattern that does not compile |
| `Queries.LiteralMeaning` | executor/src/query_engine.cpp:335-357 | A literal is NULL for the text NULL, the number if all of the text is one that 64 bits can hold, and the text otherwise |
| `Queries.LiteralKeyMeaning` | executor/src/query_engine.cpp:359-368 | A literal is a key unless it is NULL: in an integer column the number that the text starts with, and none if it starts with none |
| `Values.StollMeaning` | executor/src/query_engine.cpp:335-368 | What std::stoll reads: spaces, at most one sign and all the digits that follow, if 64 bits can hold the number |
| `Values.StollBack` | executor/src/query_engine.cpp:335-368 | Round trip: spaces, a sign and the decimal digits of a number are read as the number and the length of the text, exactly if 64 bits can hold it |
| `QueryExecution.RangeRows` | executor/src/query_engine.cpp:384-392 | What the index finds between two keys are exactly the rows with values there, each once |
| `Queries.EvaluatedByComparisons` | executor/src/query_engine.cpp:272-290 | A condition raises an exception exactly if one of its comparisons does, and else it is what its structure says of their meanings |
| `Queries.SelectedWithin` | executor/src/query_engine.cpp:292-333 | A row that the half-open BETWEEN or EQ selects has its key in the closed range that the index reads |
| `Queries.IndexedEvaluates` | executor/src/query_engine.cpp:335-357 | On the index path no row raises an exception |
| `Queries.ColumnBoundMisses` | executor/src/query_engine.cpp:384-392 | With a column as upper bound, index access can miss a row that a table with these indexes can hold exactly if the bounds are comparable, the lower one does not lie above the greatest value that leaves room above it, and the name of the upper column, read as a literal, lies below that value |
| `Queries.ColumnBoundHits` | executor/src/query_engine.cpp:292-333 | Which of these conditions select a row that a table can hold at all: exactly those with comparable bounds and a lower one that does not lie above that greatest value |
| `Queries.ColumnBoundFails` | executor/src/query_engine.cpp:359-368 | In an integer column a name that does not start like a number is no key, so that index access fails |
| `Queries.HoldableIsAccepted` | storage/src/table.cpp:96-130 | The rows that these results speak of pass validation, and every index can take their values |
| `Queries.NoKeyNoRow` | executor/src/query_engine.cpp:359-368 | Where a literal is no key, and index access fails, no row is selected |
| `Queries.WhereMeaning` | executor/src/query_engine.cpp:272-333 | The structure of an expression that keeps its meaning is evaluated to that meaning |
| `Queries.SelectedMeaning` | executor/src/query_engine.cpp:206-231 | The rows selected are those on which every comparison can be evaluated and the condition is true; a scan fails exactly if a comparison cannot be evaluated on some row |
| `Queries.ParsedSelects` | executor/src/query_engine.cpp:206-231 | From tokens to rows: for tokens that spell an expression that keeps its meaning, the rows found are exactly those on which the expression is true, and no row raises an exception exactly if every comparison can be evaluated on every row |
| `ConditionParser.Parser.ParseCondition` | server/parser/src/parser.cpp:138-140 | Null exactly if no expression stands at the position; otherwise the only expression that does, all of its tokens consumed, and nodes that form the structure for it. What stands there is said of the tokens: identifiers are columns, literals and NULL are not, and each operator has its token |
| `ConditionParser.Parser.ParseOrCondition` | server/parser/src/parser.cpp:142-151 | The loop builds the structure of the expression that the grammar reads here |
| `ConditionParser.Parser.ParseAndCondition` | server/parser/src/parser.cpp:153-162 | The loop builds the structure of the expression that the grammar reads here |
| `ConditionParser.Parser.ParsePrimaryCondition` | server/parser/src/parser.cpp:164-216 | A comparison or a parenthesized condition, or an error exactly if neither is there |
| `ConditionParser.Parser.CombineConditions` | server/parser/src/parser.cpp:218-250 | Relinking the nodes in place gives the combined structure, without sharing or losing a node |
| `ConditionParser.Parser.AppendToLast` | server/parser/src/parser.cpp:232-240 | The walk to the last node links the right side there and leaves the rest of the chain alone |
| `ConditionGrammar.ReadIsSpelled` | server/parser/src/parser.cpp:142-216 | Soundness: what is read is an expression of its level, spelled by the words passed over, and not continued by the next word |
| `ConditionGrammar.SpelledIsRead` | server/parser/src/parser.cpp:142-216 | Completeness: an expression that is spelled and not continued is read |
| `ConditionGrammar.OnlyOne` | server/parser/src/parser.cpp:138-140 | At most one expression is written at a position |
| `ConditionGrammar.SpellsMeaning` | server/parser/src/parser.cpp:118-216 | The tokens that spell an expression, one by one, are those whose words do: an operand is an identifier, which names a column, a literal with its own text, or NULL, and nothing else; each operator has one token |
| `ConditionGrammar.AndBindsTighter` | server/parser/src/parser.cpp:142-162 | Three comparisons or parenthesized expressions joined by one OR and one AND, in either order, are read as an OR of which the AND is one operand |
| `ConditionMeaning.ParsedMeaning` | server/parser/src/parser.cpp:218-250 | For an expression with different comparisons, the structure has the usual meaning for all truth values exactly if in every chain of three or more operands that starts with a bare comparison the inner operands use only the operator of the chain |
| `ConditionMeaning.MeaningKept` | server/parser/src/parser.cpp:218-250 | The condition suffices for every expression, with repeated comparisons too |
| `ConditionMeaning.MeaningLost` | server/parser/src/parser.cpp:218-250 | Where the condition fails there are truth values for which the structure gives the wrong answer |
| `ConditionMeaning.ChainRegrouped` | server/parser/src/parser.cpp:218-250 | a OR b AND c OR d is evaluated as a OR (b AND (c OR d)) |
| `ExecutorModel.StepKeeps` | executor/src/async_executor.cpp:63-84 | Every step keeps the invariant, and no request that has been forgotten comes back |
| `ExecutorModel.UnfinishedExactly` | executor/src/async_executor.cpp:133-151 | In every interleaving the unfinished snapshots are exactly the queued ones, all pending, and at most one in flight; requests finish in the order of submission |
| `ExecutorModel.TerminalStable` | executor/src/async_executor.cpp:153-196 | A finished snapshot never changes while it is stored |
| `ExecutorModel.NeverBack` | executor/src/async_executor.cpp:198-215 | A forgotten request never comes back, and only finished ones are forgotten |
| `ExecutorModel.Retention` | executor/src/async_executor.cpp:217-241 | The stored snapshots are always those of the last submissions, all unfinished ones among them, and no more than the limit or the most that were ever unfinished together; once any has been forgotten, no fewer than the limit |
| `ExecutorModel.OwnAnswer` | executor/src/async_executor.cpp:153-215 | In every run a stored snapshot tells what has been done with the one job that was submitted with its id: a finished one is completed with the text, or failed with the message, with which the worker finished that very job, and has the times of its submission, start and completion |
| `ExecutorModel.WaitMeansFinished` | executor/src/async_executor.cpp:119-131 | For a submitted request the wait predicate holds exactly if it has finished |
| `ExecutorModel.StopDrains` | executor/src/async_executor.cpp:52-61 | When the worker has gone, every submission has been carried out |
| `ExecutorModel.StopEnds` | executor/src/async_executor.cpp:52-61 | Once stopped, the worker can always make a step until it leaves, and it leaves after exactly three steps for each queued job, those left for the job in hand, and one more |
| `AsyncExecution.AsyncExecutor.SubmitRequest` | executor/src/async_executor.cpp:63-84 | The job comes last in the queue, its snapshot is pending, with the time of submission and neither result nor error; of the other snapshots at most the oldest finished one is forgotten, none is changed |
| `AsyncExecution.AsyncExecutor.TakeJob` | executor/src/async_executor.cpp:133-151 | One step of the state machine: the first job is taken, or the worker leaves when it is told to stop and nothing is queued |
| `AsyncExecution.AsyncExecutor.StartJob` | executor/src/async_executor.cpp:153-166 | The request is still stored; its snapshot becomes running, with the time of its start, and no other changes |
| `AsyncExecution.AsyncExecutor.FinishJob` | executor/src/async_executor.cpp:166-196 | The request is still stored; an answer makes its snapshot completed with that result and no error, an exception failed with that error and no result; it has the time of completion and keeps those of submission and start, and no other snapshot changes |
| `AsyncExecution.AsyncExecutor.PruneOldSnapshots` | executor/src/async_executor.cpp:217-241 | At the limit a finished snapshot with the earliest finish time is removed, if there is a finished one |
| `AsyncExecution.AsyncExecutor.GetQueuePosition` | executor/src/async_executor.cpp:247-260 | The number of jobs ahead of the first one with this id |
| `AsyncExecution.AsyncExecutor.GetStatus` | executor/src/async_executor.cpp:96-108 | The stored snapshot; the queue position is given exactly for queued requests and is the place among all submissions, less those finished or in flight |
| `AsyncExecution.AsyncExecutor.GetResult` | executor/src/async_executor.cpp:110-117 | Ready exactly if the request has finished, and then the answer with which the worker has finished it, in whatever run led here: the result only of a completed and the error only of a failed one |
| `TableFiles.TableBack` | storage/src/table.cpp:224-414 | The parts of a written table file are read back, each where the one before it ends |
| `TableFiles.FileExample` | storage/src/table.cpp:224-298 | The file of one table, byte by byte |
| `TablePersistence.Save` | storage/src/table.cpp:224-296 | The loops write the file of the table |
| `TablePersistence.Load` | storage/src/table.cpp:298-414 | The loops read the file, enter its strings into the pool without disturbing it, translate every id and check the names of the columns; None exactly where the code throws |
| `TablePersistence.CheckNames` | storage/include/sql/schema.h:84-103 | The loop finds whether no column name is empty and none occurs twice |
| `TablePersistence.SavedIsLoaded` | storage/src/table.cpp:224-414 | Round trip over different pools: a saved table, loaded into a pool with any strings, has the same name, columns, defaults, order and rows by meaning; its next id follows the largest one and is 1 if there is none or that one was the last possible id; it lies above all ids exactly if the last possible id has not been given away |
| `TablePersistence.FirstCounts` | storage/src/table.cpp:362-411 | Of several rows with one id in a file the first one counts; the file is rejected exactly if some cell has a string id that the file does not have |
| `TablePersistence.LoadedOrderOk` | storage/src/table.cpp:409-411 | If the next id lies above all ids, the loaded order is ascending and below it again |

## Left out

- BStarPlusTree.BStarPlusIndex.Insert: requires room for the pages that splitting can allocate (one for each level and one more); failed allocation, and with it what is left half-way, is not modelled.
- BStarPlusTree.BStarPlusIndex.InsertIntoParent: models the branch for the root; the other one is never entered, because every node below the root has a neighbour to be split with, which the proofs of `SplitLeafBeside` and `SplitInternalBeside` show.
- BStarPlusTree.BStarPlusIndex.PromoteSingleChildRoot: the case that keeps the height at 1, and in `MergeLeafPair` the case that moves the first leaf, do not arise, which is proved where they would.
- BStarPlusTree.BStarPlusIndex.Reopen: takes a file that an index has left; its kind is read from the file, so the kind passed to the C++ constructor plays no part. Damaged files are modelled for single nodes (`DeserializeNode`) and for file sizes (`Open`) only.
- TableStorage.Table.Insert: requires that ids are left; the wrap-around of `next_id_` after 2^64 - 1 rows is not modelled.
- TableStorage.Table.AttachIndex: requires room for the pages of rebuilding, and an index that is not attached elsewhere, as the unique pointer of `attach_index` ensures. `detach_index` is not modelled.
- TablePersistence.Load: an exception leaves the strings read so far in the pool, as in C++; the model says of it only that earlier ids keep their meaning.
- ConditionParser.Parser.ParseCondition: a syntax error is `null`; the texts and line numbers of errors are not modelled.
- Queries.EvaluatedByComparisons: LIKE is an arbitrary partial function of two strings (`Matcher`), not std::regex.
- ExecutorModel.UnfinishedExactly: request ids are fresh, finish times increase strictly, and nobody submits to an executor that is being destroyed (`Admissible`); clocks, UUIDs and the handler are parameters, and the time-out of waitUntilFinished is not modelled.
- std::sort, std::lower_bound and std::upper_bound are functions (`SortByKey`, `LowerBound`, `UpperBound`) with the promises of the standard library.
- The keys of a node are immutable sequences that a method replaces; updates within a vector are not told apart from its replacement.
- I/O errors, partial writes, flushing, and renaming a file into place.
- The lexer, and the parser's code for statements other than conditions: the model starts from tokens.
- INSERT, CREATE and DROP statements, SELECT lists, JSON output, aggregates, and how the server classifies and logs queries.
- Databases as directories of table files and index files: an index file that does not belong to its table is not modelled.
- Sockets, clients and the adapter between values and index keys, which only converts.
- Machines that store numbers with the most significant byte first: the C++ code copies numbers as they lie in memory, and the model has the order of x86 (`ByteCodec.LittleEndian`).
