# PyHybridDB storage and query core, in Dafny

This project models the core of PyHybridDB, a small hybrid SQL/NoSQL
database written in Python, and proves properties of the model.

- **Log-structured key/value path.**
  - The write-ahead log frames each record as `KeyLen(u32) ValLen(u32) Key Value`
    (`Wal`).
  - The MemTable is a key-to-value map in which `None` is a tombstone
    (`MemTables`). Every put is logged before it is applied.
  - Sorted string tables use `KLen Key VLen Value` records, an index rebuilt by
    scanning, a set standing in for a bloom filter, and a bisection lookup
    (`SSTables`).
  - The LSM engine builds `container:str(id)` keys, keeps its table list
    newest first, flushes when the MemTable is full, keeps a per-container
    list of ids that compares them by Python `==`, and answers point reads and prefix scans (`LsmEngine`).
    The read semantics of the layered store are in `LsmReads`.
- **B-tree index** (`BTree`): insert with pre-emptive splits, search, range
  search and delete over nodes holding key, value and child lists.
- **LRU cache** (`Lru`): an ordered dictionary with move-to-end, evict-first,
  and hit and miss counters.
- **File storage engine** (`FileEngine`):
  - the 16-byte block header (type, length, additive checksum, reserved);
  - the per-container offset lists;
  - the index registry;
  - the transaction log with commit and rollback.
- **Query processor** (`Query`): the document predicate (equality and `$gt`,
  `$lt`, `$gte`, `$lte`, `$ne`), and `execute`, which picks an index or scans
  and then filters.
- **Collections** (`Collections`): the update operators `$set`, `$unset` and
  `$inc`, `insert_one`/`insert_many`, `update_one`, `delete_many`,
  `count_documents`, and the `$match`/`$project`/`$limit`/`$sort` pipeline.
- **Tables** (`Tables`): schema validation, case-insensitive type checks,
  the auto-increment id, delete, count and index creation.
- **Consistent-hash ring** (`HashRing`): sorted ring points, successor lookup
  with wrap-around, and distinct-successor replica lists.

Supporting modules:

- `Bytes`: byte strings, little-endian `u32`, and Python's ordering of strings.
- `Packing`: the value serialiser, as an abstract invertible encoding.
- `Documents`: JSON-like values and dictionaries as ordered field lists, with
  Python's equality and ordering.
- `Containers`: the offset list, records and indexes of one container, as a
  table or a collection uses them.
- `Sequences`: removal of every occurrence of an element, shared by the
  cache's recency order and the ring's point list.
- `Wrappers`: `Option` and `Result`.

Objects whose fields the Python code updates in place are classes:
`Wal.WAL`, `MemTables.MemTable`, `LsmEngine.Engine`, `BTree.BTreeIndex`,
`Lru.Cache`, `FileEngine.Engine`, `HashRing.Ring`, `Containers.Store`,
`Collections.Collection` and `Tables.Table`. Each has `modifies` clauses and
states its whole new state. Documents and records are values (`Documents.Dict`),
not shared objects. Byte formats, comparisons and read semantics are
functions, and the properties that relate several operations are lemmas.

Files are in-memory byte sequences; a missing file is `None`. The hash
function, uuid generation, JSON text and msgpack bytes are parameters or
abstract functions.

## Model

Every lemma carries `{:induction false}` and is proved by its own body.
Dafny's automatic induction is switched off throughout because, with the Z3
4.16 solver, its induction hypothesis for a lemma whose `requires` apply a
function to a sequence of datatype values (such as `SSTables.IndexOf` of the
entries of a written table) can let the solver derive `false` from a
satisfiable context. With the hypothesis gone, no proof here has it in scope.

| member | source | states |
|---|---|---|
| Bytes.U32 | pyhybriddb/storage/lsm/wal.py:25 | `struct.pack('I')` as four little-endian bytes; reading them back gives the number |
| Bytes.LERoundTrip | pyhybriddb/storage/lsm/wal.py:59 | decoding the little-endian bytes of any number that fits gives the number back |
| Bytes.ReadU32 | pyhybriddb/storage/lsm/sstable.py:39 | `struct.unpack('I')` of four bytes is below 2^32 |
| Bytes.ReadU32Prefix | pyhybriddb/storage/lsm/sstable.py:35-39 | the header read at an offset depends only on its first four bytes, whatever follows |
| Bytes.LessIrreflexive | pyhybriddb/storage/lsm/memtable.py:40 | Python's string order, on bytes, never puts a string before itself |
| Bytes.LessAsymmetric | pyhybriddb/storage/lsm/memtable.py:40 | the string order is asymmetric |
| Bytes.LessTransitive | pyhybriddb/storage/lsm/memtable.py:40 | the string order is transitive |
| Bytes.LessTotal | pyhybriddb/storage/lsm/memtable.py:40 | any two different strings are ordered one way or the other, so sorting is well defined |
| Bytes.PrefixLess | pyhybriddb/storage/lsm/sstable.py:96 | a proper prefix sorts before its extensions |
| Bytes.MinimumExists | pyhybriddb/storage/lsm/memtable.py:40 | every non-empty set of keys has a least key, the first one `sorted` emits |
| Bytes.AsciiWellFormed | pyhybriddb/storage/file_engine.py:94 | ASCII bytes always decode as UTF-8 |
| Bytes.WellFormedConcat | pyhybriddb/storage/file_engine.py:94 | two texts that decode still decode when put together |
| Packing.Pack | pyhybriddb/storage/lsm/wal.py:23 | `msgpack.packb` gives a non-empty encoding that `unpackb` inverts |
| Packing.Unpack | pyhybriddb/storage/lsm/wal.py:62 | `msgpack.unpackb` as this model abstracts it: the empty string fails, every non-empty string unpacks, and `None` comes exactly from the nil byte |
| Wal.Frame | pyhybriddb/storage/lsm/wal.py:21-25 | an entry's frame is 8 header bytes plus the key and the packed value |
| Wal.FrameParts | pyhybriddb/storage/lsm/wal.py:25 | the frame holds the key length, the value length, the key and the value at their places |
| Wal.LogSnoc | pyhybriddb/storage/lsm/wal.py:19-32 | the log of a sequence of appends is the concatenation of their frames |
| Wal.DecodeFrame | pyhybriddb/storage/lsm/wal.py:54-64 | decoding one frame followed by more bytes yields its entry, then what the rest decodes to |
| Wal.DecodeLogAppend | pyhybriddb/storage/lsm/wal.py:47-65 | decoding the log of any entries followed by more bytes yields those entries in order, then the rest |
| Wal.RecoverLog | pyhybriddb/storage/lsm/wal.py:19-32 | round trip: recovery of a log written by appends, with fewer than 8 trailing bytes, yields exactly the appended entries in order |
| Wal.Recover | pyhybriddb/storage/lsm/wal.py:47-65 | the recovery loop yields `[]` for a missing file and otherwise the decoded log; it stops cleanly at a short header and reports an undecodable value |
| Wal.WAL.constructor | pyhybriddb/storage/lsm/wal.py:14-17 | the log opens on the existing file with offset 0 |
| Wal.WAL.Append | pyhybriddb/storage/lsm/wal.py:19-32 | returns the offset before the write, appends exactly the frame, and advances the offset by `8 + len(key) + len(value)` |
| Wal.WAL.Clear | pyhybriddb/storage/lsm/wal.py:38-44 | afterwards the file is empty and the offset is 0 |
| MemTables.ApplyLastWins | pyhybriddb/storage/lsm/memtable.py:49-53 | replaying entries leaves, for each key, the value of its last entry |
| MemTables.ApplyUntouched | pyhybriddb/storage/lsm/memtable.py:49-53 | replaying entries that do not name a key leaves that key as it was |
| MemTables.ApplyDomain | pyhybriddb/storage/lsm/memtable.py:49-53 | after replay, the keys are the old keys plus the replayed ones |
| MemTables.ApplyFresh | pyhybriddb/storage/lsm/memtable.py:52-53 | an entry whose key is not replayed again keeps its value |
| MemTables.LookupSorted | pyhybriddb/storage/lsm/memtable.py:40 | in a strictly ascending item list, each item's key looks up its own value |
| MemTables.LookupAbsent | pyhybriddb/storage/lsm/memtable.py:24-26 | a key not in the items looks up as `None`, the same as a tombstone |
| MemTables.DecodedEncodable | pyhybriddb/storage/lsm/wal.py:59-64 | every entry recovered from a log fits the frame format again |
| MemTables.SortedItems | pyhybriddb/storage/lsm/memtable.py:40 | `sorted(data.items())`: strictly ascending keys, one item per key, each with its value, and replaying them rebuilds the map |
| MemTables.MemTable.constructor | pyhybriddb/storage/lsm/memtable.py:12-16 | an empty map, size 0, the given capacity, and a WAL on the given file |
| MemTables.MemTable.Put | pyhybriddb/storage/lsm/memtable.py:18-22 | the entry's frame is appended to the WAL, the key is mapped to the value and no other key changes, and size grows by 1 even on an overwrite |
| MemTables.MemTable.Get | pyhybriddb/storage/lsm/memtable.py:24-26 | returns the stored value; an absent key and a tombstone both give `None` |
| MemTables.MemTable.Delete | pyhybriddb/storage/lsm/memtable.py:28-31 | `put(key, None)`: the tombstone is logged and kept in the map, and size grows by 1 |
| MemTables.MemTable.Flush | pyhybriddb/storage/lsm/memtable.py:37-47 | returns the old contents as strictly ascending items, one per key, then empties the map, zeroes size and clears the WAL |
| MemTables.MemTable.Recover | pyhybriddb/storage/lsm/memtable.py:49-53 | on a decodable log the map becomes the old map with the log's entries replayed in order; on an undecodable one the error is reported and the map is unchanged |
| SSTables.Record | pyhybriddb/storage/lsm/sstable.py:59-67 | a record is 8 length bytes plus the key and the packed value |
| SSTables.RecordParts | pyhybriddb/storage/lsm/sstable.py:63-67 | a record is `u32(klen)`, then the key, then `u32(vlen)`, then the value |
| SSTables.EncodeTableSnoc | pyhybriddb/storage/lsm/sstable.py:59-67 | the file is the concatenation of the items' records, in input order |
| SSTables.ScanStep | pyhybriddb/storage/lsm/sstable.py:35-51 | the index scan records `(key, offset)` and moves to `offset + 4 + k_len + 4 + v_len` |
| SSTables.ScanLast | pyhybriddb/storage/lsm/sstable.py:42-53 | a truncated last record still has its key recorded, and then the scan stops |
| SSTables.KeySetMembers | pyhybriddb/storage/lsm/sstable.py:43-44 | the bloom set holds exactly the indexed keys |
| SSTables.Load | pyhybriddb/storage/lsm/sstable.py:15-53 | opening a table keeps the file and builds the index and bloom set by scanning it |
| SSTables.Write | pyhybriddb/storage/lsm/sstable.py:55-69 | the file written is the items' records in order, and the table is loaded from it |
| SSTables.ScanEncoded | pyhybriddb/storage/lsm/sstable.py:23-53 | scanning a written file indexes every item, in order, at its record's start |
| SSTables.RecordLocated | pyhybriddb/storage/lsm/sstable.py:43-51 | the offset indexed for the i-th item is where the i-th record lies in the file |
| SSTables.WrittenIndex | pyhybriddb/storage/lsm/sstable.py:56-69 | round trip: loading a written file gives index keys equal to the item keys in order, offsets at the record starts, and the same key set in the bloom filter |
| SSTables.BisectLeft | pyhybriddb/storage/lsm/sstable.py:96 | `bisect_left` stays within its bounds |
| SSTables.BisectLeftSplits | pyhybriddb/storage/lsm/sstable.py:96 | on ascending keys, everything before the result is smaller than the key and nothing from it on is |
| SSTables.BinarySearchIndex | pyhybriddb/storage/lsm/sstable.py:91-99 | a returned index holds the key |
| SSTables.BinarySearchFinds | pyhybriddb/storage/lsm/sstable.py:91-99 | on ascending keys, an index is returned iff the key is present, and it is the first that holds it |
| SSTables.ReadAt | pyhybriddb/storage/lsm/sstable.py:101-109 | a value is read only from an offset with a header inside the file |
| SSTables.ReadRecordAt | pyhybriddb/storage/lsm/sstable.py:101-109 | reading at a record's offset gives the record's value |
| SSTables.Get | pyhybriddb/storage/lsm/sstable.py:71-89 | a key outside the bloom set gives `None` without a search, and a found value belongs to an indexed key |
| SSTables.GetWritten | pyhybriddb/storage/lsm/sstable.py:71-109 | on a table written from strictly ascending items, `get` returns exactly the value the items give the key, or `None` |
| LsmEngine.StorageKey | pyhybriddb/storage/lsm_engine.py:103 | the storage key starts with `container:` |
| LsmEngine.FirstColon | pyhybriddb/storage/lsm_engine.py:103 | the first colon of a storage key ends the container name |
| LsmEngine.ContainerOfKey | pyhybriddb/storage/lsm_engine.py:172-182 | when neither container name contains a colon, a key `other:id` that starts with the prefix `c:` belongs to container `c` |
| LsmEngine.NestedContainerLeaks | pyhybriddb/storage/lsm_engine.py:172-182 | with a colon in the name the prefix is not enough: the scan of container `c` returns the record stored under `c:d:id` |
| LsmEngine.TrackOnce | pyhybriddb/storage/lsm_engine.py:109-114 | `if rec_id not in offsets: append`: afterwards some listed id `==` the new one, the list stays free of `==` pairs, only the id may be added, and a scalar id is listed exactly once |
| LsmEngine.RemoveFirstMultiset | pyhybriddb/storage/lsm_engine.py:152-158 | `list.remove` takes away one item, the first that `==` the id, and nothing else |
| LsmEngine.RemoveFirstNoDup | pyhybriddb/storage/lsm_engine.py:152-158 | on a list free of `==` pairs, removal keeps it so and keeps every id not `==` the removed one; a scalar id is then no longer listed |
| LsmEngine.RemoveFirstAbsent | pyhybriddb/storage/lsm_engine.py:156-158 | when no listed id `==` the id, the `in` guard fails and the list is left as it is |
| LsmEngine.RemoveFirstOrder | pyhybriddb/storage/lsm_engine.py:152-158 | removal cuts out the first item `==` the id and keeps the order of the rest |
| LsmEngine.FirstMatch | pyhybriddb/storage/lsm_engine.py:156-158 | the index `list.remove` takes: the first item `==` the id, or the length when there is none |
| LsmEngine.FirstMatchListed | pyhybriddb/storage/lsm_engine.py:156-158 | `id in list` holds exactly when `list.remove` finds an index |
| LsmEngine.NoDupCount | pyhybriddb/storage/lsm_engine.py:109-114 | on a list free of `==` pairs, a scalar id occurs once when listed and not at all otherwise |
| LsmEngine.IdsComparedByValue | pyhybriddb/storage/lsm_engine.py:92-114 | keys use `str(id)` but the list compares ids with `==`: `1` then `'1'` share a key and are both listed, `1` then `True` have two keys and are listed once, and removing `'1'` leaves `1` listed |
| LsmEngine.SharedListDelete | pyhybriddb/core/collection.py:133-152 | as written, the loop over the shared list deletes by the record's own `_id` (or `id`) and takes the first `==` id out of the list it walks; it only ever extends what it has kept and deleted, and looks at no more ids than remain past its position |
| LsmEngine.SharedListSound | pyhybriddb/core/collection.py:140-151 | as written over this engine, `delete_many` keeps only ids whose record it found not matching, and passes to `delete_record` only the `_id` of a record it found matching |
| LsmEngine.SharedListSkips | pyhybriddb/core/collection.py:140-151 | as written over this engine, two matching records listed as `[a, b]` under the id they are deleted by: only `a` is deleted, the count is 1 and the stored list is empty |
| LsmEngine.SharedListOtherKey | pyhybriddb/core/collection.py:140-151 | as written over this engine, two matching documents listed by `id` 1 and 2 with `_id` "a" and "b": both are looked at, the count is 2 and the stored list is empty, but the tombstones land on `c:a` and `c:b`, not on the records' keys |
| LsmEngine.SnapshotDelete | pyhybriddb/core/collection.py:133-152 | corrected: walking a copy of the list, every listed id is looked at once, the matching ones are deleted and the rest kept, each in listing order, and the two together are the whole list |
| LsmEngine.TableNameOrder | pyhybriddb/storage/lsm_engine.py:67 | below a million, table names sort in the order of their numbers |
| LsmEngine.TableNameOrderBreaks | pyhybriddb/storage/lsm_engine.py:57-67 | `1000000.sst` sorts before `999999.sst`, so after a million flushes the reload order is wrong |
| LsmEngine.SortDescending | pyhybriddb/storage/lsm_engine.py:59 | `sorted(..., reverse=True)` lists exactly the names, strictly descending |
| LsmEngine.DescendingUnique | pyhybriddb/storage/lsm_engine.py:59 | two strictly descending lists of the same names are equal |
| LsmEngine.NewestFirstCons | pyhybriddb/storage/lsm_engine.py:67-84 | the newest-first table list after a flush is the new name in front of the old list |
| LsmEngine.ReloadOrder | pyhybriddb/storage/lsm_engine.py:57-84 | below a million flushes, reloading the directory gives the same newest-first order as the flushes built |
| LsmEngine.LoadSSTables | pyhybriddb/storage/lsm_engine.py:57-60 | loads every `.sst` file, names strictly descending, each table read from its own file |
| LsmEngine.FlushNameReused | pyhybriddb/storage/lsm_engine.py:57-67 | a directory holding only `000001.sst` loads one table, and the next flush name, `000001.sst`, is already one of the loaded tables' files |
| LsmEngine.FlushSameReads | pyhybriddb/storage/lsm_engine.py:62-84 | a flushed MemTable in front of the tables reads and scans like the MemTable over them |
| LsmEngine.WriteMemTable | pyhybriddb/storage/lsm_engine.py:68-82 | the new table holds the MemTable's items, the MemTable and its WAL are emptied, and reads are unchanged |
| LsmEngine.ScanIndexInto | pyhybriddb/storage/lsm_engine.py:176-182 | the loop over one table's index applies its entries for the prefix, as the scan specification says |
| LsmEngine.ScanAllTables | pyhybriddb/storage/lsm_engine.py:175-182 | the loop over the tables, oldest first, matches the scan specification |
| LsmEngine.ScanMemTable | pyhybriddb/storage/lsm_engine.py:185-190 | the MemTable is laid over the tables' results: values set, tombstones removed |
| LsmEngine.Engine.constructor | pyhybriddb/storage/lsm_engine.py:37-41 | `initialize`: an empty MemTable on the WAL file, the tables loaded newest first, and no metadata |
| LsmEngine.Engine.Open | pyhybriddb/storage/lsm_engine.py:43-49 | the tables are reloaded and a new MemTable replays the WAL; an undecodable log is reported |
| LsmEngine.Engine.Flush | pyhybriddb/storage/lsm_engine.py:62-84 | nothing happens when size is 0; otherwise a table named after the prior count goes in front, the MemTable and WAL are emptied, and reads are unchanged |
| LsmEngine.Engine.TrackId | pyhybriddb/storage/lsm_engine.py:109-114 | the id is appended unless some listed id `==` it, the table entry checked before the collection entry |
| LsmEngine.Engine.UntrackId | pyhybriddb/storage/lsm_engine.py:152-158 | the first listed id `==` the id is removed from the container's list, the table entry checked before the collection entry |
| LsmEngine.Engine.Insert | pyhybriddb/storage/lsm_engine.py:86-119 | a record with neither `id` nor `_id` fails unchanged; otherwise its id (`id` first) is returned, reads of `container:str(id)` see the new value, the id is appended unless some listed id `==` it, and a full MemTable is flushed |
| LsmEngine.Engine.Delete | pyhybriddb/storage/lsm_engine.py:147-161 | a tombstone is put at `container:str(id)`, reads see that key as deleted, the first listed id `==` the id leaves the container's list, and a full MemTable is flushed |
| LsmEngine.Engine.ReadRecordAsWritten | pyhybriddb/storage/lsm_engine.py:121-141 | the probe loop as written: the MemTable's value if not `None`, else the first non-`None` table value, else `KeyError` |
| LsmEngine.Engine.ReadRecord | pyhybriddb/storage/lsm_engine.py:121-141 | the corrected probe: the newest layer holding the key decides, and a tombstone there means not found |
| LsmEngine.Engine.ScanTable | pyhybriddb/storage/lsm_engine.py:167-192 | the tables oldest to newest, then the MemTable, for keys with the container's prefix |
| LsmReads.Probe | pyhybriddb/storage/lsm/sstable.py:71-89 | the three-way probe agrees with `get`: absent, found with a value, or a read error |
| LsmReads.ProbeWritten | pyhybriddb/storage/lsm/sstable.py:71-109 | probing a written table finds exactly the keys of its items, with their values |
| LsmReads.ReadsAgreeUnlessDeleted | pyhybriddb/storage/lsm_engine.py:126-141 | the as-written and corrected reads differ only where the corrected read finds a tombstone |
| LsmReads.TablesAgree | pyhybriddb/storage/lsm_engine.py:132-139 | over the tables alone, the same holds |
| LsmReads.MergeNewest | pyhybriddb/storage/lsm_engine.py:172-192 | a key is in the merged scan iff it has the prefix and its newest layer holds a value, and that value is the one listed |
| LsmReads.OverlayWritten | pyhybriddb/storage/lsm_engine.py:176-182 | applying a written table's index entries is applying its items in order |
| LsmReads.StepAllOverlay | pyhybriddb/storage/lsm_engine.py:176-182 | applying strictly ascending items one by one equals laying their map over the results |
| LsmReads.ScanWrittenTable | pyhybriddb/storage/lsm_engine.py:176-182 | scanning a written table lays its contents over the results |
| LsmReads.FlushPreservesReads | pyhybriddb/storage/lsm_engine.py:62-84 | moving the MemTable into a new front table changes no read |
| LsmReads.FlushPreservesReadsAsWritten | pyhybriddb/storage/lsm_engine.py:62-84 | the same holds for the read as written |
| LsmReads.FlushPreservesScan | pyhybriddb/storage/lsm_engine.py:62-84 | moving the MemTable into a new front table changes no scan |
| LsmReads.NewestWritten | pyhybriddb/storage/lsm_engine.py:121-141 | over written tables, the read is decided by the newest layer that holds the key |
| LsmReads.ScanWritten | pyhybriddb/storage/lsm_engine.py:167-192 | over written tables, the scan is the merge of all layers with the newest winning |
| LsmReads.ScanMatchesRead | pyhybriddb/storage/lsm_engine.py:121-192 | a scan succeeds and lists a key iff it has the prefix and a point read finds it, with the same value |
| LsmReads.MergeOutcome | pyhybriddb/storage/lsm_engine.py:172-192 | the merged scan holds exactly the keys whose newest layer has a live value |
| LsmReads.TombstoneResurrects | pyhybriddb/storage/lsm_engine.py:126-141 | with `k = v` flushed and then deleted, the read as written returns `v`, while the corrected read reports it deleted and a scan omits it |
| BTree.SplitHalves | pyhybriddb/storage/index.py:82-108 | a full node splits into two well-formed halves of `order - 1` keys around its middle entry, in order |
| BTree.SplitChild | pyhybriddb/storage/index.py:73-108 | the middle key moves up at `index`, `keys[:mid]` stays left, `keys[mid+1:]` goes right, children split at `mid + 1`, and the entries are unchanged |
| BTree.InsertNonFull | pyhybriddb/storage/index.py:44-71 | inserting into a non-full subtree keeps it well-formed and puts the entry at a place where it fits the key order |
| BTree.InsertFits | pyhybriddb/storage/index.py:48-59 | inserting at such a place keeps the entries sorted |
| BTree.RemoveSorted | pyhybriddb/storage/index.py:162-179 | removing an entry keeps the entries sorted |
| BTree.FindIndex | pyhybriddb/storage/index.py:118-120 | the scan loop stops at the first key not less than the searched key |
| BTree.LookupMeaning | pyhybriddb/storage/index.py:110-126 | in a sorted tree, search finds a key iff it is stored, with a value stored under it |
| BTree.SearchNode | pyhybriddb/storage/index.py:114-126 | the recursive search is the lookup specification |
| BTree.InRangeMeaning | pyhybriddb/storage/index.py:143-144 | range results are exactly the entries with `start <= key <= end`, still in order |
| BTree.RangeNode | pyhybriddb/storage/index.py:134-154 | appends a subtree's entries in range, in order; it cannot fail on a tree with no key-less inner node |
| BTree.RangeRest | pyhybriddb/storage/index.py:150-154 | the last-child step completes the node's range results |
| BTree.RangeChild | pyhybriddb/storage/index.py:140-148 | the per-key step appends a child's range results |
| BTree.IndexOf | pyhybriddb/storage/index.py:165-166 | `keys.index(key)`: the first position of the key, or none |
| BTree.RemoveMax | pyhybriddb/storage/index.py:162-179 | taking out a subtree's largest entry keeps it well-formed and leaves the rest in order |
| BTree.RemoveKeyAt | pyhybriddb/storage/index.py:165-170 | removing an inner node's key (its predecessor takes its place) removes exactly that entry |
| BTree.DeleteFrom | pyhybriddb/storage/index.py:162-179 | corrected delete: found iff the key is stored, then exactly one entry with that key is removed, else the tree is unchanged |
| BTree.DeleteAsWritten | pyhybriddb/storage/index.py:162-179 | the delete as written keeps keys and values aligned, and changes nothing when the key is not found |
| BTree.SampleIndex | pyhybriddb/storage/index.py:110-126 | the order-2 tree with key 2 at the root over leaves holding 1 and 3, 4 is well-formed, sorted, and finds key 3 |
| BTree.DeleteAsWrittenLosesEntries | pyhybriddb/storage/index.py:165-170 | in that tree, deleting key 2 reports success, but key 3 is no longer found and the tree is malformed |
| BTree.BTreeIndex.constructor | pyhybriddb/storage/index.py:23-26 | an empty leaf root of the given order and size 0 |
| BTree.BTreeIndex.Insert | pyhybriddb/storage/index.py:28-42 | the tree stays well-formed and sorted, the entry is inserted at one place (duplicates included), and size grows by exactly 1 |
| BTree.BTreeIndex.Search | pyhybriddb/storage/index.py:110-112 | returns a value iff the key is stored, and the returned value is stored under that key |
| BTree.BTreeIndex.RangeSearch | pyhybriddb/storage/index.py:128-132 | returns exactly the entries with `start <= key <= end`, in key order; it can fail only on a tree with a key-less inner node |
| BTree.BTreeIndex.Delete | pyhybriddb/storage/index.py:156-160 | returns true iff the key is stored, then one entry with that key is removed and size drops by 1; otherwise nothing changes |
| BTree.BTreeIndex.Size | pyhybriddb/storage/index.py:181-183 | the size is the number of stored entries |
| BTree.BTreeIndex.Clear | pyhybriddb/storage/index.py:185-188 | an empty tree with size 0 |
| Sequences.Without | pyhybriddb/storage/cache.py:35-38 | removing a key from the recency order keeps every other key |
| Sequences.WithoutDistinct | pyhybriddb/storage/cache.py:35-38 | on distinct keys, removal shortens the order by one exactly when the key is present, and is a no-op otherwise |
| Lru.Touch | pyhybriddb/storage/cache.py:21-29 | `move_to_end` makes the key the most recent and keeps the others |
| Lru.TouchDistinct | pyhybriddb/storage/cache.py:21-29 | moving to the end keeps the keys distinct and adds the key only if it was absent |
| Lru.TouchFirst | pyhybriddb/storage/cache.py:29-33 | touching another key leaves the least recent key first |
| Lru.PutConsistent | pyhybriddb/storage/cache.py:26-33 | a put keeps the order and the entries in step, with at most `capacity` entries |
| Lru.InvalidateConsistent | pyhybriddb/storage/cache.py:35-38 | invalidation keeps the order and the entries in step |
| Lru.PutEffect | pyhybriddb/storage/cache.py:26-33 | a put sets the value and keeps the other values; only the least recent key can be evicted; an existing key keeps the key set; below capacity the key is added |
| Lru.Cache.constructor | pyhybriddb/storage/cache.py:11-15 | an empty cache with zero counters |
| Lru.Cache.Get | pyhybriddb/storage/cache.py:17-24 | a hit returns the value, counts a hit and makes the key most recent; a miss returns `None`, counts a miss and changes nothing else |
| Lru.Cache.Put | pyhybriddb/storage/cache.py:26-33 | the new order and entries are those of move-to-end, set and evict-first, with the effects listed under `PutEffect` |
| Lru.Cache.Invalidate | pyhybriddb/storage/cache.py:35-38 | only the key is removed, from both the entries and the order; an absent key is a no-op |
| Lru.Cache.Clear | pyhybriddb/storage/cache.py:40-44 | empties the cache and zeroes hits and misses |
| Lru.Cache.Stats | pyhybriddb/storage/cache.py:46-56 | the reported size is the entry count, at most the capacity, and hits plus misses is the number of `get` calls since the last clear |
| FileEngine.TypeField | pyhybriddb/storage/file_engine.py:77 | the type field is always 4 bytes |
| FileEngine.Checksum | pyhybriddb/storage/file_engine.py:84 | `sum(data) & 0xFFFFFFFF` fits in a u32 |
| FileEngine.CreateBlock | pyhybriddb/storage/file_engine.py:72-87 | 16 header bytes (type, u32 length, u32 checksum, four zero bytes) followed by the data |
| FileEngine.CreatedFields | pyhybriddb/storage/file_engine.py:76-86 | the type is NUL-padded to 4 bytes, and the length, the checksum and the data sit at their places |
| FileEngine.ParseBlock | pyhybriddb/storage/file_engine.py:89-105 | a block shorter than 16 bytes is rejected, then one whose type field is not well-formed UTF-8; an accepted block's type is its type field without NULs, and its data, the stated number of bytes after the header cut short where the block ends, has the stored checksum |
| FileEngine.PaddedWellFormed | pyhybriddb/storage/file_engine.py:76-77 | NUL padding keeps a well-formed type field well-formed |
| FileEngine.TypesWellFormed | pyhybriddb/storage/file_engine.py:112 | the block types the engine writes decode as UTF-8 |
| FileEngine.StripPadded | pyhybriddb/storage/file_engine.py:94 | stripping NULs undoes the NUL padding of a type without NULs |
| FileEngine.ParseCreated | pyhybriddb/storage/file_engine.py:72-105 | round trip: parsing a created block, whatever follows it, gives back the type (the UTF-8 text of at most four bytes without NUL) and the data |
| FileEngine.SumUpdate | pyhybriddb/storage/file_engine.py:84 | changing one byte changes the sum by the difference of the bytes |
| FileEngine.CorruptionDetected | pyhybriddb/storage/file_engine.py:100-103 | changing any single data byte of a block makes parsing fail: with a checksum mismatch, or with a decode error when the type field was cut inside a character |
| FileEngine.ReadBlock | pyhybriddb/storage/file_engine.py:161-165 | a read returns at most the requested number of bytes |
| FileEngine.ReadWritten | pyhybriddb/storage/file_engine.py:160-172 | a record appended as a DATA block reads back from its offset, whatever is appended later |
| FileEngine.ReadOtherType | pyhybriddb/storage/file_engine.py:168-169 | a block of any other type at the offset is refused, not returned as a record |
| FileEngine.ReadAtExtend | pyhybriddb/storage/file_engine.py:160-172 | appending to the file does not change what an existing block reads as |
| FileEngine.Engine.constructor | pyhybriddb/storage/file_engine.py:21-27 | an empty file, no metadata, no indexes, an empty log, and a cache of the given size |
| FileEngine.Engine.AppendBlock | pyhybriddb/storage/file_engine.py:112 | the block goes at the end of the file, and its offset is the old length |
| FileEngine.Engine.InsertRecord | pyhybriddb/storage/file_engine.py:107-134 | a DATA block is appended and reads back as the record, the record is cached, the offset joins the table's list (else the collection's), and one INSERT log entry is added |
| FileEngine.Engine.AddOffset | pyhybriddb/storage/file_engine.py:122-129 | the offset is appended to the table entry if there is one, else to the collection entry, else nowhere |
| FileEngine.Engine.ReadRecord | pyhybriddb/storage/file_engine.py:151-176 | a non-empty cached record is returned without parsing; otherwise the block is read, parsed and required to be DATA, and a successful read is cached |
| FileEngine.Engine.Remember | pyhybriddb/storage/file_engine.py:112-115 | the record is cached under its offset |
| FileEngine.Engine.CreateIndex | pyhybriddb/storage/file_engine.py:238-255 | an existing index changes nothing; otherwise the field is registered for the container with its order, and other containers are unchanged |
| FileEngine.Engine.LogTransaction | pyhybriddb/storage/file_engine.py:292-298 | one entry is appended to the transaction log |
| FileEngine.Engine.Commit | pyhybriddb/storage/file_engine.py:300-307 | one TLOG block holding the log's JSON is appended only if the log is non-empty, then the log is emptied |
| FileEngine.Engine.Rollback | pyhybriddb/storage/file_engine.py:309-311 | the log is emptied and nothing is written |
| HashRing.BisectRight | pyhybriddb/distributed/hashing.py:45 | `bisect.bisect`: every point before the result is at most the hash, and every point from it on is greater |
| HashRing.Insort | pyhybriddb/distributed/hashing.py:26 | `bisect.insort` keeps the list sorted and adds exactly one occurrence of the point |
| HashRing.WithoutSorted | pyhybriddb/distributed/hashing.py:37 | the corrected removal, every occurrence of the point taken out (`Sequences.Without`), keeps the list sorted |
| HashRing.PlaceStep | pyhybriddb/distributed/hashing.py:25-26 | placing a point keeps the sorted list and the ring's points in step |
| HashRing.UnplaceStep | pyhybriddb/distributed/hashing.py:36-37 | removing a point from both keeps them in step |
| HashRing.PlacedAll | pyhybriddb/distributed/hashing.py:23-26 | after the loop, the ring maps every placed point to the node and keeps the others |
| HashRing.UnplacedAll | pyhybriddb/distributed/hashing.py:30-37 | after the loop, the ring is the old ring without the node's points |
| HashRing.Assign | pyhybriddb/distributed/hashing.py:23-25 | adding a node maps its points to it and keeps every other point's owner |
| HashRing.LeastOf | pyhybriddb/distributed/hashing.py:47-48 | a non-empty ring has a smallest point, the one lookups wrap around to |
| HashRing.OwnerAfterAdd | pyhybriddb/distributed/hashing.py:21-50 | after `add_node(m)`, a key's owner is unchanged or is `m` |
| HashRing.OwnerAfterRemove | pyhybriddb/distributed/hashing.py:28-50 | removing a node changes no owner other than that node |
| HashRing.RemoveOnceLeavesStale | pyhybriddb/distributed/hashing.py:28-50 | a node added twice lists its point twice; after its removal, with a second node left in the ring, one copy stays in the list, `bisect` for a smaller hash lands on it and the ring no longer holds it |
| HashRing.WalkAt | pyhybriddb/distributed/hashing.py:63-64 | the replica walk visits `sorted_keys[(idx + i) % len]` at step i |
| HashRing.WalkCovers | pyhybriddb/distributed/hashing.py:63-65 | the walk visits every point of the ring |
| HashRing.OwnersOf | pyhybriddb/distributed/hashing.py:65 | each visited point yields its owner |
| HashRing.Ring.Points | pyhybriddb/distributed/hashing.py:23-24 | a node has one point per replica, none for a non-positive count |
| HashRing.Ring.constructor | pyhybriddb/distributed/hashing.py:12-19 | the ring is the one built by adding the given nodes in order (`Built`), and the list, sorted and in step, holds every node's points once per replica (`AllPoints`) |
| HashRing.Ring.BuiltKeys | pyhybriddb/distributed/hashing.py:17-26 | a point is on the built ring iff some listed node is given it |
| HashRing.Ring.BuiltOwner | pyhybriddb/distributed/hashing.py:17-26 | each point of the built ring is owned by the last listed node given it |
| HashRing.Ring.AddNode | pyhybriddb/distributed/hashing.py:21-26 | the node's points are mapped to it, other owners are kept, the list stays sorted, and it gains exactly the node's points |
| HashRing.Ring.PointsOf | pyhybriddb/distributed/hashing.py:30-33 | collects exactly the points the node owns |
| HashRing.Ring.RemoveNode | pyhybriddb/distributed/hashing.py:28-37 | corrected removal: the ring loses exactly the node's points, and the sorted list stays in step with it |
| HashRing.Ring.GetNode | pyhybriddb/distributed/hashing.py:39-50 | `None` on an empty ring; otherwise the owner of the first point greater than the hash, wrapping around to the smallest |
| HashRing.Ring.SuccessorIsOwner | pyhybriddb/distributed/hashing.py:44-50 | the point the bisection picks, with wrap-around, is the one whose owner `get_node` returns |
| HashRing.Ring.GetNodesForKey | pyhybriddb/distributed/hashing.py:52-74 | `[]` on an empty ring; otherwise exactly the first n distinct owners met walking from the key's successor and wrapping round (every owner met when n < 1 or fewer exist): distinct ring nodes, at most n for n >= 1, the first being `get_node`'s answer, and all owners when fewer than n are found |
| HashRing.Ring.CollectFrom | pyhybriddb/distributed/hashing.py:60-74 | the loop, started at list position idx, returns the first n owners met, each once, in the order first met |
| HashRing.FirstSeenMeaning | pyhybriddb/distributed/hashing.py:63-70 | the owners collected after i steps are exactly the owners of the first i points visited, each once |
| HashRing.FirstSeenPrefix | pyhybriddb/distributed/hashing.py:63-72 | what a shorter walk has collected is a prefix of what a longer walk collects, so stopping early keeps the first ones |
| HashRing.CutMeaning | pyhybriddb/distributed/hashing.py:60-74 | the first n owners met are distinct owners, at most n, start with the first owner met, and include every owner met when fewer than n exist |
| Query.OpsHoldIff | pyhybriddb/query/processor.py:88-98 | an operator dict holds iff every one of its comparisons holds |
| Query.Condition | pyhybriddb/query/processor.py:87-101 | a non-dict value matches iff it equals the document's value; a dict matches iff all its comparisons hold, unknown operators holding |
| Query.Matches | pyhybriddb/query/processor.py:76-103 | a match needs every non-`$` queried field present, and an error comes only from a comparison on a field the document has |
| Query.MatchesIff | pyhybriddb/query/processor.py:76-103 | a document matches iff it has every non-`$` queried field and satisfies its condition, so the empty query matches everything |
| Query.Plain | pyhybriddb/query/processor.py:79-80 | the query without its `$` entries keeps exactly the other entries |
| Query.OperatorKeysIgnored | pyhybriddb/query/processor.py:79-80 | `$` entries make no difference to a match |
| Query.SelfMatch | pyhybriddb/query/processor.py:99-101 | a document matches the query made of its own plain fields |
| Query.Filter | pyhybriddb/query/processor.py:64-70 | keeps exactly the documents that match, in order and each as often as it occurs; a comparison Python cannot make fails the query |
| Query.IndexField | pyhybriddb/query/processor.py:31-36 | the chosen field is a query key that is indexed and not `$`, every earlier query key is unindexed or a `$` key, and none is chosen only if no key qualifies |
| Query.Candidates | pyhybriddb/query/processor.py:38-61 | a full scan unless a usable index field with a plain value exists; then the lookup's error, nothing when the index finds no offset, and otherwise the record read at the found offset, or nothing when that read fails |
| Query.Execute | pyhybriddb/query/processor.py:14-70 | the result is exactly the candidates that match, in candidate order and each as often as it occurs among the candidates |
| Documents.Get | pyhybriddb/query/processor.py:82-85 | `dict.get` finds a value iff the key is present, and it is that key's value |
| Documents.GetAt | pyhybriddb/query/processor.py:82-85 | in a dict with distinct keys, each field's key gives its own value |
| Documents.Put | pyhybriddb/core/collection.py:99 | `d[k] = v` sets k to v and keeps the other keys |
| Documents.PutUnique | pyhybriddb/core/collection.py:99 | setting a key keeps the keys distinct |
| Documents.Remove | pyhybriddb/core/collection.py:96 | `pop(k, None)` removes k and keeps the other keys |
| Documents.Merge | pyhybriddb/core/collection.py:93-102 | `dict.update` takes each updated key's last value and keeps the other keys |
| Documents.MergeUnique | pyhybriddb/core/collection.py:93-102 | an update keeps the keys distinct |
| Documents.LastValueUnique | pyhybriddb/core/collection.py:93 | with distinct keys, a key's last value is its only value |
| Documents.EqualReflexive | pyhybriddb/query/processor.py:100 | every value equals itself |
| Documents.Cmp | pyhybriddb/query/processor.py:89-96 | Python comparison gives -1, 0 or 1, or a type error |
| Documents.CmpScalar | pyhybriddb/query/processor.py:89-96 | two numbers or two strings always compare, the comparison is 0 iff they are equal, and it is antisymmetric |
| Collections.Add | pyhybriddb/core/collection.py:99 | `+` adds two numbers; otherwise it succeeds only on two strings or two lists |
| Collections.UnsetAll | pyhybriddb/core/collection.py:94-96 | `$unset` removes exactly the listed fields and keeps the others |
| Collections.IncUntouched | pyhybriddb/core/collection.py:97-99 | `$inc` leaves unlisted fields unchanged |
| Collections.IncSets | pyhybriddb/core/collection.py:97-99 | `$inc` sets each listed field to its old value, or 0, plus the delta |
| Collections.StopsAtPlainKey | pyhybriddb/core/collection.py:100-103 | at the first non-operator key, the whole update is merged in and processing stops |
| Collections.ApplyUpdate | pyhybriddb/core/collection.py:89-103 | the update loop computes the updated document, or the failure of an operator Python cannot apply |
| Collections.SetOperands | pyhybriddb/core/collection.py:92-93 | `dict.update` with a list of `[key, value]` pairs sets what the dict of those fields sets; an empty string or list changes nothing; a non-empty string or a number fails |
| Collections.WithIdMeaning | pyhybriddb/core/collection.py:24-26 | `_id` is added, as the fresh uuid, only when absent, and nothing else changes |
| Collections.UpdateListsTwice | pyhybriddb/core/collection.py:58-64 | as written, the offset list after an update holds the new offset twice: at the document's place and at the end |
| Collections.Project | pyhybriddb/core/collection.py:180 | a projected document holds exactly the listed keys, `None` where the document lacks one |
| Collections.Stage | pyhybriddb/core/collection.py:172-187 | the first of `$match`, `$project`, `$limit`, `$sort` in a stage decides: the matching documents, one projection per document, a prefix, or a permutation; any other stage passes the documents through |
| Collections.ProjectAll | pyhybriddb/core/collection.py:180 | `$project` projects every document, keeping their number and order |
| Collections.Prefix | pyhybriddb/core/collection.py:182 | `results[:n]` with Python's slice rules is a prefix of the stated length |
| Collections.InsertSorted | pyhybriddb/core/collection.py:187 | inserting into a sorted list adds exactly the document |
| Collections.SortBy | pyhybriddb/core/collection.py:187 | a successful sort is a permutation of the input |
| Collections.SortOrdered | pyhybriddb/core/collection.py:183-187 | with comparable keys, `$sort` succeeds and orders by the key, descending iff the value is -1, as a permutation |
| Collections.MatchStage | pyhybriddb/core/collection.py:173-177 | `$match` keeps, in order and with their multiplicity, exactly the documents that match; it fails exactly when there are documents and the operand is not a dict or a comparison raises |
| Collections.PipelineBound | pyhybriddb/core/collection.py:172-187 | no sequence of stages yields more documents than it starts from |
| Collections.FreshMeaning | pyhybriddb/core/collection.py:36-38 | `insert_many` lists its documents at consecutive new offsets |
| Collections.StampedAt | pyhybriddb/core/collection.py:36-38 | the i-th stored document is the i-th input with its `_id` |
| Collections.IdsAt | pyhybriddb/core/collection.py:35-39 | the i-th returned id is the i-th stored document's `_id` |
| Collections.StoredAt | pyhybriddb/core/collection.py:36-38 | each new document is stored at its own offset |
| Collections.StoredBelow | pyhybriddb/core/collection.py:36-38 | the records already stored are kept |
| Collections.Collection.constructor | pyhybriddb/core/collection.py:14-20 | an index on `_id` is registered and nothing else changes |
| Collections.Collection.InsertOne | pyhybriddb/core/collection.py:22-31 | the document with its `_id` goes to a new offset at the end of the list, and its `_id` is returned |
| Collections.Collection.InsertMany | pyhybriddb/core/collection.py:33-39 | one id per document in input order, and the documents stored at consecutive new offsets |
| Collections.Collection.UpdateOne | pyhybriddb/core/collection.py:53-68 | corrected: true iff some listed document reads, matches and updates; then only the first such entry of the list is replaced by the new offset holding the updated document |
| Collections.Collection.DeleteMany | pyhybriddb/core/collection.py:133-152 | keeps the other offsets in their order, deletes the matching documents by `_id`, and returns how many were removed |
| Collections.Collection.Find | pyhybriddb/core/collection.py:41-46 | no query gives the full scan; otherwise the result is exactly the candidates `execute` picks that match, each as often as among the candidates, and a failed index lookup fails the call |
| Collections.Collection.CountDocuments | pyhybriddb/core/collection.py:154-161 | no query gives the length of the offset list; otherwise the number of documents `find` returns |
| Collections.Collection.Aggregate | pyhybriddb/core/collection.py:167-189 | the pipeline on a full scan never yields more documents than the collection lists |
| Containers.Kept | pyhybriddb/core/table.py:109-121 | a delete never lengthens the list |
| Containers.KeptMeaning | pyhybriddb/core/table.py:109-123 | the kept offsets are exactly those whose records are not deleted, in their order, and kept plus deleted is the old count |
| Containers.ScanOf | pyhybriddb/storage/file_engine.py:313-330 | a scan lists exactly the records the offsets read back as |
| Containers.Store.constructor | pyhybriddb/storage/file_engine.py:21-27 | an empty container |
| Containers.Store.InsertRecord | pyhybriddb/storage/file_engine.py:107-134 | the record goes to a new offset appended to the list |
| Containers.Store.UpdateRecord | pyhybriddb/storage/file_engine.py:178-207 | corrected: the new version goes to a new offset and the list is left to the caller; as written, `insert_record` also appends that offset (`Collections.UpdateListsTwice`) |
| Containers.Store.CreateIndex | pyhybriddb/storage/file_engine.py:238-255 | the field is indexed; an indexed field stays as it is |
| Containers.Store.DeleteWhere | pyhybriddb/core/table.py:104-123 | every matching record with an id is deleted by that id and counted, and the rest stay listed in order |
| Tables.AsciiLower | pyhybriddb/core/table.py:54 | `str.lower` keeps the length |
| Tables.AsciiLowerIdempotent | pyhybriddb/core/table.py:54 | lowering twice is lowering once |
| Tables.CheckType | pyhybriddb/core/table.py:52-68 | `int`/`integer` accept integers and booleans, `str`/`string` strings, `bool`/`boolean` booleans, `float` nothing modelled, and any other type name passes |
| Tables.CheckTypeCaseless | pyhybriddb/core/table.py:52-68 | the type check ignores the letter case of the type name |
| Tables.ValidateIff | pyhybriddb/core/table.py:41-50 | a record passes iff every column is in the schema (or is `id`) with a value of its type; otherwise the error names the first column, in order, that is not |
| Tables.NextAutoId | pyhybriddb/core/table.py:28-34 | the counter never decreases |
| Tables.InsertedIdBelow | pyhybriddb/core/table.py:28-34 | a stored integer id is at most the new counter, and a record without an id gets the counter plus 1 |
| Tables.ReopenedRepeatsId | pyhybriddb/core/table.py:17-30 | with the counter at 0 over a stored record whose id is 1, the next record without an id is given 1 again |
| Tables.Table.constructor | pyhybriddb/core/table.py:12-20 | the counter starts at 0 and `id` is indexed; over records holding no positive integer id, the counter bound holds from the start |
| Tables.Table.ValidateRecord | pyhybriddb/core/table.py:41-50 | the validation loop computes the validation result |
| Tables.Table.Insert | pyhybriddb/core/table.py:22-39 | a failing record changes nothing; otherwise it is stored with its id and the id is returned; an auto id is the counter plus one, and it is larger than every stored integer id when the counter was at least each of them |
| Tables.Table.Delete | pyhybriddb/core/table.py:104-123 | keeps the non-matching offsets in order and returns the number removed |
| Tables.Table.Count | pyhybriddb/core/table.py:132-135 | the length of the offset list, at least the number of records a scan returns |
| Tables.Table.CreateIndex | pyhybriddb/core/table.py:125-130 | succeeds iff the column is in the schema or is `id`, and then indexes it; otherwise it fails with nothing changed |

## Left out

- Documents.Val has no floating-point numbers. So `$inc` by a float, floats
  compared by `$gt`, `$lt`, `$gte`, `$lte` and sorted by `$sort`, a table
  column of type `float`, and Python's `1 == 1.0` are not modelled.
- msgpack, JSON, `uuid.uuid4` and SHA-256 are not modelled. Values are opaque
  byte strings with an abstract invertible packing. Packing.Unpack fails only
  on the empty string; msgpack's `unpackb` also raises on the unused byte
  `0xc1`, a truncated object and trailing bytes, so `Wal.Recover`,
  `LsmEngine.Engine.Open` and the table reads fail in the model only on an
  empty value, where Python fails on any malformed one. The uuid is a parameter,
  and the ring's hash is the `pointOf` function given to the ring.
- Files are in-memory byte sequences. Opening, seeking, flushing, closing
  (`WAL.close`, `LSMStorageEngine.close`) and the file system are not modelled.
- `struct 'I'` is native-endian in Python; the model fixes it as 4-byte
  little-endian.
- The Cython SSTable writer (`pyhybriddb/storage/lsm_engine.py:72-79`) and
  `FileManager` are not part of this model. Only the pure-Python writer is
  modelled.
- UTF-8 encoding and decoding of keys is not modelled. Keys are byte strings,
  so Python's string order is byte order. For the same reason
  `Collections.Chars`, used by `Collections.UnsetKeys` and
  `Collections.ProjectKeys` for a string operand, splits the string into
  bytes, where Python's `for field in s` visits code points; a non-ASCII
  string operand of `$unset` or `$project` names different keys. The decoding of a block's type
  field is modelled as a well-formedness check (`Bytes.WellFormedUtf8`).
- `MemTables.MemTable.IsFull` has no contract of its own. `len(data) >= capacity`
  appears in `LsmEngine.Engine.Insert` and `LsmEngine.Engine.Delete` as the
  flush condition.
- LsmEngine.Engine.Insert and LsmEngine.Engine.Delete require the key and the
  packed value to fit a u32 length. Python's `struct` would raise on larger
  ones.
- MemTables.MemTable.Put requires the key and the packed value to fit a u32
  length, for the same reason: it logs the entry to the WAL first.
- MemTables.MemTable.Delete requires the key to fit a u32 length, for the same
  reason.
- FileEngine.Engine.InsertRecord requires the record's JSON to fit a u32
  length, the block header's length field. Python's `struct` would raise on
  larger ones.
- LsmEngine.Engine.constructor does not replay the WAL. That matches
  `initialize`; `open` replays it (`LsmEngine.Engine.Open`).
- `LSMStorageEngine.update_record`, `create_index`, `commit`, `rollback` and
  `get_statistics` are not core operations here. `update_record` is
  `insert_record`.
- Lru.Cache.Stats does not report `hit_ratio`, a rounded float.
- FileEngine.Engine: the B-tree contents of indexes are not modelled
  (`_update_indexes`, `_populate_index`, `_rebuild_indexes`). The engine
  tracks which fields are indexed. `update_record`, `delete_record`,
  `_resolve_id_to_offset`, `_load_metadata` and `_write_metadata` are modelled
  only as `Containers.Store` states their effect.
- FileEngine.Engine.Commit requires the log's JSON to fit a u32 length.
- Containers.Store models the file engine's insert, update, delete and scan,
  which `Collections` and `Tables` are built on. Over the LSM engine the list
  holds ids, not offsets; `insert_record` lists an id only once; `scan_table`
  ignores the list; and `delete_record` removes the id from the list that
  `delete_many` and `Table.delete` are iterating. That last difference is
  modelled on its own (`LsmEngine.SharedListDelete`, see "## Findings"); the
  others are not carried into `Collections` and `Tables`.
- Collections.Collection.InsertOne, Collections.Collection.InsertMany and
  Tables.Table.Insert take the document as a value. Python writes `_id`
  (collection.py:25-26) or `id` (table.py:28-30) into the caller's own dict,
  and `insert_record` caches that same object (file_engine.py:115). So
  inserting one dict twice stores two documents with the same `_id` (or `id`
  1 twice, with the counter left at 1), and a later change the caller makes
  to the dict shows in `find()` while the cache entry lives. The model gives
  each insertion its own uuid or auto id and stores a copy.
- Containers.Store: a record is read back as the document that was stored.
  The cache's aliasing of a document that `_apply_update` mutates in place is
  not modelled.
- BTree: keys and values are integers. Python's B-tree compares any keys.
- BTree.BTreeIndex.constructor requires `order >= 1`. With a smaller order,
  the first insert already fails in Python.
- BTree.BTreeIndex.Size requires the tree to be well-formed.
- BTree.BTreeIndex.RangeSearch succeeds only on trees with no key-less inner
  node. At order 1, splits create such nodes, and Python's range search then
  raises `IndexError`; the model returns an error there.
- BTree.BTreeIndex.Delete models the corrected delete. Like the source, it
  does no rebalancing and may leave under-full nodes.
- Tables.CheckType: `str.lower` is modelled on ASCII letters only, and `float`
  accepts none of the modelled values (see the next line).
- Tables.Table.Insert promises a new auto id only when the counter is at
  least every stored integer id. A table object created over records that
  already carry ids starts again from 0, as the source does, and can hand
  out an id that is already stored (`Tables.ReopenedRepeatsId`).
- Collections.SetPair: a `$set` pair whose key is not a string (`[[1, 2]]`)
  gives the document a non-string key in Python. Documents here have string
  keys only, so the model reports a failure there.
- Collections.ProjectKeys: a `$project` list item that is a number, a bool or
  `None` gives the projected document a non-string key in Python; the model
  reports a failure there for the same reason.
- LsmEngine.IdText writes strings inside a list or dict id between single
  quotes without escaping them. Python's `repr` escapes quotes and
  backslashes and switches to double quotes for a string holding a single
  quote, so such ids can get a different storage key here.
- LsmEngine.TrackOnce, LsmEngine.RemoveFirstNoDup and LsmEngine.NoDupCount
  state "listed exactly once" and "no longer listed" only for scalar ids
  (`None`, bools, integers, strings). Documents.Equal is proved symmetric and
  transitive only there, so for list and dict ids the model states the
  weaker facts that hold for any `==`.
- LsmEngine.Engine.Flush names the new table after the number of tables, as
  Python does, and the model's tables keep the bytes they were read from.
  Python re-opens a table's path on every read, so when that name is already
  loaded (a directory holding only `000001.sst`, `LsmEngine.FlushNameReused`)
  the flush writes over the older table's file, and that table's reads then
  return the new file's values or fail to unpack. The model does not capture
  this overwrite.
- LsmEngine.SnapshotDelete returns the listed ids it deletes: it corrects
  the skipped ids, not the key the tombstone goes to. A document listed by
  its `id` and deleted by a different `_id` stays readable under its own key
  (`LsmEngine.SharedListOtherKey`); the model keeps that behaviour.
- LsmEngine.ContainerOfKey holds only for container names without a colon.
  `scan_table` of a container `c` also returns the records of a container
  named `c:d`, as `LsmEngine.NestedContainerLeaks` shows; the model keeps
  that behaviour.
- LsmEngine.Engine.ScanTable returns the surviving records as a map from
  storage key to record. Python returns `list(results.values())`: the records
  alone, in the dict's insertion order, where a key removed by a tombstone
  and set again moves to the end. That order is not modelled.
- Python's default arguments are not modelled; every constructor and query
  takes them explicitly: `capacity=1000` of the cache and the MemTable,
  `memtable_size=1000` and `cache_size=5000` of the engines, `order=4` of the
  B-tree, `field='id'` of `create_index`, `replicas=3` of the ring and `n=1`
  of `get_nodes_for_key`.
- `Collection.update_many`, `delete_one`, `find_one`, `create_index` and
  `Table.select`, `update` and `describe` are not core operations here.
- Collections.Collection.Aggregate states only the bound on its result. The
  stages' meanings are stated by `MatchStage`, `ProjectAll`, `Prefix` and
  `SortOrdered`.
- The columnar and vector engines, the cluster and node network code, the
  CLI, the demos and the packaging are not part of this model.

## Findings

| source | as written | input that shows it | evidently intended | confidence | as-written member | corrected member |
|---|---|---|---|---|---|---|
| pyhybriddb/storage/lsm_engine.py:126-141 | `read_record` skips a `None` MemTable or table value and goes on to older tables | put `k = v`, flush, delete `k`, read `k`: `v` comes back | a tombstone in the newest layer holding the key means not found, as `scan_table` already treats it | high (not executed) | LsmReads.TombstoneResurrects | LsmEngine.Engine.ReadRecord |
| pyhybriddb/distributed/hashing.py:28-37 | `remove_node` deletes each owned point from the dict once and calls `sorted_keys.remove` once | `add_node('a')` twice and `add_node('b')` list each point of `a` twice; after `remove_node('a')` one copy of each stays in `sorted_keys` while `b` keeps the ring non-empty, and `get_node` for a hash just below a stale point bisects onto it and raises `KeyError` | every copy of a removed point leaves `sorted_keys`, keeping it in step with the ring | high (not executed) | HashRing.RemoveOnceLeavesStale | HashRing.Ring.RemoveNode |
| pyhybriddb/core/collection.py:58-64 | `update_record` appends the new offset to the collection's list via `insert_record`, then `offsets[i] = new_offset` writes it again | one stored document, `update_one` on it: the list holds the new offset twice and `count_documents()` returns 2 | the new offset replaces the old one and the list keeps its length | high (not executed) | Collections.UpdateListsTwice | Collections.Collection.UpdateOne |
| pyhybriddb/storage/index.py:162-179 | deleting a key found in an inner node drops the key and its value but keeps both children around it | order 2, insert 1, 2, 3, 4 (the root then holds 2 over leaves 1 and 3, 4), then `delete(2)`: `search(3)` returns `None` | the entry is removed and every other entry stays reachable | high (not executed) | BTree.DeleteAsWrittenLosesEntries | BTree.BTreeIndex.Delete |
| pyhybriddb/storage/lsm_engine.py:150-158 | `delete_many` (collection.py:140-151) and `Table.delete` (table.py:111-122) iterate the engine's own list of ids, and the LSM `delete_record` removes each deleted id from that same list, so the iterator passes over the next id | a collection on the LSM engine holding two documents, `delete_many({})`: returns 1, stores `[]` as the list, and `find()` still returns the second document | every matching record is deleted and counted, as the file engine does and as `delete_one` gets by iterating over a copy | high (not executed) | LsmEngine.SharedListSkips | LsmEngine.SnapshotDelete |
