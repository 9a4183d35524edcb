# distributedKvDB storage core, modelled in Dafny

This project models the single-node LSM storage engine of distributedKvDB (Java). The modelled parts are:

- the **Bloom filter**: double hashing of a 32-bit hash code, and `add`/`contains` over a bit array;
- the **SSTable** text format: one `key,value` line per entry, with a first-match `read` and `readAllKeys`;
- the **SSTable manager**:
  - an ordered list of run files, oldest first;
  - newest-first point and range reads;
  - full-merge compaction with a tombstone set;
- the **write-ahead log**:
  - comma escaping;
  - the split on unescaped commas;
  - record recovery;
  - rotation;
  - the choice of the latest `wal_<timestamp>.log` file;
- the **MemTable**: a sorted store plus a tombstone set, flushed to a new run at 1000 entries;
- the **storage engine** front: `get`, `readKeyRange`, `compactSSTables` and `batchPut`.

Modelling choices:

- A file is the sequence of its lines (`seq<string>`).
- The run directory is a map from a generation number to file contents.
- A counter `clock` stands for `System.currentTimeMillis()`.
  - It names new files in increasing order, so a name is never reused.
- A Java exception that the core can raise on its data is modelled as `Err(IndexOutOfBounds)` of a `Result`.
  - This is `parts[1]` on a line without a comma.
- Java's `null` result is modelled as `None`.
- Java's `String.compareTo` is defined in `JavaStrings.CompareTo` as a character-wise difference, and proved to be a total order.

## Modules

| file | module | models |
|---|---|---|
| `wrappers.dfy` | `Wrappers` | `Option`, `Result` |
| `java_strings.dfy` | `JavaStrings` | `compareTo`, `indexOf`, `lastIndexOf`, `split(",", 2)` |
| `sorted_maps.dfy` | `SortedMaps` | `TreeMap` iteration: the entries of a map in ascending key order |
| `bloom_filter.dfy` | `Bloom` | `BloomFilter.java` |
| `sstable.dfy` | `SSTables` | `SSTable.java` |
| `sstable_manager.dfy` | `Manager` | `SSTableManager.java` |
| `write_ahead_log.dfy` | `Wal` | `WriteAheadLog.java` |
| `memtable.dfy` | `MemStore` | `MemTable.java` |
| `storage_engine.dfy` | `Engine` | `StorageEngine.java` |

## Behaviour of the code as written

The model follows the code in the following places. Where a design description promises something else, the code wins.

- **Compaction leaves two handles to one file.**
  - `compact` writes the merged file through `writeToSSTable`, which appends its handle.
  - It then reloads the directory listing, which appends the handle again.
  - So the handle list names the compacted file twice, and the returned count is 2, not 1.
    - This holds even when the merged map is empty: an empty file is still written.
  - `Manager.SSTableManager.Compact` states this.
  - `Manager.DuplicateRunHarmless` proves that reading the same run twice is the same as reading it once.
- **Compaction and point reads disagree on duplicate keys within one run.**
  - The merge overwrites, so it keeps a run's *last* line for a key.
  - `read` returns the run's *first* line.
  - Compaction therefore preserves every point read only for runs whose keys are unique.
  - Files written by `writeToSSTable` from a map have unique keys provided no key holds a comma (`Manager.WrittenMapUnique`).
  - The compacted file always has unique keys, because each merged key is the text before a first comma (`Manager.CompactedRunUnique`). So one compaction can follow another.
  - A line without a comma makes a point read fail, but the merge and the range scan skip it.
  - So the compaction and range theorems also require that every line has a comma.
- **A key holding a comma is read back under a different key.**
  - The run format does not escape commas, so the line for the key `a,b` has the key part `a`.
  - `Manager.CommaKeyChangesRead` shows this on the map `{"a": "1", "a,b": "2"}`:
    - the flushed lines `a,1` and `a,b,2` both have the key part `a`;
    - a point read of `a` gives `1`;
    - after compaction it gives `b,2`.
- **What the WAL round trip needs.** Recovery gives back a PUT record when both of these hold:
  - its key does not end with a backslash: the comma after such a key is read as escaped;
  - its value is not empty: `split` drops the empty last field.

  Recovery gives back a DELETE record whenever its key is not empty. A backslash at the end of the key does no harm there.

  Keys and values may contain commas. Concrete lines that are lost are exhibited by `Wal.EmptyValueLost`, `Wal.BackslashKeyLost` and `Wal.EmptyDeleteLost`.
- **MemTable members the engine calls.**
  - `StorageEngine.java` calls `getTombstones`, `readRange` and `batchPut` on the MemTable, but `MemTable.java` does not define them.
  - The model gives them the meaning their call sites need:
    - the tombstone key set;
    - the stored pairs with `lo <= key <= hi` (both bounds inclusive, as in the run manager);
    - `put` for each entry in iteration order.
  - These three members are assumptions, not code that was read.
- **Run files hold no tombstone records and no filters.** The code writes only `key,value` lines, and the model does the same.

## Model

| member | source | states |
|---|---|---|
| JavaStrings.CompareTo | src/main/java/kvStore/fileStore/SSTableManager.java:78 | defined by its body as `String.compareTo` on chars; `CompareToZero`, `CompareToAntisymmetric` and `CompareToTransitive` state its order properties |
| JavaStrings.CompareToZero | src/main/java/kvStore/fileStore/SSTableManager.java:78 | `compareTo` is 0 exactly for equal strings |
| JavaStrings.CompareToAntisymmetric | src/main/java/kvStore/fileStore/SSTableManager.java:78 | swapping the arguments of `compareTo` negates the result |
| JavaStrings.CompareToTransitive | src/main/java/kvStore/fileStore/SSTableManager.java:78 | `compareTo(a, b) <= 0` and `compareTo(b, c) <= 0` give `compareTo(a, c) <= 0` |
| JavaStrings.CompareToIsOrder | src/main/java/kvStore/fileStore/SSTableManager.java:78 | the equality and antisymmetry facts for all strings at once |
| JavaStrings.EmptyRange | src/main/java/kvStore/fileStore/SSTableManager.java:78 | no key passes the range test when `lo` sorts after `hi` |
| JavaStrings.IndexOf | src/main/java/kvStore/log/WriteAheadLog.java:53 | the first position of the char, or -1 exactly when it is absent |
| JavaStrings.LastIndexOf | src/main/java/kvStore/log/WriteAheadLog.java:54 | the last position of the char, or -1 exactly when it is absent |
| JavaStrings.SplitFirst | src/main/java/kvStore/fileStore/SSTable.java:28 | one part (the whole text) when there is no comma; otherwise the comma-free text before the first comma and the rest, which join back to the input |
| JavaStrings.SplitFirstJoin | src/main/java/kvStore/fileStore/SSTable.java:18-29 | splitting `k + "," + v` gives `[k, v]` when `k` has no comma |
| SortedMaps.Ascending | src/main/java/kvStore/fileStore/SSTableManager.java:98 | the entries of a TreeMap: exactly the map's pairs, one per key |
| SortedMaps.AscendingSorted | src/main/java/kvStore/fileStore/SSTableManager.java:98 | TreeMap iteration is in strictly ascending `compareTo` order |
| SortedMaps.AscendingDistinct | src/main/java/kvStore/memStore/MemTable.java:12 | TreeMap iteration lists each key once |
| Bloom.Wrap | src/main/java/kvStore/bloomFilter/BloomFilter.java:79 | Java `int` wrap-around: a 32-bit value that differs from the input by a multiple of 2^32, and the input itself when it fits |
| Bloom.WrapAdd | src/main/java/kvStore/bloomFilter/BloomFilter.java:79 | wrapping an intermediate product does not change the wrapped sum |
| Bloom.UnsignedShift16 | src/main/java/kvStore/bloomFilter/BloomFilter.java:77 | `hash1 >>> 16` is the high 16 bits of the unsigned reading of `hash1` |
| Bloom.JavaRem | src/main/java/kvStore/bloomFilter/BloomFilter.java:46 | Java's truncating `%`: strictly within `(-b, b)`, with the sign of the dividend, and differing from the dividend by a multiple of `b` |
| Bloom.Position | src/main/java/kvStore/bloomFilter/BloomFilter.java:46 | `Math.abs(hash % bitsetSize)` lies in `[0, bitsetSize)` and equals `abs(hash) mod bitsetSize` |
| Bloom.Probes | src/main/java/kvStore/bloomFilter/BloomFilter.java:44-47 | exactly `k` probe positions, each inside the bit array |
| Bloom.SetBits | src/main/java/kvStore/bloomFilter/BloomFilter.java:45-48 | setting bits keeps the bit array's length |
| Bloom.SetBitsAt | src/main/java/kvStore/bloomFilter/BloomFilter.java:43-49 | after `add`, a bit is set exactly when it was set before or is one of the probed positions |
| Bloom.NoFalseNegatives | src/main/java/kvStore/bloomFilter/BloomFilter.java:43-65 | after `add(x)`, every probe of `x` is set, so `contains(x)` holds |
| Bloom.AddKeepsMembers | src/main/java/kvStore/bloomFilter/BloomFilter.java:43-49 | an element contained before an `add` is still contained after it |
| Bloom.AddIdempotent | src/main/java/kvStore/bloomFilter/BloomFilter.java:45-48 | adding the same element twice gives the bits of adding it once |
| Bloom.BloomFilter.ProbesOf | src/main/java/kvStore/bloomFilter/BloomFilter.java:44-46 | an element's probe positions all lie inside the bit array |
| Bloom.BloomFilter.constructor | src/main/java/kvStore/bloomFilter/BloomFilter.java:27-36 | a filter of `m` clear bits with `k` probes per element |
| Bloom.BloomFilter.CreateHashes | src/main/java/kvStore/bloomFilter/BloomFilter.java:74-82 | a fresh array of `numHashes` values, value i being `hash1 + i * (hash1 >>> 16)` in wrapping 32-bit arithmetic |
| Bloom.BloomFilter.Add | src/main/java/kvStore/bloomFilter/BloomFilter.java:43-49 | sets exactly the element's probed bits, after which they are all set |
| Bloom.BloomFilter.Contains | src/main/java/kvStore/bloomFilter/BloomFilter.java:56-65 | true exactly when every probed bit is set; the bits are not changed |
| SSTables.Lookup | src/main/java/kvStore/fileStore/SSTable.java:24-33 | defined by its body as the first-match line scan of `read`; `LookupFirstMatch` and `LookupNone` characterize it |
| SSTables.LineRoundTrip | src/main/java/kvStore/fileStore/SSTable.java:18-29 | a written line parses back into its key and value when the key has no comma; the value may hold commas |
| SSTables.LookupFirstMatch | src/main/java/kvStore/fileStore/SSTable.java:24-33 | `read` answers from the first line whose key part matches: its value, or an error when that line has no comma |
| SSTables.LookupNone | src/main/java/kvStore/fileStore/SSTable.java:24-33 | `read` is null exactly when no line's key part is the key |
| SSTables.ReadAfterWrite | src/main/java/kvStore/fileStore/SSTable.java:15-33 | after `write(data)`, each key of `data` reads back its value (distinct keys without commas) |
| SSTables.ReadAbsentAfterWrite | src/main/java/kvStore/fileStore/SSTable.java:15-33 | after `write(data)`, a key not in `data` reads as null |
| SSTables.KeysAfterWrite | src/main/java/kvStore/fileStore/SSTable.java:15-44 | after `write(data)`, `readAllKeys` lists `data`'s keys in iteration order |
| SSTables.WrittenIsWellFormed | src/main/java/kvStore/fileStore/SSTable.java:15-22 | every written line has a comma |
| SSTables.SSTable.constructor | src/main/java/kvStore/fileStore/SSTable.java:11-13 | a table over the file's current lines |
| SSTables.SSTable.Write | src/main/java/kvStore/fileStore/SSTable.java:15-22 | the file becomes one `key,value` line per entry, in order, replacing its old contents |
| SSTables.SSTable.Read | src/main/java/kvStore/fileStore/SSTable.java:24-33 | the line scan returns the first-match outcome (value, null or error) |
| SSTables.SSTable.ReadAllKeys | src/main/java/kvStore/fileStore/SSTable.java:35-44 | the key part of every line, in file order |
| Manager.ReadNewest | src/main/java/kvStore/fileStore/SSTableManager.java:47-63 | defined by its body as `readFromSSTables`' newest-first loop; `ReadNewestFromNewest` and `ReadNewestNone` characterize it |
| Manager.ReadNewestFromNewest | src/main/java/kvStore/fileStore/SSTableManager.java:47-63 | the newest run holding a line for the key decides the point read |
| Manager.ReadNewestNone | src/main/java/kvStore/fileStore/SSTableManager.java:47-63 | the point read is null exactly when no line of any run has the key |
| Manager.ScanLinesGet | src/main/java/kvStore/fileStore/SSTableManager.java:73-82 | scanning one run adds, for a key in range and not yet present, the run's first key-value line for it |
| Manager.ScanRunsGet | src/main/java/kvStore/fileStore/SSTableManager.java:69-87 | scanning the runs newest first keeps the first value found |
| Manager.RangeRead | src/main/java/kvStore/fileStore/SSTableManager.java:66-89 | the range read holds exactly the keys in `[lo, hi]` that some run has a key-value line for, each with the newest run's value |
| Manager.RangeEmptyWhenReversed | src/main/java/kvStore/fileStore/SSTableManager.java:78 | the range read is empty when `lo` sorts after `hi` |
| Manager.NewestFirstNone | src/main/java/kvStore/fileStore/SSTableManager.java:69-87 | no value is found for a key exactly when no run has a key-value line for it |
| Manager.NewestFirstFromNewest | src/main/java/kvStore/fileStore/SSTableManager.java:69-87 | the newest run holding the key supplies the range read's value |
| Manager.MergeLines | src/main/java/kvStore/fileStore/SSTableManager.java:102-111 | merged keys are comma-free when the earlier ones are |
| Manager.MergeRuns | src/main/java/kvStore/fileStore/SSTableManager.java:98-115 | every merged key is comma-free |
| Manager.MergeLinesGet | src/main/java/kvStore/fileStore/SSTableManager.java:102-111 | merging a run gives a non-tombstoned key its last line's value in that run |
| Manager.MergeRunsGet | src/main/java/kvStore/fileStore/SSTableManager.java:98-115 | the merged map omits every tombstoned key and gives every other key its value from the newest run holding it |
| Manager.LookupWellFormed | src/main/java/kvStore/fileStore/SSTableManager.java:52-56 | on a run whose lines all have commas, `read` is the first key-value line's value and never fails |
| Manager.ReadNewestWellFormed | src/main/java/kvStore/fileStore/SSTableManager.java:47-63 | on such runs, the point read agrees with the range read's newest-first value |
| Manager.UniqueFirstIsLast | src/main/java/kvStore/fileStore/SSTableManager.java:102-109 | in a run with unique keys the first and the last line for a key are the same |
| Manager.UniqueNewest | src/main/java/kvStore/fileStore/SSTableManager.java:98-115 | with unique keys per run, the newest-first and newest-last values agree |
| Manager.ReadCompacted | src/main/java/kvStore/fileStore/SSTableManager.java:124-125 | reading the written merged map gives back exactly the merged map |
| Manager.WrittenUnique | src/main/java/kvStore/fileStore/SSTable.java:15-22 | a run written from entries with distinct comma-free keys has unique key parts |
| Manager.WrittenMapUnique | src/main/java/kvStore/fileStore/SSTableManager.java:30-44 | a map written in TreeMap order, with comma-free keys, gives a run with a comma on every line and unique keys |
| Manager.CompactedRunUnique | src/main/java/kvStore/fileStore/SSTableManager.java:98-125 | the compacted run always has a comma on every line and unique keys, so it meets the premises of `CompactionPreservesReads` |
| Manager.CommaKeyChangesRead | src/main/java/kvStore/fileStore/SSTableManager.java:96-131 | for the map `{"a": "1", "a,b": "2"}` the written run has two lines with key part `a`; a point read of `a` gives `1` before compaction and `b,2` after it |
| Manager.DuplicateRunHarmless | src/main/java/kvStore/fileStore/SSTableManager.java:124-130 | reading the compacted file twice is the same as reading it once |
| Manager.CompactionPreservesReads | src/main/java/kvStore/fileStore/SSTableManager.java:96-131 | after compaction every tombstoned key reads as null and every other key reads as before (runs with commas on every line and unique keys) |
| Manager.SSTableManager.constructor | src/main/java/kvStore/fileStore/SSTableManager.java:11-14 | the handle list is the directory listing |
| Manager.SSTableManager.LoadExistingSSTables | src/main/java/kvStore/fileStore/SSTableManager.java:17-27 | appends the listing to the handle list and changes no file |
| Manager.SSTableManager.WriteToSSTable | src/main/java/kvStore/fileStore/SSTableManager.java:30-44 | one new file holding `data`'s lines becomes the newest run; the earlier runs are unchanged |
| Manager.SSTableManager.ReadFromSSTables | src/main/java/kvStore/fileStore/SSTableManager.java:47-63 | the nested loops compute the newest-first point read |
| Manager.SSTableManager.ReadKeyRange | src/main/java/kvStore/fileStore/SSTableManager.java:66-89 | the nested loops compute the `putIfAbsent` range scan |
| Manager.SSTableManager.Compact | src/main/java/kvStore/fileStore/SSTableManager.java:96-131 | the directory holds only the merged map in ascending order, the handle list names it twice, and the count is 2 |
| Manager.SSTableManager.MergeAll | src/main/java/kvStore/fileStore/SSTableManager.java:98-115 | the loops compute the oldest-to-newest overwriting merge |
| Manager.SSTableManager.DeleteAll | src/main/java/kvStore/fileStore/SSTableManager.java:117-122 | every listed file is deleted and the list is cleared |
| Wal.Escape | src/main/java/kvStore/log/WriteAheadLog.java:82-84 | defined by its body as `replace(",", "\\,")`; `UnescapeEscape`, `EscapeCommas` and `EscapeLast` characterize it |
| Wal.Unescape | src/main/java/kvStore/log/WriteAheadLog.java:86-88 | defined by its body as a left-to-right `replace("\\,", ",")`; `UnescapeEscape` states the round trip |
| Wal.UnescapeEscape | src/main/java/kvStore/log/WriteAheadLog.java:82-88 | `unescape(escape(s)) == s` for every string |
| Wal.EscapeCommas | src/main/java/kvStore/log/WriteAheadLog.java:82-84 | every comma of an escaped text has a backslash before it |
| Wal.EscapeLast | src/main/java/kvStore/log/WriteAheadLog.java:82-84 | an escaped text ends with a backslash exactly when the original does |
| Wal.SeparatorFrom | src/main/java/kvStore/log/WriteAheadLog.java:97 | the first comma not preceded by a backslash, at or after a position |
| Wal.FieldsFrom | src/main/java/kvStore/log/WriteAheadLog.java:97 | splitting yields at least one field |
| Wal.DropTrailingEmpty | src/main/java/kvStore/log/WriteAheadLog.java:97 | `split` keeps a prefix of the fields, drops only empty ones, and keeps a non-empty last field |
| Wal.SplitUnescaped | src/main/java/kvStore/log/WriteAheadLog.java:97 | defined by its body as the regex split on `(?<!\\),`; `PutLineFields` and `DeleteLineFields` give its result on written lines |
| Wal.ParseRecord | src/main/java/kvStore/log/WriteAheadLog.java:97-107 | defined by its body as recover's per-line step; `PutRoundTrip`, `DeleteRoundTrip` and the three `Lost` lemmas characterize it |
| Wal.PutLineFields | src/main/java/kvStore/log/WriteAheadLog.java:63-103 | a PUT line splits into `PUT`, the escaped key and the escaped value |
| Wal.DeleteLineFields | src/main/java/kvStore/log/WriteAheadLog.java:74-105 | a DELETE line splits into `DELETE` and the escaped key |
| Wal.PutRoundTrip | src/main/java/kvStore/log/WriteAheadLog.java:61-70 | recovery parses the line `appendPut(k, v)` writes back into `PUT(k, v)` |
| Wal.DeleteRoundTrip | src/main/java/kvStore/log/WriteAheadLog.java:72-80 | recovery parses the line `appendDelete(k)` writes back into `DELETE(k)` |
| Wal.EmptyValueLost | src/main/java/kvStore/log/WriteAheadLog.java:97-101 | a PUT with an empty value is skipped on recovery |
| Wal.BackslashKeyLost | src/main/java/kvStore/log/WriteAheadLog.java:97-101 | a PUT whose key ends with a backslash is skipped on recovery |
| Wal.EmptyDeleteLost | src/main/java/kvStore/log/WriteAheadLog.java:97-98 | a DELETE of the empty key is skipped on recovery |
| Wal.RecoverConcat | src/main/java/kvStore/log/WriteAheadLog.java:90-113 | recovery handles each line on its own: recovering a file is recovering its parts, concatenated |
| Wal.EncodeAll | src/main/java/kvStore/log/WriteAheadLog.java:61-80 | one line per appended record, in order |
| Wal.RecordOfEncode | src/main/java/kvStore/log/WriteAheadLog.java:90-113 | a recoverable record reads back from its own line |
| Wal.AppendOne | src/main/java/kvStore/log/WriteAheadLog.java:61-113 | appending a recoverable record adds exactly that record to what recovery returns |
| Wal.RecoverAppended | src/main/java/kvStore/log/WriteAheadLog.java:61-113 | recovering a file of appended recoverable records returns those records in order |
| Wal.Numeral | src/main/java/kvStore/log/WriteAheadLog.java:28 | the decimal numeral of a time is a non-empty run of digits that denotes that time |
| Wal.ParseLong | src/main/java/kvStore/log/WriteAheadLog.java:55 | a parsed long lies in the 64-bit range |
| Wal.ExtractTimestamp | src/main/java/kvStore/log/WriteAheadLog.java:51-59 | defined by its body as `extractTimestamp`, 0 on a malformed name; `TimestampOfWalName` states it on the names the log creates |
| Wal.TimestampOfWalName | src/main/java/kvStore/log/WriteAheadLog.java:51-59 | `extractTimestamp` of a name the log creates gives back its time |
| Wal.WalNameInjective | src/main/java/kvStore/log/WriteAheadLog.java:126-131 | different times give different file names |
| Wal.LatestIndex | src/main/java/kvStore/log/WriteAheadLog.java:44-45 | the first position of the largest timestamp |
| Wal.LatestUnique | src/main/java/kvStore/log/WriteAheadLog.java:44-45 | only one position meets that description, so the stable descending sort's choice is determined |
| Wal.GetLatestWalFile | src/main/java/kvStore/log/WriteAheadLog.java:39-48 | null exactly for an empty listing, otherwise the first file with the largest timestamp |
| Wal.WriteAheadLog.constructor | src/main/java/kvStore/log/WriteAheadLog.java:19-36 | the latest existing file becomes the active file, or a new empty file when there is none |
| Wal.WriteAheadLog.AppendPut | src/main/java/kvStore/log/WriteAheadLog.java:61-70 | one PUT line is added at the end of the active file and nothing else changes; a recoverable record is added to what recovery returns |
| Wal.WriteAheadLog.AppendDelete | src/main/java/kvStore/log/WriteAheadLog.java:72-80 | one DELETE line is added at the end of the active file and nothing else changes; a recoverable record is added to what recovery returns |
| Wal.WriteAheadLog.Recover | src/main/java/kvStore/log/WriteAheadLog.java:90-113 | the loop returns the records of the active file's lines, in file order |
| Wal.WriteAheadLog.Rotate | src/main/java/kvStore/log/WriteAheadLog.java:126-137 | a new, empty file with a fresh name becomes active, the old files stay, and recovery then returns nothing |
| MemStore.PutStore | src/main/java/kvStore/memStore/MemTable.java:20-28 | a store below the threshold stays below it, and at most one map is flushed |
| MemStore.PutAll | src/main/java/kvStore/StorageEngine.java:57 | a batch of puts keeps the store below the threshold |
| MemStore.StoreRange | src/main/java/kvStore/StorageEngine.java:40 | exactly the stored pairs with `lo <= key <= hi` (assumed `readRange`) |
| MemStore.PutThenGet | src/main/java/kvStore/memStore/MemTable.java:20-35 | a `put` that does not flush is visible to `get` |
| MemStore.DeleteThenGet | src/main/java/kvStore/memStore/MemTable.java:30-40 | after `delete`, `get` is null |
| MemStore.MemGet | src/main/java/kvStore/memStore/MemTable.java:30-35 | defined by its body as `get`; `PutThenGet` and `DeleteThenGet` characterize it |
| MemStore.FlushedKeyReadable | src/main/java/kvStore/memStore/MemTable.java:25-50 | after a flushing `put`, memory is empty and the manager's point read finds every flushed key with its value, the key just put included (comma-free keys) |
| MemStore.MemTable.constructor | src/main/java/kvStore/memStore/MemTable.java:16-18 | an empty store and no tombstones over a manager |
| MemStore.MemTable.Get | src/main/java/kvStore/memStore/MemTable.java:30-35 | null for a tombstoned key, otherwise the stored value |
| MemStore.MemTable.Put | src/main/java/kvStore/memStore/MemTable.java:20-28 | the doubled put is one put, the tombstone is cleared, a flush happens at the threshold, and the store stays disjoint from the tombstones and below the threshold |
| MemStore.MemTable.Delete | src/main/java/kvStore/memStore/MemTable.java:37-40 | the key leaves the store and is tombstoned; `get` is null and `hasTombstone` is true |
| MemStore.MemTable.Flush | src/main/java/kvStore/memStore/MemTable.java:42-50 | the whole store in ascending order becomes one new run, the store is emptied, and the tombstones stay |
| MemStore.MemTable.HasTombstone | src/main/java/kvStore/memStore/MemTable.java:52-54 | defined by its body as membership in the tombstone set; `Delete` ensures it holds afterwards |
| MemStore.MemTable.ReadRange | src/main/java/kvStore/StorageEngine.java:40 | the assumed `readRange`, defined by `StoreRange`, whose contract states it |
| MemStore.MemTable.GetTombstones | src/main/java/kvStore/StorageEngine.java:34 | exactly the keys `hasTombstone` reports (assumed `getTombstones`) |
| MemStore.MemTable.BatchPut | src/main/java/kvStore/StorageEngine.java:57 | `put` of each entry in order: the final store, the cleared tombstones, and the runs flushed along the way (assumed `batchPut`) |
| Engine.EngineGet | src/main/java/kvStore/StorageEngine.java:22-31 | defined by its body as `get`; `TombstoneHides` and `MemoryBeforeRuns` characterize it |
| Engine.EngineRange | src/main/java/kvStore/StorageEngine.java:38-53 | defined by its body as `readKeyRange`'s result; `RangeAgreesWithGet` and `RangeBounds` characterize it |
| Engine.TombstoneHides | src/main/java/kvStore/StorageEngine.java:22-25 | `get` is null for a tombstoned key, whatever the runs hold |
| Engine.MemoryBeforeRuns | src/main/java/kvStore/StorageEngine.java:26-30 | otherwise `get` is the stored value when present, and the runs' read when not |
| Engine.RangeAgreesWithGet | src/main/java/kvStore/StorageEngine.java:22-53 | on runs with commas on every line, the range read agrees with `get` on every key in `[lo, hi]` and holds no key outside it |
| Engine.RangeBounds | src/main/java/kvStore/StorageEngine.java:44-51 | every key of the range read is in `[lo, hi]` and not tombstoned, and stored values override the runs' |
| Engine.RangeExample | src/main/java/kvStore/StorageEngine.java:38-53 | the batch apple..elderberry read over banana..date gives exactly banana, cherry and date |
| Engine.OverrideExample | src/main/java/kvStore/StorageEngine.java:38-53 | a run holding apple, banana and cherry, memory holding banana and date, and a tombstone on cherry, read over banana..date, give memory's banana and date only |
| Engine.CompactionPreservesGet | src/main/java/kvStore/StorageEngine.java:22-35 | compaction leaves `get` unchanged for every key (runs with commas on every line and unique keys) |
| Engine.StorageEngine.constructor | src/main/java/kvStore/StorageEngine.java:17-20 | an engine over a MemTable and a manager |
| Engine.StorageEngine.Get | src/main/java/kvStore/StorageEngine.java:22-31 | tombstone first, then memory, then the runs newest first |
| Engine.StorageEngine.CompactSSTables | src/main/java/kvStore/StorageEngine.java:33-35 | compacts with the MemTable's tombstone set, returns 2, leaves the MemTable alone, and preserves `get` for every key when the runs have commas on every line and unique keys |
| Engine.StorageEngine.ReadKeyRange | src/main/java/kvStore/StorageEngine.java:38-53 | the two loops compute the runs' range, overridden by memory's range, without tombstoned keys, in strictly ascending key order |
| Engine.StorageEngine.BatchPut | src/main/java/kvStore/StorageEngine.java:56-58 | delegates to the MemTable's `batchPut` |

## Left out

- File I/O is not modelled. Files are line sequences and directories are maps. This covers:
  - `File`, readers and writers, `mkdirs`, `listFiles` and the result of `file.delete()`;
  - `IOException` and its wrapping in `RuntimeException`.
- The listing order of a directory (`listFiles`) is an input to the model, not something it computes.
- File names that come from `System.currentTimeMillis()` become a counter that only grows. The model therefore assumes that two files never get the same name.
- `synchronized`, threads and the background compaction scheduler (`startBackgroundCompaction` and `stopBackgroundCompaction`) are left out. Every operation is modelled as sequential.
- Bloom filter sizing is left out because it is floating-point arithmetic (`Math.log`, `Math.pow`, `Math.ceil`). The constructor takes `m` and `k` as parameters.
- Java serialization of the filter and of the log is left out.
- `hashCode()` is not looked into. It is a parameter of the filter, namely a function from elements to 32-bit integers.
- The filter's `BitSet` is an array of booleans rather than a set of words.
- Line breaks inside keys and values are not modelled. A file is already split into lines, so a key or value that contained a line break would read back differently in Java.
- JavaStrings.CompareTo: compares `char` values. Java compares UTF-16 code units, and the two agree only when every character is a single code unit.
- Wal.ParseLong: accepts only ASCII digits. Java also accepts other Unicode decimal digits.
- Null keys and values are not modelled. A DELETE record carries no value at all, where Java carries `null`.
- The log's `close` and the writer's buffering and flushing are not modelled. An append reaches the file at once.
- `logFile.exists()` in `recover` is always true in the model, since the active file is created when the log is opened or rotated.
- The `KeyValueStore` interface has no behaviour of its own and is not modelled.
- Code that the tests use but the shown sources lack is not part of this model. This includes:
  - a MemTable backed by the log, and `recoverFromWAL`;
  - SSTables backed by a filter;
  - a public `flush`.
- MemStore.MemTable.GetTombstones, MemStore.MemTable.ReadRange and MemStore.MemTable.BatchPut: `MemTable.java` does not define these members. Their meaning is taken from their call sites in `StorageEngine.java`.
