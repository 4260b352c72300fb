# db-rs storage engine: a verified model

db-rs is a small relational storage engine. This project models its whole stack, from the bytes
of a page file to the answer of a query, and proves that each layer means something much simpler.

| layer | modules | what it is proved to be |
|---|---|---|
| page files | `PageFiles`, `Storage` | a sequence of 8192-byte pages that survives reopening |
| buffer pool | `ClockSweep`, `PoolModel`, `PoolRuns`, `BufferPools` | one plain map from page to bytes, whatever the pool size |
| slotted pages | `SlottedPages` | an append-only sequence of records |
| heap files, scans | `HeapFiles`, `SeqScans` | one sequence of rows per table; a scan is filter, then project |
| records | `Values`, `NullBitmap`, `RecordCodec` | tuples, with a decoder and a one-column fast path |
| expressions, binding | `Expressions`, `Binding`, `ValueOrder` | three-valued logic; SQL operators keep their meaning |
| catalog, database | `CatalogCodec`, `DatabaseState`, `Databases` | a map of tables that the catalog page rebuilds |
| statements | `Sessions`, `Meanings` | a step on relations, page fills and a catalog, with its exact answer |
| restarts, whole lives | `Restarts`, `Lives`, `LifeRows`, `LifeCatalog`, `LifeIds`, `LifeWitnesses` | relations that INSERT adds to and SELECT reads, over any mix of statements and restarts |

The parts the engine updates in place are classes (`StorageManager`, `Frame`, `BufferPool`,
`SeqScan`, `Database`) or methods over arrays; each method is proved equal to a function over
values, and the theorems are about those functions. Expressions and binding are functions and lemmas.

The main results, from the top:

* **A whole life.** `Lives.Live` starts in a new directory with any number of frames and lets any
  statements, shutdowns and new starts happen in any order: every event does what it means and the
  database keeps its promises after it. A restart never fails, even after a failed `CREATE TABLE`. A
  life ends early only before a `CREATE TABLE` that would give out a table id a second time, or behind
  a statement that panics, and `LifeIds.EndsExactly` and `Meanings.PanicsExactly` say when one does.
* **What a table holds.** `LifeRows.SelectStarIsInserts`: at any point of a life, `SELECT *` on a table
  made in it answers exactly the tuples of the INSERTs that answered Ok, as many of each. Insertion
  order is kept if and only if no insert put its row before a different one (`InsertOrderExactly` for
  one insert, `OrderExactly` for a whole life); it is as long as there is no restart before the last
  insert (`OrderIsKept`). `LifeWitnesses.OrderLost` is a run of the engine that loses it: a reopened
  table takes inserts from page 1 on again. `NothingIsLost` and `LifeIds.CreatesSucceed` say when
  all INSERTs and all CREATE TABLEs answer Ok.
* **Every statement.** `Meanings.StepMeaning` says exactly what a statement answers - every error and
  panic included - and what it changes, in terms of relations, of how full each page is and of the SQL
  expressions themselves; `Meanings.Execute` proves it of every database that keeps its promises, new
  or reopened, for every statement that does not give an id out twice.
* **WHERE.** `Sessions.SelectExactly`, and `Meanings.SelectAnswers` for the statement: the answer is the
  tuples of which the condition is true, all of them and in order, and which tuple ends it otherwise.
* **The catalog.** `LifeCatalog.LiveAndLoad`: after any life the catalog page loads to the entries of
  exactly the tables made. That is the catalog in memory if and only if no `CREATE TABLE` was refused
  by the catalog page since the last restart (`CatalogsExactly`).
* **The bytes.** What is stored is also said byte by byte, next to the round trips: blank pages and pages
  with a record, footers and files after an append, records, schemas, entries (`BlankPageBytes`,
  `OneRecordBytes`, `AppendBytes`, `BitmapBytes`, `RecordExample`, `EntryEncodesExactly`, `EntryExample`).
* **The pool is a map.** `PoolRuns.RunsRefine` and `PinSafety`: over every interleaving of page
  requests, page creation, writes, guard drops, flushes and file openings.
* **Exact conditions where the code falls short of the ideal.** `RoundTripExactly` (Nulls mixed with
  strings), `SafeRecordSize` and `LargerRecordsUnderflow` (190 bytes), `ReadsBackExactly` (writing past
  the end of a file), `EvaluatorsAgreeExactly` (a column the row does not have), `BindsExactly`,
  `ValueOrder.EqualityAgreesExactly` (NaN and the two zeros) and `TransitiveExactly`,
  `OrderExactly` (rows out of order), `CatalogsExactly` (the catalog in memory ahead of its page),
  `RestartCollidesExactly` (table ids given out twice after a restart; `LifeWitnesses.IdGivenTwice` is a
  run of the engine that gets there, and `MadeTablesNeverCollide` says what rules it out),
  `AdoptedIsGone` (a table made from a file found on disk does not survive a restart).

## How the source is read

* A Rust panic is an outcome of its own, `Panic`, next to `Ok` and `Err`. Integer overflow panics, as it
  does in a debug build. The state after a panic is what the code had changed by then: a `CREATE TABLE`
  that panics while it writes its catalog entry leaves its file open and the map in memory updated, and
  one that finds no file id left leaves everything as it was.
* Float arithmetic, float comparison and the conversion of an int to a float are parameters
  (`FloatOps`), and everything is proved for all of them; only what is said of `==` on values assumes
  that comparing floats for equality is what IEEE 754 makes it. A float is its 32 bits.
* Strings are UTF-8 byte sequences, as their Rust type promises; `ValidUtf8` follows section 4 of
  RFC 3629. The lenient decoding of names in the catalog is modelled and proved to keep valid ones.
* The operator table, which the source writes out twice with the same arms (`src/expr.rs:57-173` and
  `174-295`), is written once with those arms, `ApplyByOperator`. What an operator means is written
  separately, operand type by operand type, `Apply`; `TablesAgree` connects the two.
* A page guard is a value; a ghost multiset in the pool records which guards are alive, so that pin
  counts can be compared with them. Where the source takes `&mut BufferPool`, no guard is alive.
* A file that is not open is its bytes. Such a file was written by the engine, or is one it refuses
  to open. The footer of catalog.db is never checked: opening it is a function of its own. An append
  fails once 63-bit file offsets run out, behind 2^50 - 1 pages.
* Where code and comments differ the code counts: the footer lies one byte behind the pages
  (`src/storage.rs:215`), the header size counts nothing for a Null (`src/tables.rs:124-126`),
  `get_attr` never looks at the null bitmap, `ensure_capacity` sets the page count to an index.

## Model

| member | source | states |
|---|---|---|
| Bytes.ToBEDigits | src/tables.rs:146-197 | Numbers are stored big-endian: byte i counts powers of 256 from the other end. |
| Bytes.WriteAtBytes | src/storage.rs:174-194 | A positional write puts its bytes there, keeps all others, and leaves zeros in a hole it makes. |
| SlottedPages.Insert | src/page/mod.rs:136-178 | In place on the 8192-byte array: answers the id of the next slot, `PageFull`, an integer-conversion error, or a panic where the u16 subtraction underflows, and on anything but Ok leaves every byte alone. |
| SlottedPages.InsertAppends | src/page/mod.rs:96-178 | An insert that succeeds appends exactly the record to the page's sequence of records; well-formedness, page number, kind and all earlier slots stay. |
| SlottedPages.InsertedBytes | src/page/mod.rs:159-177 | Which bytes an insert writes, and that all header bytes before the entry count, all earlier slots and all earlier records are byte-identical. |
| SlottedPages.GetSlotReadsRecords | src/page/mod.rs:117-128 | On a well-formed page `get_slot` never panics and reads exactly the page's sequence of records, None past its end. |
| SlottedPages.RegionBounds | src/page/mod.rs:97-128 | Every record lies above the slot array and inside the page. |
| SlottedPages.BlankedIsEmpty | src/buffer_pool.rs:255-261 | Whatever stale bytes a frame held, setting kind, entry count and page number gives an empty well-formed page of that kind and number. |
| SlottedPages.BlankPageIsEmpty | src/page/mod.rs:26-43 | A blank page is empty and well-formed, also a catalog page with its first-free-page bytes behind the header. |
| SlottedPages.BlankPageBytes | src/page/mod.rs:26-43 | All 8192 bytes of a blank page of either kind. |
| SlottedPages.OneRecordBytes | src/page/mod.rs:136-178 | All 8192 bytes of a heap page after its first insert: header, slot, free space, record. |
| SlottedPages.CapacityExactly | src/page/mod.rs:140-159 | A page takes a record if and only if the bytes used, a slot of 4 bytes and the record fit into the 8173 behind the header; then the bytes used grow by just that. |
| SlottedPages.FillAnswers | src/page/mod.rs:136-178 | How many records a page has and how many bytes they take decide what `insert` answers, errors and panic included, and what an insert makes of these two numbers. |
| SlottedPages.FillByRecords | src/page/mod.rs:96-178 | Those numbers follow from the page's records alone. |
| SlottedPages.EmptyPageCapacity | src/page/mod.rs:140-159 | An empty page takes a record exactly up to 8169 bytes. |
| SlottedPages.InsertAllAppends | src/page/mod.rs:136-178 | A run of inserts that all succeed appends exactly its records, in order. |
| SlottedPages.SafeRecordSize | src/page/mod.rs:142-159 | On the pages reached from an empty one by inserting records of at most b bytes, the next such insert never makes the subtraction underflow if and only if b is at most 190. |
| SlottedPages.LargerRecordsUnderflow | src/page/mod.rs:142-159 | On every empty page, of any number and kind: 42 inserts of records of 191 and 190 bytes all answer Ok, and then inserting one of 191 bytes panics. |
| SlottedPages.SmallRecordsFit | src/page/mod.rs:140-159 | On a page whose records have at most 190 bytes inserting another such record does not panic. |
| PageFiles.FreshLayout | src/storage.rs:126-133 | A new file has one catalog page and its footer last. |
| PageFiles.AppendKeepsLayout | src/storage.rs:196-218 | An append adds one zero page, leaves all others intact, and the last 16 bytes are the new footer. |
| PageFiles.WriteKeepsLayout | src/storage.rs:174-194 | A write to a page there is changes that page's 8192 bytes only, and does not extend the file. |
| PageFiles.ReopenRecovers | src/storage.rs:118-142 | Opening the bytes of a file gives back its page count and its contents. |
| PageFiles.ReadsBackExactly | src/storage.rs:220-244 | A written block reads back if and only if the page existed before: the branch that extends the file loses it. |
| PageFiles.FooterBytes | src/storage.rs:212-218 | The footer: four zeros, DB four times, the page count in eight bytes. |
| PageFiles.OpensExactly | src/storage.rs:118-142 | A file opens if and only if it is shorter than a footer, and then it is new, or has those magic bytes in the right place; else it is corrupt. |
| PageFiles.AppendBytes | src/storage.rs:196-218 | All bytes of a file after an append: the footer starts one byte behind the new page, 8192 (n + 1) + 17 bytes in all. |
| PageFiles.ExtendingWrite | src/storage.rs:220-244 | A write behind the last page: the block ends the file, the page count is its index, the other pages stay. |
| PageFiles.FileRunRefines | src/storage.rs:174-218 | After any run of appends and in-range writes the file is the page sequence the run describes, and reopening gives the same file. |
| Storage.StorageManager.constructor | src/storage.rs:40-87 | On any bytes at all: the catalog file is open as file 0, its footer unchecked, or new; everything else on disk is closed; and if the files were written by the engine, all promises of the storage hold. |
| Storage.UncheckedExactly | src/storage.rs:40-87 | What catalog.db is opened as: its last eight bytes are the page count, whatever stands before them. |
| Storage.StorageManager.OpenOrCreateFile | src/storage.rs:106-157 | A known path keeps its id; another gets a fresh one and its contents, unless its footer is corrupt (nothing changes) or the ids run out. |
| Storage.StorageManager.ReadBlock | src/storage.rs:159-172 | Fills the buffer with the block, or answers which of file and page is missing. |
| Storage.StorageManager.WriteBlock | src/storage.rs:174-194 | The file becomes the written one, extension included; other files stay. |
| Storage.StorageManager.EnsureFileCapacity | src/storage.rs:220-244 | Extends a file that is too short, with the page count the code really sets. |
| Storage.StorageManager.AppendEmptyBlock | src/storage.rs:196-210 | Answers the new page's number and appends it, or changes nothing. |
| Storage.StorageManager.FileExists | src/storage.rs:92-99 | True of exactly the paths that have bytes on disk. |
| Storage.StorageManager.GetNumPages | src/storage.rs:101-104 | The number of pages of an open file: reading block i succeeds for exactly the i below it, and None of a file that is not open, which no block can be read from. |
| ClockSweep.SweepChooses | src/buffer_pool.rs:136-152 | The loop chooses the first frame from the hand that is unpinned and unflagged at entry, failing that the first unpinned one; two rounds always suffice, so None within four means all frames are pinned and then nothing changed. |
| ClockSweep.SweepSecondRound | src/buffer_pool.rs:136-152 | With no unpinned and unflagged frame, the first round clears exactly the flags of the unpinned ones and the second takes the first unpinned frame from the hand. |
| ClockSweep.SweepPasses | src/buffer_pool.rs:138-150 | Passing frames that cannot be taken clears exactly the flags of the unpinned ones among them. |
| ClockSweep.SecondChance | src/buffer_pool.rs:136-152 | A frame used since the hand passed it is not taken while an unpinned one that was not is there; a pinned one never is. |
| ClockSweep.AllPinnedIfNoneUnpinned | src/buffer_pool.rs:136-152 | No unpinned frame in cyclic order means every frame is pinned. |
| ClockSweep.NextIsModulo | src/buffer_pool.rs:140-149 | Stepping the hand is adding one modulo the number of frames. |
| PoolModel.VictimExactly | src/buffer_pool.rs:154-163 | Which frame is taken: the free one that became free last, and without free ones the clock's choice. |
| PoolModel.FetchMarks | src/buffer_pool.rs:189-278 | Fetching a page marks its frame as used and pins it once more; a page from disk is clean, a new one dirty. |
| PoolModel.SelectVictimKeeps | src/buffer_pool.rs:154-163 | Choosing a victim changes clock flags only; none is found exactly when every frame is pinned; the victim is unpinned and no longer free. |
| PoolModel.WriteBackKeeps | src/storage.rs:174-194 | Writing a resident page back never fails, never extends the file and changes that block only. |
| PoolModel.EvictKeeps | src/buffer_pool.rs:164-187 | An eviction loses no update: the map and the invariant stay. |
| PoolModel.GetPageKeeps | src/buffer_pool.rs:189-231 | `get_page` never changes the map and never panics, whether it hits, misses or fails. |
| PoolModel.GetPageYields | src/buffer_pool.rs:189-231 | It succeeds exactly when the page is resident, or exists and some frame is unpinned; the frame then holds the map's bytes for the page. |
| PoolModel.CreatePageRefines | src/buffer_pool.rs:233-278 | `create_page` succeeds exactly when the file can grow and a frame is unpinned; it then adds one empty page of the right kind and number at the file's end, and otherwise the map stays. |
| PoolModel.DropKeeps | src/buffer_pool.rs:38-42 | Dropping a guard unpins without going below zero and keeps map and invariant. |
| PoolModel.WriteRefines | src/buffer_pool.rs:74-77 | Writing through a guard changes that page of the map and no other. |
| PoolModel.FlushRefines | src/buffer_pool.rs:122-132 | `flush_all` never fails or panics, and afterwards the page files alone are the map. |
| PoolModel.PinsCountGuards | src/buffer_pool.rs:34-49 | A frame's pin count is its number of live guards, all for the same page. |
| PoolRuns.InitialOk | src/buffer_pool.rs:104-121 | A new pool keeps the invariant and its map is what is on disk. |
| PoolRuns.OpenFileRefines | src/storage.rs:106-157 | Opening a file under a running pool adds its pages to the map and disturbs nothing. |
| PoolRuns.StepRefines | src/buffer_pool.rs:74-278 | Every operation keeps the invariant and does to the map only what it does to a plain map. |
| PoolRuns.RunsRefine | src/buffer_pool.rs:94-278 | The same over whole runs, from a new pool on. |
| PoolRuns.PinSafety | src/buffer_pool.rs:34-89 | In every reachable state a live guard's frame is pinned, holds that guard's page and the map's bytes; pins count guards; nothing dirty lacks a page, so the unwrap in `flush_all` is safe. |
| PoolRuns.NeverExtends | src/storage.rs:220-244 | In no reachable state can writing back a resident page take the branch that extends a file. |
| BufferPools.BufferPool.constructor | src/buffer_pool.rs:104-121 | All frames empty and free; the map is the disk. |
| BufferPools.BufferPool.SelectVictimClock | src/buffer_pool.rs:136-152 | The loop over frame objects does exactly what the sweep over values does. |
| BufferPools.BufferPool.SelectVictim | src/buffer_pool.rs:154-163 | The free list first, then the sweep. |
| BufferPools.BufferPool.EvictPage | src/buffer_pool.rs:164-187 | The objects follow the model of an eviction. |
| BufferPools.BufferPool.GetPage | src/buffer_pool.rs:189-231 | The objects follow the model; the map stays; without live guards it succeeds exactly when there is a frame and the page exists. |
| BufferPools.BufferPool.CreatePage | src/buffer_pool.rs:233-278 | The objects follow the model; exactly when it succeeds, with which error it fails, and which page is new. |
| BufferPools.BufferPool.DropGuard | src/buffer_pool.rs:85-89 | One live guard less, same map. |
| BufferPools.BufferPool.ReadGuard | src/buffer_pool.rs:71-73 | A live guard shows the map's bytes for its page. |
| BufferPools.BufferPool.TouchGuard | src/buffer_pool.rs:74-77 | Casting for writing marks the frame dirty and changes no byte. |
| BufferPools.BufferPool.InsertThrough | src/page/heap.rs:54-76 | Casting a guard and inserting: the answer of the slotted page, or `PageCast`, and the map changes in that page only. |
| BufferPools.BufferPool.FlushAll | src/buffer_pool.rs:122-132 | Answers Ok; the map stays and the page files alone hold it. |
| BufferPools.BufferPool.OpenFile | src/storage.rs:106-157 | Opening through the pool's storage: exact answers, and the map gains exactly the file's pages. |
| HeapFiles.TryInsertIntoPage | src/execution/insert.rs:43-68 | The page's own answer if it is there; otherwise a new page takes the record, or the file cannot grow; the current page follows. |
| HeapFiles.HandleFullPage | src/execution/insert.rs:70-79 | A new empty heap page at the file's end becomes the current one, exactly when the file can grow. |
| HeapFiles.InsertRecord | src/execution/insert.rs:81-93 | At most two attempts, and the exact answer: the current page's own, or a new page's if that is full or not there, or why there is none; on Ok one record is new at the returned place and nothing else in any file changed; otherwise nothing changed at all. |
| HeapFiles.InsertAddsRow | src/execution/insert.rs:81-93 | The table's rows gain exactly this record, right behind the rows of the page it went to - so at the end, if that is the last page - and all other files keep theirs. |
| HeapFiles.RowInserted | src/execution/insert.rs:43-93 | A record added to a heap page comes after the rows up to that page and before those of the later pages. |
| HeapFiles.FileGainsRow | src/execution/insert.rs:43-93 | So the file's rows are the old ones with that record put in at one place, and no other change. |
| HeapFiles.RowOrderExactly | src/execution/insert.rs:43-93 | The record becomes the last row if and only if no different row stands on a later page. |
| HeapFiles.FillInserted | src/execution/insert.rs:43-93 | What an insert makes of the fills of the file's pages. |
| HeapFiles.PlaceCounted | src/execution/insert.rs:43-93 | The fills tell how many rows the file holds and where an insert puts its row. |
| HeapFiles.SmallRecordsAccepted | src/execution/insert.rs:81-93 | With records of at most 190 bytes an insert never panics and succeeds whenever the file can grow. |
| HeapFiles.AddHeapPage | src/buffer_pool.rs:233-278 | Creates a heap page and lets it go, exactly when the file can grow. |
| NullBitmap.GenNullBitmap | src/tables.rs:132-144 | The bitmap set bit by bit in place is the bitmap of the whole tuple. |
| NullBitmap.BitmapBytes | src/tables.rs:132-144 | The bitmap's bytes: bit 7 - i % 8 of byte i / 8 is set for exactly the Null columns, and the bits behind the last column are clear. |
| NullBitmap.BitmapBits | src/tables.rs:199-213 | The bit read for a column says whether it is Null, for any number of columns. |
| Values.Utf8Exactly | src/tables.rs:199-250 | Valid are exactly the encodings of sequences of Unicode scalar values, by the table in section 3 of RFC 3629. |
| Values.TupleCheckExactly | src/tables.rs:361-374 | Every outcome of the check: another number of values gives false; else the first value that is Null or of another type decides, a Null by a panic, another type with false; without one it is true. |
| Values.CheckPanicsExactly | src/tables.rs:361-374 | So it panics if and only if the first value that does not fit is a Null. |
| Values.ValidTuples | src/tables.rs:361-374 | It says yes exactly to null-free tuples of the schema's types. |
| RecordCodec.Serialize | src/tables.rs:146-197 | Header and variable area built side by side are the record's encoding. |
| RecordCodec.Deserialize | src/tables.rs:199-250 | The loop decodes column by column as `Decode` does, errors and panics included. |
| RecordCodec.ReadAttribute | src/tables.rs:46-101 | The loop of `get_attr` over any bytes is `GetAttr`. |
| RecordCodec.GetAttrReads | src/tables.rs:46-101 | On the record of a null-free tuple it reads column idx, and past the last column it answers an error. |
| RecordCodec.RecordExample | src/tables.rs:112-197 | The twelve bytes of one record. |
| RecordCodec.FixedReadExactly | src/tables.rs:46-101 | Over any bytes: reading an int, float or Boolean panics exactly if they end too early, and else answers the value stored as these bytes; what decoder and `get_attr` make of a byte that is no Boolean. |
| RecordCodec.VariableReadExactly | src/tables.rs:46-101 | Over any bytes: a string or blob is where four bytes say, or it is a panic, or no UTF-8. |
| RecordCodec.RoundTripExactly | src/tables.rs:112-250 | Decoding the encoding gives the tuple back if and only if the shift of the variable area caused by its Nulls does not show. |
| RecordCodec.RoundTrip | src/tables.rs:112-250 | So it does for every tuple without Nulls, or without string and blob bytes. |
| RecordCodec.NullBeforeString | src/tables.rs:124-191 | A Null INT before the string "a" does not come back. |
| Expressions.EvaluatorsAgreeExactly | src/expr.rs:57-295 | For every expression and every tuple a table can store: evaluating over the record's bytes gives the value, error or panic of evaluating over the tuple, if and only if evaluation does not reach a column the tuple does not have; if it does, one answers an error and the other panics. |
| Expressions.EvaluatorsAgree | src/expr.rs:57-295 | So the two agree on every expression with attributes in range. |
| Expressions.TablesAgree | src/expr.rs:57-295 | For every operator and every pair of values the source's arms give the value, error or panic that the operator means on operands of these types. |
| Expressions.OperandsExactly | src/expr.rs:57-295 | Which operand types each operator takes, and that all others are refused; a Null makes all but AND and OR Null. |
| Expressions.OrderedComparison | src/expr.rs:57-295 | Comparisons of ints and of Booleans. |
| Expressions.ByteComparison | src/expr.rs:97-125 | Comparisons of strings and of blobs: by the first byte in which they differ, a proper prefix first. |
| Expressions.IntArithmetic | src/expr.rs:126-173 | The mathematical result if it is an i32 and a panic if not; quotients have a remainder smaller than the divisor, with the dividend's sign; dividing by zero panics. |
| Expressions.DivisionExamples | src/expr.rs:160-173 | 7 by 2 in all four signs, and the quotient that overflows. |
| Expressions.AttrAgreesExactly | src/expr.rs:57-295 | In particular a bare column reference agrees if and only if it is in range. |
| Expressions.ThreeValuedLogic | src/expr.rs:174-295 | AND, OR and NOT are minimum, maximum and complement of false < Null < true, and refuse everything else. |
| Expressions.NullMonotone | src/expr.rs:174-295 | Without null tests, replacing Nulls by values never changes an answer that was not Null. |
| Expressions.NullTestsAreNotMonotone | src/expr.rs:174-295 | With IS NULL it can. |
| Expressions.EvaluateWellTyped | src/expr.rs:174-295 | Evaluation makes no string that is not UTF-8. |
| Expressions.LexLessExactly | src/expr.rs:97-125 | Below is the proper prefix, or the one with the smaller byte where they first differ. |
| Expressions.LexTrichotomy | src/expr.rs:174-295 | Of two byte strings exactly one is below the other, or they are equal. |
| ValueOrder.CompareFlips | src/value.rs:117-141 | Any two values compare, swapping them flips the answer, and a value equals itself. |
| ValueOrder.CompareExactly | src/value.rs:117-141 | For any two values: by type first; false before true, ints by value, numbers with a float by sign and magnitude, strings and blobs by the first differing byte. |
| ValueOrder.EqualityAgreesExactly | src/value.rs:94-141 | For any two values, `==` and `cmp` agree on whether they are equal if and only if they are not numbers compared as floats that are both the same NaN or two different zeros. |
| ValueOrder.NaNIsNotItself | src/value.rs:94-141 | A NaN compares as the same as itself and is not equal to itself. |
| ValueOrder.ZerosAreApart | src/value.rs:94-141 | 0.0 and -0.0 are equal and do not compare as the same. |
| ValueOrder.TransitiveExactly | src/value.rs:117-141 | On values whose ints lie in a range, `cmp` is transitive if and only if the conversion to float is strictly increasing there. |
| ValueOrder.NeverTransitive | src/value.rs:117-141 | On all values it is not, for any conversion that does not make the largest int a NaN. |
| ValueOrder.RoundingBreaksOrder | src/value.rs:117-141 | The ints 2^24 and 2^24 + 1 and the float they round to show it. |
| Binding.ResolveColumn | src/planner/binder.rs:272-304 | Stopping at the second match, it answers the column exactly when one column of that name is in reach, and an error otherwise. |
| Binding.ColumnOfExactly | src/planner/binder.rs:272-304 | A name resolves to a column if and only if that is the only column of that name in the tables its qualifier allows; else it is a parse error. |
| Binding.BindingKeepsMeaning | src/planner/binder.rs:152-256 | For every SQL expression that binds, evaluating the bound one gives the SQL expression's own meaning, Nulls, errors and panics included. |
| Binding.ComparisonMeaning | src/planner/binder.rs:188-199 | What the binder writes with OR and NOT for >=, <= and <> is the native comparison on any two values, Nulls and errors included; on strings and blobs >= is the complement of <. |
| Binding.SqlByteOrder | src/planner/binder.rs:188-199 | <, >, <= and >= on strings and on blobs, by the first differing byte. |
| Binding.BindsExactly | src/planner/binder.rs:152-256 | An expression binds if and only if it is of a supported form with resolvable columns; otherwise the answer is a parse error. |
| Binding.BoundAttrsInRange | src/planner/binder.rs:272-304 | Attributes of a bound expression are columns of the table. |
| Binding.ParseProjection | src/planner/binder.rs:126-139 | The loop answers no columns at the first wildcard, the bound items otherwise, or the first error. |
| Binding.BoundListKeepsMeaning | src/planner/binder.rs:51-57 | A bound list of values has the SQL list's meaning. |
| SeqScans.SeqScan.constructor | src/execution/seq_scan.rs:27-49 | The cursor starts before all the table's rows. |
| SeqScans.SeqScan.NextOnPage | src/execution/seq_scan.rs:77-117 | Over one page: the first answer among its records from the slot on, and the slot behind it. |
| SeqScans.SeqScan.VisitPage | src/execution/seq_scan.rs:52-117 | Fetches the page, passes non-heap pages, lets the page go again; the map stays. |
| SeqScans.SeqScan.NextTuple | src/execution/seq_scan.rs:51-126 | The next answer among the rows before the cursor, which then stands behind the row it came from; None exactly when no row answers. |
| SeqScans.Scan | src/transaction.rs:24-37 | Collecting gives all answers of the table's rows in page and slot order, or the first failure; it terminates and changes nothing. |
| SeqScans.CollectStep | src/transaction.rs:24-37 | Collecting is taking the next answer again and again. |
| SeqScans.ScanRefines | src/execution/seq_scan.rs:51-126 | A scan over stored records with the byte evaluator is filter, then project, over the tuples with the other one. |
| SeqScans.SelectAll | src/execution/seq_scan.rs:91-113 | Without filter and columns it gives all tuples back in order. |
| CatalogCodec.SchemaToBytes | src/tables.rs:335-345 | The loop is the schema's encoding, with the first column's error if there is one. |
| CatalogCodec.SchemaFromBytes | src/tables.rs:346-359 | The loop is the decoder, with its first error or panic. |
| CatalogCodec.ColumnRoundTrip | src/tables.rs:275-322 | A column decodes to itself before any further bytes, and says how many bytes it took. |
| CatalogCodec.SchemaRoundTrip | src/tables.rs:335-359 | So does a schema, before any further bytes. |
| CatalogCodec.EntryRoundTrip | src/catalog.rs:24-67 | So does a catalog entry. |
| CatalogCodec.SchemaEncodesExactly | src/tables.rs:275-345 | A schema encodes if and only if its column names have at most 255 bytes; into 4 bytes and, per column, 3 and its name. |
| CatalogCodec.EntryEncodesExactly | src/catalog.rs:24-44 | An entry encodes if and only if all names have at most 255 bytes and the schema takes at most 65535; its length; else an integer conversion fails. |
| CatalogCodec.SchemaExample | src/tables.rs:275-345 | The bytes of a schema with a column of every type. |
| CatalogCodec.EntryExample | src/catalog.rs:24-44 | The bytes of one entry. |
| CatalogCodec.ColumnDecodesExactly | src/tables.rs:287-322 | Which bytes decode as a column, that all others panic, and that what decodes encodes to these bytes. |
| CatalogCodec.DecodesOrPanics | src/catalog.rs:45-67 | Bytes that are no schema or no entry make decoding panic, never answer an error. |
| CatalogCodec.LossyExactly | src/catalog.rs:45-67 | The lenient string decoding keeps exactly the valid strings. |
| CatalogCodec.LossyReplaces | src/catalog.rs:45-67 | Elsewhere it puts U+FFFD. |
| CatalogCodec.BrokenExactly | src/catalog.rs:45-67 | One for the longest beginning of a character there is, or for one byte. |
| CatalogCodec.LoadAppended | src/catalog.rs:75-97 | One more entry on the page is one more in the loaded map, replacing an older one of its name. |
| DatabaseState.FileNameInjective | src/database.rs:109 | Tables of different names have different files, and only a table called catalog would have the catalog's. |
| DatabaseState.FixedNames | src/database.rs:24-45 | The names the engine uses itself: the catalog's, its file's, its columns', and a table's file. |
| DatabaseState.SchemaReadsBack | src/tables.rs:404-424 | The only record on page 0 of a table's file decodes to the table's schema. |
| DatabaseState.HoldsOneMore | src/execution/insert.rs:43-93 | An insert makes the tuples a table's file holds one longer: at the end, if it went to the last page. |
| DatabaseState.SmallRowsLeaveRoom | src/execution/insert.rs:81-93 | When a table's rows are at most 190 bytes, its current page with n records has at most 194 n bytes in use. |
| DatabaseState.SmallFillTakes | src/page/mod.rs:142-159 | Such a page takes another record of at most 190 bytes or is full; it never panics. |
| DatabaseState.InsertConsistent | src/execution/executor.rs:32-46 | An insert keeps everything the database promises, new or reopened, and adds its tuple to its own table only. |
| DatabaseState.UnusedFileChanges | src/database.rs:115-147 | Opening or initialising a file that no table uses disturbs no table. |
| DatabaseState.EntryOnPage | src/database.rs:96-106 | With one more entry on the page a reload finds it under its name, and every other entry as before. |
| DatabaseState.TableAdded | src/database.rs:115-150 | A table with an id and a file of its own joins without disturbing the others. |
| Databases.NewTable | src/tables.rs:387-433 | Whatever file it is given, exactly what it answers and leaves; a fresh file ends up with the schema as the only record of page 0 and an empty heap page, exactly when the schema fits on a page; no other file changes. |
| Databases.InitTable | src/tables.rs:404-424 | The schema's bytes become one more record of page 0 and an empty heap page comes behind; which error or panic it is when one of the two fails, and what is left then. |
| Databases.Database.UpdateCatalog | src/database.rs:96-106 | On any database: answers that the entry does not encode, or what the catalog page answers to it; the map in memory has the entry in any case, what the page stands for only on Ok; only the catalog file changes. |
| Databases.Database.OpenTableFile | src/database.rs:126-130 | The file comes into the map under an id not used before, as a new file or with the pages on disk; nothing else changes, and on failure nothing at all. |
| Databases.OpenedUnused | src/database.rs:109-130 | The file of a name not in use is one that no table uses. |
| Databases.Database.AdoptTable | src/database.rs:115-125 | The branch for a file that is there: a name and a table, no catalog entry and no change to any page. |
| Databases.AdoptKeeps | src/database.rs:115-125 | It keeps all promises unless the id is another table's. |
| Databases.Database.Register | src/database.rs:132-145 | Entry first, then the name; the exact answer, and on anything but Ok no name is taken. |
| Databases.Database.FillTable | src/database.rs:147-150 | The new table's file ends up with its schema on page 0 and an empty heap page, exactly when the schema fits; no other file changes. |
| Databases.Database.MakeTable | src/database.rs:126-150 | On any database: the file is opened in any case; the answer is that no file id is left, or what encoding the entry and the catalog page answer; on Ok the table is empty, named and in the catalog, and otherwise no table changed. |
| Databases.MakeKeeps | src/database.rs:126-150 | It keeps all promises unless the id is another table's, whether it succeeds or not. |
| Databases.Database.CreateTable | src/database.rs:108-151 | All three branches, on any database, reopened ones and ones with an id given out twice included: what is answered, and the whole state after. |
| Databases.CreateKeeps | src/database.rs:108-151 | `create_table` keeps all promises - rows of every table, catalog page, ids, paths - unless the new table's id is another's. |
| Sessions.StoreRecord | src/execution/insert.rs:29-40 | A record goes into a table: the storage's exact answer, and on Ok one record more in its file and one tuple more in its rows at the same place. |
| Sessions.ExecuteInsert | src/execution/executor.rs:32-46 | On any database, reopened ones included: why the values come to no record, or the storage's exact answer; then one record more in the table's file and one tuple more in its rows at the same place; or nothing changed. |
| Sessions.AdmittedExactly | src/execution/executor.rs:32-46 | Why values come to no record, case by case: their number, the first Null or other type, a record over 8169 bytes. |
| Sessions.InsertKeeps | src/execution/executor.rs:32-46 | An insert, taken or refused, keeps all promises. |
| Sessions.ExecuteSelect | src/execution/executor.rs:24-31 | Unknown table, parse error, or the collected answers of the bound query over the table's rows; the map stays. |
| Sessions.BoundAnswer | src/planner/binder.rs:107-150 | What the bound query makes of a tuple is what the SELECT's own items and WHERE mean for it. |
| Sessions.SelectRefines | src/execution/executor.rs:24-31 | Scanning the pages that hold some tuples with the bound query answers what the SELECT means for those tuples. |
| Sessions.SelectExactly | src/execution/seq_scan.rs:77-117 | Of any SELECT that binds: it is Ok if and only if every tuple makes the WHERE true, false or Null and can be shown if it is true; then it answers the tuples of which the WHERE is true, all of them, in order, as the items show them; else the first other tuple decides, by what fails or as a comparison that is invalid. |
| Sessions.SelectPanicsExactly | src/execution/seq_scan.rs:77-117 | It panics if and only if that first tuple makes the WHERE or an item panic. |
| Sessions.FilterPicks | src/execution/seq_scan.rs:87-96 | Which tuples those are, by their places: every one that is wanted, once, in order. |
| Sessions.RunSelect | src/planner/binder.rs:107-124 | On any database a SELECT changes nothing and answers the collected rows of the bound query. |
| Sessions.RunInsert | src/planner/binder.rs:36-65 | On any database an INSERT inserts what its values mean as SQL expressions, or answers exactly why not. |
| Meanings.SelectHasMeaning | src/execution/executor.rs:24-31 | Where the database keeps its promises that is the SELECT's own meaning for the table's tuples. |
| Meanings.SelectAnswers | src/execution/executor.rs:24-31 | The same as a statement: `WHERE` keeps exactly the tuples it is true of. |
| Meanings.ExtentAnswers | src/execution/insert.rs:43-93 | A table's pages answer to a record - Ok, which error, or panic - as the fills of its pages and its current page say. |
| Meanings.ExtentGrows | src/execution/insert.rs:43-93 | What an insert makes of fills and current page, and where among the rows it puts its row. |
| Meanings.PanicsExactly | src/page/mod.rs:142-159 | A statement on tables whose rows are known panics if and only if the first tuple a SELECT does not get past makes the WHERE or an item panic, an INSERT's values do or the first of them that does not fit is a Null, its record is larger than what lies below the lowest one on the current page, an entry is on the catalog page, or no file id is left. |
| Meanings.InsertHasMeaning | src/execution/executor.rs:32-46 | Where the database keeps its promises: exactly what an INSERT answers, refusals and panics included; on Ok the table's tuples are one more at an exact place, and all other tables keep theirs. |
| Meanings.EntryByFill | src/database.rs:96-106 | The catalog page answers to an entry as its fill says, and on Ok its fill grows by the entry. |
| Meanings.CreateHasMeaning | src/database.rs:108-151 | Where the database keeps its promises: exactly what a CREATE TABLE answers and leaves - names, files, both catalogs, rows; every other table keeps its rows and the fills of its pages. |
| Meanings.CreateAnswersExactly | src/database.rs:96-150 | What a CREATE TABLE of a new table answers, by the lengths of its names and how full the catalog page is. |
| Meanings.Execute | src/execution/executor.rs:21-56 | Every statement on every database that keeps its promises, new or reopened, does what `StepMeaning` says and keeps them, unless it gives out an id twice. |
| Restarts.LoadCatalog | src/catalog.rs:75-97 | Reads the catalog page through the pool and answers the map its records stand for. |
| Restarts.OpenTables | src/database.rs:71-79 | Opening the files of all entries in any order gives every entry its table on the pages that were on disk; why it can fail. |
| Restarts.OpenDatabase | src/database.rs:67-90 | Loads the catalog and opens every entry's table on its pages; the result keeps all promises again; why it can fail. |
| Restarts.Start | src/database.rs:67-90 | The same from the directory's bytes, for any number of frames. |
| Restarts.FirstStart | src/database.rs:61-90 | A directory without a catalog always starts, without tables and with nothing on the catalog page. |
| Restarts.DiskReopens | src/storage.rs:106-157 | Every file a database leaves on disk opens again, page for page. |
| Restarts.WrittenReopenable | src/database.rs:132-143 | The entries on the catalog page of any database have their own names, files and ids. |
| Restarts.FewEntries | src/database.rs:71-79 | Entries with different ids below a bound are fewer than the bound. |
| Restarts.IdsSuffice | src/database.rs:71-79 | So a restart cannot run out of file ids. |
| Restarts.WrittenStartable | src/database.rs:67-90 | What any database leaves on disk can be started on, and loads the catalog that was on its page. |
| Restarts.RestartKeeps | src/database.rs:67-90 | What is seen before and after: the same rows and entries, the catalog in memory the one on the page, the same files, all pages' fills as they were, inserts from page 1 on again, file ids counted from the number of entries. |
| Restarts.Restart | src/database.rs:161-165 | Flush on drop, then start again, from any database that keeps its promises, itself reopened or not: it always succeeds, the result keeps them again, and every table with a catalog entry stores the same tuples in the same order. |
| Lives.Happen | src/database.rs:61-165 | One event, a statement or a restart, does what it means to a database that keeps its promises, and leaves one that does. |
| Lives.WouldCollide | src/database.rs:115-150 | Whether a statement would succeed in making a table under an id that another has; found out by reading the catalog page, without changing anything. |
| Lives.Live | src/database.rs:61-165 | From a new directory, any events in any order: each does what it means; the run stops early only on a panic or before an id is given out twice. |
| Lives.FillsOfHeld | src/execution/insert.rs:43-93 | The fills of a table's pages agree with its rows: their number, and that only page 1 can be empty. |
| LifeRows.InsertOrderExactly | src/execution/insert.rs:43-93 | An INSERT that answers Ok adds its tuple at the end if and only if no different tuple stands behind its place; nothing stands there exactly if the record goes to the last page or a new one. |
| LifeRows.RowsAreInserts | src/execution/executor.rs:32-46 | Between any two points of a life a table's tuples become those it had plus those of the INSERTs that answered Ok, whatever else happened. |
| LifeRows.OrderExactly | src/execution/insert.rs:43-93 | At every point in between they stand in insertion order if and only if every one of these INSERTs kept it. |
| LifeRows.SelectStarIsInserts | src/execution/executor.rs:21-56 | `SELECT *` on a table made in this life answers exactly the tuples of the INSERTs that answered Ok since, restarts or not; in order, if every insert kept it. |
| LifeRows.SelectWhereIsInserts | src/execution/executor.rs:21-56 | With a WHERE: exactly those of them of which it is true. |
| LifeRows.OrderIsKept | src/execution/insert.rs:43-93 | They did if there was no restart between the table's creation and its last insert; later restarts do not matter. |
| LifeRows.NothingIsLost | src/execution/executor.rs:32-46 | If every INSERT into the table is small and suits the schema, every one answers Ok, so those are all of them. |
| LifeCatalog.CatalogIsCreates | src/database.rs:132-143 | What the catalog page stands for at any point of a life is the entries of the tables made so far, no others. |
| LifeCatalog.EntriesAreCreates | src/database.rs:132-143 | Each entry comes from a CREATE TABLE of that name and schema that answered Ok. |
| LifeCatalog.CatalogsStep | src/database.rs:96-106 | A statement leaves the catalogs in memory and on the page the same if and only if it is not a CREATE TABLE of a new table that was refused after its file was opened. |
| LifeCatalog.StaysDrifted | src/database.rs:96-150 | Once they differ no statement makes them the same again: the refused name's file is there now. |
| LifeCatalog.CatalogsExactly | src/database.rs:96-150 | Between restarts they are the same at a point if and only if no CREATE TABLE was refused before it. |
| LifeCatalog.SessionsBeginInStep | src/database.rs:67-90 | A restart makes them the same. |
| LifeCatalog.LiveAndLoad | src/catalog.rs:75-97 | End to end: live through any events, then load the catalog page; it never fails, the entries are exactly those of the tables made, each by a CREATE TABLE that answered Ok, and they are the catalog in memory if and only if none was refused since the last restart. |
| LifeIds.CreatesSucceed | src/database.rs:96-150 | From a new directory on, restarts or not, CREATE TABLEs of different new tables, with names of at most 252 bytes and columns of at most 255, all answer Ok as long as the sum of 19 + 2 name + (3 + column name, for each column) is at most 8173. |
| LifeIds.RunsToItsEnd | src/database.rs:96-150 | And such a life runs to its end unless an INSERT or SELECT panics. |
| LifeIds.EndsExactly | src/database.rs:61-165 | A life ends early only before a CREATE TABLE that would give out an id twice or behind a statement that panics by `PanicsExactly`. |
| LifeIds.FirstSessionNeverCollides | src/database.rs:108-151 | Without a restart no id is ever given out twice. |
| LifeIds.MadeTablesNeverCollide | src/database.rs:67-151 | With restarts, no new table's id is, as long as every CREATE TABLE before it made its table or named a known one. |
| LifeIds.RestartCollidesExactly | src/database.rs:67-79 | Right after a restart a new table that the catalog page takes gets another table's id if and only if some table's id is one more than the number of entries. |
| LifeIds.AdoptedIsGone | src/database.rs:115-125 | A CREATE TABLE that found its file on disk answers Ok, and after a restart its table is not found. |
| LifeWitnesses.OrderLost | src/execution/insert.rs:43-93 | The engine run on a table with two records of 4090 bytes, a restart and a third of 6 bytes: `SELECT *` answers the third between the other two. |
| LifeWitnesses.IdGivenTwice | src/database.rs:67-151 | The engine run on a table whose 8177-byte entry the catalog page refuses, one that it takes, and a restart: the refused entry is in memory only, and the next new table would get the second one's id. |

## Left out

* The TCP server, worker threads, binaries, logging, timing and the text of messages.
* SQL text: the binder gets a small expression type of the supported forms, with literals already
  parsed; of a statement only table, items, WHERE, values and columns are kept, with one table in FROM.
* `LIKE` and `drop_table`, which are `todo!()` in the source; LIKE is a panic here. Plan nodes that
  nothing executes.
* Failing, short or interrupted I/O and crashes: only the checks the code makes itself are modelled.
* Concrete float arithmetic, see above; so unary minus on a float is 0 minus the float, as the binder
  writes it.
* Lifetimes, `RefCell` borrows and `Cow`: data and guards are modelled directly. Pin counts are
  unbounded integers.
* A table is a value that is replaced in the map of tables where the source changes it in place
  through `get_mut`; no alias of it exists there.
* Two paths for one file: paths are names inside the database directory. A table called `catalog`
  is never made, because the name is taken from the first start on.
* `get_slot_mut`, the next-page header field and `list_tables`, which nothing the model covers uses.
* What follows after a table id was given out twice: `Databases.Database.CreateTable` says what that
  statement itself does and statements still run, but which rows are left is not followed further, and
  no restart from there.
- Storage.StorageManager.OpenOrCreateFile: not for the path of catalog.db, which the source keys by another spelling of the path, so that it would open the same bytes a second time under another id; only `Database::create` could ask for it, which nothing calls, and CREATE TABLE finds the name taken.
- BufferPools.BufferPool.OpenFile: not for the path of catalog.db, as above.
- Databases.Database.AdoptTable: the rows of a file found on disk are not known; INSERT and SELECT on such a table keep all promises, an INSERT has its exact answer, and SELECT has `SeqScans.Scan`.
- Meanings.PanicsExactly: not for a SELECT on such a table or on the catalog's own, whose rows are not known.
- Lives.Live: stops before a CREATE TABLE that would succeed under an id in use; `LifeIds.RestartCollidesExactly`, `MadeTablesNeverCollide` and `FirstSessionNeverCollides` say when that can be.
