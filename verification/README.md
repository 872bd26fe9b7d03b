# Verification of the snapshot tools

A Dafny model of three families of programs and the file formats between them: `fileops_indexer` and `proc_snapshot`,
which write hash-indexed snapshot files from several processes at once; `db_diff`, which compares two snapshots; and
`fileops_manager` with its `fileops_worker` processes, which list a directory tree through shared-memory rings into an
INV4 database. `dafny verify dfyconfig.toml` checks everything.

## How it is organised

| files | what they hold |
|---|---|
| `Memory`, `Format`, `Records` | bytes, `pread`/`pwrite`, the fixed header and the two record layouts, the byte readers and comparators |
| `Index` | the records of a file as a log, bucket chains, the four shapes a bucket's index goes through, walks over the bytes |
| `Writers`, `WriterInvariant`, `WriterSteps`, `WriterRuns` | any number of processes, one system call per step; invariant, one lemma per program point, theorems over all runs |
| `WriterCalls`, `WriterSolo` | what one call of append does among the others, and that each call that finds its lock free can be carried through |
| `Database`, `Indexer`, `IndexerOrder` | the sequential code of one process as a class that overwrites its file in place; the tree it indexes, path by path |
| `Diff`, `DiffMeaning`, `DiffLines` | `lookup_entry`, the two passes, what their changes mean, and when which line is printed |
| `Canonical` | the records of a complete snapshot determine its bytes; comparing what concurrent writers leave behind |
| `Fips180`, `WordLaws`, `Fips180Example`, `Sha256` | the standard over bits and whole messages, what its word operations compute, its first example; the streaming context over arrays |
| `Rings`, `Pool`, `PoolInvariant`, `PoolSteps`, `PoolRuns`, `PoolShortfalls` | the rings, the manager and workers as a state machine, theorems over all runs, and four runs that lose something |
| `PoolListing`, `PoolProgress` | the tree listed from the top, against what the pool emits; when the workers are stuck, and a run that deadlocks |
| `Pipe`, `Inventory` | reassembly of worker messages; the INV4 file, `verify`, and the final drain |

The snapshot file is one byte sequence. A ghost log names its records; the invariant says the log tiles the file and
that the head, tail and link bytes of every bucket say what the log says. In `Writers` a step is one `pread`, one
`pwrite`, one atomic append, or one lock operation of one process; only the lock holder's bucket may be out of step,
and by how much depends only on the holder's program counter. In `Pool` a step is one semaphore operation or one
critical section; history fields record what was done, emitted, appended and posted.

Assumed throughout: a little-endian host, reads and writes that succeed in full, snapshot files below 2^32 - 1 bytes,
INV4 files below 2^31 bytes.

## Where the code falls short of what one would expect

* The pool can announce its end while a worker sits between taking a job out of the ring and counting itself active.
  `PoolShortfalls.PrematureEnd` is such a run, ending with a directory and its file lost. `PoolRuns.AnnouncedRightly`
  is the exact condition: the announcement is right if and only if no worker is in that window.
* The manager checks for the end before its `sem_trywait`, not after, so it can take the token that announces the end
  for a result and pop an empty ring (`PoolShortfalls.PopOfNothing`). `PoolRuns.PopIsEmptyExactly` says in terms of the
  tokens when that happens.
* The manager leaves its loop without reading the result ring out when it has reaped every child before it sees the end
  (`PoolShortfalls.ReapedTooEarly`), and the loop that does read it out takes a completely full ring for an empty one
  (`PoolShortfalls.FullRingLost`). `PoolRuns.FinishedInventory` says exactly when the database is right.
* The workers can deadlock: the only consumers of the job ring are its producers, so a directory with more than 2048
  sub-directories stops a single worker for ever (`PoolProgress.FullJobRing`). `PoolProgress.StuckExactly` says in which
  states no worker can go on; a tree of at most 2048 directories never deadlocks
  (`PoolProgress.SmallTreesDoNotDeadlock`).
* `verify` does not end on some damaged files, such as one with an entry of size 0 (`Inventory.ZeroSizedRecord`) or two
  entries that lead to each other (`Inventory.BackAndForth`). `Inventory.WalkEndsExactly` says on which it does.
* The pipe reader drops an unfinished line when the next chunk does not fit (`Pipe.LongLineIsLost`); `Pipe.StreamIsShown`
  says that a stream without NULs arrives whole exactly when that never happens.
* `append_proc_entry` returns 1 for a record whose declared size is wrong, although its comment reserves 1 for
  duplicates and -1 for failures; the model follows the code (`Database.Database.AppendEntry`).
* The resident-size rule makes "unchanged" intransitive (`DiffMeaning.UnchangedIsNotTransitive`).
* The comment on `next_entry` says it tells end of file from error; in bucket mode it returns 0 as soon as the link
  variable is 0, before looking at how much was read. On the files modelled here the read never falls short.

## Model

| member | source | states |
|---|---|---|
| Memory.DecodeEncode | src/db_fileops_utils.c:182-186 | an integer copied into the file byte by byte reads back as itself |
| Memory.FourBytes | src/db_fileops_utils.c:182-186 | four bytes in memory are the number b0 + 256 b1 + 65536 b2 + 16777216 b3 |
| Memory.StringEndsAtNul | src/main_db_diff.c:67 | what the string functions and printf see of a field ends at its first NUL, whatever follows |
| Format.FieldAt | src/db_fileops_utils.c:181-186 | in a serialised record every field sits at the sum of the sizes before it, for any field sizes |
| Format.IdxLayout | src/db_fileops_utils.c:269-312 | the offsets computed by hand by the IDX1 readers are those sums |
| Format.ProcLayout | src/db_proc_utils.c:162-216 | the same for the PRC1 layout, with its three strings |
| Format.EqualKeysShareABucket | src/db_fileops_utils.c:193-196 | equal keys fall in the same locked bucket |
| Records.SerialisedIsRecord | src/db_fileops_utils.c:149-191 | a serialised entry decodes, field by field at the readers' offsets, to the entry, for both layouts |
| Records.IdxRecordBytes | src/db_fileops_utils.c:149-191 | every byte range of an IDX1 record on disk and the field it holds |
| Records.ProcRecordBytes | src/db_proc_utils.c:162-216 | the same for a PRC1 record |
| Records.BucketIsLowByte | src/db_fileops_utils.c:193-196 | the bucket of a record is the low byte of its stored hash, or of its PID |
| Records.KeyIsIdentity | src/db_proc_utils.c:290-311 | two entries have the same key exactly if path and hash agree, or the PIDs do, and they are of one format |
| Records.NextOfRecord | src/db_utils.c:502-547 | from any record next_entry gives the end of the record, or the record its link names, or 0 for link 0 |
| Records.NextAtEnd | src/db_utils.c:514-517 | at the end of the file next_entry gives 0 |
| Records.CompareEntriesIsKeyEquality | src/db_fileops_utils.c:269-320 | the byte comparators return 0 exactly when path and hash, or PID, agree |
| Records.CompareFieldsIsSameFields | src/main_db_diff.c:17-145 | the byte comparators return 0 exactly when no compared field differs, RSS threshold 1024*1024 included |
| Records.ParseOfRecord | src/main_db_diff.c:235-264 | what lookup_entry copies from its buffer is the record's key and compared fields |
| Index.AppendStep | src/db_utils.c:553-560 | appending a record keeps the tiling, leaves every other bucket alone and its own bucket one record behind |
| Index.HeadStep | src/db_utils.c:565-576 | writing the head of an empty bucket advances exactly that bucket |
| Index.TailStep | src/db_utils.c:578-589 | writing the tail advances the bucket; the old tail is the previous record, or the bucket is complete |
| Index.LinkStep | src/db_utils.c:591-612 | patching the old tail's link in mid-file completes the bucket and touches no other record or bucket |
| Index.NextInChain | src/db_utils.c:526-541 | in a complete bucket the link leads to the next record of the bucket, strictly further on, and to 0 at the last |
| Index.NextInFile | src/db_utils.c:523-525 | regular traversal leads from each record to the next and then to the end, never to 0 or 1 |
| Index.IndexAgreesWithScan | src/db_utils.c:502-547 | following a complete bucket's links visits exactly the records a plain scan of the file finds for it, in file order |
| WriterSteps.WriteOk | src/db_utils.c:553-560 | the append step of any process keeps the invariant, whatever the others are doing |
| WriterSteps.SetLinkOk | src/db_utils.c:605-609 | so does the write into the middle of the file |
| WriterSteps.FollowOk | src/db_fileops_utils.c:233-239 | the duplicate scan has ruled out every record up to where it stands, and ends only when it has ruled out all |
| WriterRuns.StepKeepsInv | src/db_utils.c:553-613 | every step of every process keeps the invariant |
| WriterRuns.UnlockedBucketsAreIndexed | src/db_utils.c:553-613 | in every reachable file the records fill the space after the header, and every unlocked bucket's chain runs from the record its head slot names to the one its tail slot names, visits exactly its records in file order, and ends in link 0 |
| WriterRuns.LockedBucketShape | src/db_utils.c:553-613 | a locked bucket is in the intermediate shape its holder's position names |
| WriterRuns.NoTwoRecordsShareAKey | src/db_fileops_utils.c:193-261 | in every run no two records have the same path and hash, or the same PID |
| WriterRuns.HandlesAreCounted | src/db_utils.c:41-201 | ACTIVE_WRITERS is the number of open handles and SEALED means none, but between the last closer's two writes |
| WriterRuns.AloneWhenSealed | src/db_utils.c:89-94 | whoever finds the file sealed under the header lock is the only process in it |
| WriterRuns.TruncationIsAlone | src/db_utils.c:89-94 | a step keeps every record where it is, with its key and compared fields, unless it re-initialises a sealed file with nobody else in it |
| WriterRuns.RecordsAreCounted | src/main_fileops_indexer.c:47-102 | RECORD_COUNT plus what recursion frames hold plus what is not counted yet is the number of records |
| WriterRuns.ClosedMeansComplete | src/main_fileops_indexer.c:79-104 | when all have closed, the file is a complete sealed snapshot with exact RECORD_COUNT |
| WriterRuns.NobodyFails | src/db_fileops_utils.c:218-240 | no run reaches an error return of the scan or of the size read |
| WriterCalls.AppendCall | src/db_fileops_utils.c:193-261 | one call of append among any number of other processes: it reports a duplicate exactly if a record of the bucket had the path and hash, or the PID, when the bucket was locked; then the bucket is as it was, otherwise it has exactly one record more, the entry, at its end |
| WriterCalls.UnlockHasRecord | src/db_fileops_utils.c:243-261 | in every reachable state, a process about to unlock has its path and hash, or its PID, in the file, and without a duplicate the newest record of the bucket is its entry |
| WriterSolo.BucketFreeExactly | src/db_fileops_utils.c:193-209 | a process can start an append exactly if nobody else holds the bucket's byte or the whole header |
| WriterSolo.HeaderFreeExactly | src/db_utils.c:68-88 | a process can lock the header exactly if nobody else holds any part of it |
| WriterSolo.SoloAppend | src/db_fileops_utils.c:143-261 | an append that finds its bucket free can be carried through, to one more record at the end and one more counted, or to nothing changed if the path and hash, or the PID, is in the file |
| WriterSolo.SoloOpen | src/db_utils.c:68-103 | opening an open snapshot counts one active writer more and keeps all records |
| WriterSolo.SoloReopen | src/db_utils.c:89-94 | opening a sealed one leaves one active writer and no records |
| WriterSolo.SoloReturn | src/main_fileops_indexer.c:79-104 | the end of a directory adds its counter to RECORD_COUNT |
| WriterSolo.SoloClose | src/db_utils.c:129-201 | closing counts one active writer fewer, and seals the file exactly if that was the last |
| Database.FieldsTileHeader | include/db_types.h:99-114 | the 775 header fields lie side by side and fill the 2329 bytes |
| Database.GetHeaderFieldIs | src/db_utils.c:205-334 | -1 exactly for a number that is no field, a file that ends before it, or an unknown magic; otherwise 0 for IDX1, 1 for PRC1, and the stored number for every other field |
| Database.GetAfterSet | src/db_utils.c:205-447 | a field reads back what was last stored in it, truncated to its width, and no other field changes |
| Database.SerialiseFields | src/db_fileops_utils.c:181-186 | the buffer-filling loop leaves the fields back to back |
| Database.Database.SetHeaderField | src/db_utils.c:338-447 | 0 and exactly one field overwritten, or -1 and nothing, the latter exactly for a number that is no field or a STATE other than 'O' and 'S' |
| Database.HeaderBytes | src/db_utils.c:451-496 | a fresh header byte by byte: magic, version 100, time, 'O', one writer, no records, first record at 2329, 256 times 'B', 2048 bytes of ones |
| Database.Database.InitializeSnapshot | src/db_utils.c:451-496 | field by field, all 775, the result is the initial header |
| Database.FreshSnapshot | src/db_utils.c:451-496 | a freshly initialised file is a complete snapshot without records |
| Database.Database.UpdateHead | src/db_utils.c:562-576 | the head half of write_to_db advances the bucket to its next shape |
| Database.Database.UpdateTail | src/db_utils.c:578-589 | the tail half does, and hands back the previous tail |
| Database.Database.PatchLink | src/db_utils.c:591-612 | the link half completes the bucket |
| Database.Database.WriteToDb | src/db_utils.c:553-613 | from a complete snapshot to a complete snapshot with one more record at its end |
| Database.Database.FindDuplicate | src/db_fileops_utils.c:211-240 | walking one chain finds the key exactly when some record of the whole file has it |
| Database.Database.AppendEntry | src/db_fileops_utils.c:143-261 | a wrong declared size gives -1, or 1 for a process; an index entry whose path and hash, or a process whose PID, some record has gives 1; neither changes anything; else 0 and one more record at the end |
| Database.Database.AddToRecordCount | src/main_fileops_indexer.c:79-102 | RECORD_COUNT grows by the argument and the snapshot stays complete |
| Indexer.BuildDatabase | src/main_fileops_indexer.c:16-105 | the recursion adds the tree's entries once each, in order, and leaves uncounted records unchanged; it fails exactly on a wrong declared size |
| Indexer.IndexItem | src/main_fileops_indexer.c:41-69 | one directory entry and its sub-tree |
| Indexer.IndexedKeys | src/main_fileops_indexer.c:16-105 | afterwards exactly the old keys and the tree's keys are present |
| Indexer.IndexingIsIdempotent | src/main_fileops_indexer.c:47-57 | indexing the same tree again adds nothing |
| IndexerOrder.OfferedInOrder | src/main_fileops_indexer.c:28-76 | what the recursion offers is the entry at every path of the tree, each directory before its contents and siblings in readdir order |
| IndexerOrder.IndexedTree | src/main_fileops_indexer.c:16-105 | afterwards a key is in the snapshot exactly if it was before, or the entry at some path of the tree has it |
| Diff.LookupEntry | src/main_db_diff.c:200-337 | 3 only at the end of the file; else 2, 1 or 0 as the key is absent, present with a difference, or unchanged in the other log |
| Diff.FindInChain | src/main_db_diff.c:266-336 | the chain walk gives that same answer for the whole other file |
| Diff.LinearLookupIsStatus | src/main_db_diff.c:266-336 | so does looking through all its records one after the other |
| Diff.StepOfWalk | src/main_db_diff.c:423-427 | the traversal takes the outer loop through every record once and then stops it |
| Diff.BufferShowsRecord | src/main_db_diff.c:411-421 | the path or PID printed is that of the record, whatever a longer one left in the buffer |
| Diff.PassOne | src/main_db_diff.c:398-428 | the first loop prints one line per record modified or missing, in file order |
| Diff.PassTwo | src/main_db_diff.c:430-456 | the second prints one line per record the old file lacks, in file order |
| Diff.DbDiff | src/main_db_diff.c:395-458 | on two complete snapshots it returns 0 and prints exactly the changes, one line each; DiffLines.DiffFiles and DiffLines.DiffProcesses say field by field which lines those are |
| DiffMeaning.ReportMeaning | src/main_db_diff.c:398-456 | modified: in both and different; deleted: only in the old; created: only in the new |
| DiffMeaning.ReportOrder | src/main_db_diff.c:398-456 | each pass in file order, and no key reported twice |
| DiffMeaning.SwapSides | src/main_db_diff.c:17-145 | swapping the files swaps deleted and created keys and keeps modified ones |
| DiffMeaning.SameRecordsNothingToReport | src/main_db_diff.c:398-456 | two files with the same records, in any order, differ in nothing |
| DiffMeaning.SelfDiffEmpty | src/main_db_diff.c:398-456 | a snapshot compared with itself prints nothing |
| DiffMeaning.ReportBalances | src/main_db_diff.c:398-456 | new size = old size - deleted + created |
| DiffMeaning.UnchangedIsNotTransitive | src/main_db_diff.c:109-116 | two growths of exactly the threshold each go unreported, their sum does not |
| DiffLines.LineAt | src/main_db_diff.c:411-421 | line i shows the tag and the path or PID of change i |
| DiffLines.FileModified | src/main_db_diff.c:17-72 | "Modificat: t" is among the lines exactly if a path that reads t, with its hash, is in both files with another mtime, checksum, size or type |
| DiffLines.FileDeleted | src/main_db_diff.c:398-428 | "Sters: t" exactly if such a path is only in the old file |
| DiffLines.FileCreated | src/main_db_diff.c:430-456 | "Creat: t" exactly if it is only in the new file |
| DiffLines.ProcessModified | src/main_db_diff.c:75-145 | the modified line of a PID is printed exactly if it is in both files with another name or command line, or a resident size more than 1048576 apart |
| DiffLines.ProcessDeleted | src/main_db_diff.c:398-428 | its deleted line exactly if it is only in the old file |
| DiffLines.ProcessCreated | src/main_db_diff.c:430-456 | its created line exactly if it is only in the new file |
| DiffLines.DiffFiles | src/main_db_diff.c:395-458 | these three statements of db_diff on any two complete indexes |
| DiffLines.DiffProcesses | src/main_db_diff.c:395-458 | and on any two complete process snapshots |
| Fips180.ZeroBitsLeast | src/sha256.c:114-131 | the number of zero bits is the smallest solution of l + 1 + k = 448 modulo 512 |
| Fips180.PaddingIsStandard | src/sha256.c:114-145 | padding on bytes is the padding of FIPS 180-2 section 5.1.1 on bits, for every message under 2^61 bytes |
| Fips180.WordBytesRoundTrip | src/sha256.c:148-157 | the four bytes stored for a word read back as the word |
| Fips180.CubeRoots0 | src/sha256.c:32-41 | the first eight table constants are the leading 32 bits of the fractional parts of the cube roots of the first eight primes; CubeRoots1 to CubeRoots7 say the same of the other rows |
| Fips180.SquareRoots | src/sha256.c:85-97 | the eight initial words are those of the square roots of the first eight primes |
| WordLaws.AddIsModular | src/sha256.c:44-83 | word addition is addition modulo 2^32 of the numbers the binary digits make |
| WordLaws.AddIsByDigits | src/sha256.c:44-83 | digit by digit, with the carries of column addition |
| WordLaws.ChSelects | src/sha256.c:24 | Ch has the bits of its second argument where the first has ones, and those of the third elsewhere |
| WordLaws.MajIsMajority | src/sha256.c:25 | each bit of Maj is the one at least two arguments have |
| WordLaws.TwoAgree | src/sha256.c:25 | and two always agree, so that describes every bit |
| Fips180Example.DigestOfAbc | src/sha256.c:44-158 | the digest of "abc" is that of appendix B.1 of FIPS 180-2 |
| Sha256.ChIsStandard | src/sha256.c:24 | the macro CH is Ch of the standard |
| Sha256.MajIsStandard | src/sha256.c:25 | MAJ is Maj |
| Sha256.RotRightRotates | src/sha256.c:22 | the shift-and-or macro rotates, for every constant used |
| Sha256.Ep0IsStandard | src/sha256.c:26 | EP0 is the upper-case sigma 0 of the standard |
| Sha256.Ep1IsStandard | src/sha256.c:27 | EP1 is the upper-case sigma 1 |
| Sha256.Sig0IsStandard | src/sha256.c:28 | SIG0 is the lower-case sigma 0 |
| Sha256.Sig1IsStandard | src/sha256.c:29 | SIG1 is the lower-case sigma 1 |
| Sha256.LastBlock | src/sha256.c:121-145 | with fewer than 56 bytes left, one block finishes the padded message |
| Sha256.LastTwoBlocks | src/sha256.c:121-145 | with 56 or more, two blocks do |
| Sha256.Context.Expand | src/sha256.c:48-51 | the schedule loops compute W(0) to W(63) |
| Sha256.Context.Transform | src/sha256.c:44-83 | one call is the compression of section 6.2.2 |
| Sha256.Context.Init | src/sha256.c:85-97 | the context of the empty message |
| Sha256.Context.Update | src/sha256.c:99-112 | after any chunk the context stands for the longer message |
| Sha256.Context.Final | src/sha256.c:114-158 | the digest of everything fed, so it does not depend on the split |
| Sha256.HashFile | src/main_fileops_worker.c:287-313 | however read splits a file, the worker's hash is the digest of its content |
| Rings.PutJoins | src/inv_ipc.c:82-84 | with a free slot an item joins the end of the queue and overwrites nothing |
| Rings.DropLeaves | src/inv_ipc.c:111-113 | a non-empty ring hands out its oldest item |
| Rings.PendingIsQueue | src/main_fileops_manager.c:630-642 | reading until head meets tail gets the whole queue if and only if the ring is not completely full |
| Rings.SharedRing.Insert | src/inv_ipc.c:82-84 | the critical section of the enqueue functions on the array |
| Rings.SharedRing.Remove | src/inv_ipc.c:111-113 | the critical section of the dequeue functions on the array |
| PoolSteps.TokensKept | src/inv_ipc.c:63-121 | every semaphore operation and critical section of a worker keeps the token counts |
| PoolSteps.FinishTokens | src/main_fileops_worker.c:347-359 | leaving a directory announces the end only if nothing is queued and nobody is active |
| PoolRuns.JobTokensConserved | src/inv_ipc.c:63-121 | in every run free slots + producers holding one + queued jobs + consumers yet to post = CAPACITY |
| PoolRuns.SlotsNeverMisused | src/inv_ipc.c:96-121 | no run reads an empty job slot or overwrites a full one, even after termination floods job_full |
| PoolRuns.JobRingIsFifo | src/inv_ipc.c:82-118 | in every run a pop hands out the oldest job and an insert adds one at the end |
| PoolRuns.ResultTokensConserved | src/inv_ipc.c:126-174 | in every run the slots of the result ring are accounted for, and each of its tokens stands for a queued result or for the end |
| PoolRuns.ResultsArriveInOrder | src/inv_ipc.c:126-174 | until the manager pops an empty ring, which it cannot before the end, the result ring is a FIFO queue and the database lists results in the order emitted |
| PoolRuns.PopIsEmptyExactly | src/inv_ipc.c:147-170 | a pop finds the ring empty if and only if the posts for the end exceed by one the tokens left in the semaphore or with producers; otherwise it takes the oldest result; it always does when its trywait came before the end |
| PoolRuns.TokenBringsResult | src/inv_ipc.c:147-170 | a manager at its trywait that finds a token not posted for the end takes the oldest result, puts it in the database and gives its slot back |
| PoolRuns.BlockedExactly | src/inv_ipc.c:63-142 | a worker blocks on a ring exactly if its 2048 slots are taken, and on an empty job ring before the end exactly if every queued job is spoken for |
| PoolRuns.DirectoryInOnePlace | src/main_fileops_worker.c:197-331 | every directory within max_depth is always in exactly one of undiscovered, queued, held and done |
| PoolRuns.OnlyDirectoriesAreJobs | src/main_fileops_worker.c:246-250 | and nothing else is ever a job |
| PoolRuns.DrainedMeansDone | src/main_fileops_worker.c:197-331 | once the ring is empty and nobody holds a job, all are done and exactly the files above the depth limit were emitted, once each |
| PoolRuns.WorkRemains | src/main_fileops_worker.c:179-360 | until the end is announced some job is queued or held |
| PoolRuns.NeverAllStarved | src/main_fileops_worker.c:179-360 | before the end the workers can never all wait on an empty job ring |
| PoolRuns.UnfinishedIsInWindow | src/main_fileops_worker.c:347-359 | when the end is announced the ring is empty and unfinished jobs belong to workers not yet counted active |
| PoolRuns.AnnouncedRightly | src/main_fileops_worker.c:347-359 | all directories are done at that step if and only if no worker is in that window |
| PoolRuns.FinishedDirectories | src/main_fileops_manager.c:522-643 | when the manager has finished, all directories were done if and only if the job ring is empty |
| PoolRuns.FinishedInventory | src/main_fileops_manager.c:522-643 | the database lists what was emitted, in that order, if and only if no empty ring was popped and the ring was not full when drained, or empty when the loop was left by reaping; with no job left over, exactly then it lists exactly the regular files |
| PoolListing.ItemsFromTop | src/main_fileops_worker.c:226-331 | the entries of a directory are found by following its path from the root |
| PoolListing.DrainedIsList | src/main_fileops_worker.c:226-331 | once the ring is empty and nobody holds a job, the emitted files are the files of the tree down to max_depth, as listed by recursion from the top, and the directories done are its directories |
| PoolListing.FinishedIsList | src/main_fileops_manager.c:522-643 | when the manager has finished with no job left over, the database is that list exactly if everything was delivered |
| PoolProgress.StuckExactly | src/inv_ipc.c:63-142 | no worker can go on exactly if each has exited, or wants to fill a ring that is full, or waits for a job before the end with none queued; after the end nobody waits for a job |
| PoolProgress.StuckMeansFull | src/inv_ipc.c:63-142 | if that happens before all have exited, a ring is full |
| PoolProgress.EndIsPosted | src/inv_ipc.c:147-151 | once all workers have exited and the manager waits for them, result_full has at least two posts more than there are results, one from the announcing worker and one from the manager |
| PoolProgress.DeadlockIsForever | src/inv_ipc.c:75-77 | once every worker left waits to fill a full job ring, no continuation of the run moves any of them or ends the manager |
| PoolProgress.SmallTreesDoNotDeadlock | src/inv_ipc.c:75-77 | that needs more than 2048 directories within max_depth |
| PoolProgress.FullJobRing | src/inv_ipc.c:75-77 | for every n above 2048, a run in which a single worker meets a directory of n sub-directories and deadlocks |
| PoolShortfalls.PrematureEnd | src/main_fileops_worker.c:197-209 | a run of two workers that exits with a directory undone and its file not emitted |
| PoolShortfalls.PopOfNothing | src/inv_ipc.c:147-170 | a run in which the manager pops an empty result ring |
| PoolShortfalls.ReapedTooEarly | src/main_fileops_manager.c:557-577 | for every n from 1 to CAPACITY a run that does all directories and emits n files, none of which reach the database, because every child was reaped first |
| PoolShortfalls.FullRingLost | src/main_fileops_manager.c:628-643 | a run that emits CAPACITY files, none of which reach the database, because a full ring looks empty |
| PoolShortfalls.NearlyFullRingDelivered | src/main_fileops_manager.c:628-643 | for any smaller number of files, a run that delivers them all |
| Pipe.CutAnywhere | src/main_fileops_manager.c:65-81 | the lines of a stream can be found piece by piece, keeping only the unfinished line |
| Pipe.Reader.ReadMessages | src/main_fileops_manager.c:48-84 | one call prints the completed lines up to their first NUL and keeps the rest; the buffer never overflows |
| Pipe.Reader.PrintLines | src/main_fileops_manager.c:66-73 | the memchr loop prints every completed line in order |
| Pipe.AnyChunking | src/main_fileops_manager.c:46-84 | if nothing is dropped, the lines are those of the stream, however it was cut |
| Pipe.StreamIsShown | src/main_fileops_manager.c:46-84 | for a NUL-free stream, lines, newlines and remainder are the stream if and only if every chunk finds room behind the unfinished line before it |
| Pipe.ShortLinesAreSafe | src/main_fileops_manager.c:59-61 | nothing is dropped if no unfinished line reaches 28672 bytes |
| Pipe.LongLineIsLost | src/main_fileops_manager.c:59-61 | eight full reads without a newline lose 28672 bytes |
| Pipe.OneMessage | src/main_fileops_manager.c:66-73 | a message and its newline print as that message, with nothing left over |
| Inventory.StoredFields | src/inv_ipc.c:442-481 | every field of a stored result reads back at its place |
| Inventory.Walk | src/main_fileops_manager.c:290-298 | the loop of verify does n turns and stops where they lead |
| Inventory.Verify | src/main_fileops_manager.c:199-311 | 0 exactly for a good header, a first_stat_offset that is not negative, a walk that ends there, and as many turns as file_record_count; 1 for a file that does not begin with "INV4" and a NUL, or whose version is not 100 |
| Inventory.WalkFindsTiling | src/main_fileops_manager.c:288-305 | with positive sizes the walk stops, at the right place after n turns exactly if the region is n entries back to back |
| Inventory.AcceptanceIsTiling | src/main_fileops_manager.c:288-305 | so acceptance means the region tiles into exactly file_record_count entries |
| Inventory.WalkEndsExactly | src/main_fileops_manager.c:295-298 | the loop of verify ends if and only if it meets no position twice, and if and only if it has stopped after as many turns as the file has bytes |
| Inventory.ZeroSizeNeverEnds | src/main_fileops_manager.c:295-298 | an entry of size 0 keeps the walk where it is for ever |
| Inventory.ZeroSizedRecord | src/main_fileops_manager.c:295-298 | a file with a good header on which verify never ends |
| Inventory.BackAndForth | src/main_fileops_manager.c:295-298 | another, with sizes 8 and -8 |
| Inventory.HoldsIsAccepted | src/main_fileops_manager.c:288-305 | whatever has been published, verify accepts the file |
| Inventory.InventoryDb.constructor | src/inv_ipc.c:389-438 | start_db leaves an empty database verify accepts, with each of the seven header fields as given |
| Inventory.InventoryDb.AppendResult | src/inv_ipc.c:442-490 | the record goes to the end and first_stat_offset past it; the size check never fires |
| Inventory.InventoryDb.Publish | src/main_fileops_manager.c:525-530 | appending and counting a result keeps the database good, with that result last |
| Inventory.InventoryDb.AppendStats | src/inv_ipc.c:493-499 | statistics go behind the records and change nothing before them |
| Inventory.InventoryDb.Drain | src/main_fileops_manager.c:628-643 | the final loop publishes what head and tail delimit, in FIFO order |
| Inventory.InventoryDb.MarkComplete | src/main_fileops_manager.c:533 | the completeness mark is stored, changes no other byte and does not disturb the database |
| Inventory.PublishAll | src/main_fileops_manager.c:522-670 | start_db, any results, any marks, any statistics: verify returns 0 |
| Canonical.SameRecordsSameFile | src/db_utils.c:553-613 | two complete snapshots with the same records in the same order and the same 281 leading bytes are the same file, so the contract of an append leaves one result only, for one process or many |
| Canonical.CompareClosed | src/main_db_diff.c:395-458 | db_diff prints exactly the changes between any two files that concurrent writers have closed |

## Left out

- open_database: creating a file and initialising its header are one step, as are truncating and re-initialising under the header lock; the race of a second opener before initialisation is not modelled.
- open_database: all openers of one file use the same magic; a second program opening the file under the other format is not modelled.
- Locks are abstract: fcntl byte ranges are taken when free of overlap, processes do not die holding one, and a process does not lock twice.
- Error returns of system calls, and the paths that return without unlocking; write_to_db has no final return value and none is modelled.
- Error returns inside the scans (`-1` of the comparators, `1` of next_entry): the sequential methods omit them because they cannot occur on the files modelled; the concurrent model has them, and NobodyFails shows them unreachable.
- set_header_field with an unknown magic: the source writes through an uninitialised pointer there.
- build_fileops_entry, build_proc_entry and checksum_content: entries come in with their fields; checksum and hash are arbitrary numbers.
- fnv1a: the index only needs some stored hash; for symbolic links it covers less than the stored path, which is why the hash is part of the key.
- check_snapshots: the two files of a comparison are complete snapshots of one format; rules about SNAPSHOT_ID that only the documents mention are not modelled.
- close_database: renaming the file on the last close.
- proc_snapshot's main program: the same appends and counting with less structure.
- Indexer.BuildDatabase: a failing lstat, opendir or entry construction; on failure nothing is said about counts.
- Sha256.Context.Update: chunks of 2^32 bytes or more, on which the 32-bit loop counter never ends.
- Sha256: bytes are numbers, so taking a word apart and putting it together are divisions and sums instead of shifts.
- Pool: shutdown by SIGINT or SIGTERM, SIGUSR1, alarms, simulated work, failing workers, the completeness mark and the statistics stack; SIGCHLD is modelled, as a reaping of any number of exited children at the end of the loop body; scheduling is not assumed fair, so nothing is said about how soon a step is taken.
- Pool: the tree does not change during a run, and two paths never name the same directory.
- Pool: the drain is one step there, since every worker has exited; Inventory.InventoryDb.Drain is its loop.
- Inventory.Verify: is stated for files on which the loop stops, as Inventory.WalkEndsExactly describes them; int overflow of left_pos on damaged files is not modelled.
- dump, STATUS lines and other printing, argument parsing, timing.
