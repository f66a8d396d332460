# Verification models of SecCask

SecCask runs machine-learning pipelines whose components are versioned libraries. This project models four of its
parts in Dafny, and the version store below them, and proves what they promise.

- **ZIP archives** (`Bytes`, `Crc32`, `Struct`, `Zip*`, `FileUtils`). Folders are archived by a streaming writer and
  extracted by an incremental reader. Both are modelled byte by byte: the writer with its running offset, deferred
  directory and overflow checks, the reader with its shared chunk, offset and push-back, and a concrete CRC-32. Each is
  proved equal to a whole-archive specification, and the specifications are proved inverse to each other. A second
  reader, which goes backwards from the end of the archive, checks all offsets.
- **Pipeline-aware caching** (`Vsm`, `VsmTransform`, `History`, `Workers`, `Sequences`, `LruCache`, `LfuCache`,
  `PaCache`). Version score matrices with real numbers, their two transforms, the eviction by a merge over sorted
  cells, and whole-trace theorems for the two baselines.
- **The worker pool** (`WorkerPool`, `Scheduler`, `Protocol*`). The scheduler and its caches as objects, proved against
  functions on a value, and these functions inside a state machine of coordinator, trial manager and worker processes
  with messages in flight and the lifecycle mutex. Safety is proved for every run, and the return of `OnNewComponent`
  by a rank that falls.
- **Trial trees and incremental execution** (`TrialProduct`, `TrialSearch`, `TrialTree`, `TrialManager`). The product
  tree, its two searches and the marking of trained prefixes against a plain description of the candidates; then which
  nodes are executed and where each takes its input.
- **Keys and versions** (`Keys`, `Paths`, `FileStore`, `VersionStore`, `LibraryManager`). Printing and greedy parsing of
  keys, paths as the file system reads them, the append-only file store, the mapping from semantic versions to hashes,
  and the creation of library versions.

## Where the code does less than its documentation suggests

For each point there is a lemma with the exact condition and, where that is not plain, one with an input that meets it.

- A 32-bit archive member of exactly 0xFFFFFFFF bytes is written only beside a 64-bit member, and then cannot be read
  back (`ZipRoundTrip.RoundTrip`, `ZipEdges.SmallArchivesAreReadable`, `ZipEdges.UnreadableMember`). An archive
  without members is rejected by the reader (`ZipEdges.EmptyArchive`).
- How a stream is cut into chunks can be observed after the header of a deflated entry with a data descriptor
  (`ZipStreaming.ChunkingObservable`, `ZipEdges.ObservableStream`).
- All offsets, counts and sizes in an archive are right, but in a 32-bit archive whose end record has a field of all ones
  a reader that starts at the end can take the bytes before that record for a zip64 locator
  (`ZipDirectory.DirectoryRoundTrip`, `ZipEdges.MisreadArchive`).
- A writer that fails leaves its first blocks behind. If it fails in the central directory, the reader can take them for
  a whole archive (`ZipFailure.FailureNoticed`, `ZipEdges.UnnoticedFailure`).
- The second score transform means to extrapolate the version that comes next, and always arrives at the version just
  submitted (`VsmTransform.ExtrapolatesToItself`, which holds for every input). Its guard tests the part that
  did not change, so it fails with an index error where the other part has no cell (`VsmTransform.StepUL`).
- With more than one I/O thread, and two is the default, the `done` message can be handled before the lifecycle strand
  locks its mutex; then the trial manager waits for ever (`ProtocolRuns.StuckOnlyOnManyThreads`,
  `ProtocolProgress.LostExactlyWhenEarly`, `ProtocolRuns.LostUnlock`). In C++, unlocking a mutex that is not locked, or on
  another thread, is undefined; the model takes it to have no effect beyond leaving the mutex free.
- With a single slot an eviction can end the coordinator process, with more it cannot (`ProtocolRuns.SingleSlotExits`,
  `ProtocolSafety.ExitsOnlyAtTheEnd`, `ProtocolRuns.ExitsEarlyOnlyOnOneSlot`).
- A dataset behind the first untrained component is to be executed although it counts as trained, and ends in a key error
  before anything is executed (`TrialManager.UnderWay`, `TrialManager.DatasetBehindLibrary`); committing a pipeline that
  was trained before fails on an empty list (`TrialManager.NothingToTrain`); and a pipeline that begins with an untrained
  library has no input to fetch (`TrialManager.UntrainedLibraryFirst`).
- Different keys can print the same string (`Keys.SharedStrings`, `Keys.AmbiguousKeys`).
- A branch is a path. A version is found again if and only if its branch leads to a directory right below that of its
  component: not on the branches "", "." and "..", nor on one such as feature/x (`VersionStore.OwnVersionFound`,
  `VersionStore.NamedBranchesFound`, `LibraryManager.UnnamedBranchLost`, `LibraryManager.SlashedExample`). On a branch
  with a slash, moreover, only one version can be created (`LibraryManager.SlashedBranchFails`).
- On a branch whose name has white space behind something like a version, versions repeat; on other named
  branches they increase, whatever is created on which branch without slashes (`LibraryManager.MisreadRepeats`,
  `LibraryManager.MisreadExample`, `LibraryManager.CommitKeepsInv`).

## Conventions

A method and the function that specifies it are both given where the code changes state. Every lemma carries
`{:induction false}`, so each proof shows its own induction. `hide` statements keep definitions out of proofs that do not
need them. `dafny verify dfyconfig.toml` checks the whole project.

## Model

| member | source | states |
|---|---|---|
| `ZipReader.Unzip` | pysrc/thirdparty/stream_unzip_orig/stream_unzip.py:286-303 | the whole incremental reader, on any list of chunks, delivers exactly the files and ends in exactly the outcome that the whole-archive parser gives for the concatenated bytes; the chunks matter only through one bit, whether the last is empty |
| `ZipReader.ByteReader.Refill` | pysrc/thirdparty/stream_unzip_orig/stream_unzip.py:32-40 | the shared chunk and offset: the bytes not yet taken are the rest of the current chunk and the chunks to come |
| `ZipReader.ByteReader.NextPiece` | pysrc/thirdparty/stream_unzip_orig/stream_unzip.py:29-42 | the next piece of the body is a prefix of the bytes not yet taken |
| `ZipReader.ByteReader.GetNum` | pysrc/thirdparty/stream_unzip_orig/stream_unzip.py:44-57 | exactly the next `num` bytes, or nothing when the source has fewer |
| `ZipReader.ByteReader.ReturnUnused` | pysrc/thirdparty/stream_unzip_orig/stream_unzip.py:59-61 | bytes pushed back are read again, and the offset never falls below zero |
| `ZipReader.Deliver` | pysrc/thirdparty/stream_unzip_orig/stream_unzip.py:65-82 | the stored decompressor with push-back delivers exactly `size` bytes with their CRC-32 and leaves exactly the bytes behind them, or reports truncation |
| `ZipReader.CollectExtra` | pysrc/thirdparty/stream_unzip_orig/stream_unzip.py:117-128 | the extra-field loop collects the last value of each signature |
| `ZipReader.GetExpectedCrc` | pysrc/thirdparty/stream_unzip_orig/stream_unzip.py:193-203 | the checksum comes from the header or from the data descriptor with or without its signature |
| `ZipReader.ReadHeader` | pysrc/thirdparty/stream_unzip_orig/stream_unzip.py:218-268 | a local header is accepted, sized or rejected as the header parser says, including unsupported flags, methods, and a missing or short zip64 field |
| `ZipReader.YieldFile` | pysrc/thirdparty/stream_unzip_orig/stream_unzip.py:111-284 | one entry: its file and the bytes behind it, or its error |
| `ZipStreaming.Streaming` | pysrc/thirdparty/stream_unzip_orig/stream_unzip.py:6-303 | reading is monotone in the bytes seen so far: an outcome other than truncation is final, and until then everything delivered is a beginning of what more bytes deliver |
| `ZipStreaming.ChunkingObservable` | pysrc/thirdparty/stream_unzip_orig/stream_unzip.py:19-82 | the chunking can be observed on exactly the streams that end behind the header of a deflated entry with a data descriptor, and only through a final empty chunk |
| `ZipStreaming.ChunkingIrrelevant` | pysrc/thirdparty/stream_unzip_orig/stream_unzip.py:19-82 | two ways of cutting the same bytes give the same extraction, if and only if the stream does not end at such an entry or both or neither end in an empty chunk |
| `ZipWriter.StreamZip` | pysrc/thirdparty/stream_zip/stream_zip.py:11-552 | the whole writer produces the archive of its members in even blocks, or exactly the first of its errors, behind the full blocks of what was put out before |
| `ZipWriter.MembersAsGiven` | pysrc/thirdparty/stream_zip/stream_zip.py:407-450 | these members have the names, times, permissions and modes of the sources, and as content all their chunks one after the other |
| `ZipWriter.EvenlySized` | pysrc/thirdparty/stream_zip/stream_zip.py:16-41 | the same bytes in blocks of `chunk_size`, only the last of which may be shorter, and none of which is empty; of a source that fails, its full blocks |
| `ZipWriter.ChunkSource.UpTo` | pysrc/thirdparty/stream_zip/stream_zip.py:21-35 | the next bytes, as many as asked for unless the source ends |
| `ZipWriter.Buffer` | pysrc/thirdparty/stream_zip/stream_zip.py:384-405 | size and checksum of the buffered content, or failure as soon as the size exceeds the maximum |
| `ZipWriter.Writer.AddFile` | pysrc/thirdparty/stream_zip/stream_zip.py:258-382 | both stored methods, 32 and 64 bit: one more local entry at the running offset, one more directory record that points at it, or the error the checks call for, with nothing put out |
| `ZipWriter.Writer.EmitDirectory` | pysrc/thirdparty/stream_zip/stream_zip.py:478-498 | the directory records in order, with the overflow checks after each |
| `ZipWriter.EmitEnd` | pysrc/thirdparty/stream_zip/stream_zip.py:500-549 | the zip64 end record and locator where needed, and the end record |
| `ZipWriter.AddFiles` | pysrc/thirdparty/stream_zip/stream_zip.py:407-450 | the entries of all sources back to back, up to the first failure |
| `ZipWriterSpec.BodyLength` | pysrc/thirdparty/stream_zip/stream_zip.py:73-76 | the running offset equals the sizes of the entries written so far |
| `ZipWriterSpec.LocalFieldsRead` | pysrc/thirdparty/stream_zip/stream_zip.py:273-292 | every field of a written local header is found at its position by a reader of fixed offsets (section 4.3.7 of PKWARE APPNOTE.TXT) |
| `ZipWriterSpec.CentralFieldsRead` | pysrc/thirdparty/stream_zip/stream_zip.py:299-326 | the same for a central directory header (section 4.3.12) |
| `ZipFields.LocalEntryBytes` | pysrc/thirdparty/stream_zip/stream_zip.py:273-292 | a written entry byte by byte: every field of its local header at its place, the name, the zip64 field if there is one, and the content (sections 4.3.7, 4.4 and 4.5.3) |
| `ZipFields.CentralEntryBytes` | pysrc/thirdparty/stream_zip/stream_zip.py:299-326 | the same for a directory entry, with versions, time and attributes (sections 4.3.12, 4.4 and 4.5.3) |
| `ZipFields.Refused` | pysrc/thirdparty/stream_zip/stream_zip.py:258-405 | which member is refused with which of the three errors, in terms of its name, position and size |
| `ZipFields.DirectoryRefused` | pysrc/thirdparty/stream_zip/stream_zip.py:452-498 | which directory is refused with which error, in terms of its position, size and number of entries |
| `ZipFields.HeaderRefused` | pysrc/thirdparty/stream_unzip_orig/stream_unzip.py:218-268 | for any bytes, which of its errors the header parser ends in, or which name, size, checksum and kind it finds, in terms of the bytes |
| `ZipFields.DescriptorRead` | pysrc/thirdparty/stream_unzip_orig/stream_unzip.py:193-203 | the checksum of a data descriptor is found, with its signature or without, and whatever sizes follow it (section 4.3.9) |
| `ZipFields.ExtraSnoc` | pysrc/thirdparty/stream_unzip_orig/stream_unzip.py:117-128 | one more block in the extra field replaces what was read for its tag before |
| `ZipRoundTrip.RoundTrip` | pysrc/thirdparty/stream_zip/stream_zip.py:258-450 | for every list of members and every chunking of the archive, what comes back is what was written, if and only if the list is not empty and no 32-bit member has exactly 0xFFFFFFFF bytes; in the exceptions, which error comes instead and after which files |
| `ZipRoundTrip.Truncation` | pysrc/thirdparty/stream_unzip_orig/stream_unzip.py:13-17 | cut anywhere before the end of the first directory signature, an archive yields exactly the files and part of a file that were complete, and ends in a truncation error, or at the first unreadable member if the cut is behind its header; cut later, it yields what the whole archive does |
| `ZipRoundTrip.Corruption` | pysrc/thirdparty/stream_unzip_orig/stream_unzip.py:209-216 | any one corrupted content byte is noticed: the files before it are intact, and the run ends in a checksum error, unless reading stops at an unreadable member before that |
| `ZipRoundTrip.WrittenHeader` | pysrc/thirdparty/stream_unzip_orig/stream_unzip.py:218-268 | the reader makes of a written header the member's name, size and checksum |
| `ZipRoundTrip.Interpreted` | pysrc/thirdparty/stream_unzip_orig/stream_unzip.py:245-268 | what the reader decides on a written header; that of a 32-bit member of 0xFFFFFFFF bytes is taken for zip64 and rejected |
| `ZipRoundTrip.BrokenHeader` | pysrc/thirdparty/stream_unzip_orig/stream_unzip.py:218-241 | a written header that breaks off, wherever it does, is reported as truncated |
| `ZipEdges.SmallArchivesAreReadable` | pysrc/thirdparty/stream_zip/stream_zip.py:328-339 | an archive of 32-bit members only never holds one of 0xFFFFFFFF bytes: the writer refuses it with an offset overflow |
| `ZipEdges.UnreadableMember` | pysrc/thirdparty/stream_unzip_orig/stream_unzip.py:249-260 | beside a 64-bit member such a member is written, and reading stops there: an archive that shows it |
| `ZipEdges.EmptyArchive` | pysrc/thirdparty/stream_zip/stream_zip.py:537-549 | the archive without members is written as a lone end record |
| `ZipDirectory.DirectoryLocated` | pysrc/thirdparty/stream_zip/stream_zip.py:462-549 | in every archive, the end records are in place, their start and size bracket the directory exactly, the locator points at the zip64 record, and each directory entry leads to its member (sections 4.3.12 and 4.3.14 to 4.3.16 of PKWARE APPNOTE.TXT) |
| `ZipDirectory.DirectoryRoundTrip` | pysrc/thirdparty/stream_zip/stream_zip.py:500-549 | an independent reader that starts at the end of the archive finds the directory, and by it every member, if and only if no field of a 32-bit archive is all ones, or the bytes before the end record do not begin like a locator, or they lead back to the right values |
| `ZipFailure.FailsWhereItStops` | pysrc/thirdparty/stream_zip/stream_zip.py:407-498 | the writer fails on exactly the lists of members for which there is a point where it stops: before a member, before the directory, or behind one of its records |
| `ZipFailure.StopsOnce` | pysrc/thirdparty/stream_zip/stream_zip.py:407-498 | this point is unique |
| `ZipFailure.AbandonedRead` | pysrc/thirdparty/stream_zip/stream_zip.py:407-498 | what the reader extracts from any beginning of the bytes put out by then, with unreadable members or without |
| `ZipFailure.FailureNoticed` | pysrc/thirdparty/stream_zip/stream_zip.py:551-552 | the reader takes the blocks left behind by a failed writer for a whole archive if and only if it failed in the directory, they reach into it and no member is unreadable; otherwise it reports an error, behind the members that are complete |
| `ZipEdges.UnnoticedFailure` | pysrc/thirdparty/stream_zip/stream_zip.py:478-498 | 65535 members with which the writer fails, while the reader extracts them all from the blocks it has yielded and reports nothing |
| `ZipEdges.MisreadArchive` | pysrc/thirdparty/stream_zip/stream_zip.py:538-549 | an archive whose directory such a reader does not find |
| `ZipEdges.ObservableStream` | pysrc/thirdparty/stream_unzip_orig/stream_unzip.py:262-270 | a stream whose chunking shows |
| `ZipDirectory.FoundAtIndex` | pysrc/thirdparty/stream_zip/stream_zip.py:299-326 | what it finds is each member's name, checksum and content at the offset where its local header was written |
| `FileUtils.ArchiveAndExtract` | pysrc/pipeman/file.py:145-180 | archiving a folder and extracting it again gives back every file, with its name, its size and all its chunks, unless the writer fails or the folder is empty |
| `Crc32.UpdateConcat` | pysrc/thirdparty/stream_unzip_orig/stream_unzip.py:209-213 | the running checksum over pieces is the checksum of the whole |
| `Crc32.DetectsOneByte` | pysrc/thirdparty/stream_unzip_orig/stream_unzip.py:215-216 | two contents that differ in one byte have different checksums |
| `Crc32.KnownChecksum` | pysrc/thirdparty/stream_unzip_orig/stream_unzip.py:209-213 | the checksum of a single known byte, in which the polynomial shows |
| `Bytes.LeastFirst` | pysrc/thirdparty/stream_zip/stream_zip.py:45-67 | integers are stored with the least significant byte first |
| `Struct.FieldAt` | pysrc/thirdparty/stream_zip/stream_zip.py:45-67 | packed records are read back field by field |
| `Vsm.EveryRunIsDistribution` | pysrc/pac/vsm.py:29-33 | from the uniform matrix, every run of scalings on versions in range keeps all cells non-negative with sum 1 |
| `Vsm.ScaledIsDistribution` | pysrc/pac/vsm.py:69-83 | one scaling keeps a probability distribution, for every share between 0 and 1 and every batch |
| `Vsm.ScaledAt` | pysrc/pac/vsm.py:80-83 | what a scaling does to each single cell |
| `Vsm.ScoreAtMostOne` | pysrc/pac/vsm.py:47-48 | no score exceeds 1, so none reaches the sentinel 9999 |
| `Vsm.VersionScores.ScaleEntry` | pysrc/pac/vsm.py:57-67 | moves the share to the cell of one version, which may be counted from the end, and keeps a distribution; an index error for any other version |
| `Vsm.VersionScores.ScaleBatch` | pysrc/pac/vsm.py:69-83 | moves the share evenly to the versions of a batch, and nothing for an empty batch; an index error if one of them has no cell |
| `Vsm.UniformAt` | pysrc/pac/vsm.py:29-33 | at first every version has one sixteenth |
| `Vsm.SpreadAt` | pysrc/pac/vsm.py:69-83 | what scaling by versions counted from the end does to each cell |
| `Vsm.SpreadIsDistribution` | pysrc/pac/vsm.py:69-83 | scaling by versions counted from the end keeps a distribution if and only if no two of them share a cell, or the share is zero |
| `History.History.Append` | pysrc/pac/history.py:53-73 | appends, and drops the oldest pipeline once sentinel and pipelines exceed the capacity |
| `History.KeepsTheLatest` | pysrc/pac/history.py:53-73 | so the history is always the latest `capacity - 1` pipelines in order |
| `History.EntriesAre` | pysrc/pac/history.py:53-73 | entry by entry |
| `VsmTransform.TransformSL` | pysrc/pac/vsm.py:86-107 | scales each component once, by its batch, and leaves the scores alone for a history of at most one pipeline, whatever versions it holds |
| `VsmTransform.SlBatchNonEmpty` | pysrc/pac/vsm.py:94-106 | the batch holds the current version if and only if this is one of the matrix |
| `VsmTransform.SlBatchIs` | pysrc/pac/vsm.py:94-106 | out of the batch are exactly the versions that the component had in an earlier pipeline and does not have in the last |
| `VsmTransform.SlCell` | pysrc/pac/vsm.py:94-106 | so a cell gets no share exactly if its version is one of these; all others get equal shares |
| `VsmTransform.TransformUL` | pysrc/pac/vsm.py:110-135 | the interleaved loop over components amounts to a sequence of scalings of each component of its own, up to the first version at which it fails, if there is one |
| `VsmTransform.StepUL` | pysrc/pac/vsm.py:118-133 | one round of that loop; it fails if and only if the guard, which tests the unchanged part alone, lets a version pass that has no cell |
| `VsmTransform.StepsWithinGain` | pysrc/pac/vsm.py:118-133 | with versions of the matrix no round fails, and each that steps moves score |
| `VsmTransform.UlCell` | pysrc/pac/vsm.py:118-133 | what a round does to each cell: nothing unless exactly one part changed; otherwise the stepped component gains at its version, and components two places before it lose at theirs |
| `VsmTransform.GainOrFailure` | pysrc/pac/vsm.py:118-133 | at which versions a round gains and at which it fails, in terms of their parts |
| `VsmTransform.UlBatchIs` | pysrc/pac/vsm.py:122-125 | the batch is every version but one |
| `VsmTransform.UlScoresInClosedForm` | pysrc/pac/vsm.py:110-135 | a component gains score at its own version if it stepped, and then loses it once for each component that stepped at least two places further on |
| `VsmTransform.ExtrapolatesToItself` | pysrc/pac/vsm.py:127-133 | the extrapolated version is always the version just submitted: the code extrapolates the part that did not change |
| `VsmTransform.UlBatchNonEmpty` | pysrc/pac/vsm.py:122-125 | this batch is never empty either |
| `LruCache.LRUCache.Get` | pysrc/pac/cache.py:27-41 | one request; the worker list and the number of cold starts are those of the whole trace so far |
| `LruCache.HoldsTheMostRecent` | pysrc/pac/cache.py:27-41 | over every trace the list is the `size + 1` most recently used distinct workers, in order of last use |
| `LruCache.LruShape` | pysrc/pac/cache.py:27-41 | it has no duplicates, at most `size + 1` entries, and is ordered by last use |
| `LruCache.Inclusion` | pysrc/pac/cache.py:27-41 | the list of a smaller cache is a suffix of that of a larger one |
| `LruCache.ColdStartsNeverIncrease` | pysrc/pac/cache.py:35-35 | a larger cache never has more cold starts on the same trace |
| `LruCache.HeldIf` | pysrc/pac/cache.py:27-41 | a worker is there if and only if it was used, and at most `size` others were used since its last use |
| `LruCache.ColdStartsAreMisses` | pysrc/pac/cache.py:27-41 | cold starts are the number of requests for workers that were not there |
| `LfuCache.LFUCache.Get` | pysrc/pac/cache.py:50-76 | one request on the three parallel lists; they keep recording the trace |
| `LfuCache.LFUCache.LeastFrequent` | pysrc/pac/cache.py:62-67 | the scan returns a valid index: the last of those with least frequency per time |
| `LfuCache.StepKeepsAccounts` | pysrc/pac/cache.py:50-76 | over every trace, each entry's frequency is the number of its requests since it was inserted, and its time the number of all requests since then, so 1 <= frequency <= time; the lists stay of equal length, without duplicates, and at most `size + 1` long |
| `LfuCache.StepIsDetermined` | pysrc/pac/cache.py:62-70 | which entry is evicted is determined |
| `LfuCache.HitSpelledOut` | pysrc/pac/cache.py:50-60 | a request for a worker that is there: all times go up, and it counts once more |
| `LfuCache.RoomSpelledOut` | pysrc/pac/cache.py:50-76 | a request for another with room: it comes last, counted once |
| `LfuCache.EvictionSpelledOut` | pysrc/pac/cache.py:50-76 | a request for another without room: out goes the one with least frequency per time, and of those the one inserted last |
| `PaCache.PACache.LeastPossibleWorker` | pysrc/pac/cache.py:133-172 | for any sorted order of the cells, the merge over pointers terminates within the matrices and returns a worker whose score is least over all that have one; it fails if and only if a worker has no component, or all cells of a component with workers come before every worker that has a score |
| `PaCache.LeastValue` | pysrc/pac/cache.py:149-160 | at every round, the least value under the pointers belongs to a component with workers and undercuts the score of no worker that has one |
| `PaCache.KnownNeverRunsOut` | pysrc/pac/cache.py:148-172 | it never fails with workers at versions of the matrix |
| `PaCache.PACache.Get` | pysrc/pac/cache.py:118-131 | on a miss at capacity a least possible worker makes room, or the search for it fails, exactly in these cases, and nothing is stored; otherwise nothing is evicted |
| `PaCache.GenerateScoreMatrices` | pysrc/pac/cache.py:112-116 | one fresh, uniform score object for each component |
| `PaCache.PACache.Update` | pysrc/pac/cache.py:174-177 | after either transform, and after a failed one, all scores are still distributions, so eviction keeps working |
| `Scheduler.WorkerConnection.OnManifest` | pysrc/workerconn.py:31-55 | the first manifest is taken as it is and makes the worker new; a later one keeps the recorded name and version if both are non-empty |
| `Scheduler.PACache.RemoveEnd` | pysrc/worker_cache.py:119-132 | evicts the earliest worker that last executed a component of this name, or else the earliest |
| `Scheduler.PACache.Add` | pysrc/worker_cache.py:112-117 | puts a worker last, once |
| `Scheduler.PACache.Remove` | pysrc/worker_cache.py:134-135 | takes a worker out, and fails if it is not there |
| `Scheduler.Scheduler.GetCompatibleWorkerSync` | pysrc/scheduler.py:221-273 | reuses the first compatible cached worker, or starts one, evicting only with all slots taken; all fields and the error cases |
| `WorkerPool.DispatchSpelledOut` | pysrc/scheduler.py:221-273 | which of its outcomes it comes to and when, and what it makes of all lists and manifests |
| `WorkerPool.CachedAfterDispatch` | pysrc/scheduler.py:221-273 | the worker reused is the first compatible one, the worker evicted is the first with the component's name, or the first of all if none has it; the others keep their order |
| `WorkerPool.EvictsTheEarliest` | pysrc/worker_cache.py:119-132 | the latter for any list of workers |
| `WorkerPool.ReadySpelledOut` | pysrc/scheduler.py:317-343 | a worker that is ready takes the component that has waited longest, under its name and version, or is cached last |
| `WorkerPool.CacheSpelledOut` | pysrc/scheduler.py:209-211 | a worker that is done moves to the end of the cached ones |
| `WorkerPool.ReceivedSpelledOut` | pysrc/workerconn.py:31-55 | which name, version and packages are recorded for an arriving manifest |
| `Scheduler.Scheduler.OnWorkerReady` | pysrc/scheduler.py:317-343 | a new worker is cached, and takes a waiting component if there is one |
| `Scheduler.Scheduler.AddNewWorker` | pysrc/scheduler.py:61-62 | a worker that has announced itself is new |
| `Scheduler.Scheduler.CacheWorker` | pysrc/scheduler.py:209-211 | from active to cached |
| `Scheduler.Scheduler.ActivateWorker` | pysrc/scheduler.py:213-215 | from cached to active |
| `ProtocolSafety.StepKeepsInv` | csrc/coordinator.cc:101-296 | every step of coordinator, scheduler, trial manager and workers keeps the invariant that relates lists, connections, mutex and messages in flight |
| `ProtocolSafety.SlotsAreRespected` | pysrc/scheduler.py:221-273 | over every run with at least one slot: active and cached are disjoint, active plus waiting is at most 1, active, cached and starting workers together are at most `num_slot`, and no scheduler call fails (`WorkerPoolFull`, eviction from an empty cache, an unknown worker) |
| `ProtocolSafety.ExitsOnlyAtTheEnd` | csrc/coordinator.cc:174-199 | with two slots or more the coordinator process exits only after the lifecycle has ended, when every worker has said goodbye |
| `ProtocolSafety.ReturnsAfterDone` | csrc/coordinator.cc:249-296 | in every interleaving, components return in order of submission, each after its own `done` was handled, which in turn comes after the refreshed manifest that follows the component was applied |
| `ProtocolSafety.RefreshedManifest` | csrc/worker.cc:127-136 | that manifest brings the worker's new packages under the name and version of the component just executed |
| `ProtocolOrder.CachedByLastDone` | pysrc/scheduler.py:209-215 | over every run, the cached workers stand in the order of their last `done` |
| `ProtocolProgress.ReturnOrStuck` | csrc/coordinator.cc:249-296 | whenever a component is outstanding and the process has not exited, a step is enabled that brings its return closer and that any number of I/O threads can perform, and no other step puts it off, unless the trial manager is stuck on the mutex |
| `ProtocolProgress.RankFalls` | csrc/coordinator.cc:101-296 | every step but a submission keeps or lowers the number of steps left, and the right one lowers it |
| `ProtocolProgress.StuckExactlyWhenLost` | csrc/coordinator.cc:277-291 | it gets stuck exactly if an unlock was lost |
| `ProtocolProgress.LostExactlyWhenEarly` | csrc/coordinator.cc:153-172 | an unlock is lost exactly if the handler of `done` unlocks before the strand has locked |
| `ProtocolProgress.StuckForever` | csrc/coordinator.cc:286-296 | once stuck, however the run goes on, no component ever returns |
| `ProtocolProgress.OneThreadLosesNothing` | csrc/main.cc:170-176 | a single I/O thread never loses an unlock |
| `ProtocolRuns.LostUnlock` | csrc/coordinator.cc:153-172 | a run that gets stuck, on any two or more I/O threads, for any number of slots and any compatibility |
| `ProtocolRuns.StuckOnlyOnManyThreads` | csrc/main.cc:170-176 | no run gets stuck if and only if there is just one I/O thread |
| `ProtocolRuns.SingleSlotExits` | csrc/coordinator.cc:190-195 | with one slot, a run in which an eviction ends the coordinator process in the middle of the lifecycle |
| `ProtocolRuns.ExitsEarlyOnlyOnOneSlot` | csrc/coordinator.cc:174-199 | no run ends the coordinator process within the lifecycle if and only if there are two slots or more |
| `TrialProduct.StageDict` | pysrc/pipeman/TrialTree.py:136-151 | each stage holds exactly the keys that workspaces have there, once; as many stages as the longest pipeline has components |
| `TrialProduct.AddNodes` | pysrc/pipeman/TrialTree.py:75-84 | adding children level by level builds the full product |
| `TrialTree.CompatibilityDict` | pysrc/pipeman/TrialTree.py:166-204 | exactly the pairs of keys that workspaces with equal API version at a stage put next to each other there, for the stages of the first workspace |
| `TrialTree.TrialTree.constructor` | pysrc/pipeman/TrialTree.py:88-130 | the candidates are exactly the compatible pipelines with the trained prefixes marked, each once; training visits the same paths in the same order, and the walking stack is empty again |
| `TrialTree.TrialTree.DfsPrune` | pysrc/pipeman/TrialTree.py:230-243 | the recursive search records the paths to the leaves, marks the children it turns back at, and restores the walking stack |
| `TrialTree.TrialTree.DfsTrain` | pysrc/pipeman/TrialTree.py:245-260 | the same for the traversal of training |
| `TrialSearch.WalkFinds` | pysrc/pipeman/TrialTree.py:230-243 | on any product tree the search records exactly the sequences with one key of each stage and every adjacent pair connected |
| `TrialSearch.WalkOnce` | pysrc/pipeman/TrialTree.py:230-243 | and each of them once |
| `TrialSearch.SearchAgain` | pysrc/pipeman/TrialTree.py:125-126 | searching the pruned tree again records the same |
| `TrialSearch.TrainingVisitsCandidates` | pysrc/pipeman/TrialTree.py:245-260 | training a pruned tree visits exactly the recorded paths |
| `TrialSearch.FlagOfMarkedAll` | pysrc/pipeman/TrialTree.py:206-228 | after marking, a node is trained exactly if it was before or lies on the pipeline of a trained workspace |
| `TrialTree.WalkIsCandidates` | pysrc/pipeman/TrialTree.py:109-128 | the final search in terms of the workspaces alone |
| `TrialTree.CandidateSpelledOut` | pysrc/pipeman/TrialTree.py:88-130 | what a candidate is, in terms of the workspaces and which of them have outputs: as long as the longest, of keys in use at their places that may follow each other, each marked exactly if it is a dataset or a workspace with outputs begins with the keys up to it |
| `TrialTree.FollowsSpelledOut` | pysrc/pipeman/TrialTree.py:166-204 | which keys may follow each other: those that workspaces with equal API version have at neighbouring stages of the first workspace |
| `TrialTree.OwnPipelineSurvives` | pysrc/pipeman/TrialTree.py:166-204 | a workspace's own pipeline survives pruning if and only if it is one of the longest, and its pairs behind the stages of the first workspace are matched somewhere |
| `TrialTree.EqualPipelinesSurvive` | pysrc/pipeman/TrialTree.py:166-204 | with pipelines of equal length every workspace's own pipeline survives |
| `TrialTree.FirstEqual` | pysrc/pipeman/utils.py:53-59 | the first candidate with the keys of the pipeline: none before it has them |
| `TrialTree.CommittedNodes` | pysrc/pipeman/trialmanager.py:102-114 | the lookup for a committed workspace finds a candidate that agrees with its pipeline if there is one; with pipelines of equal length there always is, and it is its own |
| `TrialManager.BuildVenvs` | pysrc/pipeman/trialmanager.py:280-415 | the executed nodes are a suffix, the first takes its input from its predecessor's dataset or output, every later one its predecessor's output; or an error, if and only if the first input cannot be fetched or one of them is not in the library storage, as no dataset is |
| `TrialManager.OutputsDiffer` | pysrc/pipeman/trialmanager.py:372-384 | components with different printable keys never write into the same folder |
| `TrialManager.StartIs` | pysrc/pipeman/trialmanager.py:286-299 | where execution starts, with retraining and without |
| `TrialManager.FailureIs` | pysrc/pipeman/trialmanager.py:327-366 | when preparing the execution fails and with which error, in terms of the nodes |
| `TrialManager.ExecutesTheUntrainedSuffix` | pysrc/pipeman/trialmanager.py:286-299 | without retraining the nodes to execute are the suffix from the first that is no dataset and on no trained pipeline; among them exactly the datasets count as trained |
| `TrialManager.NothingTrainedTwice` | pysrc/pipeman/trialmanager.py:286-366 | whenever execution without retraining gets under way, no executed node was trained before |
| `TrialManager.UnderWay` | pysrc/pipeman/trialmanager.py:286-366 | it gets under way if and only if the first component is no untrained library, and all components from the first untrained one on are libraries that can be fetched |
| `TrialManager.UntrainedLibraryFirst` | pysrc/pipeman/trialmanager.py:327-337 | fetching fails if and only if the pipeline begins with a library that was not trained before |
| `TrialManager.DatasetBehindLibrary` | pysrc/pipeman/trialmanager.py:359-366 | a candidate with a dataset behind an untrained library: nothing is executed, as the dataset is looked up among the libraries and ends in a key error |
| `TrialManager.TrainNodeList` | pysrc/pipeman/trialmanager.py:417-515 | the result is read from the last node's output; which error comes instead, and when |
| `TrialManager.NothingToTrain` | pysrc/pipeman/trialmanager.py:286-299 | all nodes are skipped for a pipeline that was trained before: committing it again fails |
| `Keys.KeyRoundTrip` | pysrc/pipeman/meta.py:63-90 | greedy parsing inverts printing if and only if type, name and branch are non-empty and without white space, versions are not negative, and neither name nor branch holds or begins with something that can pass for a separator; types may hold anything |
| `Keys.KeyStringsAreUnique` | pysrc/pipeman/meta.py:149-170 | such keys are equal exactly if their strings are |
| `Keys.SharedStrings` | pysrc/pipeman/meta.py:63-67 | a key with all its parts shares its string with another one if and only if the string can be cut at other separators |
| `Keys.AmbiguousKeys` | pysrc/pipeman/meta.py:63-67 | two different keys that print the same |
| `Keys.VersionRoundTrip` | pysrc/pipeman/version.py:42-52 | version strings are read back if and only if the branch is non-empty and without white space and the numbers are not negative |
| `Keys.PrintedExamples` | pysrc/pipeman/meta.py:63-67 | a version and a key as they are printed |
| `FileStore.FileSystemStorage.Put` | pysrc/pipeman/store/filesystem.py:150-221 | the steps of a put, on the directory that key and branch lead to as paths, amount to `PutAt` |
| `FileStore.PutChanges` | pysrc/pipeman/store/filesystem.py:150-221 | one more version, with the old head as parent, becomes the head of the directory; no other directory changes but for those newly made on the way |
| `Paths.SlashlessAt` | pysrc/pipeman/store/filesystem.py:118-119 | a branch without slashes leads to the directory of its name, to that of the key for nothing or a dot, and one up for two dots |
| `Paths.JoinedAt` | pysrc/pipeman/store/filesystem.py:118-119 | following one path after another is following the two joined by a slash, and a slash in front leads to the root |
| `FileStore.FileSystemStorage.GetHead` | pysrc/pipeman/store/filesystem.py:52-142 | the content of the head, a key error without one, or a missing file: also when a copy is to be made and key or branch has a slash |
| `FileStore.FileSystemStorage.GetVersion` | pysrc/pipeman/store/filesystem.py:52-133 | the content of the version in one of the directories right below that of the key, in whatever order these are searched, or a missing file |
| `FileStore.HeadKept` | pysrc/pipeman/store/filesystem.py:135-148 | a put into another directory leaves a head alone that is not further up |
| `VersionStore.SemanticFileStorage.Put` | pysrc/pipeman/storage.py:311-324 | entity and version mapping, each under its printed key |
| `VersionStore.SemanticFileStorage.GetSemanticVersion` | pysrc/pipeman/storage.py:292-309 | whatever is on record for a version is returned; otherwise the missing mapping, or the missing file |
| `VersionStore.OwnVersionFound` | pysrc/pipeman/store/filesystem.py:118-133 | a version just put is found again if and only if the key itself has no slash and its branch leads to a directory right below that of its component |
| `VersionStore.NamedBranchesFound` | pysrc/pipeman/store/filesystem.py:118-133 | for keys without slashes: if and only if the branch is not empty, a dot, or two dots |
| `VersionStore.OtherVersionKept` | pysrc/pipeman/storage.py:249-275 | putting one version, on a branch without slashes or of several directories none of which has the name of a version, leaves the record of every other one on a named branch alone: of any in another storage, and in the same storage of those with the same component type and no negative numbers |
| `LibraryManager.SlashedIsNested` | pysrc/pipeman/store/filesystem.py:118-119 | the branch `feature/x` is of several directories none of which has the name of a version, unless one is called feature or x |
| `VersionStore.SameBranchStrings` | pysrc/pipeman/storage.py:249-261 | keys of one type on one branch print alike only if they are alike |
| `LibraryManager.LibraryManager.Create` | pysrc/pipeman/librarymanager.py:32-106 | the next version after the head of the branch, committed to both storages, or an error if the head cannot be read or a path is missing; on any branch without slashes, and on any of several directories none of which has the name of a version, the store stays consistent with everything created |
| `LibraryManager.CreatedIsThere` | pysrc/pipeman/librarymanager.py:83-103 | what is put on record is the archive passed in and the manifest passed in with its new version, under the library's name and the branch |
| `LibraryManager.CommitKeepsInv` | pysrc/pipeman/librarymanager.py:52-103 | after every commit on such a branch, versions of a library on a named branch that is not misread strictly increase, and every version ever committed on one is still on record |
| `LibraryManager.CommittedInStore` | pysrc/pipeman/librarymanager.py:102-103 | a commit can be read back if and only if its branch has a name |
| `LibraryManager.UnnamedBranchLost` | pysrc/pipeman/store/filesystem.py:128-133 | a version on the branch of no name, of a dot or of two dots is missing as soon as it is created |
| `LibraryManager.SlashedBranchFails` | pysrc/pipeman/store/filesystem.py:73-82 | on every branch with a slash, once a version has been created, the next creation fails |
| `LibraryManager.SlashedExample` | pysrc/pipeman/store/filesystem.py:118-133 | on the branch `feature/x`, the first one cannot be read back either |
| `LibraryManager.ProposedIsNew` | pysrc/pipeman/librarymanager.py:61-79 | the proposed version comes after all versions of its library and branch, if this is named and not misread |
| `LibraryManager.LibraryManager.Read` | pysrc/pipeman/storage.py:292-309 | every version ever created on a named branch that is not misread is returned unchanged |
| `LibraryManager.LibraryManager.GetArchive` | pysrc/pipeman/librarymanager.py:157-159 | the archive of such a version, and a key error for every dataset |
| `LibraryManager.StillLibrariesOnly` | pysrc/pipeman/librarymanager.py:102-103 | no creation leads to a mapping for a dataset among the libraries |
| `LibraryManager.VersionReadBack` | pysrc/pipeman/version.py:46-52 | the version of a head is read back as written, but for white space in front, or not at all, except on misread branches |
| `LibraryManager.MisreadRepeats` | pysrc/pipeman/version.py:46-52 | on a misread branch, one whose name has white space and a version before it, the second and third of three creations get one and the same key, unless they update the API |
| `LibraryManager.MisreadExample` | pysrc/pipeman/version.py:46-52 | there are such branches |

## Left out

- Deflate, the ZIP_32 and ZIP_64 writer methods, decryption, and the packing of modification times: the four time bytes
  and the permission bits are taken as given, and only the stored decompressor is modelled, as the reader always uses it.
- `UnfinishedIterationError`: the consumer always takes all chunks of a file; a `chunk_size` of zero.
- The two stored writer methods are one method with a mode, since they differ only in constants.
- Names of files are their UTF-8 bytes; the file system around the archives.
- Floating-point rounding in scores: scores are real numbers, and `argsort` is any sorted order of the cells.
- The FIFO baseline and the drivers of the caching experiments.
- Shares below 0 or above 1 in a cache or a transform: with them, scores are no probabilities. Negative cache sizes.
- Sockets, TLS, coroutines, the send queue and the wire format: a connection is a queue of messages in order.
- Connections that have not sent their id: under the protocol there is at most one.
- Scheduler flags other than the default ones; the three levels of the compatibility check, which is any predicate on a
  manifest and a component.
- The set of waiting components is a list in order of arrival; it never holds more than one.
- Scheduler.WorkerConnection.OnManifest: is proved for the connection object alone; the scheduler model keeps the manifests
  by worker id instead of in shared connection objects, and applies the same function.
- ProtocolProgress.ReturnOrStuck: shows that the right step is enabled and lowers the rank; that a step which stays
  enabled is taken in the end is left to the scheduling of threads and processes.
- Messages lost or workers that crash; restarts of the coordinator.
- Tree nodes are values: marking and pruning return a new tree, so sharing of nodes is not captured, and the order of
  children is that of the stages instead of the arbitrary order of a set.
- TrialTree.TrialTree.constructor: a pipeline shorter than that of the first workspace, which raises an `IndexError`, and
  workspaces without any component, which raise a `KeyError`, are preconditions instead of results.
- TrialTree.CompatibilityDict: the same for shorter pipelines.
- TrialTree.CommittedNodes: the same.
- The callback of `dfs_train`, which is given one argument less than it takes: only the traversal is modelled.
- Storing outputs, hyper-parameters and timings, datasets and stored outputs that are missing, and the
  execution of a component.
- Unicode digits in the parsing of versions: digits are 0 to 9. Parsing without a version.
- Hash collisions: hashes are taken to be new, and the name of no directory. File names that are too long or not allowed,
  links, and directories named like one of the three files that a directory holds; the temporary directory has no
  directories, and the working directory no file of that name. The hash files that an encrypting file system adds.
- VersionStore.OtherVersionKept: says nothing of component names with slashes, nor of branches that lead up or to the root,
  that have slashes but come to fewer than two directories, or that have the name of a version for a part: their
  directories can be those of others.
- LibraryManager.LibraryManager.Create: the same for consistency; what is returned and stored is stated of every branch.
- The syntax of configuration files, which are records here; merging, branching and lineage of versions.
- UStore, MySQL and RocksDB back ends, remote access, the web interface, configuration, logging and plotting.
