# hdfs-mount, verified

A Dafny model of the stateful core of hdfs-mount, the FUSE front end that mounts HDFS as a local
file system, with proofs of what that core promises. One module per source file, plus a few modules
that hold a component's state as a value and prove its laws there.

* **Reading.** `HdfsBackend` says what is assumed of HDFS: an immutable file, streams over it, failures
  at any time. On top of it, each proved against the layer below: the reader that reopens and
  repositions itself (`FaultTolerantReaders`), one buffered fragment (`FileFragments`), the two-fragment
  cache that turns nearly ordered requests into sequential reads (`ReadCache`, `FileHandleReaders`), the
  file handle and its stream adapter (`FileHandles`, `FileHandleStreams`), and random access over a pool
  of such streams (`RandomAccessReaders`). The last theorem of the chain is `ReadAt`: for a request
  inside the file, success means exactly the file's bytes, whichever reader served it.
* **The pool under concurrency.** `PoolProtocol` is a transition system in which any number of ReadAt
  calls and Close interleave at the lock's granularity. `RandomAccessReaders` proves its locked sections
  against the same `Take` and `GiveBack`. `ConcurrentReads` runs any number of ReadAt calls over real
  readers, their sections and the closing of dropped readers in any order: no call disturbs the reader,
  the buffer or the answer of another.
* **Retrying.** `RetryPolicies` (attempts, deadline, backoff) and `FaultTolerantAccessors` (the loop around
  every metadata call).
* **Writing.** `FileHandleWriters`: staging, flushing, and what a whole session leaves in HDFS.
* **Archives.** `ZipTrees` and `ZipDirs` (the directory tree built from a flat list of names) and
  `ZipFileHandles` (a non-seekable stream shared by requests that arrive out of order).
* **Names.** `Paths`, `FileSystems` (which paths are exposed), `Namespaces` and `Dirs` (the cached
  directory tree beside the backend's).

`dafny verify dfyconfig.toml` checks everything.

## How the code is modelled

Objects whose methods change fields are classes with those fields. A class whose state is intricate has
a ghost function giving that state as a value (`FileHandleReader.View`, `ZipDirs.View`,
`FileSystem.cache`); its methods are proved to perform steps of functions on such values, and the laws
are lemmas about those. Long methods of the source are cut into pieces: `FileHandleReader.Approach`,
`SeekTo`, `Reload`, `Refill`, `FromBuffers`, `FromRefill`, `ReadMiss` and `ReadStep` make up ReadPartial,
`Advance` and `ReadLoop` make up Read, `Attempt`, `AttemptRead` and `Reopen` make up
FaultTolerantHdfsReader.Read.

What lies outside is a contract with a body that chooses freely within it: HDFS, the local disk, the
clock, random numbers and Go's map order. A file that is read says which errors reading it may end in
(`RemoteFile.errors`); the other backends carry a flag `healthy`, with which they refuse nothing they
could do, and say which error they refuse with otherwise. The contracts above promise success where
nothing can fail, and pass on these errors and no others, so that a body which merely gives up does not
meet them. What is done to the remote file when it is written is logged (`FileHandleWriters.Call`).

Requirements the code has and does not check are preconditions:

* file content does not change while a reader lives; over a pool, a stream accepts any position inside the
  file (`SeeksInside`);
* Seek and Close of the fault-tolerant reader dereference `Impl`, which is nil after some failed reads. A
  Read is asked for exactly when no Seek comes up or there is a stream (`FileHandleReader.CanServe`); any
  other reaches the dereference (`FileHandleReader.ReadToNil`);
* ReadAt stays inside the file, because the handle reports end-of-file as success and `io.ReadFull`
  would then read for ever;
* this mount is the only client of the namespace, and names are non-empty, slash-free and not "." or "..".

## What the proofs show about the code

* A forward Seek that fails is ignored (FileHandleReader.go:95-101). The cache stays truthful exactly for
  the requests `View.Safe` allows; `SwallowedSeekGivesWrongBytes` gives a read past the end that is
  answered with bytes from elsewhere in the file.
* A failed Read of the fault-tolerant reader can leave `Impl` nil, and the Close that follows in the
  background (RandomAccessReader.go:45) then ends the process. `StreamSurvivesIffSturdy`: every Read that
  begins with a stream ends with one if and only if nothing is retried (one attempt is all, the time
  limit is negative, or no error is worth it); the failing run is a read error that is retried, and a new
  stream that does not open. A reader dropped after a success can always be closed.
* A ReadAt that starts inside a reliable file and reaches beyond its end never returns: io.ReadFull gets
  the rest of the file, and then for ever nothing and no error (`ReadFullTurns`).
* A failed Read can always be made again for what is missing (`FileHandleReader.Read`): even without a stream
  no Seek comes up.
* Flush never retries, although its comments and FaultTolerantHdfsAccessor.go:55 say so: end-of-file, the
  one error it would retry, counts as benign. As the count of accepted bytes is cleared before the
  attempt, a nil Flush means "published" exactly if bytes were accepted since the last Flush or the
  content was published before. A local read error before the end of the staging file publishes a
  truncated file and still returns nil; `FlushAttempt` says exactly when the published file is whole.
* The `err` of a failed Seek in ReadAt is shadowed (RandomAccessReader.go:57), so the reader goes back to
  the pool; the pool's invariants survive this (`FailedSeekIsPooled`).
* If opening the reader fails, FileHandle.Read leaves `resp.Data` at full length, so an adapter over a
  handle without a reader would count the whole buffer as read. File.OpenRead never makes such a handle.
* MaxDelay bounds every delay exactly when MinDelay does not exceed it (`MaxDelayHoldsIffMinDelayFits`).
* ReadArchive does not step into a directory it has just made. The tree matches the archive exactly when
  its names are normalised and distinct and every directory on the way of every entry is listed before it.
  A doubled slash in a name makes no difference to where the entry lands (`EmptyComponentsIgnored`).
* With zip expansion on, an object really called "x.zip@" is found or not depending on what is cached
  (`Dirs.Node.Lookup`). For all other names the cache does not show in what a mount answers (`Dirs.Run`).
* A rename into another directory leaves the node's Parent behind, so the cache stays in step with the
  backend only for renames within one directory, or of entries that are not cached.

## Model

| member | source | states |
|---|---|---|
| PoolProtocol.Take | RandomAccessReader.go:92-119 | an open pool that is not empty gives up exactly one reader, an exact hit first; otherwise it stays as it is |
| PoolProtocol.TakenGivenBack | RandomAccessReader.go:92-147 | a reader given back where it was taken leaves the pool as it was, and none is closed |
| PoolProtocol.GiveBack | RandomAccessReader.go:122-147 | what the pool becomes, and which reader is handed to Close: the returned one if there is no place for it, or the one that was pooled at the same position |
| PoolProtocol.StepKeepsInv | RandomAccessReader.go:38-147 | every step of every interleaving keeps ownership, key and close-count invariants |
| PoolProtocol.ReachableInv | RandomAccessReader.go:38-147 | the invariants hold in every reachable state |
| PoolProtocol.EveryReaderInOnePlace | RandomAccessReader.go:38-147 | every reader ever opened is pooled under one key, held by one call, or closed once: never shared, leaked or closed twice |
| PoolProtocol.NothingLeaksAfterClose | RandomAccessReader.go:67-75 | once Close has run and all calls have finished, every reader has been closed exactly once |
| PoolProtocol.FailedSeekIsPooled | RandomAccessReader.go:56-61 | a reader whose Seek failed is pooled under the position it stands at, and the invariants hold |
| PoolProtocol.FailuresAreReported | RandomAccessReader.go:38-64 | each way in which a call can fail: the error it returns, and that a reader whose Position or ReadFull failed is closed once and pooled nowhere |
| PoolProtocol.NoCallWaits | RandomAccessReader.go:38-64 | an unfinished call can always move; every step of its own, failing or not, brings it nearer its end; no step of another call and no Close sets it back |
| PoolProtocol.ExactHitNeedsNoSeek | RandomAccessReader.go:52-61 | a pooled reader stands at its key in every reachable state, so an exact hit goes straight to reading |
| PoolProtocol.LoneCallerSeeksOnlyAtGaps | RandomAccessReader.go:14-15 | a single error-free caller opens one reader and seeks exactly at the discontinuities of its requests |
| PoolProtocol.PoolBoundedByPeak | RandomAccessReader.go:92-147 | pooled readers plus calls in flight never exceed the peak of concurrent calls, nor the pool MaxReaders |
| PoolProtocol.OpenHandlesBoundedByPeak | RandomAccessReader.go:78-147 | no more readers are open than calls were once in flight together |
| RandomAccessReaders.OpenRead | File.go:75-81 | a fresh handle with its reader enabled, at position 0; cannot fail on a healthy backend |
| RandomAccessReaders.ReadFull | RandomAccessReader.go:62 | a request inside the file fills the buffer with the file's bytes, or leaves a correct prefix and an error |
| RandomAccessReaders.ReadFullTurns | RandomAccessReader.go:62 | for a request that reaches beyond the end of a reliable file, no number of turns of io.ReadFull fills the buffer or ends with an error |
| RandomAccessReaders.RandomAccessReader.constructor | RandomAccessReader.go:30-36 | an open empty pool with the source's limit |
| RandomAccessReaders.RandomAccessReader.GetReaderFromPool | RandomAccessReader.go:92-119 | does Take; the reader that comes out is usable and shares nothing with those left |
| RandomAccessReaders.RandomAccessReader.GetReaderFromPoolOrCreateNew | RandomAccessReader.go:78-89 | a pooled reader whenever there is one, the exact hit if there is, and it alone leaves the pool; a new one only from an empty pool; a closed pool gives the error and opens nothing |
| RandomAccessReaders.RandomAccessReader.ReturnReaderToPool | RandomAccessReader.go:122-147 | does GiveBack, keyed by the reader's own position, keeps the pooled readers sound and apart, and a reader it drops is fit and apart from them |
| RandomAccessReaders.RandomAccessReader.UseReader | RandomAccessReader.go:52-63 | from any usable reader, whatever its history, success is exactly content[offset..offset+len] |
| RandomAccessReaders.RandomAccessReader.ReadAt | RandomAccessReader.go:38-64 | the whole stack: success is exactly the file's bytes, failure a correct prefix, a reliable file never fails; the reader used comes out of the pool unless that is empty, and goes back under the position it then has unless the call failed or the pool is full; a dropped reader can be closed after a success, and after a failure if nothing is retried |
| RandomAccessReaders.RandomAccessReader.Close | RandomAccessReader.go:67-75 | the stream of every pooled reader is closed, which is always safe, and the pool is gone |
| ConcurrentReads.Calls.EnterCall | RandomAccessReader.go:92-119 | the locked lookup, among any calls in flight: a pooled reader whenever there is one, the exact hit if there is; otherwise the call waits to open one, or is refused by a closed pool; no reader is lost |
| ConcurrentReads.Calls.OpenCall | RandomAccessReader.go:78-89 | a call that found none opens a reader that shares nothing with anybody, the only one that is new, or is over; all others stay where they are; a reliable file refuses nobody |
| ConcurrentReads.Calls.PlaceCall | RandomAccessReader.go:52-61 | the call's reader stands at its offset; no other call, reader or buffer is touched |
| ConcurrentReads.Calls.FillCall | RandomAccessReader.go:62 | the call's buffer receives the file's bytes, or the call is over and drops the reader it held; all others stay where they are |
| ConcurrentReads.Calls.LeaveCall | RandomAccessReader.go:122-147 | the answer is still exactly the file's bytes after whatever the others did in between; the reader goes back or is dropped, as is one it replaces, and none is lost |
| ConcurrentReads.Calls.DiscardCall | RandomAccessReader.go:40-48 | the background Close of a dropped reader, beside the calls in flight: its stream is closed; crashes exactly without a stream, never if nothing is retried |
| ConcurrentReads.Calls.CloseAll | RandomAccessReader.go:67-75 | closing the pool closes the stream of every pooled reader and leaves every call in flight with a sound one |
| ConcurrentReads.AnswersAttributed | RandomAccessReader.go:38-64 | every answer is that of one call, exactly the file's bytes at the offset and of the length it asked for, and no call is answered twice |
| ConcurrentReads.Step | RandomAccessReader.go:38-147 | each section does to the calls in flight what a file without readers and pool would do, or ends the one call whose open or read fails; the answer is that of the call that leaves; no reader is lost unless its stream has been closed; only a background Close can crash |
| ConcurrentReads.Interleave | RandomAccessReader.go:38-147 | any schedule of any number of calls, background closings and Close: the answers follow from the schedule, the file and which sections failed, and nothing else; each is one call's, with exactly what it asked for; over a reliable file nothing fails; nothing crashes if nothing is retried |
| RetryPolicies.Op.constructor | RetryPolicy.go:51-56 | a first attempt without delay and with its deadline |
| RetryPolicies.Op.ShouldRetry | RetryPolicy.go:61-97 | allows a retry exactly below the attempt limit and before the deadline, and sleeps before it; every sleep is the one before it times the base, rounded down, and at most MaxDelay, unless delays are randomised; it ends by the deadline plus MaxDelay |
| RetryPolicies.Op.ShouldRetryAt | RetryPolicy.go:61-97 | the same at a given clock reading and random number: a randomised sleep exceeds MinDelay by that part of what the delay exceeds it by |
| RetryPolicies.BackoffGrowsWithinBounds | RetryPolicy.go:73-81 | the stored delay is 0, then MinDelay, then non-decreasing and within [MinDelay, MaxDelay] |
| RetryPolicies.BackoffMultiplies | RetryPolicy.go:77-80 | from the second failure on each stored delay is base times the one before, less than a nanosecond short of it, or MaxDelay exactly if that product is no less |
| RetryPolicies.BackoffBelowExponential | RetryPolicy.go:73-81 | the delay of attempt n is at most MinDelay times base to the n-2 |
| RetryPolicies.CeilingIsKept | RetryPolicy.go:78-80 | a delay that has reached MaxDelay stays there |
| RetryPolicies.MaxDelayHoldsIffMinDelayFits | RetryPolicy.go:16-17 | MaxDelay bounds every delay if and only if MinDelay does not exceed it |
| RetryPolicies.SleepsWithinBounds | RetryPolicy.go:83-86 | the first retry is immediate, every later sleep lies between MinDelay and the stored delay |
| RetryPolicies.AllowedSleepsGrow | RetryPolicy.go:73-86 | the sleeps of an operation: none, then MinDelay, then each the one before times the base, rounded down, and at most MaxDelay, unless delays are randomised |
| RetryPolicies.RetryOnOwnClock | RetryPolicy.go:61-97 | an operation on a clock that only its own sleeps move: it retries until attempts or deadline run out, and every retry starts no later than the deadline plus MaxDelay |
| FaultTolerantAccessors.CallsNeeded | FaultTolerantHdfsAccessor.go:61-70 | up to the first settled outcome, at most the budget, all earlier outcomes unsettled |
| FaultTolerantAccessors.CallsNeededIsUnique | FaultTolerantHdfsAccessor.go:61-70 | those bounds determine the number of calls |
| FaultTolerantAccessors.FaultTolerantHdfsAccessor.Retry | FaultTolerantHdfsAccessor.go:25-169 | success, end-of-file, "exists", "does not exist" and "no permission" end it at once and close nothing; any other error is retried while attempts and time last; the last outcome is returned, one Close after each earlier failure (none in EnsureConnected) |
| FaultTolerantAccessors.FaultTolerantHdfsAccessor.OpenRead | FaultTolerantHdfsAccessor.go:36-51 | a live reader at 0 wrapped around a fresh stream, or an error of the file that is benign or came when retries had run out |
| FaultTolerantReaders.FaultTolerantHdfsReader.Read | FaultTolerantHdfsReader.go:21-55 | through any failures and reopenings a success returns the next bytes and moves Offset by their number, a failure moves nothing; a reliable file only fails at its end; the turns taken are a possible history, which says what is returned, how often ShouldRetry was asked and whether there is a stream afterwards |
| FaultTolerantReaders.FaultTolerantHdfsReader.Attempt | FaultTolerantHdfsReader.go:24-55 | one turn: a stream whose Read is to be retried, or that refuses Offset, is closed and not only forgotten |
| FaultTolerantReaders.StreamSurvivesIffSturdy | FaultTolerantHdfsReader.go:21-55 | every Read that begins with a stream ends with one if and only if nothing is retried: one attempt is all, the time limit is negative, or the file has no error worth it |
| FaultTolerantReaders.FaultTolerantHdfsReader.Reopen | FaultTolerantHdfsReader.go:25-41 | a new stream positioned at Offset, or none |
| FaultTolerantReaders.FaultTolerantHdfsReader.Seek | FaultTolerantHdfsReader.go:58-68 | Offset and stream move together, or neither moves |
| FaultTolerantReaders.FaultTolerantHdfsReader.Close | FaultTolerantHdfsReader.go:78-82 | the stream is closed and forgotten |
| FaultTolerantReaders.ReadRun | FaultTolerantHdfsReader.go:21-68 | the successful reads after a Seek(p), among any failures, concatenate to one stretch of content starting at p |
| FileFragments.FileFragment.ReadFromBackend | FileFragment.go:13-35 | the fragment becomes what the backend has at its position, labelled with the caller's offset; at least the minimum, or an error; from a backend that gives as much as is asked for, the maximum or up to the end |
| FileFragments.FileFragment.Fill | FileFragment.go:23-34 | the fill loop gathers one contiguous stretch in place, stops with the read that reaches the minimum, never asks for an empty slice, and terminates |
| FileFragments.FileFragment.ReadFromBuffer | FileFragment.go:38-53 | a hit exactly if the fragment covers the offset, and then the clipped range, nothing else touched |
| ReadCache.HitIsContent | FileHandleReader.go:70-75 | a buffered answer from a truthful cache is the file's content |
| ReadCache.PartialDelivers | FileHandleReader.go:69-122 | at least one byte or a backend error: the internal fragment error is unreachable |
| ReadCache.PartialTruth | FileHandleReader.go:85-121 | a truthful cache stays truthful exactly for safe requests, whose answers are then the file's bytes |
| ReadCache.PartialAstray | FileHandleReader.go:94-101 | once a swallowed Seek has led astray, reading on never leads back |
| ReadCache.PartialWindow | FileHandleReader.go:85-103 | inside the window no Seek happens and the window moves along |
| ReadCache.PartialSteady | FileHandleReader.go:69-122 | the backend stays inside the file, and only the end of a reliable file stops a request |
| ReadCache.PartialOutcome | FileHandleReader.go:69-122 | all of these for every step of the cache |
| ReadCache.PartialCosts | FileHandleReader.go:70-106 | a hit costs nothing; a miss a Seek exactly if it lies behind or more than 128K ahead, and less than 64K more than was asked for and skipped |
| ReadCache.PromptMissFetchesBlocks | FileHandleReader.go:105-109 | where the backend gives as much as is asked for, a miss fetches whole 64K blocks, or up to the end |
| ReadCache.WindowServed | FileHandleReader.go:85-103 | inside the window no Seek comes up, so a lost stream is no obstacle |
| ReadCache.SeekComesUp | FileHandleReader.go:70-94 | in any other request what is cached ends at a byte that needs a Seek |
| ReadCache.FailedMissServed | FileHandleReader.go:85-115 | a failed request, unless its Seek was refused, needs no Seek when it is made again |
| ReadCache.TurnOfLoop | FileHandleReader.go:48-56 | one more ReadPartial keeps the answer so far right and contiguous |
| ReadCache.TurnsAnswer | FileHandleReader.go:42-64 | any chain of ReadPartial outcomes that ends makes a correct answer |
| ReadCache.AnswerInside | FileHandleReader.go:42-64 | inside the file an answer is everything asked for, or a correct part and an error |
| ReadCache.StreamOn | FileHandleReader.go:48-109 | a sequential read continues a pass without Seek, hole or byte fetched twice |
| ReadCache.SwallowedSeekGivesWrongBytes | FileHandleReader.go:95-101 | a fresh reader's second request, past the end, after which the cache is wrong and the answer comes from elsewhere |
| FileHandleReaders.FileHandleReader.constructor | FileHandleReader.go:28-39 | two empty fragments that share nothing |
| FileHandleReaders.FileHandleReader.Approach | FileHandleReader.go:79-106 | swap, hole or Seek exactly as the step says; the minimum to read never exceeds the maximum |
| FileHandleReaders.FileHandleReader.FromBuffers | FileHandleReader.go:70-75 | the newer fragment answers before the older, and only the hit counter changes |
| FileHandleReaders.FileHandleReader.ReadStep | FileHandleReader.go:69-122 | performs the step Partial, in place, with the two fragments kept disjoint |
| FileHandleReaders.FileHandleReader.ReadPartial | FileHandleReader.go:69-122 | the step's promises, and no nil dereference as long as there is a stream or no Seek comes up |
| FileHandleReaders.FileHandleReader.Read | FileHandleReader.go:42-64 | after any history, unless a Seek comes up without a stream: from a truthful cache exactly content[off..min(off+size, length)], or a correct prefix and an error, and truthful afterwards exactly if the request was safe; no Seek in the window; what is missing after a failure can be asked for again |
| FileHandleReaders.FileHandleReader.ReadToNil | FileHandleReader.go:42-94 | every request outside Read's precondition serves what is cached and then needs a Seek without a stream |
| FileHandleReaders.FileHandleReader.Close | FileHandleReader.go:125-132 | the backend stream is released, once |
| FileHandleReaders.ReadSequentially | FileHandleReader.go:12-15 | any run of reads each starting where the last ended: no Seeks, no holes, every byte fetched once, the file's bytes returned |
| FileHandles.FileHandle.EnableRead | FileHandle.go:33-43 | opens a reader once, which starts with nothing cached; a handle that has one, in whatever state, is left alone |
| FileHandles.FileHandle.Read | FileHandle.go:64-77 | passes on the reader's answer, after a lost stream too; a failed lazy open reports the untouched buffer at full length |
| FileHandles.FileHandle.Release | FileHandle.go:113-117 | the reader's stream is closed and the reader dropped, whatever the cache holds |
| FileHandleStreams.FileHandleAsReadSeekCloser.Read | FileHandleAsReadSeekCloser.go:25-30 | answers at the position and moves it by the length of the answer |
| FileHandleStreams.FileHandleAsReadSeekCloser.Seek | FileHandleAsReadSeekCloser.go:33-38 | moves the position only; the handle is not touched |
| FileHandleStreams.FileHandleAsReadSeekCloser.Close | FileHandleAsReadSeekCloser.go:46-48 | the stream behind a usable adapter is closed |
| FileHandleWriters.OverlayAt | FileHandleWriter.go:92 | WriteAt byte by byte: the write over what was there, zeros in a gap |
| FileHandleWriters.OverlayAllIsLastWriteWins | FileHandleWriter.go:81-98 | a run of writes leaves at each byte the last write covering it, else the old byte, else zero |
| FileHandleWriters.NewFileHandleWriter | FileHandleWriter.go:23-78 | the calls made to HDFS and what decides the outcome; staging starts as a copy of the remote content, or empty for a new file or after a failed Stat |
| FileHandleWriters.FileHandleWriter.Write | FileHandleWriter.go:81-98 | refused exactly if StatFs says there is no room; a failed write keeps its part in staging but does not count it |
| FileHandleWriters.FileHandleWriter.Flush | FileHandleWriter.go:101-124 | nothing, or one attempt and never a retry; nil means published exactly if bytes were accepted and no local read failed before the end, or nothing was done and it was published before |
| FileHandleWriters.FileHandleWriter.FlushAttempt | FileHandleWriter.go:127-160 | Remove, CreateFile, writes and Close in this order, Close in any case, and the first failure after the Remove is returned; nil means the remote file is what could be read of the staging file: the whole of it if and only if no local read fails before its end |
| FileHandleWriters.FileHandleWriter.Publish | FileHandleWriter.go:136-152 | the chunk loop writes everything up to the first local read error, in order, until a write fails; no chunk is longer than the one before, and from a disk that does not fail each is of 64K or the rest; it terminates |
| FileHandleWriters.Session | FileHandleWriter.go:81-160 | open, write, flush: the remote file is byte for byte the writes in order over the base, up to a local read error; with nothing failing that is what happens |
| ZipTrees.InsertInPlace | ZipDir.go:93-124 | an entry whose directories exist adds exactly its own node at its own path |
| ZipTrees.BuildFaithful | ZipDir.go:82-125 | with all parents listed first, the tree holds the entries and nothing else |
| ZipTrees.WalkLags | ZipDir.go:112-122 | from the first missing directory on, the cursor never catches up with the components |
| ZipTrees.StaysLost | ZipDir.go:82-125 | no later entry repairs a misplaced one |
| ZipTrees.MisplacedForGood | ZipDir.go:112-122 | the first entry whose parents are not listed is never found at its path, whatever follows |
| ZipTrees.TreeMatchesArchiveIffParentsFirst | ZipDir.go:82-125 | looking up every entry's path finds that entry if and only if the names are normalised and distinct and every directory on an entry's way is listed before it |
| ZipTrees.EmptyComponentsIgnored | ZipDir.go:96-100 | a doubled or leading slash makes no difference to where an entry lands |
| ZipTrees.DirectoryHidesFile | ZipDir.go:148-164 | of a file and a directory of one name the directory is found, whichever comes first |
| ZipDirs.ZipDir.ReadArchive | ZipDir.go:46-127 | builds the tree once, from the names in order; a failure is returned and leaves the root unread |
| ZipDirs.InsertEntry | ZipDir.go:93-124 | the inner loop over objects inserts the entry as the value-level walk does |
| ZipDirs.Step | ZipDir.go:96-124 | one component: descend, add a file, or add a directory without entering it |
| ZipDirs.ZipDir.LookupFinds | ZipDir.go:148-164 | Lookup finds the child directory, else the file, else nothing |
| ZipDirs.ZipDir.FindPath | ZipDir.go:148-164 | Lookups along a path find what the tree has there |
| ZipDirs.ZipDir.LookupPath | ZipDir.go:148-164 | so do they on the mount, where the first Lookup reads the archive or returns its failure |
| ZipFileHandles.ZipFileHandle.TryRead | ZipFileHandle.go:38-64 | nothing unless the request is next; then as many bytes as asked for or left, which are those at the offset, and the offset moves by their number |
| ZipFileHandles.ZipFileHandle.ReadFull | ZipFileHandle.go:55-57 | reads up to the buffer's length, less only at the end of the stream |
| ZipFileHandles.StepKeepsInv | ZipFileHandle.go:38-64 | every arrival and service keeps replies right, complete and contiguous, and changes nothing else |
| ZipFileHandles.RunKeepsInv | ZipFileHandle.go:38-64 | in every run each reply is right and complete, the replies in service order are a prefix of the content, and every request that has arrived waits or has its one reply |
| ZipFileHandles.TilesServesSomeone | ZipFileHandle.go:41-52 | tiling requests: somebody is next, and nobody's turn is past |
| ZipFileHandles.TilesKept | ZipFileHandle.go:41-62 | whoever is served, the rest still tile |
| ZipFileHandles.DrainableIffTiled | ZipFileHandle.go:41-52 | pending non-empty requests can all be served if and only if they tile the content from the current offset |
| ZipFileHandles.NoOrderSpoilsIt | ZipFileHandle.go:38-64 | from tiling requests, after services in any order, each service is one request less, and while anybody waits somebody is next |
| ZipFileHandles.PastTheEndWaitsForever | ZipFileHandle.go:41 | a request past the end of the content is never served |
| Paths.ComponentsRender | Dir.go:36-51 | an absolute path determines its components |
| Paths.BelowIffStringPrefix | FileSystem.go:118 | a string prefix followed by a slash is the same as lying below |
| FileSystems.IsPathAllowed | FileSystem.go:109-123 | true exactly if the path is the root or some prefix admits it |
| FileSystems.AllowedIffComponentPrefix | FileSystem.go:109-123 | the string test holds if and only if the path is root, "*" is listed, or a prefix's components begin it |
| FileSystems.AllowedClosedBelow | Dir.go:142 | below an allowed directory other than the root everything is allowed, so listing it filters nothing |
| FileSystems.RootIsNotClosed | FileSystem.go:110-112 | the root is allowed even when none of its entries is |
| Namespaces.AddedSound | Dir.go:168-177 | a new node keeps every cached node named, held and backed |
| Namespaces.EnteredSound | Dir.go:168-177 | so does a node that takes the place of a cached one, with all that was cached below that |
| Namespaces.DroppedSound | Dir.go:220-228 | so does removing an entry with all that is cached below it |
| Namespaces.RenamedSound | Dir.go:231-249 | so does a rename in a directory: three fields are written, all paths below follow |
| Namespaces.RenamableOverTarget | Dir.go:237-246 | so does one that replaces a file, which is forgotten: then it is a rename to a free name |
| Namespaces.UncachedRenameSound | Dir.go:238 | so does a rename of an entry that is not cached, a cached file it replaces included |
| Namespaces.MovedExactly | Dir.go:231-249 | what a move does to the backend: it takes along what lies below, leaves nothing behind and touches nothing else |
| Dirs.FileSystem.AbsolutePathIsKey | Dir.go:36-42 | a cached node's AbsolutePath is the path of entry names that leads to it |
| Dirs.FileSystem.ChildPathIsKey | Dir.go:45-51 | AbsolutePathForChild is that path with one more name |
| Dirs.FileSystem.CachedNodesAreReal | Dir.go:36-51 | every reachable node's Name is its key, its Parent holds it, and its absolute path names a backend object of the same kind |
| Dirs.FileSystem.Root | FileSystem.go:104-106 | a root with nothing cached |
| Dirs.Node.NodeFromAttrs | Dir.go:168-177 | enters one new node, in the place of any cached one, and keeps the cache in step |
| Dirs.Node.Lookup | Dir.go:95-128 | an allowed name's cached node as it is, or a new one, or the archive that "name.zip@" shows; with a healthy backend found exactly if the object or the archive exists; otherwise ENOENT or the backend's error |
| Dirs.Node.ReadDirAll | Dir.go:131-165 | lists each allowed name the backend has once and, beside each such archive, once the name that shows its tree; enters a new node for each allowed name and leaves the others; the cache stays in step |
| Dirs.Node.ListingCounts | Dir.go:141-163 | how often a name is listed: once if it is an entry's own, and once if it shows an archive |
| Dirs.Node.Mkdir | Dir.go:197-203 | the directory appears in backend and cache together, or in neither |
| Dirs.Node.Remove | Dir.go:220-228 | the object and everything below it disappear from both, or from neither |
| Dirs.Node.Rename | Dir.go:231-249 | cache and backend move together within a directory or uncached; a cached move elsewhere leaves Parent stale |
| Dirs.WalkTo | Dir.go:95-128 | lookups along a path from the root lead to a directory exactly if the backend has directories and the mount shows them all the way |
| Dirs.Perform | Dir.go:95-249 | one request, answered as by a mount that caches nothing (`FileSystem.Serves`) |
| Dirs.Run | Dir.go:95-249 | after any run of lookups, listings, mkdirs, removes and renames the cache is in step with the backend, and over a healthy backend every request that looks up no "name.zip@" is answered, and changes the backend, as if nothing were cached |

## Left out

- Mounting, unmounting, signals, logging, statistics and process start: plumbing around the core. The retry policy is fixed, although main.go changes it on shutdown.
- HDFS itself, its client library and HdfsWriter: contracts. FaultTolerantHdfsWriter.go passes calls through.
- Machine integers: offsets, sizes and durations are unbounded; the source's are 64 bits wide.
- Floating point: the backoff multiplies reals and truncates; rounding is not modelled.
- ConcurrentReads.Calls.FillCall: one io.ReadFull is one section, although two of them may overlap; they touch no common object but the accessor's connection.
- RandomAccessReaders.RandomAccessReader.ReadAt: returns the reader that the source closes in the background; `ConcurrentReads` schedules that Close.
- FaultTolerantAccessors.FaultTolerantHdfsAccessor.Retry: the nine operations differ only in the call and in Close, so one loop stands for them; attributes and listings are opaque results.
- The file handle's mutex and its writing side: operations on one handle are serialised, reads do not see staged writes, and the writer is modelled on its own.
- FileHandleWriters.FileHandleWriter.Flush: the reconnect and the 30 second wait are not written out, because no outcome reaches them.
- Temporary file names, permissions and the metadata cache that Flush invalidates.
- ZipDirs.ZipDir.ReadArchive: attributes, and concurrent first readers, for which SubDirs is visible before the tree is filled.
- Decompression, and stream errors other than end-of-file, in zip handles.
- Dirs.Node.Lookup: the node it makes for "name.zip@" is not modelled here but in `ZipDirs`.
- Dirs.Node.ReadDirAll: inode numbers and types of the listed entries, and their order.
- Dirs.Run: does not rename a cached entry into another directory, because the source then leaves its Parent behind; what it answers about names that show archives is said by `Dirs.Node.Lookup` alone.
- Create, which leaves an entry behind when it fails. Attribute refresh, Setattr and chown, which may overwrite Attrs with a failed reply.
- CloseOnUnmount, Statfs, the uid cache and the list of active handles: easy members.
