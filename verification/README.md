# Speedy: a verified model

Speedy is a storage backend for a Docker registry. Chunk servers (C) keep files in large append-only
chunk files, a chunk master and image servers (Go) hand out file ids and choose where files go, and
a registry driver (Python) cuts streams into fragments and puts them together again. This project
models the parts in which something can go wrong over a whole run, and proves that it does not, or
exactly when it does.

`dafny verify dfyconfig.toml` checks everything.

## What is modelled

**The storage engine** (`Format`, `Readings`, `Recovery`, `Images`, `Chunks`, `Engine`, `EngineInv`, `Crash`,
`DistinctFids`, `Runs`, `Requests`, `Stranded`, `Witnesses`, `Handlers`, `Workers`). A chunk is a
superblock and a log of records, each a meta block of 30 bytes and the file's data. `Engine` is a state machine:
requests arrive, workers write their records piece by piece in any interleaving, count them, write the
superblock and return, the main thread completes, parks, kills and times out writes, readers fetch
their extents piece by piece or fail, and the process may crash and recover between any two of these
steps. A history that no step looks at records which log the counters of a chunk stand for, how much
of it the superblock on disk commits, and what has been acknowledged. `Handlers` and `Workers` are the
handlers and the worker functions as methods over mutable state, proved to do what the steps say.
`Recovery.Parser` is the buffered parser with its 32-bit arithmetic; `Readings` has the plain scan of a
log and what such a parser makes of it, for every file, buffer and way of cutting up the reads.
`Requests` follows requests from their arrival to their answers. `Witnesses` holds runs from the first
start that show what each hypothesis is for.

**What lies under it** (`Codec`, `Adler`, `RwBuffers`, `BufferAdler`, `Framing`, `WorkQueue`). The
integer codecs, the Adler-32 checksum with its deferred reductions, the buffer over linked memory
blocks that come from a pool, requests and responses on a connection, and the worker pool with its
condition variable, eventfd, and rules for growing and shrinking, as a state machine over its critical
sections.

**The Go parts** (`FidAlloc`, `ResourcePool`, `MinHeaps`, `Selection`, `Routes`). The allocation of file ids
from the database to the upload, the pool of connections over a channel of tokens, the choice of a
group with a heap, and the refresh of routes and connection pools.

**The driver** (`Driver`). Upload in fragments, the check of their list, and a reader that follows a
downloader.

## Where the code does not do what one might expect

Each of these is kept as the code has it, with a proof of exactly when it matters.

- Two writes in flight with the same fid are both admitted. If both succeed no recovery gets past the
  duplicate (`Witnesses.CollisionReached`, `Runs.TwiceFatal`); recovery succeeds exactly if the
  committed fids differ (`Crash.RestartExact`).
- A write is acknowledged even if the superblock write fails. A crash then loses it
  (`Witnesses.AcknowledgedLost`); an acknowledged file is recovered exactly if its record was committed
  (`Runs.CrashRecovered`, `Runs.AcknowledgedSurvives`).
- The sum of a request's size and a meta block is computed in 32 bits. With at most 4096 memory blocks
  it cannot wrap, and with more a request can be queued on a chunk that is too small for it
  (`RwBuffers.WrapsExactly`, `Witnesses.SizesExact`); the server accepts a limit of 5120.
- The recovery parser keeps what is left of a body and its position in a C int. It notes a record
  that is not there exactly if the scan stops at a meta block that claims 2^31 bytes more than are
  buffered (`Readings.NextExact`, `Readings.Reading.ParsingExact`, `Recovery.MisreadFile`), and some way of
  cutting up the reads brings that about exactly if it claims 2^31 bytes (`Readings.MisreadSomehow`). A
  complete log that ends at 2^31 or beyond is never indexed correctly (`Recovery.SetupChunk`). Neither
  happens to a file the server has written (`Runs.DiskRecoverable`).
- The parser aborts exactly if it reads for a meta block and does not get all of it
  (`Recovery.Parser.ParseNext`, `Recovery.ShortAborts`); a directory the server has written is recovered
  exactly if that never happens (`Runs.RecoverDisk`).
- A damaged log is installed as the scan has it exactly if its parse is clean, and full reads make it so
  when the scan stops at a whole meta block of an ordinary size; what lies behind that is left out of the
  index in silence (`Recovery.LoadExact`, `Recovery.CutInstalled`, `Images.LoadAllExact`).
- What is left of a response is counted in an int. With 2^31 bytes or more it is never sent
  (`Framing.Connection.WriteHandler`); no stored file is that long (`Runs.ResponseFits`).
- A chunk that a write takes when no job is left, or whose write completes with a fid that has turned
  up in the index, is out of use until a restart (`Stranded.StrandsExactly`,
  `Witnesses.StrandedByShortage`, `Witnesses.StrandedByDuplicate`).
- The flat checksum differs from its definition for an empty input or one byte with seeds that are not
  reduced (`Adler.Adler32`, `Adler.SingleByte`, `Adler.MissedInputs`). Combining two checksums gives 65521
  in the place of a half that is 0 (`Adler.CombineCorrect`, `Adler.CombineMisses`).
- When the database cannot be read after the first window, the chunk master hands out fids a second
  time (`FidAlloc.FailedReadExact`, `FidAlloc.FailedReadReissues`, `FidAlloc.UploadedTwice`).
- Changes of a pool's capacity that overlap, closing included, can make a put panic
  (`ResourcePool.PanicsExactly`, `ResourcePool.OverlapPanics`, `ResourcePool.CloseUnderHolder`).
- A host that is in two groups and leaves one of them loses its connection pool
  (`Routes.Router.HandleChunkServerInfo`, `Routes.KeptExact`, `Routes.HostLosesPool`).
- A downloader that nobody has read from for 300 seconds gives up, behind the last fragment too, and the
  read then fails although everything is there (`Driver.StreamRead`).

## Conventions

- Numbers are unbounded; 8-, 16-, 32- and 64-bit fields are bounded explicitly where they are encoded,
  summed or compared. Shifts and bit operations of the source are written as division and sums.
- What the environment decides is a parameter or a nondeterministic choice: how many bytes a system
  call moves and whether it fails, whether an allocation succeeds, the time, random numbers, the order
  in which a directory or a Go map is listed, which thread comes next.
- A crash is a crash of the process: what a system call has written stays written. The superblock
  write is taken to be atomic. Chunks are 2^31 bytes.
- Writes and positioned reads that are interrupted are repeated, which the model folds into one call.

## Model

| member | source | states |
|---|---|---|
| Runs.SafeForever | chunkserver/spy_store.c:590-664 | once acknowledged and committed, a file is after any run with any number of crashes still acknowledged, still at the same place, with the same record |
| Runs.SafeBytes | chunkserver/spy_store.c:590-664 | the extent on disk of such a file is exactly its meta block and data |
| Runs.BytesForever | chunkserver/spy_store.c:590-664 | between crashes, whatever writes succeed or fail beside it, a file in the index stays there with unchanged bytes, committed or not |
| Runs.StepKeepsBytes | chunkserver/spy_store.c:590-664 | one step of that |
| Runs.ExtentsDisjoint | chunkserver/spy_store.c:601-642 | two files of one chunk have disjoint extents |
| Runs.ReadsExact | chunkserver/spy_store.c:470-540 | a read whose pieces were fetched between any other steps passes the fid and checksum tests and answers with exactly the data of the record its index entry stands for, which is the data acknowledged for it |
| Runs.DamagedReply | chunkserver/spy_store.c:526-535 | an extent with one damaged byte of data, or of another file, is not answered |
| Runs.WorkersNeverStuck | chunkserver/spy_store.c:590-664 | the size conditions of a writer's next step always hold |
| Runs.ReadersNeverStuck | chunkserver/spy_store.c:491-508 | every further stretch of an extent can be read |
| Runs.RunInv | chunkserver/spy_server.c:526-628 | every run keeps the whole invariant |
| Runs.RunFids | chunkserver/spy_server.c:526-628 | and, if requests in flight carry different fids, keeps all fids in logs, index and flight apart |
| Requests.RequestsConserved | chunkserver/spy_server.c:230-628 | over every run from the first start, for each fid and data: requests that arrived are as many as were answered, are parked or in flight, and were lost in a crash; a write is answered on arrival, when it is done, when parked writes are killed, or exactly when it has timed out |
| Requests.AcknowledgedArrived | chunkserver/spy_server.c:230-319 | over every run from the first start: the data acknowledged for a file is that of a request that arrived for it, and so is every write parked or in flight |
| Requests.NeverIdle | chunkserver/spy_server.c:257-284 | over every run from the first start: no write is parked for which a free chunk has room |
| Requests.WriteThenRead | chunkserver/spy_server.c:526-811 | from every reachable state: a write for which there is a job and a chunk with room can run to its acknowledgement, and a read of it then to an answer with exactly its data |
| Requests.ReadRun | chunkserver/spy_server.c:735-811 | from every reachable state with a free job: a read of an acknowledged file can run to an answer with exactly the acknowledged data |
| Requests.WriteRun | chunkserver/spy_server.c:526-628 | and a write to its acknowledgement |
| Requests.StepRequests | chunkserver/spy_server.c:230-628 | one step of the conservation |
| Requests.StepNoIdle | chunkserver/spy_server.c:257-284 | one step of the other |
| Requests.AdmitExact | chunkserver/spy_server.c:526-628 | a write is answered FileExists exactly if its fid is in the index, ChunkUnavailable exactly if no free chunk has room and the most writes are parked, IoJobUnavailable exactly if no job is left, and otherwise not yet |
| Requests.AdmitPlaces | chunkserver/spy_server.c:563-616 | a write that is not answered is parked last if no free chunk has room, and otherwise queued at the current offset of the first that has, which leaves the free list |
| Requests.CompleteExact | chunkserver/spy_server.c:230-319 | a write that is done is answered InternalError exactly if its fid has turned up in the index, else WriteError or Success as its worker returned; exactly on success it is in the index, where its record is |
| Requests.HandOnExact | chunkserver/spy_server.c:257-284 | its chunk goes to the first parked write that fits, with its fid and data and at the current offset, and if none does to the end of the free list |
| Runs.TwiceFatal | chunkserver/spy_store.c:46-66 | a fid committed twice stops every recovery |
| Crash.RestartExact | chunkserver/spy_store.c:285-335 | recovery succeeds exactly if the committed records have different fids, and then the index covers them exactly |
| Crash.StepInv | chunkserver/spy_server.c:526-628 | every step of the main thread, a worker, or a crash with recovery keeps the invariant |
| Crash.RestartInv | chunkserver/spy_store.c:712-754 | a crash and recovery keeps it |
| DistinctFids.StepFids | chunkserver/spy_server.c:563-616 | every step keeps fids apart as long as no request arrives with a fid in flight |
| EngineInv.ArriveInv | chunkserver/spy_server.c:526-628 | admission of a write keeps the invariant |
| EngineInv.DoneInv | chunkserver/spy_server.c:230-319 | completion of a write keeps it |
| EngineInv.KillInv | chunkserver/spy_server.c:334-362 | killing the parked writes keeps it |
| EngineInv.TimeoutInv | chunkserver/spy_server.c:1076-1108 | the timeout sweep keeps it |
| EngineInv.SweepExact | chunkserver/spy_server.c:1076-1108 | with a clock that does not go back, the sweep, which stops at the first write that has not timed out, removes exactly those that have |
| EngineInv.BeginInv | chunkserver/spy_store.c:564-588 | filling the meta block keeps it |
| EngineInv.WriteInv | chunkserver/spy_store.c:605-635 | writing any further part of the record keeps it |
| EngineInv.FailInv | chunkserver/spy_store.c:605-635 | a failed data write keeps it |
| EngineInv.CountInv | chunkserver/spy_store.c:637-642 | advancing the counters keeps it and makes the record the last of the log |
| EngineInv.SealInv | chunkserver/spy_store.c:644-664 | the superblock write, successful or not, keeps it |
| EngineInv.StartReadInv | chunkserver/spy_server.c:735-823 | admission of a read keeps it |
| EngineInv.FetchInv | chunkserver/spy_store.c:491-508 | reading any further part of an extent keeps it |
| EngineInv.LocatedExtent | chunkserver/spy_store.c:491-508 | the extent of every index entry lies in its file and holds exactly the record |
| Engine.FirstFit | chunkserver/spy_server.c:563-568 | the first chunk of the list with more room than needed, and none before it |
| Engine.FirstParked | chunkserver/spy_server.c:257-266 | the first parked write that fits, and none before it |
| Chunks.WriteMore | chunkserver/spy_store.c:605-635 | writing more of a record leaves the log and the superblock as they are |
| Chunks.CountRecord | chunkserver/spy_store.c:637-642 | advancing the counters turns a wholly written record into the last of the log |
| Chunks.CommitLog | chunkserver/spy_store.c:386-401 | a superblock write commits the whole log |
| Chunks.CrashChunk | chunkserver/spy_store.c:285-335 | what a crash leaves of a chunk is the committed records and no trace of others |
| Handlers.ChunkServer.HandleWrite | chunkserver/spy_server.c:526-628 | the handler does to the server's lists and counters, and replies, what the admission step says |
| Handlers.ChunkServer.FindChunk | chunkserver/spy_server.c:563-568 | the list walk finds the first fitting chunk |
| Handlers.ChunkServer.PassOn | chunkserver/spy_server.c:257-282 | a freed chunk goes to the first parked write that fits, with its fid and data, or to the end of the free list |
| Handlers.ChunkServer.FindParked | chunkserver/spy_server.c:257-266 | the walk over parked writes finds the first that fits |
| Handlers.ChunkServer.WriteFileDone | chunkserver/spy_server.c:230-319 | the completion handler does what the completion step says, including the fid that has turned up in the index |
| Handlers.ChunkServer.KillPendingWrites | chunkserver/spy_server.c:334-362 | all parked writes are answered in order, none is left, and their jobs are free |
| Handlers.ChunkServer.RemoveTimeoutPendingWrites | chunkserver/spy_server.c:1076-1108 | exactly the parked writes that have timed out are answered, as parked in the order of their times, and their jobs freed |
| Workers.OpenChunk.WriteBody | chunkserver/spy_store.c:615-635 | the body is written block by block; what has been written is a prefix of the record, all of it exactly if no call fails |
| Workers.OpenChunk.WriteMeta | chunkserver/spy_store.c:603-613 | the meta block is filled and written exactly if no call fails, or a prefix of it is |
| Workers.OpenChunk.WriteSuperblock | chunkserver/spy_store.c:386-401 | the superblock of the counters is written exactly if the call succeeds, or nothing is |
| Workers.OpenChunk.Pwrite | chunkserver/spy_utils.c:35-55 | all bytes are written exactly if every call moves some; otherwise a proper prefix and an error is reported at the first call that fails |
| Workers.OpenChunk.Pread | chunkserver/spy_utils.c:13-33 | all the bytes asked for are read, and are those of the file, exactly if they are there and no call fails; it stops at the first that does |
| Workers.OpenChunk.ReadFile | chunkserver/spy_store.c:470-540 | the code is 0 exactly if no system call fails and the extent carries the fid and the right checksum, and the buffer then holds the answer unread |
| Workers.OpenChunk.FetchExtent | chunkserver/spy_store.c:491-508 | exactly if no system call fails the response buffer gets the extent, all of it and nothing else, for every layout of its blocks |
| Workers.WriterReady | chunkserver/spy_server.c:586-606 | in every reachable state a queued write finds what the worker asks for |
| Workers.FailureIsRun | chunkserver/spy_store.c:590-664 | a failed write leaves the disk as a run of the steps of its job does |
| Workers.SuccessIsRun | chunkserver/spy_store.c:590-664 | a successful write leaves disk and counters as a run of the steps of its job does |
| Recovery.Parser.Compact | chunkserver/spy_store.c:163-167 | moving the rest of the buffer to its front keeps what it stands for |
| Recovery.Parser.ReadOn | chunkserver/spy_store.c:169-183 | reading on behind it extends what it stands for |
| Readings.ScanOfLog | chunkserver/spy_store.c:151-250 | on a well-formed log the scan finds exactly its records, in order, with offset and size |
| Images.InstallOfImage | chunkserver/spy_store.c:285-335 | a file that holds a superblock and its log is installed with exactly the entries of the log |
| Images.RecoveryExact | chunkserver/spy_store.c:712-754 | recovering any set of chunk images succeeds exactly if their fids differ, and gives exactly their entries and counters |
| Images.RecoveredIds | chunkserver/spy_store.c:712-754 | whatever the files hold, the chunks recovered are their superblocks, last one first, with different ids, and the largest id is kept |
| Recovery.InstallExact | chunkserver/spy_store.c:285-335 | a chunk file is installed exactly if its superblock is one, its log does not end behind the file and the fids found are new and different, and the index then gains exactly their entries |
| Format.ParseSuperOfEncoded | chunkserver/spy_store.c:252-283 | parsing an encoded superblock gives back its fields, checksum matching |
| Format.ParseSuperExact | chunkserver/spy_store.c:252-283 | exactly the filled superblocks are accepted, and give back their fields |
| Format.DamagedSuper | chunkserver/spy_store.c:276-278 | a superblock with one damaged byte is refused |
| Format.FillSuperblock | chunkserver/spy_store.c:358-383 | the buffer is filled with the encoding |
| Format.DecodeMetaOfEncoded | chunkserver/spy_store.c:510-528 | decoding an encoded meta block gives back its fields |
| Format.FillMeta | chunkserver/spy_store.c:564-588 | the buffer is filled with the encoding |
| Format.DecodeRecord | chunkserver/spy_store.c:185-205 | the meta block of a stored record is what reader and recovery decode |
| Codec.FromBigEndianOfBigEndian | chunkserver/spy_utils.c:91-158 | decoding an encoded number of any width gives it back |
| Codec.BigEndianOfFromBigEndian | chunkserver/spy_utils.c:91-158 | and encoding what was decoded gives the bytes back |
| Codec.WriteTo1 | chunkserver/spy_utils.c:91-95 | one byte in place |
| Codec.WriteTo2 | chunkserver/spy_utils.c:103-108 | two bytes in place, most significant first |
| Codec.WriteTo4 | chunkserver/spy_utils.c:116-123 | four bytes in place |
| Codec.WriteTo8 | chunkserver/spy_utils.c:134-145 | eight bytes in place |
| Codec.ReadFrom1 | chunkserver/spy_utils.c:97-101 | the number the byte encodes |
| Codec.ReadFrom2 | chunkserver/spy_utils.c:110-114 | the number two bytes encode |
| Codec.ReadFrom4 | chunkserver/spy_utils.c:125-132 | the number four bytes encode |
| Codec.ReadFrom8 | chunkserver/spy_utils.c:147-158 | the number eight bytes encode |
| Codec.WriteVariant4 | chunkserver/spy_utils.c:160-188 | the variable-length encoding in place, and its length |
| Codec.ReadVariant4 | chunkserver/spy_utils.c:190-207 | value and length of a variable-length number, as the loop computes them |
| Codec.ReadVariantOfVariant | chunkserver/spy_utils.c:160-207 | reading an encoded number gives it and its length back, whatever follows |
| Codec.ReadVariantFails | chunkserver/spy_utils.c:190-207 | reading fails exactly if five bytes carry the continuation bit |
| Codec.ReadAllOfWriteAll | chunkserver/spy_utils.c:160-207 | any sequence of numbers written one behind the other is read back |
| Adler.Adler32 | chunkserver/spy_adler32.c:114-182 | the result is the checksum of RFC 1950 section 2.2 for every length and seed, except exactly for an empty input with a seed half of 65521 or more, and a single byte whose second sum reaches twice the base |
| Adler.MissedInputs | chunkserver/spy_adler32.c:114-182 | an input of each of the two families, all of which have a seed half of 65521 or more |
| Adler.OneByteDetected | chunkserver/spy_adler32.c:114-182 | a change of any one byte changes the checksum |
| Adler.SingleByte | chunkserver/spy_adler32.c:126-135 | the one-byte case, with its exact condition |
| Adler.ShortRun | chunkserver/spy_adler32.c:141-151 | runs of fewer than 16 bytes |
| Adler.LongRun | chunkserver/spy_adler32.c:153-178 | runs of any length, in stretches of 5552 bytes |
| Adler.Unrolled | chunkserver/spy_adler32.c:156-160 | the unrolled loop adds sixteen bytes at a time as adding each does |
| Adler.AddEach | chunkserver/spy_adler32.c:172-175 | the rest of a run |
| Adler.Do16IsRaw | chunkserver/spy_adler32.c:19-23 | sixteen unrolled steps |
| Adler.RunFits | chunkserver/spy_adler32.c:15-17 | no sum of a run of at most 5552 bytes leaves 32 bits |
| Adler.SubtractChainsReduce | chunkserver/spy_adler32.c:26-54 | the shift-and-subtract chains are the remainder on the values that reach them |
| Adler.ReducedRawIsFold | chunkserver/spy_adler32.c:153-178 | one reduction at the end of a run gives the sums of the definition |
| Adler.CombineCorrect | chunkserver/spy_adler32.c:185-206 | both halves are congruent to those of the concatenation and at most 65521, and equal them exactly if neither true half is 0 |
| Adler.CombineMisses | chunkserver/spy_adler32.c:185-206 | two empty inputs whose combined checksum is not that of the empty whole |
| BufferAdler.BufferAdler32 | chunkserver/spy_adler32.c:60-111 | for every layout of blocks the checksum of the buffer is that of the flattened bytes, and the read position is restored |
| RwBuffers.RwBuffer.Expand | chunkserver/spy_rw_buffer.c:24-67 | a block is taken from the pool if there is one, and nothing written changes |
| RwBuffers.RwBuffer.Attach | chunkserver/spy_rw_buffer.c:53-64 | a block is added at the tail |
| RwBuffers.RwBuffer.NextReadable | chunkserver/spy_rw_buffer.c:124-150 | there is a readable stretch exactly if something is unread, and it shows the next bytes |
| RwBuffers.RwBuffer.NextWriteable | chunkserver/spy_rw_buffer.c:156-178 | there is room exactly below the capacity, right behind what was written |
| RwBuffers.RwBuffer.ReadN | chunkserver/spy_rw_buffer.c:181-213 | as many bytes as there are, in order, for every layout |
| RwBuffers.RwBuffer.WriteN | chunkserver/spy_rw_buffer.c:216-233 | as many bytes as fit are appended |
| RwBuffers.RwBuffer.ResetRead | chunkserver/spy_rw_buffer.c:93-118 | the read position goes back and everything written is unchanged, so the same bytes are read again |
| RwBuffers.RwBuffer.Reset | chunkserver/spy_rw_buffer.c:69-91 | all blocks go back to the pool |
| RwBuffers.RwBuffer.Append | chunkserver/spy_server.c:956-972 | copying into the writeable stretch appends |
| RwBuffers.RwBuffer.Peek | chunkserver/spy_store.c:617-622 | the next stretch, up to a size |
| RwBuffers.RwBuffer.Skip | chunkserver/spy_store.c:629-631 | the read position moves past bytes used |
| RwBuffers.RwBuffer.constructor | chunkserver/spy_rw_buffer.c:8-22 | an empty buffer |
| RwBuffers.MemPool.Take | chunkserver/spy_rw_buffer.c:28-49 | a free block or a new one below the limit; free and used blocks add up to those allocated |
| RwBuffers.MemPool.TakeBack | chunkserver/spy_rw_buffer.c:69-91 | blocks go back to the free list, none lost |
| RwBuffers.MemPool.constructor | chunkserver/spy_mem_block.c:4-29 | the preallocated free list |
| RwBuffers.Jump | chunkserver/spy_rw_buffer.c:134-143 | a block cursor advances to the block of its position and never past the last one |
| WorkQueue.PoolSafe | chunkserver/spy_work.c:62-163 | in every reachable state, however threads interleave: if a worker sleeps unsignalled the pending works are at most the woken workers and the signal to come, so pending work never meets a pool that is all asleep; finished work has an eventfd count, a worker about to notify, or the main thread about to splice; both counters are exact; 4 to 36 threads are alive; each work is in exactly one place until its completion has run, once; and works are taken in the order they were queued |
| WorkQueue.StepOrder | chunkserver/spy_work.c:77-82 | every step keeps the pending works in the order they were queued |
| WorkQueue.CompletedInOrder | chunkserver/spy_work.c:85-93 | over every run works are completed in the order in which they were finished |
| WorkQueue.ThreadsExactly | chunkserver/spy_work.c:14-47 | a thread leaves exactly if it comes to its top when the pool is to shrink, and threads are made only when a work is queued and the pool is to grow |
| WorkQueue.GrowthProtected | chunkserver/spy_work.c:14-31 | for ten seconds after the pool has grown no thread leaves, over every run |
| WorkQueue.RunInv | chunkserver/spy_work.c:62-163 | every run keeps that |
| WorkQueue.StepInv | chunkserver/spy_work.c:62-163 | every step keeps it |
| WorkQueue.StepCounts | chunkserver/spy_work.c:16-47 | every step keeps counters, bounds, wake-ups and notifications |
| WorkQueue.StepPlaces | chunkserver/spy_work.c:77-94 | a step moves a work from one place to another, and queueing adds one |
| WorkQueue.CreatedInv | chunkserver/spy_work.c:98-144 | the pool as created satisfies it |
| WorkQueue.RunsEnd | chunkserver/spy_work.c:62-96 | without new work and causeless wake-ups every run ends: its length is bounded by a rank of its first state |
| WorkQueue.RankFalls | chunkserver/spy_work.c:62-96 | every such step lowers the rank |
| WorkQueue.RestMeansDone | chunkserver/spy_server.c:1006-1026 | and when no step is left, every work ever queued has been completed exactly once |
| WorkQueue.SomeoneUp | chunkserver/spy_work.c:77-79 | pending work without a signal to come has a worker that is up |
| FidAlloc.FidsUnique | chunkmaster/api/chunkserver.go:410-441 | over every run of one master, with restarts of anything, lost answers, full channels and updates that fail with or without being stored, no fid is given to two uploads or to an upload and a channel, unless the database fails to be read after the first window |
| FidAlloc.FailedReadExact | chunkmaster/api/chunkserver.go:420-425 | when the window is used up and the read fails, what is left as window is free of issued fids exactly if the master never had a window |
| FidAlloc.FailedReadReissues | chunkmaster/api/chunkserver.go:420-441 | otherwise the master goes on to issue a fid a second time, from memory |
| FidAlloc.StepMaster | chunkmaster/api/chunkserver.go:410-441 | every other step keeps the window whole, free and covered by the database, and each fid issued at most once |
| FidAlloc.StepDelivered | imageserver/chunkserver/fileid.go:44-90 | every step, failed reads included, leaves no fid in more hands than it was issued |
| FidAlloc.ChunkMaster.AllocFid | chunkmaster/api/chunkserver.go:410-441 | the method answers and changes window and database as the specification says |
| FidAlloc.AllocateExact | chunkmaster/api/chunkserver.go:420-441 | a range is answered exactly if the window is not used up or a new one could be reserved; it is the front of the window, and the database covers it |
| FidAlloc.Fids.Merge | imageserver/chunkserver/fileid.go:44-59 | the front of the range goes into the channel as far as there is room, in order |
| FidAlloc.Fids.GetFid | imageserver/chunkserver/fileid.go:69-78 | the oldest fid, or an error if there is none |
| ResourcePool.StepConserved | imageserver/pools/resource_pool.go:94-186 | every step conserves tokens |
| ResourcePool.StepCalm | imageserver/pools/resource_pool.go:149-186 | every step keeps the pool free of panics if resizes do not overlap |
| ResourcePool.StepAccounted | imageserver/pools/resource_pool.go:94-141 | every step accounts for every resource |
| ResourcePool.DrainWaits | imageserver/pools/resource_pool.go:170-176 | a resize that has to wait waits for a client that holds a token |
| ResourcePool.NewOk | imageserver/pools/resource_pool.go:52-66 | a new pool satisfies all that |
| MinHeaps.MinHeap.AddElement | imageserver/chunkserver/minheap.go:37-62 | what is kept stays the k largest of all elements offered, as multisets |
| MinHeaps.MinHeap.Heapify | imageserver/chunkserver/minheap.go:93-121 | letting an element sink restores the heap and permutes it |
| MinHeaps.MinHeap.Build | imageserver/chunkserver/minheap.go:68-91 | any array becomes a heap, permuted, in either order |
| MinHeaps.MinHeap.GetElementGroupId | imageserver/chunkserver/minheap.go:29-35 | the group at an index, or an error |
| MinHeaps.WeakOrder | imageserver/chunkserver/minheap.go:124-152 | both comparisons are strict weak orders |
| MinHeaps.LoadIsLexicographic | imageserver/chunkserver/minheap.go:135-152 | the order of load is that of pending writes, then of the writing count among those with none |
| MinHeaps.RootSmallest | imageserver/chunkserver/minheap.go:57-61 | the root is a smallest element |
| MinHeaps.SiftStep | imageserver/chunkserver/minheap.go:100-105 | a swap with the smallest child moves the fault down |
| MinHeaps.KeptAmongBest | imageserver/chunkserver/minheap.go:37-62 | the elements offered with more free space than one that is kept are fewer than k |
| Selection.SelectGroup | imageserver/router/router.go:644-727 | there is a group exactly if the size is positive and one is eligible; it is eligible and among the tenth plus three with most space, for any order of the groups; those kept are a heap by load in which the random number picks, so that its multiples of the size of the heap pick a least loaded one |
| Selection.Survey | imageserver/router/router.go:669-696 | whether all servers are usable, and least space, number, and largest loads of those that take writes |
| Selection.Gather | imageserver/router/router.go:655-701 | exactly the eligible groups are offered |
| Selection.EligibleExact | imageserver/router/router.go:655-700 | a group is eligible exactly if it is not being transferred, each server is writable or out of order, enough are writable, and each of those has more free space than the size |
| Selection.LeastIsBound | imageserver/router/router.go:685-687 | the space of a group is the least of its servers that take writes |
| Selection.MostAreBounds | imageserver/router/router.go:689-695 | its loads are the largest of those |
| Routes.Router.HandleChunkServerInfo | imageserver/router/router.go:781-841 | for any snapshots: if the pools were those of the hosts they are so afterwards exactly if no host leaves one group while it stays in another without entering a third; no pool is left for anyone who is not a host; all are open, those given up are closed, and with each host in one group a host that stays in its group keeps its pool |
| Routes.Router.GetChunkServerInfoTicker | imageserver/router/router.go:929-940 | after every sequence of snapshots in which no host is so dropped the pools are those of the hosts |
| Routes.Router.Switch | imageserver/router/router.go:803-840 | the new table is in place when the pools deleted are closed: none of those in use is |
| Routes.KeptExact | imageserver/router/router.go:781-841 | on the keys: taking out the hosts that left a group and putting in those that entered one gives the new hosts exactly if none is dropped, and never anyone else |
| Routes.SingleNeverDrops | imageserver/router/router.go:781-841 | snapshots with each host in one group never drop one |
| Routes.RefreshedKeys | imageserver/router/router.go:781-841 | with each host in one group this always holds, also when a server moves |
| Routes.InfoDiff | imageserver/router/router.go:880-914 | the servers that are not in the same group of the other snapshot |
| Routes.GroupDiff | imageserver/router/router.go:883-910 | those of one group |
| Routes.KeyExact | imageserver/chunkserver/chunkserver.go:60-62 | two servers have the same pool key exactly if they have the same address and port |
| Routes.ConnTable.AddPool | imageserver/chunkserver/chunkserverconnpool.go:58-79 | a new open pool if the key has none |
| Routes.ConnTable.RemoveAndClosePool | imageserver/chunkserver/chunkserverconnpool.go:108-124 | the key is removed and its pool closed, no other |
| Routes.ConnTable.CopyFrom | imageserver/router/router.go:806-811 | all pools of the old table |
| Routes.ConnTable.AddAll | imageserver/router/router.go:821-827 | a pool for every server added, and those there before unchanged |
| Routes.ConnTable.RemoveAll | imageserver/router/router.go:813-819 | the keys of the servers deleted are removed |
| Routes.ConnTable.CloseAll | imageserver/router/router.go:835-840 | exactly the pools of the servers deleted are closed, none of which is in use |
| Driver.ReadBack | docker_registry_speedy_driver/docker_registry/drivers/speedy.py:206-323 | the parts of an upload, listed in any order, are accepted, and read while they are being downloaded give back the stream if no download fails or stops for want of a reader; and the read succeeds only if none fails, and none stops before the last fragment |
| Driver.StreamWrite | docker_registry_speedy_driver/docker_registry/drivers/speedy.py:427-444 | for any sizes of reads and fragments the parts are numbered, cover the stream without gap or overlap and only the last is marked; each is made of whole reads, has at least the fragment size unless it is the last, and less without its last read |
| Driver.UploadContext.PushContent | docker_registry_speedy_driver/docker_registry/drivers/speedy.py:104-125 | the buffer joins the current fragment, which is sent, with all that was pushed since the last one, exactly if it has reached the fragment size or nothing is to come |
| Driver.CheckFragments | docker_registry_speedy_driver/docker_registry/drivers/speedy_pyclient.py:93-110 | a list is accepted exactly if, sorted by index, it is contiguous from 0 and ends with the last fragment |
| Driver.SortUndoes | docker_registry_speedy_driver/docker_registry/drivers/speedy_pyclient.py:99-99 | sorting undoes any reordering of numbered fragments |
| Driver.SortedIsSorted | docker_registry_speedy_driver/docker_registry/drivers/speedy_pyclient.py:99-99 | the sort gives a sorted permutation |
| Driver.DownloadContext.DownloadNext | docker_registry_speedy_driver/docker_registry/drivers/speedy.py:206-247 | one fragment more is complete, or the error is set because it did not come, or both because nobody has read for 300 seconds |
| Driver.DownloadContext.Read | docker_registry_speedy_driver/docker_registry/drivers/speedy.py:279-323 | only completed fragments are touched, an empty read happens only at the end, and the bytes are those of the stream from the cursor on, as many as asked for or left of the fragment |
| Driver.StreamRead | docker_registry_speedy_driver/docker_registry/drivers/speedy.py:419-425 | in every interleaving with the downloader: without trouble the pieces are the stream, and trouble with any fragment makes the read fail, but for a downloader that stops behind the last one |
| Driver.DownloadContext.FragmentThere | docker_registry_speedy_driver/docker_registry/drivers/speedy.py:285-312 | below the completed bytes the fragment to read, or the next one, is complete |
| Framing.Connection.ProcessReceiveBuffer | chunkserver/spy_server.c:868-932 | a request is dispatched exactly when all of it is there |
| Framing.Connection.ReadHandler | chunkserver/spy_server.c:934-975 | some bytes that arrived are appended and looked at |
| Framing.CompleteExactly | chunkserver/spy_server.c:868-892 | of one request no proper prefix is complete |
| Framing.Connection.ReplyHeader | chunkserver/spy_server.c:178-192 | opcode, error and length of the body |
| Framing.Connection.WriteHandler | chunkserver/spy_server.c:80-139 | with 2^31 bytes or more to send nothing is done; otherwise it sends until the socket first answers that it is full or gone, and over all calls exactly header and body leave, in order; exactly if the socket takes everything the connection is reset, once, and its blocks are back in the pool |
| Framing.Connection.SendSome | chunkserver/spy_server.c:92-135 | one write extends what has left by the next bytes of the response, waits or gives up, as the socket answers |
| Framing.Connection.ResetClientConnection | chunkserver/spy_server.c:59-78 | both buffers are empty, their blocks back in the pool |
| Runs.CrashRecovered | chunkserver/spy_store.c:285-335 | with at most 4096 memory blocks, in a run whose requests in flight carry different fids, a crash in any state is recovered from, in any directory order; the index then has exactly the fids of the records that the last successful superblock of each chunk commits, each with the chunk, offset and size of its record; and an acknowledged file is in it exactly if its record was committed |
| Runs.CrashExact | chunkserver/spy_store.c:285-335 | the same for any state that satisfies the invariant and in which no fid occurs twice |
| Runs.AcknowledgedSafe | chunkserver/spy_server.c:230-319 | the write that is being acknowledged is safe from then on exactly if the superblock on disk commits its whole chunk |
| Runs.AcknowledgedSurvives | chunkserver/spy_server.c:230-319 | and a crash right after the acknowledgement keeps it in the index exactly in that case; a failed superblock write is acknowledged all the same |
| Witnesses.AcknowledgedLost | chunkserver/spy_store.c:644-649 | a run from the first start in which a file is acknowledged, indexed, and gone after a crash |
| Runs.DiskRecoverable | chunkserver/spy_store.c:285-335 | every chunk file of a reachable state is one that the buffered parser recovers |
| Runs.RecoverDisk | chunkserver/spy_store.c:712-754 | running the parser over the files of a reachable state, in any order and however reads are cut up, gives the server that the restart step has exactly if every meta block is read whole, which full reads see to; otherwise the process aborts |
| Runs.ResponseFits | chunkserver/spy_server.c:80-139 | no response to a read of a reachable state is so long that the connection stalls |
| Runs.WritersExclusive | chunkserver/spy_server.c:526-628 | with at most 4096 memory blocks, in every reachable state each chunk is on exactly one of the two lists, two writes in flight are on different chunks, a write not yet counted starts at its chunk's current offset and fits, offset and free space add up to the chunk size with a byte to spare (so a signed 32-bit position never overflows), free, queued, reading and parked jobs add up to 5000, and at most 20 writes are parked |
| Witnesses.SizesExact | chunkserver/spy_server.c:563-568 | over all runs writes fit into their chunks exactly if the server may use at most 4096 memory blocks |
| Witnesses.OversizedAdmitted | chunkserver/spy_server.c:563-568 | with more, a request of 2^32 - 30 bytes is queued on a chunk of 2^31 |
| RwBuffers.WrapsExactly | chunkserver/spy_server.c:564-564 | the 32-bit sum of a request that can be received and a meta block wraps exactly with more than 4096 blocks |
| RwBuffers.RwBuffer.CapBounded | chunkserver/spy_rw_buffer.c:24-67 | a buffer never holds more than all the blocks there can be |
| Framing.Connection.RequestReceivable | chunkserver/spy_server.c:539-540 | a write request that was received has a size that the memory blocks and its length field bound, which is what the engine asks of an arrival |
| Runs.InitialInv | chunkserver/spy_store.c:666-695 | freshly created chunks satisfy the invariant |
| Runs.RunJob | chunkserver/spy_store.c:590-664 | a queued write can always run to its end and leave its record committed or, if the superblock write fails, not |
| Runs.CollisionFatal | chunkserver/spy_server.c:250-255 | two queued writes with one fid can run to a state that no recovery gets out of, in any directory order |
| Witnesses.CollisionReached | chunkserver/spy_server.c:526-628 | and the server gets there from its first start |
| Stranded.StrandsExactly | chunkserver/spy_server.c:577-584 | outside a restart a chunk becomes taken without a writer exactly when a write finds it with no job left, or completes on it with a fid that is in the index; no step frees one |
| Stranded.StrandedUntilRestart | chunkserver/spy_server.c:250-255 | so it stays out of use over every run until a restart |
| Stranded.RestartFrees | chunkserver/spy_store.c:712-754 | which frees every chunk |
| Witnesses.StrandedByDuplicate | chunkserver/spy_server.c:250-255 | two writes of one fid, run to their ends from the first start, leave a chunk stranded |
| Witnesses.StrandedByShortage | chunkserver/spy_server.c:577-584 | with more chunks than jobs, one request more than there are jobs leaves a chunk stranded |
| EngineInv.EndReadInv | chunkserver/spy_server.c:194-228 | the end of a read, successful or not, keeps the invariant |
| Handlers.ChunkServer.HandleRead | chunkserver/spy_server.c:735-823 | the reply is FileNotFound exactly if the fid or its chunk is unknown, MemoryLimit exactly if the free blocks and the allocations that succeed do not make room for the file, IoJobUnavailable exactly if then no job is free; otherwise a reader of the index entry is queued, with room for the whole extent |
| Workers.OpenChunk.WriteFile | chunkserver/spy_store.c:590-664 | it fails exactly if a call for the data does, at that call; a failure leaves the counters and some proper prefix of the record at the offset; a success leaves the whole record and advanced counters, with the superblock exactly if the last call succeeds; the record holds the request's bytes, its checksum and the fid |
| Recovery.Parser.ParseNext | chunkserver/spy_store.c:151-250 | on any file and for every way the reads are cut: a size that exceeds the buffered bytes by 2^31 or more is noted and not skipped; otherwise a record returned is one a plain scan finds there; it aborts exactly if it reads for a meta block and still has not got all of it; for logs that end below 2^31 the outcome and the state it leaves are those of a function of the file, the buffer and the places where reads stop short; nothing behind the log is read |
| Readings.NextExact | chunkserver/spy_store.c:209-213 | the parser notes exactly what the plain scan finds if and only if the meta block is buffered and the size in it exceeds what is buffered behind it by less than 2^31 |
| Recovery.MisreadFile | chunkserver/spy_store.c:209-247 | a chunk file with one meta block that claims 2^31 bytes, of which the plain scan makes an empty chunk, while it is installed with a file far behind its end |
| Recovery.CutInstalled | chunkserver/spy_store.c:209-247 | a log that breaks off inside the body of a record, behind any records: the file is installed, through a buffer of any size, with exactly the records before that one |
| Recovery.ShortAborts | chunkserver/spy_store.c:162-186 | a log of less than a meta block, in which the plain scan finds nothing, aborts the process however it is read |
| Readings.ScanOfCut | chunkserver/spy_store.c:151-250 | on a log that breaks off inside a record the scan finds exactly the records before it |
| Readings.Reading.ParsingExact | chunkserver/spy_store.c:317-324 | for logs that end below 2^31, read through any buffer with reads that stop short anywhere: the parser notes the records of the scan and goes through exactly if every meta block is buffered whole and the scan stops at nothing, at less than a meta block that is buffered, or at a size an int can tell; it notes more exactly if the scan stops at a size that an int cannot; otherwise it aborts, having noted some of them |
| Readings.Reading.SettledClean | chunkserver/spy_store.c:162-183 | with full reads it goes through whenever the scan stops at the end or at a whole meta block that claims less than 2^31 bytes |
| Readings.Reading.WildReads | chunkserver/spy_store.c:207-213 | however it is read, it does not if the scan stops at a size of 2^31 or more beyond the buffer |
| Readings.MisreadSomehow | chunkserver/spy_store.c:207-213 | some way of cutting up the reads makes it note a record that is not there exactly if the scan stops at a size of 2^31 or more |
| Recovery.LoadExact | chunkserver/spy_store.c:285-335 | a chunk file whose log ends below 2^31 is loaded as superblock and scan say exactly if its parse is clean in that sense, or they say it cannot be |
| Images.LoadAllExact | chunkserver/spy_store.c:712-754 | a directory of such files is recovered as the plain scan would have it exactly if every parse is clean, or it would not have it; anything else that is recovered has more files in its index |
| Recovery.Parser.SkipBody | chunkserver/spy_store.c:207-243 | what is left of a body behind the buffer is kept in an int: if it turns negative nothing is skipped; otherwise the body is skipped exactly if the log is long enough, for logs that end below 2^31, and how much is then buffered behind it is a function of where reads stop short |
| Recovery.Parser.ParseHeader | chunkserver/spy_store.c:162-205 | a meta block is taken from the buffer unless the log ends or a read falls short |
| Recovery.Parser.FillHeader | chunkserver/spy_store.c:162-183 | a meta block is in the buffer unless the log ends or a read falls short, and how much is buffered is a function of where reads stop short |
| Recovery.Parser.Remaining | chunkserver/spy_store.c:169-170 | what the parser believes to be left of the log, as an int |
| Recovery.ParseLog | chunkserver/spy_store.c:317-332 | a log that ends below 2^31, damaged or not, is indexed as the scan finds it exactly if its parse is clean, or what the scan finds has a fid twice; it is with full reads if the scan stops at the end or at a whole meta block that claims less than 2^31 bytes; however reads are cut, what comes out is right if the scan does not stop at a size of 2^31 or more; a log behind the end of the file stops the process; a complete log that ends at 2^31 or beyond is never indexed so |
| Recovery.SetupChunk | chunkserver/spy_store.c:285-335 | any file whose log ends below 2^31 is installed as superblock and scan say exactly if its parse is clean, or they say it cannot be: with full reads a damaged log that stops at an ordinary meta block is installed without what lies behind; a sound file whose log ends at 2^31 or beyond is never installed so |
| Recovery.AddFoundExact | chunkserver/spy_store.c:46-66 | adding files to the index succeeds exactly if all fids are new and different, and then adds exactly those entries |
| Images.RecoverAll | chunkserver/spy_store.c:712-754 | recovering a directory file by file, damaged or not, however reads are cut: if all logs end below 2^31 the result is what the plain scan gives exactly if every parse is clean, or the plain scan gives nothing |
| ResourcePool.PoolSafe | imageserver/pools/resource_pool.go:94-186 | with one resize at a time nothing panics, tokens and clients that hold one are never more than the maximum, a put, a returned token and a growing resize find room, the channel closes only when nothing is held, and with no resize under way tokens and holders are as many as the capacity |
| ResourcePool.PoolConserves | imageserver/pools/resource_pool.go:94-186 | however resizes overlap, each resource made is in the channel, with one client, or closed, once; those open are as many as were made less those closed, and while the channel is open no more than capacity plus what is to be drained less what is to be added, which is what tokens and held tokens are; and exactly the steps named by Panics panic |
| ResourcePool.PoolReuses | imageserver/pools/resource_pool.go:94-141 | as long as nothing expires or is given up and the capacity stays, no resource is closed and no more are made than the capacity, over any run |
| ResourcePool.ClosesExactly | imageserver/pools/resource_pool.go:94-177 | a resource is closed exactly when it is taken and has expired, its client gives it up, or a resize drains it |
| ResourcePool.GetsExactly | imageserver/pools/resource_pool.go:94-124 | a client gets the resource in the slot if it has not expired, and otherwise a new one if one can be made |
| ResourcePool.Queues | imageserver/pools/resource_pool.go:94-177 | the channel is a queue: a resource put back comes out as it is, after those before it |
| ResourcePool.StepCounted | imageserver/pools/resource_pool.go:94-177 | every resource made is open or has been closed |
| ResourcePool.PanicsExactly | imageserver/pools/resource_pool.go:94-186 | a put panics exactly if the channel is closed or capacity and resizes leave it full, a returned token and a growing resize exactly if it is closed, and nothing else does, in particular no second close |
| ResourcePool.CloseLeaves | imageserver/pools/resource_pool.go:182-184 | when the channel is closed, tokens and holders are as many as other resizes have still to drain |
| ResourcePool.StepClosedOnce | imageserver/pools/resource_pool.go:149-186 | the channel is closed at most once, after the capacity was set to 0 |
| ResourcePool.OverlapPanics | imageserver/pools/resource_pool.go:149-186 | a shrink and a growth that overlap make a put meet a full channel |
| ResourcePool.CloseUnderHolder | imageserver/pools/resource_pool.go:149-186 | a shrink and a close that overlap make a put meet a closed channel |
| FidAlloc.UploadedTwice | chunkmaster/api/chunkserver.go:420-441 | a run from the initial database in which two uploads get the same fid |
| Routes.HostLosesPool | imageserver/router/router.go:781-841 | two refreshes, from an empty router, after which a host has no pool |
| Framing.Connection.ReceiveRequest | chunkserver/spy_server.c:868-975 | a request cut into any pieces is dispatched exactly once, with its opcode and body, when its last byte is in; it is given up, undispatched, only with a full buffer and no block left, and never if the free blocks have room for it |

## Left out

- Sockets, the event loop, daemonising, options, logging and statistics of the chunk server: plumbing around the handlers.
- Requests that only report or check (ping, disk check, I/O status, detail infos, dump of a chunk), and the server id test of reads and writes: easy cases with no effect on the store.
- Creation of chunks when space runs out and the deletion of files: the chunk server has neither beyond the first start, which is modelled as the initial state.
- Reads that fail while the recovery parser runs. It compares an unsigned count with 0, so it neither repeats an interrupted read nor notices an error: in a meta block the process aborts, in a body it takes the record as skipped and goes on with a negative count of buffered bytes, so that the next read is told to write in front of the buffer. The model's reads deliver bytes or meet the end of the file.
- A superblock read that is cut short: recovery is given files of at least 55 bytes and reads the superblock whole.
- Torn superblock writes: the source marks the missing double write itself.
- fsync: a completed write survives, since only crashes of the process are modelled.
- The chunk master's monitoring, its other requests and all HTTP and JSON handling: thin layers over a database.
- SQL: the table of fids is one cell that is read and updated.
- Image server uploads to several replicas, metadata rows and downloads: not part of this model.
- The compare-and-swap that lets one goroutine fetch a range while others wait for its fids: any number of fetches may overlap in the model, which is more general.
- Temporary files of the driver on disk and their removal: a file is its contents and a position.
- Retries of an upload that was stored and reported as failed: the listing is taken to hold each part once.
- FidAlloc.FidsUnique: fids are unbounded numbers, so it does not cover a counter that wraps at 2^64; and an update whose error is reported is stored by the time of the next request or never.
- Workers.OpenChunk.WriteSuperblock: models the write as all or nothing.
- WorkQueue.PoolSafe: starts when the pool has been created with ten threads; threads that leave while it is being created are covered, a creation that fails is not.
- Framing.Connection.ReceiveRequest: one request of a client that waits for the response; bytes sent after it before the response are not covered.
- Framing.Connection.WriteHandler: a write that is accepted moves at least one byte, and bodies have at most 2^32 - 11 bytes, as the largest request leaves for a file.
- ResourcePool.PoolSafe: assumes that every client puts back what it got exactly once, as the source asks of its callers.
- Adler.Adler32: a null buffer of length 1, which the source reads through, is not covered.
- Recovery.SetupChunk: states nothing for a damaged file whose log ends at 2^31 or beyond.
- Recovery.ParseLog: for logs that end at 2^31 or beyond it is stated only of complete logs, in files of less than 2^63 bytes.
- Images.RecoverAll: states nothing for directories with a file whose log ends at 2^31 or beyond.
- Driver.StreamRead: a downloader that gives up and closes the temporary files between two steps of one read is not covered.
