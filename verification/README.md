# Curvine's client data path, verified

Curvine keeps a file as a list of replicated blocks on workers, with a master that lists them. This
project models the code between an application and those blocks, in both directions, and proves that it
is invisible: an application that writes bytes and reads them back sees a plain byte sequence and a
cursor, whatever the block size, the number of parallel readers, the size of slices and chunks, the
schedule of the background tasks and the replicas that fail. Four smaller parts with laws of their own
are modelled beside it: the FUSE file handle, directory pages, the keys of the metadata store, and mount
points.

## What is proved

**Reading.** `BlockReaders` is one block's reader: the worker's cursor, the one-shot offset header of a
remote seek, and the replacement of a failed replica. `FsReaderBases` maps the file position to blocks
and caches block readers. `Slices`, `ParallelReads`, `Reassembly` and `FsReaderParallels` deal slices of
the file to several readers and put their chunks together again. `HalfSeeks` is about a seek that
fails after some of them have moved. `Prefetch` is the protocol between a
client and the task that reads ahead for it, as a state machine over all interleavings; `FsReaderBuffers`
runs that protocol on real readers. `FsReaders` is the reader an application holds. The result is
`FsReader.Session`: any sequence of seeks and reads, of all kinds, is answered as by a flat cursor.

**Writing.** `FsWriters` gathers bytes into chunks, `WriterTasks` and `FsWriterBuffers` queue them for a
background task, `FsWriterBases` splits them over blocks, `BlockWriters` writes each block to all its
replicas, and `Clusters` is the other side: the master's checks on every request, and the bytes the
workers hold. The results are `FlushBarrier`, over all interleavings, and `FsWriterBase.Write` and
`Complete`: no byte is lost, doubled or moved, and master and workers refuse in stated cases only.

**Both.** `RoundTrips.WriteAndReadBack` puts the two stacks together, over the whole life of a file: what is
read is everything that was written, and in a world without faults this fails if and only if some session
is refused.

Tasks are modelled as steps that can happen whenever the program gives up control: a method that waits
lets the task run for any number of steps, and a worker, a disk, a connection or a task can fail at any
step. What happens to a request of a block reader or writer is an input, so their contracts say exactly when
a call fails. Above them faults are counted by a ghost field of the reader (`FsReaderBase.faults`) or of the
cluster: a call fails only if a fault has been counted since the file was opened, or for a reason its contract
names. And a fault happens only where `reliable`, a constant of readers, writers, handles and cluster, is
false. So on the data path a run in which nothing happened to fail is known to succeed, not only one in a
world where nothing can.
Where a failure is reported as less than its cause, a ghost result carries the cause. Contracts of calls that fail
promise nothing about the state afterwards unless they say so.

## What the proofs found

Where a promise of the code does not hold for all inputs, a contract or lemma states when it does.

- With more than one reader, a slice boundary that lies in a block less than a chunk before the block's
  end makes a read return nothing in the middle of the file, and the next layer report an abnormal
  status. `StallFree` proves that this is the only cause and that every such boundary causes it.
- A reopened file that is completed without a write is refused by the master if its last block has bytes:
  the client reports no block, and the master does not count a last block that is being written
  (`NothingToAdd`).
- A file with bytes whose last block is full cannot be written to after it was reopened: the client asks
  for that block first, and the workers refuse a block that is not shorter than the block size
  (`FullBlock`). So the room of a block is always positive when it is used, and its conversion to an
  unsigned number never wraps.
- If the client's configured block size is not the file's, the first block boundary is the end: the master
  refuses to add a block behind one that has not its own length. A session is refused if and only if its
  bytes do not all go into the first block (`FsWriterBase.Write`, `WriteSession`, `MixedSizes`).
- A seek that fails at one of several readers leaves those before it moved. `HalfSeekGoesOn` states exactly
  when every run of reads from the old position still returns the file, `HalfSeekGoesWrong` and
  `HalfSeekHarmless` are a seek of either kind. A reader that has a task of its own is out of its protocol
  when its seek fails, and `FsReader` has dropped the bytes it held: in both cases the reader has lost its
  invariant, and nothing is promised about later reads.
- A read that fails after the worker, or the process itself on a local file, moved its cursor leaves a block
  reader out of step if the replacement fails too; a retry then returns the bytes of another position
  (`RetryForAnyBlock`, `RetryGoesWrong`).
- A block reader opens the first replica that is not excluded; if that fails, the call fails although
  other replicas are left.
- The two lookups of a block differ on negative positions.
- A request for a next block that is repeated after a lost answer gets the same block, except one without a
  previous block for a file that has two blocks or more: it allocates a block each time (`Cluster.AddTwice`).
- A client of a channel that reads on after the end marker waits for ever, and in no other case.
- The biased select of the writing task does not replace the loop that empties the queue.
- `flush` and `complete` of the buffered writer, and `seek` and `complete` of a read-ahead channel, report
  a closed channel and not the error the task ended with: the early return leaves the whole function, so
  the error monitor is never asked.
- A FUSE write that fails is reported to the kernel, but the handle's position has moved past it and later
  writes close the gap: the file is what was written if and only if no write was answered with a failure.
- A FUSE handle opened for reading and writing on an existing file, without truncation, can be read but not
  written: its writer would be made by creating the file, which is refused (`FuseFile.Write`).
- A write on a read-only handle, or a read on a write-only one, is refused, and the handle is of no use
  for its own direction afterwards.
- The scan for a prefix of only 0xff bytes, such as the signed key of -1, is empty.
- `get_mount` says it returns the most specific mount and returns the outermost one. The master refuses
  nested mount points, so for paths of the file system there is no difference; for paths of the mounted
  systems nesting is not refused. A path with the scheme `cv` is never found.

## Premises

Lengths and positions stay below 2^63; a file's recorded length is the sum of its blocks; block ids are
distinct; numbers of readers, queue sizes, chunk sizes and block sizes are positive. Replicas of a
committed block hold the same bytes. Names in paths have no query or fragment characters, and mounts are
stored as the mount command stores them: the text of a normalised path on either side.

## Model

| member | source | states |
|---|---|---|
| `Common.PartitionPoint` | curvine-client/src/file/fs_reader_parallel.rs:163-176 | the binary search of both lookups returns the number of ranges that end at or before the position |
| `FileBlocks.LinearLookup` | curvine-common/src/state/block_info.rs:117-130 | the linear lookup returns the one block that holds a position and the offset in it, or nothing outside the file |
| `FileBlocks.SearchFileBlocks.New` | curvine-common/src/state/block_info.rs:140-156 | the search ranges are exactly the blocks' ranges in the file |
| `FileBlocks.SearchFileBlocks.GetReadBlock` | curvine-common/src/state/block_info.rs:158-167 | the binary lookup meets the same specification from position 0 on; a negative position is answered with the first block and a negative offset |
| `FileBlocks.LookupUnique` | curvine-common/src/state/block_info.rs:117-167 | two lookups that meet the specification agree, empty blocks included |
| `FileBlocks.CompareLookups` | curvine-common/src/state/block_info.rs:115-167 | the two lookups agree if and only if the position is not negative or there are no blocks; a hit has its offset inside the block |
| `BlockReaders.RetryAfterFault` | curvine-client/src/block/block_reader_remote.rs:104-115 | a read that fails and is simply repeated is answered as by a plain cursor if and only if the block has the same bytes where the repeated read lands: at the client's position if the replica failed before it read, behind the bytes it read in vain, at the worker's old cursor if the request was lost, a chunk further if the reply was |
| `BlockReaders.RetryForAnyBlock` | curvine-client/src/block/block_reader_remote.rs:104-115 | repeating a failed read is right whatever the block holds if and only if the fault was harmless: the replica read nothing, or the request was lost while both positions agreed |
| `BlockReaders.SeekThenRetry` | curvine-client/src/block/block_reader_remote.rs:94-115 | a seek to the same position in between repairs every remote session; a local session skips that seek, also after a read that failed halfway, and is right only if the bytes happen to be the same |
| `BlockReaders.RetryGoesWrong` | curvine-client/src/block/block_reader.rs:209-244 | a block and a run of two reads, the reply to the first of which is lost, whose answers are not those of a cursor |
| `BlockReaders.HeaderInvisible` | curvine-client/src/block/block_reader_remote.rs:94-115 | over every run in which each failure is followed by a seek, the answers are those of a plain cursor: the one-shot offset header is invisible |
| `BlockReaders.SortLocs` | curvine-client/src/block/block_reader.rs:134-154 | the replicas in a shuffled order; on short circuit, and only then, the first local one in it changes places with the first of all |
| `BlockReaders.PickReplica` | curvine-client/src/block/block_reader.rs:156-207 | the first replica that is not excluded is opened, and the call fails if opening it fails: no other replica is tried; with all excluded there is none |
| `BlockReaders.BlockReader.Open` | curvine-client/src/block/block_reader.rs:105-132 | succeeds if and only if some replica is not excluded and the first such one opens; it is a local one if there are local ones and none is excluded; the reader stands in step at the offset asked for |
| `BlockReaders.BlockReader.Read` | curvine-client/src/block/block_reader.rs:209-244 | succeeds if and only if nothing is left, or the first request is answered, or another replica that is not excluded opens and answers; then it returns the bytes at the position, whoever served them. After a failure the position is kept, the replica is the one tried last, and the reader is in step if and only if the last fault was harmless to the session it hit |
| `BlockReaders.BlockReader.Run` | curvine-client/src/block/block_reader.rs:209-297 | over every sequence of reads and seeks in which each failing read finds another replica that serves, the answers are those of a cursor over the block: failing replicas cannot be noticed |
| `BlockReaders.BlockReader.Seek` | curvine-client/src/block/block_reader.rs:294-297 | fails if and only if a local file fails to seek, and then changes nothing; else the reader is in step at the new offset |
| `FsReaderBases.FsReaderBase.UpdateReader` | curvine-client/src/file/fs_reader_base.rs:148-158 | replacing the current block reader keeps the old one for reuse if blocks were left more often than the limit, and completes it otherwise; every failure is counted as a fault |
| `FsReaderBases.FsReaderBase.Seek` | curvine-client/src/file/fs_reader_base.rs:114-134 | inside the current block, and at its end, the reader is kept; beyond it is let go, which is counted up to 2^32 - 1, and kept for reuse exactly above the limit; the position asked for changes nothing; a failed seek leaves the position and a reader that can go on; inside the file only a counted fault fails |
| `FsReaderBases.FsReaderBase.FindReader` | curvine-client/src/file/fs_reader_base.rs:160-176 | a kept reader of the block is used again, and only without one a new one is opened |
| `FsReaderBases.FsReaderBase.GetReader` | curvine-client/src/file/fs_reader_base.rs:160-184 | the current reader belongs to the block of the position, stands at its offset and has bytes left; the lookup never misses, so only a counted fault fails |
| `FsReaderBases.FsReaderBase.Read` | curvine-client/src/file/fs_reader_base.rs:92-101 | the next bytes of the flat file, one chunk at most and never past a block, whatever the cache limit; only a counted fault fails |
| `FsReaderBases.FsReaderBase.Complete` | curvine-client/src/file/fs_reader_base.rs:136-146 | every block reader ever opened is completed, none twice, but for those let go earlier because completing them failed |
| `Slices.Split` | curvine-client/src/file/fs_reader_parallel.rs:93-124 | list k is exactly the slices k, k+n, k+2n, ... of the file, in order, each starting inside the file |
| `Slices.NthOfNumber` | curvine-client/src/file/fs_reader_buffer.rs:234-240 | slice number `no` is in list `no % parallel`, at place `no / parallel`: the reader `get_reader` computes |
| `Slices.CeilDiv` | curvine-client/src/file/fs_reader_parallel.rs:93-124 | rounding up counts exactly the slices that start inside the file |
| `Slices.ShareSorted` | curvine-client/src/file/fs_reader_parallel.rs:93-124 | the ends of a list increase, so the binary search over it is sound |
| `FsReaderParallels.EmptyFromHere` | curvine-client/src/file/fs_reader_parallel.rs:54-91 | after an empty list only empty ones follow |
| `FsReaderParallels.KeptShares` | curvine-client/src/file/fs_reader_parallel.rs:54-91 | dropping empty lists keeps every remaining list at its own number |
| `FsReaderParallels.CreateAll` | curvine-client/src/file/fs_reader_parallel.rs:54-91 | sizes that are not multiples of each other or of the alignment are refused, and only those; otherwise one reader per non-empty list, sharing no objects |
| `FsReaderParallels.FsReaderParallel.Read` | curvine-client/src/file/fs_reader_parallel.rs:130-157 | a read is one step of the value-level reader: a chunk of the current slice, or a switch to the next one first |
| `FsReaderParallels.FsReaderParallel.Seek` | curvine-client/src/file/fs_reader_parallel.rs:163-181 | a seek goes to the first slice that ends after the position; a failed one leaves the reader as it was |
| `Reassembly.OwnerOfSlice` | curvine-client/src/file/fs_reader_buffer.rs:234-240 | every position lies in one slice, dealt to the reader that is asked for it |
| `Reassembly.OwnerExists` | curvine-client/src/file/fs_reader_buffer.rs:234-240 | that reader exists for every position of the file, so `get_reader` never fails |
| `Reassembly.OwnerHasSlice` | curvine-client/src/file/fs_reader_parallel.rs:163-181 | its first slice after the position is the one that holds it |
| `Reassembly.OthersStartLater` | curvine-client/src/file/fs_reader_parallel.rs:163-181 | no other reader has a slice that holds the position |
| `Reassembly.OwnerDelivers` | curvine-client/src/file/fs_reader_buffer.rs:242-263 | a reader in charge whose next chunk reaches the position delivers the file's bytes from the position to the end of that chunk |
| `Reassembly.OwnerMovesOn` | curvine-client/src/file/fs_reader_parallel.rs:130-157 | after a chunk, even one that overran its slice, the reader in charge is in place for what comes next |
| `Reassembly.OtherStays` | curvine-client/src/file/fs_reader_parallel.rs:130-157 | a chunk of the reader in charge makes no difference to where another reader will be asked for its next chunk, so that reader is in place afterwards if and only if it was before |
| `Reassembly.StepInPlace` | curvine-client/src/file/fs_reader_buffer.rs:242-263 | all readers are in place after a chunk of the reader in charge if and only if they were before it, wherever they stand |
| `Reassembly.ReachCrosses` | curvine-client/src/file/fs_reader_buffer.rs:255-263 | however reading arrives at a slice boundary, it ends inside the chunk that starts there, and before its end if the boundary is not bad |
| `Reassembly.ReadAligned` | curvine-client/src/file/fs_reader_buffer.rs:242-263 | a read of the reassembly returns exactly the next bytes of the file and never meets the "Abnormal status" guard |
| `Reassembly.SeekAligned` | curvine-client/src/file/fs_reader_buffer.rs:265-272 | after a seek to any position every reader is in place |
| `HalfSeeks.InPlaceIsRight` | curvine-client/src/file/fs_reader_buffer.rs:242-263 | for readers in any state: every run of reads returns the file if and only if each reader that will be asked again has its next chunk in the right slice and for the position at which it will be asked |
| `HalfSeeks.OutOfPlaceStops` | curvine-client/src/file/fs_reader_buffer.rs:242-263 | readers that are not in place come to a read that fails, or returns nothing on a file without bad boundaries |
| `HalfSeeks.HalfSeekGoesOn` | curvine-client/src/file/fs_reader_buffer.rs:265-272 | when a seek of the reassembly fails at one reader, after those before it moved, every run of reads from the old position returns the file if and only if the places where the readers now read next allow it: the old position for the reader in charge, for any other the position at which reading arrives in its slice from where the reader before it now stands |
| `HalfSeeks.HalfSeekGoesWrong` | curvine-client/src/file/fs_reader_buffer.rs:265-272 | one block of four chunks, two readers, a seek to the third chunk that fails at the second reader: the next read meets the "Abnormal status" guard |
| `HalfSeeks.HalfSeekHarmless` | curvine-client/src/file/fs_reader_buffer.rs:265-272 | a seek a little back that fails at the second reader: reading goes on, although the first stands neither at the position nor at the start of its slice |
| `Reassembly.RunStrict` | curvine-client/src/file/fs_reader_buffer.rs:242-272 | over every run of seeks and reads all readers stay in place |
| `Reassembly.StallFree` | curvine-client/src/file/fs_reader_buffer.rs:255-263 | no run ever gets an empty chunk before the end of the file if and only if no slice boundary lies in a block less than a chunk before the block's end |
| `Reassembly.BadBoundaryStalls` | curvine-client/src/file/fs_reader_buffer.rs:255-263 | every bad boundary has a run that stalls: seek to just before it and read twice |
| `Reassembly.BadBoundaryExample` | curvine-client/src/file/fs_reader_buffer.rs:255-263 | two blocks of 5000 bytes with chunks and slices of 4096 and two readers have a bad boundary |
| `Reassembly.WholeChunksAreSafe` | curvine-client/src/file/fs_reader_buffer.rs:255-263 | with blocks of whole chunks no boundary is bad, for any number of readers |
| `Prefetch.TaskStep` | curvine-client/src/file/fs_reader_buffer.rs:281-343 | every step of the background task keeps the protocol invariant |
| `Prefetch.ClientStep` | curvine-client/src/file/fs_reader_buffer.rs:60-102 | every step of the client keeps it |
| `Prefetch.ReceiveStep` | curvine-client/src/file/fs_reader_buffer.rs:60-65 | a chunk received is the direct reader's next one and was read after the last seek |
| `Prefetch.PrefetchInvisible` | curvine-client/src/file/fs_reader_buffer.rs:31-102 | for every interleaving, with any failure of the task, the client receives exactly the chunks a reader without queue and task would have given it |
| `Prefetch.ControlNeverFull` | curvine-client/src/file/fs_reader_buffer.rs:67-102 | a client's send never blocks on the control queue |
| `Prefetch.ServedOrClosed` | curvine-client/src/file/fs_reader_buffer.rs:60-102 | a client sees a closed channel if and only if the task has ended, the client is in the middle of a call, and neither a queued chunk nor an answer is left for it |
| `Prefetch.NeverStuck` | curvine-client/src/file/fs_reader_buffer.rs:281-343 | in every reachable state in which a client waits for a chunk that exists or for an answer, a running task can step |
| `Prefetch.WaitEnds` | curvine-client/src/file/fs_reader_buffer.rs:281-343 | a client that waits for a chunk, or for the answer to a seek or a stop, waits through a bounded number of the task's steps under every schedule, and as long as it waits the task has a step to take |
| `Prefetch.StuckOnlyAtTheEnd` | curvine-client/src/file/fs_reader_buffer.rs:281-343 | after any run of the protocol nobody can take a step but to fail, while the client waits for a chunk, if and only if the last chunk it received since its last seek was the end marker |
| `Prefetch.GetsStuck` | curvine-client/src/file/fs_reader_buffer.rs:281-343 | a file of one byte and a run in which the client gets there: it reads the byte, the end marker, and once more |
| `FsReaderBuffers.BufferChannel.Step` | curvine-client/src/file/fs_reader_buffer.rs:281-343 | one step of the task on the real reader is that step of the protocol if the reader has not failed, and the task's failure if it has |
| `FsReaderBuffers.BufferChannel.Read` | curvine-client/src/file/fs_reader_buffer.rs:60-65 | a read through queue and task is a read of the reader itself; a chunk that is queued is handed out whatever has become of the task; it fails only if the queue is empty, the reader has failed and the task is gone |
| `FsReaderBuffers.BufferChannel.ReadQueued` | curvine-client/src/file/fs_reader_buffer.rs:60-65 | a client that reads on gets every chunk that was queued, in order and without an error, even if the task died after queueing them |
| `FsReaderBuffers.BufferChannel.Seek` | curvine-client/src/file/fs_reader_buffer.rs:67-86 | once a seek returns the channel continues as a reader just moved there, no older chunk left; it fails only if the reader has failed, and reports a closed channel, whatever the task ended with |
| `FsReaderBuffers.BufferChannel.Complete` | curvine-client/src/file/fs_reader_buffer.rs:88-102 | a completed channel has completed every block reader its reader opened, but for those let go earlier; it fails only if the reader has failed, and reports a closed channel |
| `FsReaderBuffers.ReaderAdapter.Read` | curvine-client/src/file/fs_reader_buffer.rs:113-118 | reading directly and through a channel are the same |
| `FsReaderBuffers.ReaderVec.Seek` | curvine-client/src/file/fs_reader_buffer.rs:265-272 | all readers are moved; if one fails those before it have moved and those behind have not, and all keep their invariants if and only if the one that failed is read directly; one with a task of its own has then left its protocol |
| `FsReaderBuffers.FsReaderBuffer.Open` | curvine-client/src/file/fs_reader_buffer.rs:147-208 | a buffered reader opens exactly if the sizes are multiples of each other, at position 0 of the file of the given blocks; its readers are used directly exactly if the chunk queue has length one |
| `FsReaderBuffers.FsReaderBuffer.Read` | curvine-client/src/file/fs_reader_buffer.rs:242-263 | the next bytes of the file; at least one if no boundary is bad; never an error if the reader in charge has a chunk queued, and otherwise only if some reader has failed |
| `FsReaderBuffers.FsReaderBuffer.Seek` | curvine-client/src/file/fs_reader_buffer.rs:265-272 | any position can be sought; after a failure at a reader that is read directly, every run of reads from the old position returns the file, and the buffer keeps its invariant, if and only if the condition of HalfSeekGoesOn held before the call; after a failure at a reader with a task of its own the invariant is lost |
| `FsReaderBuffers.FsReaderBuffer.Complete` | curvine-client/src/file/fs_reader_buffer.rs:274-279 | no block reader of any parallel reader is left open, but for those whose completion failed earlier |
| `FsReaders.FsReader.Open` | curvine-client/src/file/fs_reader.rs:36-63 | a new reader is at position 0 with nothing held |
| `FsReaders.FsReader.ReadChunk` | curvine-common/src/fs/reader.rs:50-71 | position plus held bytes stay the buffered reader's position; the bytes are the file's; an error that is not a lower layer's means an empty request, or a bad boundary |
| `FsReaders.FsReader.Read` | curvine-common/src/fs/reader.rs:73-83 | the buffer gets the next bytes of the file and nothing else changes in it; an empty buffer is an error while bytes remain |
| `FsReaders.FsReader.ReadSlice` | curvine-common/src/fs/reader.rs:86-98 | the same without a buffer |
| `FsReaders.FsReader.ReadFull` | curvine-common/src/fs/reader.rs:128-143 | the buffer is filled with all the file has, up to its length; the rest of it is untouched |
| `FsReaders.FsReader.Seek` | curvine-client/src/file/fs_reader.rs:94-111 | inside the held chunk, its end included, a seek never fails and touches nothing below; a negative one is refused; else only a counted fault fails, and the reader keeps its invariant at the old position if and only if it held nothing, the reader below that failed is read directly, and the condition of HalfSeekGoesOn held before the call |
| `FsReaders.FsReader.FuseRead` | curvine-common/src/fs/reader.rs:103-126 | the slices together are exactly the bytes asked for, none is empty |
| `FsReaders.FsReader.Perform` | curvine-common/src/fs/reader.rs:50-143 | each call is a step of a flat cursor over a byte sequence |
| `FsReaders.FsReader.Session` | curvine-common/src/fs/reader.rs:50-143 | every sequence of seeks and reads of all kinds, for every configuration and every interleaving of the tasks, is answered as by a flat cursor up to the first error; without a bad boundary an error means that some block reader has failed, or that the call is refused by itself (a negative seek, an empty buffer); so a run without faults and such calls is answered in full |
| `FsReaders.FsReader.Complete` | curvine-client/src/file/fs_reader.rs:113-115 | no block reader is left open, but for those whose completion failed earlier |
| `Clusters.ChoppedIsChop` | curvine-server/src/master/fs/master_filesystem.rs:461-485 | full blocks and a last one that is not too long are one layout only: the bytes cut at multiples of the block size |
| `Clusters.LastIsFull` | curvine-server/src/master/fs/master_filesystem.rs:461-485 | in a closed file the last block is full if and only if the length is a multiple of the block size |
| `Clusters.Cluster.Append` | curvine-server/src/master/meta/inode/inode_file.rs:193-212 | reopening hands out the last block and marks it as being written; a file being written is refused |
| `Clusters.Cluster.AddBlock` | curvine-server/src/master/meta/fs_dir.rs:448-491 | the previous block is committed if it is the last one, being written and full, and an empty block with the next id follows; a request that names the last block, or none for an empty file, always gets a new block; lengths recorded are lengths stored |
| `Clusters.Cluster.AddTwice` | curvine-server/src/master/meta/fs_dir.rs:448-491 | a request sent twice, as after a lost answer, gets the same block both times and adds only one, and the second time only a fault fails; the one exception is a request without a previous block for a file that has two blocks or more, which adds a block each time |
| `Clusters.Cluster.CompleteFile` | curvine-server/src/master/fs/master_filesystem.rs:402-459 | a file is closed exactly if the reported length is that of the committed blocks plus the reported one |
| `Clusters.Cluster.GetBlockLocations` | curvine-server/src/master/fs/master_filesystem.rs:461-506 | the blocks with what the workers hold; refused only if a block before the last has another length than the block size |
| `BlockWriters.BlockWriter.Open` | curvine-server/src/worker/storage/vfs_dir.rs:262-272 | fails if and only if there is no worker, a worker fails, or the workers refuse: a block with bytes that is not shorter than the client's block size, or a new one they know; otherwise every replica starts with the block's bytes |
| `BlockWriters.BlockWriter.Write` | curvine-client/src/block/block_writer.rs:127-146 | fails if and only if some replica misses the chunk; otherwise every replica has the old bytes and the chunk, and the positions count them |
| `BlockWriters.BlockWriter.Complete` | curvine-client/src/block/block_writer.rs:182-199 | fails if and only if some replica fails; otherwise the length reported is what every replica holds, and is reported once |
| `FsWriterBases.AsUsize` | curvine-client/src/file/fs_writer_base.rs:83 | the conversion keeps a room that is not negative and makes a negative one larger than any chunk |
| `FsWriterBases.FsWriterBase.GetWriter` | curvine-client/src/file/fs_writer_base.rs:143-171 | a used-up block is finished and reported before the next is taken; the writer always has room, so its conversion is the room; refused if and only if the block to reopen is refused by the workers or the master wants another length than the block has |
| `FsWriterBases.FsWriterBase.WriteRound` | curvine-client/src/file/fs_writer_base.rs:80-92 | one round puts exactly what fits into the current block, or a new one, behind the rest, and never nothing |
| `FsWriterBases.FsWriterBase.Write` | curvine-client/src/file/fs_writer_base.rs:75-96 | the blocks together are the old bytes and all bytes written; it is refused if and only if there are bytes and the block to reopen is refused, or client and file disagree about the block size and the bytes go beyond the room of the current block; apart from that only a counted fault fails |
| `FsWriterBases.FsWriterBase.Complete` | curvine-client/src/file/fs_writer_base.rs:128-141 | the closed file holds the old bytes and all bytes written, in full blocks but the last, with that length recorded; the master refuses exactly if a non-empty last block was reopened and nothing was written |
| `FsWriterBases.FsWriterBase.LengthsAddUp` | curvine-server/src/master/meta/inode/inode_file.rs:148-158 | the client's length is the master's sum if and only if no reopened block with bytes is still open |
| `WriterTasks.StepKeeps` | curvine-client/src/file/fs_writer_buffer.rs:166-208 | every step of client and task keeps accepted = handed over + queued, and an answer means an empty queue |
| `WriterTasks.FlushBarrier` | curvine-client/src/file/fs_writer_buffer.rs:105-208 | over every interleaving, biased select or not: the chunks handed over are the first ones sent, each once and in order, and all of them when a flush or complete is answered |
| `WriterTasks.BiasNeedsDrain` | curvine-client/src/file/fs_writer_buffer.rs:174-200 | the preference for chunks alone would not do: a run in which an order is taken while a chunk is queued |
| `WriterTasks.QueuesBounded` | curvine-client/src/file/fs_writer_buffer.rs:105-208 | over every interleaving the queue of chunks stays within its capacity, and there is never more than one order to take |
| `WriterTasks.ServedOrClosed` | curvine-client/src/file/fs_writer_buffer.rs:105-164 | a client gives up if and only if the task has ended, the client is in the middle of a call, and no answer is left for it |
| `WriterTasks.WaitIsBounded` | curvine-client/src/file/fs_writer_buffer.rs:166-208 | a blocked client is let go on after a bounded number of task steps under every schedule, and until then the task has a step to take |
| `FsWriterBuffers.FsWriterBuffer.HandOverOne` | curvine-client/src/file/fs_writer_buffer.rs:185-206 | a chunk taken from the queue is written behind all earlier ones, or the task ends with the error and its cause: a fault, or that the bytes of the session overrun as stated for the block writer |
| `FsWriterBuffers.FsWriterBuffer.Answer` | curvine-client/src/file/fs_writer_buffer.rs:184-202 | an answered complete leaves the file closed with every accepted byte; a task that ends instead keeps the error |
| `FsWriterBuffers.FsWriterBuffer.Write` | curvine-client/src/file/fs_writer_buffer.rs:105-118 | an accepted chunk is the last of the accepted ones; a failure has the task's own error, a fault or an overrun, as its cause, and is reported as that or as a closed channel if the error is not recorded yet |
| `FsWriterBuffers.FsWriterBuffer.Request` | curvine-client/src/file/fs_writer_buffer.rs:120-164 | when the answer is taken everything accepted has been handed over; a failure is reported as a closed channel, and the error the task ended with is a fault, an overrun, or that of completing a reopened block with bytes without a write |
| `FsWriterBuffers.FsWriterBuffer.Flush` | curvine-client/src/file/fs_writer_buffer.rs:152-164 | the block writer has all accepted bytes; on failure the task's error is a fault or an overrun |
| `FsWriterBuffers.FsWriterBuffer.Complete` | curvine-client/src/file/fs_writer_buffer.rs:120-134 | the file is closed and holds what it held and all accepted bytes, which did not overrun; on failure the task's error is a fault, an overrun, or a refusal because nothing was added to a reopened block with bytes |
| `FsWriters.FsWriter.Open` | curvine-client/src/file/fs_writer.rs:35-72 | a new writer has written nothing and stands at the file's length |
| `FsWriters.FsWriter.FlushChunk` | curvine-common/src/fs/writer.rs:36-45 | gathered bytes move to the queue, none lost |
| `FsWriters.GatheredIsAll` | curvine-common/src/fs/writer.rs:51-74 | gathered bytes are queued in chunks of exactly the chunk size, in order and without loss, and the last one, full or not, is held |
| `FsWriters.FsWriter.Write` | curvine-common/src/fs/writer.rs:51-74 | the bytes join those gathered: exactly the full chunks are queued, the last one is held |
| `FsWriters.FsWriter.FuseWrite` | curvine-common/src/fs/writer.rs:89-97 | what was gathered is queued first, then the chunk as it is; a failed call leaves the position |
| `FsWriters.FsWriter.Flush` | curvine-client/src/file/fs_writer.rs:106-109 | everything written is with the block writer; a failure is a fault or an overrun |
| `FsWriters.FsWriter.Complete` | curvine-client/src/file/fs_writer.rs:113-117 | the file holds what it held and everything written; a failure is a fault, an overrun, or that nothing was written to a reopened block with bytes |
| `FsWriters.WriteSession` | curvine-common/src/fs/writer.rs:36-97 | for every sequence of buffered writes, direct writes and flushes, the completed file is the old bytes and all data, in order; refused if and only if the data overruns (the block to reopen is refused, or block sizes differ and the data does not all go into the first block) or there is none for a reopened block with bytes; apart from that only a fault fails |
| `RoundTrips.SettledLayout` | curvine-server/src/master/fs/master_filesystem.rs:461-485 | a closed file is its bytes cut at multiples of the block size, with distinct block ids |
| `RoundTrips.SettledIsSafe` | curvine-client/src/file/fs_reader_buffer.rs:255-263 | with one reader, or if the block size is a whole number of read chunks, a closed file has no bad boundary |
| `RoundTrips.OpenFile` | curvine-client/src/file/fs_reader.rs:36-63 | a closed file opens as the flat file of its bytes |
| `RoundTrips.RefusedByLast` | curvine-server/src/worker/storage/vfs_dir.rs:262-272 | a session cannot add to a closed file with bytes if and only if it brings no data or the file's length is a multiple of the block size |
| `RoundTrips.AppendSession` | curvine-common/src/fs/writer.rs:36-97 | reopen, any writes, complete: the old bytes and the new ones, in the same layout; never if the file has bytes and either nothing is added or its last block is full; in every other case only a fault fails |
| `RoundTrips.CreateSession` | curvine-common/src/fs/writer.rs:36-97 | the same for a new file, where only a fault fails |
| `RoundTrips.AppendSessions` | curvine-common/src/fs/writer.rs:36-97 | any number of appending sessions; they succeed only if none is refused and no request failed, and fail only at a refused one or by a counted fault |
| `RoundTrips.ReadAll` | curvine-common/src/fs/reader.rs:128-143 | the whole closed file is read, for every reader configuration; with one reader or blocks of whole chunks only a fault fails |
| `RoundTrips.WriteAndReadBack` | curvine-common/src/fs/writer.rs:36-97 | one creating session and any number of appending ones, each with any writes and flushes; then a read through any reader configuration: the result is everything written, in order; it fails if a session is refused, and with one reader or blocks of whole chunks only then or by a fault, so in a world without faults if and only if |
| `RoundTrips.NothingToAdd` | curvine-server/src/master/meta/inode/inode_file.rs:148-158 | the first refusal happens: a file of one byte, reopened and completed without a write |
| `RoundTrips.FullBlock` | curvine-server/src/worker/storage/vfs_dir.rs:262-272 | the second: a file that fills its only block, reopened to write one more byte |
| `RoundTrips.MixedSizes` | curvine-server/src/master/meta/fs_dir.rs:448-491 | the third: five bytes to a file with blocks of eight, from a client that believes in four |
| `RocksKeys.CalculateEndBytes` | curvine-common/src/rocksdb/rocks_utils.rs:147-168 | the range holds exactly the keys with the prefix if and only if not all bytes of the prefix are 0xff; else it is empty |
| `RocksKeys.RangeIsPrefix` | curvine-common/src/rocksdb/rocks_utils.rs:147-168 | between a prefix and its raised cut lie exactly the keys with the prefix |
| `RocksKeys.UnsignedRoundTrip` | curvine-common/src/rocksdb/rocks_utils.rs:45-57 | an unsigned number is read back from a key that starts with it, whatever follows, and every part of it that is too short is refused |
| `RocksKeys.SignedRoundTrip` | curvine-common/src/rocksdb/rocks_utils.rs:24-43 | the same for signed numbers |
| `RocksKeys.KeyRoundTrip` | curvine-common/src/rocksdb/rocks_utils.rs:24-71 | reading a key and writing it again gives the same bytes, as an unsigned and as a signed number |
| `RocksKeys.UnsignedOrder` | curvine-common/src/rocksdb/rocks_utils.rs:45-57 | unsigned keys sort as their numbers |
| `RocksKeys.SignedOrder` | curvine-common/src/rocksdb/rocks_utils.rs:24-43 | signed keys sort as their numbers within one sign, negative ones last |
| `RocksKeys.CompositeKeys` | curvine-common/src/rocksdb/rocks_utils.rs:87-127 | composite keys with a signed first part give both parts back, are grouped by the first and sorted by the second |
| `RocksKeys.CompositeKeysUnsigned` | curvine-common/src/rocksdb/rocks_utils.rs:104-143 | the same with an unsigned first part, whose groups are in numeric order |
| `RocksKeys.PrefixIsFirst` | curvine-common/src/rocksdb/rocks_utils.rs:87-127 | the keys with a number's prefix are those whose first part is the number |
| `RocksKeys.PrefixScan` | curvine-common/src/rocksdb/db_engine.rs:169-185 | a scan returns exactly the keys with the prefix, or nothing if all its bytes are 0xff |
| `RocksKeys.ScanBySigned` | curvine-common/src/rocksdb/db_engine.rs:169-185 | so a scan by a signed first part returns exactly its entries, unless it is -1 |
| `RocksKeys.ScanByUnsigned` | curvine-common/src/rocksdb/db_engine.rs:169-185 | and by an unsigned one, unless it is the largest |
| `FuseFiles.TiledIsPartition` | curvine-fuse/src/fs/fuse_file.rs:166-187 | accepted writes cover each position below the writer's position once and no other |
| `FuseFiles.PieceAt` | curvine-fuse/src/fs/fuse_file.rs:166-187 | the byte at a position is that of the one write that covers it |
| `FuseFiles.TakenIsAll` | curvine-fuse/src/fs/fuse_writer.rs:133-152 | the file has exactly the bytes of the accepted writes if and only if every write was answered with success; otherwise it is shorter |
| `FuseFiles.FailedWriteShifts` | curvine-fuse/src/fs/fuse_writer.rs:133-152 | two writes of one byte, the first of which fails: the second byte takes the place of the first |
| `FuseFiles.FuseWriter.Serve` | curvine-fuse/src/fs/fuse_writer.rs:133-167 | the task serves the oldest message: a write puts its bytes behind what the file has, or a part of them, and the answer is success exactly if it was all |
| `FuseFiles.FuseWriter.Write` | curvine-fuse/src/fs/fuse_writer.rs:93-103 | an accepted write joins a queue that never exceeds its length, behind the others, and moves the position by its own; it is refused only if the task is gone |
| `FuseFiles.FuseWriter.Request` | curvine-fuse/src/fs/fuse_writer.rs:105-131 | the flush or complete is served last: every write accepted before was answered, and the file has all that was written if and only if no answer was a failure; it fails only if the task is gone |
| `FuseFiles.FuseReader.Serve` | curvine-fuse/src/fs/fuse_reader.rs:91-109 | the task answers the oldest read, with the bytes of the file there or an error |
| `FuseFiles.FuseReader.Send` | curvine-fuse/src/fs/fuse_reader.rs:68-75 | a read joins those to be answered, in order; without faults it is accepted |
| `FuseFiles.FuseReader.Complete` | curvine-fuse/src/fs/fuse_reader.rs:77-89 | every read asked before has been answered, and the completion was served after them |
| `FuseFiles.FuseFile.Open` | curvine-fuse/src/fs/fuse_file.rs:44-124 | a handle opens with a reader in the reading phase, with a writer on an empty file in the writing phase, or with neither and no phase yet, never with both; refused if and only if there is no file to read, or one in the way of a new one that may not be truncated |
| `FuseFiles.FuseFile.Write` | curvine-fuse/src/fs/fuse_file.rs:126-191 | a write goes through exactly at the writer's position; covered bytes count as done, others are refused; never on a handle turned to reading; a write on a read-only handle ends its reading; without faults it fails if and only if the writer is still to be made and there is a file that may not be truncated |
| `FuseFiles.FuseFile.Read` | curvine-fuse/src/fs/fuse_file.rs:193-231 | a read joins those answered in order from the file; after writing, the writer is completed first, and the file is what was written if and only if no write was answered with a failure; never on a handle turned to writing; a read on a write-only handle ends its writing; without faults it fails only if there is no file |
| `FuseFiles.WriteThenRead` | curvine-fuse/src/fs/fuse_file.rs:44-231 | where nothing fails, a handle opened for reading and writing on a new or truncated file takes any sequence of writes, and a read of any window then returns that window of all that was written |
| `FuseFiles.FuseFile.TurnToWriting` | curvine-fuse/src/fs/fuse_file.rs:129-149 | the reader has answered everything and was completed before the handle writes; the phase moves exactly one way |
| `FuseFiles.FuseFile.TurnToReading` | curvine-fuse/src/fs/fuse_file.rs:196-214 | the writer was flushed and completed, and the file is then what it left: all that was written if and only if no write was answered with a failure, else fewer bytes |
| `FuseFiles.FuseFile.Flush` | curvine-fuse/src/fs/fuse_file.rs:233-238 | every accepted write has been answered, with the same if and only if |
| `FuseFiles.FuseFile.Complete` | curvine-fuse/src/fs/fuse_file.rs:240-249 | reader and writer are gone, each completed last, the phase stays, the file is what the writer left |
| `FuseFiles.FuseFile.Session` | curvine-fuse/src/fs/fuse_file.rs:44-249 | over every sequence of calls the successful transfers change direction at most once |
| `Dirents.FuseDirentList.AddBuf` | curvine-fuse/src/raw/fuse_dirent_list.rs:71-88 | header and name are appended, followed by as many zeros as lead to the next multiple of 8, or nothing is, exactly if they do not fit |
| `Dirents.LittleByte` | curvine-fuse/src/raw/fuse_dirent_list.rs:41-69 | byte i of a number is the number divided by 256 to the i, modulo 256: the least significant byte comes first |
| `Dirents.RecordExample` | curvine-fuse/src/raw/fuse_dirent_list.rs:41-88 | the bytes of one record written out: inode, offset, name length and type, least significant byte first, the name, and zeros up to a multiple of 8 |
| `Dirents.RecordsAligned` | curvine-fuse/src/raw/fuse_dirent_list.rs:71-88 | the records of a page up to any entry have a multiple of 8 bytes, so every record starts at one |
| `Dirents.ReadDir` | curvine-fuse/src/fs/curvine_file_system.rs:248-264 | a page is the longest run of whole entries from the offset that fits the size |
| `Dirents.DecodeRecord` | curvine-fuse/src/raw/fuse_dirent_list.rs:41-69 | an entry is read back by its name length, whatever follows |
| `Dirents.DecodeRecords` | curvine-fuse/src/raw/fuse_dirent_list.rs:41-88 | a page decodes to exactly its entries, each with the offset behind it |
| `Dirents.ListAll` | curvine-fuse/src/fs/curvine_file_system.rs:248-264 | following the offsets gives every entry once, in order; no page is longer than asked; the listing stops early only at a page without room for one entry |
| `Paths.NormalizeIs` | curvine-common/src/fs/path.rs:147-155 | a normalised path is its names, each behind one slash |
| `Paths.NormalizeTwice` | curvine-common/src/fs/path.rs:147-155 | normalising is idempotent |
| `Paths.ParseFullPath` | curvine-common/src/fs/path.rs:39-55 | a path is read back from its own text |
| `Paths.ParseParted` | curvine-common/src/fs/path.rs:39-55 | a text that is parsed is an absolute path, or starts with a scheme and an authority, neither of them empty |
| `Paths.HasPrefix` | curvine-common/src/fs/path.rs:201-216 | the component comparison is: the names of the prefix are the first names of the path |
| `Paths.GetPossibleMounts` | curvine-common/src/fs/path.rs:168-190 | the root, then each longer front of the path up to itself |
| `Mounts.AncestorIffBelow` | curvine-common/src/fs/path.rs:168-216 | a place is listed for a path exactly if the path lies at or below it by component |
| `Mounts.ToggleTwice` | curvine-common/src/state/mount.rs:120-144 | translating there and back gives the path if and only if it lies below the mount by component on its own side |
| `Mounts.ToggleCv` | curvine-common/src/state/mount.rs:120-127 | a translated path is the other side of the mount and the names that are left |
| `Mounts.ToggleUfs` | curvine-common/src/state/mount.rs:129-136 | the same in the other direction |
| `Mounts.MountTable.AddMount` | curvine-server/src/master/mount/mount_table.rs:120-143 | a mount is refused exactly if its source is mounted or its mount point contains or is contained in another |
| `Mounts.OnlyOneMount` | curvine-server/src/master/mount/mount_table.rs:71-92 | so at most one mount contains a path |
| `Mounts.MountCache.Insert` | curvine-client/src/unified/mount_cache.rs:124-130 | a mount is taken in if and only if the mounted system can be used; the two maps stay inverses if and only if the mount clashes with no other on one side only |
| `Mounts.MountCache.Remove` | curvine-client/src/unified/mount_cache.rs:137-145 | exactly the mount at the path goes, from both maps |
| `Mounts.MountCache.Refresh` | curvine-client/src/unified/mount_cache.rs:183-199 | succeeds if and only if every mounted system can be used, and then the index is the table; otherwise it is the entries before the first that cannot, and still two inverse maps |
| `Mounts.MountCache.GetMount` | curvine-client/src/unified/mount_cache.rs:203-222 | the mount returned contains the path and no mount that does is further up; none is returned exactly if none contains it |
| `Mounts.Resolve` | curvine-client/src/unified/mount_cache.rs:183-222 | if every mounted system can be used, a refreshed client finds, for a path without a scheme, the one mount that contains it; otherwise the refresh fails |

## Left out

- The state after a failed replica write: copies may differ, and no contract speaks of it.
- Cancelling a writer: the flag is ignored by the task and the top level does nothing.
- `FsWriterBase::flush`: the flush of the workers' files is only a step that can fail.
- The blocking variants of block reads and writes, which do the same as the others on another thread.
- The set of failed workers, its expiry, and the choice of workers by the master: any worker list can be returned.
- Timeouts, retries, leases, connections, checksums, read-ahead hints and the operating system's cache.
- RPC headers with sequence numbers and request ids: a message is delivered or the call fails.
- The master's journal, replication and namespace beyond one file; the mount table's ids and properties.
- Reading a file that is being written.
- Clocks: a refresh of the mount index happens when it is called.
- Parsing of URIs beyond scheme, authority and path, and the characters allowed in them.
- FUSE: permission checks, attributes, the reply channel, and overflow of an offset plus a length.
- The object store, S3 gateway, CSI driver, command line, web interface and language bindings.
- Raft, whose core is an external library.
- BlockReaders.SortLocs: the shuffle is any permutation; nothing is said about its distribution.
- FsReaderBuffers.BufferChannel.Read: the error a task ended with is kept by its own channel; in the code all channels of a file share one place for it, so another reader's error can be reported.
- FuseFiles.FuseWriter.Write: which error is reported for a task that is gone (its own or a closed channel) is not modelled; the same holds for reads.
- FuseFiles.FuseFile.Read: the file belongs to this handle alone; what other handles do to it is not modelled.
- FsReaderBuffers.FsReaderBuffer.Seek: after a seek that failed at a reader with a task of its own, the chunks left in that task's queue can still be received; no contract speaks of them.
- Mounts.MountTable.AddMount: does not model mount ids, which are chosen at random and only have to be unused.
- RocksKeys.PrefixScan: the store is a set of keys; the prefix option of the iterator is not modelled, because the bounds alone decide the result.
