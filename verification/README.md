# SafeFS in Dafny

A verified model of SafeFS's storage stack: block virtualisation (`block_align`) over the encoding layer (`sfuse`)
over the multi-device layer (`multi_loop`), and of the thread-pool protocol and the erasure index below it.

The stack is built from classes that keep the state the C layers keep, one on top of the other:

| file | layer |
|---|---|
| `Bytes.dfy`, `Device.dfy` | POSIX byte files, and one device's calls |
| `FanOut.dfy`, `Schedules.dfy` | the fan-out protocol as a state machine over its steps; every schedule against the ordered loop |
| `Xor.dfy`, `Loopback.dfy` | XOR sharing in place, replication, `loopback_read/write/ftruncate` |
| `Cbc.dfy`, `Driver.dfy` | ciphers, the four encoding drivers and their address arithmetic |
| `Layout.dfy`, `Storage.dfy` | the physical layout of an encoded file, and what requests do to it |
| `DeviceFile.dfy` | one file on the multi-device layer, in replication, XOR or erasure mode |
| `Sfuse.dfy` | `sfuse_read/write/fgetattr/ftruncate`, over any of these |
| `NextLayer.dfy` | what block alignment calls: the encoding layer, or the multi-device layer itself |
| `CInt.dfy`, `BlockAlign.dfy` | C integer conversions, `process_*_block`, `split_into_blocks`, `block_align_*` |
| `FlatFile.dfy` | one flat byte file: what runs of calls answer and leave, byte by byte |
| `Stack.dfy` | whole runs of the stack against it |
| `Ivdb.dfy`, `ErasureIndex.dfy`, `Erasure.dfy` | the hash table, the extent index as a function of its calls, the driver on its tables |
| `ErasureStore.dfy`, `ErasureLoopback.dfy` | index and fragment files together, runs over all files, devices that fail, `loopback_*` in erasure mode |
| `ErasureSchedules.dfy` | erasure mode under every schedule, with devices that fail |

Two ideas carry the proofs. The encoding layer relies, without checking, on a *request discipline*
(`Storage.Disciplined`): a request starts at a block boundary inside the file or at its end, reaches no further than
one block, and covers all live bytes of that block. It is the precondition of `NextLayer.Read` and `NextLayer.Write`
(but for holes, and for reads of parts of blocks that no cipher covers, as described below), so verifying `BlockAlign`
proves that every request it issues is disciplined; and the encoding layer passes it on to the erasure index
(`Storage.LowerDisciplined`). The layout (`Layout.Stores`) says
that block `k` is stored, as one whole encoding, at the start of slot `k`, with nothing behind the last block; in
between an `ftruncate` into a block and the rewrite that repairs it, it says exactly what is torn
(`Layout.StoresTorn`).

The main result is `Stack.RunOnNewFile`: for every number of devices, replication or XOR, each of the four drivers
(with an arbitrary cipher that round-trips, and arbitrary vectors, pads and random shares), every block size and
every run of writes, reads, truncates and size queries at offsets up to the current size, the answers are those of
one flat byte file, and the devices store that file. What that file answers is said byte by byte over whole runs:
`FlatFiles.RunAnswers`, `FlatFiles.RunContents`, and, of any read, `FlatFiles.ReadsLatest`. Without a cipher or padding
the runs may also write whole blocks behind the end (`Stack.DriversServe`). `Stack.RunOnErasureCode` and
`Stack.RunEncodedOnErasureCode` are its counterparts in erasure mode, with block alignment directly over the
erasure-coded devices, or with an encoding driver in between: every run of writes and of reads inside the file, next to
any other files, with any code that round-trips and has one fragment for each device.

Ciphers are parameters with a validity predicate; `Cbc.CbcIsValid` discharges it for cipher block chaining with
PKCS #7 padding over any block permutation (section 6.2 of NIST SP 800-38A, section 6.3 of RFC 5652), and
`Cbc.SomeCipherIsValid` gives a permutation. The erasure code is a parameter of which only the round trip is asked;
`ErasureStore.SomeCodeIsValid` gives an instance.

What turned out not to hold of the code, with the exact condition under which it does:

- The number of bytes to read for a partial request is computed in 64 bits and converted to `int`
  (align/blockalign.c:71-75). With 2^31 bytes behind the start of the block the buffer gets a negative size
  (`CInt.LargeRestBreaks`), and other distances read less than the live bytes; this concerns partial reads, and with
  them shrinking truncates to an unaligned size. `CInt.ReadsEnoughExactly` says when the read is disciplined, which a
  cipher and an erasure code need. Without a cipher a read may also stop inside the live bytes
  (`Storage.ReadDecodesPart`), and the slice is right exactly if the request is covered (`CInt.SliceExactly`).
  `Stack.Allowed` asks for the one or the other, and files below 2^31 bytes always meet both
  (`Stack.SmallFilesAreInRange`, `Stack.SmallRunsAreAllowed`); larger ones may (`CInt.LargerRestWorks`).
- The guard at align/blockalign.c:96 is documented as a test for reads that end before the requested bytes, but the
  expression is unsigned and never negative. A failed or shorter lower read is reported as `size` bytes
  (`CInt.ReadResultExactly`); so is a read behind the end of file inside its last block
  (`BlockAlign.ProcessReadBlock`). For offsets up to the size over reliable devices the guard is not needed.
- Deterministic storage is canonical exactly when the block size is a multiple of 16 (`Storage.CanonicalExactly`);
  otherwise a truncate to the size a file already has changes its backing bytes (`Storage.TruncateToSameSize`).
  Everything else holds for every block size in replication and XOR mode.
- A write behind the end of file fails exactly when its first block is partial and starts at or behind the end; in
  the last block it succeeds and leaves a gap of unspecified bytes; a whole block behind the end is accepted and
  leaves a hole. What is left is a stored file exactly when the driver takes the last, partial block and its encoding,
  both extended with zeros, for a block and its encoding, and, if the hole has a whole block, zeros for encoded zeros
  (`Storage.HoleExactly`). Without padding or cipher that is always so (`Storage.PlainHoleFits`); with padding, exactly
  when the pad bytes that the extended block covers happen to be zeros (`Storage.PaddedHoleExactly`,
  `Storage.PaddedHoleBreaks`).
- A cipher over an erasure code needs a block size that is a multiple of 16. Otherwise the write of the second block
  of any new file looks up an index entry that the first did not leave (`Stack.SecondBlockExactly`), and the entry is
  followed without a check (multi_loop_drivers/erasure.c:195-202).
- In erasure mode the workers make up their results (multi_loopback.c:29-36, 44-48). A write returns its size under
  every schedule, whatever the devices do (`ErasureSchedules.AnyScheduleWritesFragments`), and the index records it:
  index and
  fragments agree after it exactly when each device that failed happens to have had the fragment it did not write
  (`ErasureStore.FailedWriteExactly`). With one failing device a read can return the old bytes
  (`ErasureStore.FailedWriteUnseen`). A read returns -1 as soon as one device fails, so the code's redundancy is never
  used, or when one returns bytes and another none; that a fragment is short is not seen
  (`ErasureSchedules.AnyScheduleReadsFragments`, `ErasureSchedules.ShortFragmentUnseen`).
- The erasure code is set up with 2 data and 1 parity fragments, whatever the number of devices
  (multi_loopback.c:1456). Every device's buffer is filled exactly when there are as many devices as fragments
  (`ErasureDriver.FillBuffers`); with more, the others send buffers that nothing was copied to, and with fewer the copy
  loops write past the array of buffers.
- `move_key` inserts before it removes (map/map.c:68-81). Renaming a written erasure-coded file to itself drops it
  from the index, and renaming an unwritten file over a written one leaves the old index entry in place:
  `ErasureStore.RenameExactly`, and `ErasureStore.RenameFailures` for runs that get there.

## Model

| member | source | states |
|---|---|---|
| Stack.RunOnNewFile | align/blockalign.c:226-471 | for every run of allowed requests on a new file, the whole stack returns the counts, bytes and sizes of one flat byte sequence, and its devices end up storing that sequence |
| Stack.Execute | alignfuse.c:26-98 | any run on an open file in any state: answers and contents are those of the flat file, and the layers' invariants hold after it |
| Stack.TwoHistories | crypto/det_symmetric.c:28-42 | without randomness and with filled slots, two runs that end in the same contents leave byte-identical devices |
| Stack.RunOnErasureCode | multi_loopback.c:877-1031 | block alignment over erasure-coded devices: for every run of writes and of reads inside the file, on a new file among others, the answers are the flat file's, and index and fragments end up holding that file and all others unchanged |
| Stack.RunEncodedOnErasureCode | SFSFuse.c:14-45 | the same with an encoding driver in between whose full blocks fill their slots: the answers are the flat file's, and what index and fragments hold stores it |
| Stack.SecondBlockExactly | multi_loop_drivers/erasure.c:195-202 | over an erasure code the second block of a new file can be written exactly when the first one's encoding fills its slot |
| Stack.RunOnNewDevices | multi_loopback.c:856-1032 | the multi-device layer alone is one flat file for every run at all, with overlapping writes, writes behind the end and any truncates, for every random choice |
| Stack.SmallFilesAreInRange | align/blockalign.c:64-75 | a file below 2^31 bytes never meets the limits on partial reads |
| Stack.SmallRunsAreAllowed | align/blockalign.c:306-471 | below 2^31 bytes every run of requests inside the file or at its end is allowed, but for what erasure mode does not serve |
| FlatFiles.RunAnswers | align/blockalign.c:226-344 | every call of a run is answered: a read with exactly the bytes of the contents at its place as far as there are any, a write with its size, a truncate with 0, a size query with the size |
| FlatFiles.RunContents | align/blockalign.c:226-471 | every call of a run leaves its bytes, zeros in gaps and extensions, and all other bytes as they were |
| FlatFiles.ReadsLatest | align/blockalign.c:306-324 | over whole runs a read returns, for every byte it covers, what was last written there |
| FlatFiles.WriteThenRead | align/blockalign.c:306-344 | a read of the range just written returns the bytes written |
| BlockAlignLayer.BlockAlign.Read | align/blockalign.c:306-324 | for offsets up to the size, `min(n, size - offset)` bytes, exactly those of the file, the rest of the buffer untouched |
| BlockAlignLayer.BlockAlign.Write | align/blockalign.c:326-344 | inside the file, and behind a hole the layer below can hold, the write is `pwrite` and returns its size; it is -1, and changes nothing, exactly when its first, partial block starts at or behind the end |
| BlockAlignLayer.BlockAlign.Truncate | align/blockalign.c:346-471 | returns 0 and leaves the exact prefix, or the old contents and zeros, through the torn intermediate state |
| BlockAlignLayer.BlockAlign.FillWithZeros | align/blockalign.c:383-409 | the 64 KiB fill loop ends, never fails, and extends the file with zeros, every write starting at the end of the file |
| BlockAlignLayer.BlockAlign.SplitIntoBlocks | align/blockalign.c:226-304 | both directions of the split loop: how far it gets, what it leaves in the buffer and in the file, and when it fails |
| BlockAlignLayer.BlockAlign.ProcessReadBlock | align/blockalign.c:56-115 | the bytes of the block from the extra offset on; behind the live bytes it reports the size it was asked for |
| BlockAlignLayer.BlockAlign.ProcessWriteBlock | align/blockalign.c:122-224 | all four write cases are a splice at the extra offset; failure exactly for a partial block at or behind the end; behind a whole block's hole there are zeros |
| BlockAlignLayer.MergedBlock | align/blockalign.c:188-206 | writing the read-modified block back is writing the chunk alone, or the chunk behind an unspecified gap |
| CInt.ReadsEnoughExactly | align/blockalign.c:61-78 | the size read is what covers the request and all live bytes of the block, or the request at least, exactly when the conversion to `int` does no harm |
| CInt.SliceExactly | align/blockalign.c:56-115 | over a layer that reads parts of blocks, the call delivers its slice exactly when the size read covers the request |
| CInt.LargeRestBreaks | align/blockalign.c:71-82 | a concrete partial read whose buffer size is negative |
| CInt.LargerRestWorks | align/blockalign.c:71-78 | a larger file on which the same read is served again |
| CInt.ToIntExactly | align/blockalign.c:71-72 | conversion to `int` keeps the value modulo 2^32, and to `uint64_t` modulo 2^64, in the range of the type |
| CInt.BytesToReadExactly | align/blockalign.c:61-78 | the size read in every case, from the remainder of the rest modulo 2^32 |
| CInt.ReadResultExactly | align/blockalign.c:94-106 | what is returned for every result of the lower read, errors included: the guard never fires |
| Storage.WriteStores | sfuse.c:60-103 | a disciplined write keeps the file stored, whatever the randomness, and its encoding has the announced length |
| Storage.StoredSlots | crypto/rand_symmetric.c:143-169 | block `k` of a stored file is one whole encoding at `k` slots, and the physical file ends with the last encoding or the slot of a full last block |
| Storage.ReadDecodes | sfuse.c:21-58 | a disciplined read sees one whole encoding and decodes it to the rest of the block; nothing exactly at the end of file |
| Storage.ReadDecodesPart | crypto/nopcrypt_padded.c:28-35 | without a cipher a read that stops inside the live bytes of its block decodes to the front of the block |
| Storage.FtruncateCuts | sfuse.c:166-177 | shortening keeps the file stored, or tears its last block and nothing else |
| Storage.WriteRepairs | align/blockalign.c:441-456 | rewriting the torn block stores the file again |
| Storage.SizeRecovered | crypto/det_symmetric.c:57-123 | every driver recovers the logical size of every stored file, by formula or by decoding the tail |
| Storage.PaddedSizeInverse | crypto/nopcrypt_padded.c:37-73 | the padded size formula undoes the truncate-size formula for all sizes |
| Storage.ExactPhysicalSize | crypto/rand_symmetric.c:143-169 | where full blocks fill their slots, the physical size of a stored file is the truncate-size formula: nothing stale is left |
| Storage.CanonicalExactly | crypto/det_symmetric.c:125-151 | equal contents are stored as equal bytes exactly when there is no cipher or the block size is a multiple of 16 |
| Storage.TruncateToSameSize | crypto/det_symmetric.c:139-151 | a block written, and the same block truncated to its own size, are both stored, and equal exactly under that condition |
| Storage.HoleExactly | align/blockalign.c:139-144 | a whole block written anywhere behind the end leaves a stored file exactly when the zeros it leaves are encodings of the zeros it means, in the extended last block and in the hole |
| Storage.PlainHoleFits | crypto/nopcrypt.c:11-30 | without any encoding they always are |
| Storage.PaddedHoleExactly | crypto/nopcrypt_padded.c:16-26 | with padding they are exactly when the pad of a partial last block is zeros as far as the block reaches |
| Storage.PaddedHoleBreaks | crypto/nopcrypt_padded.c:16-26 | a file behind which no hole fits |
| Storage.LowerDisciplined | sfuse.c:30-48 | where full blocks fill their slots, requests of the encoding layer are disciplined for blocks as wide as slots, and reads inside the file stay inside |
| Layout.StoreBlock | sfuse.c:71-96 | rewriting or appending a covered block changes that block and no other, with no stale ciphertext left |
| Layout.ReadBlock | sfuse.c:30-48 | a covering read returns exactly one whole encoding, though slots are wider and the last one is short |
| Layout.TailIsLastBlock | crypto/rand_symmetric.c:83-92 | what lies behind the last full slot is nothing or the whole encoding of the last block |
| NextLayerInterface.NextLayer.Read | align/blockalign.c:51-54 | a disciplined read returns the live bytes asked for, over either layer and in every mode; without a cipher or index also of part of a block |
| NextLayerInterface.NextLayer.Write | align/blockalign.c:117-120 | a disciplined write, the repair of a torn block, or a whole block behind a hole that fits, is a `pwrite` over either layer |
| DeviceFiles.DeviceFile.Read | multi_loopback.c:856-946 | a slice; in erasure mode of disciplined requests inside the file |
| DeviceFiles.DeviceFile.Write | multi_loopback.c:948-1032 | a `pwrite`, in erasure mode of disciplined requests, which leaves other files alone |
| SfuseLayer.Sfuse.Read | sfuse.c:21-58 | a disciplined read, or without a cipher or index one of part of a block, returns and places exactly the live bytes asked for |
| SfuseLayer.Sfuse.Write | sfuse.c:60-103 | a disciplined write, the repair of a torn block, or a whole block behind a hole that fits, is a `pwrite` and never reaches an error return; below it is the write of the encoding at its address |
| SfuseLayer.Sfuse.Fgetattr | sfuse.c:128-150 | the size reported is the logical size, in every mode |
| SfuseLayer.Sfuse.Ftruncate | sfuse.c:166-177 | the contents become the prefix, torn exactly if the cut is inside a block and shortens the file; below it is the truncate to the driver's size |
| Driver.DecodeEncode | crypto/rand_symmetric.c:28-70 | decoding undoes encoding, the appended vector included, and the encoding is as long as announced |
| Driver.VectorAppended | crypto/rand_symmetric.c:28-48 | a randomised encoding is the cipher's under the drawn vector, which is its last 16 bytes; a deterministic one is the cipher's under the configured vector |
| Driver.TextInFront | crypto/nopcrypt_padded.c:16-26 | without a cipher the text is stored as it is, or in front of 16 more bytes |
| Driver.OneEncodingExactly | crypto/det_symmetric.c:28-42 | a text has one encoding exactly under the drivers that add no randomness |
| Driver.SlotWidths | crypto/rand_symmetric.c:149-153 | how wide each driver's slots are, and when a full block fills one |
| Driver.SizesFit | crypto/det_symmetric.c:125-129 | encoded lengths are monotone, and a partial block is never mistaken for a full slot |
| Driver.AddressFormulas | crypto/rand_symmetric.c:149-169 | offsets and truncate sizes are the drivers' products and sums |
| Cbc.CbcIsValid | crypto/openssl/symmetric.c:74-139 | chaining and padding over any block permutation round-trip and add between 1 and 16 bytes |
| Cbc.CbcBlocks | crypto/openssl/symmetric.c:74-139 | every block stored is the permuted XOR of the padded text with the block before it, the first with the vector |
| Cbc.PaddingBytes | crypto/openssl/symmetric.c:74-139 | the padded text is the text and 1 to 16 bytes, each of them their number, up to a multiple of 16 |
| Xor.XorBlocks | multi_loop_drivers/xor.c:13-18 | position-wise XOR, also when the result buffer is an operand |
| Xor.EncodeXor | multi_loop_drivers/xor.c:30-39 | for every device count all shares but the last are the random blocks drawn, and whatever these are the XOR of the shares is the block |
| Xor.DecodeXor | multi_loop_drivers/xor.c:20-28 | the XOR of all buffers, in place |
| Xor.PwriteShares | multi_loopback.c:47-51 | writing shares at any offset, gap included, writes what they stand for |
| Xor.FtruncateShares | multi_loopback.c:66-68 | truncating every share, shorter or longer, truncates what they stand for |
| Loopback.MultiLoopback.Write | multi_loopback.c:948-1032 | the contents become the `pwrite`, in both modes, and the result is the size; in XOR mode every device but the last gets just what was drawn |
| Loopback.MultiLoopback.Read | multi_loopback.c:856-946 | a slice, decoded from buffers whose rest is arbitrary |
| Loopback.MultiLoopback.Ftruncate | multi_loopback.c:1227-1262 | the contents become the `ftruncate`, and devices stay of one length |
| Device.AggregateExactly | multi_loopback.c:149-167 | of the recorded results: -1 exactly when one is -1 or, for transfers, two differ; the common result otherwise |
| Device.FailureRecorded | multi_loopback.c:28-68 | a result recorded is -1 exactly when the device call failed and does not write a fragment, and a device whose call failed keeps its file |
| Device.CollectResults | multi_loopback.c:149-167 | the collecting loop computes that aggregate |
| FanOut.StepInv | multi_loopback.c:124-147 | every step of caller and workers keeps the protocol's invariant |
| FanOut.SafeToLeave | multi_loopback.c:124-147 | past the wait every device call is complete and recorded, and no worker can take another step |
| FanOut.NoLostWakeup | multi_loopback.c:128-147 | the counter counts the workers past the increment; a sleeping caller with a full counter has a signal still to come |
| FanOut.NeverStuck | multi_loopback.c:137-147 | in every reachable state before the return some step other than a spurious wakeup is enabled, for any number of devices and pool threads |
| FanOut.RunsEnd | multi_loopback.c:128-147 | every run has at most 21 steps a device and 5 more, and 3 for each spurious wakeup |
| FanOut.ScheduleIndependence | multi_loopback.c:25-168 | every run that cannot go on has returned, with the devices, results and return value of the ordered loop |
| FanOut.EveryOrderHappens | multi_loopback.c:1424 | with a thread for each device, all workers may run at once, their device calls come in any order, and they take the mutex in any other |
| FanOut.AllAtOnce | multi_loopback.c:1424 | such a run reaches a state in which every worker is about to call its device |
| FanOut.PoolIsBound | multi_loopback.c:18 | in every reachable state no more workers are active than the pool has threads |
| FanOut.SleepersWake | multi_loopback.c:137-140 | the caller may be asleep before any worker has started |
| FanOut.AnySleeperMayWake | multi_loopback.c:137-140 | a sleeping caller may wake at any time without a signal |
| FanOut.ReturnedIsStuck | multi_loopback.c:1019-1024 | after the return no thread can take a step |
| Schedules.AnyScheduleWrites | multi_loopback.c:988-1031 | however the workers are scheduled, a write of shares changes what the devices stand for as `pwrite` would |
| Schedules.AnyScheduleReads | multi_loopback.c:886-930 | however the workers are scheduled, the filled buffers decode to the range read |
| Schedules.AnyScheduleTruncates | multi_loopback.c:1241-1261 | the same of `ftruncate` |
| Schedules.AnyScheduleReportsFailure | multi_loopback.c:149-167 | under every schedule a transfer returns -1 exactly when a recorded result is -1 or two differ; in replication and XOR mode, when a device fails or two disagree |
| Schedules.AnyScheduleCalls | multi_loopback.c:28-68 | in replication and XOR mode, under every schedule, a device whose call failed keeps its file, and the others have it written, truncated or as it was |
| Schedules.AnyScheduleTruncateReports | multi_loopback.c:149-167 | a truncate returns -1 exactly when a device fails, and 0 otherwise |
| Schedules.AnyScheduleWriteReports | multi_loopback.c:149-167 | a write returns -1 exactly when a device fails or two shares differ in length |
| Schedules.AnyScheduleReadReports | multi_loopback.c:149-167 | a read returns -1 exactly when a device fails or two have different numbers of bytes; each buffer gets its device's bytes |
| ErasureSchedules.AnyScheduleWritesFragments | multi_loopback.c:43-48 | in erasure mode a write returns its size under every schedule, whatever fails; a device has its fragment written exactly if its call did not fail |
| ErasureSchedules.AnyScheduleReadsFragments | multi_loopback.c:28-36 | in erasure mode a read returns -1 exactly when a device fails, or one returns bytes and another none; else the size, or 0, however short the fragments are |
| ErasureSchedules.AnyScheduleWritesBlock | multi_loopback.c:978-1031 | under every schedule the write of a block leaves the store of the ordered loop, which is in order exactly when every device that failed had its fragment |
| ErasureSchedules.AnyScheduleReadsBlock | multi_loopback.c:877-930 | under every schedule the read of a block returns -1 exactly when a device fails, and else buffers that decode to the block |
| ErasureSchedules.ShortFragmentUnseen | multi_loopback.c:33-36 | a short fragment that no result shows |
| ErasureStore.RunsAreSafe | multi_loop_drivers/erasure.c:195-202 | over all runs of disciplined calls on any files, the entry looked up for a nonzero offset always exists |
| ErasureStore.ClosedForm | multi_loop_drivers/erasure.c:179-215 | after any run, block `k` is recorded at `k` full fragments, with its own fragment's length |
| ErasureStore.ExtentsDisjoint | multi_loop_drivers/erasure.c:190-215 | after any run the extent the index records for a block ends before those of the blocks behind it begin |
| ErasureStore.ReadAfterWrite | multi_loopback.c:877-930 | after any run of creates, appends, overwrites, reads and renames, reading a block gives the latest bytes written |
| ErasureStore.EveryByteReadable | multi_loopback.c:877-930 | every byte of every file is where the read of its block puts it |
| ErasureStore.IdentitySafety | multi_loop_drivers/erasure.c:33-50 | after any run live paths have distinct ids, none above the counter, and recorded sizes are the files' |
| ErasureStore.IdsUsed | multi_loop_drivers/erasure.c:33-50 | which ids calls give out: one for a first write, two for a read of a path without one, none otherwise |
| ErasureStore.RecreatedIsFresh | multi_loop_drivers/erasure.c:244-249 | a recreated file has size 0 and an id without entries: it sees no earlier extent |
| ErasureStore.RenameKeepsInv | multi_loop_drivers/erasure.c:235-242 | a rename of a written file to another path carries content and size and disturbs no other file |
| ErasureStore.RenameExactly | multi_loop_drivers/erasure.c:235-242 | a rename carries size and content exactly when the file is written and not renamed to itself, or replaces no written file; what size is recorded otherwise |
| ErasureStore.RenameLegalExactly | multi_loop_drivers/erasure.c:235-242 | the renames to another path that leave index and fragments in agreement are exactly the legal ones |
| ErasureStore.RenameFailures | map/map.c:68-81 | a run after which both failing renames are possible, and fail |
| ErasureStore.FailedWriteExactly | multi_loopback.c:43-48 | after a write in which devices fail, index and fragments hold the new file exactly when each of these devices had, at the block's address, the fragment it was to write |
| ErasureStore.FailedWriteRead | multi_loopback.c:877-930 | a read then decodes the old fragments of the failed devices with the new ones of the others |
| ErasureStore.FailedWriteUnseen | multi_loopback.c:43-48 | a code, a run and one failing device after which the old byte is read |
| ErasureIndex.WriteIndexed | multi_loop_drivers/erasure.c:179-215 | a covering write keeps the closed form of the chained index; entries left by a shorter last block are not consulted |
| ErasureKeys.KeyInjective | multi_loop_drivers/erasure.c:179-186 | the formatted keys of different entries differ, so the string table is a table of entries |
| ErasureKeys.KeyExample | multi_loop_drivers/erasure.c:179-186 | keys as the format strings write them |
| ErasureDriver.Erasure.ErasureEncode | multi_loop_drivers/erasure.c:153-215 | the tables after an encode are the index function's |
| ErasureDriver.FillBuffers | multi_loop_drivers/erasure.c:217-230 | the copy loops fill the buffers in the order of the fragments, and all of them exactly when there are as many devices as fragments |
| ErasureDriver.Erasure.GetFileId | multi_loop_drivers/erasure.c:33-50 | the recorded id, or the next one, which is used up without being recorded |
| ErasureDriver.Erasure.IncrementFileSize | multi_loop_drivers/erasure.c:135-151 | the recorded size is raised to the end of the write, never lowered |
| ErasureDriver.Erasure.ErasureRename | multi_loop_drivers/erasure.c:235-242 | both tables after a rename |
| ErasureLoopbackLayer.ErasureLoopback.Write | multi_loopback.c:978-1031 | every device whose call does not fail gets its fragment at the address the index gives, the index advances, and the collected result is the size, whatever fails |
| ErasureLoopbackLayer.ErasureLoopback.Read | multi_loopback.c:877-930 | the collected result is -1, and the buffer untouched, exactly when a device fails; else it is the size asked for, also when the block is shorter, and the buffer has the block's live bytes |
| IvdbMap.Ivdb.MoveKey | map/map.c:68-81 | the table after a move; moving a key to itself removes it |
| IvdbMap.MovedExactly | map/map.c:68-81 | a move carries the value exactly when the key is present and not moved to itself, or both are absent; the key it moves is gone, and no other key is touched |

## Left out

- BlockAlignLayer.BlockAlign.Write: does not describe a request behind the end of file that starts with a whole block where the hole does not fit, or in erasure mode; the code accepts it, and leaves no stored file (`Storage.HoleExactly`), or follows a missing index entry.
- BlockAlignLayer.BlockAlign.ProcessWriteBlock: leaves out the same request.
- BlockAlignLayer.BlockAlign.SplitIntoBlocks: leaves out the same request.
- BlockAlignLayer.BlockAlign.Read: describes offsets up to the size; behind it, a request inside the last block is described by `ProcessReadBlock`, and one in a later block computes a buffer size from a wrapped difference.
- BlockAlignLayer.BlockAlign.Truncate: models the call on an open file; opening and releasing a handle when there is none is not modelled, nor is a truncate in erasure mode.
- SfuseLayer.Sfuse.Ftruncate: models the call in replication and XOR mode only, and does not describe extending, which the layer above never asks for.
- Device.Dispatch: performs the device calls in order; that this loses nothing is `FanOut.ScheduleIndependence` and the lemmas of `Schedules` and `ErasureSchedules`.
- Device failures inside the stack: `MultiLoopback`, `DeviceFile` and the layers above run on devices that do not fail; failures are part of the fan-out protocol, of the aggregate and of `ErasureLoopback`. Short writes and error numbers are not modelled.
- ErasureDriver.FillBuffers: leaves out fewer devices than fragments, where the C loops leave the array; the erasure layer above it is described for as many devices as fragments.
- Integer widths other than the two conversions in `CInt.dfy`: sizes and offsets are bounded by the ranges of `int` and `off_t` in the preconditions and unbounded otherwise.
- Read-only source buffers are sequences, not pointers into a caller's array, and the temporary buffers inside the encoding drivers are not modelled.
- Stack.RunOnErasureCode: does not describe reads that reach behind the end of the file, whose result is the size asked for (multi_loopback.c:33-36), nor truncates; `Stack.RunEncodedOnErasureCode` neither.
- Erasure mode with truncate, unlink or mknod: the driver does not update its index there.
- Several fan-outs sharing the pool: other callers' requests appear as the bound on free threads only.
- AES itself, liberasurecode and the quality of randomness: parameters of which the round trip is asked.
- Directory and metadata operations, FUSE registration, configuration, logging and timestamps.
- `ec_layer/`: a separate prototype.
