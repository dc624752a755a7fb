# Tracker and peers: a Dafny model

This project models the core of a small peer-to-peer file-sharing system
written in Java. A tracker keeps a registry of which peers own which file.
Each connected peer has one session thread on the tracker that polls the
peer's status. When a peer needs a file, the tracker records the request.
The sessions of the owning peers then tell their peers to serve the asker.
The asker downloads the file as byte ranges, one range per owner, into part
files, and appends the parts to the destination file in order.

The model has seven modules:

- `Wire` (wire.dfy). A `Token` is one `DataOutputStream` write: a command
  byte, an int, a long or a UTF string. The module also holds the protocol
  codes, the catalog listing (pairs of name and size, ended by the name
  `"end"`) with the tracker's reader for it, and the range request header
  with the serving peer's reader for it.
- `Storage` (storage.dfy). Bytes, the concatenation of chunks, what a reader
  collects when it stops at the first empty read, `File.length()`, and a
  `Disk` object that maps paths to contents.
- `Registry` (registry.dfy). The tracker's `SharedData`. `Snapshot` is the
  registry state as a value; one function per operation says what it does;
  the class `SharedData` has the Java fields and methods that update them
  in place, each proved equal to its function.
- `TrackerSession` (tracker_session.dfy). The tracker's per-peer
  `TrackerThread`:
  - catalog ingestion (`Ingest`, `ReceiveFileList`);
  - the switch on the peer's status reply (`Dispatch`, `HandleReply`);
  - the arbitration check after every reply (`Arbitrate`, `CheckRequests`);
  - one whole poll iteration (`Step`).
- `RangeWorker` (range_worker.dfy). The download worker `PeerThread`: the
  name of its part file, and its run, which sends the request header and then
  copies the reads into a fresh part file.
- `Download` (download.dfy). The download on values: the partition into
  ranges (`Plan`), the part files the workers write, reassembly, the whole
  download (`Downloaded`), and its round trip.
- `PeerAgent` (peer.dfy). The peer `Peer`:
  - its catalog and flags;
  - the status reply priority;
  - sending the catalog;
  - the download (`FetchParts`, `Reassemble`, `ReceiveFile`);
  - serving one range to another peer in 512-byte buffers (`SendRange`,
    `CommunicateWithPeer`).

Inputs that the Java reads from sockets or the file system are parameters:
- the peer's status reply;
- the catalog listing a peer sends;
- the tracker's availability answer;
- the chunks each worker's reads return;
- the request header a serving peer reads;
- the catalog loaded at start-up;
- the contents of the disk.

Outputs are the tokens a party writes, recorded in order. For a served range
the output is the chunks written. `PeerAgent.ServedDownloadRoundTrip` joins
the two sides of a download: the workers' requests, the owners' serving of
them, and reassembly give back the owners' file.

The registry getters `getRequestedFile` and `getAskingPeer` are the plain
field reads `SharedData.GetRequestedFile` and `SharedData.GetAskingPeer`.

## Model

| member | source | states |
|---|---|---|
| Wire.PairTokens | src/backend/peer/Peer.java:190-197 | Each catalog entry is written as its name (writeUTF) followed by its size (writeLong), entry i at positions 2i and 2i+1 |
| Wire.ListingTokens | src/backend/peer/Peer.java:190-199 | A listing is the pairs followed by the single sentinel name "end" |
| Wire.PairTokensAppend | src/backend/peer/Peer.java:190-197 | Listing one more entry appends exactly its name and size to the stream |
| Wire.ReadListing | src/backend/tracker/TrackerThread.java:65-68 | The tracker reads name/size pairs and stops only at the name "end" or at a token that cannot be read (a failed read): every pair it returns was written at positions 2i, 2i+1, no returned name is "end", and the two tokens after the last pair never form another readable pair |
| Wire.BeforeSentinel | src/backend/tracker/TrackerThread.java:65 | The longest prefix of a listing whose names are not "end"; the entry after it, if any, is named "end" |
| Wire.ReadListingOfListing | src/backend/tracker/TrackerThread.java:65-68 | Reading back a written listing, whatever follows it, yields the written pairs up to the first one whose name is "end" |
| Wire.ListingRoundTrip | src/backend/tracker/TrackerThread.java:65-68 | The tracker reads back exactly the catalog a peer wrote if and only if no catalog name is "end" |
| Wire.RequestHeader | src/backend/peer/PeerThread.java:72-76 | A worker's request is a file name, then the offset, then the byte count |
| Wire.ReadRequestHeader | src/backend/peer/Peer.java:294-298 | The serving peer reads readUTF, readLong, readLong; it succeeds exactly when the tokens have those kinds, and then the tokens are the header of the values read |
| Wire.RequestHeaderRoundTrip | src/backend/peer/Peer.java:294-298 | The serving peer reads back the file name, offset and byte count a worker sent, in that order |
| Storage.LeadingReads | src/backend/peer/PeerThread.java:83-85 | The number of reads that returned data before the first read that returned nothing: all earlier reads are non-empty and the next one, if any, is empty |
| Storage.LeadingReadsAt | src/backend/peer/PeerThread.java:83-85 | A copy loop that stopped after k non-empty reads, at an empty read or at the end, made exactly the leading reads |
| Storage.ReceivedAll | src/backend/peer/PeerThread.java:83-85 | When only the last read may be empty, the worker collects the concatenation of all reads |
| Storage.LengthOf | src/backend/peer/Peer.java:195 | File.length() is the length of the file's content, and 0 when no file is at the path |
| Registry.OwnersOf | src/backend/tracker/SharedData.java:55-57 | getFileOwners yields the stored owner set exactly for known files (none, i.e. null, otherwise); in a valid registry that set is never empty |
| Registry.OwnerCount | src/backend/tracker/SharedData.java:59-67 | getPeerCount is the size of the owner set, 0 for an unknown file; in a valid registry it is non-zero exactly for known files |
| Registry.SizeOf | src/backend/tracker/SharedData.java:69-75 | getFileSize is the recorded size, 0 for an unknown file |
| Registry.AddOwner | src/backend/tracker/SharedData.java:39-53 | addFileInfo returns true exactly when the owner was new to the file's owner set. Afterwards the owner is in the set. Only that set changes. The size is recorded on the first report only. The maps keep equal key sets and no owner or size is lost. The pending slot is untouched |
| Registry.TrySetRequest | src/backend/tracker/SharedData.java:81-97 | setFileRequest succeeds exactly when the counter is 0. It then installs file, asker and count and sets requestAvailable; otherwise nothing changes. A pending request is never overwritten. A positive count keeps "requestAvailable iff counter > 0" |
| Registry.Ack | src/backend/tracker/SharedData.java:99-109 | decrementPeerCount lowers the counter by exactly one and clears requestAvailable exactly when it reaches 0; nothing else changes; from a positive counter it keeps "requestAvailable iff counter > 0" |
| Registry.AcksCount | src/backend/tracker/SharedData.java:99-109 | k decrements from a valid slot with at least k owners pending lower the counter by k, and the request stays pending exactly while k is below the count |
| Registry.RequestExclusion | src/backend/tracker/SharedData.java:81-109 | After a request for N owners is installed, any other setFileRequest fails until exactly N decrements have happened, and then succeeds |
| Registry.SharedData.constructor | src/backend/tracker/SharedData.java:26-37 | A new registry is empty, with no pending request and a zero counter |
| Registry.SharedData.AddFileInfo | src/backend/tracker/SharedData.java:39-53 | The in-place update and its result are exactly AddOwner on the registry state |
| Registry.SharedData.GetFileOwners | src/backend/tracker/SharedData.java:55-57 | The stored owner set for a known file, none (null) for an unknown one |
| Registry.SharedData.GetPeerCount | src/backend/tracker/SharedData.java:59-67 | The size of the stored owner set, 0 for an unknown file |
| Registry.SharedData.GetFileSize | src/backend/tracker/SharedData.java:69-75 | The stored size, 0 for an unknown file |
| Registry.SharedData.IsNewRequestAvailable | src/backend/tracker/SharedData.java:77-79 | While the slot is valid, a request is reported pending exactly when some owner is still to be signalled |
| Registry.SharedData.SetFileRequest | src/backend/tracker/SharedData.java:81-97 | The in-place update and its result are exactly TrySetRequest on the registry state |
| Registry.SharedData.DecrementPeerCount | src/backend/tracker/SharedData.java:99-109 | The in-place update is exactly Ack on the registry state |
| TrackerSession.Ingest | src/backend/tracker/TrackerThread.java:60-73 | Ingesting a listing never touches the pending slot; from a valid registry it keeps the registry valid and loses no file, owner or size |
| TrackerSession.IngestOwners | src/backend/tracker/TrackerThread.java:65-68 | After ingestion the known files are exactly the old ones plus the listed ones, and each file's owners are exactly its old owners plus the peer when the listing names it: the peer owns every listed file, no owner is lost, nobody else is added |
| TrackerSession.IngestFirstSize | src/backend/tracker/TrackerThread.java:65-68 | A file new to the registry gets the size of its first pair in the listing; later pairs with the same name leave it unchanged |
| TrackerSession.Dispatch | src/backend/tracker/TrackerThread.java:96-134 | Idle, unrecognised and terminate replies send nothing and change nothing (terminate ends the loop). File-list-updated sends GET_FILE_LIST and ingests the listing. File-required for an unknown file sends only FILE_NOT_AVAILABLE. For a known file it sends FILE_AVAILABLE, owner count and size, and installs the request. The registry stays valid and only grows |
| TrackerSession.Arbitrate | src/backend/tracker/TrackerThread.java:136-160 | On an open connection the check fires exactly when a request is pending, the asker is another peer and this peer owns the file. It then sends COMMUNICATE_WITH_PEER and the asker's address and decrements the counter once; otherwise nothing is sent or changed. Catalog untouched, registry stays valid |
| TrackerSession.TrackerThread.constructor | src/backend/tracker/TrackerThread.java:40-48 | A session is bound to the registry and the peer's address, has written nothing and is not terminated |
| TrackerSession.TrackerThread.ReceiveFileList | src/backend/tracker/TrackerThread.java:60-73 | The registry after the reading loop is Ingest of the pairs ReadListing yields |
| TrackerSession.TrackerThread.Start | src/backend/tracker/TrackerThread.java:87-88 | The session first writes GET_FILE_LIST and ingests the catalog, before any status poll |
| TrackerSession.TrackerThread.Step | src/backend/tracker/TrackerThread.java:92-160 | One iteration writes GET_PEER_STATUS, then what Dispatch sends, then what Arbitrate sends; the registry ends as Arbitrate after Dispatch (on a closed connection after TERMINATE); the loop ends exactly on TERMINATE; the session stays valid |
| TrackerSession.TrackerThread.HandleReply | src/backend/tracker/TrackerThread.java:96-134 | The switch writes and updates exactly what Dispatch states and sets the loop flag on TERMINATE |
| TrackerSession.TrackerThread.CheckRequests | src/backend/tracker/TrackerThread.java:136-160 | The check writes and updates exactly what Arbitrate states for the current connection state |
| RangeWorker.Decimal | src/backend/peer/PeerThread.java:47 | The decimal digits of a part index: only digit characters, at least one, a single one exactly below 10 |
| RangeWorker.DecimalValue | src/backend/peer/PeerThread.java:47 | The digit string of n denotes n: read back most significant digit first, it gives n |
| RangeWorker.DecimalInjective | src/backend/peer/PeerThread.java:47 | Different numbers have different decimal strings |
| RangeWorker.IntString | src/backend/peer/PeerThread.java:47 | Java's int-to-string conversion starts with a sign or a digit |
| RangeWorker.IntStringInjective | src/backend/peer/PeerThread.java:47 | Different ints have different strings |
| RangeWorker.PartFileName | src/backend/peer/PeerThread.java:44-48 | SINGLE (-1) writes to the file name itself, FINAL (-2) to name + "_end", any other part i to name + "_" + the decimal string of i |
| RangeWorker.PartFileNameInjective | src/backend/peer/PeerThread.java:44-48 | Different part indices of one file never share a part file |
| RangeWorker.PeerThread.constructor | src/backend/peer/PeerThread.java:33-52 | A worker keeps its file name, part, offset and byte count, and its part file is PartFileName of the name and part |
| RangeWorker.PeerThread.Run | src/backend/peer/PeerThread.java:67-96 | The worker sends the header (name, offset, count) and creates its part file afresh with exactly what the reads before the first empty read returned, in order; no other file changes |
| Download.BlockStartClosedForm | src/backend/peer/Peer.java:224-232 | The offset after k blocks of the loop's `offset += blockSize` is k * blockSize |
| Download.BlockFits | src/backend/peer/Peer.java:225-234 | After N-1 blocks of ⌊S/N⌋ at least one more block remains |
| Download.Plan | src/backend/peer/Peer.java:220-234 | Below 1 MiB one SINGLE range (offset 0, length S). Otherwise N ranges: range i has part i and starts after i blocks. Ranges 0..N-2 have length ⌊S/N⌋. The last has part FINAL and length S minus its offset |
| Download.FinalRangeLongest | src/backend/peer/Peer.java:234 | The FINAL range is at least ⌊S/N⌋ bytes long |
| Download.PlanOffsets | src/backend/peer/Peer.java:228-232 | Range i of a split download starts at i·⌊S/N⌋ |
| Download.CoversLayout | src/backend/peer/Peer.java:224-234 | A tiling starts at 0, each range starts where the previous one ends, ranges have non-negative length, lie inside [0, end) and are pairwise disjoint |
| Download.PlanPrefixCovers | src/backend/peer/Peer.java:228-232 | The first k ranges of a split download tile [0, k blocks) |
| Download.PlanCovers | src/backend/peer/Peer.java:220-234 | Every plan tiles [0, S) exactly |
| Download.TenMegabytesFromThreeOwners | src/backend/peer/Peer.java:224-234 | 10,000,000 bytes from 3 owners are split as 3333333, 3333333 and 3333334 bytes at offsets 0, 3333333 and 6666666 |
| Download.ConcatOfRanges | src/backend/peer/Peer.java:255-263 | Concatenating parts that hold the ranges of a tiling of [0, end), in order, gives the first `end` bytes of the source |
| Download.WrittenKeeps | src/backend/peer/Peer.java:228-235 | A file that no worker writes is present afterwards exactly when it was before, and keeps its content |
| Download.WrittenAt | src/backend/peer/Peer.java:228-235 | A part file holds what its worker wrote when no later worker writes the same file |
| Download.SplitPartNamesDistinct | src/backend/peer/PeerThread.java:44-48 | The workers of a split download write pairwise different part files, none of them the destination |
| Download.ReassemblyName | src/backend/peer/Peer.java:257 | The name reassembly reads for part i is the name worker i writes ("_end" for the last), never the destination |
| Download.PartsInOrderSnoc | src/backend/peer/Peer.java:255-263 | Reassembling one more part appends that part's content |
| Download.Assembled | src/backend/peer/Peer.java:247-267 | Reassembly adds only the destination and leaves every other file unchanged |
| Download.AssembledUpTo | src/backend/peer/Peer.java:255-266 | After k parts the destination, opened for append, holds its old content followed by the first k parts in order; every other file is unchanged |
| Download.SplitParts | src/backend/peer/PeerThread.java:44-48 | After the workers of a split download, the part file reassembly reads i-th holds exactly what worker i received |
| Download.SingleRangeDownload | src/backend/peer/Peer.java:220-221 | A file below 1 MiB is written afresh to the destination with what the single worker received |
| Download.DownloadedDestination | src/backend/peer/Peer.java:213-277 | After a download the destination exists and holds what the single worker received, or (split) its old content followed by every worker's part in order |
| Download.DownloadRoundTrip | src/backend/peer/Peer.java:213-277 | When every worker receives exactly its range of the source and the destination did not exist or was empty, the downloaded file equals the source |
| PeerAgent.StatusReply | src/backend/peer/Peer.java:142-165 | Status priority: TERMINATE iff terminating; FILE_REQUIRED iff not terminating and a file is required; FILE_LIST_UPDATED iff neither and the catalog changed; IDLE iff none of them |
| PeerAgent.IterationOrder | src/backend/peer/Peer.java:190 | The key-set iteration visits every catalog name exactly once |
| PeerAgent.CatalogListingStep | src/backend/peer/Peer.java:190-197 | Listing one more catalog name appends its name and its file's length |
| PeerAgent.FetchParts | src/backend/peer/Peer.java:224-235 | The workers of a split download run in order, each writing its part file, and send the headers of the plan's ranges in order |
| PeerAgent.FinalPart | src/backend/peer/Peer.java:234 | The last worker writes the "_end" part and asks for the rest of the file from the final offset |
| PeerAgent.FetchBlocks | src/backend/peer/Peer.java:224-232 | The loop runs the first N-1 workers in order at offsets advancing by one block and leaves the offset where the FINAL range starts |
| PeerAgent.BlockPart | src/backend/peer/Peer.java:228-231 | Worker i of the first N-1 writes part "_i" and asks for block i |
| PeerAgent.FinalOffset | src/backend/peer/Peer.java:231-234 | The FINAL range starts after the first N-1 blocks and takes the rest of the file |
| PeerAgent.FetchPart | src/backend/peer/Peer.java:229-230 | One worker sends its header and performs the next write of the download: its part file gets what it received |
| PeerAgent.AppendFile | src/backend/peer/Peer.java:258-263 | Copying a part buffer by buffer appends its whole content to the destination and changes nothing else |
| PeerAgent.ReassembleStep | src/backend/peer/Peer.java:255-263 | Appending the next part file extends the reassembled prefix by one part |
| PeerAgent.Reassemble | src/backend/peer/Peer.java:248-267 | The destination, opened for append, receives every part in order; nothing else changes |
| PeerAgent.ReassembleStart | src/backend/peer/Peer.java:248-249 | Opening the destination for append creates it empty when missing and keeps its content otherwise |
| PeerAgent.SendRange | src/backend/peer/Peer.java:300-315 | The range is sent in full exactly when it is empty or ends inside the file, as full 512-byte buffers then one last chunk of the rest (non-empty when the range is). Otherwise only full buffers with the start of the range were sent |
| PeerAgent.SendFullBuffers | src/backend/peer/Peer.java:307-312 | The buffer loop sends full buffers carrying the start of the range and stops with at most one buffer left, or fails at the end of the file having sent a prefix |
| PeerAgent.FullChunkSent | src/backend/peer/Peer.java:308-312 | One more full buffer keeps the sent chunks a run of full buffers carrying the start of the range |
| PeerAgent.LastChunk | src/backend/peer/Peer.java:313-315 | The final buffer of the remaining bytes completes the range as its last chunk, of at most 512 bytes |
| PeerAgent.Truncated | src/backend/peer/Peer.java:309-314 | Buffers sent before the file turned out too short are full and carry a prefix of the range |
| PeerAgent.ChunkSent | src/backend/peer/Peer.java:309-315 | Sending the bytes between two positions extends what was sent of the range by exactly those bytes |
| PeerAgent.PlanRequestServable | src/backend/peer/Peer.java:294-315 | The header worker i sends is read back by an owner as (file name, offset, byte count) of the i-th range of the plan. That range lies inside the file, so an owner holding the whole file serves it in full |
| PeerAgent.ServedRangeHeld | src/backend/peer/PeerThread.java:79-85 | Whatever reads worker i makes of the bytes its owner sent, stopping at the end of the stream, it collects exactly its range of the source |
| PeerAgent.ServedDownloadRoundTrip | src/backend/peer/Peer.java:213-326 | End to end: each worker's owner holds the file, answers the worker's request and its bytes reach the worker in order, and the destination starts empty or missing. Then every owner serves its request in full and the downloaded file equals the owners' file |
| PeerAgent.Peer.constructor | src/backend/peer/Peer.java:58-88 | A peer starts with the saved catalog, with catalog-updated set, no file required, not terminating, and nothing written |
| PeerAgent.Peer.AddToFileList | src/backend/peer/Peer.java:100-103 | The name maps to the new absolute path, replacing any earlier one; no flag changes |
| PeerAgent.Peer.SetFileRequired | src/backend/peer/Peer.java:207-211 | The required file is recorded and the file-required flag is set |
| PeerAgent.Peer.Terminate | src/backend/peer/Peer.java:110-112 | The terminate flag is set |
| PeerAgent.Peer.SendFileList | src/backend/peer/Peer.java:185-205 | One name/size pair per catalog name, each name once, then "end"; the size is the length of the file at the name's path; the catalog-updated flag is cleared |
| PeerAgent.Peer.ReceiveFile | src/backend/peer/Peer.java:213-277 | The disk ends as Downloaded (workers' part files, then reassembly for a split download); the workers send the plan's headers in order; the file-required flag is cleared |
| PeerAgent.Peer.AnswerStatusPoll | src/backend/peer/Peer.java:140-167 | The peer writes the StatusReply code, followed by the file name for FILE_REQUIRED. The loop ends exactly on TERMINATE. An available file is downloaded and clears the file-required flag. Otherwise the flag and the disk stay unchanged |
| PeerAgent.Peer.CommunicateWithPeer | src/backend/peer/Peer.java:279-326 | Serving succeeds exactly when the header reads, names a file on disk, and the range can be read in full; then the chunks carry exactly that range of the file; a failed read after some chunks leaves a prefix of full buffers sent |

## Left out

- The tracker's accept loop (Tracker.java) only creates threads and is not part of this model.
- Threads, `synchronized` blocks and joins are not modelled; every operation runs to completion in sequence. A worker's part file is fully written before reassembly, as after the joins in `Peer.receiveFile`. A small-file worker also finishes before `receiveFile` clears the file-required flag, although the source does not join it.
- TrackerSession.TrackerThread.Step: the source retries `setFileRequest` in a busy loop until another session frees the slot. The model needs the slot already free when a request is installed (`CanInstall`). The same goes for TrackerSession.TrackerThread.HandleReply and TrackerSession.Dispatch.
- TrackerSession.TrackerThread.Step: the busy wait after the decrement (TrackerThread.java:157) is not modelled; the step returns right away. In the source the session is blocked there until the pending request is released, so it signals its peer at most once per request. In the model the same session can signal its peer again on its next step for a request that is still pending, decrementing the counter a second time: with owners B and C, two steps of B's session release the request without C being signalled. A precondition cannot replace the wait, because after the release another session may install a new request before this session's next step.
- Byte encodings are abstracted into tokens: modified UTF-8 for strings and big-endian ints and longs. Reading a token of the wrong kind, or past the end, is a failed read (an IOException).
- A `read()` that returns -1 at end of stream is the unrecognised reply byte (cast to -1) and is treated like any other unknown reply.
- PeerAgent.ServedDownloadRoundTrip takes as a hypothesis that each worker's reads return, in order, the bytes its owner wrote (TCP delivery), with no empty read before the end of the stream; the network itself is not modelled.
- Socket and server-socket setup, connecting to the tracker, closing streams and `terminateAllConnections` are not modelled. So are saving the catalog with object serialisation and the OS-dependent catalog path. The saved catalog is a constructor parameter.
- Logging and console output are not modelled.
- The catalog's absolute path comes from `java.io.File` and is an input of PeerAgent.Peer.AddToFileList.
- `HashMap` key-set iteration order is unspecified: PeerAgent.Peer.SendFileList returns the order it used (every name exactly once). The model does not fix that order.
- PeerAgent.Peer.CommunicateWithPeer requires the requested name to be in the catalog: in the source an unknown name makes `pathMap.get` return null and the `RandomAccessFile` constructor throws an uncaught NullPointerException.
- PeerAgent.Peer.CommunicateWithPeer requires a non-negative byte count: for a negative count the source allocates a buffer of negative size and throws an uncaught NegativeArraySizeException.
- PeerAgent.Peer.ReceiveFile requires at least one owner for a split download; with zero owners the source divides by zero. The tracker only answers FILE_AVAILABLE with a non-zero owner count.
- Java's int and long widths are not modelled (sizes, offsets and counts are unbounded integers); the only narrowing cast of a size or offset, of the last buffer's length, is at most 512. The reply bytes narrowed by `(byte) read()` are modelled as bytes (`OtherReply` for codes no case names).
- I/O errors on local files are not modelled: a missing part file at reassembly, or a disk write that fails. Reassembly requires every part file to exist, which the workers guarantee.
- The source leaves the part files on disk after reassembly (their deletion is commented out), and so does the model.
