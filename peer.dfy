/**
 * The peer agent (class Peer): its local catalog and flags, its answers to
 * the tracker's commands, the download of a required file, and the serving
 * of one byte range to another peer.
 */
module PeerAgent {
  import opened Wire
  import opened Storage
  import opened RangeWorker
  import opened Download

  /** The tracker's answer to a file-required status. */
  datatype Availability = Available(peerCount: int, fileSize: int) | NotAvailable

  /** The status a peer reports: terminate > file required > catalog updated > idle. */
  function StatusReply(terminateFlag: bool, fileRequiredFlag: bool, fileListUpdatedFlag: bool): (code: int)
    ensures terminateFlag <==> code == STATE_TERMINATE
    ensures code == STATE_FILE_REQUIRED <==> !terminateFlag && fileRequiredFlag
    ensures code == STATE_FILE_LIST_UPDATED <==> !terminateFlag && !fileRequiredFlag && fileListUpdatedFlag
    ensures code == STATE_IDLE <==> !terminateFlag && !fileRequiredFlag && !fileListUpdatedFlag
  {
    if terminateFlag then STATE_TERMINATE
    else if fileRequiredFlag then STATE_FILE_REQUIRED
    else if fileListUpdatedFlag then STATE_FILE_LIST_UPDATED
    else STATE_IDLE
  }

  /** The (name, size) pairs of the catalog names in `order`; a size is the length of the file at the path. */
  function CatalogEntries(order: seq<string>, pathMap: map<string, string>, files: map<string, Bytes>)
    : seq<(string, int)>
    requires forall i :: 0 <= i < |order| ==> order[i] in pathMap
  {
    seq(|order|, i requires 0 <= i < |order| => (order[i], LengthOf(files, pathMap[order[i]])))
  }

  /** No name occurs twice. */
  predicate Distinct(names: seq<string>)
  {
    forall i, j :: 0 <= i < j < |names| ==> names[i] != names[j]
  }

  lemma DistinctSnoc(names: seq<string>, name: string)
    requires Distinct(names) && forall i :: 0 <= i < |names| ==> names[i] != name
    ensures Distinct(names + [name])
  {
  }

  /** An iteration order of a key set: every key exactly once, in an order the model does not fix. */
  method IterationOrder(keys: set<string>) returns (order: seq<string>)
    ensures forall n :: n in order <==> n in keys
    ensures Distinct(order)
  {
    var remaining := keys;
    order := [];
    while remaining != {}
      invariant remaining <= keys
      invariant forall i :: 0 <= i < |order| ==> order[i] in keys && order[i] !in remaining
      invariant forall n :: n in keys ==> n in remaining || n in order
      invariant Distinct(order)
      decreases remaining
    {
      var name :| name in remaining;
      DistinctSnoc(order, name);
      order := order + [name];
      remaining := remaining - {name};
    }
  }

  /** Listing one more catalog name appends its (name, size) pair. */
  lemma CatalogListingStep(order: seq<string>, name: string, pathMap: map<string, string>, files: map<string, Bytes>)
    requires forall i :: 0 <= i < |order| ==> order[i] in pathMap
    requires name in pathMap
    ensures PairTokens(CatalogEntries(order + [name], pathMap, files))
            == PairTokens(CatalogEntries(order, pathMap, files)) + [WriteUTF(name), WriteLong(LengthOf(files, pathMap[name]))]
  {
    assert CatalogEntries(order + [name], pathMap, files)
           == CatalogEntries(order, pathMap, files) + [(name, LengthOf(files, pathMap[name]))];
    PairTokensAppend(CatalogEntries(order, pathMap, files), (name, LengthOf(files, pathMap[name])));
  }

  /** The request headers the workers of `tasks` send, in order. */
  function RequestsOf(fileName: string, tasks: seq<RangeTask>): (headers: seq<seq<Token>>)
    ensures |headers| == |tasks|
  {
    seq(|tasks|, i requires 0 <= i < |tasks| => RequestHeader(fileName, tasks[i].offset, tasks[i].requiredBytes))
  }

  /** The header a serving peer reads names a range it can read in full. */
  predicate Servable(header: Option<(string, int, int)>, pathMap: map<string, string>, files: map<string, Bytes>)
  {
    && header.Some?
    && header.value.0 in pathMap
    && pathMap[header.value.0] in files
    && InFile(files[pathMap[header.value.0]], header.value.1, header.value.2)
  }

  /** A range request can be read in full: it is empty or ends inside the file. */
  predicate InFile(content: Bytes, offset: int, requiredBytes: int)
  {
    0 <= offset && 0 <= requiredBytes && (requiredBytes == 0 || offset + requiredBytes <= |content|)
  }

  /** The bytes a range request names (none for an empty range, wherever it starts). */
  function RangeOf(content: Bytes, offset: int, requiredBytes: int): (r: Bytes)
    requires InFile(content, offset, requiredBytes)
    ensures |r| == requiredBytes
    ensures requiredBytes != 0 ==> r == content[offset..offset + requiredBytes]
  {
    if requiredBytes == 0 then [] else content[offset..offset + requiredBytes]
  }

  /** `chunks` carry `range` as full buffers followed by one last chunk with the remainder. */
  predicate RangeSent(chunks: seq<Bytes>, range: Bytes)
  {
    && 1 <= |chunks|
    && Concat(chunks) == range
    && (forall i :: 0 <= i < |chunks| - 1 ==> |chunks[i]| == BUFFER_SIZE)
    && |chunks[|chunks| - 1]| <= BUFFER_SIZE
    && (range != [] ==> chunks[|chunks| - 1] != [])
  }

  /** When the request can be served, `chunks` carry exactly the range it names. */
  predicate Served(request: seq<Token>, pathMap: map<string, string>, files: map<string, Bytes>, chunks: seq<Bytes>)
  {
    var header := ReadRequestHeader(request);
    Servable(header, pathMap, files) ==>
      var (fileName, offset, requiredBytes) := header.value;
      RangeSent(chunks, RangeOf(files[pathMap[fileName]], offset, requiredBytes))
  }

  /** `chunks` are full buffers with the start of a range that the file ends before completing. */
  predicate PrefixSent(chunks: seq<Bytes>, content: Bytes, offset: nat, requiredBytes: int)
  {
    && (forall i :: 0 <= i < |chunks| ==> |chunks[i]| == BUFFER_SIZE)
    && |Concat(chunks)| < requiredBytes
    && offset + |Concat(chunks)| <= |content| < offset + requiredBytes
    && Concat(chunks) == content[offset..offset + |Concat(chunks)|]
  }

  /**
   * The workers of a split download: the first `peerCount - 1` take one
   * block each at increasing offsets, the last one takes the rest.
   */
  method FetchParts(disk: Disk, fileName: string, peerCount: int, fileSize: int, received: seq<seq<Bytes>>)
    returns (headers: seq<seq<Token>>)
    requires MINIMUM_FILE_SIZE_BYTES <= fileSize && 1 <= peerCount
    requires |received| == peerCount
    modifies disk
    ensures disk.files == Written(old(disk.files), PartNames(fileName, Plan(peerCount, fileSize)),
                                  ReceivedParts(received), peerCount)
    ensures headers == RequestsOf(fileName, Plan(peerCount, fileSize))
  {
    var offset;
    headers, offset := FetchBlocks(disk, fileName, peerCount, fileSize, received);
    FinalPart(fileName, peerCount, fileSize, offset);
    var header := FetchPart(disk, fileName, FINAL_FILE_PART, offset, fileSize - offset, received[peerCount - 1],
                            old(disk.files), PartNames(fileName, Plan(peerCount, fileSize)), ReceivedParts(received),
                            peerCount - 1);
    PrefixAndLast(RequestsOf(fileName, Plan(peerCount, fileSize)), headers, header);
    headers := headers + [header];
  }

  /** The last worker of a split download writes the "_end" part and asks for the rest of the file. */
  lemma FinalPart(fileName: string, peerCount: int, fileSize: int, offset: int)
    requires MINIMUM_FILE_SIZE_BYTES <= fileSize && 1 <= peerCount
    requires Plan(peerCount, fileSize)[peerCount - 1] == RangeTask(FINAL_FILE_PART, offset, fileSize - offset)
    ensures |PartNames(fileName, Plan(peerCount, fileSize))| == |RequestsOf(fileName, Plan(peerCount, fileSize))| == peerCount
    ensures PartNames(fileName, Plan(peerCount, fileSize))[peerCount - 1] == PartFileName(fileName, FINAL_FILE_PART)
    ensures RequestsOf(fileName, Plan(peerCount, fileSize))[peerCount - 1] == RequestHeader(fileName, offset, fileSize - offset)
  {
  }

  /** The loop of FetchParts: one worker per block, at increasing offsets, for all but the last range. */
  method FetchBlocks(disk: Disk, fileName: string, peerCount: int, fileSize: int, received: seq<seq<Bytes>>)
    returns (headers: seq<seq<Token>>, offset: int)
    requires MINIMUM_FILE_SIZE_BYTES <= fileSize && 1 <= peerCount
    requires |received| == peerCount
    modifies disk
    ensures Plan(peerCount, fileSize)[peerCount - 1] == RangeTask(FINAL_FILE_PART, offset, fileSize - offset)
    ensures headers == RequestsOf(fileName, Plan(peerCount, fileSize))[..peerCount - 1]
    ensures disk.files == Written(old(disk.files), PartNames(fileName, Plan(peerCount, fileSize)),
                                  ReceivedParts(received), peerCount - 1)
  {
    ghost var names := PartNames(fileName, Plan(peerCount, fileSize));
    ghost var contents := ReceivedParts(received);
    ghost var requests := RequestsOf(fileName, Plan(peerCount, fileSize));
    offset := 0;
    var blockSize := fileSize / peerCount;
    headers := [];
    var i := 0;
    while i < peerCount - 1
      invariant 0 <= i <= peerCount - 1
      invariant offset == BlockStart(i, blockSize)
      invariant headers == requests[..i]
      invariant disk.files == Written(old(disk.files), names, contents, i)
    {
      BlockPart(fileName, peerCount, fileSize, i);
      var header := FetchPart(disk, fileName, i, offset, blockSize, received[i], old(disk.files), names, contents, i);
      TakeOneMore(requests, i);
      headers := headers + [header];
      offset := offset + blockSize;
      i := i + 1;
    }
    assert i == peerCount - 1;
    FinalOffset(peerCount, fileSize);
  }

  /** Worker `i` of the first `peerCount - 1` writes part "_i" and asks for the i-th block. */
  lemma BlockPart(fileName: string, peerCount: int, fileSize: int, i: nat)
    requires MINIMUM_FILE_SIZE_BYTES <= fileSize && 1 <= peerCount && i < peerCount - 1
    ensures PartNames(fileName, Plan(peerCount, fileSize))[i] == PartFileName(fileName, i)
    ensures RequestsOf(fileName, Plan(peerCount, fileSize))[i]
            == RequestHeader(fileName, BlockStart(i, fileSize / peerCount), fileSize / peerCount)
  {
  }

  /** The last range starts after the first `peerCount - 1` blocks and takes the rest. */
  lemma FinalOffset(peerCount: int, fileSize: int)
    requires MINIMUM_FILE_SIZE_BYTES <= fileSize && 1 <= peerCount
    ensures var offset := BlockStart(peerCount - 1, fileSize / peerCount);
            Plan(peerCount, fileSize)[peerCount - 1] == RangeTask(FINAL_FILE_PART, offset, fileSize - offset)
  {
  }

  /**
   * One worker of a split download, run as the `k`-th of the writes that
   * `names` and `contents` list: it sends its header and writes its part file.
   */
  method FetchPart(disk: Disk, fileName: string, filePart: int, offset: int, requiredBytes: int, results: seq<Bytes>,
                   ghost base: map<string, Bytes>, ghost names: seq<string>, ghost contents: seq<Bytes>, ghost k: nat)
    returns (header: seq<Token>)
    requires |contents| == |names| && k < |names|
    requires names[k] == PartFileName(fileName, filePart) && contents[k] == Received(results)
    requires disk.files == Written(base, names, contents, k)
    modifies disk
    ensures header == RequestHeader(fileName, offset, requiredBytes)
    ensures disk.files == Written(base, names, contents, k + 1)
  {
    var worker := new PeerThread(fileName, filePart, offset, requiredBytes);
    header := worker.Run(disk, results);
  }

  /** Appends the content of `source` to `destination`, one buffer of at most BUFFER_SIZE bytes at a time. */
  method AppendFile(disk: Disk, source: string, destination: string)
    requires source in disk.files && destination in disk.files && source != destination
    modifies disk
    ensures disk.files == old(disk.files)[destination := old(disk.files[destination]) + old(disk.files[source])]
  {
    ghost var before := disk.files;
    ghost var start := before[destination];
    var content := disk.files[source];
    var pos := 0;
    assert start + content[..0] == start;
    assert before[destination := start] == before;
    while pos < |content|
      invariant 0 <= pos <= |content|
      invariant disk.files == before[destination := start + content[..pos]]
    {
      var bytesRead := if |content| - pos < BUFFER_SIZE then |content| - pos else BUFFER_SIZE;
      var buffer := content[pos..pos + bytesRead];
      assert content[..pos + bytesRead] == content[..pos] + buffer;
      assert disk.files[destination] + buffer == start + content[..pos + bytesRead];
      disk.files := disk.files[destination := disk.files[destination] + buffer];
      assert disk.files == before[destination := start + content[..pos + bytesRead]];
      pos := pos + bytesRead;
    }
    assert content[..pos] == content;
  }

  /** The reassembled prefix grows by the next part, in reassembly order. */
  lemma ReassembleStep(parts: map<string, Bytes>, fileName: string, peerCount: nat, i: nat,
                       before: map<string, Bytes>, after: map<string, Bytes>)
    requires forall j :: 0 <= j < peerCount ==> ReassemblyName(fileName, peerCount, j) in parts
    requires i < peerCount
    requires before == AssembledUpTo(parts, fileName, peerCount, i)
    requires after == before[fileName := before[fileName] + before[ReassemblyName(fileName, peerCount, i)]]
    ensures after == AssembledUpTo(parts, fileName, peerCount, i + 1)
  {
    var tempFile := ReassemblyName(fileName, peerCount, i);
    assert before[tempFile] == parts[tempFile];
    PartsInOrderSnoc(parts, fileName, peerCount, i);
    AppendAssociative(Existing(parts, fileName), Concat(PartsInOrder(parts, fileName, peerCount, i)), parts[tempFile]);
  }

  /** Opens the destination for append and appends every part file to it, in order. */
  method Reassemble(disk: Disk, fileName: string, peerCount: nat)
    requires forall i :: 0 <= i < peerCount ==> ReassemblyName(fileName, peerCount, i) in disk.files
    modifies disk
    ensures disk.files == Assembled(old(disk.files), fileName, peerCount)
  {
    ghost var parts := disk.files;
    if fileName !in disk.files {
      disk.files := disk.files[fileName := []];
    }
    ReassembleStart(parts, fileName, peerCount, disk.files);
    var i := 0;
    while i < peerCount
      invariant 0 <= i <= peerCount
      invariant disk.files == AssembledUpTo(parts, fileName, peerCount, i)
    {
      var tempFile := ReassemblyName(fileName, peerCount, i);
      assert tempFile in parts;
      ghost var before := disk.files;
      AppendFile(disk, tempFile, fileName);
      ReassembleStep(parts, fileName, peerCount, i, before, disk.files);
      i := i + 1;
    }
  }

  /** Opening the destination for append creates it empty if it is missing: no part has been appended yet. */
  lemma ReassembleStart(parts: map<string, Bytes>, fileName: string, peerCount: nat, start: map<string, Bytes>)
    requires forall j :: 0 <= j < peerCount ==> ReassemblyName(fileName, peerCount, j) in parts
    requires start == if fileName in parts then parts else parts[fileName := []]
    ensures start == AssembledUpTo(parts, fileName, peerCount, 0)
  {
    assert Concat(PartsInOrder(parts, fileName, peerCount, 0)) == [];
    assert Existing(parts, fileName) + [] == Existing(parts, fileName);
  }

  /**
   * The copy loop of a serving peer: full buffers while more than one buffer
   * remains, then the remainder; a read past the end of the file stops it.
   */
  method SendRange(content: Bytes, offset: nat, requiredBytes: nat) returns (chunks: seq<Bytes>, ok: bool)
    ensures ok <==> InFile(content, offset, requiredBytes)
    ensures ok ==> RangeSent(chunks, RangeOf(content, offset, requiredBytes))
    ensures !ok ==> chunks == [] || PrefixSent(chunks, content, offset, requiredBytes)
  {
    var sentBytes;
    chunks, sentBytes, ok := SendFullBuffers(content, offset, requiredBytes);
    if !ok {
      return;
    }
    if sentBytes == requiredBytes {
      // an empty range: reading zero bytes succeeds wherever the file position is
      return [[]], true;
    }
    if |content| < offset + requiredBytes {
      Truncated(chunks, content, offset, requiredBytes, sentBytes);
      return chunks, false;
    }
    var buffer := content[offset + sentBytes..offset + requiredBytes];
    LastChunk(content, offset, requiredBytes, chunks, sentBytes);
    chunks := chunks + [buffer];
  }

  /**
   * The full-buffer part of the copy loop: on success `sentBytes` bytes of
   * the range went out as full buffers and at most one buffer remains.
   */
  method SendFullBuffers(content: Bytes, offset: nat, requiredBytes: nat)
    returns (chunks: seq<Bytes>, sentBytes: nat, ok: bool)
    ensures ok ==> 0 <= sentBytes <= requiredBytes && requiredBytes - sentBytes <= BUFFER_SIZE
    ensures ok ==> SentSoFar(chunks, content, offset, requiredBytes, sentBytes)
    ensures !ok ==> !InFile(content, offset, requiredBytes) && (chunks == [] || PrefixSent(chunks, content, offset, requiredBytes))
  {
    sentBytes := 0;
    chunks := [];
    while sentBytes < requiredBytes - BUFFER_SIZE
      invariant 0 <= sentBytes <= requiredBytes
      invariant SentSoFar(chunks, content, offset, requiredBytes, sentBytes)
      decreases requiredBytes - sentBytes
    {
      if |content| < offset + sentBytes + BUFFER_SIZE {
        Truncated(chunks, content, offset, requiredBytes, sentBytes);
        return chunks, sentBytes, false;  // readFully reaches the end of the file
      }
      var buffer := content[offset + sentBytes..offset + sentBytes + BUFFER_SIZE];
      FullChunkSent(content, offset, requiredBytes, chunks, sentBytes);
      chunks := chunks + [buffer];
      sentBytes := sentBytes + BUFFER_SIZE;
    }
    ok := true;
  }

  /** What the loop of `SendFullBuffers` keeps: full buffers carrying the first `sentBytes` bytes. */
  predicate SentSoFar(chunks: seq<Bytes>, content: Bytes, offset: nat, requiredBytes: nat, sentBytes: nat)
  {
    && (chunks == [] <==> sentBytes == 0)
    && (sentBytes == 0 || sentBytes < requiredBytes)
    && (forall i :: 0 <= i < |chunks| ==> |chunks[i]| == BUFFER_SIZE)
    && (sentBytes > 0 ==> offset + sentBytes <= |content|)
    && Concat(chunks) == if sentBytes == 0 then [] else content[offset..offset + sentBytes]
  }

  /** One more full buffer, read while more than a buffer of the range remains, keeps `SentSoFar`. */
  lemma FullChunkSent(content: Bytes, offset: nat, requiredBytes: nat, chunks: seq<Bytes>, sentBytes: nat)
    requires sentBytes < requiredBytes - BUFFER_SIZE
    requires offset + sentBytes + BUFFER_SIZE <= |content|
    requires SentSoFar(chunks, content, offset, requiredBytes, sentBytes)
    ensures SentSoFar(chunks + [content[offset + sentBytes..offset + sentBytes + BUFFER_SIZE]], content, offset,
                      requiredBytes, sentBytes + BUFFER_SIZE)
  {
    var buffer := content[offset + sentBytes..offset + sentBytes + BUFFER_SIZE];
    var sent := sentBytes + BUFFER_SIZE;
    ChunkSent(content, offset, chunks, sentBytes, sent);
    var all := chunks + [buffer];
    assert all[|chunks|] == buffer;
    assert forall i :: 0 <= i < |chunks| ==> all[i] == chunks[i];
    assert forall i :: 0 <= i < |all| ==> |all[i]| == BUFFER_SIZE;
    assert Concat(all) == content[offset..offset + sent];
  }

  /** The remainder after the full buffers completes the range as its last chunk. */
  lemma LastChunk(content: Bytes, offset: nat, requiredBytes: nat, chunks: seq<Bytes>, sentBytes: nat)
    requires sentBytes <= requiredBytes && requiredBytes - sentBytes <= BUFFER_SIZE
    requires offset + requiredBytes <= |content|
    requires SentSoFar(chunks, content, offset, requiredBytes, sentBytes)
    ensures RangeSent(chunks + [content[offset + sentBytes..offset + requiredBytes]], content[offset..offset + requiredBytes])
  {
    var buffer := content[offset + sentBytes..offset + requiredBytes];
    ChunkSent(content, offset, chunks, sentBytes, requiredBytes);
    var all := chunks + [buffer];
    assert all[|all| - 1] == buffer;
    assert forall i :: 0 <= i < |all| - 1 ==> all[i] == chunks[i];
  }

  /** Full buffers sent before the file turned out too short are a prefix of the range. */
  lemma Truncated(chunks: seq<Bytes>, content: Bytes, offset: nat, requiredBytes: nat, sentBytes: nat)
    requires SentSoFar(chunks, content, offset, requiredBytes, sentBytes)
    requires |content| < offset + requiredBytes
    ensures chunks == [] || PrefixSent(chunks, content, offset, requiredBytes)
  {
    if chunks != [] {
      assert |Concat(chunks)| == sentBytes;
    }
  }

  /** Sending the bytes from `sent` to `next` extends what has been sent of the range by them. */
  lemma ChunkSent(content: Bytes, offset: nat, chunks: seq<Bytes>, sent: nat, next: nat)
    requires sent <= next && offset + next <= |content|
    requires Concat(chunks) == if sent == 0 then [] else content[offset..offset + sent]
    ensures Concat(chunks + [content[offset + sent..offset + next]]) == content[offset..offset + next]
  {
    var buffer := content[offset + sent..offset + next];
    ConcatAppend(chunks, buffer);
    assert content[offset..offset + sent] + buffer == content[offset..offset + next];
  }

  /**
   * An owner whose catalog maps the file name to a file holding `src` can
   * serve the request of worker `i`: it reads back the worker's range, which
   * lies inside the file.
   */
  lemma PlanRequestServable(fileName: string, peerCount: int, src: Bytes,
                            pathMap: map<string, string>, files: map<string, Bytes>, i: nat)
    requires fileName in pathMap && pathMap[fileName] in files && files[pathMap[fileName]] == src
    requires MINIMUM_FILE_SIZE_BYTES <= |src| ==> 1 <= peerCount
    requires i < |Plan(peerCount, |src|)|
    ensures var t := Plan(peerCount, |src|)[i];
            var header := ReadRequestHeader(RequestsOf(fileName, Plan(peerCount, |src|))[i]);
            && header == Some((fileName, t.offset, t.requiredBytes))
            && Servable(header, pathMap, files)
            && 0 <= t.offset && 0 <= t.requiredBytes && t.offset + t.requiredBytes <= |src|
  {
    PlanCovers(peerCount, |src|);
    CoversLayout(Plan(peerCount, |src|), |src|);
  }

  /**
   * What an owner sends for worker `i`, read by the worker in any split into
   * reads that ends with the stream, is exactly the worker's range of `src`.
   */
  lemma ServedRangeHeld(fileName: string, peerCount: int, src: Bytes,
                        pathMap: map<string, string>, files: map<string, Bytes>, i: nat,
                        chunks: seq<Bytes>, results: seq<Bytes>)
    requires fileName in pathMap && pathMap[fileName] in files && files[pathMap[fileName]] == src
    requires MINIMUM_FILE_SIZE_BYTES <= |src| ==> 1 <= peerCount
    requires i < |Plan(peerCount, |src|)|
    requires Served(RequestsOf(fileName, Plan(peerCount, |src|))[i], pathMap, files, chunks)
    requires ReadsUntilEnd(results) && Concat(results) == Concat(chunks)
    ensures HoldsRange(Received(results), src, Plan(peerCount, |src|)[i])
  {
    var t := Plan(peerCount, |src|)[i];
    PlanRequestServable(fileName, peerCount, src, pathMap, files, i);
    assert ReadRequestHeader(RequestsOf(fileName, Plan(peerCount, |src|))[i]) == Some((fileName, t.offset, t.requiredBytes));
    var range := RangeOf(src, t.offset, t.requiredBytes);
    assert RangeSent(chunks, range);
    assert range == src[t.offset..t.offset + t.requiredBytes];
    ReceivedAll(results);
    assert Received(results) == Concat(chunks) == range;
  }

  /**
   * The download end to end: every owner that serves a worker holds the file
   * as `src`, each worker's reads deliver the bytes its owner sent, and the
   * destination did not exist or was empty; then every request is served
   * and the downloaded file is `src`.
   */
  lemma {:induction false} ServedDownloadRoundTrip(files: map<string, Bytes>, fileName: string, peerCount: int,
                                                   src: Bytes, pathMaps: seq<map<string, string>>,
                                                   disks: seq<map<string, Bytes>>, served: seq<seq<Bytes>>,
                                                   received: seq<seq<Bytes>>)
    requires MINIMUM_FILE_SIZE_BYTES <= |src| ==> 1 <= peerCount
    requires |pathMaps| == |disks| == |served| == |received| == |Plan(peerCount, |src|)|
    requires forall i :: 0 <= i < |disks| ==>
               fileName in pathMaps[i] && pathMaps[i][fileName] in disks[i] && disks[i][pathMaps[i][fileName]] == src
    requires forall i :: 0 <= i < |served| ==>
               Served(RequestsOf(fileName, Plan(peerCount, |src|))[i], pathMaps[i], disks[i], served[i])
    requires forall i :: 0 <= i < |received| ==>
               ReadsUntilEnd(received[i]) && Concat(received[i]) == Concat(served[i])
    requires Existing(files, fileName) == []
    ensures forall i :: 0 <= i < |served| ==>
              Servable(ReadRequestHeader(RequestsOf(fileName, Plan(peerCount, |src|))[i]), pathMaps[i], disks[i])
    ensures Downloaded(files, fileName, peerCount, |src|, received)[fileName] == src
  {
    var tasks := Plan(peerCount, |src|);
    forall i | 0 <= i < |received|
      ensures Servable(ReadRequestHeader(RequestsOf(fileName, tasks)[i]), pathMaps[i], disks[i])
      ensures HoldsRange(Received(received[i]), src, tasks[i])
    {
      PlanRequestServable(fileName, peerCount, src, pathMaps[i], disks[i], i);
      ServedRangeHeld(fileName, peerCount, src, pathMaps[i], disks[i], i, served[i], received[i]);
    }
    DownloadRoundTrip(files, fileName, peerCount, src, received);
  }

  class Peer {
    var pathMap: map<string, string>  // catalog: file name -> absolute path
    var requiredFileName: string
    var fileListUpdatedFlag: bool
    var fileRequiredFlag: bool
    var terminateFlag: bool
    var toTracker: seq<Token>         // every token written to the tracker, in order
    const disk: Disk

    /** `savedCatalog` is the catalog loaded from the previous run (empty if none). */
    constructor (disk: Disk, savedCatalog: map<string, string>)
      ensures this.disk == disk && pathMap == savedCatalog && toTracker == []
      ensures requiredFileName == "" && fileListUpdatedFlag && !fileRequiredFlag && !terminateFlag
    {
      this.disk := disk;
      pathMap := savedCatalog;
      requiredFileName := "";
      fileListUpdatedFlag := true;
      fileRequiredFlag := false;
      terminateFlag := false;
      toTracker := [];
    }

    /** Records a local file under its name, replacing any earlier path. */
    method AddToFileList(fileName: string, absolutePath: string)
      modifies this`pathMap
      ensures pathMap == old(pathMap)[fileName := absolutePath]
    {
      pathMap := pathMap[fileName := absolutePath];
    }

    method SetFileRequired(requiredFileName: string)
      modifies this`requiredFileName, this`fileRequiredFlag
      ensures this.requiredFileName == requiredFileName && fileRequiredFlag
    {
      this.requiredFileName := requiredFileName;
      fileRequiredFlag := true;
    }

    method Terminate()
      modifies this`terminateFlag
      ensures terminateFlag
    {
      terminateFlag := true;
    }

    /**
     * Writes one (name, size) pair per catalog entry, in the map's iteration
     * order (`order`), then the sentinel, and clears the catalog-updated flag.
     */
    method SendFileList() returns (order: seq<string>)
      modifies this`toTracker, this`fileListUpdatedFlag
      ensures forall n :: n in order <==> n in pathMap
      ensures Distinct(order)
      ensures toTracker == old(toTracker) + ListingTokens(CatalogEntries(order, pathMap, disk.files))
      ensures !fileListUpdatedFlag
    {
      var catalog, files := pathMap, disk.files;
      order := IterationOrder(catalog.Keys);
      var written: seq<Token> := [];
      for i := 0 to |order|
        invariant written == PairTokens(CatalogEntries(order[..i], catalog, files))
        invariant toTracker == old(toTracker)
      {
        var fileName := order[i];
        var fileSize := LengthOf(files, catalog[fileName]);
        written := written + [WriteUTF(fileName), WriteLong(fileSize)];
        TakeOneMore(order, i);
        CatalogListingStep(order[..i], fileName, catalog, files);
      }
      TakeAll(order);
      assert ListingTokens(CatalogEntries(order, catalog, files)) == written + [WriteUTF(END_OF_LIST)];
      AppendAssociative(toTracker, written, [WriteUTF(END_OF_LIST)]);
      toTracker := toTracker + written + [WriteUTF(END_OF_LIST)];
      fileListUpdatedFlag := false;
    }

    /**
     * Downloads the required file: one worker per range, each on the next
     * accepted connection (`received[i]` is what the i-th one reads), then,
     * for a split download, reassembly of the parts into the destination.
     * Returns the header each worker sent.
     */
    method ReceiveFile(peerCount: int, fileSize: int, received: seq<seq<Bytes>>) returns (headers: seq<seq<Token>>)
      requires 0 <= fileSize && (MINIMUM_FILE_SIZE_BYTES <= fileSize ==> 1 <= peerCount)
      requires |received| == |Plan(peerCount, fileSize)|
      modifies this`fileRequiredFlag, disk
      ensures disk.files == Downloaded(old(disk.files), requiredFileName, peerCount, fileSize, received)
      ensures headers == RequestsOf(requiredFileName, Plan(peerCount, fileSize))
      ensures !fileRequiredFlag
    {
      ghost var tasks := Plan(peerCount, fileSize);
      if fileSize < MINIMUM_FILE_SIZE_BYTES {
        var worker := new PeerThread(requiredFileName, SINGLE_PART, 0, fileSize);
        var header := worker.Run(disk, received[0]);
        headers := [header];
        SingleRangeDownload(old(disk.files), requiredFileName, peerCount, fileSize, received);
        assert headers == RequestsOf(requiredFileName, tasks);
      } else {
        headers := FetchParts(disk, requiredFileName, peerCount, fileSize, received);
        // every worker has finished
        SplitParts(old(disk.files), requiredFileName, peerCount, fileSize, received);
        Reassemble(disk, requiredFileName, peerCount);
      }
      fileRequiredFlag := false;
    }

    /**
     * The answer to GET_PEER_STATUS.  For a file-required status the tracker's
     * availability answer is `answer`; when the file is available the
     * download runs with `received` as the reads of its connections.
     * Returns false when the peer's command loop ends.
     */
    method AnswerStatusPoll(answer: Availability, received: seq<seq<Bytes>>) returns (loopFlag: bool)
      requires answer.Available? ==>
                 && 0 <= answer.fileSize
                 && (MINIMUM_FILE_SIZE_BYTES <= answer.fileSize ==> 1 <= answer.peerCount)
                 && |received| == |Plan(answer.peerCount, answer.fileSize)|
      modifies this`toTracker, this`fileRequiredFlag, disk
      ensures var code := StatusReply(old(terminateFlag), old(fileRequiredFlag), old(fileListUpdatedFlag));
              && toTracker == old(toTracker) + [Write(code)]
                              + (if code == STATE_FILE_REQUIRED then [WriteUTF(requiredFileName)] else [])
              && (loopFlag <==> code != STATE_TERMINATE)
              && if code == STATE_FILE_REQUIRED && answer.Available? then
                   && !fileRequiredFlag
                   && disk.files == Downloaded(old(disk.files), requiredFileName, answer.peerCount,
                                               answer.fileSize, received)
                 else
                   fileRequiredFlag == old(fileRequiredFlag) && disk.files == old(disk.files)
    {
      loopFlag := true;
      if terminateFlag {
        toTracker := toTracker + [Write(STATE_TERMINATE)];
        loopFlag := false;
      } else if fileRequiredFlag {
        toTracker := toTracker + [Write(STATE_FILE_REQUIRED), WriteUTF(requiredFileName)];
        match answer {
          case Available(peerCount, fileSize) =>
            var _ := ReceiveFile(peerCount, fileSize, received);
          case NotAvailable =>
        }
      } else if fileListUpdatedFlag {
        toTracker := toTracker + [Write(STATE_FILE_LIST_UPDATED)];
      } else {
        toTracker := toTracker + [Write(STATE_IDLE)];
      }
    }

    /**
     * Serves one range to a requesting peer: reads the request header from
     * `request`, opens the file the catalog names and seeks to the offset,
     * then sends the range.  `ok` is false when a read failed (bad header,
     * no such file, negative offset, end of file) and the rest of the range
     * was not sent.
     */
    method CommunicateWithPeer(request: seq<Token>) returns (chunks: seq<Bytes>, ok: bool)
      requires ReadRequestHeader(request).Some? ==> ReadRequestHeader(request).value.0 in pathMap
      requires ReadRequestHeader(request).Some? ==> 0 <= ReadRequestHeader(request).value.2
      ensures ok <==> Servable(ReadRequestHeader(request), pathMap, disk.files)
      ensures Served(request, pathMap, disk.files, chunks)
      ensures !ok && chunks != [] ==>
                && ReadRequestHeader(request).Some?
                && var (fileName, offset, requiredBytes) := ReadRequestHeader(request).value;
                   && pathMap[fileName] in disk.files && 0 <= offset
                   && PrefixSent(chunks, disk.files[pathMap[fileName]], offset, requiredBytes)
    {
      var header := ReadRequestHeader(request);
      if header.None? {
        return [], false;
      }
      var (fileName, offset, requiredBytes) := header.value;
      var path := pathMap[fileName];
      if path !in disk.files || offset < 0 {
        return [], false;
      }
      chunks, ok := SendRange(disk.files[path], offset, requiredBytes);
    }
  }
}
