/**
 * What a peer's download does to its file system: the file is split into
 * byte ranges (one per owner, or a single range for a small file), each
 * worker writes its range to its own part file, and the parts are appended,
 * in order, to the destination file.
 */
module Download {
  import opened Storage
  import opened RangeWorker

  /** Files smaller than this (1 MiB) are fetched as a single range. */
  const MINIMUM_FILE_SIZE_BYTES := 1024 * 1024

  /** One worker's assignment: part index, first byte, number of bytes. */
  datatype RangeTask = RangeTask(filePart: int, offset: int, requiredBytes: int)

  /** Part index of the i-th of `peerCount` ranges of a split download. */
  function PartIndex(peerCount: int, i: int): int
  {
    if i == peerCount - 1 then FINAL_FILE_PART else i
  }

  /** Where the k-th block starts: the offset after `k` blocks of `blockSize` bytes. */
  function BlockStart(k: nat, blockSize: int): int
    decreases k
  {
    if k == 0 then 0 else BlockStart(k - 1, blockSize) + blockSize
  }

  lemma {:induction false} BlockStartClosedForm(k: nat, blockSize: int)
    ensures BlockStart(k, blockSize) == k * blockSize
    decreases k
  {
    if k > 0 {
      BlockStartClosedForm(k - 1, blockSize);
    }
  }

  /** The first `peerCount - 1` blocks leave at least one block for the final range. */
  lemma BlockFits(fileSize: nat, peerCount: nat)
    requires 1 <= peerCount
    ensures fileSize - BlockStart(peerCount - 1, fileSize / peerCount) >= fileSize / peerCount >= 0
  {
    BlockStartClosedForm(peerCount - 1, fileSize / peerCount);
    assert (peerCount - 1) * (fileSize / peerCount) + fileSize / peerCount == peerCount * (fileSize / peerCount);
  }

  /**
   * The ranges of a download of `fileSize` bytes from `peerCount` owners:
   * below the threshold one SINGLE range; otherwise `peerCount` ranges, all of
   * ⌊fileSize / peerCount⌋ bytes except the FINAL one, which takes the rest.
   */
  function Plan(peerCount: int, fileSize: int): (tasks: seq<RangeTask>)
    requires 0 <= fileSize
    requires MINIMUM_FILE_SIZE_BYTES <= fileSize ==> 1 <= peerCount
    ensures fileSize < MINIMUM_FILE_SIZE_BYTES ==> tasks == [RangeTask(SINGLE_PART, 0, fileSize)]
    ensures MINIMUM_FILE_SIZE_BYTES <= fileSize ==>
              && |tasks| == peerCount
              && (forall i :: 0 <= i < peerCount ==>
                    tasks[i].filePart == PartIndex(peerCount, i)
                    && tasks[i].offset == BlockStart(i, fileSize / peerCount))
              && (forall i :: 0 <= i < peerCount - 1 ==> tasks[i].requiredBytes == fileSize / peerCount)
              && tasks[peerCount - 1].requiredBytes == fileSize - tasks[peerCount - 1].offset
  {
    if fileSize < MINIMUM_FILE_SIZE_BYTES then
      [RangeTask(SINGLE_PART, 0, fileSize)]
    else
      var blockSize := fileSize / peerCount;
      seq(peerCount, i requires 0 <= i < peerCount =>
        if i < peerCount - 1 then RangeTask(i, BlockStart(i, blockSize), blockSize)
        else RangeTask(FINAL_FILE_PART, BlockStart(i, blockSize), fileSize - BlockStart(i, blockSize)))
  }

  /** The FINAL range of a split download is at least as long as every other range. */
  lemma FinalRangeLongest(peerCount: int, fileSize: int)
    requires MINIMUM_FILE_SIZE_BYTES <= fileSize && 1 <= peerCount
    ensures Plan(peerCount, fileSize)[peerCount - 1].requiredBytes >= fileSize / peerCount >= 0
  {
    BlockFits(fileSize, peerCount);
  }

  /** The i-th range of a split download starts at i * ⌊fileSize / peerCount⌋. */
  lemma PlanOffsets(peerCount: int, fileSize: int, i: nat)
    requires MINIMUM_FILE_SIZE_BYTES <= fileSize && 1 <= peerCount && i < peerCount
    ensures Plan(peerCount, fileSize)[i].offset == i * (fileSize / peerCount)
  {
    BlockStartClosedForm(i, fileSize / peerCount);
  }

  /**
   * The ranges, in order, tile [0, end): each starts where the previous one
   * stops and none has a negative length.
   */
  predicate Covers(tasks: seq<RangeTask>, end: int)
    decreases |tasks|
  {
    if tasks == [] then end == 0
    else
      var last := tasks[|tasks| - 1];
      && 0 <= last.requiredBytes
      && last.offset + last.requiredBytes == end
      && Covers(tasks[..|tasks| - 1], last.offset)
  }

  /** Tiling in words: contiguous from 0, disjoint, inside [0, end). */
  lemma {:induction false} CoversLayout(tasks: seq<RangeTask>, end: int)
    requires Covers(tasks, end)
    ensures |tasks| > 0 ==> tasks[0].offset == 0
    ensures forall i :: 0 <= i < |tasks| - 1 ==> tasks[i + 1].offset == tasks[i].offset + tasks[i].requiredBytes
    ensures forall i :: 0 <= i < |tasks| ==>
              0 <= tasks[i].offset && 0 <= tasks[i].requiredBytes && tasks[i].offset + tasks[i].requiredBytes <= end
    ensures forall i, j :: 0 <= i < j < |tasks| ==> tasks[i].offset + tasks[i].requiredBytes <= tasks[j].offset
    decreases |tasks|
  {
    if tasks != [] {
      var n := |tasks| - 1;
      CoversLayout(tasks[..n], tasks[n].offset);
      assert forall i :: 0 <= i < n ==> tasks[..n][i] == tasks[i];
    }
  }

  lemma {:induction false} PlanPrefixCovers(peerCount: int, fileSize: int, k: nat)
    requires MINIMUM_FILE_SIZE_BYTES <= fileSize && 1 <= peerCount && k < peerCount
    ensures Covers(Plan(peerCount, fileSize)[..k], BlockStart(k, fileSize / peerCount))
    decreases k
  {
    var tasks := Plan(peerCount, fileSize);
    if k > 0 {
      assert tasks[..k][..k - 1] == tasks[..k - 1];
      PlanPrefixCovers(peerCount, fileSize, k - 1);
    }
  }

  /** Every plan tiles [0, fileSize). */
  lemma PlanCovers(peerCount: int, fileSize: int)
    requires 0 <= fileSize
    requires MINIMUM_FILE_SIZE_BYTES <= fileSize ==> 1 <= peerCount
    ensures Covers(Plan(peerCount, fileSize), fileSize)
  {
    var tasks := Plan(peerCount, fileSize);
    if MINIMUM_FILE_SIZE_BYTES <= fileSize {
      PlanPrefixCovers(peerCount, fileSize, peerCount - 1);
      FinalRangeLongest(peerCount, fileSize);
      assert tasks[..peerCount - 1] == tasks[..|tasks| - 1];
    } else {
      assert tasks[..0] == [];
    }
  }

  /** The 10,000,000-byte, three-owner example. */
  lemma TenMegabytesFromThreeOwners()
    ensures Plan(3, 10000000) == [RangeTask(0, 0, 3333333), RangeTask(1, 3333333, 3333333),
                                  RangeTask(FINAL_FILE_PART, 6666666, 3333334)]
  {
    assert BlockStart(2, 3333333) == 6666666;
  }

  /** `part` is exactly the bytes of `src` that task `t` names. */
  predicate HoldsRange(part: Bytes, src: Bytes, t: RangeTask)
  {
    && 0 <= t.offset && 0 <= t.requiredBytes && t.offset + t.requiredBytes <= |src|
    && part == src[t.offset..t.offset + t.requiredBytes]
  }

  /** Concatenating the ranges of a tiling of [0, end) gives back src[..end]. */
  lemma {:induction false} ConcatOfRanges(src: Bytes, tasks: seq<RangeTask>, parts: seq<Bytes>, end: int)
    requires Covers(tasks, end) && 0 <= end <= |src| && |parts| == |tasks|
    requires forall i :: 0 <= i < |tasks| ==> HoldsRange(parts[i], src, tasks[i])
    ensures Concat(parts) == src[..end]
    decreases |tasks|
  {
    if tasks != [] {
      var n := |tasks| - 1;
      ConcatOfRanges(src, tasks[..n], parts[..n], tasks[n].offset);
      assert src[..end] == src[..tasks[n].offset] + src[tasks[n].offset..end];
    }
  }

  /** The first `k` writes, in order: write i creates file `names[i]` afresh with `contents[i]`. */
  function Written(files: map<string, Bytes>, names: seq<string>, contents: seq<Bytes>, k: nat): map<string, Bytes>
    requires |contents| == |names| && k <= |names|
    decreases k
  {
    if k == 0 then files
    else Written(files, names, contents, k - 1)[names[k - 1] := contents[k - 1]]
  }

  /** A file that none of the first `k` writes names keeps its content, or stays absent. */
  lemma {:induction false} WrittenKeeps(files: map<string, Bytes>, names: seq<string>, contents: seq<Bytes>,
                                        k: nat, name: string)
    requires |contents| == |names| && k <= |names|
    requires forall i :: 0 <= i < k ==> names[i] != name
    ensures name in Written(files, names, contents, k) <==> name in files
    ensures Existing(Written(files, names, contents, k), name) == Existing(files, name)
    decreases k
  {
    if k > 0 {
      WrittenKeeps(files, names, contents, k - 1, name);
    }
  }

  /** File `names[i]` holds `contents[i]` when none of the later writes up to `k` names it. */
  lemma {:induction false} WrittenAt(files: map<string, Bytes>, names: seq<string>, contents: seq<Bytes>,
                                     k: nat, i: nat)
    requires |contents| == |names| && i < k <= |names|
    requires forall j :: i < j < k ==> names[j] != names[i]
    ensures names[i] in Written(files, names, contents, k)
    ensures Written(files, names, contents, k)[names[i]] == contents[i]
    decreases k
  {
    if i < k - 1 {
      WrittenAt(files, names, contents, k - 1, i);
    }
  }

  /** The part files the workers of `tasks` write, in order. */
  function PartNames(fileName: string, tasks: seq<RangeTask>): (names: seq<string>)
    ensures |names| == |tasks|
    ensures forall i :: 0 <= i < |tasks| ==> names[i] == PartFileName(fileName, tasks[i].filePart)
  {
    seq(|tasks|, i requires 0 <= i < |tasks| => PartFileName(fileName, tasks[i].filePart))
  }

  /** What each worker collected from its connection, in order. */
  function ReceivedParts(received: seq<seq<Bytes>>): (parts: seq<Bytes>)
    ensures |parts| == |received|
    ensures forall i :: 0 <= i < |received| ==> parts[i] == Received(received[i])
  {
    seq(|received|, i requires 0 <= i < |received| => Received(received[i]))
  }

  /**
   * Each worker, in order, creates its part file afresh with what it
   * received; `received[i]` are the reads on the i-th accepted connection.
   */
  function WithParts(files: map<string, Bytes>, fileName: string, tasks: seq<RangeTask>,
                     received: seq<seq<Bytes>>): map<string, Bytes>
    requires |received| == |tasks|
  {
    Written(files, PartNames(fileName, tasks), ReceivedParts(received), |tasks|)
  }

  /** The workers of a split download write pairwise different part files, none of them the destination. */
  lemma SplitPartNamesDistinct(fileName: string, peerCount: int, fileSize: int)
    requires MINIMUM_FILE_SIZE_BYTES <= fileSize && 1 <= peerCount
    ensures var names := PartNames(fileName, Plan(peerCount, fileSize));
            && (forall i, j :: 0 <= i < j < peerCount ==> names[i] != names[j])
            && (forall i :: 0 <= i < peerCount ==> names[i] != fileName)
  {
    var tasks := Plan(peerCount, fileSize);
    var names := PartNames(fileName, tasks);
    forall i, j | 0 <= i < j < peerCount
      ensures names[i] != names[j]
    {
      if names[i] == names[j] {
        PartFileNameInjective(fileName, tasks[i].filePart, tasks[j].filePart);
      }
    }
  }

  /** The part file reassembly reads for the i-th of `peerCount` parts. */
  function ReassemblyName(fileName: string, peerCount: int, i: int): (name: string)
    ensures 0 <= i < peerCount ==> name == PartFileName(fileName, PartIndex(peerCount, i))
    ensures name != fileName
  {
    if i == peerCount - 1 then fileName + "_end" else fileName + "_" + IntString(i)
  }

  /** The contents of the first `k` part files, in reassembly order. */
  function PartsInOrder(files: map<string, Bytes>, fileName: string, peerCount: int, k: nat): (parts: seq<Bytes>)
    requires forall i :: 0 <= i < k ==> ReassemblyName(fileName, peerCount, i) in files
    ensures |parts| == k
    ensures forall i :: 0 <= i < k ==> parts[i] == files[ReassemblyName(fileName, peerCount, i)]
  {
    seq(k, i requires 0 <= i < k => files[ReassemblyName(fileName, peerCount, i)])
  }

  /** Appending the next part in reassembly order. */
  lemma PartsInOrderSnoc(files: map<string, Bytes>, fileName: string, peerCount: int, k: nat)
    requires forall i :: 0 <= i <= k ==> ReassemblyName(fileName, peerCount, i) in files
    ensures Concat(PartsInOrder(files, fileName, peerCount, k + 1))
            == Concat(PartsInOrder(files, fileName, peerCount, k)) + files[ReassemblyName(fileName, peerCount, k)]
  {
    var next := files[ReassemblyName(fileName, peerCount, k)];
    PartsInOrderExtend(files, fileName, peerCount, k);
    ConcatAppend(PartsInOrder(files, fileName, peerCount, k), next);
  }

  lemma PartsInOrderExtend(files: map<string, Bytes>, fileName: string, peerCount: int, k: nat)
    requires forall i :: 0 <= i <= k ==> ReassemblyName(fileName, peerCount, i) in files
    ensures PartsInOrder(files, fileName, peerCount, k + 1)
            == PartsInOrder(files, fileName, peerCount, k) + [files[ReassemblyName(fileName, peerCount, k)]]
  {
    var longer, shorter := PartsInOrder(files, fileName, peerCount, k + 1), PartsInOrder(files, fileName, peerCount, k);
    assert forall i :: 0 <= i < k ==> longer[i] == shorter[i];
  }

  /** The content of a file opened for append: empty when it did not exist. */
  function Existing(files: map<string, Bytes>, name: string): Bytes
  {
    if name in files then files[name] else []
  }

  /** Reassembly: the destination, opened for append, receives every part in order. */
  function Assembled(files: map<string, Bytes>, fileName: string, peerCount: nat): (r: map<string, Bytes>)
    requires forall i :: 0 <= i < peerCount ==> ReassemblyName(fileName, peerCount, i) in files
    ensures r.Keys == files.Keys + {fileName}
    ensures forall k :: k in files && k != fileName ==> r[k] == files[k]
  {
    AssembledUpTo(files, fileName, peerCount, peerCount)
  }

  /** Reassembly after the first `k` parts have been appended to the destination. */
  function AssembledUpTo(files: map<string, Bytes>, fileName: string, peerCount: nat, k: nat): (r: map<string, Bytes>)
    requires forall i :: 0 <= i < k ==> ReassemblyName(fileName, peerCount, i) in files
    ensures r.Keys == files.Keys + {fileName}
    ensures forall n :: n in files && n != fileName ==> r[n] == files[n]
    ensures r[fileName] == Existing(files, fileName) + Concat(PartsInOrder(files, fileName, peerCount, k))
  {
    files[fileName := Existing(files, fileName) + Concat(PartsInOrder(files, fileName, peerCount, k))]
  }

  /** After the workers of a split download, the i-th part file in reassembly order holds what worker i received. */
  lemma SplitParts(files: map<string, Bytes>, fileName: string, peerCount: int, fileSize: int,
                   received: seq<seq<Bytes>>)
    requires MINIMUM_FILE_SIZE_BYTES <= fileSize && 1 <= peerCount && |received| == peerCount
    ensures var parts := WithParts(files, fileName, Plan(peerCount, fileSize), received);
            forall i :: 0 <= i < peerCount ==>
              ReassemblyName(fileName, peerCount, i) in parts
              && parts[ReassemblyName(fileName, peerCount, i)] == Received(received[i])
  {
    var tasks := Plan(peerCount, fileSize);
    var names := PartNames(fileName, tasks);
    SplitPartNamesDistinct(fileName, peerCount, fileSize);
    forall i | 0 <= i < peerCount
      ensures ReassemblyName(fileName, peerCount, i) == names[i]
      ensures names[i] in Written(files, names, ReceivedParts(received), peerCount)
      ensures Written(files, names, ReceivedParts(received), peerCount)[names[i]] == Received(received[i])
    {
      WrittenAt(files, names, ReceivedParts(received), peerCount, i);
    }
  }

  /** The file system after a whole download. */
  function Downloaded(files: map<string, Bytes>, fileName: string, peerCount: int, fileSize: int,
                      received: seq<seq<Bytes>>): (r: map<string, Bytes>)
    requires 0 <= fileSize && (MINIMUM_FILE_SIZE_BYTES <= fileSize ==> 1 <= peerCount)
    requires |received| == |Plan(peerCount, fileSize)|
  {
    var parts := WithParts(files, fileName, Plan(peerCount, fileSize), received);
    if fileSize < MINIMUM_FILE_SIZE_BYTES then parts
    else
      SplitParts(files, fileName, peerCount, fileSize, received);
      Assembled(parts, fileName, peerCount)
  }

  /** A small file is fetched whole: the destination is created afresh with what the single worker received. */
  lemma SingleRangeDownload(files: map<string, Bytes>, fileName: string, peerCount: int, fileSize: int,
                            received: seq<seq<Bytes>>)
    requires 0 <= fileSize < MINIMUM_FILE_SIZE_BYTES && |received| == 1
    ensures Downloaded(files, fileName, peerCount, fileSize, received) == files[fileName := Received(received[0])]
  {
    var tasks := Plan(peerCount, fileSize);
    assert PartNames(fileName, tasks) == [fileName];
    assert ReceivedParts(received) == [Received(received[0])];
  }

  /**
   * The destination after a download: what the single worker received, or
   * the old content followed by what each worker received, in part order.
   */
  lemma DownloadedDestination(files: map<string, Bytes>, fileName: string, peerCount: int, fileSize: int,
                              received: seq<seq<Bytes>>)
    requires 0 <= fileSize && (MINIMUM_FILE_SIZE_BYTES <= fileSize ==> 1 <= peerCount)
    requires |received| == |Plan(peerCount, fileSize)|
    ensures var r := Downloaded(files, fileName, peerCount, fileSize, received);
            && fileName in r
            && if fileSize < MINIMUM_FILE_SIZE_BYTES then r[fileName] == Received(received[0])
               else r[fileName] == Existing(files, fileName) + Concat(ReceivedParts(received))
  {
    var tasks := Plan(peerCount, fileSize);
    if fileSize < MINIMUM_FILE_SIZE_BYTES {
      assert PartNames(fileName, tasks) == [fileName];
    } else {
      var parts := WithParts(files, fileName, tasks, received);
      SplitParts(files, fileName, peerCount, fileSize, received);
      SplitPartNamesDistinct(fileName, peerCount, fileSize);
      WrittenKeeps(files, PartNames(fileName, tasks), ReceivedParts(received), peerCount, fileName);
      assert PartsInOrder(parts, fileName, peerCount, peerCount) == ReceivedParts(received);
    }
  }

  /**
   * The download round trip: when every worker receives exactly its range of
   * `src` and the destination starts empty, the destination ends up as `src`.
   */
  lemma DownloadRoundTrip(files: map<string, Bytes>, fileName: string, peerCount: int, src: Bytes,
                          received: seq<seq<Bytes>>)
    requires MINIMUM_FILE_SIZE_BYTES <= |src| ==> 1 <= peerCount
    requires |received| == |Plan(peerCount, |src|)|
    requires Existing(files, fileName) == []
    requires forall i :: 0 <= i < |received| ==> HoldsRange(Received(received[i]), src, Plan(peerCount, |src|)[i])
    ensures Downloaded(files, fileName, peerCount, |src|, received)[fileName] == src
  {
    var tasks := Plan(peerCount, |src|);
    var parts := ReceivedParts(received);
    DownloadedDestination(files, fileName, peerCount, |src|, received);
    PlanCovers(peerCount, |src|);
    ConcatOfRanges(src, tasks, parts, |src|);
    if |src| < MINIMUM_FILE_SIZE_BYTES {
      assert parts == [Received(received[0])];
      assert Concat(parts) == Concat([]) + Received(received[0]);
    }
  }
}
