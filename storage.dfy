/**
 * File contents and the local file system, shared by the download workers
 * and the reassembly step of a peer.
 */
module Storage {

  type Bytes = seq<bv8>

  /** Size of the copy buffers used on both sides of a range transfer. */
  const BUFFER_SIZE := 512

  /** The chunks of a stream, one after the other. */
  function Concat(chunks: seq<Bytes>): (r: Bytes)
    decreases |chunks|
  {
    if chunks == [] then [] else Concat(chunks[..|chunks| - 1]) + chunks[|chunks| - 1]
  }

  lemma {:induction false} ConcatAppend(chunks: seq<Bytes>, c: Bytes)
    ensures Concat(chunks + [c]) == Concat(chunks) + c
  {
    assert (chunks + [c])[..|chunks|] == chunks;
  }

  lemma TakeOneMore<T>(s: seq<T>, i: nat)
    requires i < |s|
    ensures s[..i + 1] == s[..i] + [s[i]]
  {
  }

  lemma PrefixAndLast<T>(s: seq<T>, prefix: seq<T>, x: T)
    requires 0 < |s| && prefix == s[..|s| - 1] && x == s[|s| - 1]
    ensures prefix + [x] == s
  {
  }

  lemma TakeAll<T>(s: seq<T>)
    ensures s[..|s|] == s
  {
  }

  lemma AppendAssociative<T>(a: seq<T>, b: seq<T>, c: seq<T>)
    ensures a + b + c == a + (b + c)
  {
  }

  /**
   * The number of read calls that returned data before the first read that
   * returned nothing (end of stream).
   */
  function LeadingReads(results: seq<Bytes>): (k: nat)
    ensures k <= |results|
    ensures forall i :: 0 <= i < k ==> results[i] != []
    ensures k < |results| ==> results[k] == []
    decreases |results|
  {
    if results == [] || results[0] == [] then 0 else 1 + LeadingReads(results[1..])
  }

  /** What a reader that stops at the first empty read collects. */
  function Received(results: seq<Bytes>): Bytes
  {
    Concat(results[..LeadingReads(results)])
  }

  /** A reader that stops at the first empty read, after `k` non-empty ones, has made `LeadingReads` reads. */
  lemma LeadingReadsAt(results: seq<Bytes>, k: nat)
    requires k <= |results|
    requires forall i :: 0 <= i < k ==> results[i] != []
    requires k < |results| ==> results[k] == []
    ensures LeadingReads(results) == k
  {
  }

  /** Every read returns data except possibly the last one, which may report the end of the stream. */
  predicate ReadsUntilEnd(results: seq<Bytes>)
  {
    forall i :: 0 <= i < |results| - 1 ==> results[i] != []
  }

  /** When only the last read may be empty, the reader collects everything. */
  lemma ReceivedAll(results: seq<Bytes>)
    requires ReadsUntilEnd(results)
    ensures Received(results) == Concat(results)
  {
    var k := LeadingReads(results);
    TakeAll(results);
    if k < |results| {
      assert k + 1 == |results|;
      TakeOneMore(results, k);
      ConcatAppend(results[..k], results[k]);
      assert Concat(results[..k]) + results[k] == Concat(results[..k]);
    }
  }

  /** `File.length()`: the size of the file at `path`, or 0 when there is none. */
  function LengthOf(files: map<string, Bytes>, path: string): (n: nat)
    ensures path in files ==> n == |files[path]|
    ensures path !in files ==> n == 0
  {
    if path in files then |files[path]| else 0
  }

  /** The file system of one peer: path to content. */
  class Disk {
    var files: map<string, Bytes>

    constructor (files: map<string, Bytes>)
      ensures this.files == files
    {
      this.files := files;
    }
  }
}
