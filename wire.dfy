/**
 * The two wire protocols of the tracker-plus-peers system, at the level of
 * single `java.io.DataOutputStream` writes.
 *
 * A `Token` is one write (or the matching read on the other side).  The byte
 * framing of those writes (big-endian integers, modified UTF-8 strings) is
 * abstracted away; reading a token of the wrong kind, or reading past the end
 * of the stream, is a failed read (an `IOException` in the source).
 */
module Wire {

  datatype Option<T> = None | Some(value: T)

  /** One value written on (or read from) a connection. */
  datatype Token =
    | Write(b: int)        // write(byte): command codes and replies
    | WriteInt(i: int)     // writeInt
    | WriteLong(l: int)    // writeLong
    | WriteUTF(s: string)  // writeUTF

  // Tracker commands (the same codes on both sides of the connection).
  const GET_FILE_LIST := 1
  const GET_PEER_STATUS := 2
  const COMMUNICATE_WITH_PEER := 3

  // Peer replies to GET_PEER_STATUS.
  const STATE_IDLE := 0
  const STATE_FILE_LIST_UPDATED := 1
  const STATE_FILE_REQUIRED := 2
  const STATE_TERMINATE := 3

  // Tracker replies to a file-required status.
  const FILE_AVAILABLE := 1
  const FILE_NOT_AVAILABLE := 0

  /** The file name that terminates a catalog listing. */
  const END_OF_LIST := "end"

  /** The (name, size) pairs of a catalog listing, as written by the peer. */
  function PairTokens(entries: seq<(string, int)>): (ts: seq<Token>)
    ensures |ts| == 2 * |entries|
    ensures forall i :: 0 <= i < |entries| ==>
              ts[2 * i] == WriteUTF(entries[i].0) && ts[2 * i + 1] == WriteLong(entries[i].1)
  {
    if entries == [] then []
    else [WriteUTF(entries[0].0), WriteLong(entries[0].1)] + PairTokens(entries[1..])
  }

  /** A whole catalog listing: the pairs, then the sentinel name. */
  function ListingTokens(entries: seq<(string, int)>): (ts: seq<Token>)
    ensures |ts| == 2 * |entries| + 1 && ts[2 * |entries|] == WriteUTF(END_OF_LIST)
  {
    PairTokens(entries) + [WriteUTF(END_OF_LIST)]
  }

  lemma {:induction false} PairTokensAppend(entries: seq<(string, int)>, e: (string, int))
    ensures PairTokens(entries + [e]) == PairTokens(entries) + [WriteUTF(e.0), WriteLong(e.1)]
    decreases |entries|
  {
    if entries != [] {
      assert (entries + [e])[1..] == entries[1..] + [e];
      PairTokensAppend(entries[1..], e);
    }
  }

  /**
   * The pairs the tracker reads from a listing: a name, then a size, again and
   * again, until the name read is the sentinel or a read fails.
   */
  function ReadListing(ts: seq<Token>): (entries: seq<(string, int)>)
    ensures 2 * |entries| <= |ts|
    ensures forall i :: 0 <= i < |entries| ==> entries[i].0 != END_OF_LIST
    ensures forall i :: 0 <= i < |entries| ==>
              ts[2 * i] == WriteUTF(entries[i].0) && ts[2 * i + 1] == WriteLong(entries[i].1)
    // reading stops only at the name "end" or at a token that cannot be read
    ensures 2 * |entries| + 2 <= |ts| ==>
              !(ts[2 * |entries|].WriteUTF? && ts[2 * |entries|].s != END_OF_LIST && ts[2 * |entries| + 1].WriteLong?)
    decreases |ts|
  {
    if 2 <= |ts| && ts[0].WriteUTF? && ts[0].s != END_OF_LIST && ts[1].WriteLong? then
      [(ts[0].s, ts[1].l)] + ReadListing(ts[2..])
    else
      []
  }

  /** The longest prefix of `entries` in which no name is the sentinel. */
  function BeforeSentinel(entries: seq<(string, int)>): (p: seq<(string, int)>)
    ensures |p| <= |entries| && p == entries[..|p|]
    ensures forall i :: 0 <= i < |p| ==> p[i].0 != END_OF_LIST
    ensures |p| < |entries| ==> entries[|p|].0 == END_OF_LIST
    decreases |entries|
  {
    if entries == [] || entries[0].0 == END_OF_LIST then []
    else [entries[0]] + BeforeSentinel(entries[1..])
  }

  /**
   * Reading back a listing yields the written pairs up to the first one whose
   * name is the sentinel itself: a file called "end" hides the rest.
   */
  lemma {:induction false} ReadListingOfListing(entries: seq<(string, int)>, rest: seq<Token>)
    ensures ReadListing(ListingTokens(entries) + rest) == BeforeSentinel(entries)
    decreases |entries|
  {
    var ts := ListingTokens(entries) + rest;
    if entries == [] {
    } else if entries[0].0 == END_OF_LIST {
    } else {
      assert ts[2..] == ListingTokens(entries[1..]) + rest;
      ReadListingOfListing(entries[1..], rest);
    }
  }

  /** The listing round trip holds exactly when no catalog name is "end". */
  lemma ListingRoundTrip(entries: seq<(string, int)>, rest: seq<Token>)
    ensures ReadListing(ListingTokens(entries) + rest) == entries
            <==> forall i :: 0 <= i < |entries| ==> entries[i].0 != END_OF_LIST
  {
    ReadListingOfListing(entries, rest);
  }

  /** The range request a receiving worker sends: file name, offset, byte count. */
  function RequestHeader(fileName: string, offset: int, requiredBytes: int): (ts: seq<Token>)
    ensures |ts| == 3 && ts[0].WriteUTF? && ts[1].WriteLong? && ts[2].WriteLong?
  {
    [WriteUTF(fileName), WriteLong(offset), WriteLong(requiredBytes)]
  }

  /** How the serving peer reads a range request: readUTF, readLong, readLong. */
  function ReadRequestHeader(ts: seq<Token>): (r: Option<(string, int, int)>)
    ensures r.Some? <==> 3 <= |ts| && ts[0].WriteUTF? && ts[1].WriteLong? && ts[2].WriteLong?
    ensures r.Some? ==> ts[..3] == RequestHeader(r.value.0, r.value.1, r.value.2)
  {
    if 3 <= |ts| && ts[0].WriteUTF? && ts[1].WriteLong? && ts[2].WriteLong? then
      Some((ts[0].s, ts[1].l, ts[2].l))
    else
      None
  }

  lemma RequestHeaderRoundTrip(fileName: string, offset: int, requiredBytes: int, rest: seq<Token>)
    ensures ReadRequestHeader(RequestHeader(fileName, offset, requiredBytes) + rest)
            == Some((fileName, offset, requiredBytes))
  {
  }
}
