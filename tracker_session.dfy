/**
 * The tracker's per-peer session (class TrackerThread): it asks the peer for
 * its catalog, then polls the peer's status again and again; after each
 * reply it checks whether the pending request of some other peer is for a
 * file this peer owns, and if so tells this peer to connect to the asker.
 *
 * The functions below state one session step on registry values; the class
 * performs the same step on the shared registry object and records every
 * token it writes to its peer.
 */
module TrackerSession {
  import opened Wire
  import opened Registry

  /**
   * A reply byte, as `(byte) read()` yields it, that none of the switch's cases
   * names; -1 is the end of the stream.
   */
  type OtherReply = c: int | -128 <= c < 128 && c != STATE_IDLE && c != STATE_FILE_LIST_UPDATED
                             && c != STATE_FILE_REQUIRED && c != STATE_TERMINATE
    witness -1

  /** A status reply as read from the peer, with the data that follows it. */
  datatype Reply =
    | Idle
    | FileListUpdated(listing: seq<Token>)  // the listing sent after GET_FILE_LIST
    | FileRequired(fileName: string)
    | Terminate
    | Unrecognised(code: OtherReply)

  /** receiveFileList: addFileInfo(peer, name, size) for each pair, in order. */
  function Ingest(s: Snapshot, peer: string, entries: seq<(string, int)>): (t: Snapshot)
    ensures SameSlot(s, t)
    ensures CatalogValid(s) ==> CatalogValid(t) && Grows(s, t)
    decreases |entries|
  {
    if entries == [] then s
    else Ingest(AddOwner(s, peer, entries[0].0, entries[0].1).0, peer, entries[1..])
  }

  /** Some pair of the listing names file `f`. */
  predicate Listed(entries: seq<(string, int)>, f: string)
  {
    exists i :: 0 <= i < |entries| && entries[i].0 == f
  }

  lemma ListedCons(entries: seq<(string, int)>, f: string)
    requires entries != []
    ensures Listed(entries, f) <==> entries[0].0 == f || Listed(entries[1..], f)
  {
    if Listed(entries[1..], f) {
      var j :| 0 <= j < |entries[1..]| && entries[1..][j].0 == f;
      assert entries[j + 1].0 == f;
    }
    if Listed(entries, f) && entries[0].0 != f {
      var j :| 0 <= j < |entries| && entries[j].0 == f;
      assert entries[1..][j - 1].0 == f;
    }
  }

  /**
   * After the listing, the known files are the old ones and the listed ones,
   * and each file's owners are its old owners plus the peer exactly when the
   * listing names it: the peer owns every file it listed, no owner is lost,
   * and nobody else is added.
   */
  lemma {:induction false} IngestOwners(s: Snapshot, peer: string, entries: seq<(string, int)>)
    ensures var t := Ingest(s, peer, entries);
            && (forall f :: f in t.owners <==> f in s.owners || Listed(entries, f))
            && (forall f :: f in t.owners ==>
                  t.owners[f] == (if f in s.owners then s.owners[f] else {}) + (if Listed(entries, f) then {peer} else {}))
            && (forall i :: 0 <= i < |entries| ==> entries[i].0 in t.owners && peer in t.owners[entries[i].0])
    decreases |entries|
  {
    var t := Ingest(s, peer, entries);
    if entries == [] {
      assert forall f :: !Listed(entries, f);
    } else {
      var s1 := AddOwner(s, peer, entries[0].0, entries[0].1).0;
      var rest := entries[1..];
      IngestOwners(s1, peer, rest);
      assert t == Ingest(s1, peer, rest);
      forall f
        ensures Listed(entries, f) <==> entries[0].0 == f || Listed(rest, f)
      {
        ListedCons(entries, f);
      }
      forall i | 0 <= i < |entries|
        ensures Listed(entries, entries[i].0)
      {
      }
    }
  }

  /**
   * A file unknown before the listing gets the size of its first pair in the
   * listing; later pairs for the same name do not change it.
   */
  lemma {:induction false} IngestFirstSize(s: Snapshot, peer: string, entries: seq<(string, int)>, k: nat)
    requires CatalogValid(s)
    requires k < |entries| && entries[k].0 !in s.owners
    requires forall j :: 0 <= j < k ==> entries[j].0 != entries[k].0
    ensures var t := Ingest(s, peer, entries);
            entries[k].0 in t.sizes && t.sizes[entries[k].0] == entries[k].1
    decreases k
  {
    var s1 := AddOwner(s, peer, entries[0].0, entries[0].1).0;
    var rest := entries[1..];
    assert Ingest(s, peer, entries) == Ingest(s1, peer, rest);
    if k > 0 {
      assert rest[k - 1] == entries[k];
      forall j | 0 <= j < k - 1
        ensures rest[j].0 != rest[k - 1].0
      {
        assert rest[j] == entries[j + 1];
      }
      IngestFirstSize(s1, peer, rest, k - 1);
    }
  }

  /** What one reply leads to before the arbitration check. */
  datatype Outcome = Outcome(state: Snapshot, sent: seq<Token>, terminate: bool)

  /**
   * The source retries setFileRequest until it succeeds; a sequential model
   * takes the retry to have succeeded at once, which needs a free slot.
   */
  predicate CanInstall(s: Snapshot, reply: Reply)
  {
    reply.FileRequired? && OwnerCount(s, reply.fileName) != 0 ==> s.peerCount == 0
  }

  /** The switch on the peer's reply. */
  function Dispatch(s: Snapshot, peer: string, reply: Reply): (r: Outcome)
    requires Consistent(s) && CanInstall(s, reply)
    ensures Consistent(r.state) && Grows(s, r.state)
    ensures r.terminate <==> reply.Terminate?
    ensures reply.Idle? || reply.Unrecognised? || reply.Terminate? ==> r.state == s && r.sent == []
    ensures reply.FileListUpdated? ==>
              && r.sent == [Write(GET_FILE_LIST)]
              && r.state == Ingest(s, peer, ReadListing(reply.listing))
    ensures reply.FileRequired? && reply.fileName !in s.owners ==>
              r.sent == [Write(FILE_NOT_AVAILABLE)] && r.state == s
    ensures reply.FileRequired? && reply.fileName in s.owners ==>
              && r.sent == [Write(FILE_AVAILABLE), WriteInt(|s.owners[reply.fileName]|),
                            WriteLong(s.sizes[reply.fileName])]
              && r.state == s.(requestedFile := reply.fileName, askingPeer := peer,
                               requestAvailable := true, peerCount := |s.owners[reply.fileName]|)
  {
    match reply
    case Idle => Outcome(s, [], false)
    case FileListUpdated(listing) =>
      Outcome(Ingest(s, peer, ReadListing(listing)), [Write(GET_FILE_LIST)], false)
    case FileRequired(fileName) =>
      var count := OwnerCount(s, fileName);
      if count != 0 then
        Outcome(TrySetRequest(s, fileName, peer, count).0,
                [Write(FILE_AVAILABLE), WriteInt(count), WriteLong(SizeOf(s, fileName))], false)
      else
        Outcome(s, [Write(FILE_NOT_AVAILABLE)], false)
    case Terminate => Outcome(s, [], true)
    case Unrecognised(_) => Outcome(s, [], false)
  }

  /** Some other peer's request is pending for a file this peer owns. */
  predicate Fires(s: Snapshot, peer: string)
    requires PendingKnown(s)
  {
    s.requestAvailable && s.askingPeer != peer && peer in s.owners[s.requestedFile]
  }

  /**
   * The arbitration check that follows every reply.  When it fires on an open
   * connection, the peer is told to connect to the asker and one owner is
   * acknowledged.  After a TERMINATE reply the connection is already closed:
   * the command write fails silently and the address write fails with an
   * exception that ends the session before the acknowledgement.
   */
  function Arbitrate(s: Snapshot, peer: string, connected: bool): (r: (Snapshot, seq<Token>))
    requires Consistent(s)
    ensures Consistent(r.0) && r.0.owners == s.owners && r.0.sizes == s.sizes
    ensures Fires(s, peer) && connected ==>
              r.1 == [Write(COMMUNICATE_WITH_PEER), WriteUTF(s.askingPeer)] && r.0 == Ack(s)
    ensures !(Fires(s, peer) && connected) ==> r == (s, [])
  {
    if !s.requestAvailable then (s, [])
    else
      var requestedFile := s.requestedFile;
      var askingPeer := s.askingPeer;
      if askingPeer == peer then (s, [])
      else
        // the pending file is always known, so its owner set is never null
        var hs := OwnersOf(s, requestedFile).value;
        if peer !in hs || !connected then (s, [])
        else (Ack(s), [Write(COMMUNICATE_WITH_PEER), WriteUTF(askingPeer)])
  }

  /** One peer's session on the tracker. */
  class TrackerThread {
    const sharedData: SharedData
    const peerInetAddress: string
    var sent: seq<Token>  // every token written to the peer, in order
    var started: bool     // the initial catalog has been requested and read
    var terminateFlag: bool

    ghost predicate Valid()
      reads this, sharedData
    {
      && Consistent(sharedData.Snap())
      && (started <==> sent != [])
      && (started ==> sent[0] == Write(GET_FILE_LIST))
    }

    constructor (sharedData: SharedData, peerInetAddress: string)
      ensures this.sharedData == sharedData && this.peerInetAddress == peerInetAddress
      ensures sent == [] && !started && !terminateFlag
    {
      this.sharedData := sharedData;
      this.peerInetAddress := peerInetAddress;
      sent := [];
      started := false;
      terminateFlag := false;
    }

    /** Reads (name, size) pairs until the name "end" or a failed read. */
    method ReceiveFileList(listing: seq<Token>)
      modifies sharedData
      ensures sharedData.Snap() == Ingest(old(sharedData.Snap()), peerInetAddress, ReadListing(listing))
    {
      var i := 0;
      while true
        invariant 0 <= i <= |listing|
        invariant Ingest(sharedData.Snap(), peerInetAddress, ReadListing(listing[i..]))
                  == Ingest(old(sharedData.Snap()), peerInetAddress, ReadListing(listing))
        decreases |listing| - i
      {
        if i == |listing| || !listing[i].WriteUTF? {
          break;  // readUTF fails
        }
        var fileName := listing[i].s;
        if fileName == END_OF_LIST {
          break;
        }
        if i + 1 == |listing| || !listing[i + 1].WriteLong? {
          break;  // readLong fails
        }
        var fileSize := listing[i + 1].l;
        assert listing[i..][2..] == listing[i + 2..];
        var _ := sharedData.AddFileInfo(peerInetAddress, fileName, fileSize);
        i := i + 2;
      }
    }

    /** The start of run(): request the catalog and read it, before any poll. */
    method Start(listing: seq<Token>)
      requires Valid() && !started && !terminateFlag
      modifies this, sharedData
      ensures Valid() && started && !terminateFlag
      ensures sent == [Write(GET_FILE_LIST)]
      ensures sharedData.Snap() == Ingest(old(sharedData.Snap()), peerInetAddress, ReadListing(listing))
    {
      sent := sent + [Write(GET_FILE_LIST)];
      ReceiveFileList(listing);
      started := true;
    }

    /** One iteration of the polling loop of run(): poll, handle the reply, then the arbitration check. */
    method Step(reply: Reply)
      requires Valid() && started && !terminateFlag
      requires CanInstall(sharedData.Snap(), reply)
      modifies this, sharedData
      ensures Valid() && started
      ensures var d := Dispatch(old(sharedData.Snap()), peerInetAddress, reply);
              var a := Arbitrate(d.state, peerInetAddress, !d.terminate);
              && sent == old(sent) + [Write(GET_PEER_STATUS)] + d.sent + a.1
              && sharedData.Snap() == a.0
              && terminateFlag == d.terminate
    {
      sent := sent + [Write(GET_PEER_STATUS)];
      HandleReply(reply);
      CheckRequests();
    }

    /** The switch on the peer's reply. */
    method HandleReply(reply: Reply)
      requires Consistent(sharedData.Snap()) && CanInstall(sharedData.Snap(), reply)
      modifies this`sent, this`terminateFlag, sharedData
      ensures var d := Dispatch(old(sharedData.Snap()), peerInetAddress, reply);
              && sent == old(sent) + d.sent
              && sharedData.Snap() == d.state
              && terminateFlag == (old(terminateFlag) || d.terminate)
    {
      match reply {
        case Idle =>
        case FileListUpdated(listing) =>
          sent := sent + [Write(GET_FILE_LIST)];
          ReceiveFileList(listing);
        case FileRequired(requiredFile) =>
          var count := sharedData.GetPeerCount(requiredFile);
          if count != 0 {
            sent := sent + [Write(FILE_AVAILABLE), WriteInt(count), WriteLong(sharedData.GetFileSize(requiredFile))];
            var installed := sharedData.SetFileRequest(requiredFile, peerInetAddress, count);
            assert installed;
          } else {
            sent := sent + [Write(FILE_NOT_AVAILABLE)];
          }
        case Terminate =>
          terminateFlag := true;  // terminateConnection closes the connection
        case Unrecognised(_) =>
      }
    }

    /**
     * The check that follows every reply: when another peer's request is
     * pending for a file this peer owns, tell this peer to connect to the
     * asker and acknowledge one owner (not after a TERMINATE reply).
     */
    method CheckRequests()
      requires Consistent(sharedData.Snap())
      modifies this`sent, sharedData
      ensures var a := Arbitrate(old(sharedData.Snap()), peerInetAddress, !terminateFlag);
              sent == old(sent) + a.1 && sharedData.Snap() == a.0
    {
      if sharedData.IsNewRequestAvailable() {
        var requestedFile := sharedData.GetRequestedFile();
        var askingPeer := sharedData.GetAskingPeer();
        if askingPeer != peerInetAddress {
          var hs := sharedData.GetFileOwners(requestedFile);
          if peerInetAddress in hs.value && !terminateFlag {
            sent := sent + [Write(COMMUNICATE_WITH_PEER), WriteUTF(askingPeer)];
            sharedData.DecrementPeerCount();
          }
        }
      }
    }
  }
}
