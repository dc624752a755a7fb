/**
 * The tracker's registry (class SharedData): which peers own which file, the
 * size first reported for each file, and the tracker-wide pending-request
 * slot (requested file, asking peer, number of owners still to signal).
 *
 * `Snapshot` is the registry's state as a value; the functions over it state
 * what each operation does, and the class `SharedData` holds the same state in
 * fields that its methods update in place.
 */
module Registry {
  import opened Wire

  datatype Snapshot = Snapshot(
    owners: map<string, set<string>>,  // file name -> addresses of its owners
    sizes: map<string, int>,           // file name -> size first reported
    requestedFile: string,
    askingPeer: string,
    requestAvailable: bool,
    peerCount: int)                    // owners still to be signalled

  const EMPTY := Snapshot(map[], map[], "", "", false, 0)

  /** Both maps know the same files, and every known file has an owner. */
  predicate CatalogValid(s: Snapshot)
  {
    && s.owners.Keys == s.sizes.Keys
    && forall f :: f in s.owners ==> s.owners[f] != {}
  }

  /** A request is pending exactly while some owner is still to be signalled. */
  predicate SlotValid(s: Snapshot)
  {
    s.peerCount >= 0 && (s.requestAvailable <==> s.peerCount > 0)
  }

  /** The file of a pending request is a known file. */
  predicate PendingKnown(s: Snapshot)
  {
    s.requestAvailable ==> s.requestedFile in s.owners
  }

  predicate Consistent(s: Snapshot)
  {
    CatalogValid(s) && SlotValid(s) && PendingKnown(s)
  }

  /** From `s` to `t` no file, owner or recorded size is lost or changed. */
  predicate Grows(s: Snapshot, t: Snapshot)
  {
    && (forall f :: f in s.owners ==> f in t.owners && s.owners[f] <= t.owners[f])
    && (forall f :: f in s.sizes ==> f in t.sizes && t.sizes[f] == s.sizes[f])
  }

  /** The pending-request slot of `t` is that of `s`. */
  predicate SameSlot(s: Snapshot, t: Snapshot)
  {
    && t.requestedFile == s.requestedFile && t.askingPeer == s.askingPeer
    && t.requestAvailable == s.requestAvailable && t.peerCount == s.peerCount
  }

  /** getFileOwners: the owner set, or None (null) for an unknown file. */
  function OwnersOf(s: Snapshot, fileName: string): (r: Option<set<string>>)
    ensures r.Some? <==> fileName in s.owners
    ensures r.Some? ==> r.value == s.owners[fileName]
    ensures CatalogValid(s) && r.Some? ==> r.value != {}
  {
    if fileName in s.owners then Some(s.owners[fileName]) else None
  }

  /** getPeerCount: the number of owners, or 0 for an unknown file. */
  function OwnerCount(s: Snapshot, fileName: string): (n: nat)
    ensures fileName in s.owners ==> n == |s.owners[fileName]|
    ensures fileName !in s.owners ==> n == 0
    ensures CatalogValid(s) ==> (n != 0 <==> fileName in s.owners)
  {
    if fileName in s.owners then |s.owners[fileName]| else 0
  }

  /** getFileSize: the recorded size, or 0 for an unknown file. */
  function SizeOf(s: Snapshot, fileName: string): (z: int)
    ensures fileName in s.sizes ==> z == s.sizes[fileName]
    ensures fileName !in s.sizes ==> z == 0
  {
    if fileName in s.sizes then s.sizes[fileName] else 0
  }

  /**
   * addFileInfo: record `fileOwner` as an owner of `fileName`; the size is
   * recorded only when the file is new.  The flag tells whether the owner was
   * new to the file's owner set.
   */
  function AddOwner(s: Snapshot, fileOwner: string, fileName: string, fileSize: int): (r: (Snapshot, bool))
    ensures r.1 <==> !(fileName in s.owners && fileOwner in s.owners[fileName])
    ensures fileName in r.0.owners && fileOwner in r.0.owners[fileName]
    ensures r.0.owners == s.owners[fileName := (if fileName in s.owners then s.owners[fileName] else {}) + {fileOwner}]
    ensures CatalogValid(s) ==> CatalogValid(r.0) && Grows(s, r.0)
    ensures CatalogValid(s) ==> r.0.sizes == if fileName in s.sizes then s.sizes else s.sizes[fileName := fileSize]
    ensures SameSlot(s, r.0)
  {
    var t := if fileName !in s.owners
             then s.(owners := s.owners[fileName := {}], sizes := s.sizes[fileName := fileSize])
             else s;
    (t.(owners := t.owners[fileName := t.owners[fileName] + {fileOwner}]), fileOwner !in t.owners[fileName])
  }

  /**
   * setFileRequest: install a request only when no owner is still to be
   * signalled; otherwise nothing changes.
   */
  function TrySetRequest(s: Snapshot, fileName: string, peer: string, count: int): (r: (Snapshot, bool))
    ensures r.1 <==> s.peerCount == 0
    ensures r.1 ==> r.0 == s.(requestedFile := fileName, askingPeer := peer, requestAvailable := true, peerCount := count)
    ensures !r.1 ==> r.0 == s
    ensures SlotValid(s) && s.requestAvailable ==> !r.1
    ensures SlotValid(s) && count > 0 ==> SlotValid(r.0)
  {
    if s.peerCount == 0 then
      (s.(requestedFile := fileName, askingPeer := peer, requestAvailable := true, peerCount := count), true)
    else
      (s, false)
  }

  /**
   * decrementPeerCount: one owner has been signalled; the request stops being
   * pending when the last one has.
   */
  function Ack(s: Snapshot): (t: Snapshot)
    ensures t.peerCount == s.peerCount - 1
    ensures t.requestAvailable == (s.requestAvailable && t.peerCount != 0)
    ensures t.owners == s.owners && t.sizes == s.sizes
    ensures t.requestedFile == s.requestedFile && t.askingPeer == s.askingPeer
    ensures SlotValid(s) && s.peerCount > 0 ==> SlotValid(t)
  {
    var n := s.peerCount - 1;
    s.(peerCount := n, requestAvailable := if n == 0 then false else s.requestAvailable)
  }

  /** `k` acknowledgements in a row. */
  function Acks(s: Snapshot, k: nat): Snapshot
    decreases k
  {
    if k == 0 then s else Ack(Acks(s, k - 1))
  }

  lemma {:induction false} AcksCount(s: Snapshot, k: nat)
    requires SlotValid(s) && k <= s.peerCount
    ensures Acks(s, k) == s.(peerCount := s.peerCount - k,
                             requestAvailable := s.requestAvailable && k < s.peerCount)
    decreases k
  {
    if k > 0 {
      AcksCount(s, k - 1);
    }
  }

  /**
   * Single pending slot: once a request for `count` owners is installed, every
   * other request is refused until exactly `count` acknowledgements have
   * been made, and the next one is then accepted.
   */
  lemma RequestExclusion(s: Snapshot, fileName: string, peer: string, count: nat,
                         k: nat, otherFile: string, otherPeer: string, otherCount: int)
    requires SlotValid(s) && !s.requestAvailable && count > 0 && k <= count
    ensures var t := Acks(TrySetRequest(s, fileName, peer, count).0, k);
            && SlotValid(t)
            && (t.requestAvailable <==> k < count)
            && (TrySetRequest(t, otherFile, otherPeer, otherCount).1 <==> k == count)
  {
    var installed := TrySetRequest(s, fileName, peer, count).0;
    AcksCount(installed, k);
  }

  /** The tracker's registry, updated in place. */
  class SharedData {
    var fileOwnershipData: map<string, set<string>>
    var fileSizeData: map<string, int>
    var requestedFile: string
    var askingPeer: string
    var requestAvailable: bool
    var peerCount: int

    function Snap(): Snapshot
      reads this
    {
      Snapshot(fileOwnershipData, fileSizeData, requestedFile, askingPeer, requestAvailable, peerCount)
    }

    constructor ()
      ensures Snap() == EMPTY
    {
      fileOwnershipData := map[];
      fileSizeData := map[];
      requestedFile := "";
      askingPeer := "";
      requestAvailable := false;
      peerCount := 0;
    }

    method AddFileInfo(fileOwner: string, fileName: string, fileSize: int) returns (added: bool)
      modifies this
      ensures (Snap(), added) == AddOwner(old(Snap()), fileOwner, fileName, fileSize)
    {
      if fileName !in fileOwnershipData {
        fileOwnershipData := fileOwnershipData[fileName := {}];
        fileSizeData := fileSizeData[fileName := fileSize];
      }
      added := fileOwner !in fileOwnershipData[fileName];
      fileOwnershipData := fileOwnershipData[fileName := fileOwnershipData[fileName] + {fileOwner}];
    }

    function GetFileOwners(fileName: string): (r: Option<set<string>>)
      reads this
      ensures r.Some? <==> fileName in fileOwnershipData
      ensures r.Some? ==> r.value == fileOwnershipData[fileName]
    {
      OwnersOf(Snap(), fileName)
    }

    function GetPeerCount(fileName: string): (n: nat)
      reads this
      ensures n == if fileName in fileOwnershipData then |fileOwnershipData[fileName]| else 0
    {
      OwnerCount(Snap(), fileName)
    }

    function GetFileSize(fileName: string): (z: int)
      reads this
      ensures z == if fileName in fileSizeData then fileSizeData[fileName] else 0
    {
      SizeOf(Snap(), fileName)
    }

    /** While the slot is valid, a request is pending exactly when an owner is still to be signalled. */
    function IsNewRequestAvailable(): (b: bool)
      reads this
      ensures SlotValid(Snap()) ==> (b <==> peerCount > 0)
    {
      requestAvailable
    }

    function GetRequestedFile(): string
      reads this
    {
      requestedFile
    }

    function GetAskingPeer(): string
      reads this
    {
      askingPeer
    }

    method SetFileRequest(fileName: string, peerInetAddress: string, count: int) returns (installed: bool)
      modifies this
      ensures (Snap(), installed) == TrySetRequest(old(Snap()), fileName, peerInetAddress, count)
    {
      if peerCount == 0 {
        requestedFile := fileName;
        askingPeer := peerInetAddress;
        requestAvailable := true;
        peerCount := count;
        installed := true;
      } else {
        installed := false;
      }
    }

    method DecrementPeerCount()
      modifies this
      ensures Snap() == Ack(old(Snap()))
    {
      peerCount := peerCount - 1;
      if peerCount == 0 {
        requestAvailable := false;
      }
    }
  }
}
