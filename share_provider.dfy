/** The ScienceMesh share provider. Its state is the database tables it works
    on: sent shares (`share`), received shares (`share_external`), the
    opaque-id correlation table (`sciencemesh_shares`), remote users
    (`sciencemesh_users`) and the file cache it reads to resolve a file name or
    path to a file id. */
module ShareProvider {
  import opened Results
  import opened Seqs
  import opened Relations
  import opened PhpStrings
  import opened FederationIds
  import opened Shares

  /** The provider's identifier, which is also the provider id of every share
      object built from a `share_external` row. */
  const IDENTIFIER := "sciencemesh"
  /** `SHARE_TYPE_REMOTE` of the federated share provider. */
  const SHARE_TYPE_REMOTE := 6
  /** `IShare::TYPE_USER`: the share type written into every received share row. */
  const TYPE_USER := 0
  /** `IShare::STATUS_PENDING`: the acceptance state of a new received share. */
  const STATUS_PENDING := 0
  /** The share type the lookup of a received share by token filters on. */
  const RECEIVED_LOOKUP_SHARE_TYPE := 14
  /** The id `create` gives a share before the share is stored. */
  const PENDING_SHARE_ID := "will-set-this-later"

  /** `(permissions & PERMISSION_READ) !== 0` with `PERMISSION_READ = 1`: bit 0
      is set. Dafny's `%` is Euclidean, so this also matches PHP's
      two's-complement `&` on negative numbers. */
  predicate HasReadPermission(permissions: int) {
    permissions % 2 == 1
  }

  /** A row of `share`. The provider never writes the `name` column, so it is
      `None` (SQL `NULL`) in every row the provider inserts. */
  datatype ShareRow = ShareRow(
    id: nat, shareType: int, itemType: string, itemSource: int, fileSource: int,
    shareWith: string, uidOwner: string, uidInitiator: string, permissions: int,
    token: string, stime: int, fileTarget: string, name: Option<string>)

  /** A row of `share_external`. */
  datatype ExternalRow = ExternalRow(
    id: nat, shareType: int, remote: string, remoteId: string, shareToken: string,
    password: Option<string>, name: string, owner: Option<string>, user: string,
    mountpoint: string, mountpointHash: string, accepted: int)

  /** A row of `sciencemesh_shares`: an opaque id and the id of a row of
      `share_external` when `isExternal` holds, of `share` otherwise. */
  datatype Correlation = Correlation(opaqueId: string, foreignId: nat, isExternal: bool)

  /** A row of `sciencemesh_users`. */
  datatype MeshUserRow = MeshUserRow(id: nat, idp: string, opaqueId: string, userType: string)

  /** The columns of `filecache` the provider reads. */
  datatype FileCacheRow = FileCacheRow(fileId: int, name: string, path: string)

  /** The data of a share received from a peer; `password` may be absent. */
  datatype ReceivedShareData = ReceivedShareData(
    remote: string, remoteId: string, shareToken: string, password: Option<string>,
    name: string, owner: string, user: string)

  /** A remote user as `addScienceMeshUser` reads it. */
  datatype MeshUser = MeshUser(idp: string, opaqueId: string, userType: string)

  /** What `addScienceMeshShare` is given: the data of a received share, or a
      share object to store as a sent share. */
  datatype ShareData = ReceivedData(received: ReceivedShareData) | SentData(share: Share)

  /** A share object built from a database row. A field is `None` where the
      row has no such column and PHP reads `null`. */
  datatype ShareObject = ShareObject(
    id: int, shareType: int, shareOwner: Option<string>, sharedBy: Option<string>,
    token: Option<string>, sharedWith: Option<string>, providerId: string)

  /** The exceptions the provider throws. `ShareDataMismatch` stands for the
      PHP error raised when `addScienceMeshShare` gets share data of the other kind. */
  datatype Failure =
    | AlreadyShared
    | ReadPermissionMissing
    | InvalidShare
    | ShareNotFound
    | UnexpectedPeerResponse
    | ShareDataMismatch

  /** The peer's answer to a create-share call; every level may be unset. */
  datatype PeerOwner = PeerOwner(idp: Option<string>)
  datatype PeerShare = PeerShare(owner: Option<PeerOwner>)
  datatype PeerResponse = PeerResponse(share: Option<PeerShare>)

  /** `$response->share->owner->idp` when the response and every level of it are set. */
  function OwnerIdp(response: Option<PeerResponse>): Option<string> {
    match response
    case None => None
    case Some(resp) =>
      match resp.share
      case None => None
      case Some(share) =>
        match share.owner
        case None => None
        case Some(owner) => owner.idp
  }

  /** `createExternalShareObject` of a `share_external` row. */
  function ExternalShareObject(row: ExternalRow): (s: ShareObject)
    ensures s.id == row.id && s.shareType == row.shareType
    ensures s.shareOwner == row.owner && s.sharedBy == row.owner
    ensures s.token == Some(row.shareToken) && s.sharedWith == Some(row.user)
    ensures s.providerId == IDENTIFIER
  {
    ShareObject(row.id, row.shareType, row.owner, row.owner, Some(row.shareToken), Some(row.user), IDENTIFIER)
  }

  /** `createExternalShareObject` of a row joined from `share`: that table has
      no `owner`, `share_token` or `user` column, so those fields are `null`. */
  function SentRowAsExternalObject(row: ShareRow): (s: ShareObject)
    ensures s.id == row.id && s.shareType == row.shareType
    ensures s.shareOwner.None? && s.sharedBy.None? && s.token.None? && s.sharedWith.None?
    ensures s.providerId == IDENTIFIER
  {
    ShareObject(row.id, row.shareType, None, None, None, None, IDENTIFIER)
  }

  /** Two received rows give the same share object exactly when they agree on
      the columns `createExternalShareObject` reads. */
  lemma ExternalObjectsAgreeIff(a: ExternalRow, b: ExternalRow)
    ensures ExternalShareObject(a) == ExternalShareObject(b) <==>
      (&& a.id == b.id && a.shareType == b.shareType && a.owner == b.owner
       && a.shareToken == b.shareToken && a.user == b.user)
  {
  }

  /** An object built from a joined `share` row never equals one built from a
      `share_external` row: only the latter carries a token. */
  lemma JoinedObjectIsNotExternal(sent: ShareRow, received: ExternalRow)
    ensures SentRowAsExternalObject(sent) != ExternalShareObject(received)
  {
  }

  function ShareRowId(row: ShareRow): nat { row.id }
  function ExternalRowId(row: ExternalRow): nat { row.id }
  function MeshUserId(row: MeshUserRow): nat { row.id }
  function ForeignId(c: Correlation): nat { c.foreignId }

  /** The unique key of `share_external`. */
  function MountKey(row: ExternalRow): (string, string) { (row.user, row.mountpointHash) }

  /** The unique key of `sciencemesh_users`. */
  function IdentityKey(row: MeshUserRow): (string, string) { (row.idp, row.opaqueId) }

  function SameMount(user: string, mountpointHash: string): ExternalRow -> bool {
    (row: ExternalRow) => row.user == user && row.mountpointHash == mountpointHash
  }

  function SameIdentity(idp: string, opaqueId: string): MeshUserRow -> bool {
    (row: MeshUserRow) => row.idp == idp && row.opaqueId == opaqueId
  }

  /** `WHERE share_type = SHARE_TYPE_REMOTE AND (uid_initiator = u OR uid_owner = u)`. */
  function SentOrOwnedBy(userId: string): ShareRow -> bool {
    (row: ShareRow) => row.shareType == SHARE_TYPE_REMOTE && (row.uidInitiator == userId || row.uidOwner == userId)
  }

  function ReceivedBy(userId: string): ExternalRow -> bool {
    (row: ExternalRow) => row.user == userId
  }

  function OwnedShareOf(userId: string, fileId: int): ShareRow -> bool {
    (row: ShareRow) => row.uidOwner == userId && row.itemSource == fileId
  }

  function NotOwnedShareOf(userId: string, fileId: int): ShareRow -> bool {
    (row: ShareRow) => !(row.uidOwner == userId && row.itemSource == fileId)
  }

  function ReceivedWithToken(userId: string, token: string): ExternalRow -> bool {
    (row: ExternalRow) => row.user == userId && row.shareToken == token
  }

  function NotReceivedWithToken(userId: string, token: string): ExternalRow -> bool {
    (row: ExternalRow) => !(row.user == userId && row.shareToken == token)
  }

  function CorrelatedBy(opaqueId: string): Correlation -> bool {
    (c: Correlation) => c.opaqueId == opaqueId
  }

  /** The duplicate guard's query: a remote share of the file with the recipient. */
  function RemoteShareOf(shareWith: string, fileId: int): ShareRow -> bool {
    (row: ShareRow) => row.shareType == SHARE_TYPE_REMOTE && row.shareWith == shareWith && row.fileSource == fileId
  }

  predicate AlreadySharedWith(rows: seq<ShareRow>, shareWith: string, fileId: int) {
    exists row :: row in rows && RemoteShareOf(shareWith, fileId)(row)
  }

  /** At most one remote share per file and recipient. */
  ghost predicate NoDuplicateRemoteShares(rows: seq<ShareRow>) {
    forall i, j :: 0 <= i < j < |rows| && rows[i].shareType == SHARE_TYPE_REMOTE && rows[j].shareType == SHARE_TYPE_REMOTE
      ==> (rows[i].shareWith, rows[i].fileSource) != (rows[j].shareWith, rows[j].fileSource)
  }

  /** The `share_external` row written for received share data. */
  function ReceivedRow(id: nat, data: ReceivedShareData, md5: string -> string): ExternalRow {
    var mountpoint := MountPoint(data.name);
    ExternalRow(id, TYPE_USER, NormalizeRemote(data.remote), StoredRemoteId(data.remoteId),
      data.shareToken, data.password, data.name, Some(data.owner), data.user,
      mountpoint, md5(mountpoint), STATUS_PENDING)
  }

  /** `addReceivedShareToDB` on the table: insert-or-fetch keyed by the
      recipient and the hash of the mount point. Existing rows stay as they
      are, at most one row is added, and the id returned is that of a row for
      the recipient and mount point; a new row is pending, of type user, with a
      remote URL that has a scheme and a remote id without surrounding quotes. */
  function ReceiveShare(rows: seq<ExternalRow>, nextId: nat, data: ReceivedShareData, md5: string -> string)
    : (r: Inserted<ExternalRow>)
    ensures |rows| <= |r.rows| <= |rows| + 1 && r.rows[..|rows|] == rows
    ensures exists k :: (0 <= k < |r.rows| && r.rows[k].id == r.id
      && r.rows[k].user == data.user && r.rows[k].mountpointHash == md5(MountPoint(data.name)))
    ensures |r.rows| == |rows| + 1 ==>
      var row := r.rows[|rows|];
      && row.id == r.id == nextId && r.nextId == nextId + 1
      && row.accepted == STATUS_PENDING && row.shareType == TYPE_USER
      && row.remote == NormalizeRemote(data.remote) && HasHttpScheme(row.remote)
      && row.remoteId == StoredRemoteId(data.remoteId)
      && row.shareToken == data.shareToken && row.password == data.password
      && row.name == data.name && row.owner == Some(data.owner) && row.user == data.user
      && row.mountpoint == MountPoint(data.name) && row.mountpointHash == md5(row.mountpoint)
    ensures |r.rows| == |rows| ==> r.nextId == nextId
  {
    var hash := md5(MountPoint(data.name));
    var newRow := ReceivedRow(nextId, data, md5);
    var r := InsertOrFetch(rows, nextId, SameMount(data.user, hash), ExternalRowId, newRow);
    assert (rows + [newRow])[..|rows|] == rows;
    assert SameMount(data.user, hash)(newRow) && ExternalRowId(newRow) == nextId;
    var k :| 0 <= k < |r.rows| && SameMount(data.user, hash)(r.rows[k]) && ExternalRowId(r.rows[k]) == r.id;
    assert r.rows[k].id == r.id && r.rows[k].user == data.user && r.rows[k].mountpointHash == hash;
    r
  }

  /** Receiving the same share for the same user twice returns the same id and
      leaves one row. */
  lemma ReceiveShareTwice(rows: seq<ExternalRow>, nextId: nat, data: ReceivedShareData, md5: string -> string)
    ensures var r := ReceiveShare(rows, nextId, data, md5);
      ReceiveShare(r.rows, r.nextId, data, md5) == r
  {
    var r := ReceiveShare(rows, nextId, data, md5);
    var hash := md5(MountPoint(data.name));
    InsertOrFetchTwice(rows, nextId, SameMount(data.user, hash), ExternalRowId,
      ReceivedRow(nextId, data, md5), ReceivedRow(r.nextId, data, md5));
  }

  /** Receiving keeps the recipient and mount point hash unique. */
  lemma ReceiveShareKeepsMountsUnique(rows: seq<ExternalRow>, nextId: nat, data: ReceivedShareData, md5: string -> string)
    requires DistinctKeys(rows, MountKey)
    ensures DistinctKeys(ReceiveShare(rows, nextId, data, md5).rows, MountKey)
  {
    var hash := md5(MountPoint(data.name));
    InsertOrFetchKeepsKeysDistinct(rows, nextId, SameMount(data.user, hash), ExternalRowId,
      ReceivedRow(nextId, data, md5), MountKey);
  }

  /** `addScienceMeshUser` on the table: insert-or-fetch keyed by identity
      provider and opaque id. */
  function RegisterUser(rows: seq<MeshUserRow>, nextId: nat, user: MeshUser): (r: Inserted<MeshUserRow>)
    ensures |rows| <= |r.rows| <= |rows| + 1 && r.rows[..|rows|] == rows
    ensures exists k :: (0 <= k < |r.rows| && r.rows[k].id == r.id
      && r.rows[k].idp == user.idp && r.rows[k].opaqueId == user.opaqueId)
    ensures |r.rows| == |rows| + 1 ==>
      r.rows[|rows|] == MeshUserRow(nextId, user.idp, user.opaqueId, user.userType)
      && r.id == nextId && r.nextId == nextId + 1
    ensures |r.rows| == |rows| ==> r.nextId == nextId
  {
    var newRow := MeshUserRow(nextId, user.idp, user.opaqueId, user.userType);
    var r := InsertOrFetch(rows, nextId, SameIdentity(user.idp, user.opaqueId), MeshUserId, newRow);
    assert (rows + [newRow])[..|rows|] == rows;
    assert SameIdentity(user.idp, user.opaqueId)(newRow) && MeshUserId(newRow) == nextId;
    var k :| 0 <= k < |r.rows| && SameIdentity(user.idp, user.opaqueId)(r.rows[k]) && MeshUserId(r.rows[k]) == r.id;
    assert r.rows[k].id == r.id && r.rows[k].idp == user.idp && r.rows[k].opaqueId == user.opaqueId;
    r
  }

  /** Registering the same remote user twice returns the same id and leaves one row. */
  lemma RegisterUserTwice(rows: seq<MeshUserRow>, nextId: nat, user: MeshUser)
    ensures var r := RegisterUser(rows, nextId, user);
      RegisterUser(r.rows, r.nextId, user) == r
  {
    var r := RegisterUser(rows, nextId, user);
    InsertOrFetchTwice(rows, nextId, SameIdentity(user.idp, user.opaqueId), MeshUserId,
      MeshUserRow(nextId, user.idp, user.opaqueId, user.userType),
      MeshUserRow(r.nextId, user.idp, user.opaqueId, user.userType));
  }

  lemma RegisterUserKeepsIdentitiesUnique(rows: seq<MeshUserRow>, nextId: nat, user: MeshUser)
    requires DistinctKeys(rows, IdentityKey)
    ensures DistinctKeys(RegisterUser(rows, nextId, user).rows, IdentityKey)
  {
    InsertOrFetchKeepsKeysDistinct(rows, nextId, SameIdentity(user.idp, user.opaqueId), MeshUserId,
      MeshUserRow(nextId, user.idp, user.opaqueId, user.userType), IdentityKey);
  }

  /** The `share` row `createScienceMeshShare` writes for a share. */
  function SentRow(id: nat, share: Share, now: int): (row: ShareRow)
    reads share
    ensures RemoteShareOf(share.sharedWith, share.node.id)(row)
    ensures row.id == id && row.itemType == share.node.ItemType()
    ensures row.itemSource == share.node.id && row.fileSource == share.node.id
    ensures row.uidOwner == share.shareOwner && row.uidInitiator == share.sharedBy
    ensures row.permissions == share.permissions && row.token == share.token
    ensures row.stime == now && row.fileTarget == "" && row.name.None?
  {
    ShareRow(id, SHARE_TYPE_REMOTE, share.node.ItemType(), share.node.id, share.node.id,
             share.sharedWith, share.shareOwner, share.sharedBy, share.permissions, share.token, now, "", None)
  }

  /** `updateReceivedShare` on one row: the owner of the row with the share's id is replaced. */
  function WithOwner(id: int, owner: Option<string>): ExternalRow -> ExternalRow {
    (row: ExternalRow) => if row.id == id then row.(owner := owner) else row
  }

  /** `WHERE share_type = 14 AND share_token = t` on `share_external`. */
  function LookupTypeWithToken(token: string): ExternalRow -> bool {
    (row: ExternalRow) => row.shareType == RECEIVED_LOOKUP_SHARE_TYPE && row.shareToken == token
  }

  /** `WHERE name = n` on `share`. */
  function NamedShare(name: string): ShareRow -> bool {
    (row: ShareRow) => row.name == Some(name)
  }

  /** `WHERE token = t` on `share`. */
  function SentWithToken(token: string): ShareRow -> bool {
    (row: ShareRow) => row.token == token
  }

  function NamedFile(name: string): FileCacheRow -> bool {
    (e: FileCacheRow) => e.name == name
  }

  function FileAtPath(path: string): FileCacheRow -> bool {
    (e: FileCacheRow) => e.path == path
  }

  /** The file id of the first file cache entry that `p` accepts: how a name
      or a path is resolved to a file before its shares are looked up. */
  function FirstFileId(cache: seq<FileCacheRow>, p: FileCacheRow -> bool): (r: Option<int>)
    ensures r.None? <==> forall e :: e in cache ==> !p(e)
    ensures r.Some? ==>
      exists k :: (&& 0 <= k < |cache| && p(cache[k]) && cache[k].fileId == r.value
                   && forall j :: 0 <= j < k ==> !p(cache[j]))
  {
    match FirstWhere(cache, p)
    case None => None
    case Some(k) => Some(cache[k].fileId)
  }

  /** What `getSentShares` yields: a share object for each remote share the
      user created or owns that can be turned into one, in table order. */
  function SentSharesOf(rows: seq<ShareRow>, userId: string, convert: ShareRow -> Option<ShareObject>)
    : (r: seq<ShareObject>)
    ensures |r| <= |rows|
    ensures forall s :: s in r <==>
      exists row :: row in rows && row.shareType == SHARE_TYPE_REMOTE
        && (row.uidInitiator == userId || row.uidOwner == userId) && convert(row) == Some(s)
  {
    var cursor := Filter(rows, SentOrOwnedBy(userId));
    var r := Collect(cursor, convert);
    assert forall row :: row in cursor <==> row in rows && SentOrOwnedBy(userId)(row);
    r
  }

  class ScienceMeshShareProvider {
    var shares: seq<ShareRow>
    var externalShares: seq<ExternalRow>
    var correlations: seq<Correlation>
    var meshUsers: seq<MeshUserRow>
    var fileCache: seq<FileCacheRow>
    /** The next auto-increment ids of `share`, `share_external` and `sciencemesh_users`. */
    var nextShareId: nat
    var nextExternalId: nat
    var nextMeshUserId: nat
    /** PHP's `md5`. */
    const md5: string -> string
    /** The inherited `createShareObject`; `None` where it throws. */
    const createShareObject: ShareRow -> Option<ShareObject>

    /** Auto-increment ids are unique and below the counters; the unique
        indexes on `share_external` and `sciencemesh_users` hold. */
    ghost predicate Valid()
      reads this
    {
      && (forall row :: row in shares ==> row.id < nextShareId) && DistinctKeys(shares, ShareRowId)
      && (forall row :: row in externalShares ==> row.id < nextExternalId) && DistinctKeys(externalShares, ExternalRowId)
      && DistinctKeys(externalShares, MountKey)
      && (forall row :: row in meshUsers ==> row.id < nextMeshUserId) && DistinctKeys(meshUsers, MeshUserId)
      && DistinctKeys(meshUsers, IdentityKey)
    }

    /** A provider over empty share tables, a given correlation table and file cache. */
    constructor(md5: string -> string, createShareObject: ShareRow -> Option<ShareObject>,
                correlations: seq<Correlation>, fileCache: seq<FileCacheRow>)
      ensures Valid()
      ensures shares == [] && externalShares == [] && meshUsers == []
      ensures this.correlations == correlations && this.fileCache == fileCache
      ensures this.md5 == md5 && this.createShareObject == createShareObject
    {
      this.md5 := md5;
      this.createShareObject := createShareObject;
      this.correlations := correlations;
      this.fileCache := fileCache;
      shares := [];
      externalShares := [];
      meshUsers := [];
      nextShareId := 1;
      nextExternalId := 1;
      nextMeshUserId := 1;
    }

    /** `create`: ask the peer to create the share; store nothing. The share
        gets the peer's identity provider as provider id when the response
        carries one, and is left as it was otherwise. */
    method Create(share: Share, peer: PeerRequest -> Option<PeerResponse>, now: int) returns (r: Result<Share, Failure>)
      modifies share
      ensures var idp := OwnerIdp(peer(ProviderShareRequest(share.node.path, share.node.Type(), share.sharedWith)));
        && (idp.None? ==> r == Failure(UnexpectedPeerResponse) && unchanged(share))
        && (idp.Some? ==>
              r == Success(share) && share.providerId == idp
              && share.id == Some(PENDING_SHARE_ID) && share.shareTime == Some(now))
      ensures share.sharedWith == old(share.sharedWith) && share.sharedBy == old(share.sharedBy)
      ensures share.shareOwner == old(share.shareOwner) && share.permissions == old(share.permissions)
      ensures share.token == old(share.token)
    {
      var request := ProviderShareRequest(share.node.path, share.node.Type(), share.sharedWith);
      var response := peer(request);
      var idp := OwnerIdp(response);
      if idp.None? {
        return Failure(UnexpectedPeerResponse);
      }
      share.id := Some(PENDING_SHARE_ID);
      share.providerId := idp;
      share.shareTime := Some(now);
      return Success(share);
    }

    /** `addSentShareToDB`: append a `share` row under the next id. */
    method AddSentShareToDB(itemSource: int, itemType: string, shareWith: string, sharedBy: string,
                            uidOwner: string, permissions: int, token: string, shareType: int, now: int)
      returns (id: nat)
      requires Valid()
      modifies this`shares, this`nextShareId
      ensures Valid()
      ensures id == old(nextShareId) && nextShareId == id + 1
      ensures shares == old(shares) + [ShareRow(id, shareType, itemType, itemSource, itemSource,
                                                shareWith, uidOwner, sharedBy, permissions, token, now, "", None)]
    {
      id := nextShareId;
      var row := ShareRow(id, shareType, itemType, itemSource, itemSource,
                          shareWith, uidOwner, sharedBy, permissions, token, now, "", None);
      AppendFreshId(shares, nextShareId, ShareRowId, row);
      shares := shares + [row];
      nextShareId := nextShareId + 1;
    }

    /** `createScienceMeshShare`: store the share as a remote share of its node. */
    method CreateScienceMeshShare(share: Share, now: int) returns (id: nat)
      requires Valid()
      modifies this`shares, this`nextShareId
      ensures Valid()
      ensures id == old(nextShareId) && nextShareId == id + 1
      ensures shares == old(shares) + [SentRow(id, share, now)]
    {
      id := AddSentShareToDB(share.node.id, share.node.ItemType(), share.sharedWith, share.sharedBy,
                             share.shareOwner, share.permissions, share.token, SHARE_TYPE_REMOTE, now);
    }

    /** `createInternal`: refuse a share of a node already shared with the
        recipient, then one without the read bit; otherwise store exactly one
        remote share row and return the share object built from it. */
    method CreateInternal(share: Share, now: int) returns (r: Result<ShareObject, Failure>)
      requires Valid()
      modifies this`shares, this`nextShareId
      ensures Valid()
      ensures AlreadySharedWith(old(shares), share.sharedWith, share.node.id) ==>
        r == Failure(AlreadyShared) && shares == old(shares) && nextShareId == old(nextShareId)
      ensures !AlreadySharedWith(old(shares), share.sharedWith, share.node.id) && !HasReadPermission(share.permissions) ==>
        r == Failure(ReadPermissionMissing) && shares == old(shares) && nextShareId == old(nextShareId)
      ensures !AlreadySharedWith(old(shares), share.sharedWith, share.node.id) && HasReadPermission(share.permissions) ==>
        var row := SentRow(old(nextShareId), share, now);
        && shares == old(shares) + [row] && nextShareId == old(nextShareId) + 1
        && r == (match createShareObject(row) case Some(s) => Success(s) case None => Failure(InvalidShare))
      ensures AlreadySharedWith(shares, share.sharedWith, share.node.id)
        || (r == Failure(ReadPermissionMissing) && shares == old(shares))
      ensures NoDuplicateRemoteShares(old(shares)) ==> NoDuplicateRemoteShares(shares)
    {
      var duplicate := FirstWhere(shares, RemoteShareOf(share.sharedWith, share.node.id));
      if duplicate.Some? {
        assert shares[duplicate.value] in shares;
        return Failure(AlreadyShared);
      }
      if !HasReadPermission(share.permissions) {
        return Failure(ReadPermissionMissing);
      }
      ghost var before := shares;
      var id := CreateScienceMeshShare(share, now);
      var row := shares[|shares| - 1];
      assert row in shares;
      forall i, j | 0 <= i < j < |shares| && shares[i].shareType == SHARE_TYPE_REMOTE && shares[j].shareType == SHARE_TYPE_REMOTE
        && NoDuplicateRemoteShares(before)
        ensures (shares[i].shareWith, shares[i].fileSource) != (shares[j].shareWith, shares[j].fileSource)
      {
        if j == |before| {
          assert !RemoteShareOf(share.sharedWith, share.node.id)(before[i]);
        } else {
          assert shares[i] == before[i] && shares[j] == before[j];
        }
      }
      match createShareObject(row) {
        case Some(s) => r := Success(s);
        case None => r := Failure(InvalidShare);
      }
    }

    /** `addReceivedShareToDB`: insert-or-fetch of a received share. */
    method AddReceivedShareToDB(data: ReceivedShareData) returns (id: nat)
      requires Valid()
      modifies this`externalShares, this`nextExternalId
      ensures Valid()
      ensures var r := ReceiveShare(old(externalShares), old(nextExternalId), data, md5);
        externalShares == r.rows && nextExternalId == r.nextId && id == r.id
    {
      var mountpoint := MountPoint(data.name);
      var mountpointHash := md5(mountpoint);
      var existing := FirstWhere(externalShares, SameMount(data.user, mountpointHash));
      ReceiveShareKeepsMountsUnique(externalShares, nextExternalId, data, md5);
      if existing.Some? {
        return externalShares[existing.value].id;
      }
      var remote := data.remote;
      if !HasHttpScheme(remote) {
        remote := "https://" + remote;
      }
      var row := ExternalRow(nextExternalId, TYPE_USER, remote, Trim('"', data.remoteId), data.shareToken,
                             data.password, data.name, Some(data.owner), data.user,
                             mountpoint, mountpointHash, STATUS_PENDING);
      assert row == ReceivedRow(nextExternalId, data, md5);
      AppendFreshId(externalShares, nextExternalId, ExternalRowId, row);
      externalShares := externalShares + [row];
      id := nextExternalId;
      nextExternalId := nextExternalId + 1;
    }

    /** `updateReceivedShare`: the row with the share's id takes the share's
        owner; every other column and row is unchanged. */
    method UpdateReceivedShare(share: ShareObject) returns (r: ShareObject)
      requires Valid()
      modifies this`externalShares
      ensures Valid()
      ensures r == share
      ensures externalShares == Map(old(externalShares), WithOwner(share.id, share.shareOwner))
      ensures forall i :: 0 <= i < |externalShares| ==>
        externalShares[i].owner == (if old(externalShares)[i].id == share.id then share.shareOwner else old(externalShares)[i].owner)
        && externalShares[i].(owner := None) == old(externalShares)[i].(owner := None)
    {
      var update := WithOwner(share.id, share.shareOwner);
      MapKeepsKeysDistinct(externalShares, MountKey, update);
      MapKeepsKeysDistinct(externalShares, ExternalRowId, update);
      ghost var before := externalShares;
      externalShares := Map(externalShares, update);
      forall row | row in externalShares ensures row.id < nextExternalId {
        var i :| 0 <= i < |externalShares| && externalShares[i] == row;
        assert before[i] in before;
      }
      return share;
    }

    /** `deleteReceivedShareByOpaqueId`: remove the user's received shares with
        that share token; `false`, with nothing changed, when there is none. */
    method DeleteReceivedShareByOpaqueId(userId: string, opaqueId: string) returns (deleted: bool)
      requires Valid()
      modifies this`externalShares
      ensures Valid()
      ensures deleted <==> exists row :: row in old(externalShares) && row.user == userId && row.shareToken == opaqueId
      ensures externalShares == Filter(old(externalShares), NotReceivedWithToken(userId, opaqueId))
      ensures !deleted ==> externalShares == old(externalShares)
      ensures forall row :: row in externalShares ==> !(row.user == userId && row.shareToken == opaqueId)
    {
      var found := FirstWhere(externalShares, ReceivedWithToken(userId, opaqueId));
      if found.None? {
        FilterAll(externalShares, NotReceivedWithToken(userId, opaqueId));
        return false;
      }
      assert externalShares[found.value] in externalShares;
      FilterKeepsKeysDistinct(externalShares, MountKey, NotReceivedWithToken(userId, opaqueId));
      FilterKeepsKeysDistinct(externalShares, ExternalRowId, NotReceivedWithToken(userId, opaqueId));
      externalShares := Filter(externalShares, NotReceivedWithToken(userId, opaqueId));
      return true;
    }

    /** `deleteSentShareByName`: resolve the name through the first file cache
        entry carrying it, then remove the user's shares of that file; `false`,
        with nothing changed, when there is no such entry or no such share. */
    method DeleteSentShareByName(userId: string, name: string) returns (deleted: bool)
      requires Valid()
      modifies this`shares
      ensures Valid()
      ensures match FirstFileId(fileCache, NamedFile(name))
        case None => !deleted && shares == old(shares)
        case Some(fileId) =>
          && (deleted <==> exists row :: row in old(shares) && row.uidOwner == userId && row.itemSource == fileId)
          && shares == Filter(old(shares), NotOwnedShareOf(userId, fileId))
    {
      var entry := FirstFileId(fileCache, NamedFile(name));
      if entry.None? {
        return false;
      }
      var fileId := entry.value;
      var found := FirstWhere(shares, OwnedShareOf(userId, fileId));
      if found.None? {
        FilterAll(shares, NotOwnedShareOf(userId, fileId));
        return false;
      }
      assert shares[found.value] in shares;
      FilterKeepsKeysDistinct(shares, ShareRowId, NotOwnedShareOf(userId, fileId));
      shares := Filter(shares, NotOwnedShareOf(userId, fileId));
      return true;
    }

    /** `addScienceMeshUser`: insert-or-fetch of a remote user. */
    method AddScienceMeshUser(user: MeshUser) returns (id: nat)
      requires Valid()
      modifies this`meshUsers, this`nextMeshUserId
      ensures Valid()
      ensures var r := RegisterUser(old(meshUsers), old(nextMeshUserId), user);
        meshUsers == r.rows && nextMeshUserId == r.nextId && id == r.id
    {
      var existing := FirstWhere(meshUsers, SameIdentity(user.idp, user.opaqueId));
      RegisterUserKeepsIdentitiesUnique(meshUsers, nextMeshUserId, user);
      if existing.Some? {
        return meshUsers[existing.value].id;
      }
      var row := MeshUserRow(nextMeshUserId, user.idp, user.opaqueId, user.userType);
      AppendFreshId(meshUsers, nextMeshUserId, MeshUserId, row);
      meshUsers := meshUsers + [row];
      id := nextMeshUserId;
      nextMeshUserId := nextMeshUserId + 1;
    }

    /** `addScienceMeshShare`: an external share is stored as a received
        share, any other as a sent share; share data of the other kind fails. */
    method AddScienceMeshShare(isExternal: bool, data: ShareData, now: int) returns (r: Result<nat, Failure>)
      requires Valid()
      modifies this`shares, this`nextShareId, this`externalShares, this`nextExternalId
      ensures Valid()
      ensures isExternal && data.ReceivedData? ==>
        var ins := ReceiveShare(old(externalShares), old(nextExternalId), data.received, md5);
        && r == Success(ins.id) && externalShares == ins.rows && nextExternalId == ins.nextId
        && shares == old(shares) && nextShareId == old(nextShareId)
      ensures !isExternal && data.SentData? ==>
        && r == Success(old(nextShareId)) && shares == old(shares) + [SentRow(old(nextShareId), data.share, now)]
        && nextShareId == old(nextShareId) + 1
        && externalShares == old(externalShares) && nextExternalId == old(nextExternalId)
      ensures isExternal != data.ReceivedData? ==>
        && r == Failure(ShareDataMismatch)
        && shares == old(shares) && nextShareId == old(nextShareId)
        && externalShares == old(externalShares) && nextExternalId == old(nextExternalId)
    {
      if isExternal {
        match data {
          case ReceivedData(received) =>
            var id := AddReceivedShareToDB(received);
            return Success(id);
          case SentData(_) =>
            return Failure(ShareDataMismatch);
        }
      } else {
        match data {
          case SentData(share) =>
            var id := CreateScienceMeshShare(share, now);
            return Success(id);
          case ReceivedData(_) =>
            return Failure(ShareDataMismatch);
        }
      }
    }

    /** `getSentShares`: the remote shares the user created or owns, in table
        order, skipping the rows that cannot be turned into share objects. */
    method GetSentShares(userId: string) returns (result: seq<ShareObject>)
      ensures result == SentSharesOf(shares, userId, createShareObject)
    {
      var cursor := Filter(shares, SentOrOwnedBy(userId));
      result := [];
      var i := 0;
      while i < |cursor|
        invariant 0 <= i <= |cursor|
        invariant result + Collect(cursor[i..], createShareObject) == Collect(cursor, createShareObject)
      {
        CollectStep(cursor, i, createShareObject, result);
        ghost var before := result;
        var converted := createShareObject(cursor[i]);
        if converted.Some? {
          result := result + [converted.value];
        }
        assert result == before + Converted(createShareObject, cursor[i]);
        i := i + 1;
      }
      CollectDone(cursor, createShareObject, result);
    }

    /** `getReceivedShares`: one share object per received share of the user,
        in table order; each is shared with that user. */
    method GetReceivedShares(userId: string) returns (result: seq<ShareObject>)
      ensures result == Map(Filter(externalShares, ReceivedBy(userId)), ExternalShareObject)
      ensures forall s :: s in result ==> s.sharedWith == Some(userId) && s.providerId == IDENTIFIER
      ensures forall row :: row in externalShares && row.user == userId ==> ExternalShareObject(row) in result
    {
      var cursor := Filter(externalShares, ReceivedBy(userId));
      result := [];
      var i := 0;
      while i < |cursor|
        invariant 0 <= i <= |cursor|
        invariant |result| == i
        invariant forall k :: 0 <= k < i ==> result[k] == ExternalShareObject(cursor[k])
      {
        result := result + [ExternalShareObject(cursor[i])];
        i := i + 1;
      }
      forall s | s in result ensures s.sharedWith == Some(userId) && s.providerId == IDENTIFIER {
        var k :| 0 <= k < |result| && result[k] == s;
        assert cursor[k] in cursor;
      }
      forall row | row in externalShares && row.user == userId ensures ExternalShareObject(row) in result {
        var k :| 0 <= k < |cursor| && cursor[k] == row;
        assert result[k] == ExternalShareObject(row);
      }
    }

    /** `getReceivedShareByToken`: the first received share of type 14 with the
        token in table order, or `ShareNotFound`. */
    function GetReceivedShareByToken(token: string): (r: Result<ShareObject, Failure>)
      reads this
      ensures r.Success? ==>
        r.value.shareType == RECEIVED_LOOKUP_SHARE_TYPE && r.value.token == Some(token)
        && exists row :: row in externalShares && ExternalShareObject(row) == r.value
      ensures r.Failure? <==> forall row :: row in externalShares ==>
        !(row.shareType == RECEIVED_LOOKUP_SHARE_TYPE && row.shareToken == token)
      ensures r.Failure? ==> r.error == ShareNotFound
      ensures forall k :: IsFirst(externalShares, LookupTypeWithToken(token), k) ==>
        r == Success(ExternalShareObject(externalShares[k]))
    {
      var p := LookupTypeWithToken(token);
      assert forall k :: IsFirst(externalShares, p, k) ==> FirstWhere(externalShares, p) == Some(k) by {
        forall k | IsFirst(externalShares, p, k) ensures FirstWhere(externalShares, p) == Some(k) {
          FirstWhereFinds(externalShares, p, k);
        }
      }
      match FirstWhere(externalShares, p)
      case None => Failure(ShareNotFound)
      case Some(k) =>
        assert externalShares[k] in externalShares;
        Success(ExternalShareObject(externalShares[k]))
    }

    /** The first `share` row satisfying `p`, as a share object; `ShareNotFound`
        when there is none or it cannot be turned into one. */
    function FirstSentShare(p: ShareRow -> bool): (r: Result<ShareObject, Failure>)
      reads this
      ensures r.Success? ==> exists k :: (0 <= k < |shares| && p(shares[k])
        && (forall j :: 0 <= j < k ==> !p(shares[j])) && createShareObject(shares[k]) == Some(r.value))
      ensures (forall row :: row in shares ==> !p(row)) ==> r == Failure(ShareNotFound)
      ensures forall k :: IsFirst(shares, p, k) && createShareObject(shares[k]).Some? ==>
        r == Success(createShareObject(shares[k]).value)
      ensures forall k :: IsFirst(shares, p, k) && createShareObject(shares[k]).None? ==>
        r == Failure(ShareNotFound)
      ensures r.Failure? ==> r.error == ShareNotFound
    {
      assert forall k :: IsFirst(shares, p, k) ==> FirstWhere(shares, p) == Some(k) by {
        forall k | IsFirst(shares, p, k) ensures FirstWhere(shares, p) == Some(k) {
          FirstWhereFinds(shares, p, k);
        }
      }
      match FirstWhere(shares, p)
      case None => Failure(ShareNotFound)
      case Some(k) =>
        assert shares[k] in shares;
        match createShareObject(shares[k])
        case None => Failure(ShareNotFound)
        case Some(s) => Success(s)
    }

    /** `getSentShareByName`: the first share whose `name` column is the name. */
    function GetSentShareByName(name: string): (r: Result<ShareObject, Failure>)
      reads this
      ensures r.Success? ==> exists row :: row in shares && row.name == Some(name) && createShareObject(row) == Some(r.value)
      ensures (forall row :: row in shares ==> row.name != Some(name)) ==> r == Failure(ShareNotFound)
      ensures forall k :: IsFirst(shares, NamedShare(name), k) && createShareObject(shares[k]).Some? ==>
        r == Success(createShareObject(shares[k]).value)
      ensures forall k :: IsFirst(shares, NamedShare(name), k) && createShareObject(shares[k]).None? ==>
        r == Failure(ShareNotFound)
      ensures r.Failure? ==> r.error == ShareNotFound
    {
      FirstSentShare(NamedShare(name))
    }

    /** `getSentShareByToken`: the first share with the token. */
    function GetSentShareByToken(token: string): (r: Result<ShareObject, Failure>)
      reads this
      ensures r.Success? ==> exists row :: row in shares && row.token == token && createShareObject(row) == Some(r.value)
      ensures (forall row :: row in shares ==> row.token != token) ==> r == Failure(ShareNotFound)
      ensures forall k :: IsFirst(shares, SentWithToken(token), k) && createShareObject(shares[k]).Some? ==>
        r == Success(createShareObject(shares[k]).value)
      ensures forall k :: IsFirst(shares, SentWithToken(token), k) && createShareObject(shares[k]).None? ==>
        r == Failure(ShareNotFound)
      ensures r.Failure? ==> r.error == ShareNotFound
    {
      FirstSentShare(SentWithToken(token))
    }

    /** `getSentShareByPath`: resolve the path through the first file cache
        entry at it, then the user's first share of that file. `Success(None)`
        is PHP's `false` (no entry, or no share); a share that cannot be built
        into a share object is `ShareNotFound`. */
    function GetSentShareByPath(userId: string, path: string): (r: Result<Option<ShareObject>, Failure>)
      reads this
      ensures FirstFileId(fileCache, FileAtPath(path)).None? ==> r == Success(None)
      ensures r.Success? && r.value.Some? ==>
        exists row :: row in shares && row.uidOwner == userId
          && FirstFileId(fileCache, FileAtPath(path)) == Some(row.itemSource)
          && createShareObject(row) == Some(r.value.value)
      ensures var f := FirstFileId(fileCache, FileAtPath(path));
        r == Success(None) <==>
          (|| f.None?
           || forall row :: row in shares ==> !(row.uidOwner == userId && row.itemSource == f.value))
      ensures var f := FirstFileId(fileCache, FileAtPath(path));
        f.Some? ==> forall k :: IsFirst(shares, OwnedShareOf(userId, f.value), k) ==>
          r == (if createShareObject(shares[k]).Some? then Success(Some(createShareObject(shares[k]).value))
                else Failure(ShareNotFound))
      ensures r.Failure? ==> r.error == ShareNotFound
    {
      match FirstFileId(fileCache, FileAtPath(path))
      case None => Success(None)
      case Some(fileId) => FirstShareOfFile(userId, fileId)
    }

    /** The second query of `getSentShareByPath`: the user's first share of the
        file, `Success(None)` when there is none. */
    function FirstShareOfFile(userId: string, fileId: int): (r: Result<Option<ShareObject>, Failure>)
      reads this
      ensures r == Success(None) <==>
        forall row :: row in shares ==> !(row.uidOwner == userId && row.itemSource == fileId)
      ensures r.Success? && r.value.Some? ==>
        exists row :: row in shares && row.uidOwner == userId && row.itemSource == fileId
          && createShareObject(row) == Some(r.value.value)
      ensures forall k :: IsFirst(shares, OwnedShareOf(userId, fileId), k) ==>
        r == (if createShareObject(shares[k]).Some? then Success(Some(createShareObject(shares[k]).value))
              else Failure(ShareNotFound))
      ensures r.Failure? ==> r.error == ShareNotFound
    {
      var p := OwnedShareOf(userId, fileId);
      assert forall k :: IsFirst(shares, p, k) ==> FirstWhere(shares, p) == Some(k) by {
        forall k | IsFirst(shares, p, k) ensures FirstWhere(shares, p) == Some(k) {
          FirstWhereFinds(shares, p, k);
        }
      }
      match FirstWhere(shares, p)
      case None => Success(None)
      case Some(j) =>
        assert shares[j] in shares;
        match createShareObject(shares[j])
        case None => Failure(ShareNotFound)
        case Some(s) => Success(Some(s))
    }

    /** The foreign ids of the correlation rows with an opaque id, in table order. */
    function LinksOf(opaqueId: string): (links: seq<nat>)
      reads this
      ensures forall c :: c in correlations && c.opaqueId == opaqueId ==> c.foreignId in links
      ensures forall f :: f in links ==> exists c :: c in correlations && c.opaqueId == opaqueId && c.foreignId == f
    {
      var matching := Filter(correlations, CorrelatedBy(opaqueId));
      var links := Map(matching, ForeignId);
      assert forall c :: c in matching ==> ForeignId(c) in links by {
        forall c | c in matching ensures ForeignId(c) in links {
          var i :| 0 <= i < |matching| && matching[i] == c;
          assert links[i] == ForeignId(c);
        }
      }
      assert forall f :: f in links ==> exists c :: c in correlations && c.opaqueId == opaqueId && c.foreignId == f by {
        forall f | f in links ensures exists c :: c in correlations && c.opaqueId == opaqueId && c.foreignId == f {
          var i :| 0 <= i < |links| && links[i] == f;
          assert matching[i] in matching;
        }
      }
      links
    }

    /** `getShareByOpaqueId`: the first correlation row with the opaque id
        picks the table; the share is the first row of that table joined to a
        correlation row with the opaque id, always built by
        `createExternalShareObject`. `None` is PHP's `false`. */
    function GetShareByOpaqueId(opaqueId: string): (r: Option<ShareObject>)
      reads this
      ensures (forall c :: c in correlations ==> c.opaqueId != opaqueId) ==> r == None
      ensures r.Some? ==> exists k :: (0 <= k < |correlations| && correlations[k].opaqueId == opaqueId
        && (forall j :: 0 <= j < k ==> correlations[j].opaqueId != opaqueId)
        && (correlations[k].isExternal ==>
              exists row, c :: row in externalShares && c in correlations && c.opaqueId == opaqueId
                && c.foreignId == row.id && r.value == ExternalShareObject(row))
        && (!correlations[k].isExternal ==>
              exists row, c :: row in shares && c in correlations && c.opaqueId == opaqueId
                && c.foreignId == row.id && r.value == SentRowAsExternalObject(row)))
    {
      match FirstWhere(correlations, CorrelatedBy(opaqueId))
      case None => None
      case Some(k) =>
        var links := LinksOf(opaqueId);
        if correlations[k].isExternal then
          match FirstJoin(links, externalShares, ExternalRowId)
          case None => None
          case Some(row) => Some(ExternalShareObject(row))
        else
          match FirstJoin(links, shares, ShareRowId)
          case None => None
          case Some(row) => Some(SentRowAsExternalObject(row))
    }
  }

  /** Each call of `createInternal` on a share that passes both guards stores
      its row, so the same share a second time is refused. */
  lemma CreatedShareIsGuarded(rows: seq<ShareRow>, share: Share, id: nat, now: int)
    ensures AlreadySharedWith(rows + [SentRow(id, share, now)], share.sharedWith, share.node.id)
  {
    var row := SentRow(id, share, now);
    assert row in rows + [row];
  }

  /** Rows written by `addReceivedShareToDB` are of type user, so the lookup
      by token, which filters on type 14, never finds them. */
  lemma ReceivedRowsNotFoundByToken(p: ScienceMeshShareProvider, token: string)
    requires forall row :: row in p.externalShares ==> row.shareType == TYPE_USER
    ensures p.GetReceivedShareByToken(token) == Failure(ShareNotFound)
  {
  }

  /** When an opaque id has a single correlation row and the row it points at
      exists, the lookup returns exactly that share, built from a received or
      a sent share row as the correlation says. */
  lemma OpaqueIdResolvesToItsRow(p: ScienceMeshShareProvider, c: Correlation)
    requires p.Valid()
    requires c in p.correlations
    requires forall d :: d in p.correlations && d.opaqueId == c.opaqueId ==> d == c
    ensures c.isExternal ==> forall row :: row in p.externalShares && row.id == c.foreignId ==>
      p.GetShareByOpaqueId(c.opaqueId) == Some(ExternalShareObject(row))
    ensures !c.isExternal ==> forall row :: row in p.shares && row.id == c.foreignId ==>
      p.GetShareByOpaqueId(c.opaqueId) == Some(SentRowAsExternalObject(row))
  {
    var links := p.LinksOf(c.opaqueId);
    assert c.foreignId in links;
    assert forall f :: f in links ==> f == c.foreignId;
    var k := FirstWhere(p.correlations, CorrelatedBy(c.opaqueId));
    assert k.Some? && p.correlations[k.value] == c by {
      var i :| 0 <= i < |p.correlations| && p.correlations[i] == c;
      assert CorrelatedBy(c.opaqueId)(p.correlations[i]);
    }
    if c.isExternal {
      forall row | row in p.externalShares && row.id == c.foreignId
        ensures p.GetShareByOpaqueId(c.opaqueId) == Some(ExternalShareObject(row))
      {
        FirstJoinOfOneId(links, p.externalShares, ExternalRowId, row);
      }
    } else {
      forall row | row in p.shares && row.id == c.foreignId
        ensures p.GetShareByOpaqueId(c.opaqueId) == Some(SentRowAsExternalObject(row))
      {
        FirstJoinOfOneId(links, p.shares, ShareRowId, row);
      }
    }
  }
}
