/** The storage endpoint the federation peer calls: translation of file
    metadata into a CS3 `provider.ResourceInfo`, the folder listing and
    metadata handlers, upload, the recycle-bin handlers over the user's trash,
    and the handlers that are not implemented. The file system and the trash
    manager are collaborators: the file system is given as functions, the
    trash as an object whose items the handlers remove or restore. */
module RevaController {
  import opened Results
  import opened Seqs
  import opened PhpStrings

  /** The prefix of the original location of every trash item that belongs to
      the ScienceMesh storage folder. */
  const MESH_PREFIX := "sciencemesh"

  /** The metadata array the file system returns for a node; only its `path` is read. */
  datatype NodeInfo = NodeInfo(path: string)

  datatype Checksum = Checksum(kind: int, sum: string)

  datatype PermissionSet = PermissionSet(
    addGrant: bool, createContainer: bool, delete: bool, getPath: bool, getQuota: bool,
    initiateFileDownload: bool, initiateFileUpload: bool)

  /** The fields of a CS3 `provider.ResourceInfo` the endpoint fills in. */
  datatype ResourceInfo = ResourceInfo(
    opaqueMap: Option<map<string, string>>,
    resourceType: int,
    opaqueId: string,
    checksum: Checksum,
    etag: string,
    mimeType: string,
    mtimeSeconds: int,
    path: string,
    permissions: PermissionSet,
    size: int,
    canonicalTarget: Option<string>,
    metadata: map<string, string>)

  const NO_PERMISSIONS := PermissionSet(false, false, false, false, false, false, false)

  /** `nodeInfoToCS3ResourceInfo`: the path is the node's path under `/` and
      the opaque id is `fileid-` followed by that path; every other field is a
      fixed placeholder, with no permission granted. */
  function ToResourceInfo(info: NodeInfo): (r: ResourceInfo)
    ensures r.path == "/" + info.path
    ensures r.opaqueId == "fileid-" + r.path
    ensures r.permissions == NO_PERMISSIONS
    ensures r.resourceType == 1 && r.etag == "deadbeef" && r.size == 12345 && r.mtimeSeconds == 1234567890
    ensures r.opaqueMap.None? && r.canonicalTarget.None?
    ensures r.checksum == Checksum(0, "") && r.mimeType == "text/plain"
    ensures r.metadata == map["some" := "arbi", "trary" := "meta", "da" := "ta"]
  {
    ResourceInfo(
      None, 1, "fileid-/" + info.path, Checksum(0, ""), "deadbeef", "text/plain", 1234567890,
      "/" + info.path, NO_PERMISSIONS, 12345, None,
      map["some" := "arbi", "trary" := "meta", "da" := "ta"])
  }

  /** Two nodes translate to the same resource exactly when their paths agree. */
  lemma ResourceInfoDeterminedByPath(a: NodeInfo, b: NodeInfo)
    ensures ToResourceInfo(a) == ToResourceInfo(b) <==> a.path == b.path
  {
    if ToResourceInfo(a) == ToResourceInfo(b) {
      assert "/" + a.path == "/" + b.path;
      assert a.path == ("/" + a.path)[1..];
    }
  }

  /** The body of a JSON response: a JSON string, an `["error" => ...]`
      object, one resource, a list of resources, or a recycle listing. */
  datatype Body =
    | Message(text: string)
    | ErrorBody(error: string)
    | ResourceBody(info: ResourceInfo)
    | ResourceList(infos: seq<ResourceInfo>)
    | RecycleList(entries: seq<RecycleEntry>)

  datatype Response = Response(body: Body, status: int)

  const OK := Response(Message("OK"), 200)

  /** PHP's truthiness of a string: only `""` and `"0"` are false. */
  predicate Truthy(s: string) {
    s != "" && s != "0"
  }

  /** `getParam("path") ?: "/"`: a request parameter that is absent or falsy becomes `/`. */
  function ParamOrRoot(param: Option<string>): (path: string)
    ensures Truthy(path)
    ensures param.Some? && Truthy(param.value) ==> path == param.value
    ensures !(param.Some? && Truthy(param.value)) ==> path == "/"
  {
    if param.Some? && Truthy(param.value) then param.value else "/"
  }

  /** `ListFolder`: the root `/` is listed as `.`; a listing becomes a 200
      response holding one resource per entry, in order, and a failed listing
      (`false`) a 400 response. */
  function ListFolder(refPath: string, listContents: string -> Option<seq<NodeInfo>>): (r: Response)
    ensures var listing := listContents(if refPath == "/" then "." else refPath);
      && (listing.None? <==> r.status == 400)
      && (listing.None? ==> r.body == ErrorBody("Folder not found"))
      && (listing.Some? ==>
            && r.status == 200 && r.body.ResourceList?
            && |r.body.infos| == |listing.value|
            && forall i :: 0 <= i < |listing.value| ==> r.body.infos[i] == ToResourceInfo(listing.value[i]))
  {
    var listing := listContents(if refPath == "/" then "." else refPath);
    match listing
    case None => Response(ErrorBody("Folder not found"), 400)
    case Some(infos) => Response(ResourceList(Map(infos, ToResourceInfo)), 200)
  }

  /** An empty folder lists as an empty 200 response, not as an error. */
  lemma EmptyFolderListsEmpty(refPath: string, listContents: string -> Option<seq<NodeInfo>>)
    requires listContents(if refPath == "/" then "." else refPath) == Some([])
    ensures ListFolder(refPath, listContents) == Response(ResourceList([]), 200)
  {
  }

  /** `GetMD`: for the root the node exists when the user's `sciencemesh`
      folder does, for any other path when the file system has it; an
      existing node answers 200 with the resource of the metadata read at the
      requested path, a missing one 404. */
  function GetMD(refPath: string, homeExists: bool, has: string -> bool, getMetaData: string -> NodeInfo): (r: Response)
    ensures var exists_ := if refPath == "/" then homeExists else has(refPath);
      && (exists_ ==> r == Response(ResourceBody(ToResourceInfo(getMetaData(refPath))), 200))
      && (!exists_ ==> r == Response(ErrorBody("File not found"), 404))
  {
    var success := if refPath == "/" then homeExists else has(refPath);
    if success then Response(ResourceBody(ToResourceInfo(getMetaData(refPath))), 200)
    else Response(ErrorBody("File not found"), 404)
  }

  /** For the root, the metadata is read at `/` itself, not at the `.` that
      the handler computes and never uses. When the file system reports the
      root's path as `/`, the resource path is `//`. */
  lemma GetMDOfRoot(has: string -> bool, getMetaData: string -> NodeInfo)
    requires getMetaData("/") == NodeInfo("/")
    ensures GetMD("/", true, has, getMetaData).body.info.path == "//"
  {
  }

  /** `CreateDir`: 200 when the file system creates the directory, 500 otherwise. */
  function CreateDir(pathParam: Option<string>, createDir: string -> bool): (r: Response)
    ensures r.status == 200 || r.status == 500
    ensures r.status == 200 <==> createDir(ParamOrRoot(pathParam))
  {
    if createDir(ParamOrRoot(pathParam)) then OK
    else Response(ErrorBody("Could not create directory."), 500)
  }

  /** `Delete`: 200 when the file system deletes the path, 500 otherwise. */
  function Delete(pathParam: Option<string>, delete: string -> bool): (r: Response)
    ensures r.status == 200 || r.status == 500
    ensures r.status == 200 <==> delete(ParamOrRoot(pathParam))
  {
    if delete(ParamOrRoot(pathParam)) then OK
    else Response(ErrorBody("Failed to delete."), 500)
  }

  /** `Move`: the `from` and `to` parameters go to the file system as they are
      (absent ones as `null`); 200 on success, 500 otherwise. */
  function Move(from: Option<string>, to: Option<string>, move: (Option<string>, Option<string>) -> bool): (r: Response)
    ensures r.status == 200 || r.status == 500
    ensures r.status == 200 <==> move(from, to)
  {
    if move(from, to) then OK
    else Response(ErrorBody("Failed to move."), 500)
  }

  /** `Upload`: an existing path is updated (200), a new one written (201);
      a failure of either is 500. */
  function Upload(path: string, contents: string, has: string -> bool,
                  update: (string, string) -> bool, write: (string, string) -> bool): (r: Response)
    ensures r.status == 200 <==> has(path) && update(path, contents)
    ensures r.status == 201 <==> !has(path) && write(path, contents)
    ensures r.status == 500 <==> (if has(path) then !update(path, contents) else !write(path, contents))
  {
    if has(path) then
      if update(path, contents) then OK else Response(ErrorBody("Update failed"), 500)
    else
      if write(path, contents) then Response(Message("OK"), 201) else Response(ErrorBody("Create failed"), 500)
  }

  /** The handlers that accept a request and do nothing with it. */
  datatype StubHandler =
    | AddGrant | CreateReference | ListGrants | ListRevisions | RemoveGrant
    | RestoreRevision | SetArbitraryMetadata | UnsetArbitraryMetadata | UpdateGrant

  /** Every stub handler answers the JSON string `Not implemented` with
      status 200, whatever its `path` parameter. */
  function NotImplemented(handler: StubHandler, pathParam: Option<string>): (r: Response)
    ensures r.status == 200 && r.body == Message("Not implemented")
  {
    Response(Message("Not implemented"), 200)
  }

  /** A trash item as the trash manager lists it. */
  datatype TrashItem = TrashItem(
    originalLocation: string, path: string, mimetype: string, size: int,
    mtime: int, deletedTime: int, itemType: string)

  /** One entry of the recycle listing. */
  datatype RecycleEntry = RecycleEntry(
    mimetype: string, path: string, size: int, basename: string,
    timestamp: int, deleted: int, itemType: string, visibility: string)

  /** `preg_match("/^sciencemesh/", originalLocation)`. */
  predicate IsMeshItem(item: TrashItem) {
    StartsWith(item.originalLocation, MESH_PREFIX)
  }

  predicate NotMeshItem(item: TrashItem) {
    !IsMeshItem(item)
  }

  /** `preg_replace("/^sciencemesh/", "", location)`: the prefix is removed
      once, and only at the start. */
  function StripMeshPrefix(location: string): (r: string)
    ensures StartsWith(location, MESH_PREFIX) ==> location == MESH_PREFIX + r
    ensures !StartsWith(location, MESH_PREFIX) ==> r == location
  {
    if StartsWith(location, MESH_PREFIX) then location[|MESH_PREFIX|..] else location
  }

  /** A doubled prefix keeps one copy: the pattern is anchored at the start. */
  lemma StripMeshPrefixOnce(rest: string)
    ensures StripMeshPrefix(MESH_PREFIX + MESH_PREFIX + rest) == MESH_PREFIX + rest
  {
    var s := MESH_PREFIX + MESH_PREFIX + rest;
    assert s[..|MESH_PREFIX|] == MESH_PREFIX;
    assert s[|MESH_PREFIX|..] == MESH_PREFIX + rest;
  }

  /** The listing entry of a trash item: its location without the prefix, the
      base name of its trash path, and public visibility. */
  function EntryOf(item: TrashItem): RecycleEntry {
    RecycleEntry(item.mimetype, StripMeshPrefix(item.originalLocation), item.size,
                 Basename(item.path), item.mtime, item.deletedTime, item.itemType, "public")
  }

  /** The recycle entry of a ScienceMesh trash item; other items have none. */
  function RecycleEntryOf(item: TrashItem): Option<RecycleEntry> {
    if IsMeshItem(item) then Some(EntryOf(item)) else None
  }

  /** What `ListRecycle` answers: the entries of the ScienceMesh items, in
      trash order, and nothing else. */
  function RecycleListing(items: seq<TrashItem>): (entries: seq<RecycleEntry>)
    ensures entries == Map(Filter(items, IsMeshItem), EntryOf)
    ensures |entries| <= |items|
    ensures forall item :: item in items && IsMeshItem(item) ==> EntryOf(item) in entries
    ensures forall e :: e in entries ==>
      (&& e.visibility == "public" && '/' !in e.basename
       && exists item :: item in items && IsMeshItem(item) && MESH_PREFIX + e.path == item.originalLocation)
  {
    var entries := Collect(items, RecycleEntryOf);
    assert forall e :: e in entries ==> exists item :: item in items && RecycleEntryOf(item) == Some(e);
    assert forall item :: item in items && IsMeshItem(item) ==> EntryOf(item) in entries by {
      forall item | item in items && IsMeshItem(item) ensures EntryOf(item) in entries {
        assert RecycleEntryOf(item) == Some(EntryOf(item));
      }
    }
    CollectedEntriesAreMeshEntries(items);
    entries
  }

  /** Collecting the recycle entries is mapping `EntryOf` over the
      ScienceMesh items. */
  lemma {:induction false} CollectedEntriesAreMeshEntries(items: seq<TrashItem>)
    ensures Collect(items, RecycleEntryOf) == Map(Filter(items, IsMeshItem), EntryOf)
  {
    if items != [] {
      CollectedEntriesAreMeshEntries(items[1..]);
      var kept := Filter(items[1..], IsMeshItem);
      if IsMeshItem(items[0]) {
        assert Filter(items, IsMeshItem) == [items[0]] + kept;
        assert ([items[0]] + kept)[1..] == kept;
      } else {
        assert Filter(items, IsMeshItem) == kept;
      }
    }
  }

  /** The item `RestoreRecycleItem` looks for: a ScienceMesh item whose
      location without the prefix is the requested path. */
  function RestoresTo(path: string): TrashItem -> bool {
    (item: TrashItem) => IsMeshItem(item) && StripMeshPrefix(item.originalLocation) == path
  }

  /** The user's trash as the trash manager keeps it: the items in listing
      order, no item twice, and the items restored from it. */
  class TrashBin {
    var items: seq<TrashItem>
    var restored: seq<TrashItem>

    ghost predicate Valid()
      reads this
    {
      Distinct(items)
    }

    constructor(items: seq<TrashItem>)
      requires Distinct(items)
      ensures Valid() && this.items == items && restored == []
    {
      this.items := items;
      restored := [];
    }

    /** `removeItem`: the item leaves the trash for good. */
    method RemoveItem(item: TrashItem)
      requires Valid()
      modifies this
      ensures Valid()
      ensures items == Without(old(items), item) && restored == old(restored)
    {
      WithoutKeepsDistinct(items, item);
      items := Without(items, item);
    }

    /** `restoreItem`: the item leaves the trash and is restored. */
    method RestoreItem(item: TrashItem)
      requires Valid()
      modifies this
      ensures Valid()
      ensures items == Without(old(items), item) && restored == old(restored) + [item]
    {
      WithoutKeepsDistinct(items, item);
      items := Without(items, item);
      restored := restored + [item];
    }
  }

  /** `ListRecycle`: the ScienceMesh items of the trash, in order, each with
      its location stripped of the prefix; the trash is not changed. */
  method ListRecycle(trash: TrashBin) returns (r: Response)
    ensures r == Response(RecycleList(RecycleListing(trash.items)), 200)
  {
    var trashItems := trash.items;
    var result: seq<RecycleEntry> := [];
    var i := 0;
    while i < |trashItems|
      invariant 0 <= i <= |trashItems|
      invariant result + Collect(trashItems[i..], RecycleEntryOf) == Collect(trashItems, RecycleEntryOf)
    {
      var node := trashItems[i];
      CollectStep(trashItems, i, RecycleEntryOf, result);
      ghost var before := result;
      if StartsWith(node.originalLocation, MESH_PREFIX) {
        result := result + [EntryOf(node)];
      }
      assert result == before + Converted(RecycleEntryOf, node);
      i := i + 1;
    }
    CollectDone(trashItems, RecycleEntryOf, result);
    return Response(RecycleList(result), 200);
  }

  /** `RestoreRecycleItem`: restore the first ScienceMesh item whose stripped
      location is the requested path and answer 200; with no such item,
      restore nothing and answer 404. */
  method RestoreRecycleItem(trash: TrashBin, pathParam: Option<string>) returns (r: Response)
    requires trash.Valid()
    modifies trash
    ensures trash.Valid()
    ensures match FirstWhere(old(trash.items), RestoresTo(ParamOrRoot(pathParam)))
      case None =>
        && r == Response(Message("[\"error\" => \"Not found.\"]"), 404)
        && trash.items == old(trash.items) && trash.restored == old(trash.restored)
      case Some(k) =>
        && r == OK
        && trash.items == Without(old(trash.items), old(trash.items)[k])
        && trash.restored == old(trash.restored) + [old(trash.items)[k]]
  {
    var path := ParamOrRoot(pathParam);
    var trashItems := trash.items;
    var i := 0;
    while i < |trashItems|
      invariant 0 <= i <= |trashItems|
      invariant trash.items == trashItems && trash.restored == old(trash.restored)
      invariant forall j :: 0 <= j < i ==> !RestoresTo(path)(trashItems[j])
    {
      var node := trashItems[i];
      if StartsWith(node.originalLocation, MESH_PREFIX) {
        var nodePath := StripMeshPrefix(node.originalLocation);
        if path == nodePath {
          assert RestoresTo(path)(node);
          trash.RestoreItem(node);
          return OK;
        }
      }
      i := i + 1;
    }
    return Response(Message("[\"error\" => \"Not found.\"]"), 404);
  }

  /** `EmptyRecycle`: remove every ScienceMesh item from the trash and keep
      every other item, in order; always 200. */
  method EmptyRecycle(trash: TrashBin) returns (r: Response)
    requires trash.Valid()
    modifies trash
    ensures trash.Valid()
    ensures r == OK
    ensures trash.items == Filter(old(trash.items), NotMeshItem)
    ensures trash.restored == old(trash.restored)
  {
    var trashItems := trash.items;
    var i := 0;
    while i < |trashItems|
      invariant 0 <= i <= |trashItems|
      invariant trash.Valid() && trash.restored == old(trash.restored)
      invariant trash.items == Filter(trashItems[..i], NotMeshItem) + trashItems[i..]
    {
      EmptyRecycleAt(trash, trashItems, i);
      i := i + 1;
    }
    assert trashItems[..i] == trashItems && trashItems[i..] == [];
    return OK;
  }

  /** One pass of the loop in `EmptyRecycle`: the item at `i` is removed when
      it belongs to ScienceMesh and passed over otherwise. */
  method EmptyRecycleAt(trash: TrashBin, trashItems: seq<TrashItem>, i: nat)
    requires Distinct(trashItems) && i < |trashItems|
    requires trash.Valid() && trash.items == Filter(trashItems[..i], NotMeshItem) + trashItems[i..]
    modifies trash
    ensures trash.Valid() && trash.restored == old(trash.restored)
    ensures trash.items == Filter(trashItems[..i + 1], NotMeshItem) + trashItems[i + 1..]
  {
    var node := trashItems[i];
    if StartsWith(node.originalLocation, MESH_PREFIX) {
      EmptyRecycleRemoves(trashItems, i);
      trash.RemoveItem(node);
    } else {
      EmptyRecyclePasses(trashItems, i);
    }
  }

  /** A step of `EmptyRecycle` at a ScienceMesh item: the items kept so far,
      then the items not yet visited; removing the item moves the boundary
      past it. */
  lemma EmptyRecycleRemoves(s: seq<TrashItem>, i: nat)
    requires Distinct(s) && i < |s| && IsMeshItem(s[i])
    ensures Without(Filter(s[..i], NotMeshItem) + s[i..], s[i]) == Filter(s[..i + 1], NotMeshItem) + s[i + 1..]
  {
    var kept := Filter(s[..i], NotMeshItem);
    FilterStep(s, i, NotMeshItem);
    assert Filter(s[..i + 1], NotMeshItem) == kept;
    assert s[i..] == [s[i]] + s[i + 1..];
    DistinctAt(s, i);
    assert s[i] !in kept;
    WithoutBetween(kept, s[i], s[i + 1..]);
  }

  /** A step of `EmptyRecycle` at any other item: the item joins the kept part. */
  lemma EmptyRecyclePasses(s: seq<TrashItem>, i: nat)
    requires i < |s| && !IsMeshItem(s[i])
    ensures Filter(s[..i], NotMeshItem) + s[i..] == Filter(s[..i + 1], NotMeshItem) + s[i + 1..]
  {
    FilterStep(s, i, NotMeshItem);
    assert s[i..] == [s[i]] + s[i + 1..];
  }
}
