# ScienceMesh share bridge for Nextcloud — a Dafny model

The ScienceMesh app connects a Nextcloud server to a federation of storage
providers. The app has two halves:

- **Outgoing side.** A federated share is created by asking the peer to
  create it. The share is then recorded in the `share` table.
- **Incoming side.** A share received from a peer is recorded in the
  `share_external` table. An opaque id in the `sciencemesh_shares` table
  points at a row of either table. Remote users are kept in
  `sciencemesh_users`.

The peer also calls the app's storage endpoint. That endpoint lists folders,
reads metadata and uploads files. It also serves the user's recycle bin,
restricted to the items that came from the ScienceMesh folder.

This project models three parts:

- The share provider (`ShareProvider`) is a class. Its fields are the tables
  it reads and writes. Each method states the new contents of the tables and
  keeps the tables' unique keys.
- The identifier and path rules that the provider and the OCS share helper
  apply (`FederationIds`), as pure functions:
  - node paths become the sender, the source path and the target path;
  - `user@host` recipients are split at the last `@` (provider) or at the
    first `@` (helper);
  - receive-side rules give the mount point, the remote URL and the remote id.
- The storage endpoint (`RevaController`). Its stateless handlers are
  functions over the file-system operations they call. The recycle-bin
  handlers are methods over a `TrashBin` object that they change in place.

Supporting modules:

- `Results`: `Option` and `Result`.
- `Seqs`: filter, map, collect and first-match on sequences.
- `PhpStrings`: PHP's `explode`, `implode`, `trim`, `strtolower` and
  `basename` on ASCII strings.
- `Relations`: insert-or-fetch on a table with a unique key, and a first-row
  join.
- `Shares`: the node and the share object of the host platform.

Some behaviours of the code that the model keeps as they are:

- The shared path drops the first three path segments, whoever the owner is.
- A recipient without `@` raises no error. The provider sends an empty
  username with the whole string as host. The helper sends a `null` host.
- The unimplemented handlers answer status 200.
- The lookup of a received share by token filters on share type 14, but
  received rows are stored with type 0, so that lookup never finds a row the
  app stored. The lookups of a sent share by name read a `name` column that
  the provider never writes.

## Model

| member | source | states |
|---|---|---|
| FederationIds.SplitRecipientAtLast | lib/ShareProvider/ScienceMeshShareProvider.php:208-211 | The provider's split of a recipient always yields a host, and that host holds no `@`. |
| FederationIds.SplitRecipientAtFirst | lib/ShareProvider/ShareAPIHelper.php:81-87 | The helper's username holds no `@`. Without an `@` the username is the whole recipient and there is no host. Otherwise the host is `@`-free and the recipient starts with `username@host`, followed by nothing or by the next `@`. |
| FederationIds.SplitAtLastJoinsBack | lib/ShareProvider/ScienceMeshShareProvider.php:208-211 | With an `@` present, `username@host` rebuilds the recipient. |
| FederationIds.SplitAtLastWithoutAt | lib/ShareProvider/ScienceMeshShareProvider.php:208-211 | Without an `@`, the username is empty and the host is the whole recipient; nothing fails. |
| FederationIds.SplitAtLastRoundTrip | lib/ShareProvider/ScienceMeshShareProvider.php:203-211 | Joining any username, which may itself hold `@`, with an `@`-free host and splitting again gives both back. |
| FederationIds.SplitAtLastExample | lib/ShareProvider/ScienceMeshShareProvider.php:205-207 | The source comment's example splits into `MahdiBaghbani@pondersource` and `sciencemesh.org`. |
| FederationIds.SplitsAgreeIffOneAt | lib/ShareProvider/ShareAPIHelper.php:81 | The helper's split and the provider's split give the same result exactly when the recipient holds one `@`. |
| FederationIds.SplitAtFirstOfTwoAts | lib/ShareProvider/ShareAPIHelper.php:81-87 | With two `@`, the helper sends the first piece as username and the second as host, and drops the rest. |
| FederationIds.SplitAtLastOfTwoAtsExample | lib/ShareProvider/ScienceMeshShareProvider.php:208-211 | `a@b@c` is split by the provider into `a@b` and `c`. |
| FederationIds.SplitAtFirstOfTwoAtsExample | lib/ShareProvider/ShareAPIHelper.php:81-87 | `a@b@c` is split by the helper into `a` and `b`. |
| FederationIds.ComputeSharePaths | lib/ShareProvider/ScienceMeshShareProvider.php:189-198 | The source path is `/home` followed by the target path. The target path starts with `/`. A sender exists exactly when the node path holds a `/`. |
| FederationIds.PathsOfOwnedNode | lib/ShareProvider/ScienceMeshShareProvider.php:189-198 | For a node at `/<owner>/<area>/<rest>`, the sender is the owner and the target path is `/<rest>`, with a trailing `/` for a directory. |
| FederationIds.PathsFromSegments | lib/ShareProvider/ScienceMeshShareProvider.php:189-198 | For a path splitting into root, owner, area and the segments of `rest`, the sender is the owner and the target path is `/<rest>` plus the directory suffix. |
| FederationIds.DirectoryAddsTrailingSlash | lib/ShareProvider/ScienceMeshShareProvider.php:194-198 | A directory's paths are those of a file at the same path plus a trailing `/`, with the same sender. |
| FederationIds.DirPathsOf | lib/ShareProvider/ScienceMeshShareProvider.php:189-198 | The directory `/<owner>/<area>/<rest>` has sender `owner`, source path `/home/<rest>/` and target path `/<rest>/`. |
| FederationIds.ShareRequest | lib/ShareProvider/ScienceMeshShareProvider.php:213-219 | The request carries the sender and the two paths of `ComputeSharePaths`, the node type, and the recipient's two parts unchanged. |
| FederationIds.RequestsAgreeIffOneAt | lib/ShareProvider/ShareAPIHelper.php:71-88 | The provider and the helper send the same sender and paths. Their whole requests coincide exactly when the recipient holds one `@`. |
| FederationIds.MountPoint | lib/ShareProvider/ScienceMeshShareProvider.php:310-321 | The mount point is the share name wrapped in a fixed 26-character prefix and a 2-character suffix. |
| FederationIds.MountPointInjective | lib/ShareProvider/ScienceMeshShareProvider.php:310-321 | Different share names give different mount points. |
| FederationIds.NormalizeRemote | lib/ShareProvider/ScienceMeshShareProvider.php:323-325 | The stored remote starts with `http://` or `https://` in any case. A remote that already does is kept, and any other gets `https://` in front. |
| FederationIds.NormalizeRemoteIdempotent | lib/ShareProvider/ScienceMeshShareProvider.php:323-325 | Normalising a remote URL twice is the same as once. |
| FederationIds.StoredRemoteId | lib/ShareProvider/ScienceMeshShareProvider.php:332 | The stored remote id is a middle slice of the given id: only copies of `"` before and after it are removed, and it neither starts nor ends with `"`. |
| FederationIds.StoredRemoteIdUnquotes | lib/ShareProvider/ScienceMeshShareProvider.php:332 | A quoted remote id is stored without its quotes, and an id without surrounding quotes is stored as it is. |
| ShareProvider.ReceiveShare | lib/ShareProvider/ScienceMeshShareProvider.php:308-345 | Insert-or-fetch by recipient and mount-point hash. Old rows are kept and at most one row is added. The id returned is that of a row for the recipient and mount point. A new row has the next id, is pending and of user type, and has the normalised remote, the trimmed remote id, the given token, password, name, owner and recipient, the mount point and its hash. |
| ShareProvider.ReceiveShareTwice | lib/ShareProvider/ScienceMeshShareProvider.php:308-345 | Receiving the same share twice returns the same id and leaves the table as after the first time. |
| ShareProvider.ReceiveShareKeepsMountsUnique | lib/ShareProvider/ScienceMeshShareProvider.php:308-345 | Receiving keeps (recipient, mount-point hash) unique. |
| ShareProvider.RegisterUser | lib/ShareProvider/ScienceMeshShareProvider.php:686-712 | Insert-or-fetch of a remote user by identity provider and opaque id. Old rows are kept, at most one row is added, and a new row has the next id. |
| ShareProvider.RegisterUserTwice | lib/ShareProvider/ScienceMeshShareProvider.php:686-712 | Registering the same user twice returns the same id and one row. |
| ShareProvider.RegisterUserKeepsIdentitiesUnique | lib/ShareProvider/ScienceMeshShareProvider.php:686-712 | Registering keeps (identity provider, opaque id) unique. |
| ShareProvider.SentRow | lib/ShareProvider/ScienceMeshShareProvider.php:240-254 | The row stored for a share is a remote share of the share's node with the share's recipient. Item source and file source are the node id. Owner, initiator, permissions and token are the share's. The time is the given one, and the name is `NULL`. |
| ShareProvider.FirstFileId | lib/ShareProvider/ScienceMeshShareProvider.php:555-566 | A file id is found exactly when some file-cache entry matches, and it is the id of the first matching entry. |
| ShareProvider.SentSharesOf | lib/ShareProvider/ScienceMeshShareProvider.php:495-526 | The result is no longer than the table. A share object is in it exactly when it is built from a remote share that the user created or owns. |
| ShareProvider.ScienceMeshShareProvider.Create | lib/ShareProvider/ScienceMeshShareProvider.php:185-230 | The provider sends the request built from the node path and the last-`@` split. If the response has no owner idp, the method fails with an unexpected-response error and leaves the share unchanged. Otherwise the share gets the pending id, the idp as provider id and the current time. Recipient, sharer, owner, permissions and token are never changed. |
| ShareProvider.ScienceMeshShareProvider.AddSentShareToDB | lib/ShareProvider/ScienceMeshShareProvider.php:269-293 | Exactly one row is appended under the next id, with the item source also as file source and a `NULL` name. Ids stay unique. |
| ShareProvider.ScienceMeshShareProvider.CreateScienceMeshShare | lib/ShareProvider/ScienceMeshShareProvider.php:240-254 | The method appends the remote-share row of the share under the next id. |
| ShareProvider.ScienceMeshShareProvider.CreateInternal | lib/ShareProvider/ScienceMeshShareProvider.php:145-175 | A node already shared with the recipient is refused. Without the read bit the share is refused. Otherwise exactly one row is stored and its share object returned. Afterwards the node is shared with the recipient unless the read bit was missing. No duplicate remote share is ever created. |
| ShareProvider.ScienceMeshShareProvider.AddReceivedShareToDB | lib/ShareProvider/ScienceMeshShareProvider.php:308-345 | The table, the counter and the id are those of `ReceiveShare`. The unique keys are kept. |
| ShareProvider.ScienceMeshShareProvider.UpdateReceivedShare | lib/ShareProvider/ScienceMeshShareProvider.php:354-365 | Only the owner of the rows with the share's id changes. Every other column and row stays as it was, and the share is returned. |
| ShareProvider.ScienceMeshShareProvider.DeleteReceivedShareByOpaqueId | lib/ShareProvider/ScienceMeshShareProvider.php:591-617 | The result is true exactly when the user had a received share with that token. Exactly those rows are removed, the order of the rest is kept, and nothing changes when none exists. |
| ShareProvider.ScienceMeshShareProvider.DeleteSentShareByName | lib/ShareProvider/ScienceMeshShareProvider.php:553-589 | An unknown name deletes nothing. Otherwise exactly the user's shares of the first file with that name are removed, and the result is true exactly when one existed. |
| ShareProvider.ScienceMeshShareProvider.AddScienceMeshUser | lib/ShareProvider/ScienceMeshShareProvider.php:686-712 | The table, the counter and the id are those of `RegisterUser`. The unique keys are kept. |
| ShareProvider.ScienceMeshShareProvider.AddScienceMeshShare | lib/ShareProvider/ScienceMeshShareProvider.php:714-721 | External data is stored as a received share and other data as a sent share, each leaving the other table alone. Data of the wrong kind fails and changes nothing. |
| ShareProvider.ScienceMeshShareProvider.GetSentShares | lib/ShareProvider/ScienceMeshShareProvider.php:495-526 | The loop over the cursor yields exactly `SentSharesOf` of the table. |
| ShareProvider.ExternalShareObject | lib/ShareProvider/ScienceMeshShareProvider.php:481-493 | A received share object takes its id and share type from the row. The row's owner is both owner and sharer, `share_token` is the token, `user` is the recipient, and the provider is `sciencemesh`. |
| ShareProvider.SentRowAsExternalObject | lib/ShareProvider/ScienceMeshShareProvider.php:481-493 | For a joined `share` row, the object takes id and share type from the row. Owner, sharer, token and recipient are `null`, because that table has none of those columns. The provider is `sciencemesh`. |
| ShareProvider.ExternalObjectsAgreeIff | lib/ShareProvider/ScienceMeshShareProvider.php:481-493 | Two received rows give the same share object exactly when they agree on id, share type, owner, token and user. |
| ShareProvider.JoinedObjectIsNotExternal | lib/ShareProvider/ScienceMeshShareProvider.php:481-493 | An object from a joined `share` row never equals one from a `share_external` row. |
| ShareProvider.ScienceMeshShareProvider.GetReceivedShares | lib/ShareProvider/ScienceMeshShareProvider.php:528-551 | The result has one share object per received share of the user, in table order. Each object is shared with that user under the provider's identifier, and none of the user's rows is missing. |
| ShareProvider.ScienceMeshShareProvider.GetReceivedShareByToken | lib/ShareProvider/ScienceMeshShareProvider.php:391-411 | The lookup fails exactly when no row has type 14 and the token. A found share has type 14, the token, and is the object of the first such row in table order. Every failure is share-not-found. |
| ShareProvider.ScienceMeshShareProvider.FirstSentShare | lib/ShareProvider/ScienceMeshShareProvider.php:420-441 | A found share comes from a matching row. When the first matching row converts, its share object is returned. When that row does not convert, or no row matches, the lookup fails with share-not-found. |
| ShareProvider.ScienceMeshShareProvider.GetSentShareByName | lib/ShareProvider/ScienceMeshShareProvider.php:420-441 | A found share comes from a row with that name. The first row with the name is returned when it converts, and share-not-found is returned otherwise. When no row has the name, the lookup fails with share-not-found, and every failure is share-not-found. |
| ShareProvider.ScienceMeshShareProvider.GetSentShareByToken | lib/ShareProvider/ScienceMeshShareProvider.php:450-471 | A found share comes from a row with that token. The first row with the token is returned when it converts, and share-not-found is returned otherwise. With no such row, the lookup fails with share-not-found, and every failure is share-not-found. |
| ShareProvider.ScienceMeshShareProvider.GetSentShareByPath | lib/ShareProvider/ScienceMeshShareProvider.php:619-654 | The answer is `false` exactly when no file is at the path or the user has no share of the first file there. Otherwise it is the user's first share of that file, or share-not-found when that row does not convert. |
| ShareProvider.ScienceMeshShareProvider.FirstShareOfFile | lib/ShareProvider/ScienceMeshShareProvider.php:633-653 | The answer is `false` exactly when the user owns no share of the file. Otherwise it is the user's first share of the file in table order, or share-not-found when that row does not convert. |
| ShareProvider.ScienceMeshShareProvider.LinksOf | lib/ShareProvider/ScienceMeshShareProvider.php:670-676 | The links are exactly the foreign ids of the correlation rows with the opaque id. |
| ShareProvider.ScienceMeshShareProvider.GetShareByOpaqueId | lib/ShareProvider/ScienceMeshShareProvider.php:656-684 | An unknown opaque id answers `false`. A found share comes from the table that the first correlation row names, from a row joined to a correlation row with that opaque id. |
| ShareProvider.CreatedShareIsGuarded | lib/ShareProvider/ScienceMeshShareProvider.php:153-171 | Once a share's row is stored, its node counts as already shared with the recipient, so the same share is refused next time. |
| ShareProvider.ReceivedRowsNotFoundByToken | lib/ShareProvider/ScienceMeshShareProvider.php:391-411 | When every received row has user type, as the app stores them, the lookup by token finds nothing. |
| ShareProvider.OpaqueIdResolvesToItsRow | lib/ShareProvider/ScienceMeshShareProvider.php:656-684 | An opaque id with a single correlation row resolves to exactly the row it points at, in the table it names. |
| ShareApiHelper.FormatShare | lib/ShareProvider/ShareAPIHelper.php:59-65 | The formatted share shows the recipient, the recipient again as display name, and the token. |
| ShareApiHelper.CreateShare | lib/ShareProvider/ShareAPIHelper.php:67-89 | The share takes the recipient and the permissions, and its other fields are unchanged. The request sent is built from the node path and the first-`@` split. It carries a host exactly when the recipient holds an `@`. |
| RevaController.ToResourceInfo | lib/Controller/RevaController.php:56-109 | The resource path is the node path under `/`, and the opaque id is `fileid-` plus that path. No permission is granted, and the other fields are the fixed placeholders. |
| RevaController.ResourceInfoDeterminedByPath | lib/Controller/RevaController.php:56-109 | Two nodes translate to the same resource exactly when their paths agree. |
| RevaController.ParamOrRoot | lib/Controller/RevaController.php:158 | A parameter that is missing, `""` or `"0"` becomes `/`. Any other parameter is kept. |
| RevaController.ListFolder | lib/Controller/RevaController.php:339-359 | The root is listed as `.`. A failed listing answers 400 `Folder not found`, and only it does. Otherwise the answer is 200 with one resource per entry, in order. |
| RevaController.EmptyFolderListsEmpty | lib/Controller/RevaController.php:339-359 | An empty folder answers an empty 200 list, not an error. |
| RevaController.GetMD | lib/Controller/RevaController.php:259-281 | The root exists when the user's folder does, and any other path when the file system has it. An existing node answers 200 with the resource of its metadata, and a missing one 404 `File not found`. |
| RevaController.GetMDOfRoot | lib/Controller/RevaController.php:259-281 | For the root, metadata is read at `/` and not at the unused `.`. When the file system reports the root's path as `/`, the resource path is `//`. |
| RevaController.CreateDir | lib/Controller/RevaController.php:186-195 | The answer is 200 exactly when the directory is created, and 500 otherwise. |
| RevaController.Delete | lib/Controller/RevaController.php:223-232 | The answer is 200 exactly when the path is deleted, and 500 otherwise. |
| RevaController.Move | lib/Controller/RevaController.php:423-433 | The answer is 200 exactly when the move succeeds, and 500 otherwise. |
| RevaController.Upload | lib/Controller/RevaController.php:523-541 | An update of an existing path answers 200, a write of a new one 201, and a failure of either 500. |
| RevaController.NotImplemented | lib/Controller/RevaController.php:156-161 | Every stub handler answers 200 `Not implemented`. The other stubs are at lines 212-216, 366-370, 412-416, 440-445, 475-480, 487-493, 500-504 and 511-516. |
| RevaController.StripMeshPrefix | lib/Controller/RevaController.php:387 | A prefixed location is the prefix followed by the result. Any other location is returned unchanged. |
| RevaController.StripMeshPrefixOnce | lib/Controller/RevaController.php:387 | A doubled prefix loses only one copy. |
| RevaController.RecycleListing | lib/Controller/RevaController.php:383-403 | The listing is `EntryOf` mapped over the ScienceMesh items, in trash order. Every ScienceMesh item is listed, and nothing else. Each entry is public, has a `/`-free base name, and has the item's location without the prefix as its path. |
| RevaController.CollectedEntriesAreMeshEntries | lib/Controller/RevaController.php:383-403 | Collecting the entries of the prefixed items in one pass equals filtering the ScienceMesh items and then mapping `EntryOf` over them. |
| RevaController.ListRecycle | lib/Controller/RevaController.php:377-405 | The loop answers 200 with exactly `RecycleListing` of the trash. |
| RevaController.TrashBin.RemoveItem | lib/Controller/RevaController.php:248 | The item leaves the trash, the other items keep their order, and the restored items are unchanged. |
| RevaController.TrashBin.RestoreItem | lib/Controller/RevaController.php:462 | The item leaves the trash and is appended to the restored items. |
| RevaController.RestoreRecycleItem | lib/Controller/RevaController.php:452-468 | The first ScienceMesh item whose stripped location is the requested path is restored, with answer 200. With no such item nothing changes and the answer is 404. |
| RevaController.EmptyRecycle | lib/Controller/RevaController.php:239-252 | The trash keeps exactly its non-ScienceMesh items, in order. Nothing is restored, and the answer is always 200. |
| RevaController.EmptyRecycleAt | lib/Controller/RevaController.php:245-250 | One pass of the loop removes the visited item when its original location starts with `sciencemesh` and leaves it otherwise. Afterwards the trash holds the non-ScienceMesh items visited so far, followed by the items not yet visited. Nothing is restored. |
| RevaController.EmptyRecycleRemoves | lib/Controller/RevaController.php:247-249 | Removing a ScienceMesh item that occurs once in the listing takes exactly that item out of the unvisited part of the trash. |
| RevaController.EmptyRecyclePasses | lib/Controller/RevaController.php:245-250 | A non-ScienceMesh item stays in the trash and joins the kept part. |

## Left out

- Storage setup is left out: `initializeStorage`, `getFileSystem`,
  `getStorageUrl` and `CreateHome`. They wire the Flysystem adapter to the
  user's folder. The file system appears only as the functions the handlers
  call.
- `Authenticate`, `GetPathByID`, `InitiateUpload` and `respond` are left
  out. They check passwords, return fixed values or build HTTP headers, and
  state nothing about shares.
- The HTTP client to the peer is left out. `create` takes the peer as a
  function from request to response. The helper's `createShare` returns the
  request it sends, and the peer's answer is ignored as in the source.
- The provider's `delete` wrapper and the inherited `getSharedWith`,
  `getRawShare`, `createShareObject` and `removeShareFromTable` are not part
  of this model:
  - `createShareObject` is a function field (`None` where it throws);
  - `getSharedWith` is the query `AlreadySharedWith`;
  - `getRawShare` returns the row just inserted.
- `isShareTypeSupported` and the controller constructor are left out, as
  wiring with no behaviour of their own.
- Query-builder mechanics are left out: SQL text, parameter binding and
  cursors. In `deleteSentShareByName`, `getSentShareByPath` and
  `getShareByOpaqueId` the reused builder adds a second `from` table, which
  makes a cross join. The model keeps the meaning of those queries (the
  first matching row of the second table, in table order) rather than the
  rows a cross join would repeat.
- DeleteSentShareByName, DeleteReceivedShareByOpaqueId and
  AddScienceMeshUser send their DELETE or INSERT through `executeQuery()`.
  The other writes use `executeStatement()`. Nextcloud's query builder is
  not part of this model. The model treats these three calls as executed
  statements: it deletes or inserts, then returns `true` or the new id. On a
  query builder that refuses a non-SELECT in `executeQuery()`, these
  branches would throw before the table changes, and the model does not
  capture that.
- SentRowAsExternalObject: the `Share` class's setters are not part of this
  model. For a joined `share` row, the model passes the absent `owner`,
  `share_token` and `user` columns on as `null` fields. It does not capture
  a setter that refuses a non-string, which would turn that branch of
  `getShareByOpaqueId` into an error.
- `md5` is a function field. Its value is not computed.
- The current time is a parameter. Logging, localisation, concurrency and
  transactions are not modelled.
- The controller's `ref` parameter is taken as its path string. JSON
  decoding of the request body is left out.
- GetMD: `getMetadata` returning `false` is not modelled, because PHP then
  raises a type error in `nodeInfoToCS3ResourceInfo`.
- RestoreRecycleItem: the path comparison is string equality. PHP's loose
  `==` would also match two different numeric strings such as `"1"` and
  `"01"`.
- ReceiveShare: the keys of the received share data are assumed present. A
  missing key is a PHP warning and a `null` column.
- The trash manager is modelled only as far as the handlers use it (list,
  remove, restore). Versions, file-system moves and expiry are not modelled.
- TrashBin.Valid: the trash is taken to hold no item twice. The trash
  manager's listing does not promise this; it lets a removed item be told
  apart from an equal one left in the trash.
- CreateShare: the expiry date is accepted and not used, as in the source.
- Templates, settings pages, the app bootstrap and the test files are not
  part of this model.
