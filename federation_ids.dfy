/** Identifier and path rules of share creation: how a node path becomes the
    sender, source path and target path sent to the federation peer, how a
    recipient `user@host` is split, and the receive-side rules for the mount
    point name, the remote URL and the remote id. */
module FederationIds {
  import opened Results
  import opened PhpStrings

  /** A recipient as sent to the peer. `host` is `None` where PHP reads an
      array index that does not exist and passes `null`. */
  datatype Recipient = Recipient(username: string, host: Option<string>)

  /** The provider's split: the host is everything after the LAST `@`, the
      username everything before it (empty when there is no `@`). */
  function SplitRecipientAtLast(shareWith: string): (r: Recipient)
    ensures r.host.Some? && '@' !in r.host.value
  {
    var parts := Explode('@', shareWith);
    Recipient(Implode('@', parts[..|parts| - 1]), Some(parts[|parts| - 1]))
  }

  /** The API helper's split: segment 0 is the username, segment 1 the host.
      Without an `@` the username is the whole recipient and there is no
      host; otherwise the recipient starts with `username@host`, followed by
      nothing or by the next `@`. */
  function SplitRecipientAtFirst(shareWith: string): (r: Recipient)
    ensures '@' !in r.username
    ensures r.host.Some? <==> '@' in shareWith
    ensures r.host.Some? ==> '@' !in r.host.value
    ensures r.host.None? ==> r.username == shareWith
    ensures r.host.Some? ==>
      var head := r.username + "@" + r.host.value;
      StartsWith(shareWith, head) && (|shareWith| == |head| || shareWith[|head|] == '@')
  {
    var parts := Explode('@', shareWith);
    ImplodeExplode('@', shareWith);
    if |parts| == 1 then
      Recipient(parts[0], None)
    else
      ImplodeFirstTwo('@', parts);
      Recipient(parts[0], Some(parts[1]))
  }

  /** With an `@` present, the provider's parts join back to the recipient. */
  lemma SplitAtLastJoinsBack(shareWith: string)
    requires '@' in shareWith
    ensures var r := SplitRecipientAtLast(shareWith);
      r.username + "@" + r.host.value == shareWith
  {
    var parts := Explode('@', shareWith);
    var n := |parts|;
    assert parts == parts[..n - 1] + [parts[n - 1]];
    ImplodeSnoc('@', parts[..n - 1], parts[n - 1]);
    ImplodeExplode('@', shareWith);
  }

  /** Without an `@`, the provider raises nothing: the username is empty and the
      host is the whole string. */
  lemma SplitAtLastWithoutAt(shareWith: string)
    requires '@' !in shareWith
    ensures SplitRecipientAtLast(shareWith) == Recipient("", Some(shareWith))
  {
    ExplodeWithoutSeparator('@', shareWith);
  }

  /** Joining a username (which may itself hold `@`) and an `@`-free host and
      splitting again gives both back. */
  lemma SplitAtLastRoundTrip(username: string, host: string)
    requires '@' !in host
    ensures SplitRecipientAtLast(username + "@" + host) == Recipient(username, Some(host))
  {
    ExplodeAtSeparator('@', username, host);
    ExplodeWithoutSeparator('@', host);
    var parts := Explode('@', username + "@" + host);
    assert parts == Explode('@', username) + [host];
    assert parts[..|parts| - 1] == Explode('@', username);
    ImplodeExplode('@', username);
  }

  /** The two splits agree exactly when the recipient holds one `@`. */
  lemma SplitsAgreeIffOneAt(shareWith: string)
    ensures SplitRecipientAtLast(shareWith) == SplitRecipientAtFirst(shareWith)
        <==> Count('@', shareWith) == 1
  {
    var parts := Explode('@', shareWith);
    var n := |parts|;
    if n == 2 {
      assert parts[..1] == [parts[0]];
    } else if n > 2 {
      ImplodeHasSeparator('@', parts[..n - 1]);
    }
  }

  /** The provider's example from its own comment. */
  lemma SplitAtLastExample()
    ensures SplitRecipientAtLast("MahdiBaghbani@pondersource@sciencemesh.org")
         == Recipient("MahdiBaghbani@pondersource", Some("sciencemesh.org"))
  {
    var user, host := "MahdiBaghbani@pondersource", "sciencemesh.org";
    assert user + "@" + host == "MahdiBaghbani@pondersource@sciencemesh.org";
    SplitAtLastRoundTrip(user, host);
  }

  /** With two `@` in the recipient, the helper takes the first two pieces. */
  lemma SplitAtFirstOfTwoAts(user: string, host: string, extra: string)
    requires '@' !in user && '@' !in host && '@' !in extra
    ensures SplitRecipientAtFirst(user + "@" + host + "@" + extra) == Recipient(user, Some(host))
  {
    var s := user + "@" + host + "@" + extra;
    assert s == user + ['@'] + (host + ['@'] + extra);
    ExplodeHead('@', user, host + ['@'] + extra);
    ExplodeHead('@', host, extra);
  }

  /** On `a@b@c` the provider takes `("a@b", "c")`. */
  lemma SplitAtLastOfTwoAtsExample()
    ensures SplitRecipientAtLast("a@b@c") == Recipient("a@b", Some("c"))
  {
    assert "a@b@c" == "a@b" + "@" + "c";
    SplitAtLastRoundTrip("a@b", "c");
  }

  /** On `a@b@c` the helper takes `("a", "b")`. */
  lemma SplitAtFirstOfTwoAtsExample()
    ensures SplitRecipientAtFirst("a@b@c") == Recipient("a", Some("b"))
  {
    assert "a@b@c" == "a" + "@" + "b" + "@" + "c";
    SplitAtFirstOfTwoAts("a", "b", "c");
  }

  /** Sender and paths computed from a node path. `sender` is `None` where the
      path has no segment 1 and PHP passes `null`. */
  datatype SharePaths = SharePaths(sender: Option<string>, sourcePath: string, targetPath: string)

  /** Segments 0 to 2 of the node path (the empty root, the owner and the
      `files` area) are not part of the shared path. */
  const PATH_OFFSET := 3

  function DirSuffix(nodeType: string): string {
    if nodeType == "dir" then "/" else ""
  }

  /** Path rules of share creation; the provider and the API helper use the same ones. */
  function ComputeSharePaths(nodePath: string, nodeType: string): (p: SharePaths)
    ensures p.sourcePath == "/home" + p.targetPath
    ensures |p.targetPath| >= 1 && p.targetPath[0] == '/'
    ensures p.sender.Some? <==> '/' in nodePath
  {
    var parts := Explode('/', nodePath);
    var sender := if |parts| > 1 then Some(parts[1]) else None;
    // array_slice($pathParts, 3) is empty when there are at most three segments
    var shared := if |parts| > PATH_OFFSET then parts[PATH_OFFSET..] else [];
    var relative := Implode('/', shared);
    var suffix := DirSuffix(nodeType);
    SharePaths(sender, "/" + "home/" + relative + suffix, "/" + relative + suffix)
  }

  /** For a node at `/<owner>/<area>/<rest>`, the sender is the owner and the
      target path is `/<rest>`, with a `/` appended for a directory. */
  lemma {:induction false} PathsOfOwnedNode(owner: string, area: string, rest: string, nodeType: string)
    requires '/' !in owner && '/' !in area
    ensures var p := ComputeSharePaths("/" + owner + "/" + area + "/" + rest, nodeType);
      && p.sender == Some(owner)
      && p.targetPath == "/" + rest + DirSuffix(nodeType)
      && p.sourcePath == "/home" + p.targetPath
  {
    var path := "/" + owner + "/" + area + "/" + rest;
    OwnedPathJoined(owner, area, rest);
    OwnedPathSegments(owner, area, rest);
    PathsFromSegments(path, nodeType, owner, area, rest);
  }

  /** The sender and target path of a node whose path splits into the root,
      the owner, the area and the segments of `rest`. */
  lemma PathsFromSegments(nodePath: string, nodeType: string, owner: string, area: string, rest: string)
    requires Explode('/', nodePath) == [[], owner, area] + Explode('/', rest)
    ensures var p := ComputeSharePaths(nodePath, nodeType);
      p.sender == Some(owner) && p.targetPath == "/" + rest + DirSuffix(nodeType)
  {
    var parts := Explode('/', nodePath);
    assert parts[PATH_OFFSET..] == Explode('/', rest);
    ImplodeExplode('/', rest);
  }

  lemma OwnedPathSegments(owner: string, area: string, rest: string)
    requires '/' !in owner && '/' !in area
    ensures Explode('/', ['/'] + (owner + ['/'] + (area + ['/'] + rest))) == [[], owner, area] + Explode('/', rest)
  {
    var tail := area + ['/'] + rest;
    var body := owner + ['/'] + tail;
    ExplodeLeadingSeparator('/', body);
    ExplodeHead('/', owner, tail);
    ExplodeHead('/', area, rest);
    ThreeLeadingPieces(Explode('/', ['/'] + body), Explode('/', body), Explode('/', tail), Explode('/', rest), [], owner, area);
  }

  /** Three pieces pushed in front one by one form a three-piece prefix. */
  lemma ThreeLeadingPieces(e0: seq<string>, e1: seq<string>, e2: seq<string>, e3: seq<string>, x: string, y: string, z: string)
    requires e0 == [x] + e1 && e1 == [y] + e2 && e2 == [z] + e3
    ensures e0 == [x, y, z] + e3
  {
  }

  lemma OwnedPathJoined(owner: string, area: string, rest: string)
    ensures "/" + owner + "/" + area + "/" + rest == ['/'] + (owner + ['/'] + (area + ['/'] + rest))
  {
  }

  /** The directory rule: a directory's paths are a file's paths plus a trailing `/`. */
  lemma DirectoryAddsTrailingSlash(nodePath: string, nodeType: string)
    requires nodeType != "dir"
    ensures var d := ComputeSharePaths(nodePath, "dir");
      var f := ComputeSharePaths(nodePath, nodeType);
      d.sourcePath == f.sourcePath + "/" && d.targetPath == f.targetPath + "/" && d.sender == f.sender
  {
  }

  /** The paths of the directory `/<owner>/<area>/<rest>`, spelled out: the
      owner sends, and both paths end in `/`. */
  lemma DirPathsOf(owner: string, area: string, rest: string)
    requires '/' !in owner && '/' !in area
    ensures ComputeSharePaths("/" + owner + "/" + area + "/" + rest, "dir")
         == SharePaths(Some(owner), "/home/" + rest + "/", "/" + rest + "/")
  {
    PathsOfOwnedNode(owner, area, rest, "dir");
    assert DirSuffix("dir") == "/";
  }

  /** The body of the peer's create-share call. */
  datatype PeerRequest = PeerRequest(
    sender: Option<string>,
    sourcePath: string,
    targetPath: string,
    resourceType: string,
    recipientUsername: string,
    recipientHost: Option<string>)

  function ShareRequest(nodePath: string, nodeType: string, recipient: Recipient): (req: PeerRequest)
    ensures var p := ComputeSharePaths(nodePath, nodeType);
      req.sender == p.sender && req.sourcePath == p.sourcePath && req.targetPath == p.targetPath
    ensures req.resourceType == nodeType
    ensures req.recipientUsername == recipient.username && req.recipientHost == recipient.host
  {
    var p := ComputeSharePaths(nodePath, nodeType);
    PeerRequest(p.sender, p.sourcePath, p.targetPath, nodeType, recipient.username, recipient.host)
  }

  /** The request the provider's `create` sends. */
  function ProviderShareRequest(nodePath: string, nodeType: string, shareWith: string): PeerRequest {
    ShareRequest(nodePath, nodeType, SplitRecipientAtLast(shareWith))
  }

  /** The request the API helper's `createShare` sends. */
  function HelperShareRequest(nodePath: string, nodeType: string, shareWith: string): PeerRequest {
    ShareRequest(nodePath, nodeType, SplitRecipientAtFirst(shareWith))
  }

  /** Both entry points send the same paths; their requests coincide exactly
      when the recipient holds a single `@`. */
  lemma RequestsAgreeIffOneAt(nodePath: string, nodeType: string, shareWith: string)
    ensures var a := ProviderShareRequest(nodePath, nodeType, shareWith);
      var b := HelperShareRequest(nodePath, nodeType, shareWith);
      && a.sender == b.sender && a.sourcePath == b.sourcePath && a.targetPath == b.targetPath
      && (a == b <==> Count('@', shareWith) == 1)
  {
    SplitsAgreeIffOneAt(shareWith);
  }

  /** Mount point name of a received share, derived from the share's name. */
  function MountPoint(name: string): (m: string)
    ensures |m| == |name| + 28
    ensures m[26..|m| - 2] == name
  {
    "{{TemporaryMountPointName#" + name + "}}"
  }

  /** Different share names give different mount points. */
  lemma MountPointInjective(a: string, b: string)
    requires MountPoint(a) == MountPoint(b)
    ensures a == b
  {
    assert a == MountPoint(a)[26..|MountPoint(a)| - 2];
  }

  predicate HasHttpScheme(remote: string) {
    StartsWith(Lower(remote), "http://") || StartsWith(Lower(remote), "https://")
  }

  /** The remote URL as stored for a received share: `https://` is put in
      front unless it already starts with `http://` or `https://`, in any case. */
  function NormalizeRemote(remote: string): (r: string)
    ensures HasHttpScheme(r)
    ensures HasHttpScheme(remote) ==> r == remote
    ensures !HasHttpScheme(remote) ==> r == "https://" + remote
  {
    if HasHttpScheme(remote) then remote
    else
      var r := "https://" + remote;
      assert Lower(r)[..8] == "https://" by {
        forall i | 0 <= i < 8 ensures Lower(r)[i] == "https://"[i] {
          assert r[i] == "https://"[i];
        }
      }
      r
  }

  lemma NormalizeRemoteIdempotent(remote: string)
    ensures NormalizeRemote(NormalizeRemote(remote)) == NormalizeRemote(remote)
  {
  }

  /** The remote id as stored: surrounding `"` characters trimmed, the
      middle kept as it is. */
  function StoredRemoteId(remoteId: string): (r: string)
    ensures r == [] || (r[0] != '"' && r[|r| - 1] != '"')
    ensures IsTrimOf('"', remoteId, r)
  {
    Trim('"', remoteId)
  }

  /** A quoted id is stored without its quotes, and an unquoted one as it is. */
  lemma StoredRemoteIdUnquotes(id: string)
    requires id == [] || (id[0] != '"' && id[|id| - 1] != '"')
    ensures StoredRemoteId("\"" + id + "\"") == id
    ensures StoredRemoteId(id) == id
  {
    TrimSurrounded('"', id);
    TrimKeepsTrimmed('"', id);
  }
}
