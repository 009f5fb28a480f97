/** The OCS share API's helper for ScienceMesh shares: the answer it formats
    for a share, and the share creation it performs by setting the recipient
    and the permissions and sending one request to the federation peer. */
module ShareApiHelper {
  import opened Results
  import opened FederationIds
  import opened Shares

  /** The array `formatShare` returns. */
  datatype FormattedShare = FormattedShare(shareWith: string, shareWithDisplayname: string, token: string)

  /** `formatShare`: the recipient, shown as its own display name, and the token. */
  function FormatShare(share: Share): (r: FormattedShare)
    reads share
    ensures r.shareWith == share.sharedWith && r.token == share.token
    ensures r.shareWithDisplayname == r.shareWith
  {
    FormattedShare(share.sharedWith, share.sharedWith, share.token)
  }

  /** `createShare`: set the recipient and the permissions on the share and
      send the peer the request built from the node and the recipient split
      at its first `@`. The request is returned; the peer's answer is not
      looked at, and the expiry date is not used. */
  method CreateShare(share: Share, shareWith: string, permissions: int, expireDate: Option<string>)
    returns (request: PeerRequest)
    modifies share
    ensures share.sharedWith == shareWith && share.permissions == permissions
    ensures share.sharedBy == old(share.sharedBy) && share.shareOwner == old(share.shareOwner)
    ensures share.token == old(share.token) && share.id == old(share.id)
    ensures share.providerId == old(share.providerId) && share.shareTime == old(share.shareTime)
    ensures request == HelperShareRequest(share.node.path, share.node.Type(), shareWith)
    ensures request.recipientHost.Some? <==> '@' in shareWith
    ensures FormatShare(share) == FormattedShare(shareWith, shareWith, old(share.token))
  {
    var node := share.node;
    share.sharedWith := shareWith;
    share.permissions := permissions;
    request := HelperShareRequest(node.path, node.Type(), shareWith);
  }
}
