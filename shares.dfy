/** The share object that the sharing subsystem hands to the provider and the
    API helper, and that their setters update in place. */
module Shares {
  import opened Results

  /** The shared file or folder: its file id, its path `/<owner>/files/...`
      and whether it is a folder. */
  datatype Node = Node(id: int, path: string, isFolder: bool) {
    /** `getType()`: the node type the path rules and the peer see. */
    function Type(): (t: string)
      ensures t == "dir" <==> isFolder
    {
      if isFolder then "dir" else "file"
    }

    /** `getNodeType()` of a share on this node: the `item_type` column. */
    function ItemType(): (t: string)
      ensures t == "folder" <==> isFolder
    {
      if isFolder then "folder" else "file"
    }
  }

  /** A share: the node, the parties, the permission bits and the token, plus
      the id, provider id and creation time that the provider's `create` sets. */
  class Share {
    const node: Node
    var sharedWith: string
    var sharedBy: string
    var shareOwner: string
    var permissions: int
    var token: string
    var id: Option<string>
    var providerId: Option<string>
    var shareTime: Option<int>

    constructor(node: Node, sharedWith: string, sharedBy: string, shareOwner: string, permissions: int, token: string)
      ensures this.node == node && this.sharedWith == sharedWith && this.sharedBy == sharedBy
      ensures this.shareOwner == shareOwner && this.permissions == permissions && this.token == token
      ensures id == None && providerId == None && shareTime == None
    {
      this.node := node;
      this.sharedWith := sharedWith;
      this.sharedBy := sharedBy;
      this.shareOwner := shareOwner;
      this.permissions := permissions;
      this.token := token;
      id := None;
      providerId := None;
      shareTime := None;
    }
  }
}
