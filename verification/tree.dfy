/**
 * The output node of src/components/tree.ts (`TTree`). Nodes are objects:
 * the tree builder links a node into its parent's child list first and
 * assigns the node's own `children` later, so the node is a class.
 * The `id` and `data` fields are never set by the builder and are left out.
 */
module TreeNodes {
  import opened Optional

  datatype NodeType = PersonNode | MarriageNode

  class TreeNode {
    const name: string
    const nodeType: NodeType
    const hidden: Option<bool>
    const noParent: Option<bool>
    /** The only field the builder assigns after a node is created. */
    var children: Option<seq<TreeNode>>

    constructor (name: string, nodeType: NodeType, hidden: Option<bool>, noParent: Option<bool>)
      ensures this.name == name && this.nodeType == nodeType
      ensures this.hidden == hidden && this.noParent == noParent
      ensures children == None
    {
      this.name := name;
      this.nodeType := nodeType;
      this.hidden := hidden;
      this.noParent := noParent;
      children := None;
    }
  }

  /** The names of a list of nodes, in order. */
  function Names(nodes: seq<TreeNode>): seq<string>
  {
    seq(|nodes|, i requires 0 <= i < |nodes| => nodes[i].name)
  }
}
