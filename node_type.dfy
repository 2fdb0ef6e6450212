/**
  The node-type flags kept in the low bits of a page header's 16-bit `info`
  field: bit 0 marks a root, bit 1 an intermediate node, bit 2 a leaf, and
  bit 3 is unused.  The model follows the masks: `SetNodeType` clears bits
  0-3 and keeps bits 4-15.  The header's own field comment (btree.h:42-44)
  places the lock mode in bits 2-3, which conflicts with the masks, since
  those are the leaf and unused flags and `SetNodeType` clears them.
 */
module NodeType {

  const RootNode: bv16 := 0x1
  const IntermediateNode: bv16 := 0x2
  const LeafNode: bv16 := 0x4
  const UnUsed: bv16 := 0x8
  /** The node-type bits 0-3 of `info`. */
  const NodeTypeBits: bv16 := 0xF
  /** `exNodeTypeMask`: every bit of `info` except the node-type bits. */
  const ExNodeTypeMask: bv16 := 0xFFF0

  /**
    The value `SetNodeType` stores into `info`: the node-type bits are
    cleared, then `nodeType` is or-ed in.  The node-type bits become those of
    `nodeType`; every other bit keeps its value, or-ed with `nodeType`'s.
   */
  function WithNodeType(info: bv16, nodeType: bv16): (r: bv16)
    ensures r & NodeTypeBits == nodeType & NodeTypeBits
    ensures r & ExNodeTypeMask == (info | nodeType) & ExNodeTypeMask
  {
    (info & ExNodeTypeMask) | nodeType
  }

  predicate IsRootNode(info: bv16)
  {
    info & RootNode == RootNode
  }

  predicate IsIntermediateNode(info: bv16)
  {
    info & IntermediateNode == IntermediateNode
  }

  predicate IsLeafNode(info: bv16)
  {
    info & LeafNode == LeafNode
  }

  /**
    A node type made only of node-type flags replaces the low four bits and
    preserves all the others; each `Is*Node` test then reads back exactly
    whether its flag was in `nodeType`.
   */
  lemma SetNodeTypeReplacesTypeBits(info: bv16, nodeType: bv16)
    requires nodeType & ExNodeTypeMask == 0
    ensures WithNodeType(info, nodeType) & ExNodeTypeMask == info & ExNodeTypeMask
    ensures IsRootNode(WithNodeType(info, nodeType)) <==> nodeType & RootNode == RootNode
    ensures IsIntermediateNode(WithNodeType(info, nodeType)) <==> nodeType & IntermediateNode == IntermediateNode
    ensures IsLeafNode(WithNodeType(info, nodeType)) <==> nodeType & LeafNode == LeafNode
  {
  }

  /**
    Each `Is*Node` test looks only at the node-type bits 0-3: whatever is
    kept in bits 4-15 of `info` never changes its answer.
   */
  lemma NodeTypeTestsIgnoreOtherBits(info: bv16, other: bv16)
    requires other & NodeTypeBits == 0
    ensures IsRootNode(info | other) <==> IsRootNode(info)
    ensures IsIntermediateNode(info | other) <==> IsIntermediateNode(info)
    ensures IsLeafNode(info | other) <==> IsLeafNode(info)
  {
    assert (info | other) & NodeTypeBits == info & NodeTypeBits;
    assert (info | other) & RootNode == info & RootNode;
    assert (info | other) & IntermediateNode == info & IntermediateNode;
    assert (info | other) & LeafNode == info & LeafNode;
  }

  /** Each `Is*Node` test gives the same answer on the node-type bits of `info` alone. */
  lemma NodeTypeTestsReadTypeBits(info: bv16)
    ensures IsRootNode(info) <==> IsRootNode(info & NodeTypeBits)
    ensures IsIntermediateNode(info) <==> IsIntermediateNode(info & NodeTypeBits)
    ensures IsLeafNode(info) <==> IsLeafNode(info & NodeTypeBits)
  {
    // info is its node-type bits or-ed with bits that lie outside them
    assert (info & NodeTypeBits) | (info & ExNodeTypeMask) == info;
    assert (info & ExNodeTypeMask) & NodeTypeBits == 0;
    NodeTypeTestsIgnoreOtherBits(info & NodeTypeBits, info & ExNodeTypeMask);
  }

  /** The type the single-leaf test gives its page: a root leaf, not intermediate. */
  lemma RootLeafNodeType(info: bv16)
    ensures IsRootNode(WithNodeType(info, RootNode | LeafNode))
    ensures IsLeafNode(WithNodeType(info, RootNode | LeafNode))
    ensures !IsIntermediateNode(WithNodeType(info, RootNode | LeafNode))
  {
  }
}
