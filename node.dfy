/** A node of an outline: its identity, its kind, and the mutable record the
    book owns (src/domain/model/node.rs, src/domain/model/id.rs). */
module Node {
  import opened Wrappers
  import opened Seqs

  /** A node identifier. The source wraps a random UUID v4; the model keeps the
      canonical text form of that UUID and never generates one itself. */
  datatype NodeId = NodeId(uuid: string)

  /** A book identifier, likewise the text of a random UUID v4 chosen by the caller. */
  datatype BookId = BookId(uuid: string)

  datatype NodeType = Section | Content

  /** The abstract value of a node: every field of `TemplateNode` at one moment. */
  datatype NodeData = NodeData(
    id: NodeId,
    parent: Option<NodeId>,
    children: seq<NodeId>,
    title: string,
    body: Option<string>,
    nodeType: NodeType,
    placeholder: Option<string>)

  /** The value a freshly created node has. */
  function NewNodeData(id: NodeId, parent: Option<NodeId>, title: string, nodeType: NodeType): (d: NodeData)
    ensures d.id == id && d.parent == parent && d.title == title && d.nodeType == nodeType
    ensures d.children == [] && d.body.None? && d.placeholder.None?
  {
    NodeData(id, parent, [], title, None, nodeType, None)
  }

  /** `TemplateNode`: owned by exactly one book, updated in place through its setters. */
  class TemplateNode {
    const id: NodeId
    var parent: Option<NodeId>
    var children: seq<NodeId>
    var title: string
    var body: Option<string>
    var nodeType: NodeType
    var placeholder: Option<string>

    function Data(): (d: NodeData)
      reads this
      ensures d.id == id && d.children == children
    {
      NodeData(id, parent, children, title, body, nodeType, placeholder)
    }

    /** A new node has no children, no body and no placeholder. */
    constructor (id: NodeId, parent: Option<NodeId>, title: string, nodeType: NodeType)
      ensures Data() == NewNodeData(id, parent, title, nodeType)
    {
      this.id := id;
      this.parent := parent;
      this.children := [];
      this.title := title;
      this.body := None;
      this.nodeType := nodeType;
      this.placeholder := None;
    }

    /** A leaf is a node none of whose child slots is occupied. */
    function IsLeaf(): (b: bool)
      reads this
      ensures b <==> forall c :: c !in children
    {
      if |children| == 0 then true
      else
        assert children[0] in children;
        false
    }

    method SetTitle(title: string)
      modifies this
      ensures Data() == old(Data()).(title := title)
    {
      this.title := title;
    }

    method SetBody(body: Option<string>)
      modifies this
      ensures Data() == old(Data()).(body := body)
    {
      this.body := body;
    }

    method SetNodeType(nodeType: NodeType)
      modifies this
      ensures Data() == old(Data()).(nodeType := nodeType)
    {
      this.nodeType := nodeType;
    }

    method SetPlaceholder(placeholder: Option<string>)
      modifies this
      ensures Data() == old(Data()).(placeholder := placeholder)
    {
      this.placeholder := placeholder;
    }

    method SetParent(parent: Option<NodeId>)
      modifies this
      ensures Data() == old(Data()).(parent := parent)
    {
      this.parent := parent;
    }

    /** Inserts `child` at `min(position, |children|)`; nothing else changes. */
    method AddChild(child: NodeId, position: nat)
      modifies this
      ensures children == Insert(old(children), position, child)
      ensures Data() == old(Data()).(children := children)
    {
      children := Insert(children, position, child);
    }

    /** Drops every occurrence of `child`, keeping the other children in order. */
    method RemoveChild(child: NodeId)
      modifies this
      ensures children == Without(old(children), child)
      ensures Data() == old(Data()).(children := children)
    {
      children := Without(children, child);
    }
  }

  /** Adding a child that was absent and then removing it restores the child list:
      the insertion disturbs neither the other children nor their order. */
  lemma AddThenRemoveChild(children: seq<NodeId>, child: NodeId, position: nat)
    requires child !in children
    ensures Without(Insert(children, position, child), child) == children
  {
    var k := Min(position, |children|);
    assert children == children[..k] + children[k..];
    assert Insert(children, position, child) == children[..k] + [child] + children[k..];
    WithoutSplice(children[..k], child, children[k..]);
  }
}
