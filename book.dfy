/** The template book: the aggregate that owns every node of one outline and
    performs every structural change (src/domain/model/book.rs). */
module Book {
  import opened Wrappers
  import opened Seqs
  import opened Node
  import opened Arena

  /** `DomainError`: the three ways a book operation can be refused. */
  datatype DomainError =
    | NodeNotFound(missing: NodeId)
    | MaxDepthExceeded(nodeId: NodeId, max: u8)
    | CyclicMove(moved: NodeId)

  /** What `depth_of` computes on any map, well formed or not: one plus the
      number of parent links followed from `id`, following at most `budget` of them. */
  function ChainDepth(nodes: Nodes, id: NodeId, budget: nat): (d: nat)
    ensures 1 <= d <= budget + 1
    decreases budget
  {
    if budget > 0 && id in nodes && nodes[id].parent.Some? then 1 + ChainDepth(nodes, nodes[id].parent.value, budget - 1)
    else 1
  }

  /** In a well-formed arena the parent chain of a node is exactly its level long,
      so the capped walk yields the level whenever the cap is not reached. */
  lemma {:induction false} ChainDepthIsLevel(nodes: Nodes, level: map<NodeId, nat>, maxDepth: nat, id: NodeId, budget: nat)
    requires LevelsExact(nodes, level, maxDepth) && id in nodes
    ensures ChainDepth(nodes, id, budget) == Min(level[id], budget + 1)
    decreases budget
  {
    if budget > 0 && nodes[id].parent.Some? {
      var p := nodes[id].parent.value;
      assert p in level && level[id] == level[p] + 1;
      ChainDepthIsLevel(nodes, level, maxDepth, p, budget - 1);
    }
  }

  /** One step up from `k`, still an ancestor-or-self of `node`: the parent is a
      strict ancestor of `node`, one level higher than `k`. */
  lemma StepAbove(f: Forest, level: map<NodeId, nat>, maxDepth: nat, k: NodeId, node: NodeId)
    requires WellFormed(f, level, maxDepth) && k in f.nodes && f.nodes[k].parent.Some?
    requires Under(f.nodes, level, k, node) && node in f.nodes
    ensures var p := f.nodes[k].parent.value;
            p in f.nodes && p != node && Under(f.nodes, level, p, node) && level[p] < level[k]
  {
    var p := f.nodes[k].parent.value;
    UnderTrans(f.nodes, level, p, k, node);
    UnderLevel(f.nodes, level, k, node);
  }

  /** A strict ancestor of `k` other than its parent is an ancestor of that parent. */
  lemma StepBelow(f: Forest, level: map<NodeId, nat>, maxDepth: nat, k: NodeId, a: NodeId)
    requires WellFormed(f, level, maxDepth) && k in f.nodes && f.nodes[k].parent.Some?
    requires f.nodes[k].parent.value != a
    ensures Under(f.nodes, level, a, k) && a != k ==> Under(f.nodes, level, a, f.nodes[k].parent.value)
  {
  }

  /** Everything `collect_descendants` lists is a present node of the subtree. */
  lemma DescendantsInSubtree(f: Forest, level: map<NodeId, nat>, maxDepth: nat, root: NodeId, desc: seq<NodeId>)
    requires WellFormed(f, level, maxDepth) && root in f.nodes
    requires desc == Descendants(f.nodes, level, maxDepth, root)
    ensures forall j :: 0 <= j < |desc| ==> desc[j] in SubtreeSet(f, level, root) && desc[j] in f.nodes && desc[j] in level
  {
    SubtreeSetIsDescendants(f, level, maxDepth, root);
    forall j | 0 <= j < |desc| ensures desc[j] in SubtreeSet(f, level, root) && desc[j] in f.nodes && desc[j] in level {
      assert desc[j] in (set k | k in desc);
    }
  }

  /** What `subtree_max_depth` computes: the greatest `depth_of` over `root` and the ids in `ds`. */
  function DeepestDepth(nodes: Nodes, root: NodeId, ds: seq<NodeId>): (d: nat)
    ensures 1 <= d <= 255
    decreases |ds|
  {
    if ds == [] then ChainDepth(nodes, root, 254)
    else
      var rest := DeepestDepth(nodes, root, ds[..|ds| - 1]);
      var last := ChainDepth(nodes, ds[|ds| - 1], 254);
      if rest < last then last else rest
  }

  /** When every listed id lies in a set of nodes whose depths are exact and
      bounded by 255, the greatest depth bounds them all and is reached in the set. */
  lemma {:induction false} DeepestDepthBounds(nodes: Nodes, level: map<NodeId, nat>, maxDepth: nat, root: NodeId, ds: seq<NodeId>, S: set<NodeId>)
    requires LevelsExact(nodes, level, maxDepth) && maxDepth <= 255
    requires root in S && S <= nodes.Keys
    requires forall j :: 0 <= j < |ds| ==> ds[j] in S
    ensures level[root] <= DeepestDepth(nodes, root, ds)
    ensures forall j :: 0 <= j < |ds| ==> level[ds[j]] <= DeepestDepth(nodes, root, ds)
    ensures exists k :: k in S && level[k] == DeepestDepth(nodes, root, ds)
    decreases |ds|
  {
    if ds == [] {
      ChainDepthIsLevel(nodes, level, maxDepth, root, 254);
    } else {
      var init := ds[..|ds| - 1];
      var last := ds[|ds| - 1];
      assert forall j :: 0 <= j < |init| ==> init[j] == ds[j];
      DeepestDepthBounds(nodes, level, maxDepth, root, init, S);
      assert last in S;
      ChainDepthIsLevel(nodes, level, maxDepth, last, 254);
    }
  }

  /** In a well-formed arena, the greatest depth over the root and what
      `collect_descendants` lists is the greatest level in the subtree, and some node of the subtree has it. */
  lemma SubtreeMaxIsDeepest(f: Forest, level: map<NodeId, nat>, maxDepth: nat, root: NodeId, desc: seq<NodeId>)
    requires WellFormed(f, level, maxDepth) && maxDepth <= 255 && root in f.nodes
    requires desc == Descendants(f.nodes, level, maxDepth, root)
    ensures forall k :: k in SubtreeSet(f, level, root) ==> level[k] <= DeepestDepth(f.nodes, root, desc)
    ensures exists k :: k in SubtreeSet(f, level, root) && level[k] == DeepestDepth(f.nodes, root, desc)
  {
    var S := SubtreeSet(f, level, root);
    DescendantsInSubtree(f, level, maxDepth, root, desc);
    assert root in S;
    DeepestDepthBounds(f.nodes, level, maxDepth, root, desc, S);
    SubtreeSetIsDescendants(f, level, maxDepth, root);
    forall k | k in S ensures level[k] <= DeepestDepth(f.nodes, root, desc) {
      if k != root {
        assert k in (set k | k in desc);
        var j :| 0 <= j < |desc| && desc[j] == k;
      }
    }
  }

  /** `depth_of`: walks up the parent links from `id` counting levels, and stops
      at 255 so that a corrupted (cyclic) map cannot make it loop. In a
      well-formed arena the result is the node's level, capped at 255. */
  method DepthOf(f: Forest, ghost level: map<NodeId, nat>, ghost maxDepth: nat, id: NodeId) returns (d: u8)
    ensures d == ChainDepth(f.nodes, id, 254)
    ensures WellFormed(f, level, maxDepth) && id in f.nodes ==> d == Min(level[id], 255)
    ensures id !in f.nodes ==> d == 1
  {
    var nodes := f.nodes;
    var depth: nat := 1;
    var current := id;
    while current in nodes && nodes[current].parent.Some?
      invariant 1 <= depth <= 254
      invariant ChainDepth(nodes, id, 254) == depth - 1 + ChainDepth(nodes, current, 255 - depth)
      decreases 255 - depth
    {
      var parent := nodes[current].parent.value;
      // the saturating increment never saturates: the walk stops at 255
      depth := depth + 1;
      if depth == 255 {
        break;
      }
      current := parent;
    }
    d := depth;
    if WellFormed(f, level, maxDepth) && id in f.nodes {
      ChainDepthIsLevel(f.nodes, level, maxDepth, id, 254);
    }
  }

  /** `is_descendant_of`: whether `ancestor` is met when walking up the parent
      links from `node`, `node` itself not included. */
  method IsDescendantOf(f: Forest, ghost level: map<NodeId, nat>, ghost maxDepth: nat, node: NodeId, ancestor: NodeId) returns (b: bool)
    requires WellFormed(f, level, maxDepth)
    ensures b <==> node in f.nodes && node != ancestor && Under(f.nodes, level, ancestor, node)
  {
    var nodes := f.nodes;
    var current := node;
    while current in nodes && nodes[current].parent.Some?
      invariant current in nodes ==> node in nodes && Under(nodes, level, current, node)
      invariant Under(nodes, level, ancestor, node) && ancestor != node ==> Under(nodes, level, ancestor, current) && ancestor != current
      decreases if current in level then level[current] else 0
    {
      var parent := nodes[current].parent.value;
      StepAbove(f, level, maxDepth, current, node);
      if parent == ancestor {
        return true;
      }
      StepBelow(f, level, maxDepth, current, ancestor);
      current := parent;
    }
    return false;
  }

  /** `subtree_max_depth`: the greatest depth found in the subtree of `root`
      (the root's own depth, then each of `collect_descendants`). */
  method SubtreeMaxDepth(f: Forest, ghost level: map<NodeId, nat>, ghost maxDepth: nat, root: NodeId) returns (m: u8)
    requires Ranked(f.nodes, level, maxDepth)
    ensures m == DeepestDepth(f.nodes, root, Descendants(f.nodes, level, maxDepth, root))
    ensures root !in f.nodes ==> m == 1
    ensures WellFormed(f, level, maxDepth) && maxDepth <= 255 && root in f.nodes ==>
              && (forall k :: k in SubtreeSet(f, level, root) ==> level[k] <= m)
              && (exists k :: k in SubtreeSet(f, level, root) && level[k] == m)
  {
    m := DepthOf(f, level, maxDepth, root);
    var descendants := Descendants(f.nodes, level, maxDepth, root);
    for i := 0 to |descendants|
      invariant m == DeepestDepth(f.nodes, root, descendants[..i])
    {
      var d := DepthOf(f, level, maxDepth, descendants[i]);
      assert descendants[..i + 1][..i] == descendants[..i];
      if d > m {
        m := d;
      }
    }
    assert descendants[..|descendants|] == descendants;
    if WellFormed(f, level, maxDepth) && maxDepth <= 255 && root in f.nodes {
      SubtreeMaxIsDeepest(f, level, maxDepth, root, descendants);
    }
  }

  /** The verdict `validate_move` should reach: the node and the new parent must
      exist, the new parent must lie outside the moved subtree (the node itself
      included), and the shifted subtree must still fit under `maxDepth`. */
  ghost function MoveCheck(f: Forest, level: map<NodeId, nat>, maxDepth: u8, id: NodeId, newParent: Option<NodeId>): (r: Outcome<DomainError>)
    requires LevelsExact(f.nodes, level, maxDepth)
    ensures r.Pass? ==> id in f.nodes && (newParent.Some? ==> newParent.value in f.nodes && newParent.value != id)
    ensures id in f.nodes && newParent == Some(id) ==> r == Fail(CyclicMove(id))
  {
    if id !in f.nodes then Fail(NodeNotFound(id))
    else if newParent.Some? && newParent.value !in f.nodes then Fail(NodeNotFound(newParent.value))
    else if newParent.Some? && Under(f.nodes, level, id, newParent.value) then Fail(CyclicMove(id))
    else if exists k :: k in f.nodes && Under(f.nodes, level, id, k) && level[k] - level[id] + NewDepth(level, newParent) > maxDepth then
      Fail(MaxDepthExceeded(id, maxDepth))
    else Pass
  }

  /** A move that passes the check satisfies what `MovePreservesWf` needs. */
  lemma MoveCheckPassSuffices(f: Forest, level: map<NodeId, nat>, maxDepth: u8, id: NodeId, newParent: Option<NodeId>)
    requires WellFormed(f, level, maxDepth)
    ensures MoveCheck(f, level, maxDepth, id, newParent) == Pass <==>
              && id in f.nodes
              && (newParent.Some? ==> newParent.value in f.nodes && !Under(f.nodes, level, id, newParent.value))
              && (forall k :: k in f.nodes && Under(f.nodes, level, id, k) ==> level[k] - level[id] + NewDepth(level, newParent) <= maxDepth)
  {
  }

  /** The subtree's deepest level decides whether the shifted subtree fits. */
  lemma DepthVerdict(f: Forest, level: map<NodeId, nat>, maxDepth: nat, id: NodeId, base: nat, deepest: nat)
    requires f.nodes.Keys == level.Keys && id in f.nodes
    requires forall k :: k in SubtreeSet(f, level, id) ==> level[k] <= deepest
    requires exists k :: k in SubtreeSet(f, level, id) && level[k] == deepest
    ensures (base + deepest - level[id] > maxDepth) <==>
              exists k :: k in f.nodes && Under(f.nodes, level, id, k) && level[k] - level[id] + base > maxDepth
  {
    var w :| w in SubtreeSet(f, level, id) && level[w] == deepest;
    assert w in f.nodes && Under(f.nodes, level, id, w);
  }

  /** `validate_move`, with the cycle test also refusing a move of a node under
      itself and with the new depth computed without saturation. */
  method ValidateMove(f: Forest, ghost level: map<NodeId, nat>, maxDepth: u8, id: NodeId, newParent: Option<NodeId>) returns (r: Outcome<DomainError>)
    requires WellFormed(f, level, maxDepth)
    ensures r == MoveCheck(f, level, maxDepth, id, newParent)
  {
    if id !in f.nodes {
      return Fail(NodeNotFound(id));
    }
    if newParent.Some? {
      var np := newParent.value;
      if np !in f.nodes {
        return Fail(NodeNotFound(np));
      }
      var below := IsDescendantOf(f, level, maxDepth, np, id);
      if np == id || below {
        return Fail(CyclicMove(id));
      }
    }
    var subtreeMax := SubtreeMaxDepth(f, level, maxDepth, id);
    var currentDepth := DepthOf(f, level, maxDepth, id);
    var newBaseDepth: nat := 1;
    if newParent.Some? {
      var d := DepthOf(f, level, maxDepth, newParent.value);
      newBaseDepth := d as nat + 1;
    }
    assert id in SubtreeSet(f, level, id);
    // the subtree's deepest node is at least as deep as its root: no saturation
    var depthDelta: nat := if subtreeMax >= currentDepth then subtreeMax - currentDepth else 0;
    DepthVerdict(f, level, maxDepth, id, newBaseDepth, subtreeMax as nat);
    if newBaseDepth + depthDelta > maxDepth as nat {
      return Fail(MaxDepthExceeded(id, maxDepth));
    }
    return Pass;
  }

  /** The depth `add_node` gives a new node: 1 for a root, else one more than
      its parent's `depth_of`. */
  method ChildDepth(f: Forest, ghost level: map<NodeId, nat>, ghost maxDepth: nat, parent: Option<NodeId>) returns (d: nat)
    requires WellFormed(f, level, maxDepth) && maxDepth <= 255
    requires parent.Some? ==> parent.value in f.nodes
    ensures d == NewDepth(level, parent)
  {
    d := 1;
    if parent.Some? {
      var pd := DepthOf(f, level, maxDepth, parent.value);
      d := pd as nat + 1;
    }
  }

  // ---------------------------------------------------------------- the checks as written

  /** `u8::saturating_add`: never below either operand; the exact sum, or 255. */
  function SaturatingAdd(a: u8, b: u8): (r: u8)
    ensures a <= r && b <= r
    ensures r as nat == a as nat + b as nat || r == 255
  {
    if a as nat + b as nat > 255 then 255 else a + b
  }

  /** `u8::saturating_sub`: never above the first operand; the exact difference, or 0. */
  function SaturatingSub(a: u8, b: u8): (r: u8)
    ensures r <= a
    ensures r as nat + b as nat == a as nat || r == 0
  {
    if a < b then 0 else a - b
  }

  /** `validate_move` as written: the cycle test walks up from the new parent's
      parent, so a node proposed as its own parent is not refused, and the depth
      test adds with saturation at 255. */
  ghost function MoveCheckAsWritten(f: Forest, level: map<NodeId, nat>, maxDepth: u8, id: NodeId, newParent: Option<NodeId>): (r: Outcome<DomainError>)
    requires Ranked(f.nodes, level, maxDepth)
    ensures r.Pass? ==> id in f.nodes && (newParent.Some? ==> newParent.value in f.nodes)
    ensures (&& id in f.nodes && newParent.Some? && newParent.value in f.nodes && newParent.value != id
             && Under(f.nodes, level, id, newParent.value)) ==> r == Fail(CyclicMove(id))
  {
    if id !in f.nodes then Fail(NodeNotFound(id))
    else if newParent.Some? && newParent.value !in f.nodes then Fail(NodeNotFound(newParent.value))
    else if newParent.Some? && newParent.value != id && Under(f.nodes, level, id, newParent.value) then Fail(CyclicMove(id))
    else
      var subtreeMax := DeepestDepth(f.nodes, id, Descendants(f.nodes, level, maxDepth, id)) as u8;
      var current := ChainDepth(f.nodes, id, 254) as u8;
      var base := if newParent.Some? then SaturatingAdd(ChainDepth(f.nodes, newParent.value, 254) as u8, 1) else 1;
      if SaturatingAdd(base, SaturatingSub(subtreeMax, current)) > maxDepth then Fail(MaxDepthExceeded(id, maxDepth))
      else Pass
  }

  /** The depth `add_node` computes as written: one more than the parent's depth
      in `u8`, which wraps to 0 past 255 in an unchecked build. */
  function AddDepthAsWritten(nodes: Nodes, parent: Option<NodeId>): (d: u8)
    ensures parent.None? ==> d == 1
  {
    match parent
    case None => 1
    case Some(p) => ((ChainDepth(nodes, p, 254) + 1) % 256) as u8
  }

  /** A leaf has no strict descendant. */
  lemma {:induction false} LeafAlone(nodes: Nodes, level: map<NodeId, nat>, a: NodeId, k: NodeId)
    requires ParentsPresent(nodes) && ChildrenExact(nodes)
    requires a in nodes && nodes[a].children == []
    ensures Under(nodes, level, a, k) ==> k == a
    decreases if k in level then level[k] else 0
  {
    if k != a && Under(nodes, level, a, k) {
      var p := nodes[k].parent.value;
      if p != a {
        LeafAlone(nodes, level, a, p);
      }
    }
  }

  /** Moving a node under itself passes the check as written whenever its
      subtree is shallower than the limit, while the intended check refuses it;
      the move then leaves the node as its own parent, outside every root's tree. */
  lemma SelfMoveAcceptedAsWritten(f: Forest, level: map<NodeId, nat>, maxDepth: u8, x: NodeId, position: nat)
    requires WellFormed(f, level, maxDepth) && x in f.nodes
    requires DeepestDepth(f.nodes, x, Descendants(f.nodes, level, maxDepth, x)) < maxDepth as nat
    ensures MoveCheckAsWritten(f, level, maxDepth, x, Some(x)) == Pass
    ensures MoveCheck(f, level, maxDepth, x, Some(x)) == Fail(CyclicMove(x))
    ensures MoveValue(f, x, Some(x), position).nodes[x].parent == Some(x)
    ensures forall level2, maxDepth2 :: !WellFormed(MoveValue(f, x, Some(x), position), level2, maxDepth2)
  {
    ChainDepthIsLevel(f.nodes, level, maxDepth, x, 254);
    SubtreeMaxIsDeepest(f, level, maxDepth, x, Descendants(f.nodes, level, maxDepth, x));
    assert x in SubtreeSet(f, level, x);
    forall level2, maxDepth2 ensures !WellFormed(MoveValue(f, x, Some(x), position), level2, maxDepth2) {
      SelfMoveBreaksWf(f, level, maxDepth, x, position, level2, maxDepth2);
    }
  }

  /** With `max_depth` 255, moving a leaf root under a node at depth 255 passes
      the saturating check as written, while the intended check refuses it:
      the moved node would sit at depth 256. */
  lemma MoveSaturationAsWritten(f: Forest, level: map<NodeId, nat>, id: NodeId, np: NodeId)
    requires WellFormed(f, level, 255)
    requires id in f.nodes && f.nodes[id].parent.None? && f.nodes[id].children == []
    requires np in f.nodes && level[np] == 255
    ensures MoveCheckAsWritten(f, level, 255, id, Some(np)) == Pass
    ensures MoveCheck(f, level, 255, id, Some(np)) == Fail(MaxDepthExceeded(id, 255))
  {
    LeafAlone(f.nodes, level, id, np);
    ChainDepthIsLevel(f.nodes, level, 255, np, 254);
    assert Descendants(f.nodes, level, 255, id) == [];
    assert Under(f.nodes, level, id, id);
  }

  /** With `max_depth` 255, adding a child to a node at depth 255 computes a
      depth of 0 as written, which passes the `> max_depth` test; the intended
      depth is 256, which `AddNode` refuses. */
  lemma AddWrapAsWritten(f: Forest, level: map<NodeId, nat>, p: NodeId)
    requires LevelsExact(f.nodes, level, 255) && p in f.nodes && level[p] == 255
    ensures AddDepthAsWritten(f.nodes, Some(p)) == 0
    ensures NewDepth(level, Some(p)) > 255
  {
    ChainDepthIsLevel(f.nodes, level, 255, p, 254);
  }

  /** The node `add_node` creates: `TemplateNode::new`, then its body and placeholder. */
  method NewNode(parent: Option<NodeId>, title: string, nodeType: NodeType, body: Option<string>,
                 placeholder: Option<string>, newId: NodeId) returns (node: TemplateNode)
    ensures fresh(node)
    ensures node.id == newId && node.Data() == NewNodeData(newId, parent, title, nodeType).(body := body, placeholder := placeholder)
  {
    node := new TemplateNode(newId, parent, title, nodeType);
    node.SetBody(body);
    node.SetPlaceholder(placeholder);
  }

  /** `UpdateNodeRequest`: a field left `None` is not changed; for body and
      placeholder, `Some(None)` clears the field. */
  datatype UpdateRequest = UpdateRequest(
    title: Option<string>,
    body: Option<Option<string>>,
    nodeType: Option<NodeType>,
    placeholder: Option<Option<string>>)

  /** The record after `update_node`: exactly the requested fields change. */
  function Updated(d: NodeData, req: UpdateRequest): (e: NodeData)
    ensures e.id == d.id && e.parent == d.parent && e.children == d.children
    ensures e.title == (if req.title.Some? then req.title.value else d.title)
    ensures e.body == (if req.body.Some? then req.body.value else d.body)
    ensures e.nodeType == (if req.nodeType.Some? then req.nodeType.value else d.nodeType)
    ensures e.placeholder == (if req.placeholder.Some? then req.placeholder.value else d.placeholder)
  {
    var d1 := if req.title.Some? then d.(title := req.title.value) else d;
    var d2 := if req.body.Some? then d1.(body := req.body.value) else d1;
    var d3 := if req.nodeType.Some? then d2.(nodeType := req.nodeType.value) else d2;
    if req.placeholder.Some? then d3.(placeholder := req.placeholder.value) else d3
  }

  /** An update whose fields are all `None` changes nothing. */
  lemma EmptyUpdateIsIdentity(d: NodeData)
    ensures Updated(d, UpdateRequest(None, None, None, None)) == d
  {
  }

  /** Forgetting the node and then its collected descendants forgets exactly its subtree. */
  lemma RemovedRecords(f: Forest, level: map<NodeId, nat>, maxDepth: nat, id: NodeId, descendants: seq<NodeId>)
    requires WellFormed(f, level, maxDepth) && id in f.nodes
    requires descendants == Descendants(f.nodes, level, maxDepth, id)
    ensures Detach(f, id).nodes - {id} - (set k | k in descendants) == Detach(f, id).nodes - SubtreeSet(f, level, id)
  {
    SubtreeSetIsDescendants(f, level, maxDepth, id);
    var below := set k | k in descendants;
    assert SubtreeSet(f, level, id) == {id} + below;
    RemoveTwice(Detach(f, id).nodes, {id}, below);
  }

  lemma RemoveTwice<K, V>(m: map<K, V>, a: set<K>, b: set<K>)
    ensures m - a - b == m - (a + b)
  {
  }

  /** The setters `update_node` calls, one per requested field. */
  method UpdateFields(node: TemplateNode, req: UpdateRequest)
    modifies node
    ensures node.Data() == Updated(old(node.Data()), req)
  {
    if req.title.Some? {
      node.SetTitle(req.title.value);
    }
    if req.body.Some? {
      node.SetBody(req.body.value);
    }
    if req.nodeType.Some? {
      node.SetNodeType(req.nodeType.value);
    }
    if req.placeholder.Some? {
      node.SetPlaceholder(req.placeholder.value);
    }
  }

  /** `update_node` changes no link, so the arena stays well formed. */
  lemma UpdatePreservesWf(f: Forest, level: map<NodeId, nat>, maxDepth: nat, id: NodeId, req: UpdateRequest)
    requires WellFormed(f, level, maxDepth) && id in f.nodes
    ensures WellFormed(Forest(f.nodes[id := Updated(f.nodes[id], req)], f.roots), level, maxDepth)
  {
    SameLinksPreservesWf(f, Forest(f.nodes[id := Updated(f.nodes[id], req)], f.roots), level, maxDepth);
  }

  /** The parent of a present node is present. */
  lemma PresentParentIsPresent(f: Forest, level: map<NodeId, nat>, maxDepth: nat, id: NodeId)
    requires WellFormed(f, level, maxDepth) && id in f.nodes
    ensures f.nodes[id].parent.Some? ==> f.nodes[id].parent.value in f.nodes
  {
  }

  /** A move that passes the check names present nodes. */
  lemma PassedMoveIsLinked(f: Forest, level: map<NodeId, nat>, wf: bool, maxDepth: u8, id: NodeId, newParent: Option<NodeId>)
    requires wf == WellFormed(f, level, maxDepth) && wf
    requires MoveCheck(f, level, maxDepth, id, newParent) == Pass
    ensures id in f.nodes && id in level
    ensures f.nodes[id].parent.Some? ==> f.nodes[id].parent.value in f.nodes
    ensures newParent.Some? ==> newParent.value in f.nodes
  {
  }

  /** `TemplateBook`: the aggregate root. Node objects are owned by `nodes`;
      `records` is their value, kept in step by every operation, so that the
      structural facts are stated on the `Forest` value of `Arena`. */
  class TemplateBook {
    const id: BookId
    const title: string
    const maxDepth: u8
    var nodes: map<NodeId, TemplateNode>
    var roots: seq<NodeId>
    /** The value of every stored node object. */
    ghost var records: Nodes
    /** The depth of every node (roots at 1). It exists exactly when the parent
        links are acyclic, and it is what every structural operation maintains. */
    ghost var level: map<NodeId, nat>

    /** The records of all nodes, read from the objects. */
    function Snapshot(): (m: Nodes)
      reads this`nodes, nodes.Values
      ensures m.Keys == nodes.Keys
      ensures forall k :: k in nodes ==> m[k] == nodes[k].Data()
    {
      map k | k in nodes :: nodes[k].Data()
    }

    /** Each entry owns its own object, and `records` holds the objects' values. */
    ghost predicate Coupled()
      reads this`nodes, this`records, nodes.Values
    {
      && nodes.Keys == records.Keys
      && (forall a, b :: a in nodes && b in nodes && a != b ==> nodes[a] != nodes[b])
      && (forall k :: k in nodes ==> nodes[k].Data() == records[k])
    }

    ghost predicate Valid()
      reads this, nodes.Values
    {
      Coupled() && WellFormed(Forest(records, roots), level, maxDepth)
    }

    lemma SnapshotIsRecords()
      requires Coupled()
      ensures Snapshot() == records
    {
    }

    /** `TemplateBook::new`: an empty book. */
    constructor (id: BookId, title: string, maxDepth: u8)
      ensures Valid()
      ensures this.id == id && this.title == title && this.maxDepth == maxDepth
      ensures records == map[] && roots == []
    {
      this.id := id;
      this.title := title;
      this.maxDepth := maxDepth;
      nodes := map[];
      roots := [];
      records := map[];
      level := map[];
    }

    /** `get_node`: the node stored under `id`, which carries that id. */
    function GetNode(id: NodeId): (r: Option<TemplateNode>)
      reads this, nodes.Values
      requires Valid()
      ensures r.Some? <==> id in records
      ensures r.Some? ==> r.value.id == id && r.value.Data() == records[id]
    {
      if id in nodes then Some(nodes[id]) else None
    }

    /** `node_count`: the number of nodes, which is also the length of the full traversal. */
    function NodeCount(): (n: nat)
      reads this, nodes.Values
      requires Valid()
      ensures n == |records|
      ensures n == |AllNodesDfs(Forest(records, roots), level, maxDepth)|
    {
      AllNodesDfsExact(Forest(records, roots), level, maxDepth);
      |nodes|
    }

    // Each heap step below touches one node object and states its effect on
    // `records`; the operations then reason about values only.

    /** Stores a node object that no entry owns yet. */
    method PutNode(node: TemplateNode)
      requires Coupled() && node.id !in nodes && node !in nodes.Values
      modifies this`nodes, this`records
      ensures Coupled() && nodes == old(nodes)[node.id := node]
      ensures records == old(records)[node.id := node.Data()]
    {
      nodes := nodes[node.id := node];
      records := records[node.id := node.Data()];
    }

    /** Forgets the entry under `k`, if any (`HashMap::remove`). */
    method DropNode(k: NodeId)
      requires Coupled()
      modifies this`nodes, this`records
      ensures Coupled() && records == old(records) - {k}
    {
      nodes := nodes - {k};
      records := records - {k};
    }

    /** `add_child` on the node stored under `p`. */
    method LinkChild(p: NodeId, child: NodeId, position: nat)
      requires Coupled() && p in nodes
      modifies this`records, nodes[p]
      ensures Coupled() && nodes == old(nodes)
      ensures records == old(records)[p := old(records)[p].(children := Insert(old(records)[p].children, position, child))]
    {
      nodes[p].AddChild(child, position);
      records := records[p := nodes[p].Data()];
    }

    /** `remove_child` on the node stored under `p`. */
    method UnlinkChild(p: NodeId, child: NodeId)
      requires Coupled() && p in nodes
      modifies this`records, nodes[p]
      ensures Coupled() && nodes == old(nodes)
      ensures records == old(records)[p := old(records)[p].(children := Without(old(records)[p].children, child))]
    {
      nodes[p].RemoveChild(child);
      records := records[p := nodes[p].Data()];
    }

    /** `set_parent` on the node stored under `k`. */
    method SetParentOf(k: NodeId, parent: Option<NodeId>)
      requires Coupled() && k in nodes
      modifies this`records, nodes[k]
      ensures Coupled() && nodes == old(nodes)
      ensures records == old(records)[k := old(records)[k].(parent := parent)]
    {
      nodes[k].SetParent(parent);
      records := records[k := nodes[k].Data()];
    }

    /** Records the depths of the nodes after a structural change. */
    ghost method SetLevel(lv: map<NodeId, nat>)
      requires Coupled()
      modifies this`level
      ensures Coupled() && level == lv
    {
      level := lv;
    }

    /** The heap part of `add_node`: the new node object is stored, then linked
        under its parent or among the roots at the clamped position. */
    method InsertNode(parent: Option<NodeId>, title: string, nodeType: NodeType, body: Option<string>,
                      placeholder: Option<string>, position: nat, newId: NodeId)
      requires Coupled() && newId !in nodes
      requires parent.Some? ==> parent.value in nodes
      modifies this`nodes, this`records, this`roots, nodes.Values
      ensures Coupled()
      ensures Forest(records, roots) == AddNodeValue(old(Forest(records, roots)), newId, parent, title, nodeType, body, placeholder, position)
      ensures newId in nodes && fresh(nodes[newId]) && nodes == old(nodes)[newId := nodes[newId]]
    {
      var node := NewNode(parent, title, nodeType, body, placeholder, newId);
      PutNode(node);
      if parent.Some? {
        LinkChild(parent.value, newId, position);
      } else {
        AddRoot(newId, position);
      }
    }

    /** The new id joins the roots at the clamped position. */
    method AddRoot(newId: NodeId, position: nat)
      modifies this`roots
      ensures roots == Insert(old(roots), position, newId)
    {
      roots := Insert(roots, position, newId);
    }

    // The `ValidAfter` lemmas below take the old arena's well-formedness as a
    // boolean `wf`, so that callers pass it on as one fact.

    lemma ValidAfterAdd(f: Forest, lv: map<NodeId, nat>, wf: bool, parent: Option<NodeId>, title: string, nodeType: NodeType,
                        body: Option<string>, placeholder: Option<string>, position: nat, newId: NodeId)
      requires wf == WellFormed(f, lv, maxDepth) && wf
      requires Coupled() && newId !in f.nodes
      requires parent.Some? ==> parent.value in f.nodes
      requires NewDepth(lv, parent) <= maxDepth as nat
      requires Forest(records, roots) == AddNodeValue(f, newId, parent, title, nodeType, body, placeholder, position)
      requires level == lv[newId := NewDepth(lv, parent)]
      ensures Valid()
    {
      AddPreservesWf(f, lv, maxDepth, newId, parent, title, nodeType, body, placeholder, position);
    }

    /** `add_node`. `newId` stands for the random id the source generates. A
        missing parent is refused, then a depth past `maxDepth`, both before
        anything changes; otherwise the new node joins its parent's children
        (or the roots) at the clamped position, one level below its parent. */
    method AddNode(parent: Option<NodeId>, title: string, nodeType: NodeType, body: Option<string>,
                   placeholder: Option<string>, position: nat, newId: NodeId) returns (r: Result<NodeId, DomainError>)
      requires Valid() && newId !in nodes
      modifies this`nodes, this`records, this`roots, this`level, nodes.Values
      ensures parent.Some? && parent.value !in old(records) ==> r == Err(NodeNotFound(parent.value))
      ensures (parent.Some? ==> parent.value in old(records)) ==>
                r == if NewDepth(old(level), parent) > maxDepth as nat then Err(MaxDepthExceeded(newId, maxDepth)) else Ok(newId)
      ensures r.Err? ==> records == old(records) && roots == old(roots) && level == old(level)
      ensures r.Ok? ==>
                && Forest(records, roots) == AddNodeValue(old(Forest(records, roots)), newId, parent, title, nodeType, body, placeholder, position)
                && level == old(level)[newId := NewDepth(old(level), parent)]
      ensures r.Err? ==> nodes == old(nodes)
      ensures r.Ok? ==> newId in nodes && fresh(nodes[newId]) && nodes == old(nodes)[newId := nodes[newId]]
      ensures Valid()
    {
      if parent.Some? && parent.value !in nodes {
        return Err(NodeNotFound(parent.value));
      }
      SnapshotIsRecords();
      var newDepth := ChildDepth(Forest(Snapshot(), roots), level, maxDepth, parent);
      if newDepth > maxDepth as nat {
        return Err(MaxDepthExceeded(newId, maxDepth));
      }
      ghost var f := Forest(records, roots);
      ghost var wf := WellFormed(f, level, maxDepth);
      InsertNode(parent, title, nodeType, body, placeholder, position, newId);
      SetLevel(old(level)[newId := newDepth]);
      ValidAfterAdd(f, old(level), wf, parent, title, nodeType, body, placeholder, position, newId);
      return Ok(newId);
    }

    // ---------------------------------------------------------------- update

    /** `update_node` on the object under `id`. */
    method ApplyUpdate(id: NodeId, req: UpdateRequest)
      requires Coupled() && id in nodes
      modifies this`records, nodes[id]
      ensures Coupled() && nodes == old(nodes)
      ensures records == old(records)[id := Updated(old(records)[id], req)]
    {
      UpdateFields(nodes[id], req);
      records := records[id := nodes[id].Data()];
    }

    /** `update_node`: a missing id is refused before anything changes;
        otherwise exactly the requested fields of that one node change. */
    method UpdateNode(id: NodeId, req: UpdateRequest) returns (r: Outcome<DomainError>)
      requires Valid()
      modifies this`records, nodes.Values
      ensures id !in old(records) ==> r == Fail(NodeNotFound(id)) && records == old(records)
      ensures id in old(records) ==> r == Pass && records == old(records)[id := Updated(old(records)[id], req)]
      ensures Valid()
    {
      if id !in nodes {
        return Fail(NodeNotFound(id));
      }
      ghost var f := Forest(records, roots);
      ghost var wf := WellFormed(f, level, maxDepth);
      ApplyUpdate(id, req);
      ValidAfterUpdate(f, wf, id, req);
      return Pass;
    }

    lemma ValidAfterUpdate(f: Forest, wf: bool, id: NodeId, req: UpdateRequest)
      requires wf == WellFormed(f, level, maxDepth) && wf
      requires Coupled() && id in f.nodes
      requires roots == f.roots && records == f.nodes[id := Updated(f.nodes[id], req)]
      ensures Valid()
    {
      UpdatePreservesWf(f, level, maxDepth, id, req);
    }

    // ---------------------------------------------------------------- move

    /** `detach_from_parent`: `id` leaves its parent's child list, or the root
        list. A missing node, or a missing parent, is reported and nothing changes. */
    method DetachFromParent(id: NodeId) returns (r: Outcome<DomainError>)
      requires Coupled()
      modifies this`roots, this`records, nodes.Values
      ensures Coupled() && nodes == old(nodes)
      ensures r == if id !in old(records) then Fail(NodeNotFound(id))
                   else if old(records)[id].parent.Some? && old(records)[id].parent.value !in old(records)
                   then Fail(NodeNotFound(old(records)[id].parent.value))
                   else Pass
      ensures r.Fail? ==> records == old(records) && roots == old(roots)
      ensures r.Pass? ==>
                && Forest(records, roots) == Detach(old(Forest(records, roots)), id)
    {
      if id !in nodes {
        return Fail(NodeNotFound(id));
      }
      var oldParent := nodes[id].parent;
      match oldParent {
        case Some(op) =>
          if op !in nodes {
            return Fail(NodeNotFound(op));
          }
          UnlinkChild(op, id);
        case None =>
          roots := Without(roots, id);
      }
      return Pass;
    }

    /** `attach_to_parent`: `id` records its new parent, then joins that
        parent's child list (or the root list) at the clamped position. The
        parent link is written before the new parent is looked up, so a
        missing new parent is reported after that one change. */
    method AttachToParent(id: NodeId, newParent: Option<NodeId>, position: nat) returns (r: Outcome<DomainError>)
      requires Coupled()
      modifies this`roots, this`records, nodes.Values
      ensures Coupled() && nodes == old(nodes)
      ensures id !in old(records) ==> r == Fail(NodeNotFound(id)) && records == old(records) && roots == old(roots)
      ensures id in old(records) && newParent.Some? && newParent.value !in old(records) ==>
                && r == Fail(NodeNotFound(newParent.value))
                && records == old(records)[id := old(records)[id].(parent := newParent)]
                && roots == old(roots)
      ensures id in old(records) && (newParent.Some? ==> newParent.value in old(records)) ==>
                r == Pass && Forest(records, roots) == Attach(old(Forest(records, roots)), id, newParent, position)
    {
      if id !in nodes {
        return Fail(NodeNotFound(id));
      }
      SetParentOf(id, newParent);
      match newParent {
        case Some(np) =>
          if np !in nodes {
            return Fail(NodeNotFound(np));
          }
          LinkChild(np, id, position);
        case None =>
          roots := Insert(roots, position, id);
      }
      return Pass;
    }

    /** The mutation of `move_node` once `validate_move` has passed: both ids
        are present, so neither `?` after the detach and the attach fires. */
    method CommitMove(id: NodeId, newParent: Option<NodeId>, position: nat)
      requires Coupled() && id in records
      requires records[id].parent.Some? ==> records[id].parent.value in records
      requires newParent.Some? ==> newParent.value in records
      modifies this`roots, this`records, nodes.Values
      ensures Coupled() && nodes == old(nodes)
      ensures Forest(records, roots) == MoveValue(old(Forest(records, roots)), id, newParent, position)
    {
      var detached := DetachFromParent(id);
      assert detached.Pass?;
      var attached := AttachToParent(id, newParent, position);
      assert attached.Pass?;
    }

    lemma ValidAfterMove(f: Forest, lv: map<NodeId, nat>, wf: bool, id: NodeId, newParent: Option<NodeId>, position: nat)
      requires wf == WellFormed(f, lv, maxDepth) && wf
      requires Coupled() && MoveCheck(f, lv, maxDepth, id, newParent) == Pass
      requires Forest(records, roots) == MoveValue(f, id, newParent, position)
      requires level == MovedLevels(f.nodes, lv, id, NewDepth(lv, newParent))
      ensures Valid()
    {
      MoveCheckPassSuffices(f, lv, maxDepth, id, newParent);
      MovePreservesWf(f, lv, maxDepth, id, newParent, position);
    }

    /** `move_node`: `validate_move` decides first, before anything changes;
        then the node is detached and attached under its new parent. */
    method MoveNode(id: NodeId, newParent: Option<NodeId>, position: nat) returns (r: Outcome<DomainError>)
      requires Valid()
      modifies this`roots, this`records, this`level, nodes.Values
      ensures r == MoveCheck(old(Forest(records, roots)), old(level), maxDepth, id, newParent)
      ensures r.Fail? ==> records == old(records) && roots == old(roots) && level == old(level)
      ensures r.Pass? ==>
                && id in old(records) && (newParent.Some? ==> newParent.value in old(records))
                && Forest(records, roots) == MoveValue(old(Forest(records, roots)), id, newParent, position)
                && level == MovedLevels(old(records), old(level), id, NewDepth(old(level), newParent))
      ensures Valid()
    {
      SnapshotIsRecords();
      ghost var f := Forest(records, roots);
      ghost var wf := WellFormed(f, level, maxDepth);
      r := ValidateMove(Forest(Snapshot(), roots), level, maxDepth, id, newParent);
      if r.Pass? {
        ApplyMove(id, newParent, position, f, level, wf);
      }
    }

    /** The rest of `move_node` once `validate_move` has passed, on the arena
        `f` with depths `lv`, which `wf` says are well formed. */
    method ApplyMove(id: NodeId, newParent: Option<NodeId>, position: nat, ghost f: Forest, ghost lv: map<NodeId, nat>, ghost wf: bool)
      requires Coupled() && f == Forest(records, roots) && lv == level
      requires wf == WellFormed(f, lv, maxDepth) && wf
      requires MoveCheck(f, lv, maxDepth, id, newParent) == Pass
      modifies this`roots, this`records, this`level, nodes.Values
      ensures id in f.nodes && (newParent.Some? ==> newParent.value in f.nodes) && id in lv
      ensures Forest(records, roots) == MoveValue(f, id, newParent, position)
      ensures level == MovedLevels(f.nodes, lv, id, NewDepth(lv, newParent))
      ensures Valid()
    {
      PassedMoveIsLinked(f, lv, wf, maxDepth, id, newParent);
      CommitMove(id, newParent, position);
      SetLevel(MovedLevels(f.nodes, lv, id, NewDepth(lv, newParent)));
      ValidAfterMove(f, lv, wf, id, newParent, position);
    }

    // ---------------------------------------------------------------- remove

    /** Forgets every listed id (the loop over the collected descendants). */
    method DropAll(ids: seq<NodeId>)
      requires Coupled()
      modifies this`nodes, this`records
      ensures Coupled() && records == old(records) - (set k | k in ids)
    {
      for i := 0 to |ids|
        invariant Coupled() && records == old(records) - (set k | k in ids[..i])
      {
        DropNode(ids[i]);
        assert ids[..i + 1] == ids[..i] + [ids[i]];
      }
      assert ids[..|ids|] == ids;
    }

    /** The mutation of `remove_node` for a present node: detach it, then
        forget it and every collected descendant. The parent of a present node
        is present, so the `?` on the parent lookup does not fire. */
    method CommitRemove(id: NodeId, descendants: seq<NodeId>)
      requires Coupled() && id in records
      requires records[id].parent.Some? ==> records[id].parent.value in records
      modifies this`nodes, this`roots, this`records, nodes.Values
      ensures Coupled()
      ensures roots == Detach(old(Forest(records, roots)), id).roots
      ensures records == Detach(old(Forest(records, roots)), id).nodes - {id} - (set k | k in descendants)
    {
      var parent := nodes[id].parent;
      match parent {
        case Some(p) =>
          UnlinkChild(p, id);
        case None =>
          roots := Without(roots, id);
      }
      DropNode(id);
      DropAll(descendants);
    }

    lemma ValidAfterRemove(f: Forest, lv: map<NodeId, nat>, wf: bool, id: NodeId, descendants: seq<NodeId>)
      requires wf == WellFormed(f, lv, maxDepth) && wf
      requires Coupled() && id in f.nodes
      requires descendants == Descendants(f.nodes, lv, maxDepth, id)
      requires roots == Detach(f, id).roots
      requires records == Detach(f, id).nodes - {id} - (set k | k in descendants)
      requires level == lv - SubtreeSet(f, lv, id)
      ensures Forest(records, roots) == RemoveValue(f, id, SubtreeSet(f, lv, id))
      ensures |records| == |f.nodes| - 1 - |descendants|
      ensures Valid()
    {
      RemovedRecords(f, lv, maxDepth, id, descendants);
      RemovePreservesWf(f, lv, maxDepth, id);
      RemoveCount(f, lv, maxDepth, id);
    }

    /** `remove_node`: a missing id is refused before anything changes;
        otherwise the node and every descendant are gone, `1 + |descendants|`
        entries in all. */
    method RemoveNode(id: NodeId) returns (r: Outcome<DomainError>)
      requires Valid()
      modifies this`nodes, this`roots, this`records, this`level, nodes.Values
      ensures id !in old(records) ==> r == Fail(NodeNotFound(id)) && records == old(records) && roots == old(roots) && level == old(level)
      ensures id in old(records) ==>
                && r == Pass
                && Forest(records, roots) == RemoveValue(old(Forest(records, roots)), id, SubtreeSet(old(Forest(records, roots)), old(level), id))
                && level == old(level) - SubtreeSet(old(Forest(records, roots)), old(level), id)
                && |records| == |old(records)| - 1 - |Descendants(old(records), old(level), maxDepth, id)|
      ensures Valid()
    {
      if id !in nodes {
        return Fail(NodeNotFound(id));
      }
      ghost var f := Forest(records, roots);
      ghost var wf := WellFormed(f, level, maxDepth);
      SnapshotIsRecords();
      var descendants := Descendants(Snapshot(), level, maxDepth, id);
      PresentParentIsPresent(f, level, maxDepth, id);
      CommitRemove(id, descendants);
      SetLevel(old(level) - SubtreeSet(f, old(level), id));
      ValidAfterRemove(f, old(level), wf, id, descendants);
      return Pass;
    }
  }
}
