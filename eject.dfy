/** The tree codec of the eject service (src/application/eject.rs): a book, or
    the part of it below one node, exported as a recursive tree of plain
    records, and such a tree imported back into a fresh book. */
module Eject {
  import opened Wrappers
  import opened Seqs
  import opened Node
  import opened Arena
  import opened Book
  import opened Decimal

  /** `EjectTreeNode`: one exported node. Its type is a text tag, as it is in JSON. */
  datatype EjectTreeNode = EjectTreeNode(
    id: string,
    title: string,
    nodeType: string,
    body: Option<string>,
    placeholder: Option<string>,
    children: seq<EjectTreeNode>)

  /** `EjectTree`: an exported book or subtree. */
  datatype EjectTree = EjectTree(title: string, maxDepth: u8, nodes: seq<EjectTreeNode>)

  /** The two `AppError` variants the codec can produce. */
  datatype AppError =
    | Domain(cause: DomainError)
    | ImportInvalidType(message: string)

  /** `IMPORT_MAX_RECURSION`: the nesting level (0 for a top-level node) at which import gives up. */
  const IMPORT_MAX_RECURSION: nat := 32

  const NESTING_MESSAGE: string := "maximum import nesting depth exceeded"

  // ---------------------------------------------------------------- type tags

  /** The tag `build_tree_node` writes for a node type. */
  function ExportTag(t: NodeType): string {
    match t
    case Section => "section"
    case Content => "content"
  }

  /** The tag match of `import_tree_node`: the current tags and the three legacy
      ones; any other tag is refused with the tag itself as the message. */
  function ParseImportTag(tag: string): (r: Result<NodeType, AppError>)
    ensures r == Ok(Section) <==> tag == "section"
    ensures r == Ok(Content) <==> tag in ["content", "checklist", "reference", "runnable"]
    ensures r.Err? ==> r.error == ImportInvalidType(tag)
  {
    if tag == "section" then Ok(Section)
    else if tag == "content" || tag == "checklist" || tag == "reference" || tag == "runnable" then Ok(Content)
    else Err(ImportInvalidType(tag))
  }

  /** Every exported tag imports back as the type it was written for. */
  lemma TagRoundTrip(t: NodeType)
    ensures ParseImportTag(ExportTag(t)) == Ok(t)
  {
  }

  // ---------------------------------------------------------------- measures of a tree

  function Size(t: EjectTreeNode): nat
    decreases t
  {
    1 + SizeAll(t.children)
  }

  function SizeAll(ts: seq<EjectTreeNode>): nat
    decreases ts
  {
    if ts == [] then 0 else Size(ts[0]) + SizeAll(ts[1..])
  }

  function Max(a: nat, b: nat): nat {
    if a < b then b else a
  }

  /** The number of levels of a tree: 1 for a leaf. */
  function Height(t: EjectTreeNode): nat
    decreases t
  {
    1 + HeightAll(t.children)
  }

  function HeightAll(ts: seq<EjectTreeNode>): nat
    decreases ts
  {
    if ts == [] then 0 else Max(Height(ts[0]), HeightAll(ts[1..]))
  }

  /** Every tag in the tree is one that import accepts. */
  predicate TagsOk(t: EjectTreeNode)
    decreases t
  {
    ParseImportTag(t.nodeType).Ok? && TagsOkAll(t.children)
  }

  predicate TagsOkAll(ts: seq<EjectTreeNode>)
    decreases ts
  {
    ts == [] || (TagsOk(ts[0]) && TagsOkAll(ts[1..]))
  }

  /** The nodes of a tree in preorder, each with its own subtree. */
  function Flatten(t: EjectTreeNode): (r: seq<EjectTreeNode>)
    ensures |r| == Size(t) && r[0] == t
    decreases t
  {
    [t] + FlattenAll(t.children)
  }

  function FlattenAll(ts: seq<EjectTreeNode>): (r: seq<EjectTreeNode>)
    ensures |r| == SizeAll(ts)
    decreases ts
  {
    if ts == [] then [] else Flatten(ts[0]) + FlattenAll(ts[1..])
  }

  /** `e` is the export of record `n`, children aside: the title, the body,
      the placeholder, and the tag of the type. */
  predicate Exported(e: EjectTreeNode, n: NodeData) {
    e.title == n.title && e.nodeType == ExportTag(n.nodeType) && e.body == n.body && e.placeholder == n.placeholder
  }

  /** Position by position, `es` is the export of the records of `ks`, under
      the text of their ids. */
  ghost predicate ExportedAll(es: seq<EjectTreeNode>, nodes: Nodes, ks: seq<NodeId>) {
    |es| == |ks| && forall i :: 0 <= i < |ks| ==> ks[i] in nodes && es[i].id == ks[i].uuid && Exported(es[i], nodes[ks[i]])
  }

  lemma ExportedConcat(es1: seq<EjectTreeNode>, es2: seq<EjectTreeNode>, nodes: Nodes, ks1: seq<NodeId>, ks2: seq<NodeId>)
    requires ExportedAll(es1, nodes, ks1) && ExportedAll(es2, nodes, ks2)
    ensures ExportedAll(es1 + es2, nodes, ks1 + ks2)
  {
  }

  /** The depth of each node of a tree in preorder, the root being at `d`. */
  function Depths(t: EjectTreeNode, d: nat): (r: seq<nat>)
    ensures |r| == Size(t)
    decreases t
  {
    [d] + DepthsAll(t.children, d + 1)
  }

  function DepthsAll(ts: seq<EjectTreeNode>, d: nat): (r: seq<nat>)
    ensures |r| == SizeAll(ts)
    decreases ts
  {
    if ts == [] then [] else Depths(ts[0], d) + DepthsAll(ts[1..], d)
  }

  /** Position by position, `level` gives the nodes of `ks` the depths `ds`. */
  ghost predicate LeveledAll(ds: seq<nat>, level: map<NodeId, nat>, ks: seq<NodeId>) {
    |ds| == |ks| && forall i :: 0 <= i < |ks| ==> ks[i] in level && level[ks[i]] == ds[i]
  }

  lemma LeveledConcat(ds1: seq<nat>, ds2: seq<nat>, level: map<NodeId, nat>, ks1: seq<NodeId>, ks2: seq<NodeId>)
    requires LeveledAll(ds1, level, ks1) && LeveledAll(ds2, level, ks2)
    ensures LeveledAll(ds1 + ds2, level, ks1 + ks2)
  {
  }

  // ---------------------------------------------------------------- export

  /** `build_tree_node` for a present id: the record's fields, its type as a
      tag, and its children exported in order, children missing from the map skipped. */
  function BuildNode(nodes: Nodes, ghost level: map<NodeId, nat>, ghost bound: nat, id: NodeId): (t: EjectTreeNode)
    requires Ranked(nodes, level, bound) && id in nodes
    decreases Rank(nodes, level, bound, id), 0
  {
    var n := nodes[id];
    ChildrenRankBelow(nodes, level, bound, id, n.children);
    EjectTreeNode(id.uuid, n.title, ExportTag(n.nodeType), n.body, n.placeholder, BuildAll(nodes, level, bound, n.children))
  }

  /** The `filter_map` over a list of ids: the export of each present one, in order. */
  function BuildAll(nodes: Nodes, ghost level: map<NodeId, nat>, ghost bound: nat, ids: seq<NodeId>): (ts: seq<EjectTreeNode>)
    requires Ranked(nodes, level, bound)
    ensures |ts| <= |ids|
    decreases MaxRank(nodes, level, bound, ids), 1, |ids|
  {
    if ids == [] then []
    else if ids[0] in nodes then [BuildNode(nodes, level, bound, ids[0])] + BuildAll(nodes, level, bound, ids[1..])
    else BuildAll(nodes, level, bound, ids[1..])
  }

  /** `build_tree`: the whole book under its own title, or the children of
      `subtreeRoot` under that node's title; a missing subtree root gives an
      empty tree under the book's title. The depth limit is always copied. */
  function BuildTreeOf(title: string, maxDepth: u8, f: Forest, ghost level: map<NodeId, nat>, subtreeRoot: Option<NodeId>): (t: EjectTree)
    requires Ranked(f.nodes, level, maxDepth)
    ensures t.maxDepth == maxDepth
    ensures subtreeRoot.None? ==> t.title == title && t.nodes == BuildAll(f.nodes, level, maxDepth, f.roots)
    ensures subtreeRoot.Some? && subtreeRoot.value in f.nodes ==>
              t.title == f.nodes[subtreeRoot.value].title && t.nodes == BuildAll(f.nodes, level, maxDepth, f.nodes[subtreeRoot.value].children)
    ensures subtreeRoot.Some? && subtreeRoot.value !in f.nodes ==> t.title == title && t.nodes == []
  {
    match subtreeRoot
    case None => EjectTree(title, maxDepth, BuildAll(f.nodes, level, maxDepth, f.roots))
    case Some(r) =>
      if r in f.nodes then EjectTree(f.nodes[r].title, maxDepth, BuildAll(f.nodes, level, maxDepth, f.nodes[r].children))
      else EjectTree(title, maxDepth, [])
  }

  /** `build_tree` on a book object. */
  function BuildTree(book: TemplateBook, subtreeRoot: Option<NodeId>): (t: EjectTree)
    reads book, book.nodes.Values
    requires book.Valid()
    ensures t == BuildTreeOf(book.title, book.maxDepth, Forest(book.records, book.roots), book.level, subtreeRoot)
  {
    book.SnapshotIsRecords();
    BuildTreeOf(book.title, book.maxDepth, Forest(book.Snapshot(), book.roots), book.level, subtreeRoot)
  }

  /** The exported tree lists the subtree's records in exactly the order of
      the subtree traversal, so nothing reachable is lost, repeated or
      reordered, and each entry carries its record's fields. */
  lemma {:induction false} BuildNodePreorder(nodes: Nodes, level: map<NodeId, nat>, bound: nat, id: NodeId)
    requires Ranked(nodes, level, bound) && id in nodes
    ensures ExportedAll(Flatten(BuildNode(nodes, level, bound, id)), nodes, SubtreeDfs(nodes, level, bound, id))
    decreases Rank(nodes, level, bound, id), 0
  {
    var cs := nodes[id].children;
    ChildrenRankBelow(nodes, level, bound, id, cs);
    BuildAllPreorder(nodes, level, bound, cs);
    ExportedConcat([BuildNode(nodes, level, bound, id)], FlattenAll(BuildAll(nodes, level, bound, cs)), nodes,
                   [id], ForestDfs(nodes, level, bound, cs));
  }

  lemma {:induction false} BuildAllPreorder(nodes: Nodes, level: map<NodeId, nat>, bound: nat, ids: seq<NodeId>)
    requires Ranked(nodes, level, bound)
    ensures ExportedAll(FlattenAll(BuildAll(nodes, level, bound, ids)), nodes, ForestDfs(nodes, level, bound, ids))
    decreases MaxRank(nodes, level, bound, ids), 1, |ids|
  {
    if ids != [] {
      BuildAllPreorder(nodes, level, bound, ids[1..]);
      var rest := BuildAll(nodes, level, bound, ids[1..]);
      if ids[0] in nodes {
        BuildNodePreorder(nodes, level, bound, ids[0]);
        var t := BuildNode(nodes, level, bound, ids[0]);
        assert ([t] + rest)[1..] == rest;
        ExportedConcat(Flatten(t), FlattenAll(rest), nodes, SubtreeDfs(nodes, level, bound, ids[0]), ForestDfs(nodes, level, bound, ids[1..]));
      }
    }
  }

  /** Exporting the whole of a well-formed book lists every node once, in the
      order of `all_nodes_dfs`, with its fields. */
  lemma ExportIsTraversal(f: Forest, level: map<NodeId, nat>, maxDepth: u8, title: string)
    requires WellFormed(f, level, maxDepth)
    ensures ExportedAll(FlattenAll(BuildTreeOf(title, maxDepth, f, level, None).nodes), f.nodes, AllNodesDfs(f, level, maxDepth))
    ensures SizeAll(BuildTreeOf(title, maxDepth, f, level, None).nodes) == |f.nodes|
  {
    BuildAllPreorder(f.nodes, level, maxDepth, f.roots);
    AllNodesDfsExact(f, level, maxDepth);
  }

  // ---------------------------------------------------------------- import, as values

  /** A book under construction by import: its arena, the depth of every node,
      and the ids not yet handed out (the ids `NodeId::new` would return next). */
  datatype Stage = Stage(f: Forest, level: map<NodeId, nat>, supply: seq<NodeId>)

  /** The depth map covers exactly the arena, and the supply is made of
      distinct ids that the arena does not use yet. */
  ghost predicate Ready(s: Stage) {
    && s.f.nodes.Keys == s.level.Keys
    && NoDup(s.supply)
    && (forall x :: x in s.supply ==> x !in s.f.nodes)
  }

  /** What a successful import of `n` nodes does to a stage: it takes the first
      `n` ids of the supply, adds exactly `n` nodes and leaves every existing
      depth as it was. */
  ghost predicate Grows(s: Stage, r: Stage, n: nat)
    requires n <= |s.supply|
  {
    && Ready(r)
    && r.supply == s.supply[n..]
    && s.f.nodes.Keys <= r.f.nodes.Keys
    && |r.f.nodes| == |s.f.nodes| + n
    && (forall k :: k in s.level ==> k in r.level && r.level[k] == s.level[k])
  }

  /** `add_node` at the end of `parent`'s children (or of the roots), using
      the next id of the supply, one level below the parent. */
  ghost function AddToStage(s: Stage, parent: Option<NodeId>, t: EjectTreeNode, nodeType: NodeType): (r: Stage)
    requires Ready(s) && 1 <= |s.supply|
    requires parent.Some? ==> parent.value in s.f.nodes
    ensures Grows(s, r, 1)
    ensures r.f.nodes.Keys == s.f.nodes.Keys + {s.supply[0]}
    ensures r.f.nodes[s.supply[0]] == NodeData(s.supply[0], parent, [], t.title, t.body, nodeType, t.placeholder)
    ensures r.level == s.level[s.supply[0] := NewDepth(s.level, parent)]
    ensures parent.Some? ==> r.f.roots == s.f.roots
    ensures parent.None? ==> |r.f.roots| == |s.f.roots| + 1
  {
    var newId := s.supply[0];
    var f := AddNodeValue(s.f, newId, parent, t.title, nodeType, t.body, t.placeholder, USIZE_MAX);
    var r := Stage(f, s.level[newId := NewDepth(s.level, parent)], s.supply[1..]);
    forall i, j | 0 <= i < j < |r.supply| ensures r.supply[i] != r.supply[j] {
      assert r.supply[i] == s.supply[i + 1] && r.supply[j] == s.supply[j + 1];
    }
    forall x | x in r.supply ensures x !in f.nodes {
      var i :| 0 <= i < |r.supply| && r.supply[i] == x;
      assert x == s.supply[i + 1];
    }
    r
  }

  /** `import_tree_node` as a function of the stage: the nesting ceiling is
      checked first, then the type tag, then `add_node` appends the node under
      `parent` (its depth check is the only one that can fail there, since the
      parent was added before), then the children follow in order, one level deeper. */
  ghost function ImportNode(s: Stage, maxDepth: u8, parent: Option<NodeId>, t: EjectTreeNode, depth: nat): (r: Result<Stage, AppError>)
    requires Ready(s) && Size(t) <= |s.supply|
    requires parent.Some? ==> parent.value in s.f.nodes
    ensures r.Ok? ==> Grows(s, r.value, Size(t))
    ensures r.Ok? && parent.Some? ==> r.value.f.roots == s.f.roots
    ensures r.Ok? && parent.None? ==> |r.value.f.roots| == |s.f.roots| + 1
    decreases t
  {
    if depth >= IMPORT_MAX_RECURSION then Err(ImportInvalidType(NESTING_MESSAGE))
    else match ParseImportTag(t.nodeType)
      case Err(e) => Err(e)
      case Ok(nodeType) =>
        if NewDepth(s.level, parent) > maxDepth as nat then Err(Domain(MaxDepthExceeded(s.supply[0], maxDepth)))
        else
          AddedStageFits(s, parent, t, nodeType);
          var s1 := AddToStage(s, parent, t, nodeType);
          match ImportAll(s1, maxDepth, Some(s.supply[0]), t.children, depth + 1)
          case Err(e) => Err(e)
          case Ok(s2) =>
            ChildrenImported(s, s1, s2, parent, t, nodeType);
            Ok(s2)
  }

  /** The loop over a node's children (or over the top-level nodes): each in
      turn, stopping at the first failure. */
  ghost function ImportAll(s: Stage, maxDepth: u8, parent: Option<NodeId>, ts: seq<EjectTreeNode>, depth: nat): (r: Result<Stage, AppError>)
    requires Ready(s) && SizeAll(ts) <= |s.supply|
    requires parent.Some? ==> parent.value in s.f.nodes
    ensures r.Ok? ==> Grows(s, r.value, SizeAll(ts))
    ensures r.Ok? && parent.Some? ==> r.value.f.roots == s.f.roots
    ensures r.Ok? && parent.None? ==> |r.value.f.roots| == |s.f.roots| + |ts|
    decreases ts
  {
    if ts == [] then Ok(s)
    else
      assert Size(ts[0]) <= SizeAll(ts);
      match ImportNode(s, maxDepth, parent, ts[0], depth)
      case Err(e) => Err(e)
      case Ok(s1) =>
        RestFits(s, s1, parent, ts);
        match ImportAll(s1, maxDepth, parent, ts[1..], depth)
        case Err(e) => Err(e)
        case Ok(s2) =>
          RestImported(s, s1, s2, parent, ts);
          Ok(s2)
  }

  /** After the node itself is added, its children fit in what is left of the
      supply, under the node just added. */
  lemma AddedStageFits(s: Stage, parent: Option<NodeId>, t: EjectTreeNode, nodeType: NodeType)
    requires Ready(s) && Size(t) <= |s.supply|
    requires parent.Some? ==> parent.value in s.f.nodes
    ensures 1 <= |s.supply|
    ensures var s1 := AddToStage(s, parent, t, nodeType);
            Ready(s1) && SizeAll(t.children) <= |s1.supply| && s.supply[0] in s1.f.nodes
  {
  }

  /** Adding the node and then its children grows the stage by the size of
      the subtree, under the same parent. */
  lemma ChildrenImported(s: Stage, s1: Stage, s2: Stage, parent: Option<NodeId>, t: EjectTreeNode, nodeType: NodeType)
    requires Ready(s) && 1 <= |s.supply| && Size(t) <= |s.supply|
    requires parent.Some? ==> parent.value in s.f.nodes
    requires s1 == AddToStage(s, parent, t, nodeType)
    requires SizeAll(t.children) <= |s1.supply| && Grows(s1, s2, SizeAll(t.children)) && s2.f.roots == s1.f.roots
    ensures Grows(s, s2, Size(t))
    ensures parent.Some? ==> s2.f.roots == s.f.roots
    ensures parent.None? ==> |s2.f.roots| == |s.f.roots| + 1
  {
    GrowsTrans(s, s1, s2, 1, SizeAll(t.children));
  }

  /** After the first tree of a list is imported, the rest fit in what is left
      of the supply, under the same parent. */
  lemma RestFits(s: Stage, s1: Stage, parent: Option<NodeId>, ts: seq<EjectTreeNode>)
    requires Ready(s) && ts != [] && SizeAll(ts) <= |s.supply|
    requires parent.Some? ==> parent.value in s.f.nodes
    requires Size(ts[0]) <= |s.supply| && Grows(s, s1, Size(ts[0]))
    ensures Ready(s1) && SizeAll(ts[1..]) <= |s1.supply|
    ensures parent.Some? ==> parent.value in s1.f.nodes
  {
  }

  /** Importing the first tree and then the rest grows the stage by the size
      of the whole list; the roots grow by one per tree when there is no parent. */
  lemma RestImported(s: Stage, s1: Stage, s2: Stage, parent: Option<NodeId>, ts: seq<EjectTreeNode>)
    requires ts != [] && SizeAll(ts) <= |s.supply|
    requires Grows(s, s1, Size(ts[0])) && SizeAll(ts[1..]) <= |s1.supply| && Grows(s1, s2, SizeAll(ts[1..]))
    requires parent.Some? ==> s1.f.roots == s.f.roots && s2.f.roots == s1.f.roots
    requires parent.None? ==> |s1.f.roots| == |s.f.roots| + 1 && |s2.f.roots| == |s1.f.roots| + |ts| - 1
    ensures Grows(s, s2, SizeAll(ts))
    ensures parent.Some? ==> s2.f.roots == s.f.roots
    ensures parent.None? ==> |s2.f.roots| == |s.f.roots| + |ts|
  {
    GrowsTrans(s, s1, s2, Size(ts[0]), SizeAll(ts[1..]));
  }

  lemma GrowsTrans(s: Stage, s1: Stage, s2: Stage, a: nat, b: nat)
    requires a + b <= |s.supply|
    requires Grows(s, s1, a) && b <= |s1.supply| && Grows(s1, s2, b)
    ensures Grows(s, s2, a + b)
  {
    assert s.supply[a..][b..] == s.supply[a + b..];
  }

  /** `import_tree` as a function of the tree and the ids a fresh book would
      hand out: an empty book with the tree's title and depth limit, then
      every top-level node in order, at nesting level 0. */
  ghost function ImportTreeValue(tree: EjectTree, ids: seq<NodeId>): (r: Result<Stage, AppError>)
    requires NoDup(ids) && SizeAll(tree.nodes) <= |ids|
    ensures r.Ok? ==> |r.value.f.nodes| == SizeAll(tree.nodes) && |r.value.f.roots| == |tree.nodes|
  {
    ImportAll(Stage(Forest(map[], []), map[], ids), tree.maxDepth, None, tree.nodes, 0)
  }

  // ---------------------------------------------------------------- when import succeeds

  /** The depth bookkeeping of a recursive import: a top-level call runs at
      nesting level 0, and a nested one at its parent's depth (1-based). */
  ghost predicate NestedAt(s: Stage, parent: Option<NodeId>, depth: nat)
    requires parent.Some? ==> parent.value in s.level
  {
    match parent
    case None => depth == 0
    case Some(p) => s.level[p] == depth
  }

  /** Import of a subtree at nesting level `depth` succeeds exactly when every
      tag is known and the subtree's deepest node stays below both the nesting
      ceiling and the book's depth limit. */
  lemma {:induction false} ImportNodeOk(s: Stage, maxDepth: u8, parent: Option<NodeId>, t: EjectTreeNode, depth: nat)
    requires Ready(s) && Size(t) <= |s.supply|
    requires parent.Some? ==> parent.value in s.f.nodes
    requires NestedAt(s, parent, depth)
    ensures ImportNode(s, maxDepth, parent, t, depth).Ok? <==>
              TagsOk(t) && depth + Height(t) <= IMPORT_MAX_RECURSION && depth + Height(t) <= maxDepth as nat
    decreases t, 2
  {
    assert NewDepth(s.level, parent) == depth + 1;
    if depth < IMPORT_MAX_RECURSION && ParseImportTag(t.nodeType).Ok? && depth + 1 <= maxDepth as nat {
      ImportNodeOkStep(s, maxDepth, parent, t, depth);
    }
  }

  /** The case where the node itself is added: the outcome is that of its children. */
  lemma {:induction false} ImportNodeOkStep(s: Stage, maxDepth: u8, parent: Option<NodeId>, t: EjectTreeNode, depth: nat)
    requires Ready(s) && Size(t) <= |s.supply|
    requires parent.Some? ==> parent.value in s.f.nodes
    requires NestedAt(s, parent, depth)
    requires depth < IMPORT_MAX_RECURSION && ParseImportTag(t.nodeType).Ok? && depth + 1 <= maxDepth as nat
    ensures ImportNode(s, maxDepth, parent, t, depth).Ok? <==>
              TagsOkAll(t.children) && (t.children == [] || (depth + 1 + HeightAll(t.children) <= IMPORT_MAX_RECURSION && depth + 1 + HeightAll(t.children) <= maxDepth as nat))
    decreases t, 1
  {
    assert NewDepth(s.level, parent) == depth + 1;
    var s1 := AddToStage(s, parent, t, ParseImportTag(t.nodeType).value);
    ImportAllOk(s1, maxDepth, Some(s.supply[0]), t.children, depth + 1);
  }

  lemma {:induction false} ImportAllOk(s: Stage, maxDepth: u8, parent: Option<NodeId>, ts: seq<EjectTreeNode>, depth: nat)
    requires Ready(s) && SizeAll(ts) <= |s.supply|
    requires parent.Some? ==> parent.value in s.f.nodes
    requires NestedAt(s, parent, depth)
    ensures ImportAll(s, maxDepth, parent, ts, depth).Ok? <==>
              TagsOkAll(ts) && (ts == [] || (depth + HeightAll(ts) <= IMPORT_MAX_RECURSION && depth + HeightAll(ts) <= maxDepth as nat))
    decreases ts, 3
  {
    if ts != [] {
      ImportNodeOk(s, maxDepth, parent, ts[0], depth);
      var r := ImportNode(s, maxDepth, parent, ts[0], depth);
      if r.Ok? {
        ImportAllOk(r.value, maxDepth, parent, ts[1..], depth);
      }
    }
  }

  /** `import_tree` succeeds exactly when every tag is known and the tree is
      no taller than both the nesting ceiling of 32 and the book's depth limit. */
  lemma ImportTreeOk(tree: EjectTree, ids: seq<NodeId>)
    requires NoDup(ids) && SizeAll(tree.nodes) <= |ids|
    ensures ImportTreeValue(tree, ids).Ok? <==>
              TagsOkAll(tree.nodes) && HeightAll(tree.nodes) <= IMPORT_MAX_RECURSION && HeightAll(tree.nodes) <= tree.maxDepth as nat
  {
    ImportAllOk(Stage(Forest(map[], []), map[], ids), tree.maxDepth, None, tree.nodes, 0);
  }

  // ---------------------------------------------------------------- the nesting ceiling

  /** With a depth limit of at least 32 the book never refuses first: a tree
      with known tags that is too tall fails with the nesting message. */
  lemma {:induction false} CeilingNode(s: Stage, maxDepth: u8, parent: Option<NodeId>, t: EjectTreeNode, depth: nat)
    requires Ready(s) && Size(t) <= |s.supply|
    requires parent.Some? ==> parent.value in s.f.nodes
    requires NestedAt(s, parent, depth)
    requires maxDepth as nat >= IMPORT_MAX_RECURSION
    requires TagsOk(t) && depth + Height(t) > IMPORT_MAX_RECURSION
    ensures ImportNode(s, maxDepth, parent, t, depth) == Err(ImportInvalidType(NESTING_MESSAGE))
    decreases t, 2
  {
    if depth < IMPORT_MAX_RECURSION {
      CeilingNodeStep(s, maxDepth, parent, t, depth);
    }
  }

  lemma {:induction false} CeilingNodeStep(s: Stage, maxDepth: u8, parent: Option<NodeId>, t: EjectTreeNode, depth: nat)
    requires Ready(s) && Size(t) <= |s.supply|
    requires parent.Some? ==> parent.value in s.f.nodes
    requires NestedAt(s, parent, depth)
    requires maxDepth as nat >= IMPORT_MAX_RECURSION
    requires TagsOk(t) && depth + Height(t) > IMPORT_MAX_RECURSION && depth < IMPORT_MAX_RECURSION
    ensures ImportNode(s, maxDepth, parent, t, depth) == Err(ImportInvalidType(NESTING_MESSAGE))
    decreases t, 1
  {
    assert NewDepth(s.level, parent) == depth + 1;
    assert t.children != [];
    var s1 := AddToStage(s, parent, t, ParseImportTag(t.nodeType).value);
    CeilingAll(s1, maxDepth, Some(s.supply[0]), t.children, depth + 1);
  }

  lemma {:induction false} CeilingAll(s: Stage, maxDepth: u8, parent: Option<NodeId>, ts: seq<EjectTreeNode>, depth: nat)
    requires Ready(s) && SizeAll(ts) <= |s.supply|
    requires parent.Some? ==> parent.value in s.f.nodes
    requires NestedAt(s, parent, depth)
    requires maxDepth as nat >= IMPORT_MAX_RECURSION
    requires TagsOkAll(ts) && ts != [] && depth + HeightAll(ts) > IMPORT_MAX_RECURSION
    ensures ImportAll(s, maxDepth, parent, ts, depth) == Err(ImportInvalidType(NESTING_MESSAGE))
    decreases ts, 3
  {
    if depth + Height(ts[0]) > IMPORT_MAX_RECURSION {
      CeilingNode(s, maxDepth, parent, ts[0], depth);
    } else {
      ImportNodeOk(s, maxDepth, parent, ts[0], depth);
      var r := ImportNode(s, maxDepth, parent, ts[0], depth);
      CeilingAll(r.value, maxDepth, parent, ts[1..], depth);
    }
  }

  /** The ceiling is reported as an unknown type tag: a one-node tree whose
      tag is the nesting message fails with exactly the same error as a tree
      that is too tall. */
  lemma CeilingLooksLikeBadTag(tall: EjectTree, odd: EjectTree, ids: seq<NodeId>)
    requires NoDup(ids) && SizeAll(tall.nodes) <= |ids| && 1 <= |ids|
    requires tall.maxDepth as nat >= IMPORT_MAX_RECURSION
    requires TagsOkAll(tall.nodes) && HeightAll(tall.nodes) > IMPORT_MAX_RECURSION
    requires odd.nodes == [EjectTreeNode("", "", NESTING_MESSAGE, None, None, [])]
    ensures ImportTreeValue(tall, ids) == ImportTreeValue(odd, ids) == Err(ImportInvalidType(NESTING_MESSAGE))
  {
    var empty := Stage(Forest(map[], []), map[], ids);
    CeilingAll(empty, tall.maxDepth, None, tall.nodes, 0);
    assert ParseImportTag(NESTING_MESSAGE) == Err(ImportInvalidType(NESTING_MESSAGE));
    assert ImportNode(empty, odd.maxDepth, None, odd.nodes[0], 0) == Err(ImportInvalidType(NESTING_MESSAGE));
  }

  /** A straight chain of `n` nested sections. */
  function Chain(n: nat): (t: EjectTreeNode)
    decreases n
  {
    EjectTreeNode("", "", "section", None, None, if n <= 1 then [] else [Chain(n - 1)])
  }

  lemma {:induction false} ChainShape(n: nat)
    requires 1 <= n
    ensures Height(Chain(n)) == n && Size(Chain(n)) == n && TagsOk(Chain(n))
  {
    var t := Chain(n);
    assert ParseImportTag(t.nodeType).Ok?;
    if n > 1 {
      ChainShape(n - 1);
      var c := Chain(n - 1);
      assert t.children == [c] && [c][1..] == [];
      assert SizeAll([c]) == Size(c);
      assert HeightAll([c]) == Height(c);
      assert TagsOkAll([c]);
    } else {
      assert t.children == [];
    }
  }

  /** A chain of more than 32 levels is refused at the ceiling whatever the
      depth limit, as long as the limit itself would not refuse it first (41
      levels under a limit of 50, say). */
  lemma DeepChainRefused(n: nat, maxDepth: u8, title: string, ids: seq<NodeId>)
    requires IMPORT_MAX_RECURSION < n && IMPORT_MAX_RECURSION <= maxDepth as nat
    requires NoDup(ids) && n <= |ids|
    ensures SizeAll([Chain(n)]) == n
    ensures ImportTreeValue(EjectTree(title, maxDepth, [Chain(n)]), ids) == Err(ImportInvalidType(NESTING_MESSAGE))
  {
    ChainShape(n);
    CeilingAll(Stage(Forest(map[], []), map[], ids), maxDepth, None, [Chain(n)], 0);
  }

  // ---------------------------------------------------------------- what import builds

  /** The ids the top-level trees of `ts` get when import hands out `ids` in
      preorder: the first id, then the ids past the first tree's nodes. */
  function TopIds(ids: seq<NodeId>, ts: seq<EjectTreeNode>): (r: seq<NodeId>)
    requires SizeAll(ts) <= |ids|
    ensures |r| == |ts|
    decreases ts
  {
    if ts == [] then []
    else
      assert 1 <= Size(ts[0]) <= SizeAll(ts);
      [ids[0]] + TopIds(ids[Size(ts[0])..], ts[1..])
  }

  /** `t` sits in `nodes` under the ids `ids` hands out in preorder: its record
      has the first id, `parent` as parent, the tree's title, body and
      placeholder, the type its tag imports as and, as children, the ids of its
      child trees, each of which sits there in the same way. */
  ghost predicate Placed(nodes: Nodes, ids: seq<NodeId>, t: EjectTreeNode, parent: Option<NodeId>)
    requires Size(t) <= |ids|
    decreases t, 0
  {
    && ids[0] in nodes
    && ParseImportTag(t.nodeType) == Ok(nodes[ids[0]].nodeType)
    && nodes[ids[0]] == NodeData(ids[0], parent, TopIds(ids[1..], t.children), t.title, t.body, nodes[ids[0]].nodeType, t.placeholder)
    && PlacedAll(nodes, ids[1..], t.children, Some(ids[0]))
  }

  ghost predicate PlacedAll(nodes: Nodes, ids: seq<NodeId>, ts: seq<EjectTreeNode>, parent: Option<NodeId>)
    requires SizeAll(ts) <= |ids|
    decreases ts, 1
  {
    ts == [] || (Placed(nodes, ids, ts[0], parent) && PlacedAll(nodes, ids[Size(ts[0])..], ts[1..], parent))
  }

  /** `r` is `s` with more nodes, in which the only old record that changed
      is `parent`'s, whose child list grew by `top` at its end; without a
      parent, the root list grew so instead. */
  ghost predicate Appends(s: Stage, r: Stage, parent: Option<NodeId>, top: seq<NodeId>)
    requires parent.Some? ==> parent.value in s.f.nodes
  {
    && s.f.nodes.Keys <= r.f.nodes.Keys
    && (forall k :: k in s.f.nodes && parent != Some(k) ==> r.f.nodes[k] == s.f.nodes[k])
    && match parent
       case None => r.f.roots == s.f.roots + top
       case Some(p) => r.f.nodes[p] == s.f.nodes[p].(children := s.f.nodes[p].children + top) && r.f.roots == s.f.roots
  }

  /** Every child list and the root list can take `n` more entries before
      reaching `usize::MAX`, so that inserting at position `usize::MAX` appends. */
  ghost predicate Room(s: Stage, n: nat) {
    && |s.f.roots| + n <= USIZE_MAX
    && forall k :: k in s.f.nodes ==> |s.f.nodes[k].children| + n <= USIZE_MAX
  }

  /** Inserting at a position past the end appends. */
  lemma InsertAtEnd<T>(xs: seq<T>, pos: nat, x: T)
    requires |xs| <= pos
    ensures Insert(xs, pos, x) == xs + [x]
  {
    var r := Insert(xs, pos, x);
    assert r == r[..|xs|] + [r[|xs|]];
  }

  /** With room for it, adding one node appends its id to its parent's
      children (or to the roots) and leaves every other record as it was. */
  lemma AddedAppends(s: Stage, parent: Option<NodeId>, t: EjectTreeNode, nodeType: NodeType, n: nat)
    requires Ready(s) && 1 <= |s.supply| && Room(s, n + 1)
    requires parent.Some? ==> parent.value in s.f.nodes
    ensures var s1 := AddToStage(s, parent, t, nodeType);
            Appends(s, s1, parent, [s.supply[0]]) && Room(s1, n)
  {
    var s1 := AddToStage(s, parent, t, nodeType);
    match parent
    case None =>
      InsertAtEnd(s.f.roots, USIZE_MAX, s.supply[0]);
    case Some(p) =>
      InsertAtEnd(s.f.nodes[p].children, USIZE_MAX, s.supply[0]);
  }

  lemma AppendsTrans(s: Stage, s1: Stage, s2: Stage, parent: Option<NodeId>, a: seq<NodeId>, b: seq<NodeId>)
    requires parent.Some? ==> parent.value in s.f.nodes
    requires Appends(s, s1, parent, a) && Appends(s1, s2, parent, b)
    ensures Appends(s, s2, parent, a + b)
  {
    match parent
    case None =>
      assert s.f.roots + a + b == s.f.roots + (a + b);
    case Some(p) =>
      assert s.f.nodes[p].children + a + b == s.f.nodes[p].children + (a + b);
  }

  /** A placed tree stays placed when none of its records changes. */
  lemma {:induction false} PlacedFrame(n1: Nodes, n2: Nodes, ids: seq<NodeId>, t: EjectTreeNode, parent: Option<NodeId>)
    requires Size(t) <= |ids| && Placed(n1, ids, t, parent)
    requires forall i :: 0 <= i < Size(t) && ids[i] in n1 ==> ids[i] in n2 && n2[ids[i]] == n1[ids[i]]
    ensures Placed(n2, ids, t, parent)
    decreases t, 0
  {
    PlacedAllFrame(n1, n2, ids[1..], t.children, Some(ids[0]));
  }

  lemma {:induction false} PlacedAllFrame(n1: Nodes, n2: Nodes, ids: seq<NodeId>, ts: seq<EjectTreeNode>, parent: Option<NodeId>)
    requires SizeAll(ts) <= |ids| && PlacedAll(n1, ids, ts, parent)
    requires forall i :: 0 <= i < SizeAll(ts) && ids[i] in n1 ==> ids[i] in n2 && n2[ids[i]] == n1[ids[i]]
    ensures PlacedAll(n2, ids, ts, parent)
    decreases ts, 1
  {
    if ts != [] {
      PlacedFrame(n1, n2, ids, ts[0], parent);
      PlacedAllFrame(n1, n2, ids[Size(ts[0])..], ts[1..], parent);
    }
  }

  /** A successful import of `t` places it under the ids of the supply, in
      preorder, and otherwise only appends the new root id to `parent`'s
      children (or to the roots). */
  lemma {:induction false} ImportNodePlaces(s: Stage, maxDepth: u8, parent: Option<NodeId>, t: EjectTreeNode, depth: nat, m: nat)
    requires Ready(s) && Size(t) <= |s.supply| && Room(s, Size(t) + m)
    requires parent.Some? ==> parent.value in s.f.nodes
    requires ImportNode(s, maxDepth, parent, t, depth).Ok?
    ensures var r := ImportNode(s, maxDepth, parent, t, depth).value;
            Placed(r.f.nodes, s.supply, t, parent) && Appends(s, r, parent, [s.supply[0]]) && Room(r, m)
    decreases t, 1
  {
    var s1, nodeType := ImportNodeSetup(s, maxDepth, parent, t, depth, m);
    ImportAllPlaces(s1, maxDepth, Some(s.supply[0]), t.children, depth + 1, m);
    NodePlaced(s, s1, ImportAll(s1, maxDepth, Some(s.supply[0]), t.children, depth + 1).value, parent, t, nodeType);
  }

  /** Past its checks, importing a node adds its record, with room left for
      the children, and then imports the children under it. */
  lemma ImportNodeSetup(s: Stage, maxDepth: u8, parent: Option<NodeId>, t: EjectTreeNode, depth: nat, m: nat)
      returns (s1: Stage, nodeType: NodeType)
    requires Ready(s) && Size(t) <= |s.supply| && Room(s, Size(t) + m)
    requires parent.Some? ==> parent.value in s.f.nodes
    requires ImportNode(s, maxDepth, parent, t, depth).Ok?
    ensures Ready(s1) && SizeAll(t.children) <= |s1.supply| && Room(s1, SizeAll(t.children) + m)
    ensures ParseImportTag(t.nodeType) == Ok(nodeType)
    ensures s1.supply == s.supply[1..] && s.supply[0] in s1.f.nodes
    ensures s1.f.nodes[s.supply[0]] == NodeData(s.supply[0], parent, [], t.title, t.body, nodeType, t.placeholder)
    ensures Appends(s, s1, parent, [s.supply[0]])
    ensures ImportNode(s, maxDepth, parent, t, depth) == ImportAll(s1, maxDepth, Some(s.supply[0]), t.children, depth + 1)
  {
    nodeType := ParseImportTag(t.nodeType).value;
    ImportNodeUnfold(s, maxDepth, parent, t, nodeType, depth);
    AddedStageFits(s, parent, t, nodeType);
    s1 := AddToStage(s, parent, t, nodeType);
    AddedAppends(s, parent, t, nodeType, SizeAll(t.children) + m);
  }

  /** The node's record, with its children placed after it, makes the whole tree placed. */
  lemma NodePlaced(s: Stage, s1: Stage, r: Stage, parent: Option<NodeId>, t: EjectTreeNode, nodeType: NodeType)
    requires Ready(s) && Size(t) <= |s.supply|
    requires parent.Some? ==> parent.value in s.f.nodes
    requires ParseImportTag(t.nodeType) == Ok(nodeType)
    requires s1.supply == s.supply[1..] && s.supply[0] in s1.f.nodes
    requires s1.f.nodes[s.supply[0]] == NodeData(s.supply[0], parent, [], t.title, t.body, nodeType, t.placeholder)
    requires Appends(s, s1, parent, [s.supply[0]])
    requires SizeAll(t.children) <= |s1.supply|
    requires PlacedAll(r.f.nodes, s1.supply, t.children, Some(s.supply[0]))
    requires Appends(s1, r, Some(s.supply[0]), TopIds(s1.supply, t.children))
    ensures Placed(r.f.nodes, s.supply, t, parent) && Appends(s, r, parent, [s.supply[0]])
  {
    assert [] + TopIds(s1.supply, t.children) == TopIds(s.supply[1..], t.children);
  }

  lemma {:induction false} ImportAllPlaces(s: Stage, maxDepth: u8, parent: Option<NodeId>, ts: seq<EjectTreeNode>, depth: nat, m: nat)
    requires Ready(s) && SizeAll(ts) <= |s.supply| && Room(s, SizeAll(ts) + m)
    requires parent.Some? ==> parent.value in s.f.nodes
    requires ImportAll(s, maxDepth, parent, ts, depth).Ok?
    ensures var r := ImportAll(s, maxDepth, parent, ts, depth).value;
            PlacedAll(r.f.nodes, s.supply, ts, parent) && Appends(s, r, parent, TopIds(s.supply, ts)) && Room(r, m)
    decreases ts, 2
  {
    if ts == [] {
      assert s.f.roots + [] == s.f.roots;
      if parent.Some? {
        assert s.f.nodes[parent.value].children + [] == s.f.nodes[parent.value].children;
      }
    } else {
      assert Size(ts[0]) <= SizeAll(ts);
      var s1 := ImportNode(s, maxDepth, parent, ts[0], depth).value;
      ImportNodePlaces(s, maxDepth, parent, ts[0], depth, SizeAll(ts[1..]) + m);
      RestFits(s, s1, parent, ts);
      ImportAllPlaces(s1, maxDepth, parent, ts[1..], depth, m);
      var r := ImportAll(s, maxDepth, parent, ts, depth).value;
      assert r == ImportAll(s1, maxDepth, parent, ts[1..], depth).value;
      forall i | 0 <= i < Size(ts[0]) && s.supply[i] in s1.f.nodes
        ensures s.supply[i] in r.f.nodes && r.f.nodes[s.supply[i]] == s1.f.nodes[s.supply[i]]
      {
        assert s.supply[i] in s.supply;
      }
      PlacedFrame(s1.f.nodes, r.f.nodes, s.supply, ts[0], parent);
      AppendsTrans(s, s1, r, parent, [s.supply[0]], TopIds(s1.supply, ts[1..]));
    }
  }

  /** A successful import keeps the arena well formed. */
  lemma {:induction false} ImportNodeWf(s: Stage, maxDepth: u8, parent: Option<NodeId>, t: EjectTreeNode, depth: nat)
    requires Ready(s) && Size(t) <= |s.supply| && WellFormed(s.f, s.level, maxDepth)
    requires parent.Some? ==> parent.value in s.f.nodes
    requires ImportNode(s, maxDepth, parent, t, depth).Ok?
    ensures var r := ImportNode(s, maxDepth, parent, t, depth).value;
            WellFormed(r.f, r.level, maxDepth)
    decreases t, 1
  {
    var s1 := ImportNodeWfSetup(s, maxDepth, parent, t, depth);
    ImportAllWf(s1, maxDepth, Some(s.supply[0]), t.children, depth + 1);
  }

  /** Past its checks, importing a node adds its record, which keeps the
      arena well formed, and then imports the children under it. */
  lemma ImportNodeWfSetup(s: Stage, maxDepth: u8, parent: Option<NodeId>, t: EjectTreeNode, depth: nat) returns (s1: Stage)
    requires Ready(s) && Size(t) <= |s.supply| && WellFormed(s.f, s.level, maxDepth)
    requires parent.Some? ==> parent.value in s.f.nodes
    requires ImportNode(s, maxDepth, parent, t, depth).Ok?
    ensures Ready(s1) && SizeAll(t.children) <= |s1.supply| && s.supply[0] in s1.f.nodes
    ensures WellFormed(s1.f, s1.level, maxDepth)
    ensures ImportNode(s, maxDepth, parent, t, depth) == ImportAll(s1, maxDepth, Some(s.supply[0]), t.children, depth + 1)
  {
    var nodeType := ParseImportTag(t.nodeType).value;
    ImportNodeUnfold(s, maxDepth, parent, t, nodeType, depth);
    AddedStageFits(s, parent, t, nodeType);
    AddPreservesWf(s.f, s.level, maxDepth, s.supply[0], parent, t.title, nodeType, t.body, t.placeholder, USIZE_MAX);
    s1 := AddToStage(s, parent, t, nodeType);
  }

  lemma {:induction false} ImportAllWf(s: Stage, maxDepth: u8, parent: Option<NodeId>, ts: seq<EjectTreeNode>, depth: nat)
    requires Ready(s) && SizeAll(ts) <= |s.supply| && WellFormed(s.f, s.level, maxDepth)
    requires parent.Some? ==> parent.value in s.f.nodes
    requires ImportAll(s, maxDepth, parent, ts, depth).Ok?
    ensures var r := ImportAll(s, maxDepth, parent, ts, depth).value;
            WellFormed(r.f, r.level, maxDepth)
    decreases ts, 2
  {
    if ts != [] {
      assert Size(ts[0]) <= SizeAll(ts);
      var s1 := ImportNode(s, maxDepth, parent, ts[0], depth).value;
      ImportNodeWf(s, maxDepth, parent, ts[0], depth);
      RestFits(s, s1, parent, ts);
      ImportAllWf(s1, maxDepth, parent, ts[1..], depth);
    }
  }

  /** In the arena import leaves, the traversal from a placed tree's record
      lists the ids handed out for it, in order. */
  lemma {:induction false} PlacedDfs(nodes: Nodes, level: map<NodeId, nat>, bound: nat, ids: seq<NodeId>, t: EjectTreeNode, parent: Option<NodeId>)
    requires Ranked(nodes, level, bound) && Size(t) <= |ids| && Placed(nodes, ids, t, parent)
    ensures SubtreeDfs(nodes, level, bound, ids[0]) == ids[..Size(t)]
    decreases t, 0
  {
    PlacedAllDfs(nodes, level, bound, ids[1..], t.children, Some(ids[0]));
    assert ids[..Size(t)] == [ids[0]] + ids[1..][..SizeAll(t.children)];
  }

  lemma {:induction false} PlacedAllDfs(nodes: Nodes, level: map<NodeId, nat>, bound: nat, ids: seq<NodeId>, ts: seq<EjectTreeNode>, parent: Option<NodeId>)
    requires Ranked(nodes, level, bound) && SizeAll(ts) <= |ids| && PlacedAll(nodes, ids, ts, parent)
    ensures ForestDfs(nodes, level, bound, TopIds(ids, ts)) == ids[..SizeAll(ts)]
    decreases ts, 1
  {
    if ts != [] {
      var n := Size(ts[0]);
      PlacedDfs(nodes, level, bound, ids, ts[0], parent);
      PlacedAllDfs(nodes, level, bound, ids[n..], ts[1..], parent);
      ForestDfsCons(nodes, level, bound, ids[0], TopIds(ids[n..], ts[1..]));
      SliceJoin(ids, n, SizeAll(ts[1..]));
    }
  }

  lemma ForestDfsCons(nodes: Nodes, level: map<NodeId, nat>, bound: nat, x: NodeId, rest: seq<NodeId>)
    requires Ranked(nodes, level, bound)
    ensures ForestDfs(nodes, level, bound, [x] + rest) == SubtreeDfs(nodes, level, bound, x) + ForestDfs(nodes, level, bound, rest)
  {
    assert ([x] + rest)[1..] == rest;
  }

  lemma SliceJoin<T>(xs: seq<T>, n: nat, k: nat)
    requires n + k <= |xs|
    ensures xs[..n + k] == xs[..n] + xs[n..][..k]
  {
  }

  /** Record `n` carries the fields of tree node `e`: its title, body and
      placeholder, and the type `e`'s tag imports as. */
  predicate Copied(e: EjectTreeNode, n: NodeData) {
    n.title == e.title && ParseImportTag(e.nodeType) == Ok(n.nodeType) && n.body == e.body && n.placeholder == e.placeholder
  }

  /** Position by position, the records of `ks` carry the fields of `es`. */
  ghost predicate CopiedAll(es: seq<EjectTreeNode>, nodes: Nodes, ks: seq<NodeId>) {
    |es| == |ks| && forall i :: 0 <= i < |ks| ==> ks[i] in nodes && Copied(es[i], nodes[ks[i]])
  }

  lemma CopiedConcat(es1: seq<EjectTreeNode>, es2: seq<EjectTreeNode>, nodes: Nodes, ks1: seq<NodeId>, ks2: seq<NodeId>)
    requires CopiedAll(es1, nodes, ks1) && CopiedAll(es2, nodes, ks2)
    ensures CopiedAll(es1 + es2, nodes, ks1 + ks2)
  {
  }

  /** The records of a placed tree carry its nodes' fields, in preorder. */
  lemma {:induction false} PlacedCopies(nodes: Nodes, ids: seq<NodeId>, t: EjectTreeNode, parent: Option<NodeId>)
    requires Size(t) <= |ids| && Placed(nodes, ids, t, parent)
    ensures CopiedAll(Flatten(t), nodes, ids[..Size(t)])
    decreases t, 0
  {
    PlacedAllCopies(nodes, ids[1..], t.children, Some(ids[0]));
    CopiedConcat([t], FlattenAll(t.children), nodes, [ids[0]], ids[1..][..SizeAll(t.children)]);
    assert ids[..Size(t)] == [ids[0]] + ids[1..][..SizeAll(t.children)];
  }

  lemma {:induction false} PlacedAllCopies(nodes: Nodes, ids: seq<NodeId>, ts: seq<EjectTreeNode>, parent: Option<NodeId>)
    requires SizeAll(ts) <= |ids| && PlacedAll(nodes, ids, ts, parent)
    ensures CopiedAll(FlattenAll(ts), nodes, ids[..SizeAll(ts)])
    decreases ts, 1
  {
    if ts != [] {
      var n := Size(ts[0]);
      PlacedCopies(nodes, ids, ts[0], parent);
      PlacedAllCopies(nodes, ids[n..], ts[1..], parent);
      CopiedConcat(Flatten(ts[0]), FlattenAll(ts[1..]), nodes, ids[..n], ids[n..][..SizeAll(ts[1..])]);
      assert ids[..SizeAll(ts)] == ids[..n] + ids[n..][..SizeAll(ts[1..])];
    }
  }

  /** In an arena whose depths are exact, the records of a placed tree sit at
      its nodes' depths, counted from the depth a node gets under `parent`. */
  lemma {:induction false} PlacedDepths(nodes: Nodes, level: map<NodeId, nat>, maxDepth: nat, ids: seq<NodeId>, t: EjectTreeNode, parent: Option<NodeId>)
    requires LevelsExact(nodes, level, maxDepth) && Size(t) <= |ids| && Placed(nodes, ids, t, parent)
    requires parent.Some? ==> parent.value in nodes
    ensures LeveledAll(Depths(t, NewDepth(level, parent)), level, ids[..Size(t)])
    decreases t, 0
  {
    var d := NewDepth(level, parent);
    assert nodes[ids[0]].parent == parent;
    PlacedAllDepths(nodes, level, maxDepth, ids[1..], t.children, Some(ids[0]));
    LeveledConcat([d], DepthsAll(t.children, d + 1), level, [ids[0]], ids[1..][..SizeAll(t.children)]);
    assert ids[..Size(t)] == [ids[0]] + ids[1..][..SizeAll(t.children)];
  }

  lemma {:induction false} PlacedAllDepths(nodes: Nodes, level: map<NodeId, nat>, maxDepth: nat, ids: seq<NodeId>, ts: seq<EjectTreeNode>, parent: Option<NodeId>)
    requires LevelsExact(nodes, level, maxDepth) && SizeAll(ts) <= |ids| && PlacedAll(nodes, ids, ts, parent)
    requires parent.Some? ==> parent.value in nodes
    ensures LeveledAll(DepthsAll(ts, NewDepth(level, parent)), level, ids[..SizeAll(ts)])
    decreases ts, 1
  {
    if ts != [] {
      var n := Size(ts[0]);
      var d := NewDepth(level, parent);
      PlacedDepths(nodes, level, maxDepth, ids, ts[0], parent);
      PlacedAllDepths(nodes, level, maxDepth, ids[n..], ts[1..], parent);
      LeveledConcat(Depths(ts[0], d), DepthsAll(ts[1..], d), level, ids[..n], ids[n..][..SizeAll(ts[1..])]);
      SliceJoin(ids, n, SizeAll(ts[1..]));
    }
  }

  /** What a successful `import_tree` builds: a well-formed book whose roots
      are the top-level trees, whose traversal hands out the ids in order, one
      per tree node in preorder, and whose records carry those nodes' titles,
      bodies, placeholders and imported types. */
  lemma ImportTreeContents(tree: EjectTree, ids: seq<NodeId>)
    requires NoDup(ids) && SizeAll(tree.nodes) <= |ids| && SizeAll(tree.nodes) <= USIZE_MAX
    requires ImportTreeValue(tree, ids).Ok?
    ensures var g := ImportTreeValue(tree, ids).value;
      && WellFormed(g.f, g.level, tree.maxDepth)
      && g.f.roots == TopIds(ids, tree.nodes)
      && AllNodesDfs(g.f, g.level, tree.maxDepth) == ids[..SizeAll(tree.nodes)]
      && CopiedAll(FlattenAll(tree.nodes), g.f.nodes, AllNodesDfs(g.f, g.level, tree.maxDepth))
      && LeveledAll(DepthsAll(tree.nodes, 1), g.level, AllNodesDfs(g.f, g.level, tree.maxDepth))
  {
    var empty := Stage(Forest(map[], []), map[], ids);
    var g := ImportTreeValue(tree, ids).value;
    assert WellFormed(empty.f, empty.level, tree.maxDepth);
    ImportAllPlaces(empty, tree.maxDepth, None, tree.nodes, 0, 0);
    ImportAllWf(empty, tree.maxDepth, None, tree.nodes, 0);
    PlacedAllDfs(g.f.nodes, g.level, tree.maxDepth, ids, tree.nodes, None);
    PlacedAllCopies(g.f.nodes, ids, tree.nodes, None);
    PlacedAllDepths(g.f.nodes, g.level, tree.maxDepth, ids, tree.nodes, None);
  }

  // ---------------------------------------------------------------- export, then import

  /** Every tag an export writes is one that import accepts. */
  lemma {:induction false} BuildNodeTags(nodes: Nodes, level: map<NodeId, nat>, bound: nat, id: NodeId)
    requires Ranked(nodes, level, bound) && id in nodes
    ensures TagsOk(BuildNode(nodes, level, bound, id))
    decreases Rank(nodes, level, bound, id), 0
  {
    ChildrenRankBelow(nodes, level, bound, id, nodes[id].children);
    BuildAllTags(nodes, level, bound, nodes[id].children);
    TagRoundTrip(nodes[id].nodeType);
  }

  lemma {:induction false} BuildAllTags(nodes: Nodes, level: map<NodeId, nat>, bound: nat, ids: seq<NodeId>)
    requires Ranked(nodes, level, bound)
    ensures TagsOkAll(BuildAll(nodes, level, bound, ids))
    decreases MaxRank(nodes, level, bound, ids), 1, |ids|
  {
    if ids != [] {
      BuildAllTags(nodes, level, bound, ids[1..]);
      if ids[0] in nodes {
        BuildNodeTags(nodes, level, bound, ids[0]);
        var ts := BuildAll(nodes, level, bound, ids);
        assert ts[1..] == BuildAll(nodes, level, bound, ids[1..]);
      }
    }
  }

  /** When no node of a well-formed book is deeper than `cap`, the exported
      subtree of a node at depth `d` is at most `cap - d + 1` levels tall. */
  lemma {:induction false} BuildNodeHeight(f: Forest, level: map<NodeId, nat>, maxDepth: nat, cap: nat, id: NodeId)
    requires WellFormed(f, level, maxDepth) && id in f.nodes
    requires forall k :: k in f.nodes ==> level[k] <= cap
    ensures level[id] + Height(BuildNode(f.nodes, level, maxDepth, id)) <= cap + 1
    decreases Rank(f.nodes, level, maxDepth, id), 0
  {
    var cs := f.nodes[id].children;
    ChildrenRankBelow(f.nodes, level, maxDepth, id, cs);
    WellFormedStepped(f, level, maxDepth);
    BuildAllHeight(f, level, maxDepth, cap, cs, level[id] + 1);
  }

  lemma {:induction false} BuildAllHeight(f: Forest, level: map<NodeId, nat>, maxDepth: nat, cap: nat, ids: seq<NodeId>, d: nat)
    requires WellFormed(f, level, maxDepth)
    requires forall k :: k in f.nodes ==> level[k] <= cap
    requires forall c :: c in ids && c in f.nodes ==> level[c] == d
    ensures BuildAll(f.nodes, level, maxDepth, ids) == [] || d + HeightAll(BuildAll(f.nodes, level, maxDepth, ids)) <= cap + 1
    decreases MaxRank(f.nodes, level, maxDepth, ids), 1, |ids|
  {
    if ids != [] {
      BuildAllHeight(f, level, maxDepth, cap, ids[1..], d);
      if ids[0] in f.nodes {
        BuildNodeHeight(f, level, maxDepth, cap, ids[0]);
        var ts := BuildAll(f.nodes, level, maxDepth, ids);
        assert ts[1..] == BuildAll(f.nodes, level, maxDepth, ids[1..]);
      }
    }
  }

  /** In the export of a book whose children sit one level below their
      parents, each node's depth within the tree, counted from its root's
      depth in the book, is its depth in the book. */
  lemma {:induction false} BuildNodeDepths(nodes: Nodes, level: map<NodeId, nat>, bound: nat, id: NodeId)
    requires Ranked(nodes, level, bound) && Stepped(nodes, level) && id in nodes
    ensures LeveledAll(Depths(BuildNode(nodes, level, bound, id), level[id]), level, SubtreeDfs(nodes, level, bound, id))
    decreases Rank(nodes, level, bound, id), 0
  {
    var cs := nodes[id].children;
    ChildrenRankBelow(nodes, level, bound, id, cs);
    BuildAllDepths(nodes, level, bound, cs, level[id] + 1);
    var rest := DepthsAll(BuildAll(nodes, level, bound, cs), level[id] + 1);
    LeveledConcat([level[id]], rest, level, [id], ForestDfs(nodes, level, bound, cs));
  }

  lemma {:induction false} BuildAllDepths(nodes: Nodes, level: map<NodeId, nat>, bound: nat, ids: seq<NodeId>, d: nat)
    requires Ranked(nodes, level, bound) && Stepped(nodes, level)
    requires forall c :: c in ids && c in nodes ==> level[c] == d
    ensures LeveledAll(DepthsAll(BuildAll(nodes, level, bound, ids), d), level, ForestDfs(nodes, level, bound, ids))
    decreases MaxRank(nodes, level, bound, ids), 1, |ids|
  {
    if ids != [] {
      BuildAllDepths(nodes, level, bound, ids[1..], d);
      var rest := BuildAll(nodes, level, bound, ids[1..]);
      if ids[0] in nodes {
        BuildNodeDepths(nodes, level, bound, ids[0]);
        var t := BuildNode(nodes, level, bound, ids[0]);
        assert ([t] + rest)[1..] == rest;
        LeveledConcat(Depths(t, d), DepthsAll(rest, d), level, SubtreeDfs(nodes, level, bound, ids[0]), ForestDfs(nodes, level, bound, ids[1..]));
      }
    }
  }

  /** When every listed id is present, nothing is skipped. */
  lemma {:induction false} BuildAllKeepsAll(nodes: Nodes, level: map<NodeId, nat>, bound: nat, ids: seq<NodeId>)
    requires Ranked(nodes, level, bound)
    requires forall c :: c in ids ==> c in nodes
    ensures |BuildAll(nodes, level, bound, ids)| == |ids|
    decreases |ids|
  {
    if ids != [] {
      BuildAllKeepsAll(nodes, level, bound, ids[1..]);
    }
  }

  /** Two records hold the same content: title, type, body and placeholder. */
  predicate SameContent(a: NodeData, b: NodeData) {
    a.title == b.title && a.nodeType == b.nodeType && a.body == b.body && a.placeholder == b.placeholder
  }

  /** Two arenas hold the same outline up to ids: their traversals have the
      same length, and at each position the nodes hold the same content at
      the same depth. */
  ghost predicate SameOutline(g: Forest, glevel: map<NodeId, nat>, f: Forest, level: map<NodeId, nat>, maxDepth: nat)
    requires Ranked(g.nodes, glevel, maxDepth) && Ranked(f.nodes, level, maxDepth)
  {
    var a := AllNodesDfs(g, glevel, maxDepth);
    var b := AllNodesDfs(f, level, maxDepth);
    && |a| == |b|
    && (forall i :: 0 <= i < |a| ==> SameContent(g.nodes[a[i]], f.nodes[b[i]]))
    && (forall i :: 0 <= i < |a| ==> a[i] in glevel && b[i] in level && glevel[a[i]] == level[b[i]])
  }

  /** What the export of a well-formed book no deeper than the nesting
      ceiling gives import to work with: known tags, a height within both
      limits, one root per root, and in preorder the book's records and depths. */
  lemma ExportForImport(f: Forest, level: map<NodeId, nat>, maxDepth: u8, title: string)
    requires WellFormed(f, level, maxDepth)
    requires forall k :: k in f.nodes ==> level[k] <= IMPORT_MAX_RECURSION
    ensures var t := BuildTreeOf(title, maxDepth, f, level, None);
      && TagsOkAll(t.nodes) && HeightAll(t.nodes) <= IMPORT_MAX_RECURSION && HeightAll(t.nodes) <= maxDepth as nat
      && |t.nodes| == |f.roots| && SizeAll(t.nodes) == |f.nodes|
      && ExportedAll(FlattenAll(t.nodes), f.nodes, AllNodesDfs(f, level, maxDepth))
      && LeveledAll(DepthsAll(t.nodes, 1), level, AllNodesDfs(f, level, maxDepth))
  {
    var cap := if maxDepth as nat < IMPORT_MAX_RECURSION then maxDepth as nat else IMPORT_MAX_RECURSION;
    ExportIsTraversal(f, level, maxDepth, title);
    BuildAllTags(f.nodes, level, maxDepth, f.roots);
    BuildAllHeight(f, level, maxDepth, cap, f.roots, 1);
    BuildAllKeepsAll(f.nodes, level, maxDepth, f.roots);
    forall r | r in f.roots && r in f.nodes ensures level[r] == 1 { }
    WellFormedStepped(f, level, maxDepth);
    BuildAllDepths(f.nodes, level, maxDepth, f.roots, 1);
  }

  /** Records copied from the same tree entries that another arena's records
      were exported to, at the same depths, hold the same content. */
  lemma CopiedFromExport(es: seq<EjectTreeNode>, ds: seq<nat>, gnodes: Nodes, glevel: map<NodeId, nat>, a: seq<NodeId>,
                         nodes: Nodes, level: map<NodeId, nat>, b: seq<NodeId>)
    requires CopiedAll(es, gnodes, a) && ExportedAll(es, nodes, b)
    requires LeveledAll(ds, glevel, a) && LeveledAll(ds, level, b)
    ensures |a| == |b|
    ensures forall i :: 0 <= i < |a| ==> SameContent(gnodes[a[i]], nodes[b[i]])
    ensures forall i :: 0 <= i < |a| ==> a[i] in glevel && b[i] in level && glevel[a[i]] == level[b[i]]
  {
    forall i | 0 <= i < |a| ensures SameContent(gnodes[a[i]], nodes[b[i]]) {
      TagRoundTrip(nodes[b[i]].nodeType);
      assert Copied(es[i], gnodes[a[i]]) && Exported(es[i], nodes[b[i]]);
    }
  }

  /** Importing the export of a well-formed book no deeper than the nesting
      ceiling succeeds. It rebuilds a well-formed book with the same title,
      depth limit, node count and root count, whose traversal hands out the new
      ids in order and which holds the same outline: at each position of the
      traversal, the same title, type, body and placeholder at the same depth. */
  lemma ExportImportRoundTrip(f: Forest, level: map<NodeId, nat>, maxDepth: u8, title: string, ids: seq<NodeId>)
    requires WellFormed(f, level, maxDepth)
    requires forall k :: k in f.nodes ==> level[k] <= IMPORT_MAX_RECURSION
    requires NoDup(ids) && |f.nodes| <= |ids| && |f.nodes| <= USIZE_MAX
    ensures var t := BuildTreeOf(title, maxDepth, f, level, None);
      && t.title == title && t.maxDepth == maxDepth
      && SizeAll(t.nodes) == |f.nodes|
      && ImportTreeValue(t, ids).Ok?
      && var g := ImportTreeValue(t, ids).value;
         && WellFormed(g.f, g.level, maxDepth)
         && |g.f.nodes| == |f.nodes| && |g.f.roots| == |f.roots|
         && AllNodesDfs(g.f, g.level, maxDepth) == ids[..|f.nodes|]
         && SameOutline(g.f, g.level, f, level, maxDepth)
  {
    var t := BuildTreeOf(title, maxDepth, f, level, None);
    ExportForImport(f, level, maxDepth, title);
    ImportTreeOk(t, ids);
    ImportTreeContents(t, ids);
    var g := ImportTreeValue(t, ids).value;
    CopiedFromExport(FlattenAll(t.nodes), DepthsAll(t.nodes, 1), g.f.nodes, g.level, AllNodesDfs(g.f, g.level, maxDepth),
                     f.nodes, level, AllNodesDfs(f, level, maxDepth));
  }

  // ---------------------------------------------------------------- import, on a book object

  /** The stage a book object is at, given the ids still to hand out. */
  ghost function StageOf(book: TemplateBook, supply: seq<NodeId>): Stage
    reads book
  {
    Stage(Forest(book.records, book.roots), book.level, supply)
  }

  /** One step of the loop over a list of trees, from position `i`. */
  lemma ImportAllStep(s: Stage, maxDepth: u8, parent: Option<NodeId>, ts: seq<EjectTreeNode>, i: nat, depth: nat)
    requires Ready(s) && i < |ts| && SizeAll(ts[i..]) <= |s.supply|
    requires parent.Some? ==> parent.value in s.f.nodes
    ensures Size(ts[i]) <= |s.supply|
    ensures var r := ImportNode(s, maxDepth, parent, ts[i], depth);
      && (r.Err? ==> ImportAll(s, maxDepth, parent, ts[i..], depth) == Err(r.error))
      && (r.Ok? ==> SizeAll(ts[i + 1..]) <= |r.value.supply| && (parent.Some? ==> parent.value in r.value.f.nodes) &&
                    ImportAll(s, maxDepth, parent, ts[i..], depth) == ImportAll(r.value, maxDepth, parent, ts[i + 1..], depth))
  {
    assert ts[i..][0] == ts[i] && ts[i..][1..] == ts[i + 1..];
  }

  /** The loop of `import_tree` and of `import_tree_node` over a list of
      trees, each imported under `parent` at nesting level `depth`, stopping
      at the first failure. */
  method ImportTrees(book: TemplateBook, parent: Option<NodeId>, ts: seq<EjectTreeNode>, depth: nat, ids: seq<NodeId>)
      returns (r: Outcome<AppError>, rest: seq<NodeId>)
    requires book.Valid() && Ready(StageOf(book, ids)) && SizeAll(ts) <= |ids|
    requires parent.Some? ==> parent.value in book.records
    modifies book, book.nodes.Values
    ensures book.Valid()
    ensures forall o :: o in book.nodes.Values ==> o in old(book.nodes.Values) || fresh(o)
    ensures match ImportAll(old(StageOf(book, ids)), book.maxDepth, parent, ts, depth)
            case Ok(st) => r == Pass && StageOf(book, rest) == st
            case Err(e) => r == Fail(e)
    decreases ts, 2
  {
    rest := ids;
    for i := 0 to |ts|
      invariant book.Valid()
      invariant forall o :: o in book.nodes.Values ==> o in old(book.nodes.Values) || fresh(o)
      invariant Ready(StageOf(book, rest)) && SizeAll(ts[i..]) <= |rest|
      invariant parent.Some? ==> parent.value in book.records
      invariant ImportAll(old(StageOf(book, ids)), book.maxDepth, parent, ts, depth) ==
                ImportAll(StageOf(book, rest), book.maxDepth, parent, ts[i..], depth)
    {
      ImportAllStep(StageOf(book, rest), book.maxDepth, parent, ts, i, depth);
      var c;
      c, rest := ImportTreeNode(book, parent, ts[i], depth, rest);
      if c.Fail? {
        return c, rest;
      }
    }
    return Pass, rest;
  }

  /** `import_tree_node`: adds `t` and, recursively, its children to `book`.
      `ids` are the ids `NodeId::new` would return, in order; what is left of
      them comes back in `rest`. On success the book is exactly the stage the
      value-level import reaches; on failure the error is the one it reports
      (the book may then hold the nodes added before the failure, as in the
      source, where the caller discards it). */
  method ImportTreeNode(book: TemplateBook, parent: Option<NodeId>, t: EjectTreeNode, depth: nat, ids: seq<NodeId>)
      returns (r: Outcome<AppError>, rest: seq<NodeId>)
    requires book.Valid() && Ready(StageOf(book, ids)) && Size(t) <= |ids|
    requires parent.Some? ==> parent.value in book.records
    modifies book, book.nodes.Values
    ensures book.Valid()
    ensures forall o :: o in book.nodes.Values ==> o in old(book.nodes.Values) || fresh(o)
    ensures match ImportNode(old(StageOf(book, ids)), book.maxDepth, parent, t, depth)
            case Ok(st) => r == Pass && StageOf(book, rest) == st
            case Err(e) => r == Fail(e)
    decreases t, 1
  {
    if depth >= IMPORT_MAX_RECURSION {
      return Fail(ImportInvalidType(NESTING_MESSAGE)), ids;
    }
    var nodeType := ParseImportTag(t.nodeType);
    if nodeType.Err? {
      return Fail(nodeType.error), ids;
    }
    r, rest := AddSubtree(book, parent, t, nodeType.value, depth, ids);
  }

  /** The `add_node` call of `import_tree_node`, with the next id of the
      supply: it fails only on the depth limit (the parent, if any, was added
      before), and otherwise moves the book to the next stage. */
  method AddToBook(book: TemplateBook, parent: Option<NodeId>, t: EjectTreeNode, nodeType: NodeType, ids: seq<NodeId>)
      returns (r: Result<NodeId, DomainError>)
    requires book.Valid() && Ready(StageOf(book, ids)) && 1 <= |ids|
    requires parent.Some? ==> parent.value in book.records
    modifies book, book.nodes.Values
    ensures book.Valid()
    ensures forall o :: o in book.nodes.Values ==> o in old(book.nodes.Values) || fresh(o)
    ensures NewDepth(old(book.level), parent) > book.maxDepth as nat ==> r == Err(MaxDepthExceeded(ids[0], book.maxDepth))
    ensures NewDepth(old(book.level), parent) <= book.maxDepth as nat ==>
              r == Ok(ids[0]) && StageOf(book, ids[1..]) == AddToStage(old(StageOf(book, ids)), parent, t, nodeType)
  {
    ghost var s := StageOf(book, ids);
    ghost var before := book.nodes;
    r := book.AddNode(parent, t.title, nodeType, t.body, t.placeholder, USIZE_MAX, ids[0]);
    if r.Ok? {
      AddedStage(s, Forest(book.records, book.roots), book.level, parent, t, nodeType);
      UpdatedValues(before, ids[0], book.nodes[ids[0]]);
    }
  }

  /** The arena and depths `add_node` leaves, with the rest of the supply, are
      the stage `AddToStage` describes. */
  lemma AddedStage(s: Stage, f: Forest, level: map<NodeId, nat>, parent: Option<NodeId>, t: EjectTreeNode, nodeType: NodeType)
    requires Ready(s) && 1 <= |s.supply|
    requires parent.Some? ==> parent.value in s.f.nodes
    requires f == AddNodeValue(s.f, s.supply[0], parent, t.title, nodeType, t.body, t.placeholder, USIZE_MAX)
    requires level == s.level[s.supply[0] := NewDepth(s.level, parent)]
    ensures Stage(f, level, s.supply[1..]) == AddToStage(s, parent, t, nodeType)
  {
  }

  /** Storing one value under a key brings no value other than that one. */
  lemma UpdatedValues<K, V>(m: map<K, V>, k: K, v: V)
    ensures forall x :: x in m[k := v].Values ==> x in m.Values || x == v
  {
    forall x | x in m[k := v].Values ensures x in m.Values || x == v {
      var j :| j in m[k := v] && m[k := v][j] == x;
      if j != k {
        assert j in m && m[j] == x;
      }
    }
  }

  /** Past the ceiling and the tag check, importing a node is adding it and
      then importing its children under it. */
  lemma ImportNodeUnfold(s: Stage, maxDepth: u8, parent: Option<NodeId>, t: EjectTreeNode, nodeType: NodeType, depth: nat)
    requires Ready(s) && Size(t) <= |s.supply|
    requires parent.Some? ==> parent.value in s.f.nodes
    requires depth < IMPORT_MAX_RECURSION && ParseImportTag(t.nodeType) == Ok(nodeType)
    ensures NewDepth(s.level, parent) > maxDepth as nat ==>
              ImportNode(s, maxDepth, parent, t, depth) == Err(Domain(MaxDepthExceeded(s.supply[0], maxDepth)))
    ensures NewDepth(s.level, parent) <= maxDepth as nat ==>
              var s1 := AddToStage(s, parent, t, nodeType);
              && SizeAll(t.children) <= |s1.supply| && s.supply[0] in s1.f.nodes
              && ImportNode(s, maxDepth, parent, t, depth) == ImportAll(s1, maxDepth, Some(s.supply[0]), t.children, depth + 1)
  {
  }

  /** The rest of `import_tree_node` once the ceiling and the tag have been
      checked: `add_node`, then the children under the new node. */
  method AddSubtree(book: TemplateBook, parent: Option<NodeId>, t: EjectTreeNode, nodeType: NodeType, depth: nat, ids: seq<NodeId>)
      returns (r: Outcome<AppError>, rest: seq<NodeId>)
    requires book.Valid() && Ready(StageOf(book, ids)) && Size(t) <= |ids|
    requires parent.Some? ==> parent.value in book.records
    requires depth < IMPORT_MAX_RECURSION && ParseImportTag(t.nodeType) == Ok(nodeType)
    modifies book, book.nodes.Values
    ensures book.Valid()
    ensures forall o :: o in book.nodes.Values ==> o in old(book.nodes.Values) || fresh(o)
    ensures match ImportNode(old(StageOf(book, ids)), book.maxDepth, parent, t, depth)
            case Ok(st) => r == Pass && StageOf(book, rest) == st
            case Err(e) => r == Fail(e)
    decreases t, 0
  {
    ghost var s := StageOf(book, ids);
    ImportNodeUnfold(s, book.maxDepth, parent, t, nodeType, depth);
    var added := AddToBook(book, parent, t, nodeType, ids);
    if added.Err? {
      return Fail(Domain(added.error)), ids;
    }
    AddedStageFits(s, parent, t, nodeType);
    ghost var s1 := AddToStage(s, parent, t, nodeType);
    assert StageOf(book, ids[1..]) == s1;
    r, rest := ImportTrees(book, Some(added.value), t.children, depth + 1, ids[1..]);
  }

  /** `import_tree`: a new book with the tree's title and depth limit (and
      the caller's book id, which the source draws at random), then every
      top-level node in order. The book returned is the one the value-level
      import builds. */
  method ImportTree(tree: EjectTree, bookId: BookId, ids: seq<NodeId>) returns (r: Result<TemplateBook, AppError>)
    requires NoDup(ids) && SizeAll(tree.nodes) <= |ids|
    ensures match ImportTreeValue(tree, ids)
            case Ok(st) =>
              && r.Ok? && fresh(r.value) && r.value.Valid()
              && r.value.id == bookId && r.value.title == tree.title && r.value.maxDepth == tree.maxDepth
              && Forest(r.value.records, r.value.roots) == st.f && r.value.level == st.level
            case Err(e) => r == Err(e)
  {
    var book := new TemplateBook(bookId, tree.title, tree.maxDepth);
    assert StageOf(book, ids) == Stage(Forest(map[], []), map[], ids);
    var outcome, rest := ImportTrees(book, None, tree.nodes, 0, ids);
    if outcome.Fail? {
      return Err(outcome.error);
    }
    return Ok(book);
  }
}
