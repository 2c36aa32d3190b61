/** The arena behind a book, as a value: a map from id to node record plus the
    ordered root list (src/domain/model/book.rs). This module states the
    arena's invariants, defines its traversals, and proves what the book's
    mutations need about them. Every traversal takes a ghost level map that
    ranks the nodes; it is only there to show that the recursion stops. */
module Arena {
  import opened Wrappers
  import opened Seqs
  import opened Node

  /** Rust's `u8`. */
  type u8 = x: nat | x < 256

  type Nodes = map<NodeId, NodeData>

  /** An arena's contents: the node map and the ordered root list. */
  datatype Forest = Forest(nodes: Nodes, roots: seq<NodeId>)

  // ---------------------------------------------------------------- invariants

  /** Every record is stored under its own id. */
  ghost predicate IdsAgree(nodes: Nodes) {
    forall k :: k in nodes ==> nodes[k].id == k
  }

  /** The root list holds, once each, exactly the nodes that have no parent. */
  ghost predicate RootsExact(nodes: Nodes, roots: seq<NodeId>) {
    && NoDup(roots)
    && (forall r :: r in roots ==> r in nodes && nodes[r].parent.None?)
    && (forall k {:trigger nodes[k].parent} :: k in nodes && nodes[k].parent.None? ==> k in roots)
  }

  /** No parent link dangles. */
  ghost predicate ParentsPresent(nodes: Nodes) {
    forall k {:trigger nodes[k].parent} :: k in nodes && nodes[k].parent.Some? ==> nodes[k].parent.value in nodes
  }

  /** Child lists and parent links agree: a node lists, once each, exactly the
      nodes whose parent it is. */
  ghost predicate ChildrenExact(nodes: Nodes)
    requires ParentsPresent(nodes)
  {
    && (forall k :: k in nodes ==> NoDup(nodes[k].children))
    && (forall k, c {:trigger c in nodes[k].children} :: k in nodes && c in nodes[k].children ==> c in nodes && nodes[c].parent == Some(k))
    && (forall c {:trigger nodes[c].parent} :: c in nodes && nodes[c].parent.Some? ==> c in nodes[nodes[c].parent.value].children)
  }

  /** `level` gives every node its depth: 1 for a root, one more than its
      parent's otherwise, never above `maxDepth`. Its existence rules out cycles. */
  ghost predicate LevelsExact(nodes: Nodes, level: map<NodeId, nat>, maxDepth: nat) {
    && level.Keys == nodes.Keys
    && (forall k :: k in nodes ==> 1 <= level[k] <= maxDepth)
    && (forall k {:trigger nodes[k].parent} :: k in nodes && nodes[k].parent.None? ==> level[k] == 1)
    && (forall k {:trigger nodes[k].parent} :: k in nodes && nodes[k].parent.Some? ==>
          nodes[k].parent.value in level && level[k] == level[nodes[k].parent.value] + 1)
  }

  /** The arena invariant: ids agree, roots are exactly the parentless nodes,
      links agree in both directions, nothing dangles, and depths are ranked
      and bounded (so the parent graph is acyclic). */
  ghost predicate Linked(f: Forest, level: map<NodeId, nat>, maxDepth: nat) {
    && IdsAgree(f.nodes)
    && RootsExact(f.nodes, f.roots)
    && ParentsPresent(f.nodes)
    && ChildrenExact(f.nodes)
    && LevelsExact(f.nodes, level, maxDepth)
  }

  /** The weaker fact the traversals need to terminate: every node is ranked
      at most `bound`, and every child that exists is ranked strictly below its parent. */
  ghost predicate Ranked(nodes: Nodes, level: map<NodeId, nat>, bound: nat) {
    && (forall k :: k in nodes ==> k in level && level[k] <= bound)
    && (forall k, c {:trigger c in nodes[k].children} :: k in nodes && c in nodes[k].children && c in nodes ==> level[k] < level[c])
  }

  /** `Ranked` follows from `Linked` (lemma LinkedRanked); it is kept as a
      conjunct so that traversals of a well-formed arena are defined outright. */
  ghost predicate WellFormed(f: Forest, level: map<NodeId, nat>, maxDepth: nat) {
    Linked(f, level, maxDepth) && Ranked(f.nodes, level, maxDepth)
  }

  lemma LinkedRanked(f: Forest, level: map<NodeId, nat>, maxDepth: nat)
    requires Linked(f, level, maxDepth)
    ensures Ranked(f.nodes, level, maxDepth)
  {
    forall k, c | k in f.nodes && c in f.nodes[k].children && c in f.nodes
      ensures level[k] < level[c]
    {
      assert f.nodes[c].parent == Some(k);
    }
  }

  /** Child links step exactly one level down (a consequence of `WellFormed`). */
  ghost predicate Stepped(nodes: Nodes, level: map<NodeId, nat>) {
    forall k, c {:trigger c in nodes[k].children} :: k in nodes && c in nodes[k].children && c in nodes ==>
      k in level && c in level && level[c] == level[k] + 1
  }

  lemma WellFormedStepped(f: Forest, level: map<NodeId, nat>, maxDepth: nat)
    requires WellFormed(f, level, maxDepth)
    ensures Stepped(f.nodes, level)
  {
    forall k, c | k in f.nodes && c in f.nodes[k].children && c in f.nodes
      ensures k in level && c in level && level[c] == level[k] + 1
    {
      assert f.nodes[c].parent == Some(k);
    }
  }

  // ---------------------------------------------------------------- termination measures

  ghost function Rank(nodes: Nodes, level: map<NodeId, nat>, bound: nat, k: NodeId): nat
    requires Ranked(nodes, level, bound)
  {
    if k in nodes then bound - level[k] + 1 else 0
  }

  ghost function MaxRank(nodes: Nodes, level: map<NodeId, nat>, bound: nat, ids: seq<NodeId>): nat
    requires Ranked(nodes, level, bound)
  {
    if ids == [] then 0
    else
      var a := Rank(nodes, level, bound, ids[0]);
      var b := MaxRank(nodes, level, bound, ids[1..]);
      if a < b then b else a
  }

  /** The children of a node are all ranked below it. */
  lemma {:induction false} ChildrenRankBelow(nodes: Nodes, level: map<NodeId, nat>, bound: nat, id: NodeId, ids: seq<NodeId>)
    requires Ranked(nodes, level, bound) && id in nodes
    requires forall c :: c in ids ==> c in nodes[id].children
    ensures MaxRank(nodes, level, bound, ids) < Rank(nodes, level, bound, id)
  {
    if ids != [] {
      assert ids[0] in ids;
      ChildrenRankBelow(nodes, level, bound, id, ids[1..]);
    }
  }

  /** Each id is ranked no higher than the list it belongs to. */
  lemma RankBelowMax(nodes: Nodes, level: map<NodeId, nat>, bound: nat, ids: seq<NodeId>, i: nat)
    requires Ranked(nodes, level, bound) && i < |ids|
    ensures Rank(nodes, level, bound, ids[i]) <= MaxRank(nodes, level, bound, ids)
  {
    if i > 0 {
      RankBelowMax(nodes, level, bound, ids[1..], i - 1);
    }
  }

  // ---------------------------------------------------------------- traversals

  /** `collect_subtree_dfs`: the ids of the subtree rooted at `id` in preorder,
      children in child-list order; an id missing from the map contributes nothing. */
  function SubtreeDfs(nodes: Nodes, ghost level: map<NodeId, nat>, ghost bound: nat, id: NodeId): (r: seq<NodeId>)
    requires Ranked(nodes, level, bound)
    ensures r == [] <==> id !in nodes
    ensures r != [] ==> r[0] == id
    decreases Rank(nodes, level, bound, id), 0
  {
    if id in nodes then
      ChildrenRankBelow(nodes, level, bound, id, nodes[id].children);
      [id] + ForestDfs(nodes, level, bound, nodes[id].children)
    else []
  }

  /** The preorder of several subtrees, one after the other (`all_nodes_dfs` over the roots). */
  function ForestDfs(nodes: Nodes, ghost level: map<NodeId, nat>, ghost bound: nat, ids: seq<NodeId>): (r: seq<NodeId>)
    requires Ranked(nodes, level, bound)
    ensures forall k :: k in r ==> k in nodes
    decreases MaxRank(nodes, level, bound, ids), 1, |ids|
  {
    if ids == [] then []
    else SubtreeDfs(nodes, level, bound, ids[0]) + ForestDfs(nodes, level, bound, ids[1..])
  }

  /** `collect_descendants`: for each child in order, the child itself (present or
      not) followed by its own descendants. */
  function Descendants(nodes: Nodes, ghost level: map<NodeId, nat>, ghost bound: nat, id: NodeId): (r: seq<NodeId>)
    requires Ranked(nodes, level, bound)
    ensures id !in nodes ==> r == []
    ensures id in nodes ==> forall c :: c in nodes[id].children ==> c in r
    decreases Rank(nodes, level, bound, id), 0
  {
    if id in nodes then
      ChildrenRankBelow(nodes, level, bound, id, nodes[id].children);
      DescendantsOfAll(nodes, level, bound, nodes[id].children)
    else []
  }

  function DescendantsOfAll(nodes: Nodes, ghost level: map<NodeId, nat>, ghost bound: nat, ids: seq<NodeId>): (r: seq<NodeId>)
    requires Ranked(nodes, level, bound)
    ensures |ids| <= |r| && forall c :: c in ids ==> c in r
    decreases MaxRank(nodes, level, bound, ids), 1, |ids|
  {
    if ids == [] then []
    else [ids[0]] + Descendants(nodes, level, bound, ids[0]) + DescendantsOfAll(nodes, level, bound, ids[1..])
  }

  /** `k` lies in the subtree rooted at `a`: following parent links from `k`
      reaches `a` (or `k` is `a`). */
  ghost predicate Under(nodes: Nodes, level: map<NodeId, nat>, a: NodeId, k: NodeId)
    decreases if k in level then level[k] else 0
  {
    || k == a
    || (&& k in nodes && k in level && nodes[k].parent.Some?
        && nodes[k].parent.value in level
        && level[nodes[k].parent.value] < level[k]
        && Under(nodes, level, a, nodes[k].parent.value))
  }

  // ---------------------------------------------------------------- the ancestor relation

  /** Ancestors sit at lower levels; a strict ancestor strictly lower. */
  lemma {:induction false} UnderLevel(nodes: Nodes, level: map<NodeId, nat>, a: NodeId, k: NodeId)
    requires Under(nodes, level, a, k) && k in level
    ensures a in level && level[a] <= level[k]
    ensures k != a ==> level[a] < level[k]
    decreases level[k]
  {
    if k != a {
      UnderLevel(nodes, level, a, nodes[k].parent.value);
    }
  }

  lemma {:induction false} UnderTrans(nodes: Nodes, level: map<NodeId, nat>, a: NodeId, b: NodeId, c: NodeId)
    requires Under(nodes, level, a, b) && Under(nodes, level, b, c)
    ensures Under(nodes, level, a, c)
    decreases if c in level then level[c] else 0
  {
    if c != b {
      UnderTrans(nodes, level, a, b, nodes[c].parent.value);
    }
  }

  /** Below a strict ancestor `a` of `k` there is a child of `a` that is an ancestor of `k`. */
  lemma {:induction false} UnderStep(f: Forest, level: map<NodeId, nat>, maxDepth: nat, a: NodeId, k: NodeId)
      returns (c: NodeId)
    requires WellFormed(f, level, maxDepth)
    requires Under(f.nodes, level, a, k) && k != a
    ensures a in f.nodes && c in f.nodes[a].children && c in f.nodes
    ensures Under(f.nodes, level, c, k)
    decreases level[k]
  {
    var p := f.nodes[k].parent.value;
    if p == a {
      c := k;
    } else {
      c := UnderStep(f, level, maxDepth, a, p);
    }
  }

  /** Two ancestors of one node at the same level are the same node. */
  lemma {:induction false} UniqueAncestor(nodes: Nodes, level: map<NodeId, nat>, a: NodeId, b: NodeId, k: NodeId)
    requires Under(nodes, level, a, k) && Under(nodes, level, b, k) && k in level
    requires a in level && b in level && level[a] == level[b]
    ensures a == b
    decreases level[k]
  {
    if k == a {
      UnderLevel(nodes, level, b, k);
    } else if k == b {
      UnderLevel(nodes, level, a, k);
    } else {
      UniqueAncestor(nodes, level, a, b, nodes[k].parent.value);
    }
  }

  /** Every node descends from some root. */
  lemma {:induction false} RootAncestor(f: Forest, level: map<NodeId, nat>, maxDepth: nat, k: NodeId) returns (r: NodeId)
    requires WellFormed(f, level, maxDepth) && k in f.nodes
    ensures r in f.roots && Under(f.nodes, level, r, k)
    decreases level[k]
  {
    if f.nodes[k].parent.None? {
      r := k;
    } else {
      r := RootAncestor(f, level, maxDepth, f.nodes[k].parent.value);
    }
  }

  // ---------------------------------------------------------------- preorder traversal

  /** A forest traversal holds exactly what the traversals of its members hold. */
  lemma {:induction false} ForestMember(nodes: Nodes, level: map<NodeId, nat>, bound: nat, ids: seq<NodeId>, k: NodeId)
    requires Ranked(nodes, level, bound)
    ensures k in ForestDfs(nodes, level, bound, ids) <==>
            exists i :: 0 <= i < |ids| && k in SubtreeDfs(nodes, level, bound, ids[i])
  {
    if ids != [] {
      ForestMember(nodes, level, bound, ids[1..], k);
      if k in ForestDfs(nodes, level, bound, ids[1..]) {
        var i :| 0 <= i < |ids[1..]| && k in SubtreeDfs(nodes, level, bound, ids[1..][i]);
        assert ids[1..][i] == ids[i + 1];
      }
      if exists i :: 0 <= i < |ids| && k in SubtreeDfs(nodes, level, bound, ids[i]) {
        var i :| 0 <= i < |ids| && k in SubtreeDfs(nodes, level, bound, ids[i]);
        if i > 0 {
          assert ids[1..][i - 1] == ids[i];
        }
      }
    }
  }

  /** Everything a subtree traversal lists descends from its root. */
  lemma {:induction false} DfsSound(f: Forest, level: map<NodeId, nat>, maxDepth: nat, a: NodeId, k: NodeId)
    requires WellFormed(f, level, maxDepth)
    requires k in SubtreeDfs(f.nodes, level, maxDepth, a)
    ensures a in f.nodes && k in f.nodes && Under(f.nodes, level, a, k)
    decreases Rank(f.nodes, level, maxDepth, a)
  {
    var nodes := f.nodes;
    if k != a {
      var ch := nodes[a].children;
      ForestMember(nodes, level, maxDepth, ch, k);
      var i :| 0 <= i < |ch| && k in SubtreeDfs(nodes, level, maxDepth, ch[i]);
      assert ch[i] in nodes[a].children;
      DfsSound(f, level, maxDepth, ch[i], k);
      assert Under(nodes, level, ch[i], ch[i]);
      assert Under(nodes, level, a, ch[i]);
      UnderTrans(nodes, level, a, ch[i], k);
    }
  }

  /** Every present descendant of a present node is listed by its subtree traversal. */
  lemma {:induction false} DfsComplete(f: Forest, level: map<NodeId, nat>, maxDepth: nat, a: NodeId, k: NodeId)
    requires WellFormed(f, level, maxDepth)
    requires k in f.nodes && Under(f.nodes, level, a, k)
    ensures k in SubtreeDfs(f.nodes, level, maxDepth, a)
    decreases Rank(f.nodes, level, maxDepth, a)
  {
    if k != a {
      var c := UnderStep(f, level, maxDepth, a, k);
      DfsComplete(f, level, maxDepth, c, k);
      var ch := f.nodes[a].children;
      var i :| 0 <= i < |ch| && ch[i] == c;
      ForestMember(f.nodes, level, maxDepth, ch, k);
    }
  }

  /** A subtree traversal lists exactly the present descendants of its root. */
  lemma SubtreeMembers(f: Forest, level: map<NodeId, nat>, maxDepth: nat, a: NodeId)
    requires WellFormed(f, level, maxDepth) && a in f.nodes
    ensures forall k :: k in SubtreeDfs(f.nodes, level, maxDepth, a) <==> k in f.nodes && Under(f.nodes, level, a, k)
  {
    forall k ensures k in SubtreeDfs(f.nodes, level, maxDepth, a) <==> k in f.nodes && Under(f.nodes, level, a, k) {
      if k in SubtreeDfs(f.nodes, level, maxDepth, a) {
        DfsSound(f, level, maxDepth, a, k);
      }
      if k in f.nodes && Under(f.nodes, level, a, k) {
        DfsComplete(f, level, maxDepth, a, k);
      }
    }
  }

  /** A subtree traversal never lists a node twice. */
  lemma {:induction false} SubtreeNoDup(f: Forest, level: map<NodeId, nat>, maxDepth: nat, a: NodeId)
    requires WellFormed(f, level, maxDepth)
    ensures NoDup(SubtreeDfs(f.nodes, level, maxDepth, a))
    decreases Rank(f.nodes, level, maxDepth, a), 0
  {
    var nodes := f.nodes;
    if a in nodes {
      var ch := nodes[a].children;
      ChildrenRankBelow(nodes, level, maxDepth, a, ch);
      ForestNoDup(f, level, maxDepth, ch, level[a] + 1);
      var rest := ForestDfs(nodes, level, maxDepth, ch);
      forall k | k in rest ensures k !in [a] {
        ForestMember(nodes, level, maxDepth, ch, k);
        var i :| 0 <= i < |ch| && k in SubtreeDfs(nodes, level, maxDepth, ch[i]);
        DfsSound(f, level, maxDepth, ch[i], k);
        UnderLevel(nodes, level, ch[i], k);
      }
      NoDupConcat([a], rest);
    }
  }

  /** Traversing distinct same-level nodes one after another never repeats a node. */
  lemma {:induction false} ForestNoDup(f: Forest, level: map<NodeId, nat>, maxDepth: nat, ids: seq<NodeId>, depth: nat)
    requires WellFormed(f, level, maxDepth)
    requires NoDup(ids)
    requires forall c :: c in ids && c in f.nodes ==> level[c] == depth
    ensures NoDup(ForestDfs(f.nodes, level, maxDepth, ids))
    decreases MaxRank(f.nodes, level, maxDepth, ids), 1, |ids|
  {
    var nodes := f.nodes;
    if ids != [] {
      var first := SubtreeDfs(nodes, level, maxDepth, ids[0]);
      var rest := ForestDfs(nodes, level, maxDepth, ids[1..]);
      SubtreeNoDup(f, level, maxDepth, ids[0]);
      assert NoDup(ids[1..]) by {
        forall i, j | 0 <= i < j < |ids[1..]| ensures ids[1..][i] != ids[1..][j] {
          assert ids[1..][i] == ids[i + 1] && ids[1..][j] == ids[j + 1];
        }
      }
      ForestNoDup(f, level, maxDepth, ids[1..], depth);
      forall k | k in first ensures k !in rest {
        if k in rest {
          ForestMember(nodes, level, maxDepth, ids[1..], k);
          var i :| 0 <= i < |ids[1..]| && k in SubtreeDfs(nodes, level, maxDepth, ids[1..][i]);
          DfsSound(f, level, maxDepth, ids[0], k);
          DfsSound(f, level, maxDepth, ids[1..][i], k);
          UniqueAncestor(nodes, level, ids[0], ids[1..][i], k);
          assert false;
        }
      }
      NoDupConcat(first, rest);
    }
  }

  /** `all_nodes_dfs`: the preorder of the whole arena, roots in list order. */
  function AllNodesDfs(f: Forest, ghost level: map<NodeId, nat>, ghost maxDepth: nat): (r: seq<NodeId>)
    requires Ranked(f.nodes, level, maxDepth)
    ensures forall k :: k in r ==> k in f.nodes
  {
    ForestDfs(f.nodes, level, maxDepth, f.roots)
  }

  /** On a well-formed arena the preorder lists every node exactly once, so its
      length is the node count. */
  lemma AllNodesDfsExact(f: Forest, level: map<NodeId, nat>, maxDepth: nat)
    requires WellFormed(f, level, maxDepth)
    ensures NoDup(AllNodesDfs(f, level, maxDepth))
    ensures forall k :: k in AllNodesDfs(f, level, maxDepth) <==> k in f.nodes
    ensures |AllNodesDfs(f, level, maxDepth)| == |f.nodes|
  {
    var r := AllNodesDfs(f, level, maxDepth);
    ForestNoDup(f, level, maxDepth, f.roots, 1);
    forall k | k in f.nodes ensures k in r {
      var root := RootAncestor(f, level, maxDepth, k);
      DfsComplete(f, level, maxDepth, root, k);
      var i :| 0 <= i < |f.roots| && f.roots[i] == root;
      ForestMember(f.nodes, level, maxDepth, f.roots, k);
    }
    NoDupCard(r);
    assert (set x | x in r) == f.nodes.Keys;
  }

  /** On a well-formed arena, `collect_descendants` is the subtree preorder minus its root. */
  lemma {:induction false} DescendantsAreDfsTail(f: Forest, level: map<NodeId, nat>, maxDepth: nat, a: NodeId)
    requires WellFormed(f, level, maxDepth) && a in f.nodes
    ensures SubtreeDfs(f.nodes, level, maxDepth, a) == [a] + Descendants(f.nodes, level, maxDepth, a)
    decreases Rank(f.nodes, level, maxDepth, a), 0
  {
    ChildrenRankBelow(f.nodes, level, maxDepth, a, f.nodes[a].children);
    DescendantsOfAllAreForestDfs(f, level, maxDepth, f.nodes[a].children);
  }

  lemma {:induction false} DescendantsOfAllAreForestDfs(f: Forest, level: map<NodeId, nat>, maxDepth: nat, ids: seq<NodeId>)
    requires WellFormed(f, level, maxDepth)
    requires forall c :: c in ids ==> c in f.nodes
    ensures DescendantsOfAll(f.nodes, level, maxDepth, ids) == ForestDfs(f.nodes, level, maxDepth, ids)
    decreases MaxRank(f.nodes, level, maxDepth, ids), 1, |ids|
  {
    if ids != [] {
      DescendantsAreDfsTail(f, level, maxDepth, ids[0]);
      DescendantsOfAllAreForestDfs(f, level, maxDepth, ids[1..]);
    }
  }

  // ---------------------------------------------------------------- mutations, as values

  /** The depth a node gets under `parent`: 1 for a root, one below the parent otherwise. */
  ghost function NewDepth(level: map<NodeId, nat>, parent: Option<NodeId>): nat
    requires parent.Some? ==> parent.value in level
  {
    match parent
    case None => 1
    case Some(p) => level[p] + 1
  }

  /** The arena after `add_node` succeeds: a new childless record under `newId`,
      listed at the clamped position among its parent's children or among the roots. */
  function AddNodeValue(f: Forest, newId: NodeId, parent: Option<NodeId>, title: string, nodeType: NodeType,
                        body: Option<string>, placeholder: Option<string>, position: nat): Forest
    requires parent.Some? ==> parent.value in f.nodes
  {
    var n := NewNodeData(newId, parent, title, nodeType).(body := body, placeholder := placeholder);
    var m := f.nodes[newId := n];
    match parent
    case None => Forest(m, Insert(f.roots, position, newId))
    case Some(p) => Forest(m[p := m[p].(children := Insert(m[p].children, position, newId))], f.roots)
  }

  /** `detach_from_parent`: `id` leaves its parent's child list, or the root list. */
  function Detach(f: Forest, id: NodeId): Forest
    requires id in f.nodes
    requires f.nodes[id].parent.Some? ==> f.nodes[id].parent.value in f.nodes
  {
    match f.nodes[id].parent
    case None => f.(roots := Without(f.roots, id))
    case Some(p) => f.(nodes := f.nodes[p := f.nodes[p].(children := Without(f.nodes[p].children, id))])
  }

  /** `attach_to_parent`: `id` records its new parent, then joins that parent's
      child list (or the root list) at the clamped position. */
  function Attach(f: Forest, id: NodeId, newParent: Option<NodeId>, position: nat): Forest
    requires id in f.nodes
    requires newParent.Some? ==> newParent.value in f.nodes
  {
    var m := f.nodes[id := f.nodes[id].(parent := newParent)];
    match newParent
    case None => Forest(m, Insert(f.roots, position, id))
    case Some(p) => Forest(m[p := m[p].(children := Insert(m[p].children, position, id))], f.roots)
  }

  function MoveValue(f: Forest, id: NodeId, newParent: Option<NodeId>, position: nat): Forest
    requires id in f.nodes
    requires f.nodes[id].parent.Some? ==> f.nodes[id].parent.value in f.nodes
    requires newParent.Some? ==> newParent.value in f.nodes
  {
    Attach(Detach(f, id), id, newParent, position)
  }

  /** The arena after `remove_node`: `id` detached, then every id in `gone` deleted. */
  function RemoveValue(f: Forest, id: NodeId, gone: set<NodeId>): Forest
    requires id in f.nodes
    requires f.nodes[id].parent.Some? ==> f.nodes[id].parent.value in f.nodes
  {
    var d := Detach(f, id);
    d.(nodes := d.nodes - gone)
  }

  /** The nodes of the subtree rooted at `id`, `id` included. */
  ghost function SubtreeSet(f: Forest, level: map<NodeId, nat>, id: NodeId): set<NodeId> {
    set k | k in f.nodes && Under(f.nodes, level, id, k)
  }

  // ---------------------------------------------------------------- mutations keep the invariant

  /** A new node under a present parent whose depth fits keeps the arena well formed. */
  lemma AddPreservesWf(f: Forest, level: map<NodeId, nat>, maxDepth: nat, newId: NodeId, parent: Option<NodeId>,
                       title: string, nodeType: NodeType, body: Option<string>, placeholder: Option<string>, position: nat)
    requires WellFormed(f, level, maxDepth) && newId !in f.nodes
    requires parent.Some? ==> parent.value in f.nodes
    requires NewDepth(level, parent) <= maxDepth
    ensures WellFormed(AddNodeValue(f, newId, parent, title, nodeType, body, placeholder, position),
                       level[newId := NewDepth(level, parent)], maxDepth)
  {
    var g := AddNodeValue(f, newId, parent, title, nodeType, body, placeholder, position);
    var level2 := level[newId := NewDepth(level, parent)];
    AddKeepsRecords(f, newId, parent, title, nodeType, body, placeholder, position);
    AddKeepsRoots(f, newId, parent, title, nodeType, body, placeholder, position);
    AddKeepsChildren(f, newId, parent, title, nodeType, body, placeholder, position);
    AddKeepsLevels(f, level, maxDepth, newId, parent, title, nodeType, body, placeholder, position);
    assert Linked(g, level2, maxDepth);
    LinkedRanked(g, level2, maxDepth);
  }

  lemma AddKeepsLevels(f: Forest, level: map<NodeId, nat>, maxDepth: nat, newId: NodeId, parent: Option<NodeId>,
                       title: string, nodeType: NodeType, body: Option<string>, placeholder: Option<string>, position: nat)
    requires IdsAgree(f.nodes) && ParentsPresent(f.nodes) && LevelsExact(f.nodes, level, maxDepth) && newId !in f.nodes
    requires parent.Some? ==> parent.value in f.nodes
    requires NewDepth(level, parent) <= maxDepth
    ensures LevelsExact(AddNodeValue(f, newId, parent, title, nodeType, body, placeholder, position).nodes,
                        level[newId := NewDepth(level, parent)], maxDepth)
  {
    AddKeepsRecords(f, newId, parent, title, nodeType, body, placeholder, position);
    AddLevels(f.nodes, AddNodeValue(f, newId, parent, title, nodeType, body, placeholder, position).nodes,
              level, maxDepth, newId, parent);
  }

  /** Levels stay exact when a node joins below `parent` at the depth it asks for. */
  lemma AddLevels(nodes: Nodes, nodes2: Nodes, level: map<NodeId, nat>, maxDepth: nat, newId: NodeId, parent: Option<NodeId>)
    requires ParentsPresent(nodes) && LevelsExact(nodes, level, maxDepth) && newId !in nodes
    requires parent.Some? ==> parent.value in nodes
    requires NewDepth(level, parent) <= maxDepth
    requires nodes2.Keys == nodes.Keys + {newId} && nodes2[newId].parent == parent
    requires forall k :: k in nodes ==> nodes2[k].parent == nodes[k].parent
    ensures LevelsExact(nodes2, level[newId := NewDepth(level, parent)], maxDepth)
  {
    var level2 := level[newId := NewDepth(level, parent)];
    forall k {:trigger nodes2[k].parent} | k in nodes2 && nodes2[k].parent.Some?
      ensures nodes2[k].parent.value in level2 && level2[k] == level2[nodes2[k].parent.value] + 1
    {
      var q := nodes2[k].parent.value;
      if k != newId {
        assert nodes2[k].parent == nodes[k].parent;
        assert q in nodes && q != newId;
      } else {
        assert q == parent.value && q != newId;
      }
    }
    forall k {:trigger nodes2[k].parent} | k in nodes2 && nodes2[k].parent.None?
      ensures level2[k] == 1
    {
      if k != newId {
        assert nodes2[k].parent == nodes[k].parent;
      }
    }
    forall k | k in nodes2 ensures 1 <= level2[k] <= maxDepth {
      if k != newId {
        assert level2[k] == level[k];
      }
    }
    assert level2.Keys == nodes2.Keys;
  }

  /** Adding touches no old record except the parent's child list. */
  lemma AddKeepsRecords(f: Forest, newId: NodeId, parent: Option<NodeId>,
                        title: string, nodeType: NodeType, body: Option<string>, placeholder: Option<string>, position: nat)
    requires IdsAgree(f.nodes) && ParentsPresent(f.nodes) && newId !in f.nodes
    requires parent.Some? ==> parent.value in f.nodes
    ensures var g := AddNodeValue(f, newId, parent, title, nodeType, body, placeholder, position);
      && g.nodes.Keys == f.nodes.Keys + {newId}
      && g.nodes[newId].id == newId && g.nodes[newId].parent == parent && g.nodes[newId].children == []
      && (forall k :: k in f.nodes ==> g.nodes[k] == f.nodes[k].(children := g.nodes[k].children))
      && (forall k :: k in f.nodes && parent != Some(k) ==> g.nodes[k] == f.nodes[k])
      && IdsAgree(g.nodes) && ParentsPresent(g.nodes)
  {
    var g := AddNodeValue(f, newId, parent, title, nodeType, body, placeholder, position);
    forall k {:trigger g.nodes[k].parent} | k in g.nodes && g.nodes[k].parent.Some?
      ensures g.nodes[k].parent.value in g.nodes
    {
      if k != newId {
        assert g.nodes[k].parent == f.nodes[k].parent;
      }
    }
  }

  lemma AddKeepsRoots(f: Forest, newId: NodeId, parent: Option<NodeId>,
                      title: string, nodeType: NodeType, body: Option<string>, placeholder: Option<string>, position: nat)
    requires IdsAgree(f.nodes) && ParentsPresent(f.nodes) && RootsExact(f.nodes, f.roots) && newId !in f.nodes
    requires parent.Some? ==> parent.value in f.nodes
    ensures RootsExact(AddNodeValue(f, newId, parent, title, nodeType, body, placeholder, position).nodes,
                       AddNodeValue(f, newId, parent, title, nodeType, body, placeholder, position).roots)
  {
    var g := AddNodeValue(f, newId, parent, title, nodeType, body, placeholder, position);
    AddKeepsRecords(f, newId, parent, title, nodeType, body, placeholder, position);
    assert newId !in f.roots;
    if parent.None? {
      InsertNoDup(f.roots, position, newId);
      InsertMembers(f.roots, position, newId);
    }
    forall r | r in g.roots ensures r in g.nodes && g.nodes[r].parent.None? {
      if r != newId {
        assert g.nodes[r].parent == f.nodes[r].parent;
      }
    }
    forall k {:trigger g.nodes[k].parent} | k in g.nodes && g.nodes[k].parent.None?
      ensures k in g.roots
    {
      if k != newId {
        assert g.nodes[k].parent == f.nodes[k].parent;
      }
    }
  }

  lemma AddKeepsChildren(f: Forest, newId: NodeId, parent: Option<NodeId>,
                         title: string, nodeType: NodeType, body: Option<string>, placeholder: Option<string>, position: nat)
    requires IdsAgree(f.nodes) && ParentsPresent(f.nodes) && ChildrenExact(f.nodes) && newId !in f.nodes
    requires parent.Some? ==> parent.value in f.nodes
    ensures ParentsPresent(AddNodeValue(f, newId, parent, title, nodeType, body, placeholder, position).nodes)
    ensures ChildrenExact(AddNodeValue(f, newId, parent, title, nodeType, body, placeholder, position).nodes)
  {
    var g := AddNodeValue(f, newId, parent, title, nodeType, body, placeholder, position);
    AddKeepsRecords(f, newId, parent, title, nodeType, body, placeholder, position);
    if parent.Some? {
      var p := parent.value;
      assert newId !in f.nodes[p].children;
      InsertNoDup(f.nodes[p].children, position, newId);
      InsertMembers(f.nodes[p].children, position, newId);
      assert g.nodes[p].children == Insert(f.nodes[p].children, position, newId);
    }
    forall k | k in g.nodes ensures NoDup(g.nodes[k].children) {
      if k != newId && parent != Some(k) {
        assert g.nodes[k] == f.nodes[k];
      }
    }
    forall k, c {:trigger c in g.nodes[k].children} | k in g.nodes && c in g.nodes[k].children
      ensures c in g.nodes && g.nodes[c].parent == Some(k)
    {
      assert k != newId;
      if c != newId {
        assert c in f.nodes[k].children;
        assert g.nodes[c].parent == f.nodes[c].parent;
      }
    }
    forall c {:trigger g.nodes[c].parent} | c in g.nodes && g.nodes[c].parent.Some?
      ensures c in g.nodes[g.nodes[c].parent.value].children
    {
      if c != newId {
        var q := f.nodes[c].parent.value;
        assert g.nodes[c].parent == f.nodes[c].parent;
        assert c in f.nodes[q].children;
      }
    }
  }

  /** The child list `k` ends up with after `id` moves under `newParent`. */
  function MovedChildren(f: Forest, id: NodeId, newParent: Option<NodeId>, position: nat, k: NodeId): seq<NodeId>
    requires id in f.nodes && k in f.nodes
  {
    var kept := if f.nodes[id].parent == Some(k) then Without(f.nodes[k].children, id) else f.nodes[k].children;
    if newParent == Some(k) then Insert(kept, position, id) else kept
  }

  /** The root list after `id` moves under `newParent`. */
  function MovedRoots(f: Forest, id: NodeId, newParent: Option<NodeId>, position: nat): seq<NodeId>
    requires id in f.nodes
  {
    var kept := if f.nodes[id].parent.None? then Without(f.roots, id) else f.roots;
    if newParent.None? then Insert(kept, position, id) else kept
  }

  /** Record by record, a move changes only the moved node's parent and the two
      affected child lists (or the root list). */
  lemma MoveRecords(f: Forest, id: NodeId, newParent: Option<NodeId>, position: nat)
    requires ParentsPresent(f.nodes) && id in f.nodes
    requires f.nodes[id].parent != Some(id)
    requires newParent.Some? ==> newParent.value in f.nodes
    ensures var g := MoveValue(f, id, newParent, position);
      && g.nodes.Keys == f.nodes.Keys
      && g.roots == MovedRoots(f, id, newParent, position)
      && (forall k :: k in f.nodes ==>
            g.nodes[k] == f.nodes[k].(parent := if k == id then newParent else f.nodes[k].parent,
                                      children := MovedChildren(f, id, newParent, position, k)))
  {
    var d := Detach(f, id);
    DetachRecords(f, id);
    var g := Attach(d, id, newParent, position);
    AttachRecords(d, id, newParent, position);
    forall k | k in f.nodes
      ensures g.nodes[k] == f.nodes[k].(parent := if k == id then newParent else f.nodes[k].parent,
                                        children := MovedChildren(f, id, newParent, position, k))
    {
      var kept := if f.nodes[id].parent == Some(k) then Without(f.nodes[k].children, id) else f.nodes[k].children;
      assert d.nodes[k] == f.nodes[k].(children := kept);
      assert d.nodes[id].parent == f.nodes[id].parent;
      assert g.nodes[k] == d.nodes[k].(parent := if k == id then newParent else d.nodes[k].parent,
                                       children := if newParent == Some(k) then Insert(kept, position, id) else kept);
    }
  }

  lemma DetachRecords(f: Forest, id: NodeId)
    requires ParentsPresent(f.nodes) && id in f.nodes
    requires f.nodes[id].parent != Some(id)
    ensures var d := Detach(f, id);
      && d.nodes.Keys == f.nodes.Keys
      && d.roots == (if f.nodes[id].parent.None? then Without(f.roots, id) else f.roots)
      && (forall k :: k in f.nodes ==>
            d.nodes[k] == f.nodes[k].(children := if f.nodes[id].parent == Some(k) then Without(f.nodes[k].children, id) else f.nodes[k].children))
  {
    var d := Detach(f, id);
    forall k | k in f.nodes
      ensures d.nodes[k] == f.nodes[k].(children := if f.nodes[id].parent == Some(k) then Without(f.nodes[k].children, id) else f.nodes[k].children)
    {
      if f.nodes[id].parent == Some(k) {
        assert d.nodes[k] == f.nodes[k].(children := Without(f.nodes[k].children, id));
      } else {
        assert d.nodes[k] == f.nodes[k];
      }
    }
  }

  lemma AttachRecords(d: Forest, id: NodeId, newParent: Option<NodeId>, position: nat)
    requires id in d.nodes
    requires newParent.Some? ==> newParent.value in d.nodes
    ensures var g := Attach(d, id, newParent, position);
      && g.nodes.Keys == d.nodes.Keys
      && g.roots == (if newParent.None? then Insert(d.roots, position, id) else d.roots)
      && (forall k :: k in d.nodes ==>
            g.nodes[k] == d.nodes[k].(parent := if k == id then newParent else d.nodes[k].parent,
                                      children := if newParent == Some(k) then Insert(d.nodes[k].children, position, id) else d.nodes[k].children))
  {
    var g := Attach(d, id, newParent, position);
    var m := d.nodes[id := d.nodes[id].(parent := newParent)];
    forall k | k in d.nodes
      ensures g.nodes[k] == d.nodes[k].(parent := if k == id then newParent else d.nodes[k].parent,
                                      children := if newParent == Some(k) then Insert(d.nodes[k].children, position, id) else d.nodes[k].children)
    {
      if newParent == Some(k) {
        assert g.nodes[k] == m[k].(children := Insert(m[k].children, position, id));
      } else {
        assert g.nodes[k] == m[k];
      }
    }
  }

  /** The subtree of `id`, moved so that `id` sits at depth `base`, keeps its shape;
      every other node keeps its depth. */
  ghost function MovedLevels(nodes: Nodes, level: map<NodeId, nat>, id: NodeId, base: nat): map<NodeId, nat>
    requires id in level
  {
    map k | k in level :: if Under(nodes, level, id, k) && level[id] <= level[k] then level[k] - level[id] + base else level[k]
  }

  /** A move whose new parent lies outside the moved subtree and whose shifted
      subtree still fits under `maxDepth` keeps the arena well formed. */
  lemma MovePreservesWf(f: Forest, level: map<NodeId, nat>, maxDepth: nat, id: NodeId, newParent: Option<NodeId>, position: nat)
    requires WellFormed(f, level, maxDepth) && id in f.nodes
    requires newParent.Some? ==> newParent.value in f.nodes && !Under(f.nodes, level, id, newParent.value)
    requires forall k :: k in f.nodes && Under(f.nodes, level, id, k) ==> level[k] - level[id] + NewDepth(level, newParent) <= maxDepth
    ensures WellFormed(MoveValue(f, id, newParent, position), MovedLevels(f.nodes, level, id, NewDepth(level, newParent)), maxDepth)
  {
    var g := MoveValue(f, id, newParent, position);
    var level2 := MovedLevels(f.nodes, level, id, NewDepth(level, newParent));
    MoveRecords(f, id, newParent, position);
    MoveKeepsRoots(f, g, id, newParent, position);
    MoveKeepsChildren(f, g, id, newParent, position);
    MoveKeepsLevels(f, g, level, maxDepth, id, newParent);
    assert Linked(g, level2, maxDepth);
    LinkedRanked(g, level2, maxDepth);
  }

  lemma MoveKeepsRoots(f: Forest, g: Forest, id: NodeId, newParent: Option<NodeId>, position: nat)
    requires RootsExact(f.nodes, f.roots) && id in f.nodes
    requires g.nodes.Keys == f.nodes.Keys
    requires g.roots == MovedRoots(f, id, newParent, position)
    requires forall k :: k in f.nodes ==> g.nodes[k].parent == if k == id then newParent else f.nodes[k].parent
    ensures RootsExact(g.nodes, g.roots)
  {
    var kept := if f.nodes[id].parent.None? then Without(f.roots, id) else f.roots;
    assert id !in kept;
    assert NoDup(kept) by {
      if f.nodes[id].parent.None? {
        WithoutNoDup(f.roots, id);
      }
    }
    if newParent.None? {
      InsertNoDup(kept, position, id);
      InsertMembers(kept, position, id);
    }
    forall r | r in g.roots ensures r in g.nodes && g.nodes[r].parent.None? {
      if r != id {
        assert r in f.roots;
      }
    }
    forall k {:trigger g.nodes[k].parent} | k in g.nodes && g.nodes[k].parent.None?
      ensures k in g.roots
    {
      if k != id {
        assert f.nodes[k].parent.None? && k in f.roots && k in kept;
      }
    }
  }

  lemma MoveKeepsChildren(f: Forest, g: Forest, id: NodeId, newParent: Option<NodeId>, position: nat)
    requires IdsAgree(f.nodes) && ParentsPresent(f.nodes) && ChildrenExact(f.nodes) && id in f.nodes
    requires newParent.Some? ==> newParent.value in f.nodes
    requires g.nodes.Keys == f.nodes.Keys
    requires forall k :: k in f.nodes ==>
               g.nodes[k] == f.nodes[k].(parent := if k == id then newParent else f.nodes[k].parent,
                                         children := MovedChildren(f, id, newParent, position, k))
    ensures IdsAgree(g.nodes) && ParentsPresent(g.nodes) && ChildrenExact(g.nodes)
  {
    forall k {:trigger g.nodes[k].parent} | k in g.nodes && g.nodes[k].parent.Some?
      ensures g.nodes[k].parent.value in g.nodes
    {
    }
    forall k | k in g.nodes ensures NoDup(g.nodes[k].children) {
      var kept := if f.nodes[id].parent == Some(k) then Without(f.nodes[k].children, id) else f.nodes[k].children;
      assert NoDup(kept) by {
        if f.nodes[id].parent == Some(k) {
          WithoutNoDup(f.nodes[k].children, id);
        }
      }
      if newParent == Some(k) {
        assert id !in kept by {
          assert id in f.nodes[k].children ==> f.nodes[id].parent == Some(k);
        }
        InsertNoDup(kept, position, id);
      }
    }
    forall k, c {:trigger c in g.nodes[k].children} | k in g.nodes && c in g.nodes[k].children
      ensures c in g.nodes && g.nodes[c].parent == Some(k)
    {
      var kept := if f.nodes[id].parent == Some(k) then Without(f.nodes[k].children, id) else f.nodes[k].children;
      if newParent == Some(k) {
        InsertMembers(kept, position, id);
      }
      if c != id {
        assert c in kept;
        assert c in f.nodes[k].children;
      } else {
        assert id !in kept by {
          assert id in f.nodes[k].children ==> f.nodes[id].parent == Some(k);
        }
      }
    }
    forall c {:trigger g.nodes[c].parent} | c in g.nodes && g.nodes[c].parent.Some?
      ensures c in g.nodes[g.nodes[c].parent.value].children
    {
      var q := g.nodes[c].parent.value;
      var kept := if f.nodes[id].parent == Some(q) then Without(f.nodes[q].children, id) else f.nodes[q].children;
      if newParent == Some(q) {
        InsertMembers(kept, position, id);
      }
      if c != id {
        assert f.nodes[c].parent == Some(q);
        assert c in f.nodes[q].children;
        assert c in kept;
      }
    }
  }

  lemma MoveKeepsLevels(f: Forest, g: Forest, level: map<NodeId, nat>, maxDepth: nat, id: NodeId, newParent: Option<NodeId>)
    requires ParentsPresent(f.nodes) && LevelsExact(f.nodes, level, maxDepth) && id in f.nodes
    requires newParent.Some? ==> newParent.value in f.nodes && !Under(f.nodes, level, id, newParent.value)
    requires forall k :: k in f.nodes && Under(f.nodes, level, id, k) ==> level[k] - level[id] + NewDepth(level, newParent) <= maxDepth
    requires g.nodes.Keys == f.nodes.Keys
    requires forall k :: k in f.nodes ==> g.nodes[k].parent == if k == id then newParent else f.nodes[k].parent
    ensures LevelsExact(g.nodes, MovedLevels(f.nodes, level, id, NewDepth(level, newParent)), maxDepth)
  {
    MoveLevelBounds(f, g, level, maxDepth, id, newParent);
    MoveLevelLinks(f, g, level, maxDepth, id, newParent);
  }

  /** After a move every depth is still between 1 and `maxDepth`, and parentless nodes sit at depth 1. */
  lemma MoveLevelBounds(f: Forest, g: Forest, level: map<NodeId, nat>, maxDepth: nat, id: NodeId, newParent: Option<NodeId>)
    requires ParentsPresent(f.nodes) && LevelsExact(f.nodes, level, maxDepth) && id in f.nodes
    requires newParent.Some? ==> newParent.value in f.nodes
    requires forall k :: k in f.nodes && Under(f.nodes, level, id, k) ==> level[k] - level[id] + NewDepth(level, newParent) <= maxDepth
    requires g.nodes.Keys == f.nodes.Keys
    requires forall k :: k in f.nodes ==> g.nodes[k].parent == if k == id then newParent else f.nodes[k].parent
    ensures var level2 := MovedLevels(f.nodes, level, id, NewDepth(level, newParent));
      && level2.Keys == g.nodes.Keys
      && (forall k :: k in g.nodes ==> 1 <= level2[k] <= maxDepth)
      && (forall k {:trigger g.nodes[k].parent} :: k in g.nodes && g.nodes[k].parent.None? ==> level2[k] == 1)
  {
    MoveLevelRange(f.nodes, level, maxDepth, id, NewDepth(level, newParent));
    MoveLevelRoots(f, g, level, maxDepth, id, newParent);
  }

  lemma MoveLevelRange(nodes: Nodes, level: map<NodeId, nat>, maxDepth: nat, id: NodeId, base: nat)
    requires LevelsExact(nodes, level, maxDepth) && id in nodes && 1 <= base
    requires forall k :: k in nodes && Under(nodes, level, id, k) ==> level[k] - level[id] + base <= maxDepth
    ensures MovedLevels(nodes, level, id, base).Keys == nodes.Keys
    ensures forall k :: k in nodes ==> 1 <= MovedLevels(nodes, level, id, base)[k] <= maxDepth
  {
    var level2 := MovedLevels(nodes, level, id, base);
    forall k | k in nodes ensures 1 <= level2[k] <= maxDepth {
      if Under(nodes, level, id, k) {
        UnderLevel(nodes, level, id, k);
      }
    }
  }

  lemma MoveLevelRoots(f: Forest, g: Forest, level: map<NodeId, nat>, maxDepth: nat, id: NodeId, newParent: Option<NodeId>)
    requires LevelsExact(f.nodes, level, maxDepth) && id in f.nodes
    requires newParent.Some? ==> newParent.value in f.nodes
    requires g.nodes.Keys == f.nodes.Keys
    requires forall k :: k in f.nodes ==> g.nodes[k].parent == if k == id then newParent else f.nodes[k].parent
    ensures forall k {:trigger g.nodes[k].parent} :: k in g.nodes && g.nodes[k].parent.None? ==>
      MovedLevels(f.nodes, level, id, NewDepth(level, newParent))[k] == 1
  {
    var level2 := MovedLevels(f.nodes, level, id, NewDepth(level, newParent));
    forall k {:trigger g.nodes[k].parent} | k in g.nodes && g.nodes[k].parent.None?
      ensures level2[k] == 1
    {
      if k != id {
        assert f.nodes[k].parent.None?;
        assert !Under(f.nodes, level, id, k);
      }
    }
  }

  /** After a move, levels are one apart along every parent link. */
  lemma MoveLevelLinks(f: Forest, g: Forest, level: map<NodeId, nat>, maxDepth: nat, id: NodeId, newParent: Option<NodeId>)
    requires ParentsPresent(f.nodes) && LevelsExact(f.nodes, level, maxDepth) && id in f.nodes
    requires newParent.Some? ==> newParent.value in f.nodes && !Under(f.nodes, level, id, newParent.value)
    requires g.nodes.Keys == f.nodes.Keys
    requires forall k :: k in f.nodes ==> g.nodes[k].parent == if k == id then newParent else f.nodes[k].parent
    ensures forall k {:trigger g.nodes[k].parent} :: k in g.nodes && g.nodes[k].parent.Some? ==>
      var level2 := MovedLevels(f.nodes, level, id, NewDepth(level, newParent));
      g.nodes[k].parent.value in level2 && level2[k] == level2[g.nodes[k].parent.value] + 1
  {
    var level2 := MovedLevels(f.nodes, level, id, NewDepth(level, newParent));
    forall k {:trigger g.nodes[k].parent} | k in g.nodes && g.nodes[k].parent.Some?
      ensures g.nodes[k].parent.value in level2 && level2[k] == level2[g.nodes[k].parent.value] + 1
    {
      var q := g.nodes[k].parent.value;
      if k == id {
        assert !Under(f.nodes, level, id, q);
      } else {
        assert f.nodes[k].parent == Some(q);
        if Under(f.nodes, level, id, k) {
          assert Under(f.nodes, level, id, q);
          UnderLevel(f.nodes, level, id, q);
        } else {
          assert !Under(f.nodes, level, id, q);
        }
      }
    }
  }

  /** The subtree set of a present node contains it, is closed under taking
      children, reaches upward only to `id`, and excludes `id`'s parent. */
  lemma SubtreeSetClosed(f: Forest, level: map<NodeId, nat>, maxDepth: nat, id: NodeId)
    requires WellFormed(f, level, maxDepth) && id in f.nodes
    ensures id in SubtreeSet(f, level, id) && SubtreeSet(f, level, id) <= f.nodes.Keys
    ensures forall k {:trigger f.nodes[k].parent} :: k in f.nodes && f.nodes[k].parent.Some? && f.nodes[k].parent.value in SubtreeSet(f, level, id) ==>
              k in SubtreeSet(f, level, id)
    ensures forall k {:trigger f.nodes[k].parent} :: k in f.nodes && k != id && k in SubtreeSet(f, level, id) ==>
              f.nodes[k].parent.Some? && f.nodes[k].parent.value in SubtreeSet(f, level, id)
    ensures f.nodes[id].parent.Some? ==> f.nodes[id].parent.value !in SubtreeSet(f, level, id)
  {
    var S := SubtreeSet(f, level, id);
    forall k {:trigger f.nodes[k].parent} | k in f.nodes && f.nodes[k].parent.Some? && f.nodes[k].parent.value in S
      ensures k in S
    {
      assert Under(f.nodes, level, id, k);
    }
    if f.nodes[id].parent.Some? {
      var p := f.nodes[id].parent.value;
      if Under(f.nodes, level, id, p) {
        UnderLevel(f.nodes, level, id, p);
      }
    }
  }

  /** Record by record, a removal drops the subtree and shortens one child list (or the root list). */
  lemma RemoveRecords(f: Forest, id: NodeId, gone: set<NodeId>)
    requires ParentsPresent(f.nodes) && id in f.nodes
    requires f.nodes[id].parent != Some(id)
    ensures var g := RemoveValue(f, id, gone);
      && g.nodes.Keys == f.nodes.Keys - gone
      && g.roots == (if f.nodes[id].parent.None? then Without(f.roots, id) else f.roots)
      && (forall k :: k in g.nodes ==>
            g.nodes[k] == f.nodes[k].(children := if f.nodes[id].parent == Some(k) then Without(f.nodes[k].children, id) else f.nodes[k].children))
  {
    DetachRecords(f, id);
  }

  /** Removing a node together with its whole subtree keeps the arena well formed. */
  lemma RemovePreservesWf(f: Forest, level: map<NodeId, nat>, maxDepth: nat, id: NodeId)
    requires WellFormed(f, level, maxDepth) && id in f.nodes
    ensures WellFormed(RemoveValue(f, id, SubtreeSet(f, level, id)), level - SubtreeSet(f, level, id), maxDepth)
  {
    var S := SubtreeSet(f, level, id);
    var g := RemoveValue(f, id, S);
    var level2 := level - S;
    SubtreeSetClosed(f, level, maxDepth, id);
    RemoveRecords(f, id, S);
    RemoveKeepsRoots(f, g, id, S);
    RemoveKeepsChildren(f, g, id, S);
    RemoveKeepsLevels(f, g, level, maxDepth, S);
    assert Linked(g, level2, maxDepth);
    LinkedRanked(g, level2, maxDepth);
  }

  lemma RemoveKeepsRoots(f: Forest, g: Forest, id: NodeId, gone: set<NodeId>)
    requires RootsExact(f.nodes, f.roots) && id in f.nodes && id in gone
    requires forall k {:trigger f.nodes[k].parent} :: k in f.nodes && k != id && k in gone ==> f.nodes[k].parent.Some?
    requires g.nodes.Keys == f.nodes.Keys - gone
    requires g.roots == (if f.nodes[id].parent.None? then Without(f.roots, id) else f.roots)
    requires forall k :: k in g.nodes ==> g.nodes[k].parent == f.nodes[k].parent
    ensures RootsExact(g.nodes, g.roots)
  {
    if f.nodes[id].parent.None? {
      WithoutNoDup(f.roots, id);
    }
    forall r | r in g.roots ensures r in g.nodes && g.nodes[r].parent.None? {
      assert r in f.roots && r != id;
      assert f.nodes[r].parent.None?;
    }
    forall k {:trigger g.nodes[k].parent} | k in g.nodes && g.nodes[k].parent.None?
      ensures k in g.roots
    {
      assert f.nodes[k].parent.None? && k in f.roots && k != id;
    }
  }

  lemma RemoveKeepsChildren(f: Forest, g: Forest, id: NodeId, gone: set<NodeId>)
    requires IdsAgree(f.nodes) && ParentsPresent(f.nodes) && ChildrenExact(f.nodes) && id in f.nodes && id in gone
    requires forall k {:trigger f.nodes[k].parent} :: k in f.nodes && f.nodes[k].parent.Some? && f.nodes[k].parent.value in gone ==> k in gone
    requires forall k {:trigger f.nodes[k].parent} :: k in f.nodes && k != id && k in gone ==>
               f.nodes[k].parent.Some? && f.nodes[k].parent.value in gone
    requires f.nodes[id].parent.Some? ==> f.nodes[id].parent.value !in gone
    requires g.nodes.Keys == f.nodes.Keys - gone
    requires forall k :: k in g.nodes ==>
               g.nodes[k] == f.nodes[k].(children := if f.nodes[id].parent == Some(k) then Without(f.nodes[k].children, id) else f.nodes[k].children)
    ensures IdsAgree(g.nodes) && ParentsPresent(g.nodes) && ChildrenExact(g.nodes)
  {
    forall k {:trigger g.nodes[k].parent} | k in g.nodes && g.nodes[k].parent.Some?
      ensures g.nodes[k].parent.value in g.nodes
    {
      assert f.nodes[k].parent == g.nodes[k].parent;
    }
    forall k | k in g.nodes ensures NoDup(g.nodes[k].children) {
      if f.nodes[id].parent == Some(k) {
        WithoutNoDup(f.nodes[k].children, id);
      }
    }
    forall k, c {:trigger c in g.nodes[k].children} | k in g.nodes && c in g.nodes[k].children
      ensures c in g.nodes && g.nodes[c].parent == Some(k)
    {
      assert c in f.nodes[k].children && c != id;
      assert f.nodes[c].parent == Some(k);
      assert k !in gone;
    }
    forall c {:trigger g.nodes[c].parent} | c in g.nodes && g.nodes[c].parent.Some?
      ensures c in g.nodes[g.nodes[c].parent.value].children
    {
      var q := f.nodes[c].parent.value;
      assert c in f.nodes[q].children && c != id;
    }
  }

  lemma RemoveKeepsLevels(f: Forest, g: Forest, level: map<NodeId, nat>, maxDepth: nat, gone: set<NodeId>)
    requires LevelsExact(f.nodes, level, maxDepth)
    requires g.nodes.Keys == f.nodes.Keys - gone
    requires forall k :: k in g.nodes ==> g.nodes[k].parent == f.nodes[k].parent
    requires forall k :: k in g.nodes && g.nodes[k].parent.Some? ==> g.nodes[k].parent.value in g.nodes
    ensures LevelsExact(g.nodes, level - gone, maxDepth)
  {
    var level2 := level - gone;
    forall k {:trigger g.nodes[k].parent} | k in g.nodes && g.nodes[k].parent.Some?
      ensures g.nodes[k].parent.value in level2 && level2[k] == level2[g.nodes[k].parent.value] + 1
    {
      assert f.nodes[k].parent == g.nodes[k].parent;
    }
    forall k {:trigger g.nodes[k].parent} | k in g.nodes && g.nodes[k].parent.None?
      ensures level2[k] == 1
    {
      assert f.nodes[k].parent == g.nodes[k].parent;
    }
  }

  /** The subtree set of a present node is the node plus what `collect_descendants`
      lists, each once; hence its size. */
  lemma SubtreeSetIsDescendants(f: Forest, level: map<NodeId, nat>, maxDepth: nat, id: NodeId)
    requires WellFormed(f, level, maxDepth) && id in f.nodes
    ensures var desc := Descendants(f.nodes, level, maxDepth, id);
      && NoDup(desc) && id !in desc
      && SubtreeSet(f, level, id) == {id} + (set k | k in desc)
      && |SubtreeSet(f, level, id)| == 1 + |desc|
  {
    var desc := Descendants(f.nodes, level, maxDepth, id);
    var dfs := SubtreeDfs(f.nodes, level, maxDepth, id);
    DescendantsAreDfsTail(f, level, maxDepth, id);
    SubtreeNoDup(f, level, maxDepth, id);
    SubtreeMembers(f, level, maxDepth, id);
    assert SubtreeSet(f, level, id) == (set k | k in dfs);
    HeadAndTail(id, desc);
  }

  /** `remove_node` shrinks the node count by one plus the number of descendants. */
  lemma RemoveCount(f: Forest, level: map<NodeId, nat>, maxDepth: nat, id: NodeId)
    requires WellFormed(f, level, maxDepth) && id in f.nodes
    ensures |RemoveValue(f, id, SubtreeSet(f, level, id)).nodes| ==
            |f.nodes| - 1 - |Descendants(f.nodes, level, maxDepth, id)|
  {
    var S := SubtreeSet(f, level, id);
    SubtreeSetClosed(f, level, maxDepth, id);
    SubtreeSetIsDescendants(f, level, maxDepth, id);
    RemoveRecords(f, id, S);
    assert RemoveValue(f, id, S).nodes.Keys == f.nodes.Keys - S;
  }

  /** Records that differ only in title, body, type or placeholder leave the
      arena exactly as well formed as before. */
  lemma SameLinksPreservesWf(f: Forest, g: Forest, level: map<NodeId, nat>, maxDepth: nat)
    requires WellFormed(f, level, maxDepth)
    requires g.roots == f.roots && g.nodes.Keys == f.nodes.Keys
    requires forall k :: k in f.nodes ==>
               g.nodes[k].id == f.nodes[k].id && g.nodes[k].parent == f.nodes[k].parent && g.nodes[k].children == f.nodes[k].children
    ensures WellFormed(g, level, maxDepth)
  {
    forall k {:trigger g.nodes[k].parent} | k in g.nodes && g.nodes[k].parent.Some?
      ensures g.nodes[k].parent.value in g.nodes
    {
      assert f.nodes[k].parent == g.nodes[k].parent;
    }
    forall k, c {:trigger c in g.nodes[k].children} | k in g.nodes && c in g.nodes[k].children
      ensures c in g.nodes && g.nodes[c].parent == Some(k)
    {
      assert c in f.nodes[k].children;
    }
    forall c {:trigger g.nodes[c].parent} | c in g.nodes && g.nodes[c].parent.Some?
      ensures c in g.nodes[g.nodes[c].parent.value].children
    {
      assert f.nodes[c].parent == g.nodes[c].parent;
    }
    assert Linked(g, level, maxDepth);
    LinkedRanked(g, level, maxDepth);
  }

  /** Moving a node under itself makes it its own parent: no depth assignment
      can then satisfy the invariant, whatever the bound. */
  lemma SelfMoveBreaksWf(f: Forest, level: map<NodeId, nat>, maxDepth: nat, x: NodeId, position: nat,
                         level2: map<NodeId, nat>, maxDepth2: nat)
    requires WellFormed(f, level, maxDepth) && x in f.nodes
    ensures MoveValue(f, x, Some(x), position).nodes[x].parent == Some(x)
    ensures !WellFormed(MoveValue(f, x, Some(x), position), level2, maxDepth2)
  {
    if f.nodes[x].parent.Some? {
      assert level[f.nodes[x].parent.value] < level[x];
    }
    MoveRecords(f, x, Some(x), position);
  }

  /** A freshly added node is a leaf: its subtree is itself alone. */
  lemma AddedLeafAlone(f: Forest, level: map<NodeId, nat>, maxDepth: nat, newId: NodeId, parent: Option<NodeId>,
                       title: string, nodeType: NodeType, body: Option<string>, placeholder: Option<string>, position: nat)
    requires WellFormed(f, level, maxDepth) && newId !in f.nodes
    requires parent.Some? ==> parent.value in f.nodes
    requires NewDepth(level, parent) <= maxDepth
    ensures SubtreeSet(AddNodeValue(f, newId, parent, title, nodeType, body, placeholder, position),
                       level[newId := NewDepth(level, parent)], newId) == {newId}
  {
    var g := AddNodeValue(f, newId, parent, title, nodeType, body, placeholder, position);
    var level2 := level[newId := NewDepth(level, parent)];
    AddPreservesWf(f, level, maxDepth, newId, parent, title, nodeType, body, placeholder, position);
    forall k | k in SubtreeSet(g, level2, newId) ensures k == newId {
      if k != newId {
        var c := UnderStep(g, level2, maxDepth, newId, k);
      }
    }
  }

  /** Adding a key absent from a map and deleting it again gives the map back. */
  lemma MapAddRemove(nodes: Nodes, k: NodeId, v: NodeData)
    requires k !in nodes
    ensures nodes[k := v] - {k} == nodes
  {
  }

  /** Deleting a just-added node, whose id appeared in no old list, undoes the addition record by record. */
  lemma AddThenRemoveValue(f: Forest, newId: NodeId, parent: Option<NodeId>,
                           title: string, nodeType: NodeType, body: Option<string>, placeholder: Option<string>, position: nat)
    requires newId !in f.nodes
    requires parent.Some? ==> parent.value in f.nodes && newId !in f.nodes[parent.value].children
    requires parent.None? ==> newId !in f.roots
    ensures RemoveValue(AddNodeValue(f, newId, parent, title, nodeType, body, placeholder, position), newId, {newId}) == f
  {
    var n := NewNodeData(newId, parent, title, nodeType).(body := body, placeholder := placeholder);
    if parent.None? {
      AddRootThenRemove(f, newId, n, position);
    } else {
      AddChildThenRemove(f, newId, parent.value, n, position);
    }
  }

  lemma AddRootThenRemove(f: Forest, newId: NodeId, n: NodeData, position: nat)
    requires newId !in f.nodes && newId !in f.roots && n.parent.None?
    ensures var g := Forest(f.nodes[newId := n], Insert(f.roots, position, newId));
            Detach(g, newId).(nodes := Detach(g, newId).nodes - {newId}) == f
  {
    AddThenRemoveChild(f.roots, newId, position);
    MapAddRemove(f.nodes, newId, n);
  }

  lemma AddChildThenRemove(f: Forest, newId: NodeId, p: NodeId, n: NodeData, position: nat)
    requires newId !in f.nodes && p in f.nodes && newId !in f.nodes[p].children && n.parent == Some(p)
    ensures var ins := f.nodes[p].(children := Insert(f.nodes[p].children, position, newId));
            var g := Forest(f.nodes[newId := n][p := ins], f.roots);
            Detach(g, newId).(nodes := Detach(g, newId).nodes - {newId}) == f
  {
    var ins := f.nodes[p].(children := Insert(f.nodes[p].children, position, newId));
    var g := Forest(f.nodes[newId := n][p := ins], f.roots);
    AddThenRemoveChild(f.nodes[p].children, newId, position);
    assert ins.(children := Without(ins.children, newId)) == f.nodes[p];
    assert Detach(g, newId).nodes == f.nodes[newId := n][p := f.nodes[p]];
    assert f.nodes[newId := n][p := f.nodes[p]] == f.nodes[newId := n];
    MapAddRemove(f.nodes, newId, n);
  }

  /** A node added and then removed leaves the arena exactly as it was. */
  lemma AddThenRemoveRestores(f: Forest, level: map<NodeId, nat>, maxDepth: nat, newId: NodeId, parent: Option<NodeId>,
                              title: string, nodeType: NodeType, body: Option<string>, placeholder: Option<string>, position: nat)
    requires WellFormed(f, level, maxDepth) && newId !in f.nodes
    requires parent.Some? ==> parent.value in f.nodes
    requires NewDepth(level, parent) <= maxDepth
    ensures var g := AddNodeValue(f, newId, parent, title, nodeType, body, placeholder, position);
            var level2 := level[newId := NewDepth(level, parent)];
            SubtreeSet(g, level2, newId) == {newId} && RemoveValue(g, newId, {newId}) == f
  {
    AddedLeafAlone(f, level, maxDepth, newId, parent, title, nodeType, body, placeholder, position);
    match parent {
      case None =>
        assert newId !in f.roots;
      case Some(p) =>
        assert newId !in f.nodes[p].children;
    }
    AddThenRemoveValue(f, newId, parent, title, nodeType, body, placeholder, position);
  }
}
