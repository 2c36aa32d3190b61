/** Position labels ("1", "2-3", "1-2-1"): the numbering the outline tools show
    in their table of contents, the lookups in both directions, the order in
    which `resolve_id` tries to read user text as a node reference, and the
    table of contents itself (src/interface/mcp.rs). */
module Positions {
  import opened Wrappers
  import opened Seqs
  import opened Node
  import opened Arena
  import opened Book
  import opened Decimal
  import opened Render

  // ---------------------------------------------------------------- is_hierarchical_id

  function FirstIndexOf(s: string, c: char): (i: nat)
    ensures i <= |s| && (i < |s| ==> s[i] == c)
    ensures forall j :: 0 <= j < i ==> s[j] != c
  {
    if s == [] || s[0] == c then 0 else 1 + FirstIndexOf(s[1..], c)
  }

  /** `str::split` on one character: the pieces between separators, empty ones included. */
  function Split(s: string, sep: char): (r: seq<string>)
    ensures |r| >= 1
    decreases |s|
  {
    var i := FirstIndexOf(s, sep);
    if i == |s| then [s] else [s[..i]] + Split(s[i + 1..], sep)
  }

  /** Every character that is not the separator lies in one of the pieces. */
  lemma {:induction false} SplitCovers(s: string, sep: char)
    ensures forall i :: 0 <= i < |s| && s[i] != sep ==> exists part :: part in Split(s, sep) && s[i] in part
    decreases |s|
  {
    var k := FirstIndexOf(s, sep);
    if k == |s| {
      assert s in Split(s, sep);
    } else {
      SplitCovers(s[k + 1..], sep);
      forall i | 0 <= i < |s| && s[i] != sep
        ensures exists part :: part in Split(s, sep) && s[i] in part
      {
        if i < k {
          assert s[i] == s[..k][i];
          assert s[..k] in Split(s, sep);
        } else {
          assert s[i] == s[k + 1..][i - k - 1];
          var part :| part in Split(s[k + 1..], sep) && s[i] in part;
          assert part in Split(s, sep);
        }
      }
    }
  }

  /** `is_hierarchical_id`: non-empty, and every '-'-separated piece is a
      non-empty run of ASCII digits. A label is therefore made of digits and
      dashes only. */
  predicate IsHierarchicalId(s: string): (r: bool)
    ensures r ==> s != "" && forall i :: 0 <= i < |s| ==> s[i] == '-' || IsDigit(s[i])
  {
    SplitCovers(s, '-');
    s != "" && forall part :: part in Split(s, '-') ==> part != "" && AllDigits(part)
  }

  lemma SplitNoSeparator(s: string, sep: char)
    requires sep !in s
    ensures Split(s, sep) == [s]
  {
  }

  /** Appending a separator and a separator-free piece adds exactly that piece. */
  lemma {:induction false} SplitAppend(a: string, b: string)
    requires '-' !in b
    ensures Split(a + "-" + b, '-') == Split(a, '-') + [b]
    decreases |a|
  {
    var s := a + "-" + b;
    var i := FirstIndexOf(a, '-');
    var k := FirstIndexOf(s, '-');
    if i == |a| {
      assert s[|a|] == '-';
      assert k == |a|;
      assert s[..k] == a;
      assert s[k + 1..] == b;
      SplitNoSeparator(b, '-');
      SplitNoSeparator(a, '-');
    } else {
      assert s[i] == a[i];
      assert k == i;
      assert s[..k] == a[..i];
      assert s[k + 1..] == a[i + 1..] + "-" + b;
      SplitAppend(a[i + 1..], b);
    }
  }

  lemma NumeralIsHierarchical(n: nat)
    ensures IsHierarchicalId(NatToString(n))
  {
    var s := NatToString(n);
    SplitNoSeparator(s, '-');
  }

  /** A label followed by '-' and a number is again a label. */
  lemma ExtendIsHierarchical(p: string, n: nat)
    requires IsHierarchicalId(p)
    ensures IsHierarchicalId(p + "-" + NatToString(n))
  {
    var s := NatToString(n);
    NumeralIsHierarchical(n);
    SplitAppend(p, s);
    SplitNoSeparator(s, '-');
  }

  lemma SmallNumerals()
    ensures NatToString(1) == "1" && NatToString(2) == "2" && NatToString(3) == "3"
  {
  }

  lemma TensNumerals()
    ensures NatToString(10) == "10" && NatToString(20) == "20" && NatToString(30) == "30"
  {
    assert NatToString(1) == "1" && NatToString(2) == "2" && NatToString(3) == "3" && NatToString(0) == "0";
  }

  /** The labels the tool documents as accepted. */
  lemma HierarchicalIdAccepted()
    ensures IsHierarchicalId("1") && IsHierarchicalId("2-3") && IsHierarchicalId("1-2-1")
  {
    SmallNumerals();
    NumeralIsHierarchical(1);
    NumeralIsHierarchical(2);
    ExtendIsHierarchical("2", 3);
    ExtendIsHierarchical("1", 2);
    assert "1" + "-" + "2" == "1-2";
    ExtendIsHierarchical("1-2", 1);
    assert "1-2" + "-" + "1" == "1-2-1";
  }

  /** Multi-digit pieces are accepted too. */
  lemma HierarchicalIdAcceptedTens()
    ensures IsHierarchicalId("10-20-30")
  {
    TensNumerals();
    NumeralIsHierarchical(10);
    ExtendIsHierarchical("10", 20);
    assert "10" + "-" + "20" == "10-20";
    ExtendIsHierarchical("10-20", 30);
    assert "10-20" + "-" + "30" == "10-20-30";
  }

  /** A label with an empty piece at the end is rejected. */
  lemma TrailingDashRejected(a: string)
    ensures !IsHierarchicalId(a + "-")
  {
    SplitAppend(a, "");
    assert a + "-" + "" == a + "-";
    assert "" in Split(a + "-", '-');
  }

  /** A label with an empty piece at the front is rejected. */
  lemma LeadingDashRejected(b: string)
    ensures !IsHierarchicalId("-" + b)
  {
    var s := "-" + b;
    assert FirstIndexOf(s, '-') == 0;
    assert s[..0] == "";
    assert "" in Split(s, '-');
  }

  /** A single piece that is not all digits is rejected. */
  lemma NonDigitsRejected(s: string, i: nat)
    requires '-' !in s && i < |s| && !IsDigit(s[i])
    ensures !IsHierarchicalId(s)
  {
    SplitNoSeparator(s, '-');
    assert s in Split(s, '-');
  }

  /** The texts the tool documents as rejected. */
  lemma HierarchicalIdRejected()
    ensures !IsHierarchicalId("") && !IsHierarchicalId("abc") && !IsHierarchicalId("1-") && !IsHierarchicalId("-1")
    ensures !IsHierarchicalId("a1b2c3d4")
  {
    NonDigitsRejected("abc", 0);
    TrailingDashRejected("1");
    assert "1" + "-" == "1-";
    LeadingDashRejected("1");
    assert "-" + "1" == "-1";
    NonDigitsRejected("a1b2c3d4", 0);
  }

  /** An empty piece in the middle is rejected. */
  lemma DoubleDashRejected()
    ensures !IsHierarchicalId("1--2")
  {
    SplitAppend("1", "");
    assert "1" + "-" + "" == "1-";
    SplitAppend("1-", "2");
    assert "1-" + "-" + "2" == "1--2";
    assert "" in Split("1--2", '-');
  }

  // ---------------------------------------------------------------- build_hierarchical_ids

  /** The labelled ids of `ids` and everything below them: sibling number `j`
      is labelled `prefix` followed by `j`, and its children are numbered from
      1 under that label. A child is labelled whether or not its record exists. */
  function SiblingLabels(nodes: Nodes, ghost level: map<NodeId, nat>, ghost bound: nat, ids: seq<NodeId>, prefix: string, j: nat): seq<(string, NodeId)>
    requires Ranked(nodes, level, bound)
    decreases MaxRank(nodes, level, bound, ids), 1, |ids|
  {
    if ids == [] then []
    else
      var num := prefix + NatToString(j);
      [(num, ids[0])] + ChildLabels(nodes, level, bound, ids[0], num) + SiblingLabels(nodes, level, bound, ids[1..], prefix, j + 1)
  }

  /** `collect_children_ids`: the labels below the node labelled `num`; nothing
      when the node itself is missing. */
  function ChildLabels(nodes: Nodes, ghost level: map<NodeId, nat>, ghost bound: nat, id: NodeId, num: string): seq<(string, NodeId)>
    requires Ranked(nodes, level, bound)
    decreases Rank(nodes, level, bound, id), 0
  {
    if id in nodes then
      ChildrenRankBelow(nodes, level, bound, id, nodes[id].children);
      SiblingLabels(nodes, level, bound, nodes[id].children, num + "-", 1)
    else []
  }

  /** The whole numbering: root `i` (from 1) is labelled "i". */
  function HierarchicalIds(f: Forest, ghost level: map<NodeId, nat>, ghost maxDepth: nat): seq<(string, NodeId)>
    requires Ranked(f.nodes, level, maxDepth)
  {
    SiblingLabels(f.nodes, level, maxDepth, f.roots, "", 1)
  }

  function Ids<L, K>(pairs: seq<(L, K)>): (r: seq<K>)
    ensures |r| == |pairs| && forall i :: 0 <= i < |pairs| ==> r[i] == pairs[i].1
  {
    seq(|pairs|, i requires 0 <= i < |pairs| => pairs[i].1)
  }

  function Labels<L, K>(pairs: seq<(L, K)>): (r: seq<L>)
    ensures |r| == |pairs| && forall i :: 0 <= i < |pairs| ==> r[i] == pairs[i].0
  {
    seq(|pairs|, i requires 0 <= i < |pairs| => pairs[i].0)
  }

  lemma IdsConcat<L, K>(a: seq<(L, K)>, b: seq<(L, K)>)
    ensures Ids(a + b) == Ids(a) + Ids(b) && Labels(a + b) == Labels(a) + Labels(b)
  {
  }

  /** `collect_children_ids`: pushes, for each child in order, its label and then
      everything below it. */
  method CollectChildrenIds(nodes: Nodes, ghost level: map<NodeId, nat>, ghost bound: nat, parentId: NodeId, parentNum: string,
                            result: seq<(string, NodeId)>) returns (out: seq<(string, NodeId)>)
    requires Ranked(nodes, level, bound)
    ensures out == result + ChildLabels(nodes, level, bound, parentId, parentNum)
    decreases Rank(nodes, level, bound, parentId)
  {
    out := result;
    if parentId in nodes {
      var children := nodes[parentId].children;
      ChildrenRankBelow(nodes, level, bound, parentId, children);
      for j := 0 to |children|
        invariant out + SiblingLabels(nodes, level, bound, children[j..], parentNum + "-", j + 1)
                  == result + ChildLabels(nodes, level, bound, parentId, parentNum)
      {
        assert children[j..][1..] == children[j + 1..];
        var num := parentNum + "-" + NatToString(j + 1);
        ghost var below := ChildLabels(nodes, level, bound, children[j], num);
        ghost var later := SiblingLabels(nodes, level, bound, children[j + 1..], parentNum + "-", j + 2);
        AppendAssoc([(num, children[j])], below, later);
        AppendAssoc(out, [(num, children[j])] + below, later);
        AppendAssoc(out, [(num, children[j])], below);
        out := out + [(num, children[j])];
        RankBelowMax(nodes, level, bound, children, j);
        out := CollectChildrenIds(nodes, level, bound, children[j], num, out);
      }
    }
  }

  /** `build_hierarchical_ids` over the book's records. */
  method BuildHierarchicalIds(f: Forest, ghost level: map<NodeId, nat>, ghost maxDepth: nat) returns (result: seq<(string, NodeId)>)
    requires Ranked(f.nodes, level, maxDepth)
    ensures result == HierarchicalIds(f, level, maxDepth)
  {
    result := [];
    for i := 0 to |f.roots|
      invariant result + SiblingLabels(f.nodes, level, maxDepth, f.roots[i..], "", i + 1) == HierarchicalIds(f, level, maxDepth)
    {
      assert f.roots[i..][1..] == f.roots[i + 1..];
      var num := NatToString(i + 1);
      assert "" + num == num;
      ghost var below := ChildLabels(f.nodes, level, maxDepth, f.roots[i], num);
      ghost var later := SiblingLabels(f.nodes, level, maxDepth, f.roots[i + 1..], "", i + 2);
      AppendAssoc([(num, f.roots[i])], below, later);
      AppendAssoc(result, [(num, f.roots[i])] + below, later);
      AppendAssoc(result, [(num, f.roots[i])], below);
      result := result + [(num, f.roots[i])];
      result := CollectChildrenIds(f.nodes, level, maxDepth, f.roots[i], num, result);
    }
  }

  // ---------------------------------------------------------------- what the numbering covers

  /** One step of the numbering: the first sibling's label, the labels below it,
      then the later siblings numbered on from `j + 1`. */
  lemma SiblingLabelsCons(nodes: Nodes, level: map<NodeId, nat>, bound: nat, ids: seq<NodeId>, prefix: string, j: nat)
    requires Ranked(nodes, level, bound) && ids != []
    ensures var num := prefix + NatToString(j);
            var below := ChildLabels(nodes, level, bound, ids[0], num);
            var later := SiblingLabels(nodes, level, bound, ids[1..], prefix, j + 1);
            Labels(SiblingLabels(nodes, level, bound, ids, prefix, j)) == [num] + Labels(below) + Labels(later) &&
            Ids(SiblingLabels(nodes, level, bound, ids, prefix, j)) == [ids[0]] + Ids(below) + Ids(later)
  {
    var num := prefix + NatToString(j);
    var below := ChildLabels(nodes, level, bound, ids[0], num);
    var later := SiblingLabels(nodes, level, bound, ids[1..], prefix, j + 1);
    assert SiblingLabels(nodes, level, bound, ids, prefix, j) == [(num, ids[0])] + below + later;
    PairsConcat3((num, ids[0]), below, later);
  }

  lemma PairsConcat3<L, K>(p: (L, K), a: seq<(L, K)>, b: seq<(L, K)>)
    ensures Labels([p] + a + b) == [p.0] + Labels(a) + Labels(b)
    ensures Ids([p] + a + b) == [p.1] + Ids(a) + Ids(b)
  {
    IdsConcat([p] + a, b);
    IdsConcat([p], a);
  }

  /** The labelled ids are exactly `collect_descendants` of the listed ids (missing
      children included), in the same order. */
  lemma {:induction false} SiblingLabelIds(nodes: Nodes, level: map<NodeId, nat>, bound: nat, ids: seq<NodeId>, prefix: string, j: nat)
    requires Ranked(nodes, level, bound)
    ensures Ids(SiblingLabels(nodes, level, bound, ids, prefix, j)) == DescendantsOfAll(nodes, level, bound, ids)
    decreases MaxRank(nodes, level, bound, ids), 1, |ids|
  {
    if ids != [] {
      var num := prefix + NatToString(j);
      ChildLabelIds(nodes, level, bound, ids[0], num);
      SiblingLabelIds(nodes, level, bound, ids[1..], prefix, j + 1);
      SiblingLabelsCons(nodes, level, bound, ids, prefix, j);
    }
  }

  lemma {:induction false} ChildLabelIds(nodes: Nodes, level: map<NodeId, nat>, bound: nat, id: NodeId, num: string)
    requires Ranked(nodes, level, bound)
    ensures Ids(ChildLabels(nodes, level, bound, id, num)) == Descendants(nodes, level, bound, id)
    decreases Rank(nodes, level, bound, id), 0
  {
    if id in nodes {
      ChildrenRankBelow(nodes, level, bound, id, nodes[id].children);
      SiblingLabelIds(nodes, level, bound, nodes[id].children, num + "-", 1);
    }
  }

  /** On a well-formed book the numbering lists every node exactly once, in the
      preorder of `all_nodes_dfs`. */
  lemma HierarchicalIdsArePreorder(f: Forest, level: map<NodeId, nat>, maxDepth: nat)
    requires WellFormed(f, level, maxDepth)
    ensures Ids(HierarchicalIds(f, level, maxDepth)) == AllNodesDfs(f, level, maxDepth)
    ensures NoDup(Ids(HierarchicalIds(f, level, maxDepth)))
    ensures forall k :: k in Ids(HierarchicalIds(f, level, maxDepth)) <==> k in f.nodes
  {
    SiblingLabelIds(f.nodes, level, maxDepth, f.roots, "", 1);
    DescendantsOfAllAreForestDfs(f, level, maxDepth, f.roots);
    AllNodesDfsExact(f, level, maxDepth);
  }

  // ---------------------------------------------------------------- the labels are well-formed

  /** A prefix under which siblings are numbered: nothing (for the roots), or a
      label followed by '-'. */
  predicate GoodPrefix(p: string) {
    p == "" || (|p| > 0 && p[|p| - 1] == '-' && IsHierarchicalId(p[..|p| - 1]))
  }

  lemma NumberUnder(prefix: string, j: nat)
    requires GoodPrefix(prefix)
    ensures IsHierarchicalId(prefix + NatToString(j))
    ensures GoodPrefix(prefix + NatToString(j) + "-")
  {
    var num := prefix + NatToString(j);
    if prefix == "" {
      assert num == NatToString(j);
      NumeralIsHierarchical(j);
    } else {
      var q := prefix[..|prefix| - 1];
      assert prefix == q + "-";
      assert num == q + "-" + NatToString(j);
      ExtendIsHierarchical(q, j);
    }
    assert (num + "-")[..|num + "-"| - 1] == num;
  }

  /** Every label the numbering produces is accepted by `is_hierarchical_id`, so
      every label shown by the table of contents is read back as a position. */
  lemma {:induction false} SiblingLabelsHierarchical(nodes: Nodes, level: map<NodeId, nat>, bound: nat, ids: seq<NodeId>, prefix: string, j: nat)
    requires Ranked(nodes, level, bound) && GoodPrefix(prefix)
    ensures forall l :: l in Labels(SiblingLabels(nodes, level, bound, ids, prefix, j)) ==> IsHierarchicalId(l)
    decreases MaxRank(nodes, level, bound, ids), 1, |ids|
  {
    if ids != [] {
      var num := prefix + NatToString(j);
      NumberUnder(prefix, j);
      ChildLabelsHierarchical(nodes, level, bound, ids[0], num);
      SiblingLabelsHierarchical(nodes, level, bound, ids[1..], prefix, j + 1);
      SiblingLabelsCons(nodes, level, bound, ids, prefix, j);
    }
  }

  lemma {:induction false} ChildLabelsHierarchical(nodes: Nodes, level: map<NodeId, nat>, bound: nat, id: NodeId, num: string)
    requires Ranked(nodes, level, bound) && GoodPrefix(num + "-")
    ensures forall l :: l in Labels(ChildLabels(nodes, level, bound, id, num)) ==> IsHierarchicalId(l)
    decreases Rank(nodes, level, bound, id), 0
  {
    if id in nodes {
      ChildrenRankBelow(nodes, level, bound, id, nodes[id].children);
      SiblingLabelsHierarchical(nodes, level, bound, nodes[id].children, num + "-", 1);
    }
  }

  // ---------------------------------------------------------------- the labels are distinct

  /** `l` is the label of sibling `m` under `prefix`, or a label below it. */
  predicate LabelOf(l: string, prefix: string, m: nat) {
    var own := prefix + NatToString(m);
    l == own || (|l| > |own| && l[..|own| + 1] == own + "-")
  }

  /** How many digits `l` has in a row from position `p`. */
  function DigitRun(l: string, p: nat): nat
    decreases |l| - p
  {
    if p < |l| && IsDigit(l[p]) then 1 + DigitRun(l, p + 1) else 0
  }

  lemma {:induction false} DigitRunTo(l: string, p: nat, q: nat)
    requires p <= q <= |l| && (q == |l| || !IsDigit(l[q]))
    requires forall i :: p <= i < q ==> IsDigit(l[i])
    ensures DigitRun(l, p) == q - p
    decreases q - p
  {
    if p < q {
      DigitRunTo(l, p + 1, q);
    }
  }

  /** The numeral of sibling `m` is the run of digits right after the prefix. */
  lemma LabelOfNumeral(l: string, prefix: string, m: nat)
    requires LabelOf(l, prefix, m)
    ensures |NatToString(m)| == DigitRun(l, |prefix|)
    ensures l[|prefix|..|prefix| + |NatToString(m)|] == NatToString(m)
  {
    var sm := NatToString(m);
    var own := prefix + sm;
    assert l[..|own|] == own;
    forall i | |prefix| <= i < |own| ensures IsDigit(l[i]) {
      assert l[i] == own[i] == sm[i - |prefix|];
    }
    if l != own {
      assert l[|own|] == '-';
    }
    DigitRunTo(l, |prefix|, |own|);
  }

  /** A label belongs to one sibling only: numerals have no leading zeros, and
      a numeral is always followed by '-' or the end. */
  lemma LabelOfUnique(l: string, prefix: string, m: nat, n: nat)
    requires LabelOf(l, prefix, m) && LabelOf(l, prefix, n)
    ensures m == n
  {
    LabelOfNumeral(l, prefix, m);
    LabelOfNumeral(l, prefix, n);
    NatToStringInjective(m, n);
  }

  /** A label strictly below `num`: it starts with `num` and '-'. */
  predicate Below(l: string, num: string) {
    |l| > |num| && l[..|num| + 1] == num + "-"
  }

  lemma {:induction false} SiblingLabelsDistinct(nodes: Nodes, level: map<NodeId, nat>, bound: nat, ids: seq<NodeId>, prefix: string, j: nat)
    requires Ranked(nodes, level, bound)
    ensures NoDup(Labels(SiblingLabels(nodes, level, bound, ids, prefix, j)))
    ensures forall l :: l in Labels(SiblingLabels(nodes, level, bound, ids, prefix, j)) ==>
              exists m :: j <= m < j + |ids| && LabelOf(l, prefix, m)
    decreases MaxRank(nodes, level, bound, ids), 1, |ids|
  {
    if ids != [] {
      var num := prefix + NatToString(j);
      ChildLabelsDistinct(nodes, level, bound, ids[0], num);
      SiblingLabelsDistinct(nodes, level, bound, ids[1..], prefix, j + 1);
      var below := ChildLabels(nodes, level, bound, ids[0], num);
      var later := SiblingLabels(nodes, level, bound, ids[1..], prefix, j + 1);
      SiblingLabelsCons(nodes, level, bound, ids, prefix, j);
      var first := [num] + Labels(below);
      forall l | l in Labels(below) ensures l != num && LabelOf(l, prefix, j) {
        assert Below(l, num);
      }
      NoDupConcat([num], Labels(below));
      forall l | l in first ensures l !in Labels(later) {
        assert LabelOf(l, prefix, j);
        if l in Labels(later) {
          var m :| j + 1 <= m < j + 1 + |ids[1..]| && LabelOf(l, prefix, m);
          LabelOfUnique(l, prefix, j, m);
        }
      }
      NoDupConcat(first, Labels(later));
      forall l | l in first + Labels(later) ensures exists m :: j <= m < j + |ids| && LabelOf(l, prefix, m) {
        if l in first {
          assert LabelOf(l, prefix, j);
        } else {
          var m :| j + 1 <= m < j + 1 + |ids[1..]| && LabelOf(l, prefix, m);
        }
      }
    }
  }

  lemma {:induction false} ChildLabelsDistinct(nodes: Nodes, level: map<NodeId, nat>, bound: nat, id: NodeId, num: string)
    requires Ranked(nodes, level, bound)
    ensures NoDup(Labels(ChildLabels(nodes, level, bound, id, num)))
    ensures forall l :: l in Labels(ChildLabels(nodes, level, bound, id, num)) ==> Below(l, num)
    decreases Rank(nodes, level, bound, id), 0
  {
    if id in nodes {
      var kids := nodes[id].children;
      ChildrenRankBelow(nodes, level, bound, id, kids);
      SiblingLabelsDistinct(nodes, level, bound, kids, num + "-", 1);
      forall l | l in Labels(ChildLabels(nodes, level, bound, id, num)) ensures Below(l, num) {
        var m :| 1 <= m < 1 + |kids| && LabelOf(l, num + "-", m);
        var own := num + "-" + NatToString(m);
        assert l[..|num| + 1] == own[..|num| + 1];
      }
    }
  }

  /** No two nodes share a label, whatever the state of the records. */
  lemma HierarchicalIdsDistinct(f: Forest, level: map<NodeId, nat>, maxDepth: nat)
    requires Ranked(f.nodes, level, maxDepth)
    ensures NoDup(Labels(HierarchicalIds(f, level, maxDepth)))
    ensures forall l :: l in Labels(HierarchicalIds(f, level, maxDepth)) ==> IsHierarchicalId(l)
  {
    SiblingLabelsDistinct(f.nodes, level, maxDepth, f.roots, "", 1);
    SiblingLabelsHierarchical(f.nodes, level, maxDepth, f.roots, "", 1);
  }

  // ---------------------------------------------------------------- lookups in both directions

  /** Where the first pair labelled `s` sits (`|pairs|` when there is none). */
  function FirstLabelAt<L(==), K>(pairs: seq<(L, K)>, s: L): (i: nat)
    ensures i <= |pairs| && (i < |pairs| ==> pairs[i].0 == s)
    ensures forall j :: 0 <= j < i ==> pairs[j].0 != s
  {
    if pairs == [] || pairs[0].0 == s then 0 else 1 + FirstLabelAt(pairs[1..], s)
  }

  /** Where the first pair for `target` sits (`|pairs|` when there is none). */
  function FirstIdAt<L, K(==)>(pairs: seq<(L, K)>, target: K): (i: nat)
    ensures i <= |pairs| && (i < |pairs| ==> pairs[i].1 == target)
    ensures forall j :: 0 <= j < i ==> pairs[j].1 != target
  {
    if pairs == [] || pairs[0].1 == target then 0 else 1 + FirstIdAt(pairs[1..], target)
  }

  /** The id of the first pair labelled `s`: the lookup `resolve_id` makes for a position. */
  function LookupLabel<L(==), K>(pairs: seq<(L, K)>, s: L): (r: Option<K>)
    ensures r.None? <==> forall j :: 0 <= j < |pairs| ==> pairs[j].0 != s
    ensures r.Some? ==> (s, r.value) in pairs
  {
    var i := FirstLabelAt(pairs, s);
    if i < |pairs| then Some(pairs[i].1) else None
  }

  /** `find_hierarchical_id`: the label of the first pair whose id is `target`. */
  function FindHierarchicalId<L, K(==)>(pairs: seq<(L, K)>, target: K): (r: Option<L>)
    ensures r.None? <==> forall j :: 0 <= j < |pairs| ==> pairs[j].1 != target
    ensures r.Some? ==> (r.value, target) in pairs
  {
    var i := FirstIdAt(pairs, target);
    if i < |pairs| then Some(pairs[i].0) else None
  }

  /** With distinct labels, looking a pair's label up gives that pair's id. */
  lemma LookupLabelAt<L, K>(pairs: seq<(L, K)>, i: nat)
    requires NoDup(Labels(pairs)) && i < |pairs|
    ensures LookupLabel(pairs, pairs[i].0) == Some(pairs[i].1)
  {
    var labels := Labels(pairs);
    var j := FirstLabelAt(pairs, pairs[i].0);
    assert j <= i;
  }

  /** With distinct ids, looking a pair's id up gives that pair's label. */
  lemma FindHierarchicalIdAt<L, K>(pairs: seq<(L, K)>, i: nat)
    requires NoDup(Ids(pairs)) && i < |pairs|
    ensures FindHierarchicalId(pairs, pairs[i].1) == Some(pairs[i].0)
  {
    var ids := Ids(pairs);
    var j := FirstIdAt(pairs, pairs[i].1);
    assert j <= i;
  }

  /** On a well-formed book, position labels and nodes correspond one to one:
      the label `find_hierarchical_id` gives a node is exactly the label that
      looks up to it. */
  lemma PositionRoundTrip(f: Forest, level: map<NodeId, nat>, maxDepth: nat, l: string, k: NodeId)
    requires WellFormed(f, level, maxDepth)
    ensures LookupLabel(HierarchicalIds(f, level, maxDepth), l) == Some(k) <==>
            k in f.nodes && FindHierarchicalId(HierarchicalIds(f, level, maxDepth), k) == Some(l)
  {
    var pairs := HierarchicalIds(f, level, maxDepth);
    HierarchicalIdsArePreorder(f, level, maxDepth);
    HierarchicalIdsDistinct(f, level, maxDepth);
    if LookupLabel(pairs, l) == Some(k) {
      var i := FirstLabelAt(pairs, l);
      assert Ids(pairs)[i] == k;
      FindHierarchicalIdAt(pairs, i);
    }
    if k in f.nodes && FindHierarchicalId(pairs, k) == Some(l) {
      LookupLabelAt(pairs, FirstIdAt(pairs, k));
    }
  }

  /** On a well-formed book every node has a label, and it has the syntax of a position. */
  lemma EveryNodeLabelled(f: Forest, level: map<NodeId, nat>, maxDepth: nat, k: NodeId)
    requires WellFormed(f, level, maxDepth) && k in f.nodes
    ensures FindHierarchicalId(HierarchicalIds(f, level, maxDepth), k).Some?
    ensures IsHierarchicalId(FindHierarchicalId(HierarchicalIds(f, level, maxDepth), k).value)
  {
    var pairs := HierarchicalIds(f, level, maxDepth);
    HierarchicalIdsArePreorder(f, level, maxDepth);
    HierarchicalIdsDistinct(f, level, maxDepth);
    var i := FirstIdAt(pairs, k);
    assert Labels(pairs)[i] == pairs[i].0;
  }

  // ---------------------------------------------------------------- resolve_id

  /** Why user text names no single node. */
  datatype ResolveError =
    | NoNodeAtPosition(text: string)
    | AmbiguousPrefix(text: string, count: nat)
    | NoTitleMatch(text: string)
    | AmbiguousTitle(text: string, count: nat, candidates: string)

  /** The `invalid_params` message each error carries. */
  function ResolveMessage(e: ResolveError): string {
    match e
    case NoNodeAtPosition(s) => "No node at position '" + s + "'. Run `toc` to see available IDs."
    case AmbiguousPrefix(s, n) => "Ambiguous ID prefix: '" + s + "' matches " + NatToString(n) + " nodes"
    case NoTitleMatch(s) => "No node found matching: '" + s + "'"
    case AmbiguousTitle(s, n, list) => "Ambiguous title match: '" + s + "' matches " + NatToString(n) + " nodes: " + list
  }

  /** `char::to_ascii_lowercase`; `str::to_lowercase` agrees with it on ASCII text. */
  function AsciiLower(c: char): char {
    if 'A' <= c <= 'Z' then (c as int + 32) as char else c
  }

  function ToLower(s: string): (r: string)
    ensures |r| == |s| && forall i :: 0 <= i < |s| ==> r[i] == AsciiLower(s[i])
  {
    seq(|s|, i requires 0 <= i < |s| => AsciiLower(s[i]))
  }

  predicate StartsWith(s: string, p: string) {
    |p| <= |s| && s[..|p|] == p
  }

  /** `str::contains`: `sub` occurs somewhere in `s`. */
  predicate Contains(s: string, sub: string) {
    exists i :: 0 <= i <= |s| && StartsWith(s[i..], sub)
  }

  /** `NodeId::short`: the first eight characters of the id's text. */
  function Short(id: NodeId): (r: string)
    ensures |r| == Min(8, |id.uuid|) && r <= id.uuid
  {
    id.uuid[..Min(8, |id.uuid|)]
  }

  /** The ids of the book whose text starts with `s` (the source walks the map keys). */
  function PrefixMatches(nodes: Nodes, s: string): (r: set<NodeId>)
    ensures forall k :: k in r <==> k in nodes && StartsWith(k.uuid, s)
  {
    set k | k in nodes && StartsWith(k.uuid, s)
  }

  lemma SingletonUnique(m: set<NodeId>)
    requires |m| == 1
    ensures forall a, b :: a in m && b in m ==> a == b
  {
    forall a, b | a in m && b in m ensures a == b {
      var rest := m - {a};
      assert |rest| == 0;
      assert b !in rest;
    }
  }

  /** The one element of a one-element set. */
  function TheOnly(m: set<NodeId>): (x: NodeId)
    requires |m| == 1
    ensures m == {x}
  {
    SingletonUnique(m);
    var x :| x in m;
    x
  }

  /** The listed ids, in order, whose record's lower-cased title contains `query`. */
  function TitleMatches(nodes: Nodes, ids: seq<NodeId>, query: string): (r: seq<NodeId>)
    ensures forall k :: k in r <==> k in ids && k in nodes && Contains(ToLower(nodes[k].title), query)
    ensures |r| <= |ids|
  {
    if ids == [] then []
    else
      var rest := TitleMatches(nodes, ids[1..], query);
      if ids[0] in nodes && Contains(ToLower(nodes[ids[0]].title), query) then [ids[0]] + rest else rest
  }

  /** One candidate in the ambiguity message: "'title' (position)", the short id
      standing in for a missing position. */
  function Candidate(nodes: Nodes, pairs: seq<(string, NodeId)>, id: NodeId): string {
    var hier := match FindHierarchicalId(pairs, id) case Some(l) => l case None => Short(id);
    if id in nodes then "'" + nodes[id].title + "' (" + hier + ")" else hier
  }

  /** The candidates joined with ", ". */
  function Candidates(nodes: Nodes, pairs: seq<(string, NodeId)>, ids: seq<NodeId>): string {
    if ids == [] then ""
    else if |ids| == 1 then Candidate(nodes, pairs, ids[0])
    else Candidate(nodes, pairs, ids[0]) + ", " + Candidates(nodes, pairs, ids[1..])
  }

  /** The last resort of `resolve_id`: a case-insensitive substring of exactly one
      title, searched in preorder. */
  function ResolveByTitle(f: Forest, ghost level: map<NodeId, nat>, ghost maxDepth: nat, s: string): (r: Result<NodeId, ResolveError>)
    requires Ranked(f.nodes, level, maxDepth)
    ensures r.Ok? <==> |TitleMatches(f.nodes, AllNodesDfs(f, level, maxDepth), ToLower(s))| == 1
    ensures r.Ok? ==> TitleMatches(f.nodes, AllNodesDfs(f, level, maxDepth), ToLower(s)) == [r.value]
    ensures r.Err? && r.error.NoTitleMatch? <==> TitleMatches(f.nodes, AllNodesDfs(f, level, maxDepth), ToLower(s)) == []
    ensures r.Err? ==> r.error.text == s
    ensures r.Err? && r.error.AmbiguousTitle? ==> r.error.count == |TitleMatches(f.nodes, AllNodesDfs(f, level, maxDepth), ToLower(s))| >= 2
  {
    var matches := TitleMatches(f.nodes, AllNodesDfs(f, level, maxDepth), ToLower(s));
    if |matches| == 0 then Err(NoTitleMatch(s))
    else if |matches| == 1 then Ok(matches[0])
    else Err(AmbiguousTitle(s, |matches|, Candidates(f.nodes, HierarchicalIds(f, level, maxDepth), matches)))
  }

  /** `resolve_id`: user text to a node id, trying in turn a position label, a full
      UUID (`parseNodeId`, which the model leaves abstract), a unique prefix of a
      node id, and a unique title substring. */
  function ResolveId(f: Forest, ghost level: map<NodeId, nat>, ghost maxDepth: nat, parseNodeId: string -> Option<NodeId>, s: string)
    : (r: Result<NodeId, ResolveError>)
    requires Ranked(f.nodes, level, maxDepth)
    ensures IsHierarchicalId(s) ==> r.Ok? || r.error == NoNodeAtPosition(s)
    ensures !IsHierarchicalId(s) && parseNodeId(s).Some? ==> r == Ok(parseNodeId(s).value)
    ensures r.Err? ==> r.error.text == s
  {
    if IsHierarchicalId(s) then
      match LookupLabel(HierarchicalIds(f, level, maxDepth), s)
      case Some(id) => Ok(id)
      case None => Err(NoNodeAtPosition(s))
    else if parseNodeId(s).Some? then Ok(parseNodeId(s).value)
    else
      var prefixed := PrefixMatches(f.nodes, s);
      if |prefixed| == 1 then Ok(TheOnly(prefixed))
      else if |prefixed| > 1 then Err(AmbiguousPrefix(s, |prefixed|))
      else ResolveByTitle(f, level, maxDepth, s)
  }

  /** Position syntax is decided by the labels alone and never falls through to
      the other readings: the text resolves exactly when some node carries that label. */
  lemma ResolvePosition(f: Forest, level: map<NodeId, nat>, maxDepth: nat, parseNodeId: string -> Option<NodeId>, s: string, k: NodeId)
    requires WellFormed(f, level, maxDepth) && IsHierarchicalId(s)
    ensures ResolveId(f, level, maxDepth, parseNodeId, s) == Ok(k) <==>
            k in f.nodes && FindHierarchicalId(HierarchicalIds(f, level, maxDepth), k) == Some(s)
    ensures ResolveId(f, level, maxDepth, parseNodeId, s).Err? <==> s !in Labels(HierarchicalIds(f, level, maxDepth))
  {
    PositionRoundTrip(f, level, maxDepth, s, k);
    var pairs := HierarchicalIds(f, level, maxDepth);
    if s in Labels(pairs) {
      var i :| 0 <= i < |pairs| && Labels(pairs)[i] == s;
      assert pairs[i].0 == s;
    }
  }

  /** Every label the table of contents shows resolves back to its node. */
  lemma ResolveShownPosition(f: Forest, level: map<NodeId, nat>, maxDepth: nat, parseNodeId: string -> Option<NodeId>, k: NodeId)
    requires WellFormed(f, level, maxDepth) && k in f.nodes
    ensures FindHierarchicalId(HierarchicalIds(f, level, maxDepth), k).Some?
    ensures ResolveId(f, level, maxDepth, parseNodeId, FindHierarchicalId(HierarchicalIds(f, level, maxDepth), k).value) == Ok(k)
  {
    EveryNodeLabelled(f, level, maxDepth, k);
    var l := FindHierarchicalId(HierarchicalIds(f, level, maxDepth), k).value;
    ResolvePosition(f, level, maxDepth, parseNodeId, l, k);
  }

  /** Past the first two readings, a prefix shared by exactly one node picks that
      node, a prefix shared by several is ambiguous, and a prefix shared by none
      falls through to the title search. */
  lemma ResolvePrefix(f: Forest, level: map<NodeId, nat>, maxDepth: nat, parseNodeId: string -> Option<NodeId>, s: string)
    requires Ranked(f.nodes, level, maxDepth)
    requires !IsHierarchicalId(s) && parseNodeId(s).None?
    ensures forall k :: PrefixMatches(f.nodes, s) == {k} ==> ResolveId(f, level, maxDepth, parseNodeId, s) == Ok(k)
    ensures |PrefixMatches(f.nodes, s)| > 1 <==> ResolveId(f, level, maxDepth, parseNodeId, s) == Err(AmbiguousPrefix(s, |PrefixMatches(f.nodes, s)|))
    ensures PrefixMatches(f.nodes, s) == {} ==> ResolveId(f, level, maxDepth, parseNodeId, s) == ResolveByTitle(f, level, maxDepth, s)
  {
  }

  /** On a well-formed book a title match is unique among all the nodes, not
      just among those the search visited. */
  lemma ResolveTitleUnique(f: Forest, level: map<NodeId, nat>, maxDepth: nat, s: string, k: NodeId)
    requires WellFormed(f, level, maxDepth)
    requires ResolveByTitle(f, level, maxDepth, s) == Ok(k)
    ensures k in f.nodes
    ensures forall j :: j in f.nodes && Contains(ToLower(f.nodes[j].title), ToLower(s)) <==> j == k
  {
    AllNodesDfsExact(f, level, maxDepth);
    var matches := TitleMatches(f.nodes, AllNodesDfs(f, level, maxDepth), ToLower(s));
    assert matches == [k];
    assert k in matches;
  }

  /** Whatever `resolve_id` returns on a well-formed book is a node of the book,
      except a full UUID, which is taken as it is. */
  lemma ResolveSound(f: Forest, level: map<NodeId, nat>, maxDepth: nat, parseNodeId: string -> Option<NodeId>, s: string, k: NodeId)
    requires WellFormed(f, level, maxDepth)
    requires ResolveId(f, level, maxDepth, parseNodeId, s) == Ok(k)
    ensures k in f.nodes || (!IsHierarchicalId(s) && parseNodeId(s) == Some(k))
  {
    if IsHierarchicalId(s) {
      ResolvePosition(f, level, maxDepth, parseNodeId, s, k);
    } else if parseNodeId(s).None? {
      var prefixed := PrefixMatches(f.nodes, s);
      if |prefixed| == 1 {
        assert k in prefixed;
      } else {
        ResolveTitleUnique(f, level, maxDepth, s, k);
      }
    }
  }

  // ---------------------------------------------------------------- format_toc

  /** One entry of the table of contents: two spaces per level below the top
      (from `depth_of`), the node's position label or "?", and its title. */
  function TocLine(nodes: Nodes, pairs: seq<(string, NodeId)>, id: NodeId): string
    requires id in nodes
  {
    var depth := ChainDepth(nodes, id, 254);
    var hier := match FindHierarchicalId(pairs, id) case Some(l) => l case None => "?";
    Indent(depth - 1) + hier + ". " + nodes[id].title + "\n"
  }

  function TocLines(nodes: Nodes, pairs: seq<(string, NodeId)>, ids: seq<NodeId>): string
    requires forall k :: k in ids ==> k in nodes
  {
    if ids == [] then "" else TocLines(nodes, pairs, ids[..|ids| - 1]) + TocLine(nodes, pairs, ids[|ids| - 1])
  }

  function TocHeader(title: string, nodeCount: nat): string {
    "# " + title + " (" + NatToString(nodeCount) + " nodes)\n\n"
  }

  /** The whole table of contents for the listed nodes. */
  function TocOf(title: string, nodeCount: nat, f: Forest, ghost level: map<NodeId, nat>, ghost maxDepth: nat, ids: seq<NodeId>): string
    requires Ranked(f.nodes, level, maxDepth) && forall k :: k in ids ==> k in f.nodes
  {
    TocHeader(title, nodeCount) + TocLines(f.nodes, HierarchicalIds(f, level, maxDepth), ids)
  }

  /** One entry, as the loop of `format_toc` writes it. */
  method TocEntry(f: Forest, ghost level: map<NodeId, nat>, ghost maxDepth: nat, idMap: seq<(string, NodeId)>, id: NodeId)
    returns (line: string)
    requires id in f.nodes
    ensures line == TocLine(f.nodes, idMap, id)
  {
    var depth := DepthOf(f, level, maxDepth, id);
    // `depth_of` is never 0, so the saturating subtraction never saturates
    var indent := Indent(depth as nat - 1);
    var hier := match FindHierarchicalId(idMap, id) case Some(l) => l case None => "?";
    line := indent + hier + ". " + f.nodes[id].title + "\n";
  }

  /** `format_toc` over the records of a book. */
  method FormatTocOf(title: string, nodeCount: nat, f: Forest, ghost level: map<NodeId, nat>, ghost maxDepth: nat, ids: seq<NodeId>)
    returns (output: string)
    requires Ranked(f.nodes, level, maxDepth) && forall k :: k in ids ==> k in f.nodes
    ensures output == TocOf(title, nodeCount, f, level, maxDepth, ids)
  {
    var idMap := BuildHierarchicalIds(f, level, maxDepth);
    var header := "# " + title + " (" + NatToString(nodeCount) + " nodes)\n\n";
    output := header;
    for i := 0 to |ids|
      invariant output == header + TocLines(f.nodes, idMap, ids[..i])
    {
      var line := TocEntry(f, level, maxDepth, idMap, ids[i]);
      assert ids[..i + 1][..i] == ids[..i];
      AppendAssoc(header, TocLines(f.nodes, idMap, ids[..i]), line);
      output := output + line;
    }
    assert ids[..|ids|] == ids;
  }

  /** `format_toc(book, nodes)`: the header counts the book's nodes. */
  method FormatToc(book: TemplateBook, ids: seq<NodeId>) returns (output: string)
    requires book.Valid() && forall k :: k in ids ==> k in book.records
    ensures output == TocOf(book.title, |book.records|, Forest(book.records, book.roots), book.level, book.maxDepth, ids)
  {
    book.SnapshotIsRecords();
    var n := book.NodeCount();
    output := FormatTocOf(book.title, n, Forest(book.Snapshot(), book.roots), book.level, book.maxDepth, ids);
  }

  /** On a well-formed book each entry shows the node's depth as indentation and
      a position label that resolves back to the node. */
  lemma TocLineShowsPosition(f: Forest, level: map<NodeId, nat>, maxDepth: nat, k: NodeId)
    requires WellFormed(f, level, maxDepth) && k in f.nodes
    ensures FindHierarchicalId(HierarchicalIds(f, level, maxDepth), k).Some?
    ensures var l := FindHierarchicalId(HierarchicalIds(f, level, maxDepth), k).value;
            && IsHierarchicalId(l)
            && LookupLabel(HierarchicalIds(f, level, maxDepth), l) == Some(k)
            && TocLine(f.nodes, HierarchicalIds(f, level, maxDepth), k)
               == Indent(Min(level[k], 255) - 1) + l + ". " + f.nodes[k].title + "\n"
  {
    var pairs := HierarchicalIds(f, level, maxDepth);
    EveryNodeLabelled(f, level, maxDepth, k);
    PositionRoundTrip(f, level, maxDepth, FindHierarchicalId(pairs, k).value, k);
    ChainDepthIsLevel(f.nodes, level, maxDepth, k, 254);
  }

  /** The table of contents has one entry per listed node, entry `i` for `ids[i]`:
      cutting it after any entry leaves the entries of the nodes listed so far. */
  lemma {:induction false} TocLinesSplit(nodes: Nodes, pairs: seq<(string, NodeId)>, a: seq<NodeId>, b: seq<NodeId>)
    requires forall k :: k in a + b ==> k in nodes
    ensures TocLines(nodes, pairs, a + b) == TocLines(nodes, pairs, a) + TocLines(nodes, pairs, b)
    decreases |b|
  {
    if b == [] {
      assert a + b == a;
    } else {
      var b0 := b[..|b| - 1];
      assert (a + b)[..|a + b| - 1] == a + b0;
      assert (a + b)[|a + b| - 1] == b[|b| - 1];
      TocLinesSplit(nodes, pairs, a, b0);
      AppendAssoc(TocLines(nodes, pairs, a), TocLines(nodes, pairs, b0), TocLine(nodes, pairs, b[|b| - 1]));
    }
  }
}
