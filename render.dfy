/** The Markdown checklist a book is ejected as: a `# title` heading, then every
    node of the book (or of one subtree) in traversal order, sections as
    headings and content nodes as unchecked boxes, with body lines, optional
    placeholder prompts and a blank line after each node that has children. */
module Render {
  import opened Wrappers
  import opened Seqs
  import opened Node
  import opened Arena
  import opened Book

  // ---------------------------------------------------------------- text helpers

  /** The characters `char::is_whitespace` accepts (the Unicode White_Space property). */
  predicate IsWhitespace(c: char) {
    || ('\t' <= c <= '\r') || c == ' ' || c == '\U{0085}' || c == '\U{00A0}' || c == '\U{1680}'
    || ('\U{2000}' <= c <= '\U{200A}') || c == '\U{2028}' || c == '\U{2029}' || c == '\U{202F}'
    || c == '\U{205F}' || c == '\U{3000}'
  }

  predicate AllWhitespace(s: string) {
    forall i :: 0 <= i < |s| ==> IsWhitespace(s[i])
  }

  /** `str::trim_start`: what is left once the leading whitespace is gone. */
  function TrimStart(s: string): (r: string)
    ensures |r| <= |s| && r == s[|s| - |r|..]
    ensures AllWhitespace(s[..|s| - |r|])
    ensures r == [] || !IsWhitespace(r[0])
  {
    if s != [] && IsWhitespace(s[0]) then
      var r := TrimStart(s[1..]);
      assert s[..|s| - |r|] == [s[0]] + s[1..][..|s[1..]| - |r|];
      r
    else s
  }

  /** The index of the first line feed, or the length when there is none. */
  function LineEnd(s: string): (i: nat)
    ensures i <= |s| && (i < |s| ==> s[i] == '\n')
    ensures forall j :: 0 <= j < i ==> s[j] != '\n'
  {
    if s == [] || s[0] == '\n' then 0 else 1 + LineEnd(s[1..])
  }

  /** Drops one carriage return that ended a line before its line feed. */
  function StripCr(s: string): string {
    if s != [] && s[|s| - 1] == '\r' then s[..|s| - 1] else s
  }

  /** `str::lines`: the text split at each line feed (a carriage return right
      before it is dropped too); a final line feed does not start another line. */
  function Lines(s: string): (r: seq<string>)
    ensures forall i :: 0 <= i < |r| ==> '\n' !in r[i]
    decreases |s|
  {
    if s == [] then []
    else
      var i := LineEnd(s);
      if i == |s| then [s]
      else
        var rest := Lines(s[i + 1..]);
        var r := [StripCr(s[..i])] + rest;
        assert forall j :: 0 < j < |r| ==> r[j] == rest[j - 1];
        r
  }

  /** `"  ".repeat(n)`. */
  function Indent(n: nat): (r: string)
    ensures |r| == 2 * n && forall i :: 0 <= i < |r| ==> r[i] == ' '
  {
    if n == 0 then "" else "  " + Indent(n - 1)
  }

  /** `"#".repeat(n)`. */
  function Hashes(n: nat): (r: string)
    ensures |r| == n && forall i :: 0 <= i < |r| ==> r[i] == '#'
  {
    if n == 0 then "" else "#" + Hashes(n - 1)
  }

  // ---------------------------------------------------------------- list_to_checkbox

  /** `list_to_checkbox`: a body line whose text starts, after its indentation,
      with "- " or "* " becomes an unchecked box at the same indentation. */
  function ListToCheckbox(line: string): (r: string)
    ensures r == line || |r| == |line| + 4
    ensures r != line ==> "- [ ] " <= r[|line| - |TrimStart(line)|..]
  {
    var trimmed := TrimStart(line);
    var leading := line[..|line| - |trimmed|];
    if |trimmed| >= 2 && trimmed[..2] == "- " then leading + "- [ ] " + trimmed[2..]
    else if |trimmed| >= 2 && trimmed[..2] == "* " then leading + "- [ ] " + trimmed[2..]
    else line
  }

  /** A list line keeps its indentation and the rest of its text; only the marker
      is replaced by an unchecked box. */
  lemma ListLineConverted(ws: string, marker: string, rest: string)
    requires AllWhitespace(ws) && (marker == "- " || marker == "* ")
    ensures ListToCheckbox(ws + marker + rest) == ws + "- [ ] " + rest
  {
    var tail := marker + rest;
    AppendAssoc(ws, marker, rest);
    TrimStartPastWhitespace(ws, tail);
    var line := ws + tail;
    assert line[..|ws|] == ws;
    assert tail[..2] == marker;
    assert tail[2..] == rest;
  }

  /** Trimming skips exactly the indentation when the text after it starts with
      a non-whitespace character. */
  lemma {:induction false} TrimStartPastWhitespace(ws: string, x: string)
    requires AllWhitespace(ws) && x != [] && !IsWhitespace(x[0])
    ensures TrimStart(ws + x) == x
  {
    if ws == [] {
      assert ws + x == x;
    } else {
      assert (ws + x)[0] == ws[0];
      assert (ws + x)[1..] == ws[1..] + x;
      TrimStartPastWhitespace(ws[1..], x);
    }
  }

  /** Any line that does not have a list marker right after its indentation is
      left exactly as it was. */
  lemma NonListLineUnchanged(line: string)
    requires forall k :: 0 <= k <= |line| - 2 && AllWhitespace(line[..k]) ==> line[k..k + 2] != "- " && line[k..k + 2] != "* "
    ensures ListToCheckbox(line) == line
  {
    var trimmed := TrimStart(line);
    var k := |line| - |trimmed|;
    if |trimmed| >= 2 {
      assert trimmed[..2] == line[k..k + 2];
    }
  }

  // ---------------------------------------------------------------- the rendered text, as a value

  /** The heading or checkbox line that opens a node's block. */
  function HeadLine(d: NodeData, indentLevel: nat): string {
    match d.nodeType
    case Section => Hashes(Min(indentLevel + 2, 4)) + " " + d.title + "\n\n"
    case Content => Indent(indentLevel) + "- [ ] " + d.title + "\n"
  }

  function BodyLines(lines: seq<string>, indentLevel: nat): string {
    if lines == [] then ""
    else Indent(indentLevel) + "  " + ListToCheckbox(lines[0]) + "\n" + BodyLines(lines[1..], indentLevel)
  }

  function BodyText(d: NodeData, indentLevel: nat): string {
    match d.body
    case None => ""
    case Some(b) => BodyLines(Lines(b), indentLevel)
  }

  function PlaceholderLine(d: NodeData, indentLevel: nat, withPlaceholders: bool): string {
    if withPlaceholders && d.placeholder.Some? then Indent(indentLevel) + "  > " + d.placeholder.value + ": ___\n" else ""
  }

  /** Everything `render_node` writes for the node itself, before its children. */
  function OwnText(d: NodeData, indentLevel: nat, withPlaceholders: bool): string {
    HeadLine(d, indentLevel) + BodyText(d, indentLevel) + PlaceholderLine(d, indentLevel, withPlaceholders)
      + (if d.children == [] then "" else "\n")
  }

  /** The text `render_node` appends for the subtree rooted at `id`. */
  function NodeText(nodes: Nodes, ghost level: map<NodeId, nat>, ghost bound: nat, id: NodeId, indentLevel: nat, withPlaceholders: bool): string
    requires Ranked(nodes, level, bound) && id in nodes
    decreases Rank(nodes, level, bound, id), 0
  {
    ChildrenRankBelow(nodes, level, bound, id, nodes[id].children);
    OwnText(nodes[id], indentLevel, withPlaceholders) + ForestText(nodes, level, bound, nodes[id].children, indentLevel + 1, withPlaceholders)
  }

  /** The texts of the present ids in order; missing ids are skipped. */
  function ForestText(nodes: Nodes, ghost level: map<NodeId, nat>, ghost bound: nat, ids: seq<NodeId>, indentLevel: nat, withPlaceholders: bool): string
    requires Ranked(nodes, level, bound)
    decreases MaxRank(nodes, level, bound, ids), 1, |ids|
  {
    if ids == [] then ""
    else
      (if ids[0] in nodes then NodeText(nodes, level, bound, ids[0], indentLevel, withPlaceholders) else "")
        + ForestText(nodes, level, bound, ids[1..], indentLevel, withPlaceholders)
  }

  /** The document `render_markdown` returns. */
  function MarkdownOf(title: string, f: Forest, ghost level: map<NodeId, nat>, ghost bound: nat, withPlaceholders: bool, subtreeRoot: Option<NodeId>): string
    requires Ranked(f.nodes, level, bound)
  {
    match subtreeRoot
    case Some(r) =>
      if r in f.nodes then "# " + f.nodes[r].title + "\n\n" + ForestText(f.nodes, level, bound, f.nodes[r].children, 0, withPlaceholders)
      else ""
    case None => "# " + title + "\n\n" + ForestText(f.nodes, level, bound, f.roots, 0, withPlaceholders)
  }

  // ---------------------------------------------------------------- the renderer

  /** The first half of `render_node`: the node's own lines, appended to `buf`. */
  method RenderOwn(node: NodeData, indentLevel: nat, withPlaceholders: bool, buf: string) returns (out: string)
    ensures out == buf + OwnText(node, indentLevel, withPlaceholders)
  {
    var indent := Indent(indentLevel);
    out := buf;
    match node.nodeType {
      case Section =>
        var headingLevel := Min(indentLevel + 2, 4);
        out := out + (Hashes(headingLevel) + " " + node.title + "\n\n");
      case Content =>
        out := out + (indent + "- [ ] " + node.title + "\n");
    }
    ghost var head := HeadLine(node, indentLevel);
    assert out == buf + head;
    ghost var afterHead := out;
    if node.body.Some? {
      var lines := Lines(node.body.value);
      for i := 0 to |lines|
        invariant out + BodyLines(lines[i..], indentLevel) == afterHead + BodyLines(lines, indentLevel)
      {
        assert lines[i..][1..] == lines[i + 1..];
        var converted := ListToCheckbox(lines[i]);
        out := out + (indent + "  " + converted + "\n");
      }
    }
    ghost var body := BodyText(node, indentLevel);
    assert out == afterHead + body;
    ghost var afterBody := out;
    if withPlaceholders && node.placeholder.Some? {
      out := out + (indent + "  > " + node.placeholder.value + ": ___\n");
    }
    ghost var placeholder := PlaceholderLine(node, indentLevel, withPlaceholders);
    assert out == afterBody + placeholder;
    ghost var afterPlaceholder := out;
    if node.children != [] {
      out := out + "\n";
    }
    ghost var blank := if node.children == [] then "" else "\n";
    assert out == afterPlaceholder + blank;
    assert OwnText(node, indentLevel, withPlaceholders) == head + body + placeholder + blank;
    AppendAssoc(buf, head, body);
    AppendAssoc(buf, head + body, placeholder);
    AppendAssoc(buf, head + body + placeholder, blank);
  }

  /** `render_node`: appends the node's own lines, then its present children's
      text one level deeper. */
  method RenderNode(nodes: Nodes, ghost level: map<NodeId, nat>, ghost bound: nat, id: NodeId, indentLevel: nat, withPlaceholders: bool, buf: string)
      returns (out: string)
    requires Ranked(nodes, level, bound) && id in nodes
    ensures out == buf + NodeText(nodes, level, bound, id, indentLevel, withPlaceholders)
    decreases Rank(nodes, level, bound, id), 0
  {
    var node := nodes[id];
    out := RenderOwn(node, indentLevel, withPlaceholders, buf);
    ChildrenRankBelow(nodes, level, bound, id, node.children);
    ghost var own := OwnText(node, indentLevel, withPlaceholders);
    ghost var kids := ForestText(nodes, level, bound, node.children, indentLevel + 1, withPlaceholders);
    out := RenderChildren(nodes, level, bound, node.children, indentLevel + 1, withPlaceholders, out);
    AppendAssoc(buf, own, kids);
  }

  /** The loop over a child (or root) list: each present id rendered in order. */
  method RenderChildren(nodes: Nodes, ghost level: map<NodeId, nat>, ghost bound: nat, ids: seq<NodeId>, indentLevel: nat, withPlaceholders: bool, buf: string)
      returns (out: string)
    requires Ranked(nodes, level, bound)
    ensures out == buf + ForestText(nodes, level, bound, ids, indentLevel, withPlaceholders)
    decreases MaxRank(nodes, level, bound, ids), 1
  {
    out := buf;
    for i := 0 to |ids|
      invariant out + ForestText(nodes, level, bound, ids[i..], indentLevel, withPlaceholders)
                == buf + ForestText(nodes, level, bound, ids, indentLevel, withPlaceholders)
    {
      assert ids[i..][1..] == ids[i + 1..];
      if ids[i] in nodes {
        RankBelowMax(nodes, level, bound, ids, i);
        out := RenderNode(nodes, level, bound, ids[i], indentLevel, withPlaceholders, out);
      }
    }
  }

  /** `render_markdown` over the book's records: the title heading, then the
      roots (or the subtree root's children) at indentation 0. */
  method RenderDocument(title: string, f: Forest, ghost level: map<NodeId, nat>, ghost bound: nat, withPlaceholders: bool, subtreeRoot: Option<NodeId>)
      returns (md: string)
    requires Ranked(f.nodes, level, bound)
    ensures md == MarkdownOf(title, f, level, bound, withPlaceholders, subtreeRoot)
  {
    md := "";
    match subtreeRoot {
      case Some(r) =>
        if r in f.nodes {
          md := md + ("# " + f.nodes[r].title + "\n\n");
          md := RenderChildren(f.nodes, level, bound, f.nodes[r].children, 0, withPlaceholders, md);
        }
      case None =>
        md := md + ("# " + title + "\n\n");
        md := RenderChildren(f.nodes, level, bound, f.roots, 0, withPlaceholders, md);
    }
  }

  /** `render_markdown` on a book. */
  method RenderMarkdown(book: TemplateBook, withPlaceholders: bool, subtreeRoot: Option<NodeId>) returns (md: string)
    requires book.Valid()
    ensures md == MarkdownOf(book.title, Forest(book.records, book.roots), book.level, book.maxDepth, withPlaceholders, subtreeRoot)
  {
    book.SnapshotIsRecords();
    md := RenderDocument(book.title, Forest(book.Snapshot(), book.roots), book.level, book.maxDepth, withPlaceholders, subtreeRoot);
  }

  // ---------------------------------------------------------------- what the document holds

  /** The own block of `k`, indented by its level above `base`. */
  function BlockOf(nodes: Nodes, level: map<NodeId, nat>, k: NodeId, base: nat, withPlaceholders: bool): string {
    var indentLevel := if k in level && level[k] >= base then level[k] - base else 0;
    if k in nodes then OwnText(nodes[k], indentLevel, withPlaceholders) else ""
  }

  /** The own blocks of the nodes `ks`, one after another. */
  function Blocks(nodes: Nodes, level: map<NodeId, nat>, ks: seq<NodeId>, base: nat, withPlaceholders: bool): string {
    if ks == [] then ""
    else BlockOf(nodes, level, ks[0], base, withPlaceholders) + Blocks(nodes, level, ks[1..], base, withPlaceholders)
  }

  lemma {:induction false} BlocksConcat(nodes: Nodes, level: map<NodeId, nat>, a: seq<NodeId>, b: seq<NodeId>, base: nat, withPlaceholders: bool)
    ensures Blocks(nodes, level, a + b, base, withPlaceholders)
            == Blocks(nodes, level, a, base, withPlaceholders) + Blocks(nodes, level, b, base, withPlaceholders)
  {
    if a == [] {
      assert a + b == b;
    } else {
      assert (a + b)[0] == a[0];
      assert (a + b)[1..] == a[1..] + b;
      BlocksConcat(nodes, level, a[1..], b, base, withPlaceholders);
      AppendAssoc(BlockOf(nodes, level, a[0], base, withPlaceholders),
             Blocks(nodes, level, a[1..], base, withPlaceholders), Blocks(nodes, level, b, base, withPlaceholders));
    }
  }

  lemma BlocksCons(nodes: Nodes, level: map<NodeId, nat>, k: NodeId, rest: seq<NodeId>, base: nat, withPlaceholders: bool)
    ensures Blocks(nodes, level, [k] + rest, base, withPlaceholders)
            == BlockOf(nodes, level, k, base, withPlaceholders) + Blocks(nodes, level, rest, base, withPlaceholders)
  {
    assert ([k] + rest)[1..] == rest;
  }

  /** The text of a subtree is the own blocks of its nodes in traversal order,
      each indented by how far below the subtree root it sits. */
  lemma {:induction false} SubtreeBlocks(nodes: Nodes, level: map<NodeId, nat>, bound: nat, id: NodeId, indentLevel: nat, base: nat, withPlaceholders: bool)
    requires Ranked(nodes, level, bound) && Stepped(nodes, level) && id in nodes && level[id] == base + indentLevel
    ensures NodeText(nodes, level, bound, id, indentLevel, withPlaceholders)
            == Blocks(nodes, level, SubtreeDfs(nodes, level, bound, id), base, withPlaceholders)
    decreases Rank(nodes, level, bound, id), 0
  {
    var ch := nodes[id].children;
    ChildrenRankBelow(nodes, level, bound, id, ch);
    ForestBlocks(nodes, level, bound, ch, indentLevel + 1, base, withPlaceholders);
    var rest := ForestDfs(nodes, level, bound, ch);
    BlocksCons(nodes, level, id, rest, base, withPlaceholders);
    assert BlockOf(nodes, level, id, base, withPlaceholders) == OwnText(nodes[id], indentLevel, withPlaceholders);
    assert NodeText(nodes, level, bound, id, indentLevel, withPlaceholders)
           == OwnText(nodes[id], indentLevel, withPlaceholders) + ForestText(nodes, level, bound, ch, indentLevel + 1, withPlaceholders);
  }

  lemma {:induction false} ForestBlocks(nodes: Nodes, level: map<NodeId, nat>, bound: nat, ids: seq<NodeId>, indentLevel: nat, base: nat, withPlaceholders: bool)
    requires Ranked(nodes, level, bound) && Stepped(nodes, level)
    requires forall c :: c in ids && c in nodes ==> level[c] == base + indentLevel
    ensures ForestText(nodes, level, bound, ids, indentLevel, withPlaceholders)
            == Blocks(nodes, level, ForestDfs(nodes, level, bound, ids), base, withPlaceholders)
    decreases MaxRank(nodes, level, bound, ids), 1, |ids|
  {
    if ids != [] {
      ForestBlocks(nodes, level, bound, ids[1..], indentLevel, base, withPlaceholders);
      var first := SubtreeDfs(nodes, level, bound, ids[0]);
      if ids[0] in nodes {
        SubtreeBlocks(nodes, level, bound, ids[0], indentLevel, base, withPlaceholders);
      }
      BlocksConcat(nodes, level, first, ForestDfs(nodes, level, bound, ids[1..]), base, withPlaceholders);
    }
  }

  /** The whole document is the title heading followed by the own block of every
      node in traversal order, a node at level `l` indented `l - 1` steps (so a
      section at level `l` gets `min(l + 1, 4)` hashes). */
  lemma DocumentIsPreorder(title: string, f: Forest, level: map<NodeId, nat>, maxDepth: nat, withPlaceholders: bool)
    requires WellFormed(f, level, maxDepth)
    ensures MarkdownOf(title, f, level, maxDepth, withPlaceholders, None)
            == "# " + title + "\n\n" + Blocks(f.nodes, level, AllNodesDfs(f, level, maxDepth), 1, withPlaceholders)
  {
    WellFormedStepped(f, level, maxDepth);
    ForestBlocks(f.nodes, level, maxDepth, f.roots, 0, 1, withPlaceholders);
  }

  /** Rendering a subtree gives its root's title as the heading and then the own
      blocks of the root's descendants in traversal order, the root's children
      unindented; an absent subtree root gives the empty document. */
  lemma SubtreeDocumentIsPreorder(title: string, f: Forest, level: map<NodeId, nat>, maxDepth: nat, withPlaceholders: bool, r: NodeId)
    requires WellFormed(f, level, maxDepth)
    ensures r !in f.nodes ==> MarkdownOf(title, f, level, maxDepth, withPlaceholders, Some(r)) == ""
    ensures r in f.nodes ==>
              MarkdownOf(title, f, level, maxDepth, withPlaceholders, Some(r))
              == "# " + f.nodes[r].title + "\n\n" + Blocks(f.nodes, level, SubtreeDfs(f.nodes, level, maxDepth, r)[1..], level[r] + 1, withPlaceholders)
  {
    if r in f.nodes {
      WellFormedStepped(f, level, maxDepth);
      ForestBlocks(f.nodes, level, maxDepth, f.nodes[r].children, 0, level[r] + 1, withPlaceholders);
    }
  }

  // ---------------------------------------------------------------- what a block holds

  /** A node's block opens with a heading of `min(indentLevel + 2, 4)` hashes
      for a section, and with an indented unchecked box for a content node. */
  lemma BlockOpens(d: NodeData, indentLevel: nat, withPlaceholders: bool)
    ensures d.nodeType == Section ==>
              Hashes(Min(indentLevel + 2, 4)) + " " + d.title + "\n\n" <= OwnText(d, indentLevel, withPlaceholders)
    ensures d.nodeType == Content ==>
              Indent(indentLevel) + "- [ ] " + d.title + "\n" <= OwnText(d, indentLevel, withPlaceholders)
  {
    var head, body := HeadLine(d, indentLevel), BodyText(d, indentLevel);
    var ph, blank := PlaceholderLine(d, indentLevel, withPlaceholders), if d.children == [] then "" else "\n";
    AppendAssoc(head, body, ph);
    AppendAssoc(head, body + ph, blank);
    var rest := body + ph + blank;
    PrefixOfConcat(head, rest);
  }

  lemma PrefixOfConcat(a: string, b: string)
    ensures a <= a + b
  {
  }

  predicate EndsLine(s: string) {
    s != [] && s[|s| - 1] == '\n'
  }

  lemma {:induction false} BodyLinesEndLine(lines: seq<string>, indentLevel: nat)
    ensures BodyLines(lines, indentLevel) == "" || EndsLine(BodyLines(lines, indentLevel))
  {
    if lines != [] {
      BodyLinesEndLine(lines[1..], indentLevel);
    }
  }

  /** A node with children ends its own block with an empty line: the block's
      last line is terminated and one more line feed follows it. */
  lemma NonLeafBlankLine(d: NodeData, indentLevel: nat, withPlaceholders: bool)
    requires d.children != []
    ensures var o := OwnText(d, indentLevel, withPlaceholders); |o| >= 2 && o[|o| - 2..] == "\n\n"
  {
    var x := HeadLine(d, indentLevel) + BodyText(d, indentLevel) + PlaceholderLine(d, indentLevel, withPlaceholders);
    OwnLinesEnd(d, indentLevel, withPlaceholders);
    assert OwnText(d, indentLevel, withPlaceholders) == x + "\n";
    BlankAfter(x);
  }

  /** Heading, body and placeholder together end with a line feed. */
  lemma OwnLinesEnd(d: NodeData, indentLevel: nat, withPlaceholders: bool)
    ensures EndsLine(HeadLine(d, indentLevel) + BodyText(d, indentLevel) + PlaceholderLine(d, indentLevel, withPlaceholders))
  {
    var head := HeadLine(d, indentLevel);
    var body := BodyText(d, indentLevel);
    if d.body.Some? {
      BodyLinesEndLine(Lines(d.body.value), indentLevel);
    }
    HeadLineEnds(d, indentLevel);
    PlaceholderLineEnds(d, indentLevel, withPlaceholders);
    EndsLineAppend(head, body);
    EndsLineAppend(head + body, PlaceholderLine(d, indentLevel, withPlaceholders));
  }

  lemma BlankAfter(x: string)
    requires EndsLine(x)
    ensures |x + "\n"| >= 2 && (x + "\n")[|x + "\n"| - 2..] == "\n\n"
  {
    assert (x + "\n")[|x| - 1..] == [x[|x| - 1], '\n'];
  }

  lemma EndsLineAppend(a: string, b: string)
    requires EndsLine(a) && (b == "" || EndsLine(b))
    ensures EndsLine(a + b)
  {
    if b == "" {
      assert a + b == a;
    } else {
      assert (a + b)[|a + b| - 1] == b[|b| - 1];
    }
  }

  lemma HeadLineEnds(d: NodeData, indentLevel: nat)
    ensures EndsLine(HeadLine(d, indentLevel))
  {
  }

  lemma PlaceholderLineEnds(d: NodeData, indentLevel: nat, withPlaceholders: bool)
    ensures PlaceholderLine(d, indentLevel, withPlaceholders) == "" || EndsLine(PlaceholderLine(d, indentLevel, withPlaceholders))
  {
  }

  /** The book with every placeholder removed. */
  function ErasePlaceholders(nodes: Nodes): (r: Nodes)
    ensures r.Keys == nodes.Keys
    ensures forall k :: k in nodes ==> r[k] == nodes[k].(placeholder := None)
  {
    map k | k in nodes :: nodes[k].(placeholder := None)
  }

  lemma {:induction false} EraseRanked(nodes: Nodes, level: map<NodeId, nat>, bound: nat)
    requires Ranked(nodes, level, bound)
    ensures Ranked(ErasePlaceholders(nodes), level, bound)
    ensures forall ids :: MaxRank(ErasePlaceholders(nodes), level, bound, ids) == MaxRank(nodes, level, bound, ids)
  {
    var e := ErasePlaceholders(nodes);
    forall k, c | k in e && c in e[k].children && c in e
      ensures level[k] < level[c]
    {
      assert c in nodes[k].children;
    }
    forall ids ensures MaxRank(e, level, bound, ids) == MaxRank(nodes, level, bound, ids) {
      EraseMaxRank(nodes, level, bound, ids);
    }
  }

  lemma {:induction false} EraseMaxRank(nodes: Nodes, level: map<NodeId, nat>, bound: nat, ids: seq<NodeId>)
    requires Ranked(nodes, level, bound) && Ranked(ErasePlaceholders(nodes), level, bound)
    ensures MaxRank(ErasePlaceholders(nodes), level, bound, ids) == MaxRank(nodes, level, bound, ids)
  {
    if ids != [] {
      EraseMaxRank(nodes, level, bound, ids[1..]);
    }
  }

  /** Without placeholders the text of a subtree is the text, with placeholders,
      of the same subtree stripped of them: no placeholder line is written. */
  lemma {:induction false} NodeTextErase(nodes: Nodes, level: map<NodeId, nat>, bound: nat, id: NodeId, indentLevel: nat)
    requires Ranked(nodes, level, bound) && Ranked(ErasePlaceholders(nodes), level, bound) && id in nodes
    ensures NodeText(nodes, level, bound, id, indentLevel, false)
            == NodeText(ErasePlaceholders(nodes), level, bound, id, indentLevel, true)
    decreases Rank(nodes, level, bound, id), 0
  {
    var e := ErasePlaceholders(nodes);
    ChildrenRankBelow(nodes, level, bound, id, nodes[id].children);
    ForestTextErase(nodes, level, bound, nodes[id].children, indentLevel + 1);
    assert OwnText(nodes[id], indentLevel, false) == OwnText(e[id], indentLevel, true);
  }

  lemma {:induction false} ForestTextErase(nodes: Nodes, level: map<NodeId, nat>, bound: nat, ids: seq<NodeId>, indentLevel: nat)
    requires Ranked(nodes, level, bound) && Ranked(ErasePlaceholders(nodes), level, bound)
    ensures ForestText(nodes, level, bound, ids, indentLevel, false)
            == ForestText(ErasePlaceholders(nodes), level, bound, ids, indentLevel, true)
    decreases MaxRank(nodes, level, bound, ids), 1, |ids|
  {
    if ids != [] {
      ForestTextErase(nodes, level, bound, ids[1..], indentLevel);
      if ids[0] in nodes {
        NodeTextErase(nodes, level, bound, ids[0], indentLevel);
      }
    }
  }

  /** `include_placeholders == false` renders the document the book would give
      with placeholders shown if it had none; titles, bodies and structure are untouched. */
  lemma PlaceholdersOnlyWhenIncluded(title: string, f: Forest, level: map<NodeId, nat>, bound: nat, subtreeRoot: Option<NodeId>)
    requires Ranked(f.nodes, level, bound)
    ensures Ranked(ErasePlaceholders(f.nodes), level, bound)
    ensures MarkdownOf(title, f, level, bound, false, subtreeRoot)
            == MarkdownOf(title, Forest(ErasePlaceholders(f.nodes), f.roots), level, bound, true, subtreeRoot)
  {
    EraseRanked(f.nodes, level, bound);
    var e := ErasePlaceholders(f.nodes);
    match subtreeRoot {
      case Some(r) =>
        if r in f.nodes {
          ForestTextErase(f.nodes, level, bound, f.nodes[r].children, 0);
          assert e[r].children == f.nodes[r].children;
        }
      case None =>
        ForestTextErase(f.nodes, level, bound, f.roots, 0);
    }
  }
}
