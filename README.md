# outline-mcp core in Dafny

This project models the outline aggregate of outline-mcp and the algorithms built on it. Each piece is proved against a specification.

- **The tree aggregate** (`TemplateBook`, `TemplateNode`). The book is an arena: a map from node id to node, plus an ordered list of roots. Parent and child links are plain ids.
  - `Book.TemplateBook` is a class. Its fields are the id-to-object map and the root list. Alongside them it keeps two ghost fields: the records the objects hold, and a depth map.
  - `Valid()` says three things. The objects are distinct and carry their own ids. Parent and child links agree, and a node is a root exactly when it has no parent. No link dangles, and every node has a depth from 1 to `max_depth`, one more than its parent's. That depth map is the witness of acyclicity.
  - Every mutation either fails before changing anything or keeps `Valid()`. Its new state is stated as a function of the old one (`Arena.AddNodeValue`, `Arena.MoveValue`, `Arena.RemoveValue`, `Book.Updated`).
  - `Node.TemplateNode` is a class whose setters and child-list edits are methods.
- **The traversals**: depth, ancestor test, preorder walks, descendant collection and subtree depth. They are recursive functions over the arena. A ghost rank bounds their recursion.
- **The tree codec**:
  - the JSON tree export (`build_tree`) and its import, which remaps the old type tags and stops at nesting level 32;
  - the Markdown checklist renderer (`render_markdown`, `render_node`, `list_to_checkbox`).
- **The helpers of the MCP interface**:
  - position labels such as `2-1-3` (`is_hierarchical_id`, `build_hierarchical_ids`, `find_hierarchical_id`);
  - the precedence of `resolve_id`;
  - `format_toc`;
  - the slug and filename validators, the filename sanitiser, `parse_node_type` and `resolve_book_ref`.

Modules follow the source:

| module | contents |
|---|---|
| `Wrappers` | Option, Result, Outcome |
| `Seqs` | clamped insert and remove-all on sequences |
| `Node` | `node.rs` |
| `Arena` | the arena value, its well-formedness, the traversals, and the add/move/remove steps over values |
| `Book` | `book.rs`: `depth_of`, `validate_move` and the `TemplateBook` class |
| `Decimal` | the decimal display of numbers and `usize` parsing |
| `Eject` | `build_tree` and `import_tree` |
| `Render` | `render_markdown` |
| `Positions` | position labels, `resolve_id` and `format_toc` |
| `Names` | the validators, the sanitiser, `parse_node_type` and `resolve_book_ref` |

## Model

| member | source | states |
|---|---|---|
| Node.NewNodeData | src/domain/model/node.rs:28-43 | a new node keeps the given id, parent, title and type, and has no children, no body and no placeholder |
| Node.TemplateNode.constructor | src/domain/model/node.rs:28-43 | the new object holds exactly that new-node value |
| Node.TemplateNode.IsLeaf | src/domain/model/node.rs:73-75 | true exactly when no id is in the children list |
| Node.TemplateNode.SetTitle | src/domain/model/node.rs:79-81 | the title becomes the argument and no other field changes |
| Node.TemplateNode.SetBody | src/domain/model/node.rs:83-85 | the body becomes the argument (None clears it) and no other field changes |
| Node.TemplateNode.SetNodeType | src/domain/model/node.rs:87-89 | the type becomes the argument and no other field changes |
| Node.TemplateNode.SetPlaceholder | src/domain/model/node.rs:91-93 | the placeholder becomes the argument and no other field changes |
| Node.TemplateNode.SetParent | src/domain/model/node.rs:95-97 | the parent becomes the argument and no other field changes |
| Node.TemplateNode.AddChild | src/domain/model/node.rs:99-102 | the children become the clamped insertion of the child; no other field changes |
| Node.TemplateNode.RemoveChild | src/domain/model/node.rs:104-106 | the children lose every occurrence of the child; no other field changes |
| Node.AddThenRemoveChild | src/domain/model/node.rs:99-106 | removing a child just inserted at any position restores the original list |
| Seqs.Insert | src/domain/model/node.rs:99-102 | the element lands at index min(position, length); the elements before and after it keep their order; the length grows by one |
| Seqs.Without | src/domain/model/node.rs:104-106 | every occurrence of the element goes, all other elements stay with their multiplicities |
| Seqs.WithoutAbsent | src/domain/model/node.rs:104-106 | removing an element that is not there changes nothing |
| Seqs.WithoutSplice | src/domain/model/node.rs:104-106 | removing the only occurrence of x from a + [x] + b gives a + b, so the rest keep their order |
| Seqs.InsertNoDup | src/domain/model/book.rs:95-114 | inserting a new id into a duplicate-free list keeps it duplicate-free |
| Seqs.WithoutNoDup | src/domain/model/book.rs:165-181 | removing an id keeps a duplicate-free list duplicate-free |
| Arena.LinkedRanked | src/domain/model/book.rs:339-346 | in a linked arena with a depth map every child is deeper than its parent, so the recursive walks terminate |
| Arena.SubtreeDfs | src/domain/model/book.rs:339-346 | the walk is empty exactly when the start id is missing, and otherwise starts with it |
| Arena.ForestDfs | src/domain/model/book.rs:205-211 | the walk lists only ids present in the map, because missing ids are skipped |
| Arena.AllNodesDfs | src/domain/model/book.rs:205-211 | the preorder of the whole book lists only present ids |
| Arena.AllNodesDfsExact | src/domain/model/book.rs:205-211 | on a valid book the preorder has no repeats, lists exactly the book's nodes, and has length `node_count` |
| Arena.ForestMember | src/domain/model/book.rs:205-211 | an id is in the walk of a root list iff it is in the walk of one of those roots |
| Arena.DfsSound | src/domain/model/book.rs:339-346 | every id a subtree walk lists is a present node below the start |
| Arena.DfsComplete | src/domain/model/book.rs:339-346 | every present node below the start is listed |
| Arena.SubtreeMembers | src/domain/model/book.rs:193-197 | `subtree_nodes` lists exactly the present nodes below the root, the root included |
| Arena.SubtreeNoDup | src/domain/model/book.rs:193-197 | on a valid book a subtree walk has no repeats |
| Arena.ForestNoDup | src/domain/model/book.rs:205-211 | the walk of distinct roots at one depth has no repeats |
| Arena.Descendants | src/domain/model/book.rs:328-337 | `collect_descendants` is empty for a missing id, and lists every child of a present node |
| Arena.DescendantsAreDfsTail | src/domain/model/book.rs:328-346 | `collect_descendants` of a present node is its subtree walk without the node itself |
| Arena.DescendantsOfAllAreForestDfs | src/domain/model/book.rs:328-337 | for present ids the descendant collection equals the preorder walk |
| Arena.RootAncestor | src/domain/model/book.rs:214-225 | on a valid book every node lies below some root |
| Arena.UniqueAncestor | src/domain/model/book.rs:305-314 | a node has at most one ancestor at each depth |
| Arena.AddPreservesWf | src/domain/model/book.rs:95-114 | adding a fresh id under a present parent within `max_depth` keeps the arena valid; the new node's depth is its parent's plus one (1 for a root) |
| Arena.AddKeepsRecords | src/domain/model/book.rs:95-114 | the add creates exactly the new id, with the requested parent and no children; other nodes keep their fields, and only the parent's child list changes |
| Arena.AddKeepsRoots | src/domain/model/book.rs:110-113 | after the add the root list still holds exactly the parentless nodes |
| Arena.AddKeepsChildren | src/domain/model/book.rs:103-109 | after the add, child lists and parent fields still agree |
| Arena.DetachRecords | src/domain/model/book.rs:257-276 | detaching removes the id from its old parent's children, or from the roots, and changes nothing else |
| Arena.AttachRecords | src/domain/model/book.rs:278-303 | attaching sets the parent field and inserts the id at the clamped position in the new parent's children, or in the roots |
| Arena.MoveRecords | src/domain/model/book.rs:143-153 | a move keeps the same set of nodes; only the moved node's parent and the old and new parents' child lists (or the roots) change |
| Arena.MovePreservesWf | src/domain/model/book.rs:229-303 | a move whose new parent lies outside the moved subtree and whose shifted subtree fits under `max_depth` keeps the arena valid; the subtree's depths shift by the same amount |
| Arena.MoveKeepsLevels | src/domain/model/book.rs:229-255 | the shifted depth map is the exact depth map of the moved arena |
| Arena.SubtreeSetClosed | src/domain/model/book.rs:328-337 | the subtree set holds the root, is closed under children, and every other member's parent is inside; the root's parent is outside |
| Arena.RemoveRecords | src/domain/model/book.rs:156-190 | removal keeps exactly the nodes outside the subtree; the id leaves the roots or its parent's children; nothing else changes |
| Arena.RemovePreservesWf | src/domain/model/book.rs:156-190 | removing a node with its whole subtree keeps the arena valid |
| Arena.RemoveKeepsChildren | src/domain/model/book.rs:165-187 | after removal no surviving child list names a removed node |
| Arena.SubtreeSetIsDescendants | src/domain/model/book.rs:162 | the removed set is the node plus its collected descendants, which have no repeats, so it has 1 + |descendants| members |
| Arena.RemoveCount | src/domain/model/book.rs:156-190 | removal lowers the node count by 1 + |descendants| |
| Arena.SameLinksPreservesWf | src/domain/model/book.rs:120-140 | changing fields other than the links keeps the arena valid |
| Arena.SelfMoveBreaksWf | src/domain/model/book.rs:237 | carrying out a move of x under x makes x its own parent, and no depth map makes that arena valid |
| Arena.AddedLeafAlone | src/domain/model/book.rs:95-114 | a node just added has no descendants |
| Arena.AddThenRemoveValue | tests/property.rs:71-89 | removing a node just added restores the arena exactly |
| Arena.AddThenRemoveRestores | tests/property.rs:71-89 | on a valid book an add followed by a remove of the new node restores the arena, and so its node count |
| Book.ChainDepth | src/domain/model/book.rs:214-225 | the capped climb returns at least 1 and at most the cap plus one, on any map |
| Book.ChainDepthIsLevel | src/domain/model/book.rs:214-225 | on a linked arena the capped climb is the node's depth, capped |
| Book.DepthOf | src/domain/model/book.rs:214-225 | the loop computes the climb capped at 255; that is the node's depth when the book is valid, and 1 for a missing id |
| Book.IsDescendantOf | src/domain/model/book.rs:305-314 | true iff the node is present, differs from the ancestor, and lies below it |
| Book.DeepestDepth | src/domain/model/book.rs:316-326 | the fold returns a depth from 1 to 255 |
| Book.SubtreeMaxIsDeepest | src/domain/model/book.rs:316-326 | on a valid book the fold is the greatest depth in the subtree: every member is at most that deep and one reaches it |
| Book.SubtreeMaxDepth | src/domain/model/book.rs:316-326 | the loop computes that fold; it is 1 for a missing root and the deepest depth in the subtree otherwise |
| Book.MoveCheckPassSuffices | src/domain/model/book.rs:229-255 | the move check passes iff the node is present, the new parent is present and outside the moved subtree, and every shifted depth fits under `max_depth` |
| Book.DepthVerdict | src/domain/model/book.rs:240-248 | comparing base + (subtree max − own depth) with `max_depth` is the same as asking whether some subtree node would end too deep |
| Book.MoveCheck | src/domain/model/book.rs:229-255 | the corrected check (see Findings): a pass means both ids are present and the new parent is not the node itself; a move under itself fails as a cycle |
| Book.ValidateMove | src/domain/model/book.rs:229-255 | the method returns the corrected move check's verdict (see Findings), with missing node, missing parent, cycle and depth tested in the source's order |
| Book.SaturatingAdd | src/domain/model/book.rs:244-248 | `u8` saturating addition never falls below either operand: it is the exact sum, or 255 |
| Book.SaturatingSub | src/domain/model/book.rs:247 | `u8` saturating subtraction never exceeds the first operand: it is the exact difference, or 0 |
| Book.MoveCheckAsWritten | src/domain/model/book.rs:229-255 | the check as written: a pass means both ids are present; a new parent strictly below the node fails as a cycle |
| Book.ChildDepth | src/domain/model/book.rs:83-86 | the depth for a new node is its parent's depth plus one, or 1 for a root |
| Book.AddDepthAsWritten | src/domain/model/book.rs:83-86 | as written, a root gets depth 1 (see Findings) |
| Book.SelfMoveAcceptedAsWritten | src/domain/model/book.rs:229-255 | the check as written passes a move of x under x when depth allows it; the corrected check refuses it as a cycle, and the move would make x its own parent |
| Book.MoveSaturationAsWritten | src/domain/model/book.rs:240-248 | with `max_depth` 255, a leaf moved under a node at depth 255 passes the saturating check as written, and the corrected check refuses it |
| Book.AddWrapAsWritten | src/domain/model/book.rs:83-86 | with `max_depth` 255, a parent at depth 255 makes the `u8` sum wrap to 0, although the true depth is 256 |
| Book.NewNode | src/domain/model/book.rs:95-97 | a fresh node object with the new id, the requested fields and no children |
| Book.Updated | src/domain/model/book.rs:120-140 | exactly the fields given as Some change (Some(None) clears body or placeholder); id, parent and children stay |
| Book.EmptyUpdateIsIdentity | src/domain/model/book.rs:120-140 | an update with every field None changes nothing |
| Book.UpdateFields | src/domain/model/book.rs:126-137 | the node object's value becomes the updated record |
| Book.UpdatePreservesWf | src/domain/model/book.rs:120-140 | an update keeps the arena valid |
| Book.RemovedRecords | src/domain/model/book.rs:184-187 | deleting the node and then each collected descendant leaves exactly the nodes outside its subtree |
| Book.TemplateBook.constructor | src/domain/model/book.rs:39-47 | an empty valid book with the given id, title and `max_depth` |
| Book.TemplateBook.GetNode | src/domain/model/book.rs:65-67 | Some exactly for a present id, and the object carries that id and its record |
| Book.TemplateBook.NodeCount | src/domain/model/book.rs:69-71 | the number of nodes, which is also the length of the preorder walk |
| Book.TemplateBook.AddRoot | src/domain/model/book.rs:110-113 | the root list gets the id at the clamped position |
| Book.TemplateBook.LinkChild | src/domain/model/book.rs:103-109 | only the parent's record changes, by a clamped insertion into its children |
| Book.TemplateBook.UnlinkChild | src/domain/model/book.rs:168-175 | only the parent's record changes, by removal of the child |
| Book.TemplateBook.InsertNode | src/domain/model/book.rs:95-114 | the book afterwards is the value-level add of the old book; the map gains one fresh object |
| Book.TemplateBook.ValidAfterAdd | src/domain/model/book.rs:95-114 | the class invariant holds after an add that passed its checks |
| Book.TemplateBook.AddNode | src/domain/model/book.rs:74-117 | a missing parent gives NodeNotFound and a too-deep node gives MaxDepthExceeded, both before any change; on success the new id is returned, the book is the value-level add and the count grows by one; validity is kept |
| Book.TemplateBook.ApplyUpdate | src/domain/model/book.rs:126-137 | only the named node's record changes, to its updated value |
| Book.TemplateBook.UpdateNode | src/domain/model/book.rs:120-140 | a missing id gives NodeNotFound and nothing changes; otherwise only that node's requested fields change; validity is kept |
| Book.TemplateBook.ValidAfterUpdate | src/domain/model/book.rs:120-140 | the class invariant holds after an update |
| Book.TemplateBook.DetachFromParent | src/domain/model/book.rs:257-276 | a missing node or parent gives NodeNotFound and nothing changes; otherwise the book becomes the value-level detach |
| Book.TemplateBook.AttachToParent | src/domain/model/book.rs:278-303 | a missing node gives NodeNotFound; a missing new parent gives NodeNotFound after the parent field was already set; otherwise the book becomes the value-level attach |
| Book.TemplateBook.CommitMove | src/domain/model/book.rs:150-151 | detach then attach yields the value-level move |
| Book.TemplateBook.ValidAfterMove | src/domain/model/book.rs:143-153 | the class invariant holds after a move that passed the check |
| Book.TemplateBook.MoveNode | src/domain/model/book.rs:143-153 | returns the move check's verdict; on failure nothing changes; on success the book is the value-level move with shifted depths, and validity is kept |
| Book.TemplateBook.ApplyMove | src/domain/model/book.rs:150-151 | after a passed check the move yields the value-level move and keeps validity |
| Book.TemplateBook.DropAll | src/domain/model/book.rs:185-187 | the listed ids, and only they, leave the map |
| Book.TemplateBook.CommitRemove | src/domain/model/book.rs:162-187 | the roots are those of the detached book, and the map is the detached map without the node and its descendants |
| Book.TemplateBook.ValidAfterRemove | src/domain/model/book.rs:156-190 | after removal the book is the value-level removal, smaller by 1 + |descendants|, and valid |
| Book.TemplateBook.RemoveNode | src/domain/model/book.rs:156-190 | a missing id gives NodeNotFound and nothing changes; otherwise the node and all its descendants go, the count drops by 1 + |descendants|, and validity is kept |
| Decimal.NatToString | src/interface/mcp.rs:991 | decimal text is a non-empty digit string without a leading zero |
| Decimal.NatToStringValue | src/interface/mcp.rs:991 | reading the digits back gives the number |
| Decimal.NatToStringInjective | src/interface/mcp.rs:991 | different numbers get different text |
| Decimal.ParseUsize | src/interface/mcp.rs:114 | a parsed value fits in `usize` |
| Decimal.ParseDisplayed | src/interface/mcp.rs:114 | parsing the decimal text of a number that fits in `usize` gives that number |
| Decimal.ParseRejectsNonDigits | src/interface/mcp.rs:114 | text with a non-digit (other than a leading '+') does not parse |
| Eject.ParseImportTag | src/application/eject.rs:169-175 | "section" gives Section; "content", "checklist", "reference" and "runnable" give Content; any other tag fails with that tag |
| Eject.TagRoundTrip | src/application/eject.rs:130-133 | importing the tag that export writes gives the type back |
| Eject.BuildAll | src/application/eject.rs:110-113 | export yields at most one tree per listed id |
| Eject.BuildAllKeepsAll | src/application/eject.rs:122-128 | when every listed id is present, none is skipped |
| Eject.BuildTreeOf | src/application/eject.rs:93-120 | the whole book exports its title and root trees; a present subtree root exports its own title and child trees; a missing one exports the book title and no trees; `max_depth` is copied |
| Eject.BuildTree | src/application/eject.rs:93-120 | the book method is that value-level export of its contents |
| Eject.BuildNodePreorder | src/application/eject.rs:122-143 | the exported tree, read in preorder, carries the subtree walk's ids, titles, type tags, bodies and placeholders, entry by entry |
| Eject.BuildAllPreorder | src/application/eject.rs:110-113 | the exported trees, read in preorder, carry the same fields of the walk of their roots, entry by entry |
| Eject.ExportIsTraversal | src/application/eject.rs:93-143 | exporting a valid book gives, in preorder, one entry per node of its walk with that node's fields, and the tree size is the node count |
| Eject.BuildNodeTags | src/application/eject.rs:130-133 | every exported tag is accepted by import |
| Eject.BuildNodeHeight | src/application/eject.rs:122-143 | an exported tree is no taller than the room left under any bound on the book's depths |
| Eject.BuildNodeDepths | src/application/eject.rs:122-143 | the n-th entry of an exported tree, in preorder, sits as deep in the tree as the n-th node of the walk sits in the book |
| Eject.BuildAllDepths | src/application/eject.rs:110-113 | the same for the exported trees of a root list |
| Eject.AddToStage | src/application/eject.rs:177-184 | one import step adds one fresh id under the requested parent, at the end of its siblings, with the parent's depth plus one; its record is the tree entry's title, body and placeholder with the parsed type and no children |
| Eject.ImportNode | src/application/eject.rs:157-191 | a successful import of one tree adds exactly its size of fresh ids, and one root at top level |
| Eject.ImportAll | src/application/eject.rs:186-188 | a successful import of a list adds its total size of fresh ids, and one root per top-level tree |
| Eject.ImportTreeValue | src/application/eject.rs:149-155 | a successful import has as many nodes as the tree and as many roots as top-level trees |
| Eject.ImportNodeOk | src/application/eject.rs:157-191 | importing a tree succeeds iff every tag is accepted and its height fits both under the nesting ceiling 32 and under `max_depth` |
| Eject.ImportAllOk | src/application/eject.rs:151-153 | the same for a list of trees |
| Eject.ImportTreeOk | src/application/eject.rs:149-155 | `import_tree` succeeds iff every tag is accepted and the forest's height is at most 32 and at most `max_depth` |
| Eject.CeilingNode | src/application/eject.rs:163-167 | with `max_depth` at least 32, a tree too deep for the ceiling fails with the nesting message |
| Eject.CeilingAll | src/application/eject.rs:163-167 | the same for a list of trees |
| Eject.CeilingLooksLikeBadTag | src/application/eject.rs:163-174 | the ceiling error is the same value as the error for a node whose tag is the nesting message |
| Eject.DeepChainRefused | src/application/eject.rs:147 | a chain more than 32 deep is refused even when `max_depth` would allow it |
| Eject.ImportNodePlaces | src/application/eject.rs:157-191 | a successful import of one tree creates its root record under the requested parent with the entry's fields, children listed in order, and so on down the tree; the parent gains exactly the new id at the end |
| Eject.ImportAllPlaces | src/application/eject.rs:186-188 | the same for a list of trees: the parent (or the root list) gains one new id per tree, in order, and no older record changes |
| Eject.ImportNodeWf | src/application/eject.rs:157-191 | a successful import step keeps the arena valid |
| Eject.ImportAllWf | src/application/eject.rs:186-188 | importing a list of trees keeps the arena valid |
| Eject.PlacedDfs | src/application/eject.rs:177-188 | the walk of an imported tree lists its new ids in the order they were handed out |
| Eject.PlacedAllDfs | src/application/eject.rs:186-188 | the same for imported trees one after another |
| Eject.PlacedCopies | src/application/eject.rs:177-184 | the n-th node of an imported tree's walk holds the n-th entry's title, body, placeholder and parsed type |
| Eject.PlacedAllCopies | src/application/eject.rs:186-188 | the same for a list of trees |
| Eject.PlacedDepths | src/application/eject.rs:177-184 | the n-th node of an imported tree's walk sits as deep in the book as the n-th entry sits in the tree, below the parent |
| Eject.PlacedAllDepths | src/application/eject.rs:186-188 | the same for a list of trees |
| Eject.ImportTreeContents | src/application/eject.rs:149-155 | a successful `import_tree` builds a valid book whose walk is the fresh ids in order, with each node holding its tree entry's fields at that entry's depth |
| Eject.ExportImportRoundTrip | src/application/eject.rs:389-409 | importing the export of a valid book no deeper than 32 succeeds and keeps the title and `max_depth`; the new book is valid, has the same node and root counts, and its walk matches the old one position by position: same title, type, body, placeholder and depth |
| Eject.ImportTrees | src/application/eject.rs:186-188 | the loop imports the trees in order, stops at the first error, and leaves the book equal to the value-level import |
| Eject.ImportTreeNode | src/application/eject.rs:157-191 | the method checks the ceiling, then the tag, then adds the node and its children, matching the value-level import step by step |
| Eject.AddToBook | src/application/eject.rs:177-184 | the `add_node` call of import: MaxDepthExceeded when too deep, otherwise one value-level import step |
| Eject.AddSubtree | src/application/eject.rs:177-188 | adding the node and then its children matches the value-level import of that tree |
| Eject.ImportTree | src/application/eject.rs:149-155 | on success a fresh valid book holding the value-level import with the tree's title and `max_depth`; otherwise the same error |
| Render.TrimStart | src/application/eject.rs:217 | the result is a suffix; the dropped prefix is whitespace, and the result does not start with whitespace |
| Render.Lines | src/application/eject.rs:250 | no line contains a newline |
| Render.Indent | src/application/eject.rs:236 | 2·n spaces |
| Render.Hashes | src/application/eject.rs:241 | n hash signs |
| Render.ListToCheckbox | src/application/eject.rs:216-227 | a line comes back unchanged, or four characters longer with "- [ ] " right after its leading whitespace |
| Render.ListLineConverted | src/application/eject.rs:216-223 | a line of leading whitespace, "- " or "* ", and a rest becomes the same whitespace + "- [ ] " + the rest |
| Render.NonListLineUnchanged | src/application/eject.rs:224-226 | a line whose first non-space text is not a list marker is returned unchanged |
| Render.RenderOwn | src/application/eject.rs:236-264 | appends the node's heading, body, placeholder and blank lines |
| Render.RenderNode | src/application/eject.rs:229-271 | appends the node's own lines followed by its present children's, one level deeper |
| Render.RenderChildren | src/application/eject.rs:266-270 | appends each present child's text in list order, skipping missing ids |
| Render.RenderDocument | src/application/eject.rs:52-81 | builds the document: "# title", then the roots, or the chosen node's children; empty for a missing subtree root |
| Render.RenderMarkdown | src/application/eject.rs:52-81 | the book method renders its own contents that way |
| Render.SubtreeBlocks | src/application/eject.rs:229-271 | a node's text is its subtree's nodes' own blocks in preorder, each indented by its depth |
| Render.DocumentIsPreorder | src/application/eject.rs:57-78 | the document of a valid book is "# title\n\n" followed by every node's block in preorder, indented by depth − 1 |
| Render.SubtreeDocumentIsPreorder | src/application/eject.rs:59-69 | a subtree document is "# root title\n\n" followed by the root's descendants' blocks in preorder; empty for a missing root |
| Render.BlockOpens | src/application/eject.rs:238-247 | a Section opens with min(level+2, 4) hashes and its title; a Content node opens with indent + "- [ ] " + title |
| Render.NonLeafBlankLine | src/application/eject.rs:262-264 | a node with children ends its own block with a blank line |
| Render.PlaceholdersOnlyWhenIncluded | src/application/eject.rs:256-260 | rendering without placeholders is rendering the same book with every placeholder erased |
| Positions.IsHierarchicalId | src/interface/mcp.rs:981-985 | a position is non-empty and made only of ASCII digits and '-' |
| Positions.Split | src/interface/mcp.rs:983 | splitting yields at least one segment |
| Positions.NumeralIsHierarchical | src/interface/mcp.rs:991 | the label of a root, a plain number, is a position |
| Positions.ExtendIsHierarchical | src/interface/mcp.rs:1005 | a position followed by "-" and a number is a position |
| Positions.HierarchicalIdAccepted | src/interface/mcp.rs:1133-1139 | "1", "2-3" and "1-2-1" are positions |
| Positions.HierarchicalIdAcceptedTens | src/interface/mcp.rs:981-985 | "10-20-30" is a position |
| Positions.TrailingDashRejected | src/interface/mcp.rs:981-985 | no text ending in "-" is a position |
| Positions.LeadingDashRejected | src/interface/mcp.rs:981-985 | no text starting with "-" is a position |
| Positions.NonDigitsRejected | src/interface/mcp.rs:981-985 | a dash-free text with a non-digit is not a position |
| Positions.HierarchicalIdRejected | src/interface/mcp.rs:1141-1148 | "", "abc", "1-", "-1" and "a1b2c3d4" are not positions |
| Positions.DoubleDashRejected | src/interface/mcp.rs:981-985 | "1--2" is not a position |
| Positions.CollectChildrenIds | src/interface/mcp.rs:998-1011 | appends the labels below a node: child j of label p gets "p-j", followed by its own labels; children are labelled even when their record is missing |
| Positions.BuildHierarchicalIds | src/interface/mcp.rs:988-996 | root i gets label "i" followed by the labels below it, in order |
| Positions.SiblingLabelIds | src/interface/mcp.rs:998-1011 | the id column of the numbering equals the descendant collection of `book.rs`, on any arena |
| Positions.ChildLabelIds | src/interface/mcp.rs:998-1011 | the labels below a node name exactly its collected descendants, in order |
| Positions.HierarchicalIdsArePreorder | src/interface/mcp.rs:988-1011 | on a valid book the id column equals the preorder walk, has no repeats, and names exactly the book's nodes |
| Positions.HierarchicalIdsDistinct | src/interface/mcp.rs:988-1011 | all labels are distinct and every one is a position |
| Positions.LookupLabel | src/interface/mcp.rs:148 | None iff no pair carries the label; otherwise the pair found is in the list |
| Positions.FindHierarchicalId | src/interface/mcp.rs:1014-1019 | None iff the id occurs in no pair; otherwise the pair found is in the list |
| Positions.LookupLabelAt | src/interface/mcp.rs:148 | with distinct labels, looking up a pair's label finds its id |
| Positions.FindHierarchicalIdAt | src/interface/mcp.rs:1014-1019 | with distinct ids, looking up a pair's id finds its label |
| Positions.PositionRoundTrip | src/interface/mcp.rs:143-155 | on a valid book a label leads to a node iff that node's label is that label |
| Positions.EveryNodeLabelled | src/interface/mcp.rs:1014-1019 | on a valid book every node has a label, and it is a position |
| Positions.ToLower | src/interface/mcp.rs:183 | lower-casing maps each ASCII letter and keeps the length |
| Positions.Short | src/domain/model/id.rs:40-42 | the short form is the first eight characters of the id text |
| Positions.PrefixMatches | src/interface/mcp.rs:165-168 | exactly the present ids whose text starts with the query |
| Positions.TitleMatches | src/interface/mcp.rs:184-189 | exactly the listed present nodes whose lower-cased title contains the query, in order |
| Positions.ResolveByTitle | src/interface/mcp.rs:183-212 | succeeds iff exactly one node title matches, with that node; no match gives NoTitleMatch; several give AmbiguousTitle with their count |
| Positions.ResolveId | src/interface/mcp.rs:142-213 | position syntax never falls through; otherwise a parsed UUID is returned as is; every error carries the query text |
| Positions.ResolvePosition | src/interface/mcp.rs:143-155 | position text resolves to k iff k is a node labelled with it, and fails iff no label matches |
| Positions.ResolveShownPosition | src/interface/mcp.rs:143-155 | the label shown for a node resolves back to that node |
| Positions.ResolvePrefix | src/interface/mcp.rs:165-181 | one prefix match resolves to it; more than one fail with their count; none falls through to the title search |
| Positions.ResolveTitleUnique | src/interface/mcp.rs:183-194 | a title resolution names a present node whose title is the only one containing the query |
| Positions.ResolveSound | src/interface/mcp.rs:142-213 | a resolved id is a node of the book, unless the text itself parsed as an id |
| Positions.TocEntry | src/interface/mcp.rs:967-975 | one line: indent by depth − 1, then the label (or "?"), ". " and the title |
| Positions.FormatTocOf | src/interface/mcp.rs:964-978 | the header "# title (n nodes)" then one line per listed node, in order |
| Positions.FormatToc | src/interface/mcp.rs:964-978 | the book method formats its own contents that way |
| Positions.TocLineShowsPosition | src/interface/mcp.rs:967-975 | on a valid book each line shows the node's own label, which is a position resolving back to the node, indented by its depth |
| Names.DoubledAt | src/interface/mcp.rs:343 | the ".." test holds iff two adjacent characters are both '.' |
| Names.ValidateSlug | src/interface/mcp.rs:277-291 | passes exactly the non-empty strings of ASCII letters, digits, '-' and '_'; the empty slug gets its own message |
| Names.ValidateFilename | src/interface/mcp.rs:340-352 | passes exactly the non-empty names without '/', '\\' or ".." |
| Names.SlugFileStaysInShelf | src/interface/mcp.rs:65-67 | a valid slug plus ".json" is a valid file name |
| Names.SlugExamples | src/interface/mcp.rs:1058-1072 | the accepted and rejected slugs of the tests |
| Names.Scrub | src/interface/mcp.rs:296-306 | each character outside ASCII letters, digits and `-_.()` becomes '_' |
| Names.TrimTrailing | src/interface/mcp.rs:323-326 | only trailing '_' are dropped, and the result does not end in '_' |
| Names.ReplaceDotDot | src/interface/mcp.rs:329-330 | one pass shortens any text containing ".." and keeps non-empty text non-empty |
| Names.ReplaceAllDotDot | src/interface/mcp.rs:328-331 | the repeated replacement leaves no ".." and keeps non-empty text non-empty |
| Names.SanitizeForFilename | src/interface/mcp.rs:295-337 | the loops compute the sanitised name |
| Names.SanitizeShape | src/interface/mcp.rs:293-337 | the name is non-empty, made only of ASCII letters, digits and `-_.()`, and free of ".." |
| Names.SanitizedNameIsValid | src/interface/mcp.rs:340-352 | every sanitised name passes `validate_filename` |
| Names.SanitizeFallback | src/interface/mcp.rs:333-337 | the fallback is taken iff every character was '_' or was replaced by one |
| Names.SanitizeFallbackExamples | src/interface/mcp.rs:1313-1317 | "", "   " and "///" become "untitled" |
| Names.NothingKept | src/interface/mcp.rs:333-337 | a title made of one disallowed character becomes "untitled" |
| Names.SanitizeLeavesUnderscores | src/interface/mcp.rs:293-331 | as written "a.." becomes "a_" and "..a" becomes "_a" (see Findings) |
| Names.SanitizeIntendedShape | src/interface/mcp.rs:293-337 | replacing ".." first gives a non-empty name of allowed characters with no "..", no "__", and no '_' at either end |
| Names.SanitizeIntendedExamples | src/interface/mcp.rs:1295-1298 | the corrected order still turns "a...b" into "a_.b", and turns "a.." into "a" |
| Names.ParseNodeType | src/interface/mcp.rs:366-375 | accepts exactly "section" and "content"; anything else gets the message naming it |
| Names.ParseNodeTypeRoundTrip | src/interface/mcp.rs:366-375 | the tag export writes parses back to the type |
| Names.ResolveBookRef | src/interface/mcp.rs:113-129 | a non-numeric reference passes through; a number n resolves iff 1 ≤ n ≤ the number of books, to the n-th slug |
| Names.BookNumberResolves | src/interface/mcp.rs:114-126 | the decimal text of i + 1 resolves to the i-th slug |
| Names.SlugRefPassesThrough | src/interface/mcp.rs:127-128 | a valid slug with a non-digit is returned unchanged |
| Names.BookNumberOutOfRange | src/interface/mcp.rs:116-124 | 0 or a number past the list fails with the out-of-range message |

## Left out

- JSON and files. These cover serde encoding (`render_json`), `EjectService::eject`, the store, `list_book_slugs` and `validate_import_path`. `EjectTree` and `EjectTreeNode` are datatypes only, and the slug list is a parameter.
- Id generation. `NodeId::new` and `BookId::new` draw random UUIDs, so fresh ids are parameters: `AddNode` requires an id not in the book, and import takes a list of distinct fresh ids. Id text is the id's own string.
- UUID parsing. `parse_node_id` is an abstract function parameter of `Positions.ResolveId`.
- Reading the book. `resolve_id` reads it through the service, and that can fail; the model takes the arena as an argument.
- The MCP server. The transport, the tool handlers, the locking of the selected book, `unescape_newlines` and `main` are not part of this model.
- Unicode. `to_lowercase` is modelled over ASCII: it maps A–Z only, so titles with other cased letters are compared case-sensitively there. `trim_start` uses the Unicode White_Space characters. `lines()` splits at '\n' and drops one trailing '\r'.
- Map order. `HashMap` iteration order only shows in `resolve_id`'s prefix matches. There it is modelled as a set, since only the count and the single member matter.
- Eject.ImportTree: on failure the partially built book is dropped, as in the source, so the model returns only the error.
- Eject.ExportImportRoundTrip: assumes the book holds at most `usize::MAX` nodes, which a Rust map cannot exceed anyway. The old and new books are compared position by position along their walks: content and depth, not ids.
- Positions.Short: takes the first eight characters of the id text. The source slices bytes, which is the same for a UUID's text.
- Book.TemplateBook.AddNode: the new depth is computed with unbounded integers, where the source's `u8` sum wraps (see Findings).
- Book.ValidateMove: computes the corrected check (see Findings); the as-written check is Book.MoveCheckAsWritten.
- Book.TemplateBook.MoveNode: the corrected move check is used (see Findings).
- Book.IsDescendantOf: requires a valid book. After the self-move of the first finding, the source's parent climb never ends, so there is nothing to model there.
- Names.SanitizeForFilename: models the code as written. The corrected stage order is a separate function (see Findings).

## Findings

| source | as written | input that shows it | evidently intended | confidence | as-written member | corrected member |
|---|---|---|---|---|---|---|
| src/domain/model/book.rs:237 | the cycle test walks the ancestors of the new parent, so a node proposed as its own parent passes. The move then makes x its own parent. Afterwards `is_descendant_of` (book.rs:305-314) and `collect_descendants` (book.rs:328-337) never terminate on x: a later `move_node(y, Some(x), _)`, `move_node(x, …)` or `remove_node(x)` hangs | `move_node(x, Some(x), 0)` on a book where x's subtree fits one level deeper | a move under the node itself is refused as a cyclic move | not executed | Book.SelfMoveAcceptedAsWritten | Book.MoveCheckPassSuffices |
| src/domain/model/book.rs:244-248 | the new depth is summed with `saturating_add` in `u8`, so 255 + 1 compares as 255 | `max_depth` 255; a root leaf moved under a node at depth 255 | the move is refused because the node would sit at depth 256 | not executed | Book.MoveSaturationAsWritten | Book.MoveCheckPassSuffices |
| src/domain/model/book.rs:84 | `depth_of(pid) + 1` is a `u8` sum, which wraps to 0 (or panics in a debug build) when the parent is at depth 255 | `max_depth` 255; add a child under a node at depth 255 | the add is refused with MaxDepthExceeded | not executed | Book.AddWrapAsWritten | Book.ChildDepth |
| src/interface/mcp.rs:328-331 | ".." is replaced after underscores are collapsed and trimmed, so the replacement can leave a leading or trailing '_' | "a.." gives "a_"; "..a" gives "_a" | no '_' at either end, as the function's own comment promises | not executed | Names.SanitizeLeavesUnderscores | Names.SanitizeIntendedShape |
