# text-engine, modelled in Dafny

This project models the core of text-engine, a structured-text engine built in several generations (two Rust prototypes and a C/GObject library). It states what each piece promises and proves it. Each module models one part of the repository:

- `PieceTable` (`piece_table.dfy`) models the flat piece table of `src/table.rs`. It has an immutable original buffer, an append-only buffer and a list of runs, each a byte range of one buffer. `get_text`, `get_all_text` and `insert` are modelled as written. That includes the split branch, which truncates a run and discards the new one. The class `Document` holds the table's fields and updates them in place. `InsertSplit` is the insert that evidently was meant.
- `ArenaModel` (`arena_model.dfy`) models the arena document of `engine/src/model.rs`. Nodes live in one vector and link to each other by index. It covers `Tree::new`, `create_node`, `append_child` (which links no siblings), `append_sibling`, `ChildrenIter` and the depth-first text walk. `get_all_text` emits every node's children before the node itself.
- `EngineLayout` (`engine_layout.dfy`) models `engine/src/layout.rs`. The builders turn elements into layout boxes. `LayoutBox::layout` stacks a block's children downward, sums their heights and emits the children's render commands before the block's own `RenderBox`. Pango's text height is the function parameter `measure`.
- `TreeNode` (`tree_node.dfy`) models the intrusive child list of `src/tree/node.c`. A node has `parent`, `prev`, `next`, `first_child`, `last_child` and `n_children`. A heap of such records is checked against a ghost list of children per node. This covers insertion at an index, prepend and append, insertion before or after a sibling, unparenting and deleting.
- `TextModel` (`text_model.dfy`) models the model layer in `src/model/`:
  - fragments (runs, plus opaque and inline objects) and their length and text;
  - paragraphs, which are lists of fragments, and frames, which are lists of blocks;
  - marks (`text_mark_new`, `text_mark_copy`);
  - the document's mark list (`get_all_marks`, `create_mark`, `copy_mark`, `delete_mark`, `clear_mark`).
- `EditorSpec` (`editor_spec.dfy`) states the editor of `src/editor/editor.c` on values. A document is the list of its paragraph texts. Every position is an offset in the plain-text dump, where each paragraph boundary counts as one character. Insertion, splitting, deletion (forward, backward, within one paragraph and across paragraphs), replacement, ordering and the mark loops are defined here. Their effect on the dump and on the text around every mark is proved. The mark loops are defined twice: as written, and as evidently intended.
- `Editor` (`editor.dfy`) models `TextEditor` on the heap. Paragraphs, runs and marks are objects. `text_editor_insert_text_at_mark` and `text_editor_split_at_mark` rewrite runs, move runs between paragraphs and walk the mark list. They are proved against `EditorSpec`: the paragraph texts they leave, and the places of all the document's marks. The moves left, right, first and last are proved on paragraph sizes and dump offsets. `text_editor_dump_plain_text` is proved to produce `EditorSpec.Dump`.
- `HtmlImport` (`html_import.dfy`) models `build_text_frame_recursive`, `build_text_frame` and `format_parse_html` of `src/format/import-html.c`. The builder in `demo/parser.c` is the same code. The walk is stated as a token list. The heap builder is proved to keep the frame in step with it.
- `LayoutTree` (`layout_tree.dfy`) models the first generation of the C layout: `src/layout/layout.c` and the three-argument `text_layout_box_layout` of `src/layout/layout-box.c`.
- `LayoutBoxes` (`layout_boxes.dfy`) models the second generation: `src/layout/layoutbox.c`, `layoutblock.c` and `layoutinline.c`. This covers class dispatch, the attribute spans of `_set_attributes`, block stacking and inline positioning.
- `LayoutTypes` (`layout_types.dfy`) holds the values both layout generations share, such as bounding boxes and Pango units.
- `Optional` (`optional.dfy`) holds the option type that the other modules share.

Text is ASCII throughout, so a byte index and a character offset are the same number.

## Model

| member | source | states |
|---|---|---|
| PieceTable.GetText | src/table.rs:52-58 | defined exactly when the run's range lies inside the buffer its flag selects (append or original); the result then has the run's length and is that slice, byte for byte |
| PieceTable.ConcatDefined | src/table.rs:43-50 | the whole text exists exactly when every run can be sliced, and its length is then the sum of the run lengths |
| PieceTable.ConcatAppend | src/table.rs:43-50 | the text of two run lists one after the other is the concatenation of their texts; a slice panic in either part is a panic of the whole |
| PieceTable.ConcatGrownAppend | src/table.rs:60-62 | growing the append buffer, as every insert does first, leaves the text of the runs that could already be sliced unchanged |
| PieceTable.GrownAppendInRange | src/table.rs:60-62 | growing the append buffer keeps every sliceable run sliceable |
| PieceTable.Locate | src/table.rs:64-73 | the run search of `insert`, one run at a time: it stops at run k only when it reaches k with `iter` strictly greater than the index, and reports an underflow only when a visited run ends before it starts |
| PieceTable.TotalLengthSnoc | src/table.rs:71 | a run added at the end adds its length to the total, which is what `iter += run.length()` accumulates |
| PieceTable.LogicalStartNext | src/table.rs:71 | the next run's logical start is this run's logical start plus its length |
| PieceTable.LocateFrom | src/table.rs:64-73 | starting at run k with `iter` at k's logical start, the search never underflows on well-formed runs; it stops at the first run from k on whose logical start is greater than the index, or runs off the end when there is none |
| PieceTable.LocateAtLogicalStart | src/table.rs:64-73 | on well-formed runs the search never underflows. It stops at run k exactly when k is the first run whose logical start is greater than the index, and it runs off the end exactly when no run's logical start is |
| PieceTable.InsertAsWritten | src/table.rs:60-95 | the original buffer never changes and the append buffer grows by the text; if no run starts past the index a run over the new text is pushed last; otherwise the run count is unchanged, only the found run's end becomes the index and the new run is discarded |
| PieceTable.InsertAsWrittenBranches | src/table.rs:60-95 | on well-formed runs `insert` never panics; when no run's logical start is greater than the index the new run is pushed last; otherwise only the first run whose logical start is greater than the index changes, its end becomes the index, and the new run is dropped |
| PieceTable.InsertPushAppends | src/table.rs:88-94 | when the search finds no run, the table stays sliceable and its text becomes the old text followed by the inserted text |
| PieceTable.SingleRunInsertAppends | src/table.rs:64-73 | on a document made with one run, every insert, at any index, appends the text at the end |
| PieceTable.HelloWorldInsertAppends | src/table.rs:60-95 | inserting "," at byte 5 of "Hello World" gives "Hello World," |
| PieceTable.ThreeFrontInsertsPanic | src/table.rs:75-86 | three inserts at index 0 into an empty document leave the runs [0,1) and [1,0) on the append buffer; the text can no longer be sliced and the third text is in no run |
| PieceTable.CutRun | src/table.rs:75-83 | cutting a run at an inner offset gives two sliceable runs holding the two halves of its text |
| PieceTable.SplitRunsInRange | src/table.rs:75-86 | the corrected split produces only sliceable runs |
| PieceTable.SplitAtStart | src/table.rs:75-86 | corrected split at offset 0: the new text comes first |
| PieceTable.SplitInsideRun | src/table.rs:75-86 | corrected split strictly inside the first run puts the new text between the run's halves |
| PieceTable.SplitPastRun | src/table.rs:75-86 | corrected split past the first run: the result for the remaining runs carries over with the first run in front |
| PieceTable.SplitRunsText | src/table.rs:75-86 | the corrected split puts the new run's text at exactly the logical offset `index` of the runs' text |
| PieceTable.InsertSplitCorrect | src/table.rs:60-95 | the corrected insert keeps every run sliceable and its text is the old text with the inserted text at byte `index` |
| PieceTable.Document.constructor | src/table.rs:20-40 | `new(Some(s))` gives buffer s, an empty append buffer and the one run [0, len s) on the original buffer; `new(None)` gives empty buffers and no runs; the text is s or "" |
| PieceTable.Document.GetAllText | src/table.rs:43-50 | the loop builds the in-order concatenation of `get_text` over all runs, or reports the slice panic |
| PieceTable.Document.Insert | src/table.rs:60-95 | the fields after the call, and whether the search underflowed, are exactly `InsertAsWritten` of the fields before it |
| ArenaModel.Chain | engine/src/model.rs:52-65 | the ids a children iterator yields from `current_id`: empty exactly when it starts at `None`, otherwise starting at that id, every id in the arena and strictly increasing (so the iteration ends) |
| ArenaModel.AfterCreateNode | engine/src/model.rs:93-107 | `create_node` pushes one node and changes none of the existing ones; the arena stays well linked |
| ArenaModel.AfterAppendChild | engine/src/model.rs:121-131 | `append_child` pushes a detached node whose parent is `parent_id`, sets the parent's last child to it and its first child only when it had none; no other node changes |
| ArenaModel.AfterAppendSibling | engine/src/model.rs:133-147 | `append_sibling` pushes a node whose parent is the sibling's parent and whose prev is the sibling, sets the sibling's next and the parent's last child to it; no other node changes |
| ArenaModel.AppendChildToLeaf | engine/src/model.rs:121-131 | appending a child to a node without children makes it the only child the iterator yields |
| ArenaModel.AppendChildInvisible | engine/src/model.rs:121-131 | appending a child to a node that has children leaves the iterated children unchanged: the new node is linked as last child but no `next_id` reaches it |
| ArenaModel.ChainUnchanged | engine/src/model.rs:52-65 | growing the arena without changing any `next_id` leaves every existing chain unchanged |
| ArenaModel.ChainExtended | engine/src/model.rs:133-147 | appending a sibling after the last node of a chain extends that chain by exactly the new id |
| ArenaModel.AppendSiblingExtendsChildren | engine/src/model.rs:133-147 | appending a sibling after a parent's last iterated child adds the new node at the end of the parent's children and makes it the last child |
| ArenaModel.Tree.constructor | engine/src/model.rs:74-91 | `Tree::new` has the single opaque root 0, no unused ids, and is well linked |
| ArenaModel.Tree.Get | engine/src/model.rs:109-111 | `get` returns a node exactly when the id is in the arena, and then the node stored there |
| ArenaModel.Tree.CreateNode | engine/src/model.rs:93-107 | the new id is the old arena length and the arena becomes `AfterCreateNode` of the old one |
| ArenaModel.Tree.AppendChild | engine/src/model.rs:121-131 | the new id is the old arena length and the arena becomes `AfterAppendChild` of the old one |
| ArenaModel.Tree.AppendSibling | engine/src/model.rs:133-147 | the new id is the old arena length and the arena becomes `AfterAppendSibling` of the old one |
| ArenaModel.ChildrenIter.constructor | engine/src/model.rs:40-50 | the iterator starts at the parent's first child |
| ArenaModel.ChildrenIter.Next | engine/src/model.rs:55-64 | `next` yields the current id and advances to that node's `next_id`, or yields `None` and stays at `None` |
| ArenaModel.NodeText | engine/src/model.rs:248-257 | `get_text` is `None` exactly for an opaque node; for a text node it is the node's slice of the append or the original buffer |
| ArenaModel.ChildrenTextInChildOrder | engine/src/model.rs:231-240 | the text gathered over a children chain is the concatenation of the subtree texts of the chain's ids, in iteration order |
| ArenaModel.InitialValid | engine/src/model.rs:158-174 | the tree `Document::new(Some(s))` builds (an opaque root with one text child over s) is well linked and sliceable |
| ArenaModel.InitialText | engine/src/model.rs:158-174 | the depth-first text of that tree is s |
| ArenaModel.Document.constructor | engine/src/model.rs:158-181 | the buffer is the initial string or "", the append buffer is empty, and the whole text equals the buffer |
| ArenaModel.Document.GetText | engine/src/model.rs:248-257 | the method returns `NodeText`: `None` exactly for an opaque node |
| ArenaModel.Document.GetTextDfs | engine/src/model.rs:231-240 | the recursive walk appends to `output` the node's subtree text: children first, in iteration order, then the node's own text |
| ArenaModel.Document.GetAllText | engine/src/model.rs:242-246 | the result is the depth-first text of the whole tree from the root |
| EngineLayout.BuildCorrect | engine/src/layout.rs:31-78 | building a layout tree succeeds exactly when the element tree holds no info box (`todo!()` in the source); the tree built is then unstyled and its inline boxes carry the runs' text references in document order |
| EngineLayout.BuildChildrenCorrect | engine/src/layout.rs:40-43 | the children loop succeeds exactly when no remaining child holds an info box, produces one subtree per child, and carries their run references in order |
| EngineLayout.BuildLayoutTree | engine/src/layout.rs:31-78 | the recursive builder with its push loops returns exactly `BuildSpec` |
| EngineLayout.BuildBlockLayoutTree | engine/src/layout.rs:32-62 | the frame and paragraph builders return exactly `BuildSpec` of the element |
| EngineLayout.Layout | engine/src/layout.rs:97-129 | the recursive layout with its children loop returns exactly the commands and height of `LayoutSpec` |
| EngineLayout.LayoutShift | engine/src/layout.rs:97-129 | laying a box out `d` lower moves every command down by `d` and leaves the required height unchanged |
| EngineLayout.LayoutChildrenShift | engine/src/layout.rs:105-110 | the same translation property for the children loop |
| EngineLayout.BlockStacksChildren | engine/src/layout.rs:104-112 | a block's height is the sum of its children's heights and its last command is the box spanning exactly that height |
| EngineLayout.ChildrenHeight | engine/src/layout.rs:105-110 | the children loop adds each child's height to the running height |
| EngineLayout.DrawnTextsAppend | engine/src/layout.rs:91-94 | the texts drawn by two command lists one after the other are the concatenation of their drawn texts |
| EngineLayout.ResolveAllAppend | engine/src/layout.rs:117 | resolving two lists of references is resolving each and concatenating |
| EngineLayout.LayoutDrawsInlineTexts | engine/src/layout.rs:97-129 | on a tree whose inner boxes are blocks, the texts drawn are the resolved texts of its inline boxes, in order, dropping references that do not resolve |
| EngineLayout.LayoutChildrenDraws | engine/src/layout.rs:105-110 | the same for the children loop from child i on |
| EngineLayout.BuildLeafy | engine/src/layout.rs:31-78 | a built layout tree has blocks inside and inline boxes only at the leaves |
| EngineLayout.BuildChildrenLeafy | engine/src/layout.rs:40-43 | every subtree the children loop builds has that shape |
| EngineLayout.RenderFollowsDocumentOrder | engine/src/layout.rs:31-129 | for an element tree without info boxes, building and laying out draws exactly the resolved text of every run, in document order |
| TreeNode.IndexOf | src/tree/node.c:186-206 | `_get_index_of`: -1 exactly when the node is not a child; otherwise the position of its first occurrence |
| TreeNode.OnlyInParentList | src/tree/node.c:145-149 | in a well-formed tree a node is in at most one parent's child list |
| TreeNode.InsertWellformed | src/tree/node.c:158-184 | linking a detached node into a parent's list at position k, with the parent's first/last/count and the neighbours' links updated, keeps every list well formed, with the new node at position k |
| TreeNode.RemoveWellformed | src/tree/node.c:365-384 | splicing child k out of a list, with the neighbours and the parent's first/last/count updated, keeps every list well formed without that child |
| TreeNode.RemovedDetached | src/tree/node.c:345-390 | the node spliced out is then in no child list |
| TreeNode.InsertedDistinct | src/tree/node.c:158-184 | inserting a node that is not yet in a list keeps the list free of repeats |
| TreeNode.RemovedDistinct | src/tree/node.c:365-384 | removing an entry keeps the list free of repeats |
| TreeNode.InsertAt | src/tree/node.c:209-285 | inserting at position k puts the node at k, the old k-th entry right after it, and removing it gives the list back |
| TreeNode.InsertBeforeIntendedPlacesBefore | src/tree/node.c:302-325 | the intended insert-before puts the child immediately before `compare` and keeps the other children in order |
| TreeNode.InsertBeforeAsWrittenAgrees | src/tree/node.c:317-324 | as written, insert-before does what is intended unless `compare` is the second child |
| TreeNode.InsertBeforeSecondChild | src/tree/node.c:317-322 | with children [10, 20], inserting 30 before 20 gives [30, 10, 20] as written instead of [10, 30, 20] |
| TreeNode.StaleNextAfterReinsert | src/tree/node.c:225-234 | a node unparented from [1, 2] keeps `next == 2`; inserted into an empty parent as written, that parent's list is no longer well linked |
| TreeNode.NodeTree.constructor | src/tree/node.c:51-55 | an empty node store with no lists |
| TreeNode.NodeTree.NewNode | src/tree/node.c:51-55 | `text_node_new`: a fresh id with no parent, siblings or children, in no list |
| TreeNode.NodeTree.FirstChild | src/tree/node.c:116-121 | the first entry of the node's child list, if any |
| TreeNode.NodeTree.LastChild | src/tree/node.c:123-128 | the last entry of the node's child list, if any |
| TreeNode.NodeTree.NumChildren | src/tree/node.c:151-156 | the length of the node's child list |
| TreeNode.NodeTree.Next | src/tree/node.c:137-142 | for a child, the entry after it in its parent's list, if any |
| TreeNode.NodeTree.Previous | src/tree/node.c:130-135 | for a child, the entry before it in its parent's list, if any |
| TreeNode.NodeTree.Parent | src/tree/node.c:144-149 | for a child, the node whose list holds it |
| TreeNode.NodeTree.NextIsSuccessor | src/tree/node.c:137-149 | a child's `next` link is its successor and its `parent` link names the list holding it |
| TreeNode.NodeTree.GetIndexOf | src/tree/node.c:186-206 | the search loop over the `next` chain returns `IndexOf` of the child list |
| TreeNode.NodeTree.InsertChild | src/tree/node.c:208-285 | with `0 <= index <= n_children`, the child list of `self` becomes the old list with `child` at `index`, all lists stay well linked, and nodes outside the list keep their links |
| TreeNode.NodeTree.InsertBetween | src/tree/node.c:158-184 | `_insert_between` puts the node between adjacent children k-1 and k and keeps every list well linked |
| TreeNode.NodeTree.AttachOnly | src/tree/node.c:224-234 | the empty-parent branch makes `child` the only child (its sibling links cleared, see Findings) |
| TreeNode.NodeTree.AttachFirst | src/tree/node.c:236-253 | the prepend branch puts `child` in front of the list |
| TreeNode.NodeTree.AttachLast | src/tree/node.c:255-272 | the append branch puts `child` at the end of the list |
| TreeNode.NodeTree.UnparentChild | src/tree/node.c:345-390 | returns `None` and changes nothing when `child` is not a child; otherwise returns it and removes it from the list; no parent link changes and the removed child keeps its own links |
| TreeNode.NodeTree.SpliceOut | src/tree/node.c:362-386 | the found child is removed from the list and is then in no list |
| TreeNode.NodeTree.PrependChild | src/tree/node.c:287-292 | the child goes in front of the list |
| TreeNode.NodeTree.AppendChild | src/tree/node.c:294-300 | the child goes at the end of the list |
| TreeNode.NodeTree.InsertChildBefore | src/tree/node.c:302-325 | the list becomes `InsertBeforeAsWritten`: unchanged when `compare` is not a child |
| TreeNode.NodeTree.InsertChildAfter | src/tree/node.c:327-343 | unchanged when `compare` is not a child, otherwise the child goes right after `compare` |
| TreeNode.NodeTree.Unparent | src/tree/node.c:392-406 | a node without a parent is returned unchanged; otherwise it is removed from its parent's list, or `None` when it is no longer in it |
| TreeNode.NodeTree.DeleteChild | src/tree/node.c:408-419 | the child is removed from the list when it is a child; nothing changes otherwise |
| TreeNode.NodeTree.Delete | src/tree/node.c:421-429 | a node in its parent's list leaves it; a node in no list changes nothing |
| TextModel.Fragment.Run | src/model/run.h:24 | a new run holds its text with no style set, and its length is the text's byte length |
| TextModel.Fragment.Bare | src/model/fragment.c:79-90 | a fragment created without text has NULL text; its length is 0 for a run and 1 for an opaque or inline fragment |
| TextModel.Fragment.Length | src/model/fragment.c:79-103 | `text_fragment_get_length`: a run's length is the byte length of its text (0 for NULL); opaque and inline fragments have length 1 |
| TextModel.Fragment.GetText | src/model/fragment.c:92-109 | `text_fragment_get_text` returns the text, and a NULL result stands for the empty text |
| TextModel.Fragment.SetText | src/model/fragment.c:59-77 | setting the `text` property replaces the text, keeps the style, and sets a run's length to the new text's length |
| TextModel.Texts | src/model/fragment.c:105-109 | one text per fragment, in order: the text of fragment i is `FragmentText` of it |
| TextModel.TextsAppend | src/model/fragment.c:105-109 | the texts of two fragment lists one after the other are the concatenation of their texts |
| TextModel.JoinAppend | src/model/paragraph.h:30 | the text of two fragment groups is the concatenation of their texts |
| TextModel.JoinSplit | src/model/paragraph.h:28-30 | a paragraph's text is the texts before fragment k, then fragment k's text, then the rest; fragment k occupies bytes `Start(k)` to `Start(k+1)` |
| TextModel.StartMonotone | src/model/paragraph.h:28 | fragment start offsets do not decrease |
| TextModel.StartEnd | src/model/paragraph.h:28-29 | the start offset past the last fragment is the paragraph's length |
| TextModel.JoinAt | src/editor/editor.c:1238-1260 | cutting the paragraph text at byte j of fragment r gives the fragments before r plus r's first j bytes, and r's remaining bytes plus the fragments after r |
| TextModel.JoinCut | src/editor/editor.c:1278-1395 | the two halves of a split paragraph have exactly the text before and the text after the split point |
| TextModel.JoinInsertInto | src/editor/editor.c:1416-1506 | inserting a string at byte j of fragment r inserts it into the paragraph text at `Start(r) + j` |
| TextModel.FindItem | src/model/paragraph.h:28 | a found fragment lies at or after the starting position and inside the list |
| TextModel.FindItemFound | src/model/paragraph.h:28 | from fragment k, when the index lies between k's start and the paragraph's end, a fragment is found that holds it, strictly past its start if it is not k |
| TextModel.ItemAtIndexFound | src/model/paragraph.h:28 | within a paragraph's byte range the item lookup succeeds, and the found fragment holds the index, strictly inside it unless it is the first fragment |
| TextModel.Paragraph.constructor | src/model/paragraph.c:42-46 | a new paragraph has no fragments |
| TextModel.Paragraph.AppendFragment | src/model/paragraph.c:86-94 | the fragment becomes the paragraph's last fragment and the earlier ones keep their order |
| TextModel.TextsLengthIsLength | src/model/paragraph.h:29 | the sum of the fragment lengths is the byte length of the paragraph's text |
| TextModel.ParagraphLengthIsText | src/model/paragraph.h:29-30 | `text_paragraph_get_length` is the byte length of `text_paragraph_get_text` |
| TextModel.AppendRun | src/model/paragraph.c:86-94 | a NULL paragraph or an argument that is not a run changes nothing; otherwise the run becomes the paragraph's last child |
| TextModel.Frame.constructor | src/model/frame.c:49-53 | a new frame has no blocks |
| TextModel.AppendBlock | src/model/frame.c:94-102 | a NULL block changes nothing; otherwise the block becomes the frame's last block |
| TextModel.PrependBlock | src/model/frame.c:104-112 | a NULL block changes nothing; otherwise the block becomes the frame's first block |
| TextModel.Paragraphs | src/editor/editor.c:226-308 | the paragraphs among a frame's blocks are at most as many as the blocks |
| TextModel.FlatParagraphs | src/editor/editor.c:268-308 | in a frame of paragraphs only, the paragraphs are exactly the blocks, in order |
| TextModel.Mark.constructor | src/model/mark.c:23-36 | `text_mark_new` stores paragraph, index and gravity, and leaves the document pointer NULL |
| TextModel.MarkCopy | src/model/mark.c:47-57 | NULL gives NULL; otherwise a fresh mark with the same paragraph, index and gravity |
| TextModel.RemoveFirstAbsent | src/model/document.c:123-131 | removing a mark that is not in the list leaves the list unchanged |
| TextModel.RemoveFirstAt | src/model/document.c:123-131 | removing a mark removes exactly its first occurrence |
| TextModel.Document.constructor | src/model/document.c:144-148 | a new document has no frame, no selection, no extra marks, and a fresh cursor with no paragraph at index 0 with right gravity |
| TextModel.Document.AllMarks | src/model/document.c:77-89 | the extra marks in order, then the cursor, then the selection when there is one |
| TextModel.Document.CreateMark | src/model/document.c:91-106 | a NULL paragraph gives NULL and changes nothing; otherwise a fresh mark at the given place is appended to the marks |
| TextModel.Document.CopyMark | src/model/document.c:108-121 | a NULL mark gives NULL and changes nothing; otherwise a fresh copy is appended to the marks |
| TextModel.Document.DeleteMark | src/model/document.c:123-131 | the first occurrence of the mark leaves the list; a NULL mark changes nothing; frame, cursor and selection stay |
| TextModel.Document.ClearMark | src/model/document.c:133-142 | as `DeleteMark`, and the caller's pointer becomes NULL |
| HtmlImport.VisitIsApply | src/format/import-html.c:36-55 | what a node does by itself is applying its own token: a paragraph start for `p` and `br`, a run for a text node, nothing for anything else |
| HtmlImport.WalkIsApply | src/format/import-html.c:34-57 | walking a sibling list is applying its nodes' tokens in pre-order: each node, then its subtree, then the next sibling |
| HtmlImport.ApplyAppend | src/format/import-html.c:34-57 | applying two token lists one after the other is applying their concatenation |
| HtmlImport.StepThen | src/format/import-html.c:36-55 | one step from a combined state is the step taken on the part done last |
| HtmlImport.ApplyThen | src/format/import-html.c:21-58 | applying tokens from any state is applying them from nothing and putting the result on top of that state |
| HtmlImport.WalkThen | src/format/import-html.c:56 | what the children of a node build depends on the state they start in only through that composition |
| HtmlImport.ApplyCount | src/format/import-html.c:38-43 | applying tokens adds one paragraph per break token |
| HtmlImport.ApplyRuns | src/format/import-html.c:50-55 | applying tokens appends every text token as a run, in order |
| HtmlImport.WalkCount | demo/parser.c:50-57 | the frame gets one paragraph per `p` or `br` element |
| HtmlImport.WalkRuns | demo/parser.c:48-71 | the runs the walk makes are the text nodes' contents in document order |
| HtmlImport.TransparentNode | src/format/import-html.c:44-48 | an element other than `p` or `br`, or a node of another type, adds nothing itself; only its children are walked |
| HtmlImport.CurrentNotReset | src/format/import-html.c:56 | the current paragraph is never reset when the walk leaves an element: in `<div><p>a</p>b</div>` the "b" joins the paragraph of "a" |
| HtmlImport.TextBeforeParagraph | src/format/import-html.c:50-55 | in `x<p>y</p>` the "x" comes before any paragraph and never reaches the frame |
| HtmlImport.BlocksAppend | src/model/frame.c:94-102 | the blocks of two paragraph lists one after the other are the concatenation of their blocks |
| HtmlImport.StartParagraph | src/format/import-html.c:38-43 | a `p` or `br` element appends a fresh empty paragraph to the frame and makes it current, in step with the value walk |
| HtmlImport.AddText | src/format/import-html.c:50-55 | a text node appends a run with its content to the current paragraph, or is dropped when there is none, in step with the value walk |
| HtmlImport.VisitNode | src/format/import-html.c:36-55 | the loop body before the children are walked keeps the heap in step with `Visit` |
| HtmlImport.BuildNode | src/format/import-html.c:34-57 | one pass of the sibling loop keeps the heap in step with visiting the node and walking its children |
| HtmlImport.BuildTextFrameRecursive | src/format/import-html.c:21-58 | the recursive builder leaves the frame and the paragraphs it made in step with `Walk` over the sibling list |
| HtmlImport.BuildTextFrame | src/format/import-html.c:68-74 | starting with no current paragraph, the frame gets exactly the walk's paragraphs, fresh, each holding runs with the walk's texts; text before the first `p` or `br` is dropped |
| HtmlImport.RootElement | src/format/import-html.c:93 | the root element is the first element among the top-level nodes, `None` when there is none |
| HtmlImport.FormatParseHtml | src/format/import-html.c:76-113 | a failed parse or a document with no element gives NULL; otherwise a fresh frame holding the paragraphs built from the root element and its following siblings |
| LayoutTree.LayoutBox.constructor | src/layout/layout-box.c:55-59 | a new box has no item, no children and a zeroed bounding box |
| LayoutTree.LayoutBox.SetItem | src/layout/layout-box.c:177-185 | setting the item changes only the item |
| LayoutTree.TextHeight | src/layout/layout-box.c:109-176 | a box whose item is missing or is not a paragraph has no text height |
| LayoutTree.RunsTextIsJoin | src/layout/layout-box.c:109-176 | the runs' texts appended in child order (NULL appending nothing) are the joined fragment texts |
| LayoutTree.RunsTextIsParagraphText | src/layout/layout-box.c:109-176 | the text a box measures is its paragraph's text |
| LayoutTree.ConcatRuns | src/layout/layout-box.c:109-176 | the run loop builds exactly the paragraph's text |
| LayoutTree.Layout | src/layout/layout-box.c:108-176 | a NULL box changes nothing; otherwise item and children are untouched and the bounding box becomes `(0, 0, width, h)`, with h the measured height of the box's own text plus the heights its children held on entry |
| LayoutTree.MeasuredHeights | src/layout/layout.c:109-121 | one height per paragraph, the one Pango measures for its text at the given width |
| LayoutTree.BoxesForAppend | src/layout/layout.c:111-120 | appending a box for the next paragraph keeps the boxes matched one to one with the paragraphs and heights |
| LayoutTree.AddParagraphBox | src/layout/layout.c:109-121 | a paragraph child gets a fresh box holding it, appended as the parent's last child, laid out with no children at the width, so its height is the paragraph's measured height |
| LayoutTree.LayoutChild | src/layout/layout.c:98-122 | one pass of the child loop: a paragraph child adds one box, any other child adds none; the parent's children grow by exactly the boxes made |
| LayoutTree.AppendParagraphBoxes | src/layout/layout.c:98-122 | the loop appends to the parent one fresh box per paragraph child of the frame, in frame order, each holding its paragraph and laid out with its measured height |
| LayoutTree.LayoutFrame | src/layout/layout.c:86-126 | after the loop the parent is laid out: its bounding box spans the width and its height is its own text's height plus the heights of its old and new children |
| LayoutTree.MeasuresTail | src/layout/layout.c:98-122 | the measured heights of the remaining paragraphs are the tail of the heights |
| LayoutTree.PrefixParagraphs | src/layout/layout.c:98-122 | the paragraphs among the first k children are a prefix of the frame's paragraphs |
| LayoutTree.HeightsAppend | src/layout/layout-box.c:109-176 | the heights of two box lists add up |
| LayoutTree.HeightsOfBoxes | src/layout/layout.c:124 | the boxes made hold heights summing to the sum of the measured heights |
| LayoutTree.BuildLayoutTree | src/layout/layout.c:128-140 | a fresh root with no item whose children are fresh boxes, one per paragraph child of the frame in order, each laid out at its measured height; the root's bounding box is `(0, 0, width, sum of those heights)` |
| LayoutBoxes.SizeBytes | src/layout/layoutblock.c:162 | a run's size in bytes is the byte length of its text |
| LayoutBoxes.Pieces | src/layout/layoutblock.c:156-170 | one piece per fragment of the paragraph, in child order |
| LayoutBoxes.PieceSpansMeaning | src/layout/layoutblock.c:79-139 | every span covers exactly the fragment's bytes; a run adds a span for each style it has (bold, italic, underline, in that order) and no other; an opaque object adds one 100 by 100 shape; any other fragment adds nothing |
| LayoutBoxes.PieceSpansCover | src/layout/layoutblock.c:94-95 | every span a piece adds starts at its start index and ends after its length |
| LayoutBoxes.SetAttributes | src/layout/layoutblock.c:141-173 | the loop builds the attribute list of all the paragraph's fragments, each fragment's spans added at the byte index where it starts |
| LayoutBoxes.FragmentAttributes | src/layout/layoutblock.c:164-167 | the loop body adds a run's styles, an opaque object's shape, or nothing |
| LayoutBoxes.RunAttributes | src/layout/layoutblock.c:99-139 | `_set_run_attribute` adds exactly the run's own style spans |
| LayoutBoxes.StartIndexMonotone | src/layout/layoutblock.c:169 | the start index never decreases along the fragments |
| LayoutBoxes.AttributesInRange | src/layout/layoutblock.c:141-173 | every span of the list lies within the paragraph's bytes |
| LayoutBoxes.AttributesOrdered | src/layout/layoutblock.c:141-173 | the spans come in order of their start index |
| LayoutBoxes.AttributesPrefix | src/layout/layoutblock.c:156-170 | the list for the first j fragments is a prefix of the list for the first k |
| LayoutBoxes.AttributesAfter | src/layout/layoutblock.c:156-170 | the spans the fragments from j on add all start at or after fragment j |
| LayoutBoxes.RunStylesCovered | src/layout/layoutblock.c:99-170 | each style a run has appears in the list as a span over exactly that run's bytes, and for a non-empty run a style it lacks does not |
| LayoutBoxes.OwnStyle | src/layout/layoutblock.c:113-138 | a run's own spans hold a span of a style over its bytes exactly when the run has that style |
| LayoutBoxes.RunStyleIn | src/layout/layoutblock.c:164-165 | a style the run has appears in the whole list |
| LayoutBoxes.RunStyleOnlyFrom | src/layout/layoutblock.c:156-170 | a span over a non-empty run's bytes can only come from that run, so the run has that style |
| LayoutBoxes.BoxTree.constructor | src/layout/layoutbox.c:37-42 | boxes of the given tree shape with no items, no Pango layouts and zeroed bounding boxes |
| LayoutBoxes.BoxTree.SetItem | src/layout/layoutbox.c:116-122 | box n gets the item; nothing else changes |
| LayoutBoxes.BoxTree.Layout | src/layout/layoutbox.c:84-92 | only the subtree of box n changes; an inline box is placed 100 by 100 at the offset, and a block is left as `BlockPlaced` says |
| LayoutBoxes.BoxLayout | src/layout/layoutbox.c:84-92 | dispatching on the box's class changes only the bounding boxes and Pango layouts of its subtree, with the inline and block results above |
| LayoutBoxes.InlineLayout | src/layout/layoutinline.c:82-101 | an inline box is placed at the offset, 100 pixels square, whatever the width; any other box is refused with no change |
| LayoutBoxes.RealLayout | src/layout/layoutbox.c:94-114 | the default layout puts the box at the offset, as wide as the width, with no height |
| LayoutBoxes.BlockLayout | src/layout/layoutblock.c:175-285 | a box that is not a block changes nothing; a block is left `BlockPlaced`: its paragraph's Pango layout configured, its children placed, and its box at the offset, as wide as the width, as high as its text plus its block children; only its subtree changes |
| LayoutBoxes.SoundKids | src/layout/layoutblock.c:201-220 | configuring the block's own Pango layout keeps its children free of failing assertions |
| LayoutBoxes.BlockDone | src/layout/layoutblock.c:279-284 | the paragraph step, the children loop and the final bounding box together leave the block `BlockPlaced` |
| LayoutBoxes.ConfigureParagraph | src/layout/layoutblock.c:199-220 | a block with a paragraph sets its Pango layout's attributes, text and width and takes the measured height; without a paragraph nothing changes and the height is 0 |
| LayoutBoxes.LayoutChildren | src/layout/layoutblock.c:222-277 | block children are laid out at the block's x and width, each below the block children before it, and the offset is the sum of their heights; an inline child is skipped while the block has no Pango layout and is otherwise placed where Pango puts the byte offset of its fragment; only the subtrees of the children change |
| LayoutBoxes.LaidStart | src/layout/layoutblock.c:224-226 | before the loop no child has been laid out |
| LayoutBoxes.LaidDone | src/layout/layoutblock.c:228-277 | after the loop all children are placed as `LayoutChildren` promises |
| LayoutBoxes.LaidStep | src/layout/layoutblock.c:228-277 | laying out the next child takes the loop invariant one child further |
| LayoutBoxes.LaidFrameStep | src/layout/layoutblock.c:228-277 | laying out the next child changes only its subtree |
| LayoutBoxes.PlacedStep | src/layout/layoutblock.c:238-276 | placing the next child as the loop does keeps the placement invariant |
| LayoutBoxes.LayoutNext | src/layout/layoutblock.c:228-277 | one pass of the children loop advances the fragment walk and the placement by one child |
| LayoutBoxes.LayoutChild | src/layout/layoutblock.c:232-276 | one child: a block child is laid out below the block children before it; an inline child is skipped without a Pango layout, otherwise its fragment is found from where the walk stood and it is placed at Pango's position for that byte offset, in pixels |
| LayoutBoxes.StackedAppend | src/layout/layoutblock.c:238-244 | one more block child laid out below the others keeps the children stacked, and the offset grows by its height |
| LayoutBoxes.ShownAppend | src/layout/layoutblock.c:245-276 | one more inline child placed at its fragment's position keeps the inline children shown |
| LayoutBoxes.SkippedAppend | src/layout/layoutblock.c:253-258 | one more inline child skipped keeps the inline children unchanged |
| LayoutBoxes.HoldsStep | src/layout/layoutblock.c:228-277 | laying out a child leaves the children before it where they were |
| LayoutBoxes.KeptTrans | src/layout/layoutblock.c:228-277 | two changes confined to parts of a range together change only that range |
| LayoutBoxes.KidBoxes | src/layout/layoutblock.c:242 | the bounding boxes of the children, in child order |
| LayoutBoxes.Seek | src/layout/layoutblock.c:261-268 | the fragment search moves the iterator forward only |
| LayoutBoxes.SeekFound | src/layout/layoutblock.c:261-268 | the search stops at the first fragment at or after the iterator that is the target, with the byte offset grown by the sizes of the fragments passed over |
| LayoutBoxes.SeekSome | src/layout/layoutblock.c:261-268 | the search passes its assertion exactly when the target is a fragment at or after the iterator (or is NULL with the iterator already at the end) |
| LayoutBoxes.SeekFragment | src/layout/layoutblock.c:261-268 | the `while` loop returns `Seek`'s result, `found` being false exactly where the `g_assert` fails |
| LayoutBoxes.Walk | src/layout/layoutblock.c:224-277 | the fragment walk over the children never passes the last fragment |
| LayoutBoxes.WalkStaysFailed | src/layout/layoutblock.c:267 | once a search has failed the walk stays failed |
| LayoutBoxes.WalkPrefix | src/layout/layoutblock.c:228-277 | a walk that succeeds over all the children succeeds over every prefix of them |
| LayoutBoxes.WalkAtFragment | src/layout/layoutblock.c:261-271 | after an inline child the walk stands at that child's fragment, and the byte offset is the size of the fragments before it |
| LayoutBoxes.InlineAt | src/layout/layoutinline.c:97-100 | an inline box is 100 pixels square |
| LayoutBoxes.InlineAtItsFragment | src/layout/layoutblock.c:270-275 | an inline child with an item shows a fragment of the paragraph and sits where Pango puts the byte index at which that fragment starts, divided down from Pango units with C's truncation |
| LayoutBoxes.SoundKept | src/layout/layoutblock.c:261-268 | whether a box's layout passes every assertion depends only on the Pango layouts of its subtree |
| EditorSpec.DumpSnoc | src/editor/editor.c:1875-1899 | the plain-text dump of paragraphs plus one more is the old dump, that paragraph's text and a newline |
| EditorSpec.DumpAt | src/editor/editor.c:1875-1899 | paragraph `k`'s text and newline sit in the dump between the dumps of the paragraphs before and after it |
| EditorSpec.DumpReplace | src/editor/editor.c:1875-1899 | replacing the text of one paragraph replaces exactly that slice of the dump |
| EditorSpec.OffsetInDump | src/editor/editor.c:1875-1899 | every mark position (paragraph, byte, end included) names a character of the dump: the rest of its paragraph, the newline, then the later paragraphs |
| EditorSpec.OffsetBelowEnd | src/editor/editor.c:1875-1899 | every valid position lies before the end of the dump |
| EditorSpec.OffsetOrder | src/editor/editor.c:1110-1167 | a position in a later paragraph has a larger dump offset than any position of an earlier one |
| EditorSpec.InsertTextDump | src/editor/editor.c:1416-1506 | inserting `str` at a position of paragraph `k` inserts `str` into the dump at that position's offset, and nothing else changes |
| EditorSpec.SplitTextDump | src/editor/editor.c:1278-1395 | splitting paragraph `k` at byte `i` inserts exactly one newline into the dump at the split offset |
| EditorSpec.DeleteStop | src/editor/editor.c:1009-1027 | the loop over the paragraphs after the first one stops at a paragraph index between its start and the end, with `remaining` either unset or a positive byte count no larger than that paragraph |
| EditorSpec.DeleteStopSpec | src/editor/editor.c:1009-1027 | when at most the rest of the dump is asked for, the loop stops exactly `L` characters in: the whole paragraphs it passed with their boundaries plus `remaining` bytes of the one it stopped on |
| EditorSpec.DeleteStopStep | src/editor/editor.c:1009-1024 | a paragraph deleted whole (with its boundary) leaves the stop to the rest of the loop |
| EditorSpec.DumpLenCons | src/editor/editor.c:1875-1899 | the dump of paragraphs `q..e` is paragraph `q`, its newline and the dump of the rest |
| EditorSpec.CutWithin | src/editor/editor.c:728-840 | cutting bytes `c..c+L` of one paragraph cuts the same span out of the dump |
| EditorSpec.DeleteJoinCase | src/editor/editor.c:981-1091 | a deletion that ends inside a later paragraph removes exactly `L` dump characters from the start offset, joining that paragraph's rest onto the first |
| EditorSpec.DeleteEndCase | src/editor/editor.c:981-1091 | a deletion that covers every later paragraph leaves the first paragraph's prefix and the final newline |
| EditorSpec.DeleteAcrossCut | src/editor/editor.c:981-1091 | across paragraphs the dump from the start offset is the deleted text up to the stop paragraph, then the dump from there on |
| EditorSpec.DeleteJoinDump | src/editor/editor.c:1086-1090 | when the loop stops `rem` bytes into a paragraph, the rest of that paragraph is joined onto the first paragraph's prefix in the dump |
| EditorSpec.DumpJoined | src/editor/editor.c:687-714 | replacing paragraphs `k..e` by one joined text replaces their slice of the dump by that text and one newline |
| EditorSpec.DumpRange | src/editor/editor.c:1875-1899 | the dump from paragraph `a` on is the dump of `a..b` followed by the dump from `b` on |
| EditorSpec.DeleteTextDump | src/editor/editor.c:880-1092 | `text_editor_delete_at_mark` for a length `L` no larger than the rest of the document deletes exactly the `L` dump characters from the mark's offset; a deletion that reaches the final newline keeps it |
| EditorSpec.InsertMarksAsWritten | src/editor/editor.c:1476-1504 | the mark loop as written visits every mark once and returns one place per mark, comparing each with the live index of `start` |
| EditorSpec.InsertMarksAgree | src/editor/editor.c:1476-1504 | the loop as written gives the intended mapping whenever the start mark has left gravity or nothing is inserted |
| EditorSpec.InsertMarksStep | src/editor/editor.c:1476-1504 | turn `j` of the loop as written compares mark `j` with the live index left by the first `j` turns |
| EditorSpec.InsertKeepsNeighbours | src/editor/editor.c:1476-1504 | after an insertion every mark before the point (or on it with left gravity) keeps the text before it, and every mark after the point (or on it with right gravity) keeps the text after it |
| EditorSpec.InsertCursorSkipsSelection | src/editor/editor.c:1478-1501 | inserting "ab" at the start of "x" with the right-gravity cursor as start leaves the selection mark at index 1 unshifted as written, where the intended mapping moves it to 3 |
| EditorSpec.SplitMarksAsWritten | src/editor/editor.c:1366-1394 | the split mark loop as written returns one place per mark, comparing each with the live index of `split` |
| EditorSpec.SplitMarksAgree | src/editor/editor.c:1366-1394 | the split loop as written gives the intended mapping whenever the split mark has left gravity or the split is at 0 |
| EditorSpec.SplitMarksStep | src/editor/editor.c:1366-1394 | turn `j` of the split loop as written compares mark `j` with the live index left by the first `j` turns |
| EditorSpec.SplitKeepsNeighbours | src/editor/editor.c:1366-1394 | after a split a mark that stays in the first paragraph keeps the text before it, and a mark moved to the new paragraph keeps the text after it |
| EditorSpec.SplitCursorMovesSelection | src/editor/editor.c:1369-1392 | splitting "abc" at 2 with the right-gravity cursor as split mark moves the selection at index 1 to the new paragraph as written, where the intended mapping keeps it in the first |
| EditorSpec.DeleteKeepsNeighbours | src/editor/editor.c:950-973 | after a deletion within a paragraph every mark before the span keeps the text before it, every mark after it keeps the text after it, and marks inside collapse onto the start |
| EditorSpec.JoinShiftAgree | src/editor/editor.c:995-1080 | the shift as written equals the intended one except when the loop stopped on a boundary after cutting a nonempty tail of the first paragraph |
| EditorSpec.JoinKeepsNeighbours | src/editor/editor.c:1034-1081 | after a deletion across paragraphs no mark is left in a removed paragraph, marks before the start keep the text before them, and marks of the stop paragraph after the cut keep the text after them in the joined paragraph |
| EditorSpec.JoinShiftCounterexample | src/editor/editor.c:1079 | deleting 2 characters from (0, 1) in "ab"/"cd" gives "acd"; a mark at (1, 1) ends at (0, 1) as written, before "c" instead of after it at (0, 2) |
| EditorSpec.OffsetNext | src/editor/editor.c:456-538 | the first position of paragraph `k + 1` is one character, the boundary, after the last of paragraph `k` |
| EditorSpec.OffsetLast | src/editor/editor.c:571-584 | the end of the last paragraph is the dump's final newline |
| EditorSpec.OffsetFirst | src/editor/editor.c:554-569 | the start of the first paragraph is offset 0 |
| EditorSpec.Sizes | src/editor/editor.c:355-538 | the sizes the move operations read are the byte lengths of the paragraph texts, one per paragraph |
| EditorSpec.LineStartNext | src/editor/editor.c:456-538 | paragraph `k + 1` starts after paragraph `k` and its boundary |
| EditorSpec.LineStartIsOffset | src/editor/editor.c:355-538 | the start that the move loops add up from paragraph sizes is the paragraph's offset in the dump |
| EditorSpec.DumpSize | src/editor/editor.c:1875-1899 | the dump is as long as all paragraph sizes plus one boundary per paragraph |
| EditorSpec.LineStartBelowEnd | src/editor/editor.c:456-538 | every position of a paragraph, its end included, comes before the end of the last boundary |
| EditorSpec.DeleteTextKeepsBefore | src/editor/editor.c:880-1092 | a deletion from (k, c) keeps the paragraphs before `k` and the first `c` bytes of paragraph `k` |
| EditorSpec.BackspacePastStartDump | src/editor/editor.c:896-906 | the intended backward deletion past the start leaves exactly the dump from the cursor on |
| EditorSpec.BackspaceCounterexample | src/editor/editor.c:896-906 | in "abcdefghij" with the cursor at 3, deleting 5 backwards leaves "abcghij" as written and "defghij" as intended |
| EditorSpec.OffsetInjective | src/editor/editor.c:1110-1167 | two distinct valid positions have distinct dump offsets |
| EditorSpec.EnsureOrderedSpec | src/editor/editor.c:1204-1234 | `_ensure_ordered` returns the same two positions, the one with the smaller dump offset first: as given when in order, swapped otherwise |
| EditorSpec.OffsetStep | src/editor/editor.c:1169-1202 | paragraph `k + 1` starts one boundary after the end of paragraph `k` |
| EditorSpec.LengthBetweenMarks | src/editor/editor.c:1169-1202 | `_length_between_marks`: when `e` is in the same paragraph as `s` or a later one, the difference of their dump offsets; when `e`'s paragraph comes first, the characters from `s` to the end of the dump |
| EditorSpec.ReplaceTextDump | src/editor/editor.c:1397-1413 | replacing between an earlier and a later mark swaps exactly the dump characters between their offsets for `str` |
| EditorSpec.ReplaceOrderedDump | src/editor/editor.c:1397-1413 | deleting from one position to a later one and inserting at the first swaps that span of the dump for `str` |
| EditorSpec.ReplaceTextUnfolded | src/editor/editor.c:1397-1413 | replacing from a mark to a later one is deleting the characters between them, then inserting at the first |
| EditorSpec.DeleteThenInsertDump | src/editor/editor.c:1397-1413 | deleting `L` characters at a position and inserting `str` there swaps those characters for `str` in the dump |
| EditorSpec.ReplaceTextSymmetric | src/editor/editor.c:1397-1413 | replacing gives the same text whichever order the two marks are passed in |
| EditorSpec.ReplaceAtOneMark | src/editor/editor.c:1397-1413 | with both marks at one position, replacing is inserting there |
| EditorSpec.PositionOf | src/editor/editor.c:355-454 | every dump offset below the end is the offset of a valid mark position, which this returns |
| EditorSpec.DeleteBackDump | src/editor/editor.c:896-906 | deleting forward from offset `o` up to offset `g` cuts exactly those characters out of the dump |
| EditorSpec.BackspaceDump | src/editor/editor.c:896-906 | the intended backward deletion of `n` characters cuts the `n` dump characters before the cursor, or all of them when fewer precede it |
| EditorSpec.PositionOfStart | src/editor/editor.c:554-569 | offset 0 is the start of the first paragraph |
| EditorSpec.BackspaceAgrees | src/editor/editor.c:896-906 | where the cursor can move back the full `n`, the negative-length deletion as written equals the intended one |
| EditorSpec.BackspacePastStartIsBackspace | src/editor/editor.c:896-906 | past the start the intended backward deletion removes everything before the cursor |
| Editor.IndexOfDistinct | src/editor/editor.c:226-308 | in a list of distinct paragraphs the index found for the `k`th one is `k` |
| Editor.BlockIndex | src/editor/editor.c:226-308 | the index found for a paragraph among the frame's children is one whose block is that paragraph |
| Editor.StartFlags | src/editor/editor.c:1476-1504 | flags, one per mark, that are set exactly where the mark is the start mark itself |
| Editor.DistributeMark | src/editor/editor.c:855-870 | `_distribute_mark` puts a left-gravity mark at the start place and a right-gravity one at the end place, keeping its document |
| Editor.InsertMarksLoop | src/editor/editor.c:1476-1504 | the insertion mark loop leaves every mark at the place `InsertMarksAsWritten` gives for the old places, with `start` compared by its live index |
| Editor.InsertTurn | src/editor/editor.c:1478-1501 | one turn of that loop moves the mark to `InsertedPlace` of its old place and `start`'s old index |
| Editor.InsertIntoRun | src/editor/editor.c:1437-1471 | the run holding byte `i` (the earlier one on a boundary) gets `str` inserted, so the paragraph text has `str` at byte `i`; every run keeps its bold, italic and underline |
| Editor.SetRunText | src/editor/editor.c:1467-1470 | setting the text of one run of a paragraph changes that run's text only and keeps every style |
| Editor.SplitRunAtOffset | src/editor/editor.c:1237-1260 | `split_run_at_offset`: the run keeps the text before `offset`, a fresh run holds the rest, and both carry the run's bold, italic and underline |
| Editor.MoveFragments | src/editor/editor.c:1338-1350 | moving the children of `cur` from position `t0` on appends them, in order, to `nu` and leaves `cur` with the ones before `t0` |
| Editor.CutDistinct | src/editor/editor.c:1305-1363 | cutting a list of distinct runs at `t` and putting a new run in front of the second part gives two distinct lists that share nothing |
| Editor.SplitAfterRun | src/editor/editor.c:1316-1350 | splitting inside run `r` at byte `j` keeps runs `..r` in `cur` with run `r` cut to its first `j` bytes, and puts a fresh run with the rest in front of the runs after `r` in `nu` |
| Editor.SplitRuns | src/editor/editor.c:1293-1363 | the runs of a split at byte `i`: `cur` keeps the text before `i`, a fresh paragraph `nu` gets the text from `i` on, both stay tidy and share no run |
| Editor.SplitFragments | src/editor/editor.c:1305-1363 | a split at a byte inside the paragraph leaves its text before `i` in `cur` and puts the text from `i` on in a fresh `nu`, both tidy and sharing no run |
| Editor.SplitInsideRun | src/editor/editor.c:1305-1363 | a split at byte `j` of run `r` keeps the run texts before `r` and run `r`'s first `j` bytes in `cur`, and its remaining bytes followed by the later runs' texts in `nu` |
| Editor.SplitAtStart | src/editor/editor.c:1305-1358 | a split at byte 0 moves every run to `nu` and gives `cur` one fresh empty run |
| Editor.SplitMarksLoop | src/editor/editor.c:1366-1394 | the split mark loop leaves every mark at the place `SplitMarksAsWritten` gives for the old places, with `split` compared by its live index |
| Editor.SplitTurn | src/editor/editor.c:1369-1392 | one turn of that loop moves the mark to `SplitPlace` of its old place and `split`'s index |
| Editor.TidyAfterSplit | src/editor/editor.c:1277-1395 | putting a tidy new paragraph that shares no run with the others after the `k`th keeps the paragraph list tidy |
| Editor.FrameInsert | src/editor/editor.c:1299-1300 | inserting the new paragraph's block after the `k`th block puts it after the `k`th paragraph in the frame's children |
| Editor.FragsAfterSplit | src/editor/editor.c:1277-1395 | after a split the runs of all paragraphs lie in the old footprint, the new paragraph and the runs of the two halves |
| Editor.TextsAfterSplit | src/editor/editor.c:1277-1395 | when the `k`th paragraph holds the text before byte `i` and the new one the text from `i` on, the paragraph texts are `SplitText` of the old texts |
| Editor.Editor.SizesOfTexts | src/editor/editor.c:355-538 | the byte sizes of the paragraph texts are the sizes the move operations read |
| Editor.Editor.PosAt | src/editor/editor.c:355-538 | a mark at byte `i` of the `k`th paragraph stands on the text at offset `LineStart(ns, k) + i` |
| Editor.Editor.constructor | src/editor/editor.c:35-40 | `text_editor_new`: an editor over a document whose frame holds the given tidy paragraphs is valid and holds them |
| Editor.Editor.DumpPlainText | src/editor/editor.c:1875-1899 | `text_editor_dump_plain_text` returns each paragraph's text followed by a newline, in order |
| Editor.Editor.InsertTextAtMark | src/editor/editor.c:1415-1505 | `text_editor_insert_text_at_mark` inserts `str` into the mark's paragraph at its index (`InsertText`) and leaves every mark where the loop as written puts it |
| Editor.Editor.MoveMarksForInsert | src/editor/editor.c:1476-1504 | the insertion mark loop over all the document's marks keeps the editor valid and its texts, and moves the marks as `InsertMarksAsWritten` says |
| Editor.Editor.SplitAtMark | src/editor/editor.c:1277-1395 | `text_editor_split_at_mark` inserts one fresh paragraph right after the mark's, the texts become `SplitText` at the mark's index, and the marks move as `SplitMarksAsWritten` says |
| Editor.Editor.MoveMarksForSplit | src/editor/editor.c:1366-1394 | the split mark loop over all the document's marks keeps the editor valid and its texts, and moves the marks as `SplitMarksAsWritten` says |
| Editor.Editor.SplitParagraph | src/editor/editor.c:1293-1363 | the tree half of the split: a fresh paragraph right after `cur`, the texts `SplitText` of the old ones, and no mark touched |
| Editor.Editor.SplitParagraphRuns | src/editor/editor.c:1293-1358 | the runs of the `k`th paragraph from byte `i` on move to a new paragraph; with it inserted after the `k`th the list is tidy and the texts are `SplitText` |
| Editor.Editor.LinkParagraph | src/editor/editor.c:1361-1362 | the new paragraph goes into the frame right after the `k`th, keeping the editor valid with the given texts and no mark touched |
| Editor.Editor.KeptByMarks | src/editor/editor.c:1476-1504 | moving marks, which lie outside the editor's footprint, keeps the editor valid and the paragraph texts |
| Editor.Editor.InsertIntoParagraph | src/editor/editor.c:1437-1471 | the text half of the insertion: the texts become `InsertText` at byte `i` of the `k`th paragraph, runs keep their styles, no mark is touched |
| Editor.Editor.PreviousParagraph | src/editor/editor.c:226-265 | `walk_until_previous_paragraph` from a paragraph of the frame returns the paragraph before it, NULL at the first |
| Editor.Editor.NextParagraph | src/editor/editor.c:267-308 | `walk_until_next_paragraph` from a paragraph of the frame returns the paragraph after it, NULL at the last |
| Editor.Editor.FirstParagraph | src/editor/editor.c:267-308 | the walk from the frame itself returns its first paragraph, NULL when it has none |
| Editor.Editor.LastParagraph | src/editor/editor.c:226-265 | the walk back from the frame itself returns its last paragraph, NULL when it has none |
| Editor.Editor.MoveMarkFirst | src/editor/editor.c:554-561 | `text_editor_move_mark_first` leaves a mark without a document alone, and otherwise puts it at index 0 of the first paragraph (NULL when there is none) |
| Editor.Editor.MoveMarkLast | src/editor/editor.c:571-583 | `text_editor_move_mark_last` leaves a mark without a document alone, and otherwise puts it at the end of the last paragraph (NULL and 0 when there is none) |
| Editor.Editor.PlaceMark | src/editor/editor.c:355-538 | the mark stands at byte `i` of the `k`th paragraph afterwards, with its gravity and document kept |
| Editor.Editor.CrossLeft | src/editor/editor.c:388-418 | walking back over previous paragraphs either reaches the position `amount` characters before the start point, or returns NULL having covered fewer than `amount` |
| Editor.Editor.TryMoveMarkLeft | src/editor/editor.c:355-441 | moving left by `amount` lands `amount` characters earlier in the dump; past the start the shortfall is returned and a mark with a document goes to the start; -1 for NULL or a negative amount |
| Editor.Editor.MoveLeftBy | src/editor/editor.c:366-422 | from byte `index` of paragraph `k`, moving left by a positive amount lands at offset `g - amount`, or returns the shortfall past the start |
| Editor.Editor.MoveLeftAcross | src/editor/editor.c:386-422 | when the amount reaches past the paragraph start, the move lands at offset `g - amount` or returns the shortfall past the document start |
| Editor.Editor.CrossRight | src/editor/editor.c:491-521 | walking on over following paragraphs either reaches the position `amount` characters after the start point, before the last boundary, or returns NULL having covered fewer than `amount` |
| Editor.Editor.TryMoveMarkRight | src/editor/editor.c:456-544 | moving right by `amount` lands `amount` characters later in the dump; past the end the excess is returned and a mark with a document goes to the end; -1 for NULL or a negative amount |
| Editor.Editor.MoveRightBy | src/editor/editor.c:468-525 | from byte `index` of paragraph `k`, moving right by a positive amount lands at offset `g + amount`, or returns the excess past the end |
| Editor.Editor.MoveRightAcross | src/editor/editor.c:489-525 | when the amount reaches past the paragraph end, the move lands at offset `g + amount` or returns the excess past the document end |

## Left out

- `text_editor_delete_at_mark` (src/editor/editor.c:880-1092) and `text_editor_replace_at_mark` (1397-1413) are modelled on values only, in `EditorSpec` (`DeleteText`, `DeleteStop`, `DeleteMarks`, `JoinMarks`, `Backspace`, `ReplaceText`). They are not heap methods of `Editor`. The heap side of deletion is therefore not captured: `_delete_run`, `_erase_text` and `_erase_content` removing run objects, `_join_paragraphs` moving run nodes into the first paragraph, and the identity of the runs that survive a join. Only the resulting texts and mark places are stated.
- TreeNode.NodeTree.InsertChild and TreeNode.NodeTree.AttachOnly clear the child's `prev` and `next` in the empty-parent branch. src/tree/node.c:224-234 sets only `parent` there. The heap method keeps the corrected behaviour so that the list invariant holds. The code as written is `TreeNode.EmptyInsertAsWritten`; see Findings.
- EditorSpec.FrontBytes reads the C local `remaining` as 0 when the multi-paragraph loop stops on a boundary. In that case the code never writes it (src/editor/editor.c:1009-1027) and reads it uninitialised at line 1056. 0 is the value test/delete.c expects.
- EditorSpec.JoinShiftAsWritten uses the `bytes_deleted` last written (the tail cut from the first paragraph) when the loop stops on a boundary. In the C code that value is whatever the first call of `_delete_within_paragraph` left behind.
- EditorSpec.DeleteMarks takes `b` as 0 for a deletion of length 0. `_delete_within_paragraph` returns before writing `bytes_deleted` (src/editor/editor.c:741-742), and line 961 reads it uninitialised.
- EditorSpec.BackspaceAsWritten models a negative length only where `start` is the document's cursor. Line 903 always moves the cursor, whichever mark is passed.
- EditorSpec.EnsureOrdered compares paragraphs by their place among one frame's children. `_relate_nodes` (src/editor/editor.c:1110-1167) is only right for sibling paragraphs, and nested frames are not modelled.
- Editor.Editor.Valid (`Tidy`) admits only paragraphs made of runs, directly in the document's frame. The editor's branches for opaque and inline fragments are not modelled: inserting next to an object (src/editor/editor.c:1441-1459), splitting inside one (1322-1325) and erasing one (672-680). Nested frames are not modelled either.
- EditorSpec.DeleteTextDump requires the deletion not to run past the end of the document. Line 1011 dereferences the next paragraph without a check.
- Integer widths are not modelled; all arithmetic is on unbounded integers:
  - the `i32` heights and offsets of engine/src/layout.rs;
  - the release-build `usize` wrap-around of `Run::length` in src/table.rs (the debug-build panic is modelled, as `Underflow`);
  - C `int` overflow in the height sums of both layout generations and in mark offsets;
  - the `(int) strlen` cast at src/editor/editor.c:1473.
- Text is ASCII everywhere. UTF-8 and the `g_utf8_*` functions are not modelled, so `_get_offset`, `g_utf8_strlen` and `g_utf8_substring` are identities on byte offsets.
- A NULL run text is read as the empty string wherever the editor or the layout reads a run's text.
- LayoutTree.RunsText gives every child of the paragraph a `text` property, read as the empty string when NULL, as it is for an inline child made without text. The loop of src/layout/layout-box.c:127-135 reads the "text" property of every child. `TextInline` (src/model/inline.c:19) derives from `TextItem` and has no such property, so in the source `g_object_get` fails there and `run_text` is left uninitialised before it is appended. The model does not capture that undefined read.
- The child lists of frames, paragraphs and layout boxes are sequence fields in `TextModel`, `Editor`, `LayoutTree` and `LayoutBoxes`. They are not the `node.c` linked lists, which `TreeNode` models on their own.
- Pango (`pango_layout_get_pixel_size`, `pango_layout_index_to_pos`, the attribute objects) is reduced to the function parameters `measure` and `indexToPos`. A configured layout is the value `PangoState`. Shaping and wrapping are not modelled.
- libxml2 (`htmlParseDoc`, `xmlDocGetRootElement`) is reduced to the `DomNode` datatype and a parse-failure flag.
- The `gdouble` fields of the bounding boxes are integers.
- The following are not modelled: `g_print`, `g_warning` and `g_critical` output, reference counting and `free`, dispose and finalize (including the layout-box finalize loop), and GObject class boilerplate.
- The `text_editor_move_*`, `text_editor_insert_text`, `text_editor_split` and similar wrappers that act on the document's cursor (src/editor/editor.c:1769-1868) are not modelled. They only forward to the mark operations that are. `text_editor_insert_fragment_at_mark` and `text_editor_apply_format` are not modelled either.
- `text_mark_new` comes from two revisions of the tree. src/model/mark.c:23-36 and its callers at src/model/document.c:102 and 147 take three arguments and never set `document`. src/model/mark.h:32 and 40 declare a `document` field and a four-argument `text_mark_new` that takes it, and src/editor/editor.c:557 and 574 and test/delete.c (the fixture's `text_editor_move_first` at line 73, `test_inverse_bounds` at 405-426) rely on marks carrying their document. TextModel.Mark.constructor follows mark.c, so the model's marks start without a document. Editor.Editor.MoveMarkFirst and Editor.Editor.MoveMarkLast model both cases: a mark without a document is left alone, as the `g_return_if_fail` of src/editor/editor.c:557 and 574 does, and a mark with one is moved. Under the mark.c revision they do nothing for every mark the code creates; under the mark.h revision they move it.
- LayoutBoxes.BoxTree.Layout, LayoutBoxes.BoxLayout, LayoutBoxes.BlockLayout, LayoutBoxes.LayoutChildren, LayoutBoxes.LayoutChild require `Sound`: every inline child's fragment must be found by walking forward through the block's paragraph from where the previous inline child was found. Inputs that break this abort in the source at the `g_assert (fragment_iter != NULL)` of src/layout/layoutblock.c:261-268. Examples are inline children out of paragraph order, an item from another paragraph, or a NULL item while fragments remain. The model excludes these inputs instead of modelling the abort.
- ArenaModel.Tree.CreateNode, ArenaModel.Tree.AppendChild and ArenaModel.Tree.AppendSibling require the ids they `unwrap` to exist: `parentId < |arena|`, and a sibling that exists and has a parent. The `unwrap()` panics at engine/src/model.rs:124, 135, 141 and 144 are therefore excluded, not modelled. This also excludes `append_child(arena.len(), d)`, which does not panic in Rust: `create_node` pushes first, so the new node becomes its own parent and only child. The model's invariant rules out a node that is its own parent. `create_node` itself accepts any parent id. It is private and called only from the two append methods, and the model requires an existing parent for it as well, so that every parent link stays in range.
- TextModel.Fragment.Run follows `text_run_new (const gchar *text)` as declared at src/model/run.h:24 and as every caller uses it (src/editor/editor.c:598, 1254, 1297; src/format/import-html.c:54). The body shown in src/model/run.c:48-52 is an older `text_run_new (void)` that takes no text.
- TextModel.ItemAtIndex assumes how `text_paragraph_get_item_at_index` behaves: the first fragment whose byte range, end included, holds the index, so a boundary picks the earlier run. Its body is not part of this model.
- LayoutBoxes.SizeBytes assumes how `text_fragment_get_size_bytes` behaves: the fragment's length, which for a run is the byte length of its text. Its body is not part of this model.
- The `insert` of engine/src/model.rs:183-229 is commented out and is not modelled.
- The info-box builder of engine/src/layout.rs is `todo!()`. Building an element tree that holds an info box gives no layout (`None`).
- Margins and padding of `LayoutBox` (engine/src/layout.rs) are carried, but `layout` never reads them.
- `Document::resolve_ref` and the element types of the Rust engine are reduced to the `Element` datatype and the `resolve` parameter.

## Findings

| source | as written | input that shows it | evidently intended | confidence | as-written member | corrected member |
|---|---|---|---|---|---|---|
| src/table.rs:75-86 | the split branch overwrites the later run's `end_index` with the insert index and throws the new run away | three inserts of "A", "B", "C" at index 0 into an empty document: the runs become [0, 1) and [1, 0) of the append buffer, so `get_all_text` panics and "C" is lost | split the run at the index and put the new run between its halves | not executed | PieceTable.InsertAsWritten, PieceTable.ThreeFrontInsertsPanic | PieceTable.InsertSplit, PieceTable.InsertSplitCorrect |
| src/tree/node.c:317-322 | `insert_child_before` prepends when `compare` is the second child | children [10, 20], insert 30 before 20: the result is [30, 10, 20] | [10, 30, 20], with the child just before `compare` | not executed | TreeNode.InsertBeforeAsWritten, TreeNode.InsertBeforeSecondChild | TreeNode.InsertBeforeIntended, TreeNode.InsertBeforeIntendedPlacesBefore |
| src/tree/node.c:224-234 | inserting into a childless node sets only the child's `parent`, keeping its old `prev` and `next` | node 0 with children [1, 2]: unparent 1, then insert 1 into the empty node 3; node 1's `next` is still 2, a child of node 0 | the child's `prev` and `next` are cleared, so node 3's list is exactly [1] | not executed | TreeNode.EmptyInsertAsWritten, TreeNode.StaleNextAfterReinsert | TreeNode.NodeTree.AttachOnly |
| src/editor/editor.c:1478-1501 | the insertion mark loop compares every mark with `start->index`, which the loop itself moves when `start` is one of the marks (the cursor) | insert "ab" at index 0 of "x" with the right-gravity cursor as `start` and a selection mark at index 1: the selection is compared with the cursor's new index 2 and stays at 1, between "a" and "b" | the selection moves to 3 and stays after "x" | not executed | EditorSpec.InsertMarksAsWritten, EditorSpec.InsertCursorSkipsSelection | EditorSpec.InsertMarks, EditorSpec.InsertKeepsNeighbours |
| src/editor/editor.c:1369-1392 | the split mark loop compares every mark with `split->index`, which the loop moves to 0 when `split` is the right-gravity cursor | split "abc" at 2 with the right-gravity cursor as `split` and a selection at (cur, 1): the selection moves to (next, 1) | the selection stays at (cur, 1), before the split point | not executed | EditorSpec.SplitMarksAsWritten, EditorSpec.SplitCursorMovesSelection | EditorSpec.SplitMarks, EditorSpec.SplitKeepsNeighbours |
| src/editor/editor.c:1079 | marks of the stop paragraph are shifted by `offset - bytes_deleted`, where `bytes_deleted` is what was last cut (the first paragraph's tail when the loop stops on a boundary) | delete 2 characters from (0, 1) in "ab" / "cd": the text becomes "acd", and a mark at (1, 1) before "d" ends at (0, 1), before "c" | the mark ends at (0, 2), before "d" | not executed | EditorSpec.JoinShiftAsWritten, EditorSpec.JoinShiftCounterexample | EditorSpec.JoinShift, EditorSpec.JoinKeepsNeighbours |
| src/editor/editor.c:896-906 | with `text_mark_new` as in src/model/mark.c:23-36, the cursor has no document. A negative length moves the cursor back with `_try_move_mark_left`; past the start its `move_mark_first` then does nothing, and the characters it could move over are deleted forward from the cursor. This holds only for the mark.c revision: with the document that src/model/mark.h:40 and test/delete.c:73 give the cursor, it moves to (first, 0) and the code deletes exactly what EditorSpec.Backspace deletes | "abcdefghij" with the cursor at 3, delete -5 (mark.c's document-less cursor): "def" goes and "abcghij" remains; test/delete.c:405-426 expects "defghij" | the 3 characters before the cursor go, leaving "defghij" | not executed | EditorSpec.BackspaceAsWritten, EditorSpec.BackspaceCounterexample | EditorSpec.Backspace, EditorSpec.BackspaceDump |
