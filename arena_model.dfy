/** The arena document of the second Rust prototype: nodes live in one vector and
    refer to each other by index (`NodeId`); text nodes are byte ranges of an
    original buffer or of an append buffer. The text of a node is the text of its
    child subtrees, in child order, followed by its own text. */
module ArenaModel {
  import opened Optional

  /** A byte range of the append buffer (`append`) or of the original buffer. */
  datatype TextData = TextData(append: bool, startIndex: nat, endIndex: nat)

  /** `Data::Text(TextData)` or `Data::Opaque`. */
  datatype Data = Text(text: TextData) | Opaque

  datatype Node = Node(
    parentId: Option<nat>,
    nextId: Option<nat>,
    prevId: Option<nat>,
    firstChildId: Option<nat>,
    lastChildId: Option<nat>,
    data: Data)

  /** A node with the given parent and data and no other link. */
  function Detached(parentId: Option<nat>, data: Data): Node {
    Node(parentId, None, None, None, None, data)
  }

  predicate Below(link: Option<nat>, bound: nat) {
    link.Some? ==> link.value < bound
  }

  predicate Between(link: Option<nat>, low: nat, high: nat) {
    link.Some? ==> low < link.value < high
  }

  /** Every link points into the arena; child and next links point to later
      nodes, parent and prev links to earlier ones. Every operation of `Tree`
      keeps this, because nodes are only ever pushed at the end. */
  predicate WellLinked(arena: seq<Node>) {
    forall i :: 0 <= i < |arena| ==>
      Between(arena[i].firstChildId, i, |arena|) && Between(arena[i].lastChildId, i, |arena|)
      && Between(arena[i].nextId, i, |arena|)
      && Below(arena[i].parentId, i) && Below(arena[i].prevId, i)
  }

  /** The ids a `ChildrenIter` yields when its `current_id` is `from`: `from`, then
      the `next_id` chain until `None`. The ids strictly increase. */
  function Chain(arena: seq<Node>, from: Option<nat>): (ids: seq<nat>)
    requires WellLinked(arena) && Below(from, |arena|)
    ensures from.None? <==> ids == []
    ensures from.Some? ==> ids[0] == from.value
    ensures forall k :: 0 <= k < |ids| ==> ids[k] < |arena|
    ensures forall j, k :: 0 <= j < k < |ids| ==> ids[j] < ids[k]
    decreases if from.Some? then |arena| - from.value else 0
  {
    if from.None? then [] else [from.value] + Chain(arena, arena[from.value].nextId)
  }

  /** `tree.get_children(parent_id)`. */
  function Children(arena: seq<Node>, parentId: nat): seq<nat>
    requires WellLinked(arena) && parentId < |arena|
  {
    Chain(arena, arena[parentId].firstChildId)
  }

  // ---------------------------------------------------------------------------
  // Tree operations on the arena, as values
  // ---------------------------------------------------------------------------

  /** `create_node`: a detached node with the parent set, pushed at the end. */
  function AfterCreateNode(arena: seq<Node>, parentId: nat, data: Data): (r: seq<Node>)
    requires WellLinked(arena) && parentId < |arena|
    ensures WellLinked(r) && |r| == |arena| + 1 && r[..|arena|] == arena
  {
    arena + [Detached(Some(parentId), data)]
  }

  /** `append_child`: push the node; the parent's first child is set only when it
      had none, its last child always; no sibling is linked. */
  function AfterAppendChild(arena: seq<Node>, parentId: nat, data: Data): (r: seq<Node>)
    requires WellLinked(arena) && parentId < |arena|
    ensures WellLinked(r) && |r| == |arena| + 1
    ensures r[|arena|] == Detached(Some(parentId), data)
    ensures forall i :: 0 <= i < |arena| && i != parentId ==> r[i] == arena[i]
    ensures r[parentId].lastChildId == Some(|arena|)
    ensures r[parentId].firstChildId ==
      (if arena[parentId].firstChildId.None? then Some(|arena|) else arena[parentId].firstChildId)
  {
    var id := |arena|;
    var pushed := AfterCreateNode(arena, parentId, data);
    var parent := pushed[parentId];
    var parent' := parent.(
      firstChildId := if parent.firstChildId.None? then Some(id) else parent.firstChildId,
      lastChildId := Some(id));
    pushed[parentId := parent']
  }

  /** `append_sibling`: push a node with the sibling's parent, whose prev is the
      sibling; the sibling's next and the parent's last child become the new node. */
  function AfterAppendSibling(arena: seq<Node>, siblingId: nat, data: Data): (r: seq<Node>)
    requires WellLinked(arena) && siblingId < |arena| && arena[siblingId].parentId.Some?
    ensures WellLinked(r) && |r| == |arena| + 1
    ensures r[|arena|] == Detached(arena[siblingId].parentId, data).(prevId := Some(siblingId))
    ensures r[siblingId] == arena[siblingId].(nextId := Some(|arena|))
    ensures var p := arena[siblingId].parentId.value;
            r[p] == arena[p].(lastChildId := Some(|arena|))
            && forall i :: 0 <= i < |arena| && i != siblingId && i != p ==> r[i] == arena[i]
  {
    var parentId := arena[siblingId].parentId.value;
    var id := |arena|;
    var pushed := AfterCreateNode(arena, parentId, data);
    var withPrev := pushed[id := pushed[id].(prevId := Some(siblingId))];
    var withNext := withPrev[siblingId := withPrev[siblingId].(nextId := Some(id))];
    withNext[parentId := withNext[parentId].(lastChildId := Some(id))]
  }

  /** A childless parent gets the appended node as its one child. */
  lemma AppendChildToLeaf(arena: seq<Node>, parentId: nat, data: Data)
    requires WellLinked(arena) && parentId < |arena| && arena[parentId].firstChildId.None?
    ensures Children(AfterAppendChild(arena, parentId, data), parentId) == [|arena|]
  {
    var r := AfterAppendChild(arena, parentId, data);
    assert r[|arena|].nextId == None;
    assert Chain(r, r[|arena|].nextId) == [];
  }

  /** `append_child` links no sibling: once a parent has a first child, a
      further appended child is not among the children `ChildrenIter` yields. */
  lemma {:induction false} AppendChildInvisible(arena: seq<Node>, parentId: nat, data: Data)
    requires WellLinked(arena) && parentId < |arena| && arena[parentId].firstChildId.Some?
    ensures Children(AfterAppendChild(arena, parentId, data), parentId) == Children(arena, parentId)
    ensures |arena| !in Children(AfterAppendChild(arena, parentId, data), parentId)
  {
    var r := AfterAppendChild(arena, parentId, data);
    ChainUnchanged(arena, r, arena[parentId].firstChildId);
  }

  /** Pushing a node and rewriting links other than `nextId` of existing nodes
      leaves every existing chain as it was. */
  lemma {:induction false} ChainUnchanged(arena: seq<Node>, r: seq<Node>, from: Option<nat>)
    requires WellLinked(arena) && WellLinked(r) && |arena| <= |r| && Below(from, |arena|)
    requires forall i :: 0 <= i < |arena| ==> r[i].nextId == arena[i].nextId
    ensures Chain(r, from) == Chain(arena, from)
    decreases if from.Some? then |arena| - from.value else 0
  {
    if from.Some? {
      ChainUnchanged(arena, r, arena[from.value].nextId);
    }
  }

  /** Appending a sibling after the last node of a chain extends that chain by the new node. */
  lemma {:induction false} ChainExtended(arena: seq<Node>, siblingId: nat, data: Data, from: Option<nat>)
    requires WellLinked(arena) && siblingId < |arena| && arena[siblingId].parentId.Some?
    requires arena[siblingId].nextId.None?
    requires Below(from, |arena|) && siblingId in Chain(arena, from)
    ensures Chain(AfterAppendSibling(arena, siblingId, data), from) == Chain(arena, from) + [|arena|]
    decreases if from.Some? then |arena| - from.value else 0
  {
    var r := AfterAppendSibling(arena, siblingId, data);
    var x := from.value;
    if x == siblingId {
      assert r[|arena|].nextId == None;
      assert Chain(r, r[x].nextId) == [|arena|];
    } else {
      assert Chain(arena, from) == [x] + Chain(arena, arena[x].nextId);
      ChainExtended(arena, siblingId, data, arena[x].nextId);
      assert r[x].nextId == arena[x].nextId;
    }
  }

  /** Appending a sibling to the last child of a parent makes it the parent's new last child,
      visible at the end of `ChildrenIter`. */
  lemma AppendSiblingExtendsChildren(arena: seq<Node>, siblingId: nat, data: Data)
    requires WellLinked(arena) && siblingId < |arena| && arena[siblingId].parentId.Some?
    requires arena[siblingId].nextId.None?
    requires siblingId in Children(arena, arena[siblingId].parentId.value)
    ensures var p := arena[siblingId].parentId.value;
            Children(AfterAppendSibling(arena, siblingId, data), p) == Children(arena, p) + [|arena|]
            && AfterAppendSibling(arena, siblingId, data)[p].lastChildId == Some(|arena|)
  {
    var p := arena[siblingId].parentId.value;
    var r := AfterAppendSibling(arena, siblingId, data);
    if p == siblingId {
      // a node is never its own parent
      assert false;
    }
    assert r[p].firstChildId == arena[p].firstChildId;
    ChainExtended(arena, siblingId, data, arena[p].firstChildId);
  }

  // ---------------------------------------------------------------------------
  // The Tree object
  // ---------------------------------------------------------------------------

  class Tree {
    var arena: seq<Node>
    var root: nat
    var unused: seq<nat>

    ghost predicate Valid()
      reads this
    {
      WellLinked(arena) && root < |arena|
    }

    /** `Tree::new`: one opaque root at id 0, no links, nothing unused. */
    constructor ()
      ensures Valid() && arena == [Detached(None, Opaque)] && root == 0 && unused == []
    {
      arena := [Detached(None, Opaque)];
      root := 0;
      unused := [];
    }

    /** `get`: the node with that id, if any. */
    function Get(id: nat): (r: Option<Node>)
      reads this
      ensures r.Some? <==> id < |arena|
      ensures r.Some? ==> r.value == arena[id]
    {
      if id < |arena| then Some(arena[id]) else None
    }

    /** `create_node`: pushes a detached node with the given parent and returns
        the previous length of the arena as its id. */
    method CreateNode(parentId: nat, data: Data) returns (id: nat)
      requires Valid() && parentId < |arena|
      modifies this
      ensures Valid() && id == old(|arena|) && root == old(root) && unused == old(unused)
      ensures arena == AfterCreateNode(old(arena), parentId, data)
    {
      id := |arena|;
      arena := arena + [Detached(Some(parentId), data)];
    }

    /** `append_child`. The parent must exist before the call. The `unwrap` would also accept
        the new node's own id, which this model excludes, since no node is its own parent. */
    method AppendChild(parentId: nat, data: Data) returns (id: nat)
      requires Valid() && parentId < |arena|
      modifies this
      ensures Valid() && id == old(|arena|) && root == old(root) && unused == old(unused)
      ensures arena == AfterAppendChild(old(arena), parentId, data)
    {
      id := CreateNode(parentId, data);
      var parent := arena[parentId];
      if parent.firstChildId == None {
        parent := parent.(firstChildId := Some(id));
      }
      parent := parent.(lastChildId := Some(id));
      arena := arena[parentId := parent];
    }

    /** `append_sibling`. The `unwrap`s panic unless the sibling exists and has a parent;
        those inputs are excluded here. */
    method AppendSibling(siblingId: nat, data: Data) returns (id: nat)
      requires Valid() && siblingId < |arena| && arena[siblingId].parentId.Some?
      modifies this
      ensures Valid() && id == old(|arena|) && root == old(root) && unused == old(unused)
      ensures arena == AfterAppendSibling(old(arena), siblingId, data)
    {
      var parentId := arena[siblingId].parentId.value;
      var newId := CreateNode(parentId, data);
      arena := arena[newId := arena[newId].(prevId := Some(siblingId))];
      arena := arena[siblingId := arena[siblingId].(nextId := Some(newId))];
      arena := arena[parentId := arena[parentId].(lastChildId := Some(newId))];
      id := |arena| - 1;
    }
  }

  /** `ChildrenIter`: walks the child chain of a node. */
  class ChildrenIter {
    const tree: Tree
    var currentId: Option<nat>

    /** `ChildrenIter::new`: starts at the parent's first child (the `unwrap`
        requires the parent to exist). */
    constructor (tree: Tree, parentId: nat)
      requires tree.Valid() && parentId < |tree.arena|
      ensures this.tree == tree && currentId == tree.arena[parentId].firstChildId
    {
      this.tree := tree;
      currentId := tree.arena[parentId].firstChildId;
    }

    /** `next`: yields the current id and moves to its `next_id`. */
    method Next() returns (r: Option<nat>)
      requires tree.Valid() && Below(currentId, |tree.arena|)
      modifies this
      ensures Below(currentId, |tree.arena|)
      ensures r == old(currentId)
      ensures r.Some? ==> r.value < |tree.arena| && currentId == tree.arena[r.value].nextId
      ensures r.None? ==> currentId == None
    {
      r := currentId;
      if currentId.Some? {
        currentId := tree.arena[currentId.value].nextId;
      }
    }
  }

  // ---------------------------------------------------------------------------
  // The document and its text
  // ---------------------------------------------------------------------------

  /** String concatenation regroups. */
  lemma AppendAssoc(a: string, b: string, c: string)
    ensures a + (b + c) == (a + b) + c
  {
  }

  /** The slice a text node names exists in the buffer its flag selects. */
  predicate InRange(buffer: string, append: string, d: Data) {
    d.Text? ==> d.text.startIndex <= d.text.endIndex <= |if d.text.append then append else buffer|
  }

  /** `Document::get_text`: `None` for an opaque node, otherwise the node's slice
      of the append buffer or of the original buffer. */
  function NodeText(buffer: string, append: string, n: Node): (r: Option<string>)
    requires InRange(buffer, append, n.data)
    ensures r.None? <==> n.data.Opaque?
    ensures r.Some? ==> |r.value| == n.data.text.endIndex - n.data.text.startIndex
    ensures r.Some? ==> forall i :: 0 <= i < |r.value| ==>
      r.value[i] == (if n.data.text.append then append else buffer)[n.data.text.startIndex + i]
  {
    match n.data
    case Opaque => None
    case Text(TextData(fromAppend, s, e)) => Some(if fromAppend then append[s..e] else buffer[s..e])
  }

  predicate DocValid(arena: seq<Node>, buffer: string, append: string) {
    WellLinked(arena) && forall i :: 0 <= i < |arena| ==> InRange(buffer, append, arena[i].data)
  }

  /** The text `get_text_dfs` emits for a node: its children's subtrees, in
      child order, then its own text. */
  function SubtreeText(arena: seq<Node>, buffer: string, append: string, id: nat): string
    requires DocValid(arena, buffer, append) && id < |arena|
    decreases |arena| - id, 0
  {
    var own := NodeText(buffer, append, arena[id]);
    ChildrenText(arena, buffer, append, arena[id].firstChildId) + (if own.Some? then own.value else "")
  }

  /** The texts of the subtrees of the chain starting at `from`, in order. */
  function ChildrenText(arena: seq<Node>, buffer: string, append: string, from: Option<nat>): string
    requires DocValid(arena, buffer, append) && Below(from, |arena|)
    decreases if from.Some? then |arena| - from.value else 0, 1
  {
    if from.None? then ""
    else SubtreeText(arena, buffer, append, from.value) + ChildrenText(arena, buffer, append, arena[from.value].nextId)
  }

  /** The subtree texts of a chain are those of the ids `Chain` lists, concatenated in order. */
  function TextsOf(arena: seq<Node>, buffer: string, append: string, ids: seq<nat>): string
    requires DocValid(arena, buffer, append) && forall k :: 0 <= k < |ids| ==> ids[k] < |arena|
  {
    if ids == [] then "" else SubtreeText(arena, buffer, append, ids[0]) + TextsOf(arena, buffer, append, ids[1..])
  }

  /** `get_text_dfs` visits the children in the order `ChildrenIter` yields them. */
  lemma {:induction false} ChildrenTextInChildOrder(arena: seq<Node>, buffer: string, append: string, from: Option<nat>)
    requires DocValid(arena, buffer, append) && Below(from, |arena|)
    ensures ChildrenText(arena, buffer, append, from) == TextsOf(arena, buffer, append, Chain(arena, from))
    decreases if from.Some? then |arena| - from.value else 0
  {
    if from.Some? {
      var ids := Chain(arena, from);
      assert ids[1..] == Chain(arena, arena[from.value].nextId);
      ChildrenTextInChildOrder(arena, buffer, append, arena[from.value].nextId);
    }
  }

  /** The arena `Document::new(Some(s))` builds is well linked and its one text node can be sliced. */
  lemma InitialValid(a: seq<Node>, s: string)
    requires a == [Node(None, None, None, Some(1), Some(1), Opaque),
                   Node(Some(0), None, None, None, None, Text(TextData(false, 0, |s|)))]
    ensures DocValid(a, s, "")
  {
    forall i | 0 <= i < |a|
      ensures Between(a[i].firstChildId, i, |a|) && Between(a[i].lastChildId, i, |a|) && Between(a[i].nextId, i, |a|)
      ensures Below(a[i].parentId, i) && Below(a[i].prevId, i) && InRange(s, "", a[i].data)
    {
      assert i == 0 || i == 1;
    }
  }

  /** The arena `Document::new(Some(s))` builds: an opaque root and one text child over all of `s`. */
  lemma InitialText(a: seq<Node>, s: string)
    requires a == [Node(None, None, None, Some(1), Some(1), Opaque),
                   Node(Some(0), None, None, None, None, Text(TextData(false, 0, |s|)))]
    ensures DocValid(a, s, "") && SubtreeText(a, s, "", 0) == s
  {
    InitialValid(a, s);
    assert SubtreeText(a, s, "", 1) == s by {
      assert s[0..|s|] == s;
      assert ChildrenText(a, s, "", None) == "";
      assert "" + s == s;
    }
    assert ChildrenText(a, s, "", Some(1)) == s by {
      assert s + "" == s;
    }
    assert SubtreeText(a, s, "", 0) == s + "";
    assert s + "" == s;
  }

  class Document {
    var buffer: string
    var append: string
    var tree: Tree

    ghost predicate Valid()
      reads this, tree
    {
      tree.Valid() && DocValid(tree.arena, buffer, append)
    }

    /** The text `get_all_text` returns. */
    ghost function AllText(): string
      reads this, tree
      requires Valid()
    {
      SubtreeText(tree.arena, buffer, append, tree.root)
    }

    /** `Document::new`: `Some(s)` gives an opaque root with one text child covering
        the original buffer, so the document's text is `s`; `None` gives a bare root and "". */
    constructor (initial: Option<string>)
      ensures Valid() && fresh(tree)
      ensures buffer == (if initial.Some? then initial.value else "") && append == ""
      ensures AllText() == buffer
    {
      var t := new Tree();
      var s := if initial.Some? then initial.value else "";
      if initial.Some? {
        var _ := t.AppendChild(t.root, Text(TextData(false, 0, |s|)));
      }
      buffer := s;
      append := "";
      tree := t;
      new;
      if initial.Some? {
        InitialText(tree.arena, s);
      } else {
        assert ChildrenText(tree.arena, s, "", tree.arena[0].firstChildId) == "";
      }
    }

    /** `get_text`: see `NodeText`. */
    function GetText(n: Node): (r: Option<string>)
      reads this
      requires InRange(buffer, append, n.data)
      ensures r == NodeText(buffer, append, n)
      ensures r.None? <==> n.data.Opaque?
    {
      match n.data
      case Opaque => None
      case Text(TextData(fromAppend, s, e)) => Some(if fromAppend then append[s..e] else buffer[s..e])
    }

    /** `get_text_dfs`: appends the text of the subtree of `nodeId` to `output`. */
    method GetTextDfs(tree: Tree, nodeId: nat, output: string) returns (result: string)
      requires tree.Valid() && DocValid(tree.arena, buffer, append) && nodeId < |tree.arena|
      ensures result == output + SubtreeText(tree.arena, buffer, append, nodeId)
      decreases |tree.arena| - nodeId
    {
      ghost var arena := tree.arena;
      ghost var all := ChildrenText(arena, buffer, append, arena[nodeId].firstChildId);
      result := output;
      var children := new ChildrenIter(tree, nodeId);
      ghost var done := "";
      while true
        invariant children.tree == tree && tree.arena == arena
        invariant Below(children.currentId, |arena|)
        invariant children.currentId.Some? ==> nodeId < children.currentId.value
        invariant result == output + done
        invariant all == done + ChildrenText(arena, buffer, append, children.currentId)
        decreases if children.currentId.Some? then |arena| - children.currentId.value else 0
      {
        var child := children.Next();
        if child.None? {
          break;
        }
        ghost var sub := SubtreeText(arena, buffer, append, child.value);
        ghost var rest := ChildrenText(arena, buffer, append, children.currentId);
        AppendAssoc(done, sub, rest);
        result := GetTextDfs(tree, child.value, result);
        done := done + sub;
      }
      assert all == done;
      var own := GetText(tree.arena[nodeId]);
      if own.Some? {
        AppendAssoc(output, done, own.value);
        result := result + own.value;
      } else {
        assert output + done == output + (done + "");
      }
    }

    /** `get_all_text`: the depth-first text from the root. */
    method GetAllText() returns (s: string)
      requires Valid()
      ensures s == AllText()
    {
      s := GetTextDfs(tree, tree.root, "");
    }
  }
}
