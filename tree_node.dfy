/**
 * The intrusive child list of the C document tree (`src/tree/node.c`).
 *
 * Every `TextNode` carries `parent`, `prev`, `next`, `first_child`,
 * `last_child` and `n_children`. The nodes live in a `NodeTree` heap, where
 * a node is identified by its index in `links`; the ghost field `kids` holds,
 * for every node, the sequence of children its list is meant to represent,
 * and `Valid` is the list invariant tying the pointer fields to it.
 *
 * A node that is in no child list may carry stale `parent`, `prev` and
 * `next` pointers: `text_node_unparent_child` does not clear them, and the
 * invariant says nothing about them.
 */
module TreeNode {
  import opened Optional

  /** The pointer fields of one node (`TextNodePrivate`). */
  datatype Links = Links(parent: Option<nat>, prev: Option<nat>, next: Option<nat>,
                         firstChild: Option<nat>, lastChild: Option<nat>, nChildren: int)

  /** A new node: GObject zero-fills the record and `text_node_init` clears the child fields. */
  const Unlinked: Links := Links(None, None, None, None, None, 0)

  /** The `i`-th element of `ks`, or `None` past either end. */
  function At(ks: seq<nat>, i: int): Option<nat> {
    if 0 <= i < |ks| then Some(ks[i]) else None
  }

  ghost predicate Distinct(ks: seq<nat>) {
    forall i, j :: 0 <= i < j < |ks| ==> ks[i] != ks[j]
  }

  /** Child `i` of the list `ks` of `p` points back to `p` and to its neighbours. */
  ghost predicate SiblingLinked(links: seq<Links>, p: nat, ks: seq<nat>, i: nat)
    requires i < |ks|
  {
    ks[i] < |links| && ks[i] != p && links[ks[i]].parent == Some(p) &&
    links[ks[i]].prev == At(ks, i - 1) && links[ks[i]].next == At(ks, i + 1)
  }

  /**
   * The list invariant for one node: `n_children` is the number of children,
   * `first_child` and `last_child` are its ends, and `prev` mirrors `next`
   * along the chain.
   */
  ghost predicate ListLinked(links: seq<Links>, p: nat, ks: seq<nat>) {
    p < |links| && Distinct(ks) &&
    (forall i :: 0 <= i < |ks| ==> ks[i] < |links|) &&
    links[p].nChildren == |ks| &&
    links[p].firstChild == At(ks, 0) &&
    links[p].lastChild == At(ks, |ks| - 1) &&
    forall i: nat :: i < |ks| ==> SiblingLinked(links, p, ks, i)
  }

  /** Every node's list is linked, and every parent pointer names a node. */
  ghost predicate Wellformed(links: seq<Links>, kids: seq<seq<nat>>) {
    |kids| == |links| &&
    (forall p: nat :: p < |kids| ==> ListLinked(links, p, kids[p])) &&
    (forall x: nat :: x < |links| && links[x].parent.Some? ==> links[x].parent.value < |links|)
  }

  /** `c` is in no child list. */
  ghost predicate Detached(kids: seq<seq<nat>>, c: nat) {
    forall p: nat :: p < |kids| ==> c !in kids[p]
  }

  predicate SameSiblingLinks(a: Links, b: Links) {
    a.parent == b.parent && a.prev == b.prev && a.next == b.next
  }

  predicate SameListHead(a: Links, b: Links) {
    a.firstChild == b.firstChild && a.lastChild == b.lastChild && a.nChildren == b.nChildren
  }

  /** The position of `c` in `ks`, or -1 (`_get_index_of`). */
  function IndexOf(ks: seq<nat>, c: nat): (r: int)
    ensures -1 <= r < |ks|
    ensures r == -1 <==> c !in ks
    ensures r >= 0 ==> ks[r] == c && c !in ks[..r]
  {
    if ks == [] then -1
    else if ks[0] == c then 0
    else
      var r := IndexOf(ks[1..], c);
      assert ks[1..][..if r >= 0 then r else 0] == ks[1..if r >= 0 then r + 1 else 1];
      if r == -1 then -1 else r + 1
  }

  // ---------------------------------------------------------------------------
  // Frame lemmas
  // ---------------------------------------------------------------------------

  /** A child is in the list of its parent only. */
  lemma OnlyInParentList(links: seq<Links>, kids: seq<seq<nat>>, p: nat, c: nat)
    requires Wellformed(links, kids) && p < |kids| && c in kids[p]
    ensures forall q: nat :: q < |kids| && q != p ==> c !in kids[q]
  {
    forall q: nat | q < |kids| && q != p
      ensures c !in kids[q]
    {
      var i: nat :| i < |kids[p]| && kids[p][i] == c;
      assert SiblingLinked(links, p, kids[p], i);
      forall j: nat | j < |kids[q]|
        ensures kids[q][j] != c
      {
        assert SiblingLinked(links, q, kids[q], j);
      }
    }
  }

  /**
   * Rewriting the head of `self` and the sibling fields of its children and
   * of one node `extra` that is its child or in no list keeps every other
   * list linked.
   */
  lemma OtherListsLinked(links: seq<Links>, links': seq<Links>, kids: seq<seq<nat>>, self: nat, extra: nat)
    requires Wellformed(links, kids) && self < |links| && |links'| == |links| && extra < |links|
    requires SameSiblingLinks(links[self], links'[self])
    requires Detached(kids, extra) || extra in kids[self]
    requires forall x: nat :: x < |links| && x != self ==> SameListHead(links[x], links'[x])
    requires forall x: nat :: x < |links| && x != self && x != extra && x !in kids[self] ==> links'[x] == links[x]
    ensures forall q: nat :: q < |kids| && q != self ==> ListLinked(links', q, kids[q])
  {
    forall q: nat | q < |kids| && q != self
      ensures ListLinked(links', q, kids[q])
    {
      var ks := kids[q];
      assert ListLinked(links, q, ks);
      forall i: nat | i < |ks|
        ensures SiblingLinked(links', q, ks, i)
      {
        assert SiblingLinked(links, q, ks, i);
        var y := ks[i];
        if y in kids[self] {
          OnlyInParentList(links, kids, self, y);
          assert false;
        }
      }
    }
  }

  /**
   * The head and sibling fields an insertion at position `k` writes make the
   * list of `self` the old list with `child` at `k`.
   */
  lemma InsertedListLinked(links: seq<Links>, links': seq<Links>, self: nat, ks: seq<nat>, k: nat, child: nat)
    requires ListLinked(links, self, ks) && |links'| == |links|
    requires child < |links| && child != self && child !in ks && k <= |ks|
    requires links'[self].nChildren == |ks| + 1
    requires links'[self].firstChild == (if k == 0 then Some(child) else At(ks, 0))
    requires links'[self].lastChild == (if k == |ks| then Some(child) else At(ks, |ks| - 1))
    requires links'[child].parent == Some(self) && links'[child].prev == At(ks, k - 1) && links'[child].next == At(ks, k)
    requires k > 0 ==> (links'[ks[k - 1]].parent == links[ks[k - 1]].parent &&
      links'[ks[k - 1]].prev == links[ks[k - 1]].prev && links'[ks[k - 1]].next == Some(child))
    requires k < |ks| ==> (links'[ks[k]].parent == links[ks[k]].parent &&
      links'[ks[k]].prev == Some(child) && links'[ks[k]].next == links[ks[k]].next)
    requires forall i: nat :: i < |ks| && i + 1 != k && i != k ==> SameSiblingLinks(links[ks[i]], links'[ks[i]])
    ensures ListLinked(links', self, ks[..k] + [child] + ks[k..])
  {
    var ks' := ks[..k] + [child] + ks[k..];
    assert |ks'| == |ks| + 1;
    forall i: nat | i < |ks'|
      ensures SiblingLinked(links', self, ks', i)
    {
      if i < k {
        assert ks'[i] == ks[i];
        assert SiblingLinked(links, self, ks, i);
      } else if i > k {
        assert ks'[i] == ks[i - 1];
        assert SiblingLinked(links, self, ks, i - 1);
      }
    }
    InsertedDistinct(ks, k, child);
  }

  lemma InsertedDistinct(ks: seq<nat>, k: nat, child: nat)
    requires Distinct(ks) && child !in ks && k <= |ks|
    ensures Distinct(ks[..k] + [child] + ks[k..])
  {
    var ks' := ks[..k] + [child] + ks[k..];
    forall i, j | 0 <= i < j < |ks'|
      ensures ks'[i] != ks'[j]
    {
      if i != k && j != k {
        var i0 := if i < k then i else i - 1;
        var j0 := if j < k then j else j - 1;
        assert ks'[i] == ks[i0] && ks'[j] == ks[j0];
      }
    }
  }

  /** The list of `self` after an insertion, given that only the new child and its two neighbours changed. */
  lemma InsertSelfLinked(links: seq<Links>, links': seq<Links>, kids: seq<seq<nat>>, self: nat, k: nat, child: nat)
    requires Wellformed(links, kids) && self < |links| && |links'| == |links|
    requires child < |links| && child != self && Detached(kids, child) && k <= |kids[self]|
    requires links'[self].nChildren == |kids[self]| + 1
    requires links'[self].firstChild == (if k == 0 then Some(child) else At(kids[self], 0))
    requires links'[self].lastChild == (if k == |kids[self]| then Some(child) else At(kids[self], |kids[self]| - 1))
    requires links'[child].parent == Some(self) && links'[child].prev == At(kids[self], k - 1) &&
      links'[child].next == At(kids[self], k)
    requires k > 0 ==> (links'[kids[self][k - 1]].prev == links[kids[self][k - 1]].prev &&
      links'[kids[self][k - 1]].next == Some(child))
    requires k < |kids[self]| ==> (links'[kids[self][k]].prev == Some(child) &&
      links'[kids[self][k]].next == links[kids[self][k]].next)
    requires forall x: nat :: x < |links| && x != child ==> links'[x].parent == links[x].parent
    requires forall x: nat ::
      (x < |links| && x != self && x != child && Some(x) != At(kids[self], k - 1) && Some(x) != At(kids[self], k)) ==>
      links'[x] == links[x]
    ensures ListLinked(links', self, kids[self][..k] + [child] + kids[self][k..])
  {
    var ks := kids[self];
    assert ListLinked(links, self, ks);
    assert child !in ks;
    forall i: nat | i < |ks| && i + 1 != k && i != k
      ensures SameSiblingLinks(links[ks[i]], links'[ks[i]])
    {
      assert SiblingLinked(links, self, ks, i);
      assert Some(ks[i]) != At(ks, k - 1) && Some(ks[i]) != At(ks, k);
    }
    if k > 0 {
      assert SiblingLinked(links, self, ks, k - 1);
    }
    if k < |ks| {
      assert SiblingLinked(links, self, ks, k);
    }
    InsertedListLinked(links, links', self, ks, k, child);
  }

  /** Parent pointers stay in range when only `child`'s changes, to `self`. */
  lemma ParentsInRange(links: seq<Links>, links': seq<Links>, self: nat, child: nat)
    requires forall x: nat :: x < |links| && links[x].parent.Some? ==> links[x].parent.value < |links|
    requires |links'| == |links| && self < |links| && child < |links| && links'[child].parent == Some(self)
    requires forall x: nat :: x < |links| && x != child ==> links'[x].parent == links[x].parent
    ensures forall x: nat :: x < |links'| && links'[x].parent.Some? ==> links'[x].parent.value < |links'|
  {
  }

  /** Replacing the list of `self` by a linked one keeps the heap well formed when the other lists stay linked. */
  lemma ReplaceListWellformed(links: seq<Links>, kids: seq<seq<nat>>, self: nat, l: seq<nat>)
    requires self < |kids| == |links|
    requires ListLinked(links, self, l)
    requires forall q: nat :: q < |kids| && q != self ==> ListLinked(links, q, kids[q])
    requires forall x: nat :: x < |links| && links[x].parent.Some? ==> links[x].parent.value < |links|
    ensures Wellformed(links, kids[self := l])
  {
    var kids' := kids[self := l];
    forall p: nat | p < |kids'|
      ensures ListLinked(links, p, kids'[p])
    {
      if p != self {
        assert kids'[p] == kids[p];
      }
    }
  }

  /** An insertion at position `k` of the list of `self` keeps the whole heap well formed. */
  lemma InsertWellformed(links: seq<Links>, links': seq<Links>, kids: seq<seq<nat>>, self: nat, k: nat, child: nat)
    requires Wellformed(links, kids) && self < |links| && |links'| == |links|
    requires child < |links| && child != self && Detached(kids, child) && k <= |kids[self]|
    requires links'[self].nChildren == |kids[self]| + 1
    requires links'[self].firstChild == (if k == 0 then Some(child) else At(kids[self], 0))
    requires links'[self].lastChild == (if k == |kids[self]| then Some(child) else At(kids[self], |kids[self]| - 1))
    requires links'[child].parent == Some(self) && links'[child].prev == At(kids[self], k - 1) &&
      links'[child].next == At(kids[self], k)
    requires k > 0 ==> (links'[kids[self][k - 1]].prev == links[kids[self][k - 1]].prev &&
      links'[kids[self][k - 1]].next == Some(child))
    requires k < |kids[self]| ==> (links'[kids[self][k]].prev == Some(child) &&
      links'[kids[self][k]].next == links[kids[self][k]].next)
    requires SameSiblingLinks(links[self], links'[self])
    requires forall x: nat :: x < |links| && x != child ==> links'[x].parent == links[x].parent
    requires forall x: nat :: x < |links| && x != self ==> SameListHead(links[x], links'[x])
    requires forall x: nat ::
      (x < |links| && x != self && x != child && Some(x) != At(kids[self], k - 1) && Some(x) != At(kids[self], k)) ==>
      links'[x] == links[x]
    ensures Wellformed(links', kids[self := kids[self][..k] + [child] + kids[self][k..]])
  {
    var ks := kids[self];
    var l := ks[..k] + [child] + ks[k..];
    assert ListLinked(links', self, l) by {
      InsertSelfLinked(links, links', kids, self, k, child);
    }
    assert forall q: nat :: q < |kids| && q != self ==> ListLinked(links', q, kids[q]) by {
      OtherListsLinked(links, links', kids, self, child);
    }
    assert forall x: nat :: x < |links'| && links'[x].parent.Some? ==> links'[x].parent.value < |links'| by {
      ParentsInRange(links, links', self, child);
    }
    ReplaceListWellformed(links', kids, self, l);
  }

  /** Splicing child `k` out of the list of `self` keeps the heap well formed and leaves it in no list. */
  lemma RemoveWellformed(links: seq<Links>, links': seq<Links>, kids: seq<seq<nat>>, self: nat, k: nat)
    requires Wellformed(links, kids) && self < |links| && |links'| == |links| && k < |kids[self]|
    requires links'[self].nChildren == |kids[self]| - 1
    requires links'[self].firstChild == (if k == 0 then At(kids[self], 1) else At(kids[self], 0))
    requires links'[self].lastChild == (if k == |kids[self]| - 1 then At(kids[self], k - 1) else At(kids[self], |kids[self]| - 1))
    requires k > 0 ==> (links'[kids[self][k - 1]].prev == links[kids[self][k - 1]].prev &&
      links'[kids[self][k - 1]].next == At(kids[self], k + 1))
    requires k + 1 < |kids[self]| ==> (links'[kids[self][k + 1]].prev == At(kids[self], k - 1) &&
      links'[kids[self][k + 1]].next == links[kids[self][k + 1]].next)
    requires SameSiblingLinks(links[self], links'[self])
    requires forall x: nat :: x < |links| ==> links'[x].parent == links[x].parent
    requires forall x: nat :: x < |links| && x != self ==> SameListHead(links[x], links'[x])
    requires forall x: nat ::
      (x < |links| && x != self && Some(x) != At(kids[self], k - 1) && Some(x) != At(kids[self], k + 1)) ==>
      links'[x] == links[x]
    ensures Wellformed(links', kids[self := kids[self][..k] + kids[self][k + 1..]])
    ensures Detached(kids[self := kids[self][..k] + kids[self][k + 1..]], kids[self][k])
  {
    var ks := kids[self];
    var child := ks[k];
    assert ListLinked(links, self, ks);
    forall i: nat | i < |ks| && i + 1 != k && i != k + 1
      ensures links'[ks[i]] == links[ks[i]]
    {
      assert SiblingLinked(links, self, ks, i);
    }
    RemovedListLinked(links, links', self, ks, k);
    assert child in ks;
    OtherListsLinked(links, links', kids, self, child);
    var kids' := kids[self := ks[..k] + ks[k + 1..]];
    forall p: nat | p < |kids'|
      ensures ListLinked(links', p, kids'[p])
    {
      if p != self {
        assert kids'[p] == kids[p];
      }
    }
    forall x: nat | x < |links'| && links'[x].parent.Some?
      ensures links'[x].parent.value < |links'|
    {
      assert links[x].parent == links'[x].parent;
    }
    RemovedDetached(links, kids, self, k);
  }

  lemma RemovedDetached(links: seq<Links>, kids: seq<seq<nat>>, self: nat, k: nat)
    requires Wellformed(links, kids) && self < |links| && k < |kids[self]|
    ensures Detached(kids[self := kids[self][..k] + kids[self][k + 1..]], kids[self][k])
  {
    var ks := kids[self];
    var child := ks[k];
    var kids' := kids[self := ks[..k] + ks[k + 1..]];
    assert ListLinked(links, self, ks);
    OnlyInParentList(links, kids, self, child);
    forall p: nat | p < |kids'|
      ensures child !in kids'[p]
    {
      if p == self {
        forall i | 0 <= i < |kids'[p]|
          ensures kids'[p][i] != child
        {
          if i < k {
            assert kids'[p][i] == ks[i];
          } else {
            assert kids'[p][i] == ks[i + 1];
          }
        }
      }
    }
  }

  /**
   * Splicing out child `k` (relinking its neighbours and the head) makes the
   * list of `self` the old list without it.
   */
  lemma RemovedListLinked(links: seq<Links>, links': seq<Links>, self: nat, ks: seq<nat>, k: nat)
    requires ListLinked(links, self, ks) && |links'| == |links| && k < |ks|
    requires links'[self].nChildren == |ks| - 1
    requires links'[self].firstChild == (if k == 0 then At(ks, 1) else At(ks, 0))
    requires links'[self].lastChild == (if k == |ks| - 1 then At(ks, k - 1) else At(ks, |ks| - 1))
    requires k > 0 ==> (links'[ks[k - 1]].parent == links[ks[k - 1]].parent &&
      links'[ks[k - 1]].prev == links[ks[k - 1]].prev && links'[ks[k - 1]].next == At(ks, k + 1))
    requires k + 1 < |ks| ==> (links'[ks[k + 1]].parent == links[ks[k + 1]].parent &&
      links'[ks[k + 1]].prev == At(ks, k - 1) && links'[ks[k + 1]].next == links[ks[k + 1]].next)
    requires forall i: nat :: i < |ks| && i + 1 != k && i != k + 1 ==> SameSiblingLinks(links[ks[i]], links'[ks[i]])
    ensures ListLinked(links', self, ks[..k] + ks[k + 1..])
  {
    var ks' := ks[..k] + ks[k + 1..];
    assert |ks'| == |ks| - 1;
    forall i: nat | i < |ks'|
      ensures SiblingLinked(links', self, ks', i)
    {
      if i < k {
        assert ks'[i] == ks[i];
        assert SiblingLinked(links, self, ks, i);
      } else {
        assert ks'[i] == ks[i + 1];
        assert SiblingLinked(links, self, ks, i + 1);
      }
    }
    RemovedDistinct(ks, k);
  }

  lemma RemovedDistinct(ks: seq<nat>, k: nat)
    requires Distinct(ks) && k < |ks|
    ensures Distinct(ks[..k] + ks[k + 1..])
  {
    var ks' := ks[..k] + ks[k + 1..];
    forall i, j | 0 <= i < j < |ks'|
      ensures ks'[i] != ks'[j]
    {
      var i0 := if i < k then i else i + 1;
      var j0 := if j < k then j else j + 1;
      assert ks'[i] == ks[i0] && ks'[j] == ks[j0];
    }
  }

  // ---------------------------------------------------------------------------
  // Child orders
  // ---------------------------------------------------------------------------

  /** The children after `text_node_insert_child_before(self, c, compare)`, as written. */
  function InsertBeforeAsWritten(ks: seq<nat>, c: nat, compare: nat): seq<nat> {
    var k := IndexOf(ks, compare);
    if k == -1 then ks
    else if k - 1 == 0 then [c] + ks
    else ks[..k] + [c] + ks[k..]
  }

  /** The children `text_node_insert_child_before` is meant to produce: `c` just before `compare`. */
  function InsertBeforeIntended(ks: seq<nat>, c: nat, compare: nat): seq<nat> {
    var k := IndexOf(ks, compare);
    if k == -1 then ks else ks[..k] + [c] + ks[k..]
  }

  /** Inserting `c` at position `k` of `ks`: `c` sits at `k` and removing it gives `ks` back. */
  lemma InsertAt(ks: seq<nat>, k: nat, c: nat)
    requires k <= |ks|
    ensures var r := ks[..k] + [c] + ks[k..];
      |r| == |ks| + 1 && r[k] == c && (k < |ks| ==> r[k + 1] == ks[k]) && r[..k] + r[k + 1..] == ks
  {
    var r := ks[..k] + [c] + ks[k..];
    assert r[..k] == ks[..k];
    assert r[k + 1..] == ks[k..];
  }

  /** The intended insertion puts `c` immediately before `compare` and keeps the rest in order. */
  lemma InsertBeforeIntendedPlacesBefore(ks: seq<nat>, c: nat, compare: nat)
    requires compare in ks
    ensures var r := InsertBeforeIntended(ks, c, compare);
      var k := IndexOf(ks, compare);
      |r| == |ks| + 1 && r[k] == c && r[k + 1] == compare && r[..k] + r[k + 1..] == ks
  {
    InsertAt(ks, IndexOf(ks, compare), c);
  }

  /** As written, the child goes right before `compare` unless `compare` is the second child. */
  lemma InsertBeforeAsWrittenAgrees(ks: seq<nat>, c: nat, compare: nat)
    requires IndexOf(ks, compare) != 1
    ensures InsertBeforeAsWritten(ks, c, compare) == InsertBeforeIntended(ks, c, compare)
  {
    var k := IndexOf(ks, compare);
    if k == 0 {
      assert ks[..0] + [c] + ks[0..] == [c] + ks;
    }
  }

  /** When `compare` is the second child, the child is put first instead. */
  lemma InsertBeforeSecondChild()
    ensures InsertBeforeAsWritten([10, 20], 30, 20) == [30, 10, 20]
    ensures InsertBeforeIntended([10, 20], 30, 20) == [10, 30, 20]
  {
    assert IndexOf([10, 20], 20) == 1 by {
      assert [10, 20][1..] == [20];
    }
    assert [10, 20][..1] == [10] && [10, 20][1..] == [20];
  }

  /** The empty-parent branch of `text_node_insert_child` as written: only `parent` is set on the child. */
  function EmptyInsertAsWritten(links: seq<Links>, self: nat, child: nat): seq<Links>
    requires self < |links| && child < |links|
  {
    links[self := links[self].(firstChild := Some(child), lastChild := Some(child), nChildren := 1)]
         [child := links[child].(parent := Some(self))]
  }

  /**
   * Node 0 has children [1, 2]; `text_node_unparent_child (0, 1)` leaves
   * node 1 with `next == 2`. Inserting node 1 into the empty node 3 as
   * written gives node 3 one child whose `next` is a child of node 0.
   */
  lemma StaleNextAfterReinsert()
    ensures var before := [Links(None, None, None, Some(1), Some(2), 2), Links(Some(0), None, Some(2), None, None, 0),
                           Links(Some(0), Some(1), None, None, None, 0), Unlinked];
      var unparented := [Links(None, None, None, Some(2), Some(2), 1), Links(Some(0), None, Some(2), None, None, 0),
                         Links(Some(0), None, None, None, None, 0), Unlinked];
      var after := EmptyInsertAsWritten(unparented, 3, 1);
      Wellformed(before, [[1, 2], [], [], []]) &&
      Wellformed(unparented, [[2], [], [], []]) && Detached([[2], [], [], []], 1) &&
      after[3].nChildren == 1 && after[3].firstChild == Some(1) && after[1].next == Some(2) &&
      !ListLinked(after, 3, [1])
  {
    var before := [Links(None, None, None, Some(1), Some(2), 2), Links(Some(0), None, Some(2), None, None, 0),
                   Links(Some(0), Some(1), None, None, None, 0), Unlinked];
    var unparented := [Links(None, None, None, Some(2), Some(2), 1), Links(Some(0), None, Some(2), None, None, 0),
                       Links(Some(0), None, None, None, None, 0), Unlinked];
    var after := EmptyInsertAsWritten(unparented, 3, 1);
    assert ListLinked(before, 0, [1, 2]) by {
      assert SiblingLinked(before, 0, [1, 2], 0);
      assert SiblingLinked(before, 0, [1, 2], 1);
    }
    assert ListLinked(unparented, 0, [2]) by {
      assert SiblingLinked(unparented, 0, [2], 0);
    }
    assert !SiblingLinked(after, 3, [1], 0);
  }

  // ---------------------------------------------------------------------------
  // The node heap
  // ---------------------------------------------------------------------------

  class NodeTree {
    var links: seq<Links>
    ghost var kids: seq<seq<nat>>

    ghost predicate Valid()
      reads this
    {
      Wellformed(links, kids)
    }

    constructor ()
      ensures Valid() && links == [] && kids == []
    {
      links := [];
      kids := [];
    }

    /** `text_node_new`: a node with no parent, no siblings and no children. */
    method NewNode() returns (id: nat)
      modifies this
      requires Valid()
      ensures Valid()
      ensures id == |old(links)| && links == old(links) + [Unlinked] && kids == old(kids) + [[]]
      ensures Detached(kids, id)
    {
      id := |links|;
      links := links + [Unlinked];
      kids := kids + [[]];
      assert forall p: nat :: p < id ==> kids[p] == old(kids)[p];
      forall p: nat | p < |kids|
        ensures ListLinked(links, p, kids[p])
      {
        if p < id {
          assert ListLinked(old(links), p, kids[p]);
          forall i: nat | i < |kids[p]|
            ensures SiblingLinked(links, p, kids[p], i)
          {
            assert SiblingLinked(old(links), p, kids[p], i);
          }
        }
      }
      forall p: nat | p < id
        ensures id !in kids[p]
      {
        assert ListLinked(old(links), p, kids[p]);
      }
    }

    /** `text_node_get_first_child`. */
    function FirstChild(id: nat): (r: Option<nat>)
      reads this
      requires Valid() && id < |links|
      ensures r == At(kids[id], 0)
    {
      links[id].firstChild
    }

    /** `text_node_get_last_child`. */
    function LastChild(id: nat): (r: Option<nat>)
      reads this
      requires Valid() && id < |links|
      ensures r == At(kids[id], |kids[id]| - 1)
    {
      links[id].lastChild
    }

    /** `text_node_get_num_children`. */
    function NumChildren(id: nat): (r: int)
      reads this
      requires Valid() && id < |links|
      ensures r == |kids[id]|
    {
      links[id].nChildren
    }

    /** `text_node_get_next`: for a child, its successor in its parent's list. */
    function Next(id: nat): (r: Option<nat>)
      reads this
      requires Valid() && id < |links|
      ensures forall p: nat, i: nat :: p < |kids| && i < |kids[p]| && kids[p][i] == id ==> r == At(kids[p], i + 1)
    {
      NextIsSuccessor(id);
      links[id].next
    }

    /** `text_node_get_previous`: for a child, its predecessor in its parent's list. */
    function Previous(id: nat): (r: Option<nat>)
      reads this
      requires Valid() && id < |links|
      ensures forall p: nat, i: nat :: p < |kids| && i < |kids[p]| && kids[p][i] == id ==> r == At(kids[p], i - 1)
    {
      NextIsSuccessor(id);
      links[id].prev
    }

    /** `text_node_get_parent`: for a child, the node whose list holds it. */
    function Parent(id: nat): (r: Option<nat>)
      reads this
      requires Valid() && id < |links|
      ensures forall p: nat :: p < |kids| && id in kids[p] ==> r == Some(p)
    {
      NextIsSuccessor(id);
      links[id].parent
    }

    lemma NextIsSuccessor(id: nat)
      requires Valid() && id < |links|
      ensures forall p: nat, i: nat :: p < |kids| && i < |kids[p]| && kids[p][i] == id ==>
        SiblingLinked(links, p, kids[p], i)
      ensures forall p: nat :: p < |kids| && id in kids[p] ==> links[id].parent == Some(p)
    {
      forall p: nat | p < |kids| && id in kids[p]
        ensures links[id].parent == Some(p)
      {
        var i: nat :| i < |kids[p]| && kids[p][i] == id;
        assert SiblingLinked(links, p, kids[p], i);
      }
    }

    /** `_get_index_of`: walks the child chain from `first_child`. */
    method GetIndexOf(self: nat, child: nat) returns (index: int)
      requires Valid() && self < |links|
      ensures index == IndexOf(kids[self], child)
    {
      ghost var ks := kids[self];
      assert ListLinked(links, self, ks);
      var iter := links[self].firstChild;
      index := 0;
      while iter.Some?
        invariant 0 <= index <= |ks| && iter == At(ks, index) && child !in ks[..index]
        decreases |ks| - index
      {
        if iter.value == child {
          return;
        }
        assert SiblingLinked(links, self, ks, index);
        assert ks[..index + 1] == ks[..index] + [ks[index]];
        iter := links[iter.value].next;
        index := index + 1;
      }
      assert ks[..index] == ks;
      index := -1;
    }

    /**
     * `text_node_insert_child`: `child` takes position `index` among the
     * children of `self`. In the empty-parent branch this model also clears
     * the child's `prev` and `next`, which the code as written does not (see
     * `EmptyInsertAsWritten`).
     */
    method InsertChild(self: nat, child: nat, index: int)
      modifies this
      requires Valid() && self < |links| && child < |links| && child != self && Detached(kids, child)
      requires 0 <= index <= links[self].nChildren
      ensures Valid()
      ensures index <= |old(kids[self])|
      ensures kids == old(kids)[self := old(kids[self])[..index] + [child] + old(kids[self])[index..]]
      ensures |links| == |old(links)| && SameSiblingLinks(links[self], old(links[self]))
      ensures forall x: nat :: x < |links| && x != self && x != child && x !in old(kids[self]) ==>
        links[x] == old(links[x])
    {
      ghost var ks := kids[self];
      assert ListLinked(links, self, ks);
      if links[self].nChildren == 0 {
        // No children
        AttachOnly(self, child);
        assert ks[..index] + [child] + ks[index..] == [child];
        return;
      }
      if index == 0 {
        // Prepend
        AttachFirst(self, child);
        assert ks[..index] + [child] + ks[index..] == [child] + ks;
        return;
      }
      if index == links[self].nChildren {
        // Append
        AttachLast(self, child);
        assert ks[..index] + [child] + ks[index..] == ks + [child];
        return;
      }
      var cmpIndex := 1;
      var iter := links[self].firstChild.value;
      while cmpIndex < index
        invariant 1 <= cmpIndex <= index && iter == ks[cmpIndex - 1]
      {
        assert SiblingLinked(links, self, ks, cmpIndex - 1);
        iter := links[iter].next.value;
        cmpIndex := cmpIndex + 1;
      }
      assert SiblingLinked(links, self, ks, index - 1);
      InsertBetween(self, child, iter, links[iter].next.value, index);
    }

    /**
     * `_insert_between`: links `node` between the adjacent children
     * `before` (position `k - 1`) and `after` (position `k`) of `parent`.
     */
    method InsertBetween(parent: nat, node: nat, before: nat, after: nat, ghost k: nat)
      modifies this
      requires Valid() && parent < |links| && node < |links| && node != parent && Detached(kids, node)
      requires 0 < k < |kids[parent]| && before == kids[parent][k - 1] && after == kids[parent][k]
      ensures Valid()
      ensures kids == old(kids)[parent := old(kids[parent])[..k] + [node] + old(kids[parent])[k..]]
      ensures |links| == |old(links)| && SameSiblingLinks(links[parent], old(links[parent]))
      ensures forall x: nat :: x < |links| && x != parent && x != node && x !in old(kids[parent]) ==>
        links[x] == old(links[x])
    {
      ghost var ks := kids[parent];
      ghost var links0 := links;
      assert ListLinked(links, parent, ks);
      assert SiblingLinked(links, parent, ks, k - 1);
      assert SiblingLinked(links, parent, ks, k);
      var nodeLinks := links[node].(prev := Some(before), next := Some(after), parent := Some(parent));
      var beforeLinks := links[before].(next := Some(node));
      var afterLinks := links[after].(prev := Some(node));
      var parentLinks := links[parent].(nChildren := links[parent].nChildren + 1);
      var l := links[node := nodeLinks][before := beforeLinks][after := afterLinks][parent := parentLinks];
      InsertWellformed(links0, l, kids, parent, k, node);
      links := l;
      kids := kids[parent := ks[..k] + [node] + ks[k..]];
    }

    /** The no-children branch of `text_node_insert_child`, with the child's sibling links cleared. */
    method AttachOnly(self: nat, child: nat)
      modifies this
      requires Valid() && self < |links| && child < |links| && child != self && Detached(kids, child)
      requires kids[self] == []
      ensures Valid() && kids == old(kids)[self := [child]]
      ensures |links| == |old(links)| && SameSiblingLinks(links[self], old(links[self]))
      ensures forall x: nat :: x < |links| && x != self && x != child ==> links[x] == old(links[x])
    {
      ghost var links0 := links;
      links := links[self := links[self].(firstChild := Some(child), lastChild := Some(child), nChildren := 1)];
      links := links[child := links[child].(parent := Some(self), prev := None, next := None)];
      InsertWellformed(links0, links, kids, self, 0, child);
      assert kids[self][..0] + [child] + kids[self][0..] == [child];
      kids := kids[self := [child]];
    }

    /** The prepend branch of `text_node_insert_child`. */
    method AttachFirst(self: nat, child: nat)
      modifies this
      requires Valid() && self < |links| && child < |links| && child != self && Detached(kids, child)
      requires kids[self] != []
      ensures Valid() && kids == old(kids)[self := [child] + old(kids[self])]
      ensures |links| == |old(links)| && SameSiblingLinks(links[self], old(links[self]))
      ensures forall x: nat :: x < |links| && x != self && x != child && x !in old(kids[self]) ==>
        links[x] == old(links[x])
    {
      ghost var ks := kids[self];
      ghost var links0 := links;
      assert ks[..0] + [child] + ks[0..] == [child] + ks;
      assert ListLinked(links, self, ks);
      var after := links[self].firstChild.value;
      assert SiblingLinked(links, self, ks, 0);
      var afterLinks := links[after].(prev := Some(child));
      var childLinks := links[child].(next := Some(after), prev := None, parent := Some(self));
      var selfLinks := links[self].(firstChild := Some(child), nChildren := links[self].nChildren + 1);
      var l := links[after := afterLinks][child := childLinks][self := selfLinks];
      InsertWellformed(links0, l, kids, self, 0, child);
      links := l;
      kids := kids[self := [child] + ks];
    }

    /** The append branch of `text_node_insert_child`. */
    method AttachLast(self: nat, child: nat)
      modifies this
      requires Valid() && self < |links| && child < |links| && child != self && Detached(kids, child)
      requires kids[self] != []
      ensures Valid() && kids == old(kids)[self := old(kids[self]) + [child]]
      ensures |links| == |old(links)| && SameSiblingLinks(links[self], old(links[self]))
      ensures forall x: nat :: x < |links| && x != self && x != child && x !in old(kids[self]) ==>
        links[x] == old(links[x])
    {
      ghost var ks := kids[self];
      ghost var links0 := links;
      assert ks[..|ks|] + [child] + ks[|ks|..] == ks + [child];
      assert ListLinked(links, self, ks);
      var before := links[self].lastChild.value;
      assert SiblingLinked(links, self, ks, |ks| - 1);
      var beforeLinks := links[before].(next := Some(child));
      var childLinks := links[child].(prev := Some(before), next := None, parent := Some(self));
      var selfLinks := links[self].(lastChild := Some(child), nChildren := links[self].nChildren + 1);
      var l := links[before := beforeLinks][child := childLinks][self := selfLinks];
      InsertWellformed(links0, l, kids, self, |ks|, child);
      links := l;
      kids := kids[self := ks + [child]];
    }

    /**
     * `text_node_unparent_child`: splices `child` out of the list of `self`
     * and returns it, or returns `None` when it is not a child. No parent
     * pointer changes, and the removed child keeps its own `parent`, `prev`
     * and `next`.
     */
    method UnparentChild(self: nat, child: nat) returns (r: Option<nat>)
      modifies this
      requires Valid() && self < |links|
      ensures Valid() && |links| == |old(links)|
      ensures var k := IndexOf(old(kids[self]), child);
        if k < 0 then (r == None && links == old(links) && kids == old(kids))
        else (r == Some(child) && kids == old(kids)[self := old(kids[self])[..k] + old(kids[self])[k + 1..]] &&
              Detached(kids, child))
      ensures forall x: nat :: x < |links| ==> links[x].parent == old(links[x].parent)
      ensures forall x: nat :: x < |links| && x != self && x !in old(kids[self]) ==> links[x] == old(links[x])
      ensures child < |links| ==> links[child] == old(links[child])
    {
      ghost var ks := kids[self];
      assert ListLinked(links, self, ks);
      var iter := links[self].firstChild;
      ghost var k: nat := 0;
      while iter.Some?
        invariant k <= |ks| && iter == At(ks, k) && child !in ks[..k]
        decreases |ks| - k
      {
        if iter.value == child {
          var found := iter.value;
          SpliceOut(self, found, k);
          return Some(found);
        }
        assert SiblingLinked(links, self, ks, k);
        assert ks[..k + 1] == ks[..k] + [ks[k]];
        iter := links[iter.value].next;
        k := k + 1;
      }
      assert ks[..k] == ks;
      return None;
    }

    /** The body of the search loop of `text_node_unparent_child` once `child` (position `k`) is found. */
    method SpliceOut(self: nat, child: nat, ghost k: nat)
      modifies this
      requires Valid() && self < |links| && k < |kids[self]| && kids[self][k] == child
      ensures Valid() && |links| == |old(links)|
      ensures kids == old(kids)[self := old(kids[self])[..k] + old(kids[self])[k + 1..]] && Detached(kids, child)
      ensures forall x: nat :: x < |links| ==> links[x].parent == old(links[x].parent)
      ensures forall x: nat :: x < |links| && x != self && x !in old(kids[self]) ==> links[x] == old(links[x])
      ensures links[child] == old(links[child])
    {
      ghost var ks := kids[self];
      assert ListLinked(links, self, ks);
      assert SiblingLinked(links, self, ks, k);
      if k > 0 {
        assert SiblingLinked(links, self, ks, k - 1);
      }
      if k + 1 < |ks| {
        assert SiblingLinked(links, self, ks, k + 1);
      }
      var own := links[child];
      var head := links[self];
      if own.prev.None? {
        // the first child
        head := head.(firstChild := own.next);
      }
      if own.next.None? {
        // the last child
        head := head.(lastChild := own.prev);
      }
      head := head.(nChildren := head.nChildren - 1);
      var l := links[self := head];
      if own.prev.Some? {
        l := l[own.prev.value := links[own.prev.value].(next := own.next)];
      }
      if own.next.Some? {
        l := l[own.next.value := links[own.next.value].(prev := own.prev)];
      }
      RemoveWellformed(links, l, kids, self, k);
      links := l;
      kids := kids[self := ks[..k] + ks[k + 1..]];
    }

    /** `text_node_prepend_child`. */
    method PrependChild(self: nat, child: nat)
      modifies this
      requires Valid() && self < |links| && child < |links| && child != self && Detached(kids, child)
      ensures Valid() && |links| == |old(links)|
      ensures kids == old(kids)[self := [child] + old(kids[self])]
    {
      assert ListLinked(links, self, kids[self]);
      InsertChild(self, child, 0);
      assert old(kids[self])[..0] + [child] + old(kids[self])[0..] == [child] + old(kids[self]);
    }

    /** `text_node_append_child`. */
    method AppendChild(self: nat, child: nat)
      modifies this
      requires Valid() && self < |links| && child < |links| && child != self && Detached(kids, child)
      ensures Valid() && |links| == |old(links)|
      ensures kids == old(kids)[self := old(kids[self]) + [child]]
    {
      assert ListLinked(links, self, kids[self]);
      ghost var ks := kids[self];
      InsertChild(self, child, links[self].nChildren);
      assert ks[..|ks|] + [child] + ks[|ks|..] == ks + [child];
    }

    /**
     * `text_node_insert_child_before`: nothing happens when `compare` is not
     * a child; see `InsertBeforeAsWritten` for where the child goes.
     */
    method InsertChildBefore(self: nat, child: nat, compare: nat)
      modifies this
      requires Valid() && self < |links| && child < |links| && child != self && Detached(kids, child)
      ensures Valid() && |links| == |old(links)|
      ensures kids == old(kids)[self := InsertBeforeAsWritten(old(kids[self]), child, compare)]
    {
      var index := GetIndexOf(self, compare);
      if index == -1 {
        // compare is not a child: the source reports it and changes nothing
        assert kids == old(kids)[self := old(kids[self])];
        return;
      }
      if index - 1 == 0 {
        PrependChild(self, child);
        return;
      }
      assert ListLinked(links, self, kids[self]);
      InsertChild(self, child, index);
    }

    /** `text_node_insert_child_after`: the child goes immediately after `compare`. */
    method InsertChildAfter(self: nat, child: nat, compare: nat)
      modifies this
      requires Valid() && self < |links| && child < |links| && child != self && Detached(kids, child)
      ensures Valid() && |links| == |old(links)|
      ensures var k := IndexOf(old(kids[self]), compare);
        if k == -1 then kids == old(kids)
        else (kids == old(kids)[self := old(kids[self])[..k + 1] + [child] + old(kids[self])[k + 1..]] &&
          kids[self][k] == compare && kids[self][k + 1] == child)
    {
      var index := GetIndexOf(self, compare);
      if index == -1 {
        // compare is not a child: the source reports it and changes nothing
        return;
      }
      assert ListLinked(links, self, kids[self]);
      InsertChild(self, child, index + 1);
    }

    /**
     * `text_node_unparent`: a node without a parent is returned as is;
     * otherwise it is unparented from the node its `parent` names, which for
     * a node already removed finds nothing and returns `None`.
     */
    method Unparent(node: nat) returns (r: Option<nat>)
      modifies this
      requires Valid() && node < |links|
      ensures Valid() && |links| == |old(links)|
      ensures old(links[node].parent).None? ==> r == Some(node) && links == old(links) && kids == old(kids)
      ensures old(links[node].parent).Some? ==>
        var p := old(links[node].parent.value);
        var k := IndexOf(old(kids[p]), node);
        if k < 0 then (r == None && links == old(links) && kids == old(kids))
        else (r == Some(node) && kids == old(kids)[p := old(kids[p])[..k] + old(kids[p])[k + 1..]] && Detached(kids, node))
    {
      var parent := links[node].parent;
      if parent.None? {
        return Some(node);
      }
      r := UnparentChild(parent.value, node);
    }

    /** `text_node_delete_child`: the child is removed (and released) only when it is a child. */
    method DeleteChild(self: nat, child: nat)
      modifies this
      requires Valid() && self < |links|
      ensures Valid() && |links| == |old(links)|
      ensures var k := IndexOf(old(kids[self]), child);
        if k < 0 then (links == old(links) && kids == old(kids))
        else (kids == old(kids)[self := old(kids[self])[..k] + old(kids[self])[k + 1..]] && Detached(kids, child))
    {
      var removed := UnparentChild(self, child);
    }

    /** `text_node_delete`: the node leaves its parent's list, if it is in one. */
    method Delete(node: nat)
      modifies this
      requires Valid() && node < |links|
      ensures Valid() && |links| == |old(links)|
      ensures old(links[node].parent.Some? && node in kids[links[node].parent.value]) ==>
        var p := old(links[node].parent.value);
        var k := IndexOf(old(kids[p]), node);
        kids == old(kids)[p := old(kids[p])[..k] + old(kids[p])[k + 1..]] && Detached(kids, node)
      ensures Detached(old(kids), node) ==> links == old(links) && kids == old(kids)
    {
      var removed := Unparent(node);
    }
  }
}
