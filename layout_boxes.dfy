/**
 * The second generation of the C layout (`src/layout/layoutbox.c`,
 * `src/layout/layoutblock.c` and `src/layout/layoutinline.c`, the
 * five-argument `text_layout_box_layout` with a Pango context and an
 * offset).
 *
 * A box is a block or an inline box (`TextLayoutBox` itself is abstract).
 * `text_layout_box_layout` dispatches on the class. A block measures its own
 * paragraph with a Pango layout it keeps between calls, then lays out its
 * children: block children stacked downward from its own offset, inline
 * children at the position Pango gives for the byte offset of the fragment
 * they show. Its height is its text's height plus the heights of its block
 * children. An inline box is always 100 by 100.
 *
 * Pango is a pair of function parameters: `measure` is
 * `pango_layout_get_pixel_size` (the height, in pixels, of a configured
 * layout) and `indexToPos` is `pango_layout_index_to_pos` (a byte index to a
 * position in Pango units). A configured `PangoLayout` is the value
 * `PangoState`: its text, its attribute list and its width in Pango units.
 *
 * A box's children (a `node.c` child list in the source, built with
 * `text_node_append_child`) are fixed when the box is made here, since
 * layout never changes them.
 */
module LayoutBoxes {
  import opened Optional
  import opened TextModel
  import opened LayoutTypes
  import LayoutTree

  /** The concrete layout-box classes: `TextLayoutBlock` and `TextLayoutInline`. */
  datatype BoxKind = BlockBox | InlineBox

  /** The attributes the block layout puts in a `PangoAttrList`. */
  datatype Attr = Bold | Italic | Underline | Shape(width: int, height: int)

  /** A `PangoAttribute` with its byte range `[start, end)`. */
  datatype Span = Span(attr: Attr, start: int, end: int)

  /** A `PangoLayout` after `text_layout_block_layout` has set its attributes, text and width. */
  datatype PangoState = PangoState(text: string, attrs: seq<Span>, width: int)

  /** The side of an inline box, in pixels. */
  const InlineSize: int := 100

  /** The side `_set_inline_attribute` reserves for an opaque object: `100 * PANGO_SCALE` Pango units. */
  const ShapeSize: int := 102400

  /**
   * What the block layout reads of a fragment: its class, its size in bytes
   * and, for a run, its three styles.
   */
  datatype Piece = Piece(kind: FragmentKind, size: nat, bold: bool, italic: bool, underline: bool)

  /**
   * `text_fragment_get_size_bytes`, whose definition is not part of this
   * model, taken as the fragment's length: the byte count of a run's text
   * (text is ASCII) and 1 for an opaque object.
   */
  function SizeBytes(f: Fragment): (n: nat)
    reads f
    ensures f.kind == RunKind ==> n == |FragmentText(f)|
  {
    f.Length()
  }

  function PieceOf(f: Fragment): Piece
    reads f
  {
    Piece(f.kind, SizeBytes(f), f.bold, f.italic, f.underline)
  }

  /** The pieces of the fragments `fs`, in child order. */
  function Pieces(fs: seq<Fragment>): (r: seq<Piece>)
    reads fs
    ensures |r| == |fs| && forall i :: 0 <= i < |fs| ==> r[i] == PieceOf(fs[i])
  {
    if |fs| == 0 then [] else Pieces(fs[..|fs| - 1]) + [PieceOf(fs[|fs| - 1])]
  }

  /** The byte index where piece `k` starts: the sizes of those before it. */
  function StartIndex(ps: seq<Piece>, k: nat): nat
    requires k <= |ps|
  {
    if k == 0 then 0 else StartIndex(ps, k - 1) + ps[k - 1].size
  }

  /** The spans one piece adds to the attribute list at byte index `start` (see `PieceSpansMeaning`). */
  function PieceSpans(pc: Piece, start: int): seq<Span> {
    var end := start + pc.size;
    if pc.kind == RunKind then
      (if pc.bold then [Span(Bold, start, end)] else []) +
      (if pc.italic then [Span(Italic, start, end)] else []) +
      (if pc.underline then [Span(Underline, start, end)] else [])
    else if pc.kind == OpaqueKind then
      [Span(Shape(ShapeSize, ShapeSize), start, end)]
    else []
  }

  /** Whether a run carries the text style `a` (bold, italic or underline). */
  predicate HasStyle(pc: Piece, a: Attr) {
    (a == Bold && pc.bold) || (a == Italic && pc.italic) || (a == Underline && pc.underline)
  }

  /**
   * `_set_run_attribute` and `_set_inline_attribute`: every span covers
   * exactly the fragment's bytes; a run adds a span for each style it has and
   * none other; an opaque object adds one shape of 100 by 100 pixels; any
   * other fragment adds nothing.
   */
  lemma PieceSpansMeaning(pc: Piece, start: int)
    ensures forall i :: 0 <= i < |PieceSpans(pc, start)| ==>
      PieceSpans(pc, start)[i].start == start && PieceSpans(pc, start)[i].end == start + pc.size
    ensures pc.kind == RunKind ==> forall s :: s in PieceSpans(pc, start) ==> HasStyle(pc, s.attr)
    ensures pc.kind == RunKind ==>
      forall a :: HasStyle(pc, a) ==> Span(a, start, start + pc.size) in PieceSpans(pc, start)
    ensures pc.kind == OpaqueKind ==>
      PieceSpans(pc, start) == [Span(Shape(ShapeSize, ShapeSize), start, start + pc.size)]
    ensures pc.kind == InlineKind ==> PieceSpans(pc, start) == []
  {
  }

  /**
   * Every span a piece adds covers exactly its bytes: the first clause of
   * `PieceSpansMeaning` alone, the cheap form the attribute-list lemmas call
   * so that the style clauses stay out of their proof context.
   */
  lemma PieceSpansCover(pc: Piece, start: int)
    ensures forall i :: 0 <= i < |PieceSpans(pc, start)| ==>
      PieceSpans(pc, start)[i].start == start && PieceSpans(pc, start)[i].end == start + pc.size
  {
  }

  /** The attribute list `_set_attributes` builds for the first `k` pieces. */
  function Attributes(ps: seq<Piece>, k: nat): seq<Span>
    requires k <= |ps|
  {
    if k == 0 then [] else Attributes(ps, k - 1) + PieceSpans(ps[k - 1], StartIndex(ps, k - 1))
  }

  /**
   * `_set_attributes`: walks the paragraph's fragments in order, adding each
   * one's spans at the byte index it starts at.
   */
  method SetAttributes(p: Paragraph) returns (list: seq<Span>)
    ensures list == Attributes(Pieces(p.fragments), |p.fragments|)
  {
    ghost var ps := Pieces(p.fragments);
    list := [];
    var startIndex := 0;
    var i := 0;
    while i < |p.fragments|
      invariant 0 <= i <= |p.fragments|
      invariant startIndex == StartIndex(ps, i)
      invariant list == Attributes(ps, i)
    {
      var f := p.fragments[i];
      var runLength := SizeBytes(f);
      var spans := FragmentAttributes(f, startIndex, runLength);
      list := list + spans;
      startIndex := startIndex + runLength;
      i := i + 1;
    }
  }

  /** The body of the loop of `_set_attributes`: a run's styles, an opaque object's shape, or nothing. */
  method FragmentAttributes(f: Fragment, startIndex: int, runLength: int) returns (spans: seq<Span>)
    requires runLength == SizeBytes(f)
    ensures spans == PieceSpans(PieceOf(f), startIndex)
  {
    if f.kind == RunKind {
      spans := RunAttributes(f, startIndex, runLength);
    } else if f.kind == OpaqueKind {
      spans := [Span(Shape(ShapeSize, ShapeSize), startIndex, startIndex + runLength)];
    } else {
      spans := [];
    }
  }

  /** `_set_run_attribute`: the bold, italic and underline spans of a run, in that order. */
  method RunAttributes(run: Fragment, startIndex: int, runLength: int) returns (spans: seq<Span>)
    requires run.kind == RunKind && runLength == SizeBytes(run)
    ensures spans == PieceSpans(PieceOf(run), startIndex)
  {
    spans := [];
    if run.bold {
      spans := spans + [Span(Bold, startIndex, startIndex + runLength)];
    }
    if run.italic {
      spans := spans + [Span(Italic, startIndex, startIndex + runLength)];
    }
    if run.underline {
      spans := spans + [Span(Underline, startIndex, startIndex + runLength)];
    }
  }

  /** The start indices grow by each piece's size. */
  lemma {:induction false} StartIndexMonotone(ps: seq<Piece>, j: nat, k: nat)
    requires j <= k <= |ps|
    ensures StartIndex(ps, j) <= StartIndex(ps, k)
    decreases k - j
  {
    if j < k {
      StartIndexMonotone(ps, j, k - 1);
    }
  }

  /** Every span of the attribute list lies within the paragraph's bytes. */
  lemma {:induction false} AttributesInRange(ps: seq<Piece>, k: nat)
    requires k <= |ps|
    ensures forall i :: 0 <= i < |Attributes(ps, k)| ==>
      0 <= Attributes(ps, k)[i].start <= Attributes(ps, k)[i].end <= StartIndex(ps, k)
    decreases k
  {
    if k > 0 {
      AttributesInRange(ps, k - 1);
      PieceSpansCover(ps[k - 1], StartIndex(ps, k - 1));
      ConcatWithin(Attributes(ps, k - 1), PieceSpans(ps[k - 1], StartIndex(ps, k - 1)), StartIndex(ps, k - 1), StartIndex(ps, k));
    }
  }

  /** Spans within `[0, mid]` followed by spans within `[mid, hi]` are all within `[0, hi]`. */
  lemma ConcatWithin(prev: seq<Span>, last: seq<Span>, mid: int, hi: int)
    requires forall i :: 0 <= i < |prev| ==> 0 <= prev[i].start <= prev[i].end <= mid
    requires forall i :: 0 <= i < |last| ==> mid <= last[i].start <= last[i].end <= hi
    requires 0 <= mid <= hi
    ensures forall i :: 0 <= i < |prev + last| ==> 0 <= (prev + last)[i].start <= (prev + last)[i].end <= hi
  {
    var all := prev + last;
    assert forall i :: 0 <= i < |prev| ==> all[i] == prev[i];
    assert forall i :: |prev| <= i < |all| ==> all[i] == last[i - |prev|];
  }

  /** The spans of the attribute list come in order of their start index. */
  lemma {:induction false} AttributesOrdered(ps: seq<Piece>, k: nat)
    requires k <= |ps|
    ensures forall a, b :: 0 <= a < b < |Attributes(ps, k)| ==> Attributes(ps, k)[a].start <= Attributes(ps, k)[b].start
    decreases k
  {
    if k > 0 {
      AttributesOrdered(ps, k - 1);
      AttributesInRange(ps, k - 1);
      PieceSpansCover(ps[k - 1], StartIndex(ps, k - 1));
      ConcatOrdered(Attributes(ps, k - 1), PieceSpans(ps[k - 1], StartIndex(ps, k - 1)), StartIndex(ps, k - 1));
    }
  }

  /**
   * Spans in start order that all start by `mid`, followed by spans that
   * all start at `mid`, are in start order.
   */
  lemma ConcatOrdered(prev: seq<Span>, last: seq<Span>, mid: int)
    requires forall a, b :: 0 <= a < b < |prev| ==> prev[a].start <= prev[b].start
    requires forall i :: 0 <= i < |prev| ==> prev[i].start <= prev[i].end <= mid
    requires forall i :: 0 <= i < |last| ==> last[i].start == mid
    ensures forall a, b :: 0 <= a < b < |prev + last| ==> (prev + last)[a].start <= (prev + last)[b].start
  {
    var all := prev + last;
    assert forall i :: 0 <= i < |prev| ==> all[i] == prev[i];
    assert forall i :: |prev| <= i < |all| ==> all[i] == last[i - |prev|];
  }

  /** The attribute list of the first `j` pieces is a prefix of that of the first `k`. */
  lemma {:induction false} AttributesPrefix(ps: seq<Piece>, j: nat, k: nat)
    requires j <= k <= |ps|
    ensures Attributes(ps, j) <= Attributes(ps, k)
    decreases k
  {
    if j < k {
      AttributesPrefix(ps, j, k - 1);
      assert Attributes(ps, k) == Attributes(ps, k - 1) + PieceSpans(ps[k - 1], StartIndex(ps, k - 1));
      PrefixConcat(Attributes(ps, j), Attributes(ps, k - 1), PieceSpans(ps[k - 1], StartIndex(ps, k - 1)));
    }
  }

  /** A prefix of a list is a prefix of that list with more appended. */
  lemma PrefixConcat<T>(pre: seq<T>, mid: seq<T>, last: seq<T>)
    requires pre <= mid
    ensures pre <= mid + last
  {
    assert (mid + last)[..|pre|] == mid[..|pre|];
  }

  /** Every span the pieces from `j` on add starts at or after piece `j`. */
  lemma {:induction false} AttributesAfter(ps: seq<Piece>, j: nat, k: nat)
    requires j <= k <= |ps|
    ensures |Attributes(ps, j)| <= |Attributes(ps, k)|
    ensures forall i :: |Attributes(ps, j)| <= i < |Attributes(ps, k)| ==> Attributes(ps, k)[i].start >= StartIndex(ps, j)
    decreases k
  {
    if j < k {
      AttributesAfter(ps, j, k - 1);
      StartIndexMonotone(ps, j, k - 1);
      PieceSpansCover(ps[k - 1], StartIndex(ps, k - 1));
      ConcatAfter(Attributes(ps, k - 1), PieceSpans(ps[k - 1], StartIndex(ps, k - 1)), |Attributes(ps, j)|, StartIndex(ps, j));
    }
  }

  /**
   * When the spans of `prev` from position `m` on, and all those of `last`,
   * start at or after `lo`, so do those of `prev + last` from `m` on.
   */
  lemma ConcatAfter(prev: seq<Span>, last: seq<Span>, m: nat, lo: int)
    requires m <= |prev|
    requires forall i :: m <= i < |prev| ==> prev[i].start >= lo
    requires forall i :: 0 <= i < |last| ==> last[i].start >= lo
    ensures forall i :: m <= i < |prev + last| ==> (prev + last)[i].start >= lo
  {
    var all := prev + last;
    assert forall i :: 0 <= i < |prev| ==> all[i] == prev[i];
    assert forall i :: |prev| <= i < |all| ==> all[i] == last[i - |prev|];
  }

  /**
   * Each style a run has is in the list as a span over exactly that run's
   * bytes; when the run is not empty, a style it lacks is not.
   */
  lemma RunStylesCovered(ps: seq<Piece>, j: nat)
    requires j < |ps| && ps[j].kind == RunKind
    ensures var lo, hi, list := StartIndex(ps, j), StartIndex(ps, j + 1), Attributes(ps, |ps|);
      forall a :: a in {Bold, Italic, Underline} ==>
        (HasStyle(ps[j], a) ==> Span(a, lo, hi) in list) &&
        (lo < hi && Span(a, lo, hi) in list ==> HasStyle(ps[j], a))
  {
    AttributesPrefix(ps, j + 1, |ps|);
    AttributesAfter(ps, j + 1, |ps|);
    AttributesInRange(ps, j);
    forall a | a in {Bold, Italic, Underline}
      ensures HasStyle(ps[j], a) ==> Span(a, StartIndex(ps, j), StartIndex(ps, j + 1)) in Attributes(ps, |ps|)
      ensures StartIndex(ps, j) < StartIndex(ps, j + 1) && Span(a, StartIndex(ps, j), StartIndex(ps, j + 1)) in Attributes(ps, |ps|)
        ==> HasStyle(ps[j], a)
    {
      if HasStyle(ps[j], a) {
        RunStyleIn(ps, j, a);
      }
      if StartIndex(ps, j) < StartIndex(ps, j + 1) && Span(a, StartIndex(ps, j), StartIndex(ps, j + 1)) in Attributes(ps, |ps|) {
        RunStyleOnlyFrom(ps, j, a);
      }
    }
  }

  /** A run's own spans hold a span of style `a` over its bytes exactly when it has that style. */
  lemma OwnStyle(pc: Piece, start: int, a: Attr)
    requires pc.kind == RunKind
    ensures HasStyle(pc, a) <==> Span(a, start, start + pc.size) in PieceSpans(pc, start)
  {
    var end := start + pc.size;
    var b: seq<Span> := if pc.bold then [Span(Bold, start, end)] else [];
    var i: seq<Span> := if pc.italic then [Span(Italic, start, end)] else [];
    var u: seq<Span> := if pc.underline then [Span(Underline, start, end)] else [];
    assert PieceSpans(pc, start) == b + i + u;
  }

  /** A style the run has appears in the whole list, after the spans of the pieces before it. */
  lemma RunStyleIn(ps: seq<Piece>, j: nat, a: Attr)
    requires j < |ps| && ps[j].kind == RunKind && HasStyle(ps[j], a)
    requires Attributes(ps, j + 1) <= Attributes(ps, |ps|)
    ensures Span(a, StartIndex(ps, j), StartIndex(ps, j + 1)) in Attributes(ps, |ps|)
  {
    var lo := StartIndex(ps, j);
    var before, own := Attributes(ps, j), PieceSpans(ps[j], lo);
    assert Attributes(ps, j + 1) == before + own;
    OwnStyle(ps[j], lo, a);
    InPrefix(before, own, Attributes(ps, |ps|), Span(a, lo, StartIndex(ps, j + 1)));
  }

  /** A span of `own` is in any list that starts with `before + own`. */
  lemma InPrefix(before: seq<Span>, own: seq<Span>, all: seq<Span>, sp: Span)
    requires before + own <= all && sp in own
    ensures sp in all
  {
    var i :| 0 <= i < |own| && own[i] == sp;
    assert all[|before| + i] == (before + own)[|before| + i] == sp;
  }

  /** A span over a non-empty run's bytes can only come from that run, so the run has its style. */
  lemma RunStyleOnlyFrom(ps: seq<Piece>, j: nat, a: Attr)
    requires j < |ps| && ps[j].kind == RunKind && StartIndex(ps, j) < StartIndex(ps, j + 1)
    requires Span(a, StartIndex(ps, j), StartIndex(ps, j + 1)) in Attributes(ps, |ps|)
    requires Attributes(ps, j + 1) <= Attributes(ps, |ps|)
    requires forall i :: |Attributes(ps, j + 1)| <= i < |Attributes(ps, |ps|)| ==> Attributes(ps, |ps|)[i].start >= StartIndex(ps, j + 1)
    requires forall i :: 0 <= i < |Attributes(ps, j)| ==> Attributes(ps, j)[i].end <= StartIndex(ps, j)
    ensures HasStyle(ps[j], a)
  {
    var lo, hi := StartIndex(ps, j), StartIndex(ps, j + 1);
    var before, own, all := Attributes(ps, j), PieceSpans(ps[j], lo), Attributes(ps, |ps|);
    assert Attributes(ps, j + 1) == before + own;
    SpanFromOwn(before, own, all, Span(a, lo, hi));
    OwnStyle(ps[j], lo, a);
  }

  /**
   * In a list that starts with `before + own`, a span starting after
   * everything in `before` ends, and ending before anything after `own`
   * starts, is one of `own`.
   */
  lemma SpanFromOwn(before: seq<Span>, own: seq<Span>, all: seq<Span>, sp: Span)
    requires before + own <= all && sp in all && sp.start < sp.end
    requires forall i :: 0 <= i < |before| ==> before[i].end <= sp.start
    requires forall i :: |before| + |own| <= i < |all| ==> all[i].start >= sp.end
    ensures sp in own
  {
    var upTo := before + own;
    var i :| 0 <= i < |all| && all[i] == sp;
    assert forall k :: 0 <= k < |before| ==> all[k] == upTo[k] == before[k];
    assert forall k :: |before| <= k < |upTo| ==> all[k] == upTo[k] == own[k - |before|];
  }

  /**
   * The shape of a tree of layout boxes, numbered in pre-order: box `n` is a
   * `kinds[n]`, its children are the boxes `kids[n]` in child order, and its
   * subtree is the boxes from `n` up to (not including) `ends[n]`.
   */
  datatype TreeShape = TreeShape(kinds: seq<BoxKind>, kids: seq<seq<nat>>, ends: seq<nat>)

  /**
   * The child lists form a tree: the subtree of each child of `n` lies
   * inside that of `n` after `n` itself, and the subtrees of the children
   * follow one another without overlapping.
   */
  ghost predicate WellShaped(sh: TreeShape) {
    |sh.kinds| == |sh.kids| == |sh.ends| &&
    forall n {:trigger sh.kids[n]} :: 0 <= n < |sh.kids| ==> SubtreesNested(sh, n)
  }

  ghost predicate SubtreesNested(sh: TreeShape, n: nat)
    requires n < |sh.kids| == |sh.ends|
  {
    var s := sh.kids[n];
    n < sh.ends[n] <= |sh.ends| &&
    (forall j :: 0 <= j < |s| ==> n < s[j] < sh.ends[n] && s[j] < sh.ends[s[j]] <= sh.ends[n]) &&
    (forall j, j' :: 0 <= j < j' < |s| ==> sh.ends[s[j]] <= s[j'])
  }

  /** Every box number in `s` is below `n`. */
  predicate Ids(s: seq<nat>, n: nat) {
    forall j :: 0 <= j < |s| ==> s[j] < n
  }

  /**
   * A tree of `TextLayoutBox`es: a block or inline box for each box of
   * `shape`, with the private fields of `layoutbox.c` (`items`, `bboxes`)
   * and a block's `priv->layout` (`layouts`), which is `None` until the
   * block first lays out a paragraph (an inline box never has one).
   */
  class BoxTree {
    const shape: TreeShape
    var items: seq<Option<Item>>
    var bboxes: seq<Dimensions>
    var layouts: seq<Option<PangoState>>

    ghost predicate Valid()
      reads this
    {
      WellShaped(shape) && |items| == |bboxes| == |layouts| == |shape.kinds|
    }

    /**
     * `text_layout_block_new` and `text_layout_inline_new` for each box of
     * `sh`, linked with `text_node_append_child`: no items, no Pango
     * layouts, zeroed bounding boxes.
     */
    constructor (sh: TreeShape)
      requires WellShaped(sh)
      ensures Valid() && shape == sh
      ensures forall n :: 0 <= n < |sh.kinds| ==> items[n] == None && bboxes[n] == Dimensions(0, 0, 0, 0) && layouts[n] == None
    {
      shape := sh;
      items := seq(|sh.kinds|, _ => None);
      bboxes := seq(|sh.kinds|, _ => Dimensions(0, 0, 0, 0));
      layouts := seq(|sh.kinds|, _ => None);
    }

    /** `text_layout_box_get_item`. */
    function GetItem(n: nat): Option<Item>
      requires Valid() && n < |items|
      reads this
    {
      items[n]
    }

    /** `text_layout_box_get_bbox` (and `text_layout_box_get_mutable_bbox`). */
    function GetBbox(n: nat): Dimensions
      requires Valid() && n < |bboxes|
      reads this
    {
      bboxes[n]
    }

    /** `text_layout_block_get_pango_layout`. */
    function GetPangoLayout(n: nat): Option<PangoState>
      requires Valid() && n < |layouts|
      reads this
    {
      layouts[n]
    }

    /** `text_layout_box_set_item`: box `n` now has the item `i`; nothing else changes. */
    method SetItem(n: nat, i: Option<Item>)
      requires Valid() && n < |items|
      modifies this`items
      ensures Valid() && items == old(items)[n := i]
      ensures bboxes == old(bboxes) && layouts == old(layouts)
    {
      items := items[n := i];
    }

    /**
     * `text_layout_box_layout` on box `n`, at width `width` and offset
     * `(x, y)`: the bounding boxes and Pango layouts `BoxLayout` computes
     * for the subtree of `n` are stored in the tree; nothing else changes.
     */
    method Layout(n: nat, ghost doc: Doc, measure: PangoState -> nat, indexToPos: (PangoState, int) -> (int, int),
                  width: int, x: int, y: int)
      requires Valid() && n < |items| && Covers(items, doc) && Current(doc) && Sound(shape, items, layouts, doc, n)
      modifies this`bboxes, this`layouts
      ensures Valid()
      ensures Kept(old(bboxes), bboxes, old(layouts), layouts, n, shape.ends[n])
      ensures shape.kinds[n] == InlineBox ==> bboxes[n] == Dimensions(x, y, InlineSize, InlineSize)
      ensures shape.kinds[n] == BlockBox ==> BlockPlaced(shape, items, bboxes, layouts, doc, measure, indexToPos, width, x, y, n)
    {
      bboxes, layouts := BoxLayout(shape, items, bboxes, layouts, n, doc, measure, indexToPos, width, x, y);
    }
  }

  /**
   * A tree of shape `sh` whose boxes have the items `items`, the bounding
   * boxes `bbs` and the Pango layouts `lays`, each paragraph of which `doc`
   * holds.
   */
  ghost predicate Ready(sh: TreeShape, items: seq<Option<Item>>, bbs: seq<Dimensions>, lays: seq<Option<PangoState>>, doc: Doc) {
    WellShaped(sh) && |items| == |bbs| == |lays| == |sh.kinds| && Covers(items, doc)
  }

  /**
   * `text_layout_box_layout`: dispatches on the class of box `n`. It
   * changes only the bounding boxes and Pango layouts of the subtree of
   * `n`; `doc` is the paragraphs it reads.
   */
  method BoxLayout(sh: TreeShape, items: seq<Option<Item>>, bbs: seq<Dimensions>, lays: seq<Option<PangoState>>, n: nat,
                   ghost doc: Doc, measure: PangoState -> nat, indexToPos: (PangoState, int) -> (int, int),
                   width: int, x: int, y: int)
    returns (bbs': seq<Dimensions>, lays': seq<Option<PangoState>>)
    requires Ready(sh, items, bbs, lays, doc) && n < |sh.kinds| && Current(doc) && Sound(sh, items, lays, doc, n)
    ensures Kept(bbs, bbs', lays, lays', n, sh.ends[n])
    ensures sh.kinds[n] == InlineBox ==> bbs'[n] == Dimensions(x, y, InlineSize, InlineSize)
    ensures sh.kinds[n] == BlockBox ==> BlockPlaced(sh, items, bbs', lays', doc, measure, indexToPos, width, x, y, n)
    decreases sh.ends[n] - n, 2, 0
  {
    assert SubtreesNested(sh, n);
    if sh.kinds[n] == BlockBox {
      bbs', lays' := BlockLayout(sh, items, bbs, lays, n, doc, measure, indexToPos, width, x, y);
    } else {
      bbs' := InlineLayout(sh, bbs, n, width, x, y);
      lays' := lays;
    }
  }

  /**
   * `text_layout_inline_layout`: an inline box is placed at the offset,
   * 100 pixels square, whatever the width; any other box is refused with
   * no change.
   */
  method InlineLayout(sh: TreeShape, bbs: seq<Dimensions>, n: nat, width: int, x: int, y: int) returns (bbs': seq<Dimensions>)
    requires n < |bbs| == |sh.kinds|
    ensures |bbs'| == |bbs| && forall m :: 0 <= m < |bbs| && m != n ==> bbs'[m] == bbs[m]
    ensures sh.kinds[n] == InlineBox ==> bbs'[n] == Dimensions(x, y, InlineSize, InlineSize)
    ensures sh.kinds[n] != InlineBox ==> bbs'[n] == bbs[n]
  {
    if sh.kinds[n] != InlineBox {
      return bbs;
    }
    bbs' := bbs[n := Dimensions(x, y, InlineSize, InlineSize)];
  }

  /**
   * `text_layout_box_real_layout`, the layout of a class that does not
   * override it: the box is put at the offset, as wide as `width`, with no
   * height. Nothing in this model calls it: `BoxKind` has only block and
   * inline boxes, which both override the layout, so `BoxLayout` never
   * dispatches here.
   */
  method RealLayout(bbs: seq<Dimensions>, n: nat, width: int, x: int, y: int) returns (bbs': seq<Dimensions>)
    requires n < |bbs|
    ensures |bbs'| == |bbs| && forall m :: 0 <= m < |bbs| && m != n ==> bbs'[m] == bbs[m]
    ensures bbs'[n].x == x && bbs'[n].y == y && bbs'[n].width == width && bbs'[n].height == 0
  {
    bbs' := bbs[n := Dimensions(x, y, width, 0)];
  }

  /**
   * `text_layout_block_layout`. A box that is not a block is refused with
   * no change. A block with a paragraph configures its Pango layout (made
   * on first use) with the paragraph's attributes, text and width, and
   * measures it; then it lays out its children and takes the height of its
   * text plus that of its block children. Inline children are left alone
   * when the block has no Pango layout.
   */
  method BlockLayout(sh: TreeShape, items: seq<Option<Item>>, bbs: seq<Dimensions>, lays: seq<Option<PangoState>>, n: nat,
                     ghost doc: Doc, measure: PangoState -> nat, indexToPos: (PangoState, int) -> (int, int),
                     width: int, x: int, y: int)
    returns (bbs': seq<Dimensions>, lays': seq<Option<PangoState>>)
    requires Ready(sh, items, bbs, lays, doc) && n < |sh.kinds| && Current(doc) && Sound(sh, items, lays, doc, n)
    ensures Kept(bbs, bbs', lays, lays', n, sh.ends[n])
    ensures sh.kinds[n] != BlockBox ==> bbs' == bbs && lays' == lays
    ensures sh.kinds[n] == BlockBox ==> BlockPlaced(sh, items, bbs', lays', doc, measure, indexToPos, width, x, y, n)
    ensures sh.kinds[n] == BlockBox && lays'[n].None? ==> InlineKidsKept(sh, bbs, bbs', n)
    decreases sh.ends[n] - n, 1, 0
  {
    if sh.kinds[n] != BlockBox {
      return bbs, lays;
    }
    assert SubtreesNested(sh, n);
    var lays1, height := ConfigureParagraph(items, lays, n, doc, measure, width);
    SoundKids(sh, items, lays, lays1, doc, n);
    var bbs1, childOffset;
    bbs1, lays', childOffset := LayoutChildren(sh, items, bbs, lays1, n, doc, measure, indexToPos, width, x, y);
    bbs' := bbs1[n := Dimensions(x, y, width, height + childOffset)];
    BlockDone(sh, items, bbs, lays, lays1, bbs1, lays', n, doc, measure, indexToPos, width, x, y, height, childOffset);
  }

  /** Configuring the paragraph of block `n` keeps its children `Sound`. */
  lemma SoundKids(sh: TreeShape, items: seq<Option<Item>>, lays: seq<Option<PangoState>>, lays1: seq<Option<PangoState>>,
                  doc: Doc, n: nat)
    requires WellShaped(sh) && |items| == |lays| == |lays1| == |sh.kinds| && n < |sh.kinds|
    requires forall m :: 0 <= m < |lays| && m != n ==> lays1[m] == lays[m]
    requires forall j :: 0 <= j < |sh.kids[n]| ==> Sound(sh, items, lays, doc, sh.kids[n][j])
    ensures forall j :: 0 <= j < |sh.kids[n]| ==> Sound(sh, items, lays1, doc, sh.kids[n][j])
  {
    assert SubtreesNested(sh, n);
    forall j | 0 <= j < |sh.kids[n]|
      ensures Sound(sh, items, lays1, doc, sh.kids[n][j])
    {
      SoundKept(sh, items, lays, lays1, doc, sh.kids[n][j]);
    }
  }

  /**
   * The paragraph step of block `n` followed by its children loop and its
   * own bounding box leaves it `BlockPlaced`, having changed only its
   * subtree.
   */
  lemma BlockDone(sh: TreeShape, items: seq<Option<Item>>, bbs: seq<Dimensions>, lays: seq<Option<PangoState>>,
                  lays1: seq<Option<PangoState>>, bbs1: seq<Dimensions>, lays2: seq<Option<PangoState>>, n: nat,
                  doc: Doc, measure: PangoState -> nat, indexToPos: (PangoState, int) -> (int, int),
                  width: int, x: int, y: int, height: int, childOffset: int)
    requires WellShaped(sh) && |items| == |bbs| == |lays| == |sh.kinds| && n < |sh.kinds|
    requires LayoutTree.ParagraphOf(items[n]) != null ==> lays1 == lays[n := Some(Configured(ViewOf(doc, items[n]), width))]
    requires LayoutTree.ParagraphOf(items[n]) == null ==> lays1 == lays
    requires height == OwnHeight(items[n], doc, measure, width)
    requires Kept(bbs, bbs1, lays1, lays2, n + 1, sh.ends[n])
    requires childOffset == BlockHeights(sh.kinds, sh.kids[n], KidBoxes(bbs1, sh.kids[n]))
    requires KidsPlaced(sh, items, bbs1, lays1[n], ViewOf(doc, items[n]), indexToPos, width, x, y, n)
    requires lays1[n].None? ==> InlineKidsKept(sh, bbs, bbs1, n)
    ensures var bbs' := bbs1[n := Dimensions(x, y, width, height + childOffset)];
      Kept(bbs, bbs', lays, lays2, n, sh.ends[n]) &&
      BlockPlaced(sh, items, bbs', lays2, doc, measure, indexToPos, width, x, y, n) &&
      (lays2[n].None? ==> InlineKidsKept(sh, bbs, bbs', n))
  {
    assert SubtreesNested(sh, n);
    var bbs' := bbs1[n := Dimensions(x, y, width, height + childOffset)];
    assert KidBoxes(bbs', sh.kids[n]) == KidBoxes(bbs1, sh.kids[n]);
  }

  /**
   * The paragraph step of `text_layout_block_layout`: a block with a
   * paragraph sets its Pango layout's attributes, text and width, and
   * `height` is the layout's measured height; without a paragraph nothing
   * changes and `height` is 0.
   */
  method ConfigureParagraph(items: seq<Option<Item>>, lays: seq<Option<PangoState>>, n: nat, ghost doc: Doc,
                            measure: PangoState -> nat, width: int)
    returns (lays': seq<Option<PangoState>>, height: int)
    requires n < |items| == |lays| && Covers(items, doc) && Current(doc)
    ensures LayoutTree.ParagraphOf(items[n]) != null ==> lays' == lays[n := Some(Configured(ViewOf(doc, items[n]), width))]
    ensures LayoutTree.ParagraphOf(items[n]) == null ==> lays' == lays
    ensures height == OwnHeight(items[n], doc, measure, width)
  {
    var p := LayoutTree.ParagraphOf(items[n]);
    lays', height := lays, 0;
    if p != null {
      ghost var view := ViewNow(p);
      assert ViewOf(doc, items[n]) == view;
      var attrs := SetAttributes(p);
      var st := PangoState(ParagraphText(p), attrs, PangoScale * width);
      assert st == Configured(view, width);
      lays' := lays[n := Some(st)];
      height := measure(st);
    }
  }

  /**
   * The children loop of `text_layout_block_layout`. A block child is laid
   * out at the block's `x` and `y` plus the heights of the block children
   * before it. An inline child is skipped while the block has no Pango
   * layout; otherwise the fragment iterator moves on to its fragment and
   * the child is laid out where Pango puts that byte offset. `childOffset`
   * is the height of the block children.
   */
  method LayoutChildren(sh: TreeShape, items: seq<Option<Item>>, bbs: seq<Dimensions>, lays: seq<Option<PangoState>>, n: nat,
                        ghost doc: Doc, measure: PangoState -> nat, indexToPos: (PangoState, int) -> (int, int),
                        width: int, x: int, y: int)
    returns (bbs': seq<Dimensions>, lays': seq<Option<PangoState>>, childOffset: int)
    requires Ready(sh, items, bbs, lays, doc) && n < |sh.kinds| && sh.kinds[n] == BlockBox && Current(doc)
    requires lays[n].Some? ==>
      Walk(sh.kinds, items, sh.kids[n], ViewOf(doc, items[n]).frags, ViewOf(doc, items[n]).pieces).Some?
    requires forall j :: 0 <= j < |sh.kids[n]| ==> Sound(sh, items, lays, doc, sh.kids[n][j])
    ensures Kept(bbs, bbs', lays, lays', n + 1, sh.ends[n])
    ensures childOffset == BlockHeights(sh.kinds, sh.kids[n], KidBoxes(bbs', sh.kids[n]))
    ensures KidsPlaced(sh, items, bbs', lays[n], ViewOf(doc, items[n]), indexToPos, width, x, y, n)
    ensures lays[n].None? ==> InlineKidsKept(sh, bbs, bbs', n)
    decreases sh.ends[n] - n, 0, 1
  {
    assert SubtreesNested(sh, n);
    var s, fs, pango := sh.kids[n], LayoutTree.FragmentsOf(items[n]), lays[n];
    ghost var v := ViewOf(doc, items[n]);
    assert fs == v.frags && v.pieces == Pieces(fs);
    var k: nat, off := 0, 0;
    bbs', lays', childOffset := bbs, lays, 0;
    ghost var ds: seq<Dimensions> := [];
    LaidStart(sh, items, bbs, lays, n, v, pango, indexToPos, width, x, y);
    var i := 0;
    while i < |s|
      invariant 0 <= i <= |s| && k <= |fs| && |ds| == i
      invariant Walked(sh, items, n, i, v, pango, k, off)
      invariant Laid(sh, items, bbs, lays, bbs', lays', n, ds, v, pango, indexToPos, width, x, y, childOffset)
    {
      ghost var d;
      bbs', lays', k, off, childOffset, d :=
        LayoutNext(sh, items, bbs, lays, bbs', lays', n, i, ds, doc, measure, indexToPos, width, x, y, fs, v, pango, k, off, childOffset);
      ds := ds + [d];
      i := i + 1;
    }
    LaidDone(sh, items, bbs, lays, bbs', lays', n, ds, v, pango, indexToPos, width, x, y, childOffset);
  }

  /**
   * Where the children loop of block `n` stands after the first `|ds|`
   * children, starting from the bounding boxes `bbs` and Pango layouts
   * `lays`: only the subtrees of those children have changed, giving them
   * the bounding boxes `ds`; `childOffset` is the height of the block
   * children among them; they are `Stacked`, and `Shown` or `Skipped` as
   * the block has a Pango layout `pango` or not.
   */
  ghost predicate Laid(sh: TreeShape, items: seq<Option<Item>>, bbs: seq<Dimensions>, lays: seq<Option<PangoState>>,
                       bbs': seq<Dimensions>, lays': seq<Option<PangoState>>, n: nat, ds: seq<Dimensions>, v: ParaView,
                       pango: Option<PangoState>, indexToPos: (PangoState, int) -> (int, int), width: int, x: int, y: int,
                       childOffset: int)
    requires WellShaped(sh) && |items| == |bbs| == |lays| == |sh.kinds| && n < |sh.kinds| && |ds| <= |sh.kids[n]|
  {
    LaidFrame(sh, bbs, lays, bbs', lays', n, ds) &&
    Placed(sh, items, bbs, n, ds, v, pango, indexToPos, width, x, y, childOffset)
  }

  /**
   * Only the subtrees of the first `|ds|` children of block `n` differ
   * between `bbs`/`lays` and `bbs'`/`lays'`, and those children have the
   * bounding boxes `ds`.
   */
  ghost predicate LaidFrame(sh: TreeShape, bbs: seq<Dimensions>, lays: seq<Option<PangoState>>,
                            bbs': seq<Dimensions>, lays': seq<Option<PangoState>>, n: nat, ds: seq<Dimensions>)
    requires WellShaped(sh) && |bbs| == |sh.kinds| && n < |sh.kinds| && |ds| <= |sh.kids[n]|
  {
    assert SubtreesNested(sh, n);
    var s, i := sh.kids[n], |ds|;
    Kept(bbs, bbs', lays, lays', n + 1, if i < |s| then s[i] else sh.ends[n]) &&
    Holds(bbs', s, ds)
  }

  /**
   * The bounding boxes `ds` of the first `|ds|` children of block `n` are
   * placed as the children loop places them: `childOffset` is the height
   * of the block children among them, which are `Stacked`, and the inline
   * ones are `Shown` or `Skipped` as the block has a Pango layout `pango`
   * or not.
   */
  ghost predicate Placed(sh: TreeShape, items: seq<Option<Item>>, bbs: seq<Dimensions>, n: nat, ds: seq<Dimensions>,
                         v: ParaView, pango: Option<PangoState>, indexToPos: (PangoState, int) -> (int, int),
                         width: int, x: int, y: int, childOffset: int)
    requires WellShaped(sh) && |items| == |bbs| == |sh.kinds| && n < |sh.kinds| && |ds| <= |sh.kids[n]|
  {
    assert SubtreesNested(sh, n);
    var s := sh.kids[n];
    childOffset == BlockHeights(sh.kinds, s, ds) &&
    Stacked(sh.kinds, s, ds, width, x, y) &&
    (pango.Some? ==> Shown(sh.kinds, items, s, ds, v, pango.value, indexToPos)) &&
    (pango.None? ==> Skipped(sh.kinds, s, ds, bbs))
  }

  /**
   * The fragment walk over the first `i` children of block `n`, when the
   * block has a Pango layout, stands at child `k` of the paragraph and byte
   * offset `off`.
   */
  ghost predicate Walked(sh: TreeShape, items: seq<Option<Item>>, n: nat, i: nat, v: ParaView, pango: Option<PangoState>,
                         k: nat, off: int)
    requires WellShaped(sh) && |items| == |sh.kinds| && n < |sh.kinds| && i <= |sh.kids[n]|
  {
    assert SubtreesNested(sh, n);
    pango.Some? ==> |v.pieces| == |v.frags| && Walk(sh.kinds, items, sh.kids[n][..i], v.frags, v.pieces) == Some((k, off))
  }

  /** Before the children loop, no child is `Laid`. */
  lemma LaidStart(sh: TreeShape, items: seq<Option<Item>>, bbs: seq<Dimensions>, lays: seq<Option<PangoState>>, n: nat,
                  v: ParaView, pango: Option<PangoState>, indexToPos: (PangoState, int) -> (int, int), width: int, x: int, y: int)
    requires WellShaped(sh) && |items| == |bbs| == |lays| == |sh.kinds| && n < |sh.kinds|
    ensures Laid(sh, items, bbs, lays, bbs, lays, n, [], v, pango, indexToPos, width, x, y, 0)
  {
    assert SubtreesNested(sh, n);
  }

  /** After the children loop, all the children are placed as `LayoutChildren` promises. */
  lemma LaidDone(sh: TreeShape, items: seq<Option<Item>>, bbs: seq<Dimensions>, lays: seq<Option<PangoState>>,
                 bbs': seq<Dimensions>, lays': seq<Option<PangoState>>, n: nat, ds: seq<Dimensions>, v: ParaView,
                 pango: Option<PangoState>, indexToPos: (PangoState, int) -> (int, int), width: int, x: int, y: int,
                 childOffset: int)
    requires WellShaped(sh) && |items| == |bbs| == |lays| == |sh.kinds| && n < |sh.kinds| && |ds| == |sh.kids[n]|
    requires Laid(sh, items, bbs, lays, bbs', lays', n, ds, v, pango, indexToPos, width, x, y, childOffset)
    ensures Kept(bbs, bbs', lays, lays', n + 1, sh.ends[n])
    ensures childOffset == BlockHeights(sh.kinds, sh.kids[n], KidBoxes(bbs', sh.kids[n]))
    ensures KidsPlaced(sh, items, bbs', pango, v, indexToPos, width, x, y, n)
    ensures pango.None? ==> InlineKidsKept(sh, bbs, bbs', n)
  {
    assert SubtreesNested(sh, n);
    assert KidBoxes(bbs', sh.kids[n]) == ds;
  }

  /** Laying out the next child, as `LayoutChild` does, takes `Laid` one child further. */
  lemma LaidStep(sh: TreeShape, items: seq<Option<Item>>, bbs: seq<Dimensions>, lays: seq<Option<PangoState>>,
                 b0: seq<Dimensions>, l0: seq<Option<PangoState>>, b1: seq<Dimensions>, l1: seq<Option<PangoState>>,
                 n: nat, ds: seq<Dimensions>, v: ParaView, pango: Option<PangoState>, indexToPos: (PangoState, int) -> (int, int),
                 width: int, x: int, y: int, offset0: int, offset1: int)
    requires WellShaped(sh) && |items| == |bbs| == |lays| == |sh.kinds| && n < |sh.kinds| && |ds| < |sh.kids[n]|
    requires Laid(sh, items, bbs, lays, b0, l0, n, ds, v, pango, indexToPos, width, x, y, offset0)
    requires Kept(b0, b1, l0, l1, sh.kids[n][|ds|], sh.ends[sh.kids[n][|ds|]])
    requires var c := sh.kids[n][|ds|];
      offset1 == offset0 + (if sh.kinds[c] == BlockBox then b1[c].height else 0) &&
      (sh.kinds[c] == BlockBox ==> b1[c].x == x && b1[c].y == y + offset0 && b1[c].width == width) &&
      (sh.kinds[c] == InlineBox && pango.Some? ==> InlineShown(sh.kinds, items, sh.kids[n], |ds|, v, pango.value, indexToPos, b1[c])) &&
      (sh.kinds[c] == InlineBox && pango.None? ==> b1[c] == b0[c])
    ensures Laid(sh, items, bbs, lays, b1, l1, n, ds + [b1[sh.kids[n][|ds|]]], v, pango, indexToPos, width, x, y, offset1)
  {
    assert SubtreesNested(sh, n);
    var c := sh.kids[n][|ds|];
    LaidFrameStep(sh, bbs, lays, b0, l0, b1, l1, n, ds);
    assert pango.None? && sh.kinds[c] == InlineBox ==> b1[c] == bbs[c] by {
      assert SubtreesNested(sh, c);
    }
    PlacedStep(sh, items, bbs, n, ds, b1[c], v, pango, indexToPos, width, x, y, offset0, offset1);
  }

  /** Laying out child `|ds|` of block `n`, changing only its subtree, takes `LaidFrame` one child further. */
  lemma LaidFrameStep(sh: TreeShape, bbs: seq<Dimensions>, lays: seq<Option<PangoState>>,
                      b0: seq<Dimensions>, l0: seq<Option<PangoState>>, b1: seq<Dimensions>, l1: seq<Option<PangoState>>,
                      n: nat, ds: seq<Dimensions>)
    requires WellShaped(sh) && |bbs| == |sh.kinds| && n < |sh.kinds| && |ds| < |sh.kids[n]|
    requires LaidFrame(sh, bbs, lays, b0, l0, n, ds)
    requires Kept(b0, b1, l0, l1, sh.kids[n][|ds|], sh.ends[sh.kids[n][|ds|]])
    ensures LaidFrame(sh, bbs, lays, b1, l1, n, ds + [b1[sh.kids[n][|ds|]]])
  {
    assert SubtreesNested(sh, n);
    var s, i := sh.kids[n], |ds|;
    var c := s[i];
    KeptTrans(bbs, b0, b1, lays, l0, l1, n + 1, c, c, sh.ends[c], n + 1, if i + 1 < |s| then s[i + 1] else sh.ends[n]);
    HoldsStep(sh, n, b0, b1, l0, l1, ds);
  }

  /** Placing child `|ds|` of block `n` at `d`, as the children loop does, takes `Placed` one child further. */
  lemma PlacedStep(sh: TreeShape, items: seq<Option<Item>>, bbs: seq<Dimensions>, n: nat, ds: seq<Dimensions>, d: Dimensions,
                   v: ParaView, pango: Option<PangoState>, indexToPos: (PangoState, int) -> (int, int),
                   width: int, x: int, y: int, offset0: int, offset1: int)
    requires WellShaped(sh) && |items| == |bbs| == |sh.kinds| && n < |sh.kinds| && |ds| < |sh.kids[n]|
    requires Placed(sh, items, bbs, n, ds, v, pango, indexToPos, width, x, y, offset0)
    requires var c := sh.kids[n][|ds|];
      offset1 == offset0 + (if sh.kinds[c] == BlockBox then d.height else 0) &&
      (sh.kinds[c] == BlockBox ==> d.x == x && d.y == y + offset0 && d.width == width) &&
      (sh.kinds[c] == InlineBox && pango.Some? ==> InlineShown(sh.kinds, items, sh.kids[n], |ds|, v, pango.value, indexToPos, d)) &&
      (sh.kinds[c] == InlineBox && pango.None? ==> d == bbs[c])
    ensures Placed(sh, items, bbs, n, ds + [d], v, pango, indexToPos, width, x, y, offset1)
  {
    assert SubtreesNested(sh, n);
    var s := sh.kids[n];
    StackedAppend(sh.kinds, s, ds, d, width, x, y);
    if pango.Some? {
      ShownAppend(sh.kinds, items, s, ds, d, v, pango.value, indexToPos);
    } else {
      SkippedAppend(sh.kinds, s, ds, d, bbs);
    }
  }

  /**
   * One pass of the children loop of `text_layout_block_layout`, over
   * child `|ds|` of block `n`, taking `Laid` and the fragment walk one child
   * further; `d` is the bounding box the child is left with.
   */
  method LayoutNext(sh: TreeShape, items: seq<Option<Item>>, bbs: seq<Dimensions>, lays: seq<Option<PangoState>>,
                    b0: seq<Dimensions>, l0: seq<Option<PangoState>>, n: nat, i: nat, ghost ds: seq<Dimensions>,
                    ghost doc: Doc, measure: PangoState -> nat, indexToPos: (PangoState, int) -> (int, int),
                    width: int, x: int, y: int, fs: seq<Fragment>, ghost v: ParaView, pango: Option<PangoState>,
                    k: nat, off: int, childOffset: int)
    returns (b1: seq<Dimensions>, l1: seq<Option<PangoState>>, k': nat, off': int, childOffset': int, ghost d: Dimensions)
    requires Ready(sh, items, bbs, lays, doc) && n < |sh.kinds| && Current(doc) && |ds| == i < |sh.kids[n]|
    requires forall j :: 0 <= j < |sh.kids[n]| ==> Sound(sh, items, lays, doc, sh.kids[n][j])
    requires fs == v.frags && v.pieces == Pieces(fs) && k <= |fs|
    requires lays[n] == pango && (pango.Some? ==> Walk(sh.kinds, items, sh.kids[n], v.frags, v.pieces).Some?)
    requires Walked(sh, items, n, i, v, pango, k, off)
    requires Laid(sh, items, bbs, lays, b0, l0, n, ds, v, pango, indexToPos, width, x, y, childOffset)
    ensures k' <= |fs|
    ensures Walked(sh, items, n, i + 1, v, pango, k', off')
    ensures Laid(sh, items, bbs, lays, b1, l1, n, ds + [d], v, pango, indexToPos, width, x, y, childOffset')
    decreases sh.ends[n] - n, 0, 0
  {
    assert SubtreesNested(sh, n);
    var s := sh.kids[n];
    var c := s[i];
    SoundKept(sh, items, lays, l0, doc, c);
    if pango.Some? {
      WalkPrefix(sh.kinds, items, s, v.frags, v.pieces, i + 1);
    }
    b1, l1, k', off', childOffset' :=
      LayoutChild(sh, items, b0, l0, n, i, doc, measure, indexToPos, width, x, y, fs, v, pango, k, off, childOffset);
    LaidStep(sh, items, bbs, lays, b0, l0, b1, l1, n, ds, v, pango, indexToPos, width, x, y, childOffset, childOffset');
    d := b1[c];
  }

  /**
   * One pass of the children loop of `text_layout_block_layout`, for child
   * `i` of block `n`, whose paragraph is `v` (with fragments `fs`) and whose
   * Pango layout is `pango`. `(k, off)` is where the fragment walk stands
   * and `childOffset` the height of the block children before child `i`. A
   * block child is laid out below them; an inline child, when there is a
   * Pango layout, where Pango puts the byte offset of its fragment;
   * otherwise it is skipped.
   */
  method LayoutChild(sh: TreeShape, items: seq<Option<Item>>, bbs: seq<Dimensions>, lays: seq<Option<PangoState>>, n: nat, i: nat,
                     ghost doc: Doc, measure: PangoState -> nat, indexToPos: (PangoState, int) -> (int, int),
                     width: int, x: int, y: int, fs: seq<Fragment>, ghost v: ParaView, pango: Option<PangoState>,
                     k: nat, off: int, childOffset: int)
    returns (bbs': seq<Dimensions>, lays': seq<Option<PangoState>>, k': nat, off': int, childOffset': int)
    requires Ready(sh, items, bbs, lays, doc) && n < |sh.kinds| && Current(doc) && i < |sh.kids[n]|
    requires Sound(sh, items, lays, doc, sh.kids[n][i])
    requires fs == v.frags && v.pieces == Pieces(fs) && k <= |fs|
    requires pango.Some? ==>
      Walk(sh.kinds, items, sh.kids[n][..i], v.frags, v.pieces) == Some((k, off)) &&
      Walk(sh.kinds, items, sh.kids[n][..i + 1], v.frags, v.pieces).Some?
    ensures Kept(bbs, bbs', lays, lays', sh.kids[n][i], sh.ends[sh.kids[n][i]])
    ensures k' <= |fs| && (pango.Some? ==> Walk(sh.kinds, items, sh.kids[n][..i + 1], v.frags, v.pieces) == Some((k', off')))
    ensures var c := sh.kids[n][i];
      childOffset' == childOffset + (if sh.kinds[c] == BlockBox then bbs'[c].height else 0) &&
      (sh.kinds[c] == BlockBox ==> bbs'[c].x == x && bbs'[c].y == y + childOffset && bbs'[c].width == width) &&
      (sh.kinds[c] == InlineBox && pango.Some? ==>
        InlineShown(sh.kinds, items, sh.kids[n], i, v, pango.value, indexToPos, bbs'[c])) &&
      (sh.kinds[c] == InlineBox && pango.None? ==> bbs'[c] == bbs[c])
    decreases sh.ends[sh.kids[n][i]] - sh.kids[n][i], 3, 0
  {
    assert SubtreesNested(sh, n);
    var s := sh.kids[n];
    var c := s[i];
    assert SubtreesNested(sh, c);
    assert s[..i + 1] == s[..i] + [c];
    bbs', lays', k', off', childOffset' := bbs, lays, k, off, childOffset;
    if sh.kinds[c] == BlockBox {
      bbs', lays' := BoxLayout(sh, items, bbs, lays, c, doc, measure, indexToPos, width, x, y + childOffset);
      childOffset' := childOffset + bbs'[c].height;
    } else if pango.Some? {
      var found;
      found, k', off' := SeekFragment(fs, k, off, items[c]);
      if !found {
        assert false;
      }
      var pos := indexToPos(pango.value, off');
      bbs', lays' := BoxLayout(sh, items, bbs, lays, c, doc, measure, indexToPos, width, CDiv(pos.0, PangoScale), CDiv(pos.1, PangoScale));
    }
  }


  /**
   * The bounding boxes `b1` and Pango layouts `l1` are `b0` and `l0` except
   * for the boxes from `lo` up to `hi`.
   */
  ghost predicate Kept(b0: seq<Dimensions>, b1: seq<Dimensions>, l0: seq<Option<PangoState>>, l1: seq<Option<PangoState>>,
                       lo: nat, hi: nat)
  {
    |b1| == |b0| && |l1| == |l0| &&
    (forall m :: 0 <= m < |b0| && !(lo <= m < hi) ==> b1[m] == b0[m]) &&
    (forall m :: 0 <= m < |l0| && !(lo <= m < hi) ==> l1[m] == l0[m])
  }

  /** The inline children of box `n` have the same bounding boxes in `b0` and `b1`. */
  ghost predicate InlineKidsKept(sh: TreeShape, b0: seq<Dimensions>, b1: seq<Dimensions>, n: nat)
    requires WellShaped(sh) && |b0| == |b1| == |sh.kinds| && n < |sh.kinds|
  {
    assert SubtreesNested(sh, n);
    Skipped(sh.kinds, sh.kids[n], KidBoxes(b1, sh.kids[n]), b0)
  }

  /** The boxes `s` hold the bounding boxes `ds`, in `bbs`. */
  ghost predicate Holds(bbs: seq<Dimensions>, s: seq<nat>, ds: seq<Dimensions>)
    requires Ids(s, |bbs|)
  {
    |ds| <= |s| && forall j :: 0 <= j < |ds| ==> bbs[s[j]] == ds[j]
  }

  /**
   * The bounding boxes `ds` of the first `|ds|` children `s` put each block
   * child at `x` and `width`, below the block children before it.
   */
  ghost predicate Stacked(kinds: seq<BoxKind>, s: seq<nat>, ds: seq<Dimensions>, width: int, x: int, y: int)
    requires |ds| <= |s| && Ids(s, |kinds|)
  {
    forall j :: 0 <= j < |ds| && kinds[s[j]] == BlockBox ==>
      ds[j].x == x && ds[j].y == y + BlockHeights(kinds, s, ds[..j]) && ds[j].width == width
  }

  /**
   * The bounding boxes `ds` of the first `|ds|` children `s` of a block
   * whose paragraph is `v` and whose Pango layout is `st` put each inline
   * child where `InlineShown` says.
   */
  ghost predicate Shown(kinds: seq<BoxKind>, items: seq<Option<Item>>, s: seq<nat>, ds: seq<Dimensions>, v: ParaView,
                        st: PangoState, indexToPos: (PangoState, int) -> (int, int))
    requires |ds| <= |s| && |kinds| == |items| && Ids(s, |items|)
  {
    forall j :: 0 <= j < |ds| && kinds[s[j]] == InlineBox ==> InlineShown(kinds, items, s, j, v, st, indexToPos, ds[j])
  }

  /** The bounding boxes `ds` of the first `|ds|` children `s` leave each inline child as it is in `bbs`. */
  ghost predicate Skipped(kinds: seq<BoxKind>, s: seq<nat>, ds: seq<Dimensions>, bbs: seq<Dimensions>)
    requires |ds| <= |s| && Ids(s, |kinds|) && Ids(s, |bbs|)
  {
    forall j :: 0 <= j < |ds| && kinds[s[j]] == InlineBox ==> ds[j] == bbs[s[j]]
  }

  /** One more child laid out below the block children before it keeps the children `Stacked`. */
  lemma StackedAppend(kinds: seq<BoxKind>, s: seq<nat>, ds: seq<Dimensions>, d: Dimensions, width: int, x: int, y: int)
    requires |ds| < |s| && Ids(s, |kinds|) && Stacked(kinds, s, ds, width, x, y)
    requires kinds[s[|ds|]] == BlockBox ==> d.x == x && d.y == y + BlockHeights(kinds, s, ds) && d.width == width
    ensures Stacked(kinds, s, ds + [d], width, x, y)
    ensures BlockHeights(kinds, s, ds + [d]) == BlockHeights(kinds, s, ds) + (if kinds[s[|ds|]] == BlockBox then d.height else 0)
  {
    var ds' := ds + [d];
    assert ds'[..|ds|] == ds;
    forall j | 0 <= j < |ds'| && kinds[s[j]] == BlockBox
      ensures ds'[j].x == x && ds'[j].y == y + BlockHeights(kinds, s, ds'[..j]) && ds'[j].width == width
    {
      if j < |ds| {
        assert ds'[..j] == ds[..j] && ds'[j] == ds[j];
      }
    }
  }

  /** One more inline child placed where `InlineShown` says keeps the children `Shown`. */
  lemma ShownAppend(kinds: seq<BoxKind>, items: seq<Option<Item>>, s: seq<nat>, ds: seq<Dimensions>, d: Dimensions, v: ParaView,
                    st: PangoState, indexToPos: (PangoState, int) -> (int, int))
    requires |ds| < |s| && |kinds| == |items| && Ids(s, |items|) && Shown(kinds, items, s, ds, v, st, indexToPos)
    requires kinds[s[|ds|]] == InlineBox ==> InlineShown(kinds, items, s, |ds|, v, st, indexToPos, d)
    ensures Shown(kinds, items, s, ds + [d], v, st, indexToPos)
  {
    var ds' := ds + [d];
    assert forall j :: 0 <= j < |ds| ==> ds'[j] == ds[j];
  }

  /** One more inline child left as it was keeps the children `Skipped`. */
  lemma SkippedAppend(kinds: seq<BoxKind>, s: seq<nat>, ds: seq<Dimensions>, d: Dimensions, bbs: seq<Dimensions>)
    requires |ds| < |s| && Ids(s, |kinds|) && Ids(s, |bbs|) && Skipped(kinds, s, ds, bbs)
    requires kinds[s[|ds|]] == InlineBox ==> d == bbs[s[|ds|]]
    ensures Skipped(kinds, s, ds + [d], bbs)
  {
    var ds' := ds + [d];
    assert forall j :: 0 <= j < |ds| ==> ds'[j] == ds[j];
  }

  /**
   * Laying out child `i` of the children `s` of block `n`, which changes
   * only the subtree of that child, keeps the children before it where
   * they were.
   */
  lemma HoldsStep(sh: TreeShape, n: nat, b0: seq<Dimensions>, b1: seq<Dimensions>, l0: seq<Option<PangoState>>,
                  l1: seq<Option<PangoState>>, ds: seq<Dimensions>)
    requires WellShaped(sh) && n < |sh.kinds| == |b0| && |ds| < |sh.kids[n]|
    requires Holds(b0, sh.kids[n], ds)
    requires Kept(b0, b1, l0, l1, sh.kids[n][|ds|], sh.ends[sh.kids[n][|ds|]])
    ensures Holds(b1, sh.kids[n], ds + [b1[sh.kids[n][|ds|]]])
  {
    assert SubtreesNested(sh, n);
    var s, i := sh.kids[n], |ds|;
    forall j | 0 <= j < i
      ensures b1[s[j]] == b0[s[j]]
    {
      assert s[j] < sh.ends[s[j]] <= s[i];
    }
  }

  /** Two changes kept to parts of the range `[lo, hi)` together change only that range. */
  lemma KeptTrans(b0: seq<Dimensions>, b1: seq<Dimensions>, b2: seq<Dimensions>,
                  l0: seq<Option<PangoState>>, l1: seq<Option<PangoState>>, l2: seq<Option<PangoState>>,
                  lo1: nat, hi1: nat, lo2: nat, hi2: nat, lo: nat, hi: nat)
    requires Kept(b0, b1, l0, l1, lo1, hi1) && Kept(b1, b2, l1, l2, lo2, hi2)
    requires lo <= lo1 && lo <= lo2 && hi1 <= hi && hi2 <= hi
    ensures Kept(b0, b2, l0, l2, lo, hi)
  {
  }

  /** What the block layout reads of a paragraph: its text, its fragments and their pieces. */
  datatype ParaData = ParaData(text: string, frags: seq<Fragment>, pieces: seq<Piece>)

  /** A `ParaData` with a piece for each fragment. */
  type ParaView = v: ParaData | |v.pieces| == |v.frags| witness ParaData([], [], [])

  /**
   * The paragraphs a layout reads, each with its `ParaView` as it was when
   * the layout began. Layout changes only boxes, so the views stay
   * `Current` while it runs.
   */
  type Doc = map<Paragraph, ParaView>

  /** The view of `p` as the heap has it. */
  function ViewNow(p: Paragraph): (v: ParaView)
    reads p, p.fragments
    ensures v.frags == p.fragments
  {
    ParaData(ParagraphText(p), p.fragments, Pieces(p.fragments))
  }

  /** The fragments of the paragraphs of `doc`. */
  ghost function DocFragments(doc: Doc): (r: set<Fragment>)
    ensures forall p, f :: p in doc && f in doc[p].frags ==> f in r
  {
    set p, f | p in doc && f in doc[p].frags :: f
  }

  /** Every paragraph of `doc` is as its view says. */
  ghost predicate Current(doc: Doc)
    reads doc.Keys, DocFragments(doc)
  {
    forall p :: p in doc ==> p.fragments == doc[p].frags && doc[p] == ViewNow(p)
  }

  /** The view of the paragraph `item` is, or an empty one when it is none (or not in `doc`). */
  function ViewOf(doc: Doc, item: Option<Item>): ParaView {
    var p := LayoutTree.ParagraphOf(item);
    if p != null && p in doc then doc[p] else ParaData([], [], [])
  }

  /** `doc` holds the paragraph of each of the boxes whose items are `items` that has one. */
  ghost predicate Covers(items: seq<Option<Item>>, doc: Doc) {
    forall m :: 0 <= m < |items| ==>
      LayoutTree.ParagraphOf(items[m]) != null ==> LayoutTree.ParagraphOf(items[m]) in doc
  }

  /** The Pango layout a block configures for the paragraph `v` at `width` pixels. */
  function Configured(v: ParaView, width: int): PangoState {
    PangoState(v.text, Attributes(v.pieces, |v.pieces|), PangoScale * width)
  }

  /** The height of a block's own text: its measured paragraph, or 0 without one. */
  function OwnHeight(item: Option<Item>, doc: Doc, measure: PangoState -> nat, width: int): nat {
    if LayoutTree.ParagraphOf(item) != null then measure(Configured(ViewOf(doc, item), width)) else 0
  }

  /** The bounding boxes, among `bboxes`, of the boxes `s`. */
  function KidBoxes(bboxes: seq<Dimensions>, s: seq<nat>): (ds: seq<Dimensions>)
    requires Ids(s, |bboxes|)
    ensures |ds| == |s| && forall j :: 0 <= j < |s| ==> ds[j] == bboxes[s[j]]
  {
    seq(|s|, j requires 0 <= j < |s| => bboxes[s[j]])
  }

  /**
   * The heights `ds` of the first `|ds|` of the children `s` that are
   * blocks, added in child order; inline boxes add nothing.
   */
  function BlockHeights(kinds: seq<BoxKind>, s: seq<nat>, ds: seq<Dimensions>): int
    requires |ds| <= |s| && Ids(s, |kinds|)
  {
    if |ds| == 0 then 0
    else BlockHeights(kinds, s, ds[..|ds| - 1]) + (if kinds[s[|ds| - 1]] == BlockBox then ds[|ds| - 1].height else 0)
  }

  /** Appending a bounding box leaves the earlier prefixes alone. */
  lemma HeightsOfAppend(kinds: seq<BoxKind>, s: seq<nat>, ds: seq<Dimensions>, d: Dimensions)
    requires |ds| < |s|
    ensures forall j :: 0 <= j <= |ds| ==> (ds + [d])[..j] == ds[..j]
    ensures forall j :: 0 <= j < |ds| ==> (ds + [d])[j] == ds[j]
  {
  }

  /** The item a fragment iterator at child `k` points at: `fs[k]`, or NULL past the last child. */
  function At(fs: seq<Fragment>, k: nat): Option<Item> {
    if k < |fs| then Some(FragmentItem(fs[k])) else None
  }

  /**
   * The `while` loop of the block layout that finds an inline box's
   * fragment: from child `k` at byte offset `off`, step to the next fragment,
   * adding the size of the one left, until the iterator points at `target`.
   * `None` is the `g_assert` failing: the step ran off the last child.
   */
  function Seek(fs: seq<Fragment>, ps: seq<Piece>, k: nat, off: int, target: Option<Item>): (r: Option<(nat, int)>)
    requires |ps| == |fs| && k <= |fs|
    ensures r.Some? ==> k <= r.value.0 <= |fs|
    decreases |fs| - k
  {
    if At(fs, k) == target then Some((k, off))
    else if k + 1 >= |fs| then None
    else Seek(fs, ps, k + 1, off + ps[k].size, target)
  }

  /**
   * What `Seek` finds: the first child at or after `k` that is `target`,
   * with the byte offset grown by the sizes of the children passed over.
   */
  lemma {:induction false} SeekFound(fs: seq<Fragment>, ps: seq<Piece>, k: nat, off: int, target: Option<Item>)
    requires |ps| == |fs| && k <= |fs| && Seek(fs, ps, k, off, target).Some?
    ensures var (k', off') := Seek(fs, ps, k, off, target).value;
      At(fs, k') == target && off' == off + StartIndex(ps, k') - StartIndex(ps, k) &&
      forall j :: k <= j < k' ==> At(fs, j) != target
    decreases |fs| - k
  {
    if At(fs, k) != target {
      SeekFound(fs, ps, k + 1, off + ps[k].size, target);
    }
  }

  /**
   * When `Seek` succeeds: exactly when `target` is a child at or after `k`,
   * or is NULL and the iterator is already past the last child.
   */
  lemma {:induction false} SeekSome(fs: seq<Fragment>, ps: seq<Piece>, k: nat, off: int, target: Option<Item>)
    requires |ps| == |fs| && k <= |fs|
    ensures Seek(fs, ps, k, off, target).Some? <==>
      (exists j :: k <= j < |fs| && At(fs, j) == target) || (k == |fs| && target.None?)
    decreases |fs| - k
  {
    if At(fs, k) != target && k + 1 < |fs| {
      SeekSome(fs, ps, k + 1, off + ps[k].size, target);
      if exists j :: k <= j < |fs| && At(fs, j) == target {
        var j :| k <= j < |fs| && At(fs, j) == target;
        assert j != k;
      }
    }
  }

  /**
   * The fragment iterator and byte offset after the block layout has handled
   * the children `s`: each inline child seeks its own fragment from where
   * the previous one stopped; block children leave them alone. `None` once a
   * seek has failed.
   */
  function Walk(kinds: seq<BoxKind>, items: seq<Option<Item>>, s: seq<nat>, fs: seq<Fragment>, ps: seq<Piece>): (r: Option<(nat, int)>)
    requires |ps| == |fs| && |kinds| == |items| && Ids(s, |items|)
    ensures r.Some? ==> r.value.0 <= |fs|
  {
    if |s| == 0 then Some((0, 0))
    else
      var st := Walk(kinds, items, s[..|s| - 1], fs, ps);
      var c := s[|s| - 1];
      if st.None? || kinds[c] == BlockBox then st
      else Seek(fs, ps, st.value.0, st.value.1, items[c])
  }

  /** Once a seek has failed, the walk stays failed. */
  lemma {:induction false} WalkStaysFailed(kinds: seq<BoxKind>, items: seq<Option<Item>>, s: seq<nat>, fs: seq<Fragment>, ps: seq<Piece>, m: nat)
    requires |ps| == |fs| && |kinds| == |items| && Ids(s, |items|) && m <= |s| && Walk(kinds, items, s[..m], fs, ps).None?
    ensures Walk(kinds, items, s, fs, ps).None?
    decreases |s|
  {
    if m < |s| {
      var n := |s| - 1;
      assert s[..n][..m] == s[..m];
      WalkStaysFailed(kinds, items, s[..n], fs, ps, m);
    } else {
      assert s[..m] == s;
    }
  }

  /** A walk that succeeds over all the children succeeds over each prefix of them. */
  lemma WalkPrefix(kinds: seq<BoxKind>, items: seq<Option<Item>>, s: seq<nat>, fs: seq<Fragment>, ps: seq<Piece>, m: nat)
    requires |ps| == |fs| && |kinds| == |items| && Ids(s, |items|) && m <= |s| && Walk(kinds, items, s, fs, ps).Some?
    ensures Walk(kinds, items, s[..m], fs, ps).Some?
  {
    if Walk(kinds, items, s[..m], fs, ps).None? {
      WalkStaysFailed(kinds, items, s, fs, ps, m);
    }
  }

  /**
   * Where an inline box goes: the position Pango gives for byte index
   * `off`, divided down from Pango units with C's truncation, 100 pixels square.
   */
  function InlineAt(st: PangoState, off: int, indexToPos: (PangoState, int) -> (int, int)): (d: Dimensions)
    ensures d.width == InlineSize && d.height == InlineSize
  {
    var pos := indexToPos(st, off);
    Dimensions(CDiv(pos.0, PangoScale), CDiv(pos.1, PangoScale), InlineSize, InlineSize)
  }

  /**
   * Laying out box `n` reaches no failing `g_assert`: in every block of its
   * subtree that has a paragraph, or already holds a Pango layout, each
   * inline child shows a fragment of the block's paragraph, found walking
   * forward from where the inline child before it was found. The source
   * asserts this ("InlineBox must point to a valid item in the paragraph").
   */
  ghost predicate Sound(sh: TreeShape, items: seq<Option<Item>>, layouts: seq<Option<PangoState>>, doc: Doc, n: nat)
    requires WellShaped(sh) && |items| == |layouts| == |sh.kinds| && n < |sh.kinds|
    decreases sh.ends[n] - n
  {
    assert SubtreesNested(sh, n);
    var v := ViewOf(doc, items[n]);
    sh.kinds[n] == BlockBox ==>
      ((LayoutTree.ParagraphOf(items[n]) != null || layouts[n].Some?) ==>
        Walk(sh.kinds, items, sh.kids[n], v.frags, v.pieces).Some?) &&
      forall j :: 0 <= j < |sh.kids[n]| ==> Sound(sh, items, layouts, doc, sh.kids[n][j])
  }

  /** `Sound` reads only the Pango layouts of the subtree. */
  lemma {:induction false} SoundKept(sh: TreeShape, items: seq<Option<Item>>, l0: seq<Option<PangoState>>, l1: seq<Option<PangoState>>,
                                     doc: Doc, n: nat)
    requires WellShaped(sh) && |items| == |l0| == |l1| == |sh.kinds| && n < |sh.kinds|
    requires forall m :: n <= m < sh.ends[n] && SubtreesNested(sh, n) ==> l1[m] == l0[m]
    ensures Sound(sh, items, l0, doc, n) == Sound(sh, items, l1, doc, n)
    decreases sh.ends[n] - n
  {
    assert SubtreesNested(sh, n);
    forall j | 0 <= j < |sh.kids[n]|
      ensures Sound(sh, items, l0, doc, sh.kids[n][j]) == Sound(sh, items, l1, doc, sh.kids[n][j])
    {
      SoundKept(sh, items, l0, l1, doc, sh.kids[n][j]);
    }
  }

  /**
   * Inline child `j` of the children `s` of a block whose paragraph is `v`
   * and whose Pango layout is `st` has the bounding box `d` where Pango puts
   * the byte offset the fragment walk reached at it.
   */
  ghost predicate InlineShown(kinds: seq<BoxKind>, items: seq<Option<Item>>, s: seq<nat>, j: nat, v: ParaView, st: PangoState,
                              indexToPos: (PangoState, int) -> (int, int), d: Dimensions)
    requires |kinds| == |items| && Ids(s, |items|) && j < |s|
  {
    var w := Walk(kinds, items, s[..j + 1], v.frags, v.pieces);
    w.Some? && d == InlineAt(st, w.value.1, indexToPos)
  }

  /**
   * The children of block `n`, whose paragraph is `v` and whose Pango layout
   * is `st`, as `text_layout_block_layout` leaves them at width `width` and
   * offset `(x, y)`: each block child at the block's `x` and `width`, below
   * the block children before it, and, when there is a Pango layout, each
   * inline child `InlineShown`.
   */
  ghost predicate KidsPlaced(sh: TreeShape, items: seq<Option<Item>>, bboxes: seq<Dimensions>, st: Option<PangoState>, v: ParaView,
                             indexToPos: (PangoState, int) -> (int, int), width: int, x: int, y: int, n: nat)
    requires WellShaped(sh) && |items| == |bboxes| == |sh.kinds| && n < |sh.kinds|
  {
    assert SubtreesNested(sh, n);
    var s := sh.kids[n];
    var ds := KidBoxes(bboxes, s);
    Stacked(sh.kinds, s, ds, width, x, y) && (st.Some? ==> Shown(sh.kinds, items, s, ds, v, st.value, indexToPos))
  }

  /**
   * The state `text_layout_block_layout` leaves block `n` and its children
   * in, at width `width` and offset `(x, y)`: a block with a paragraph has
   * configured its Pango layout for it; its bounding box is at the offset,
   * as wide as `width`, as tall as its text and its block children
   * together; and its children are `KidsPlaced`.
   */
  ghost predicate BlockPlaced(sh: TreeShape, items: seq<Option<Item>>, bboxes: seq<Dimensions>, layouts: seq<Option<PangoState>>,
                              doc: Doc, measure: PangoState -> nat, indexToPos: (PangoState, int) -> (int, int),
                              width: int, x: int, y: int, n: nat)
    requires WellShaped(sh) && |items| == |bboxes| == |layouts| == |sh.kinds| && n < |sh.kinds|
  {
    assert SubtreesNested(sh, n);
    var s, v := sh.kids[n], ViewOf(doc, items[n]);
    (LayoutTree.ParagraphOf(items[n]) != null ==> layouts[n] == Some(Configured(v, width))) &&
    bboxes[n] == Dimensions(x, y, width, OwnHeight(items[n], doc, measure, width) + BlockHeights(sh.kinds, s, KidBoxes(bboxes, s))) &&
    KidsPlaced(sh, items, bboxes, layouts[n], v, indexToPos, width, x, y, n)
  }

  /**
   * Where the fragment walk stands after an inline child: at the fragment
   * that child shows, whose byte offset is the sizes of the fragments
   * before it.
   */
  lemma {:induction false} WalkAtFragment(kinds: seq<BoxKind>, items: seq<Option<Item>>, s: seq<nat>, fs: seq<Fragment>, ps: seq<Piece>)
    requires |ps| == |fs| && |kinds| == |items| && Ids(s, |items|) && Walk(kinds, items, s, fs, ps).Some?
    ensures Walk(kinds, items, s, fs, ps).value.1 == StartIndex(ps, Walk(kinds, items, s, fs, ps).value.0)
    ensures |s| > 0 && kinds[s[|s| - 1]] == InlineBox ==> At(fs, Walk(kinds, items, s, fs, ps).value.0) == items[s[|s| - 1]]
    decreases |s|
  {
    if |s| > 0 {
      var st := Walk(kinds, items, s[..|s| - 1], fs, ps);
      WalkAtFragment(kinds, items, s[..|s| - 1], fs, ps);
      if kinds[s[|s| - 1]] == InlineBox {
        SeekFound(fs, ps, st.value.0, st.value.1, items[s[|s| - 1]]);
      }
    }
  }

  /**
   * An inline child with an item, where `InlineShown` puts it, shows a
   * fragment of the paragraph and sits where Pango puts the byte offset at
   * which that fragment starts.
   */
  lemma InlineAtItsFragment(kinds: seq<BoxKind>, items: seq<Option<Item>>, s: seq<nat>, j: nat, v: ParaView, st: PangoState,
                            indexToPos: (PangoState, int) -> (int, int), d: Dimensions)
    requires |kinds| == |items| && Ids(s, |items|) && j < |s| && kinds[s[j]] == InlineBox && items[s[j]].Some?
    requires InlineShown(kinds, items, s, j, v, st, indexToPos, d)
    ensures exists k ::
      0 <= k < |v.frags| && Some(FragmentItem(v.frags[k])) == items[s[j]] &&
      d == InlineAt(st, StartIndex(v.pieces, k), indexToPos)
  {
    var w := Walk(kinds, items, s[..j + 1], v.frags, v.pieces);
    assert s[..j + 1][j] == s[j];
    WalkAtFragment(kinds, items, s[..j + 1], v.frags, v.pieces);
    var k := w.value.0;
    assert At(v.frags, k) == items[s[j]];
  }

  /**
   * The `while` loop of the block layout: steps the fragment iterator from
   * child `k` to the fragment `target`, adding the sizes of those passed to
   * the byte offset; `found` is false where the `g_assert` fails.
   */
  method SeekFragment(fs: seq<Fragment>, k: nat, off: int, target: Option<Item>) returns (found: bool, k': nat, off': int)
    requires k <= |fs|
    ensures found == Seek(fs, Pieces(fs), k, off, target).Some?
    ensures found ==> (k', off') == Seek(fs, Pieces(fs), k, off, target).value
  {
    ghost var ps := Pieces(fs);
    k', off' := k, off;
    while At(fs, k') != target
      invariant k <= k' <= |fs|
      invariant Seek(fs, ps, k, off, target) == Seek(fs, ps, k', off', target)
      decreases |fs| - k'
    {
      if k' + 1 >= |fs| {
        return false, k', off';
      }
      off' := off' + SizeBytes(fs[k']);
      k' := k' + 1;
    }
    found := true;
  }
}
