/**
 * The first generation of the C layout (`src/layout/layout.c` and
 * `src/layout/layout-box.c`, the three-argument `text_layout_box_layout`).
 *
 * `text_layout_build_layout_tree` makes a root box with no item, appends one
 * box per paragraph child of the frame, lays each of them out, then lays the
 * root out. A box's height is the height Pango measures for its own
 * paragraph's text plus the heights its children already hold in their
 * bounding boxes; its bounding box is always placed at the origin.
 *
 * Pango's `pango_layout_get_pixel_size` is the function parameter `measure`
 * (the text and the wrap width in pixels give a height in pixels). A box's
 * children, a `node.c` child list in the source, are the sequence field
 * `children`.
 */
module LayoutTree {
  import opened Optional
  import opened TextModel
  import opened LayoutTypes

  /** `TextLayoutBox`: the item it lays out, its child boxes and its bounding box. */
  class LayoutBox {
    var item: Option<Item>
    var children: seq<LayoutBox>
    var bbox: Dimensions

    /** `text_layout_box_new`: no item, no children, a zeroed bounding box. */
    constructor ()
      ensures item == None && children == [] && bbox == Dimensions(0, 0, 0, 0)
    {
      item := None;
      children := [];
      bbox := Dimensions(0, 0, 0, 0);
    }

    /** `text_layout_box_get_item` (its second argument is unused). */
    function GetItem(): Option<Item>
      reads this
    {
      item
    }

    /** `text_layout_box_get_bbox`. */
    function GetBbox(): Dimensions
      reads this
    {
      bbox
    }

    /** `text_layout_box_set_item`: `GetItem` returns what was stored; nothing else changes. */
    method SetItem(i: Option<Item>)
      modifies this
      ensures GetItem() == i
      ensures children == old(children) && GetBbox() == old(GetBbox())
    {
      item := i;
    }
  }

  /** The paragraph an item is, if it is one. */
  function ParagraphOf(item: Option<Item>): Paragraph? {
    if item.Some? && item.value.ParagraphItem? then item.value.paragraph else null
  }

  /** The fragments of the paragraph an item is, if it is one. */
  function FragmentsOf(item: Option<Item>): seq<Fragment>
    reads ParagraphOf(item)
  {
    if ParagraphOf(item) != null then ParagraphOf(item).fragments else []
  }

  /**
   * The height of a box's own text: Pango's measure of its paragraph's text
   * at the box width, and 0 when the item is missing or not a paragraph.
   */
  function TextHeight(item: Option<Item>, measure: (string, int) -> int, width: int): (h: int)
    reads ParagraphOf(item), FragmentsOf(item)
    ensures ParagraphOf(item) == null ==> h == 0
  {
    var p := ParagraphOf(item);
    if p != null then measure(RunsText(p.fragments), width) else 0
  }

  /** The sum of the heights the boxes `cs` hold, added in child order. */
  function Heights(cs: seq<LayoutBox>): int
    reads cs`bbox
  {
    if |cs| == 0 then 0 else Heights(cs[..|cs| - 1]) + cs[|cs| - 1].bbox.height
  }

  /** The texts of the fragments `fs` appended in child order (NULL appends nothing;
      an inline child, which has no text property in the source, is modelled with NULL text and appends nothing). */
  function RunsText(fs: seq<Fragment>): string
    reads fs
  {
    if |fs| == 0 then "" else RunsText(fs[..|fs| - 1]) + FragmentText(fs[|fs| - 1])
  }

  /** The text a box measures is its paragraph's text, `text_paragraph_get_text`. */
  lemma {:induction false} RunsTextIsParagraphText(p: Paragraph)
    ensures RunsText(p.fragments) == ParagraphText(p)
  {
    RunsTextIsJoin(p.fragments);
  }

  lemma {:induction false} RunsTextIsJoin(fs: seq<Fragment>)
    ensures RunsText(fs) == Join(Texts(fs))
  {
    if |fs| > 0 {
      var k := |fs| - 1;
      RunsTextIsJoin(fs[..k]);
      assert fs == fs[..k] + [fs[k]];
      TextsAppend(fs[..k], [fs[k]]);
      var ts := Texts(fs);
      assert ts[..k] == Texts(fs[..k]);
    }
  }

  /**
   * The first loop of `text_layout_box_layout`: the runs' texts appended in
   * child order, which is the paragraph's text.
   */
  method ConcatRuns(p: Paragraph) returns (text: string)
    ensures text == RunsText(p.fragments) == ParagraphText(p)
  {
    text := "";
    var i := 0;
    while i < |p.fragments|
      invariant 0 <= i <= |p.fragments|
      invariant text == RunsText(p.fragments[..i])
    {
      assert p.fragments[..i + 1][..i] == p.fragments[..i];
      text := text + FragmentText(p.fragments[i]);
      i := i + 1;
    }
    assert p.fragments[..i] == p.fragments;
    RunsTextIsParagraphText(p);
  }

  /**
   * `text_layout_box_layout` (three arguments): a null box is refused with
   * no change; otherwise the box's height is its own text's height plus the
   * heights its children held when it was called, and its bounding box is
   * `(0, 0, width, height)`. Item and children are untouched.
   */
  method Layout(box: LayoutBox?, measure: (string, int) -> int, width: int)
    modifies box
    ensures box != null ==> box.item == old(box.item) && box.children == old(box.children)
    ensures box != null ==>
      box.bbox == Dimensions(0, 0, width, TextHeight(box.item, measure, width) + old(Heights(box.children)))
  {
    if box == null {
      return;
    }
    var height := 0;
    var p := ParagraphOf(box.item);
    if p != null {
      var text := ConcatRuns(p);
      height := measure(text, width);
    }
    var i := 0;
    while i < |box.children|
      invariant 0 <= i <= |box.children|
      invariant height == TextHeight(box.item, measure, width) + Heights(box.children[..i])
    {
      assert box.children[..i + 1][..i] == box.children[..i];
      height := height + box.children[i].bbox.height;
      i := i + 1;
    }
    assert box.children[..i] == box.children;
    box.bbox := Dimensions(0, 0, width, height);
  }

  /** The paragraphs a frame's children hold; other children get no box. */
  ghost function FrameParagraphs(f: Frame): seq<Paragraph>
    reads f
  {
    Paragraphs(f.blocks)
  }

  /** The height Pango measures for a paragraph's text at `width`. */
  ghost function ParagraphHeight(p: Paragraph, measure: (string, int) -> int, width: int): int
    reads p, p.fragments
  {
    measure(RunsText(p.fragments), width)
  }

  /** The heights Pango measures for the paragraphs `ps` at `width`, in order. */
  ghost function MeasuredHeights(ps: seq<Paragraph>, measure: (string, int) -> int, width: int): (hs: seq<int>)
    reads ps, Frags(ps)
    ensures |hs| == |ps|
    ensures forall j :: 0 <= j < |ps| ==> hs[j] == ParagraphHeight(ps[j], measure, width)
  {
    if |ps| == 0 then []
    else
      var last := ps[|ps| - 1];
      assert forall f :: f in last.fragments ==> f in Frags(ps);
      MeasuredHeights(ps[..|ps| - 1], measure, width) + [ParagraphHeight(last, measure, width)]
  }

  /** The sum of `hs`. */
  function Sum(hs: seq<int>): int {
    if |hs| == 0 then 0 else Sum(hs[..|hs| - 1]) + hs[|hs| - 1]
  }

  /**
   * The boxes `cs` hold the paragraphs `ps`, have no children and are laid
   * out at `width` with the heights `hs`.
   */
  ghost predicate BoxesFor(cs: seq<LayoutBox>, ps: seq<Paragraph>, hs: seq<int>, width: int)
    reads cs
  {
    |cs| == |ps| == |hs| &&
    forall j :: 0 <= j < |cs| ==>
      cs[j].item == Some(ParagraphItem(ps[j])) && cs[j].children == [] && cs[j].bbox == Dimensions(0, 0, width, hs[j])
  }

  lemma BoxesForAppend(cs: seq<LayoutBox>, ps: seq<Paragraph>, hs: seq<int>, c: LayoutBox, p: Paragraph, width: int)
    requires BoxesFor(cs, ps, hs, width)
    requires c.item == Some(ParagraphItem(p)) && c.children == [] && c.bbox.x == c.bbox.y == 0 && c.bbox.width == width
    ensures BoxesFor(cs + [c], ps + [p], hs + [c.bbox.height], width)
  {
    assert forall j :: 0 <= j < |ps| ==> (ps + [p])[j] == ps[j] && (hs + [c.bbox.height])[j] == hs[j];
  }

  /** `hs` are the heights Pango measures for the paragraphs `ps`. */
  ghost predicate Measures(ps: seq<Paragraph>, hs: seq<int>, measure: (string, int) -> int, width: int)
    reads ps, Frags(ps)
  {
    |hs| == |ps| &&
    forall j :: 0 <= j < |ps| ==>
      assert forall f :: f in ps[j].fragments ==> f in Frags(ps);
      hs[j] == ParagraphHeight(ps[j], measure, width)
  }

  /**
   * One pass of the loop of `do_layout_recursive` over a paragraph child:
   * the boxes made so far (`made`, for the paragraphs `qs` with the heights
   * `gs`) gain one for `p`, holding the height `h` Pango measures for `p`.
   */
  method AddParagraphBox(parent: LayoutBox, p: Paragraph, measure: (string, int) -> int, width: int,
                         ghost made: seq<LayoutBox>, ghost qs: seq<Paragraph>, ghost gs: seq<int>, ghost h: int)
    returns (box: LayoutBox)
    requires parent !in made && BoxesFor(made, qs, gs, width)
    requires h == ParagraphHeight(p, measure, width)
    modifies parent
    ensures fresh(box) && parent.children == old(parent.children) + [box]
    ensures parent.item == old(parent.item) && parent.bbox == old(parent.bbox)
    ensures BoxesFor(made + [box], qs + [p], gs + [h], width)
  {
    box := new LayoutBox();
    box.SetItem(Some(ParagraphItem(p)));
    parent.children := parent.children + [box];
    Layout(box, measure, width);
    BoxesForAppend(made, qs, gs, box, p, width);
  }

  /**
   * How far the loop over a frame's children `blocks` has come after `i` of
   * them: the paragraphs among them are `qs`, a prefix of all of them (`ps`),
   * and `gs` the matching prefix of their heights `hs`.
   */
  ghost predicate Progress(blocks: seq<Block>, i: nat, ps: seq<Paragraph>, hs: seq<int>, qs: seq<Paragraph>, gs: seq<int>) {
    i <= |blocks| && qs == Paragraphs(blocks[..i]) && qs <= ps && |qs| <= |hs| && gs == hs[..|qs|]
  }

  /**
   * One pass of the loop of `do_layout_recursive`: child `i` of the frame
   * gets a box when it is a paragraph, and is skipped otherwise.
   */
  method LayoutChild(parent: LayoutBox, frame: Frame, i: nat, measure: (string, int) -> int, width: int,
                     ghost ps: seq<Paragraph>, ghost hs: seq<int>,
                     ghost made: seq<LayoutBox>, ghost qs: seq<Paragraph>, ghost gs: seq<int>)
    returns (ghost made': seq<LayoutBox>, ghost qs': seq<Paragraph>, ghost gs': seq<int>)
    requires i < |frame.blocks| && ps == FrameParagraphs(frame) && Progress(frame.blocks, i, ps, hs, qs, gs)
    requires Measures(ps[|qs|..], hs[|qs|..], measure, width)
    requires parent !in made && BoxesFor(made, qs, gs, width)
    modifies parent
    ensures Progress(frame.blocks, i + 1, ps, hs, qs', gs') && Measures(ps[|qs'|..], hs[|qs'|..], measure, width)
    ensures parent !in made' && BoxesFor(made', qs', gs', width)
    ensures parent.item == old(parent.item) && parent.bbox == old(parent.bbox)
    ensures |made| <= |made'| && made'[..|made|] == made
    ensures forall b :: b in made' ==> b in made || fresh(b)
    ensures parent.children == old(parent.children) + made'[|made|..]
  {
    assert frame.blocks[..i + 1][..i] == frame.blocks[..i];
    PrefixParagraphs(frame.blocks, i + 1);
    if frame.blocks[i].ParagraphBlock? {
      var p := frame.blocks[i].paragraph;
      assert p == ps[|qs|];
      assert hs[|qs|..][0] == hs[|qs|] && ps[|qs|..][0] == p;
      MeasuresTail(ps[|qs|..], hs[|qs|..], measure, width);
      assert ps[|qs|..][1..] == ps[|qs| + 1..] && hs[|qs|..][1..] == hs[|qs| + 1..];
      assert hs[..|qs| + 1] == gs + [hs[|qs|]];
      var box := AddParagraphBox(parent, p, measure, width, made, qs, gs, hs[|qs|]);
      made', qs', gs' := made + [box], qs + [p], gs + [hs[|qs|]];
      assert made'[|made|..] == [box];
    } else {
      made', qs', gs' := made, qs, gs;
      assert made'[|made|..] == [];
    }
  }

  /**
   * The loop of `do_layout_recursive` over a frame whose paragraph children
   * are `ps`, measuring `hs`: one new box per paragraph child, appended to
   * the parent in frame order, holding that paragraph, with no children and
   * laid out at `width`.
   */
  method AppendParagraphBoxes(parent: LayoutBox, frame: Frame, measure: (string, int) -> int, width: int,
                              ghost ps: seq<Paragraph>, ghost hs: seq<int>)
    returns (ghost made: seq<LayoutBox>)
    requires ps == FrameParagraphs(frame) && Measures(ps, hs, measure, width)
    modifies parent
    ensures parent.item == old(parent.item) && parent.bbox == old(parent.bbox)
    ensures parent.children == old(parent.children) + made
    ensures forall b :: b in made ==> fresh(b)
    ensures parent !in made && BoxesFor(made, ps, hs, width)
  {
    made := [];
    ghost var qs: seq<Paragraph> := [];
    ghost var gs: seq<int> := [];
    assert ps[0..] == ps && hs[0..] == hs;
    var i := 0;
    while i < |frame.blocks|
      invariant ps == FrameParagraphs(frame) && Progress(frame.blocks, i, ps, hs, qs, gs)
      invariant Measures(ps[|qs|..], hs[|qs|..], measure, width)
      invariant parent.item == old(parent.item) && parent.children == old(parent.children) + made
      invariant parent.bbox == old(parent.bbox)
      invariant forall b :: b in made ==> fresh(b)
      invariant parent !in made && BoxesFor(made, qs, gs, width)
    {
      made, qs, gs := LayoutChild(parent, frame, i, measure, width, ps, hs, made, qs, gs);
      i := i + 1;
    }
    assert frame.blocks[..i] == frame.blocks;
  }

  /**
   * `do_layout_recursive` for a frame whose paragraph children are `ps`,
   * measuring `hs`: the boxes of `AppendParagraphBoxes`, then the parent laid
   * out over its old children and the new boxes.
   */
  method LayoutFrame(parent: LayoutBox, frame: Frame, measure: (string, int) -> int, width: int,
                     ghost ps: seq<Paragraph>, ghost hs: seq<int>)
    returns (ghost made: seq<LayoutBox>)
    requires ps == FrameParagraphs(frame) && Measures(ps, hs, measure, width)
    modifies parent
    ensures parent.item == old(parent.item) && parent.children == old(parent.children) + made
    ensures forall b :: b in made ==> fresh(b)
    ensures BoxesFor(made, ps, hs, width)
    ensures parent.bbox ==
      Dimensions(0, 0, width, TextHeight(parent.item, measure, width) + old(Heights(parent.children)) + Heights(made))
  {
    made := AppendParagraphBoxes(parent, frame, measure, width, ps, hs);
    assert Heights(old(parent.children)) == old(Heights(parent.children));
    HeightsAppend(old(parent.children), made);
    Layout(parent, measure, width);
  }

  lemma MeasuresTail(ps: seq<Paragraph>, hs: seq<int>, measure: (string, int) -> int, width: int)
    requires Measures(ps, hs, measure, width) && |ps| > 0
    ensures Measures(ps[1..], hs[1..], measure, width)
  {
    assert forall j :: 0 <= j < |ps| - 1 ==> ps[1..][j] == ps[j + 1] && hs[1..][j] == hs[j + 1];
  }

  /** The paragraphs of a prefix of a frame's children are a prefix of its paragraphs. */
  lemma {:induction false} PrefixParagraphs(blocks: seq<Block>, k: nat)
    requires k <= |blocks|
    ensures Paragraphs(blocks[..k]) <= Paragraphs(blocks)
    decreases |blocks| - k
  {
    if k < |blocks| {
      PrefixParagraphs(blocks, k + 1);
      assert blocks[..k + 1][..k] == blocks[..k];
    } else {
      assert blocks[..k] == blocks;
    }
  }

  lemma {:induction false} HeightsAppend(a: seq<LayoutBox>, b: seq<LayoutBox>)
    ensures Heights(a + b) == Heights(a) + Heights(b)
    decreases |b|
  {
    if |b| > 0 {
      assert (a + b)[..|a + b| - 1] == a + b[..|b| - 1];
      HeightsAppend(a, b[..|b| - 1]);
    } else {
      assert a + b == a;
    }
  }

  /** The heights the boxes `cs` hold add up to the heights they were laid out with. */
  lemma {:induction false} HeightsOfBoxes(cs: seq<LayoutBox>, ps: seq<Paragraph>, hs: seq<int>, width: int)
    requires BoxesFor(cs, ps, hs, width)
    ensures Heights(cs) == Sum(hs)
  {
    if |cs| > 0 {
      var k := |cs| - 1;
      assert BoxesFor(cs[..k], ps[..k], hs[..k], width);
      HeightsOfBoxes(cs[..k], ps[..k], hs[..k], width);
    }
  }

  /**
   * `text_layout_build_layout_tree`: a new root box with no item whose
   * children are one new box per paragraph of the frame, in order; each
   * holds its paragraph's measured height, and the root, having no text of
   * its own, holds the sum of its children's heights.
   */
  method BuildLayoutTree(frame: Frame, measure: (string, int) -> int, width: int) returns (root: LayoutBox)
    ensures fresh(root) && root.item == None
    ensures forall b :: b in root.children ==> fresh(b)
    ensures BoxesFor(root.children, old(FrameParagraphs(frame)), old(MeasuredHeights(FrameParagraphs(frame), measure, width)), width)
    ensures root.bbox == Dimensions(0, 0, width, Heights(root.children))
    ensures root.bbox.height == old(Sum(MeasuredHeights(FrameParagraphs(frame), measure, width)))
  {
    ghost var ps := FrameParagraphs(frame);
    ghost var hs := MeasuredHeights(ps, measure, width);
    assert Measures(ps, hs, measure, width);
    root := new LayoutBox();
    ghost var made := LayoutFrame(root, frame, measure, width, ps, hs);
    assert root.children == made;
    HeightsOfBoxes(made, ps, hs, width);
  }
}
