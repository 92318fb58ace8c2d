/**
 * The layout pass of the Rust engine (`engine/src/layout.rs`): the default
 * layout manager turns a tree of document elements into a tree of layout
 * boxes, and `LayoutBox::layout` walks that tree, stacking the children of
 * every block vertically and producing a list of render commands together
 * with the height the box requires.
 *
 * The element types the builders consume (`Frame`, `Paragraph`, `Run`,
 * `InfoBox`) and `Document::resolve_ref` are not part of this model; they are
 * abstracted as the `Element` datatype and the `resolve` parameter. Pango's
 * text measurement is the `measure` parameter (text, width) -> height.
 */
module EngineLayout {
  import opened Optional
  import opened ArenaModel

  /** `Rectangle { x, y, w, h }`. */
  datatype Rectangle = Rectangle(x: int, y: int, w: int, h: int)

  /** `Rectangle::empty()`. */
  const EmptyRect: Rectangle := Rectangle(0, 0, 0, 0)

  /** The element tree the builders consume. */
  datatype Element =
    | Frame(children: seq<Element>)
    | Paragraph(children: seq<Element>)
    | Run(text: TextData)
    | InfoBox

  /** `BoxType::Inline(Option<Text>)` (with `Text { data }` flattened) or `BoxType::Block`. */
  datatype BoxType = Inline(text: Option<TextData>) | Block

  datatype LayoutBox = LayoutBox(boxType: BoxType, margins: Rectangle, padding: Rectangle, children: seq<LayoutBox>)

  datatype RenderCommand = RenderText(x: int, y: int, text: string) | RenderBox(rect: Rectangle)

  // ---------------------------------------------------------------------------
  // Building the layout tree
  // ---------------------------------------------------------------------------

  /**
   * The layout tree the default manager builds for `e`; `None` when the
   * builder panics, which `build_info_box_layout_tree` (`todo!()`) always does.
   */
  function BuildSpec(e: Element): Option<LayoutBox>
    decreases e, 1, 0
  {
    match e
    case Frame(_) =>
      var kids := BuildChildren(e, 0);
      if kids.None? then None else Some(LayoutBox(Block, EmptyRect, EmptyRect, kids.value))
    case Paragraph(_) =>
      var kids := BuildChildren(e, 0);
      if kids.None? then None else Some(LayoutBox(Block, EmptyRect, EmptyRect, kids.value))
    case Run(t) => Some(LayoutBox(Inline(Some(t)), EmptyRect, EmptyRect, []))
    case InfoBox => None
  }

  /** The subtrees built for `e.children[i..]`, or `None` if one of them panics. */
  function BuildChildren(e: Element, i: nat): Option<seq<LayoutBox>>
    requires e.Frame? || e.Paragraph?
    requires i <= |e.children|
    decreases e, 0, |e.children| - i
  {
    if i == |e.children| then Some([])
    else
      var head := BuildSpec(e.children[i]);
      var tail := BuildChildren(e, i + 1);
      if head.None? || tail.None? then None else Some([head.value] + tail.value)
  }

  /** `e` contains an info box somewhere. */
  predicate HasInfoBox(e: Element)
    decreases e
  {
    match e
    case InfoBox => true
    case Run(_) => false
    case Frame(cs) => exists i :: 0 <= i < |cs| && HasInfoBox(cs[i])
    case Paragraph(cs) => exists i :: 0 <= i < |cs| && HasInfoBox(cs[i])
  }

  /** The text references of the runs of `e`, in document order. */
  function RunRefs(e: Element): seq<TextData>
    decreases e, 1, 0
  {
    match e
    case Run(t) => [t]
    case InfoBox => []
    case Frame(_) => RunRefsFrom(e, 0)
    case Paragraph(_) => RunRefsFrom(e, 0)
  }

  function RunRefsFrom(e: Element, i: nat): seq<TextData>
    requires e.Frame? || e.Paragraph?
    requires i <= |e.children|
    decreases e, 0, |e.children| - i
  {
    if i == |e.children| then [] else RunRefs(e.children[i]) + RunRefsFrom(e, i + 1)
  }

  /** The text references of the inline boxes of `b`, in tree order. */
  function InlineRefs(b: LayoutBox): seq<TextData>
    decreases b, 1, 0
  {
    match b.boxType
    case Inline(t) => (if t.Some? then [t.value] else []) + InlineRefsFrom(b, 0)
    case Block => InlineRefsFrom(b, 0)
  }

  function InlineRefsFrom(b: LayoutBox, i: nat): seq<TextData>
    requires i <= |b.children|
    decreases b, 0, |b.children| - i
  {
    if i == |b.children| then [] else InlineRefs(b.children[i]) + InlineRefsFrom(b, i + 1)
  }

  /** Every box of `b` has empty margins and padding. */
  predicate Unstyled(b: LayoutBox)
    decreases b
  {
    b.margins == EmptyRect && b.padding == EmptyRect &&
    forall i :: 0 <= i < |b.children| ==> Unstyled(b.children[i])
  }

  /**
   * Building succeeds exactly when the tree holds no info box, and then the
   * layout tree is unstyled and carries the runs' text, in document order,
   * on its inline boxes.
   */
  lemma {:induction false} BuildCorrect(e: Element)
    ensures BuildSpec(e).Some? <==> !HasInfoBox(e)
    ensures BuildSpec(e).Some? ==> InlineRefs(BuildSpec(e).value) == RunRefs(e)
    ensures BuildSpec(e).Some? ==> Unstyled(BuildSpec(e).value)
    decreases e, 1, 0
  {
    match e
    case Run(t) =>
      var b := BuildSpec(e).value;
      assert InlineRefsFrom(b, 0) == [];
    case InfoBox =>
    case Frame(cs) =>
      BuildChildrenCorrect(e, 0);
      if BuildSpec(e).Some? {
        var b := BuildSpec(e).value;
        InlineRefsOfKids(b, BuildChildren(e, 0).value);
      }
    case Paragraph(cs) =>
      BuildChildrenCorrect(e, 0);
      if BuildSpec(e).Some? {
        var b := BuildSpec(e).value;
        InlineRefsOfKids(b, BuildChildren(e, 0).value);
      }
  }

  lemma {:induction false} BuildChildrenCorrect(e: Element, i: nat)
    requires e.Frame? || e.Paragraph?
    requires i <= |e.children|
    ensures BuildChildren(e, i).Some? <==> forall j :: i <= j < |e.children| ==> !HasInfoBox(e.children[j])
    ensures BuildChildren(e, i).Some? ==> |BuildChildren(e, i).value| == |e.children| - i
    ensures BuildChildren(e, i).Some? ==> forall j :: 0 <= j < |BuildChildren(e, i).value| ==>
      Unstyled(BuildChildren(e, i).value[j])
    ensures BuildChildren(e, i).Some? ==> KidsRefs(BuildChildren(e, i).value) == RunRefsFrom(e, i)
    decreases e, 0, |e.children| - i
  {
    if i < |e.children| {
      BuildCorrect(e.children[i]);
      BuildChildrenCorrect(e, i + 1);
      if BuildChildren(e, i).Some? {
        var kids := BuildChildren(e, i).value;
        assert kids[1..] == BuildChildren(e, i + 1).value;
      }
    }
  }

  /** The inline references of a sequence of sibling boxes, in order. */
  function KidsRefs(kids: seq<LayoutBox>): seq<TextData>
  {
    if kids == [] then [] else InlineRefs(kids[0]) + KidsRefs(kids[1..])
  }

  lemma {:induction false} InlineRefsOfKids(b: LayoutBox, kids: seq<LayoutBox>)
    requires b.boxType.Block? && b.children == kids
    ensures InlineRefs(b) == KidsRefs(kids)
  {
    InlineRefsFromKids(b, 0);
  }

  lemma {:induction false} InlineRefsFromKids(b: LayoutBox, i: nat)
    requires i <= |b.children|
    ensures InlineRefsFrom(b, i) == KidsRefs(b.children[i..])
    decreases |b.children| - i
  {
    if i < |b.children| {
      InlineRefsFromKids(b, i + 1);
      assert b.children[i..][1..] == b.children[i + 1..];
    }
  }

  /** Sequence concatenation regroups. */
  lemma ConcatAssoc<T>(a: seq<T>, b: seq<T>, c: seq<T>)
    ensures a + (b + c) == (a + b) + c
  {
  }

  /** `child.build_layout_tree(self)`: dispatch on the element's kind. */
  method BuildLayoutTree(e: Element) returns (b: Option<LayoutBox>)
    ensures b == BuildSpec(e)
    decreases e, 1, 0
  {
    match e
    case Frame(_) => b := BuildBlockLayoutTree(e);
    case Paragraph(_) => b := BuildBlockLayoutTree(e);
    case Run(t) => b := Some(LayoutBox(Inline(Some(t)), EmptyRect, EmptyRect, []));
    case InfoBox => b := None;
  }

  /**
   * `build_frame_layout_tree` and `build_paragraph_layout_tree`, which have the
   * same body: a block whose children are the subtrees of the element's
   * children, built one after the other.
   */
  method BuildBlockLayoutTree(e: Element) returns (b: Option<LayoutBox>)
    requires e.Frame? || e.Paragraph?
    ensures b == BuildSpec(e)
    decreases e, 0, 0
  {
    var children: seq<LayoutBox> := [];
    var i := 0;
    if BuildChildren(e, 0).Some? {
      assert [] + BuildChildren(e, 0).value == BuildChildren(e, 0).value;
    }
    while i < |e.children|
      invariant 0 <= i <= |e.children|
      invariant BuildChildren(e, i).None? ==> BuildChildren(e, 0).None?
      invariant BuildChildren(e, i).Some? ==> BuildChildren(e, 0) == Some(children + BuildChildren(e, i).value)
    {
      var subtree := BuildLayoutTree(e.children[i]);
      ghost var tail := BuildChildren(e, i + 1);
      if subtree.None? {
        return None;
      }
      if tail.Some? {
        assert BuildChildren(e, i).value == [subtree.value] + tail.value;
        ConcatAssoc(children, [subtree.value], tail.value);
      }
      children := children + [subtree.value];
      i := i + 1;
    }
    assert children + [] == children;
    b := Some(LayoutBox(Block, EmptyRect, EmptyRect, children));
  }

  // ---------------------------------------------------------------------------
  // Laying out
  // ---------------------------------------------------------------------------

  /**
   * `layout(document, rect)`: the commands and the required height of `b` laid
   * out in `rect`. `resolve` is `Document::resolve_ref`; `measure(text, w)` is
   * the height Pango reports for `text` at width `w`.
   */
  function LayoutSpec(b: LayoutBox, resolve: TextData -> Option<string>, measure: (string, int) -> int,
                      rect: Rectangle): (seq<RenderCommand>, int)
    decreases b, 1, 0
  {
    match b.boxType
    case Block =>
      var (commands, height) := LayoutChildren(b, 0, resolve, measure, rect, 0);
      (commands + [RenderBox(Rectangle(rect.x, rect.y, rect.w, height))], height)
    case Inline(None) => ([], 0)
    case Inline(Some(t)) =>
      match resolve(t)
      case None => ([], 0)
      case Some(s) => ([RenderText(rect.x, rect.y, s)], measure(s, rect.w))
  }

  /**
   * Children `i..` of the block `b`, each laid out in a viewport starting
   * `reqHeight` below the top of `rect`: their commands and the final height.
   */
  function LayoutChildren(b: LayoutBox, i: nat, resolve: TextData -> Option<string>, measure: (string, int) -> int,
                          rect: Rectangle, reqHeight: int): (seq<RenderCommand>, int)
    requires i <= |b.children|
    decreases b, 0, |b.children| - i
  {
    if i == |b.children| then ([], reqHeight)
    else
      var viewport := Rectangle(rect.x, rect.y + reqHeight, rect.w, -1);
      var (commands, height) := LayoutSpec(b.children[i], resolve, measure, viewport);
      var (rest, total) := LayoutChildren(b, i + 1, resolve, measure, rect, reqHeight + height);
      (commands + rest, total)
  }

  /** `LayoutBox::layout`. */
  method Layout(b: LayoutBox, resolve: TextData -> Option<string>, measure: (string, int) -> int,
                rect: Rectangle) returns (commands: seq<RenderCommand>, reqHeight: int)
    ensures (commands, reqHeight) == LayoutSpec(b, resolve, measure, rect)
    decreases b
  {
    reqHeight := 0;
    commands := [];
    match b.boxType
    case Block =>
      var i := 0;
      assert [] + LayoutChildren(b, 0, resolve, measure, rect, 0).0 == LayoutChildren(b, 0, resolve, measure, rect, 0).0;
      while i < |b.children|
        invariant 0 <= i <= |b.children|
        invariant LayoutChildren(b, 0, resolve, measure, rect, 0) ==
          (commands + LayoutChildren(b, i, resolve, measure, rect, reqHeight).0,
           LayoutChildren(b, i, resolve, measure, rect, reqHeight).1)
      {
        var viewport := Rectangle(rect.x, rect.y + reqHeight, rect.w, -1);
        var childCommands, height := Layout(b.children[i], resolve, measure, viewport);
        ghost var rest := LayoutChildren(b, i + 1, resolve, measure, rect, reqHeight + height);
        ConcatAssoc(commands, childCommands, rest.0);
        reqHeight := reqHeight + height;
        commands := commands + childCommands;
        i := i + 1;
      }
      assert commands + [] == commands;
      commands := commands + [RenderBox(Rectangle(rect.x, rect.y, rect.w, reqHeight))];
    case Inline(text) =>
      if text.Some? {
        var resolved := resolve(text.value);
        if resolved.Some? {
          reqHeight := reqHeight + measure(resolved.value, rect.w);
          assert commands + [RenderText(rect.x, rect.y, resolved.value)] == [RenderText(rect.x, rect.y, resolved.value)];
          commands := commands + [RenderText(rect.x, rect.y, resolved.value)];
        }
      }
  }

  // ---------------------------------------------------------------------------
  // Properties of the layout
  // ---------------------------------------------------------------------------

  /** A command moved down by `d`. */
  function ShiftCommand(c: RenderCommand, d: int): RenderCommand {
    match c
    case RenderText(x, y, s) => RenderText(x, y + d, s)
    case RenderBox(r) => RenderBox(r.(y := r.y + d))
  }

  function Shift(cs: seq<RenderCommand>, d: int): (r: seq<RenderCommand>)
    ensures |r| == |cs|
  {
    seq(|cs|, i requires 0 <= i < |cs| => ShiftCommand(cs[i], d))
  }

  /**
   * Layout is translation invariant in y: laying a box out `d` lower moves
   * every command down by `d` and leaves the height unchanged.
   */
  lemma {:induction false} LayoutShift(b: LayoutBox, resolve: TextData -> Option<string>, measure: (string, int) -> int,
                                       rect: Rectangle, d: int)
    ensures LayoutSpec(b, resolve, measure, rect.(y := rect.y + d)) ==
      (Shift(LayoutSpec(b, resolve, measure, rect).0, d), LayoutSpec(b, resolve, measure, rect).1)
    decreases b, 1, 0
  {
    assert Shift([], d) == [];
    if b.boxType.Block? {
      LayoutChildrenShift(b, 0, resolve, measure, rect, 0, d);
      var moved := rect.(y := rect.y + d);
      var (cs, h) := LayoutChildren(b, 0, resolve, measure, rect, 0);
      assert LayoutChildren(b, 0, resolve, measure, moved, 0) == (Shift(cs, d), h);
      assert Shift(cs + [RenderBox(Rectangle(rect.x, rect.y, rect.w, h))], d) ==
        Shift(cs, d) + [RenderBox(Rectangle(moved.x, moved.y, moved.w, h))];
    } else if b.boxType.text.Some? && resolve(b.boxType.text.value).Some? {
      var c := RenderText(rect.x, rect.y, resolve(b.boxType.text.value).value);
      assert Shift([c], d) == [ShiftCommand(c, d)];
    }
  }

  lemma {:induction false} LayoutChildrenShift(b: LayoutBox, i: nat, resolve: TextData -> Option<string>,
                                               measure: (string, int) -> int, rect: Rectangle, reqHeight: int, d: int)
    requires i <= |b.children|
    ensures LayoutChildren(b, i, resolve, measure, rect.(y := rect.y + d), reqHeight) ==
      (Shift(LayoutChildren(b, i, resolve, measure, rect, reqHeight).0, d),
       LayoutChildren(b, i, resolve, measure, rect, reqHeight).1)
    decreases b, 0, |b.children| - i
  {
    if i < |b.children| {
      var viewport := Rectangle(rect.x, rect.y + reqHeight, rect.w, -1);
      LayoutShift(b.children[i], resolve, measure, viewport, d);
      var (cs, h) := LayoutSpec(b.children[i], resolve, measure, viewport);
      LayoutChildrenShift(b, i + 1, resolve, measure, rect, reqHeight + h, d);
      var (rest, total) := LayoutChildren(b, i + 1, resolve, measure, rect, reqHeight + h);
      assert Shift(cs + rest, d) == Shift(cs, d) + Shift(rest, d);
    }
  }

  /** The height `c` requires in a viewport of width `w` at horizontal offset `x`. */
  function HeightOf(c: LayoutBox, resolve: TextData -> Option<string>, measure: (string, int) -> int,
                    x: int, w: int): int
  {
    LayoutSpec(c, resolve, measure, Rectangle(x, 0, w, -1)).1
  }

  /** The sum of the heights of the children `i..` of `b`. */
  function HeightSum(b: LayoutBox, i: nat, resolve: TextData -> Option<string>, measure: (string, int) -> int,
                     x: int, w: int): int
    requires i <= |b.children|
    decreases |b.children| - i
  {
    if i == |b.children| then 0 else HeightOf(b.children[i], resolve, measure, x, w) + HeightSum(b, i + 1, resolve, measure, x, w)
  }

  /**
   * Blocks stack their children: a block's height is the sum of its children's
   * heights, whatever the block's position, and its last command is its own box.
   */
  lemma BlockStacksChildren(b: LayoutBox, resolve: TextData -> Option<string>, measure: (string, int) -> int,
                            rect: Rectangle)
    requires b.boxType.Block?
    ensures LayoutSpec(b, resolve, measure, rect).1 == HeightSum(b, 0, resolve, measure, rect.x, rect.w)
    ensures var cs := LayoutSpec(b, resolve, measure, rect).0;
      |cs| > 0 && cs[|cs| - 1] == RenderBox(Rectangle(rect.x, rect.y, rect.w, HeightSum(b, 0, resolve, measure, rect.x, rect.w)))
  {
    ChildrenHeight(b, 0, resolve, measure, rect, 0);
  }

  lemma {:induction false} ChildrenHeight(b: LayoutBox, i: nat, resolve: TextData -> Option<string>,
                                          measure: (string, int) -> int, rect: Rectangle, reqHeight: int)
    requires i <= |b.children|
    ensures LayoutChildren(b, i, resolve, measure, rect, reqHeight).1 ==
      reqHeight + HeightSum(b, i, resolve, measure, rect.x, rect.w)
    decreases |b.children| - i
  {
    if i < |b.children| {
      var viewport := Rectangle(rect.x, rect.y + reqHeight, rect.w, -1);
      LayoutShift(b.children[i], resolve, measure, Rectangle(rect.x, 0, rect.w, -1), rect.y + reqHeight);
      assert Rectangle(rect.x, 0, rect.w, -1).(y := 0 + (rect.y + reqHeight)) == viewport;
      var h := LayoutSpec(b.children[i], resolve, measure, viewport).1;
      ChildrenHeight(b, i + 1, resolve, measure, rect, reqHeight + h);
    }
  }

  /** The texts drawn by `cs`, in order. */
  function DrawnTexts(cs: seq<RenderCommand>): seq<string>
  {
    if cs == [] then [] else (if cs[0].RenderText? then [cs[0].text] else []) + DrawnTexts(cs[1..])
  }

  lemma {:induction false} DrawnTextsAppend(a: seq<RenderCommand>, c: seq<RenderCommand>)
    ensures DrawnTexts(a + c) == DrawnTexts(a) + DrawnTexts(c)
    decreases |a|
  {
    if a == [] {
      assert a + c == c;
    } else {
      assert (a + c)[1..] == a[1..] + c;
      DrawnTextsAppend(a[1..], c);
    }
  }

  /** The texts `resolve` finds for `refs`, dropping the references it cannot resolve. */
  function ResolveAll(resolve: TextData -> Option<string>, refs: seq<TextData>): seq<string>
  {
    if refs == [] then []
    else (if resolve(refs[0]).Some? then [resolve(refs[0]).value] else []) + ResolveAll(resolve, refs[1..])
  }

  lemma {:induction false} ResolveAllAppend(resolve: TextData -> Option<string>, a: seq<TextData>, c: seq<TextData>)
    ensures ResolveAll(resolve, a + c) == ResolveAll(resolve, a) + ResolveAll(resolve, c)
    decreases |a|
  {
    if a == [] {
      assert a + c == c;
    } else {
      assert (a + c)[0] == a[0];
      assert (a + c)[1..] == a[1..] + c;
      ResolveAllAppend(resolve, a[1..], c);
      var h := if resolve(a[0]).Some? then [resolve(a[0]).value] else [];
      ConcatAssoc(h, ResolveAll(resolve, a[1..]), ResolveAll(resolve, c));
    }
  }

  /**
   * Layout draws exactly the resolvable texts of the inline boxes, in tree
   * order (inline boxes have no children that are laid out).
   */
  lemma {:induction false} LayoutDrawsInlineTexts(b: LayoutBox, resolve: TextData -> Option<string>,
                                                  measure: (string, int) -> int, rect: Rectangle)
    requires Leafy(b)
    ensures DrawnTexts(LayoutSpec(b, resolve, measure, rect).0) == ResolveAll(resolve, InlineRefs(b))
    decreases b, 1, 0
  {
    match b.boxType
    case Block =>
      LayoutChildrenDraws(b, 0, resolve, measure, rect, 0);
      var cs := LayoutChildren(b, 0, resolve, measure, rect, 0).0;
      var box := RenderBox(Rectangle(rect.x, rect.y, rect.w, LayoutChildren(b, 0, resolve, measure, rect, 0).1));
      DrawnTextsAppend(cs, [box]);
      assert DrawnTexts([box]) == [];
    case Inline(t) =>
      assert InlineRefsFrom(b, 0) == [];
      if t.Some? {
        assert InlineRefs(b) == [t.value];
        assert ResolveAll(resolve, [t.value]) ==
          (if resolve(t.value).Some? then [resolve(t.value).value] else []) + ResolveAll(resolve, []);
        if resolve(t.value).Some? {
          var c := RenderText(rect.x, rect.y, resolve(t.value).value);
          assert DrawnTexts([c]) == [c.text] + DrawnTexts([]);
        }
      }
  }

  /** Inline boxes are leaves throughout `b`, as the builders make them. */
  predicate Leafy(b: LayoutBox)
    decreases b
  {
    (b.boxType.Inline? ==> b.children == []) &&
    forall i :: 0 <= i < |b.children| ==> Leafy(b.children[i])
  }

  lemma {:induction false} LayoutChildrenDraws(b: LayoutBox, i: nat, resolve: TextData -> Option<string>,
                                               measure: (string, int) -> int, rect: Rectangle, reqHeight: int)
    requires i <= |b.children|
    requires Leafy(b)
    ensures DrawnTexts(LayoutChildren(b, i, resolve, measure, rect, reqHeight).0) ==
      ResolveAll(resolve, InlineRefsFrom(b, i))
    decreases b, 0, |b.children| - i
  {
    if i < |b.children| {
      var viewport := Rectangle(rect.x, rect.y + reqHeight, rect.w, -1);
      LayoutDrawsInlineTexts(b.children[i], resolve, measure, viewport);
      var (cs, h) := LayoutSpec(b.children[i], resolve, measure, viewport);
      LayoutChildrenDraws(b, i + 1, resolve, measure, rect, reqHeight + h);
      var rest := LayoutChildren(b, i + 1, resolve, measure, rect, reqHeight + h).0;
      DrawnTextsAppend(cs, rest);
      ResolveAllAppend(resolve, InlineRefs(b.children[i]), InlineRefsFrom(b, i + 1));
    }
  }

  /** The builders make every inline box a leaf. */
  lemma {:induction false} BuildLeafy(e: Element)
    requires BuildSpec(e).Some?
    ensures Leafy(BuildSpec(e).value)
    decreases e, 1, 0
  {
    if e.Frame? || e.Paragraph? {
      BuildChildrenLeafy(e, 0);
    }
  }

  lemma {:induction false} BuildChildrenLeafy(e: Element, i: nat)
    requires e.Frame? || e.Paragraph?
    requires i <= |e.children|
    requires BuildChildren(e, i).Some?
    ensures forall j :: 0 <= j < |BuildChildren(e, i).value| ==> Leafy(BuildChildren(e, i).value[j])
    decreases e, 0, |e.children| - i
  {
    if i < |e.children| {
      BuildLeafy(e.children[i]);
      BuildChildrenLeafy(e, i + 1);
      assert BuildChildren(e, i).value[1..] == BuildChildren(e, i + 1).value;
    }
  }

  /**
   * End to end: laying out the tree built for a document draws the text of
   * every run that resolves, in document order.
   */
  lemma RenderFollowsDocumentOrder(e: Element, resolve: TextData -> Option<string>,
                                   measure: (string, int) -> int, rect: Rectangle)
    requires !HasInfoBox(e)
    ensures BuildSpec(e).Some?
    ensures DrawnTexts(LayoutSpec(BuildSpec(e).value, resolve, measure, rect).0) == ResolveAll(resolve, RunRefs(e))
  {
    BuildCorrect(e);
    BuildLeafy(e);
    LayoutDrawsInlineTexts(BuildSpec(e).value, resolve, measure, rect);
  }
}
