/**
 * The HTML importer (`src/format/import-html.c`, and the identical builder
 * in `demo/parser.c`): a walk over the parsed DOM that fills a frame with
 * paragraphs and runs.
 *
 * libxml2 is not modelled: its parse result is a value of the datatype
 * `DomNode`, a sibling list is a sequence, and `xmlDocGetRootElement` is
 * the first element among the document's top-level nodes.
 */
module HtmlImport {
  import opened Optional
  import opened TextModel

  /** The node types the builder tells apart; every other libxml2 node type is `OtherNode`. */
  datatype NodeType = ElementNode | TextNode | OtherNode

  /** An `xmlNode`: its type, its element name, its text content and its children. */
  datatype DomNode = DomNode(kind: NodeType, name: string, content: string, children: seq<DomNode>)

  /** A `p` or `br` element starts a new paragraph. */
  predicate StartsParagraph(n: DomNode) {
    n.kind == ElementNode && (n.name == "p" || n.name == "br")
  }

  // ---------------------------------------------------------------------------
  // What a walk builds, as a value
  // ---------------------------------------------------------------------------

  /**
   * The effect of a walk: the runs it appends to the paragraph that was
   * current when it began (`lead`), and the paragraphs it appends to the
   * frame, each as the texts of its runs.
   */
  datatype Built<R> = Built(lead: seq<R>, paras: seq<seq<R>>)

  const Nothing: Built<string> := Built([], [])

  /** A run holding `s` is appended to the current paragraph. */
  function AddRun<R>(b: Built<R>, s: R): Built<R> {
    if |b.paras| == 0 then b.(lead := b.lead + [s])
    else b.(paras := b.paras[|b.paras| - 1 := b.paras[|b.paras| - 1] + [s]])
  }

  /** What one node does by itself, before its children are walked. */
  function Visit(b: Built<string>, n: DomNode): Built<string> {
    if StartsParagraph(n) then b.(paras := b.paras + [[]])
    else if n.kind == TextNode then AddRun(b, n.content)
    else b
  }

  /**
   * `build_text_frame_recursive` on the sibling list `nodes`: every node is
   * visited and then its children are walked, siblings left to right.
   */
  function Walk(b: Built<string>, nodes: seq<DomNode>): Built<string>
    decreases nodes
  {
    if |nodes| == 0 then b
    else
      var n := nodes[|nodes| - 1];
      Walk(Visit(Walk(b, nodes[..|nodes| - 1]), n), n.children)
  }

  /** `w` done on top of `b`: its lead runs go to `b`'s current paragraph, its paragraphs follow `b`'s. */
  function Then<R>(b: Built<R>, w: Built<R>): Built<R> {
    if |b.paras| == 0 then Built(b.lead + w.lead, w.paras)
    else
      var last := |b.paras| - 1;
      Built(b.lead, b.paras[..last] + [b.paras[last] + w.lead] + w.paras)
  }

  // ---------------------------------------------------------------------------
  // The walk is a pre-order traversal
  // ---------------------------------------------------------------------------

  /** What the walk reacts to: a paragraph start or a text node's content. */
  datatype Token = Break | Text(s: string)

  function Own(n: DomNode): seq<Token> {
    if StartsParagraph(n) then [Break]
    else if n.kind == TextNode then [Text(n.content)]
    else []
  }

  /** The tokens of a sibling list in pre-order: each node, then its subtree, then its next sibling. */
  function Tokens(nodes: seq<DomNode>): seq<Token>
    decreases nodes
  {
    if |nodes| == 0 then []
    else
      var n := nodes[|nodes| - 1];
      Tokens(nodes[..|nodes| - 1]) + Own(n) + Tokens(n.children)
  }

  function Step(b: Built<string>, t: Token): Built<string> {
    match t
    case Break => b.(paras := b.paras + [[]])
    case Text(s) => AddRun(b, s)
  }

  /** The tokens applied one after another. */
  function Apply(b: Built<string>, ts: seq<Token>): Built<string>
    decreases |ts|
  {
    if |ts| == 0 then b else Step(Apply(b, ts[..|ts| - 1]), ts[|ts| - 1])
  }

  lemma {:induction false} ApplyAppend(b: Built<string>, xs: seq<Token>, ys: seq<Token>)
    ensures Apply(b, xs + ys) == Apply(Apply(b, xs), ys)
    decreases |ys|
  {
    if |ys| == 0 {
      assert xs + ys == xs;
    } else {
      var n := |ys| - 1;
      assert (xs + ys)[..|xs + ys| - 1] == xs + ys[..n];
      ApplyAppend(b, xs, ys[..n]);
    }
  }

  lemma VisitIsApply(b: Built<string>, n: DomNode)
    ensures Visit(b, n) == Apply(b, Own(n))
  {
    if StartsParagraph(n) || n.kind == TextNode {
      assert Own(n)[..0] == [];
    }
  }

  /** Walking the nodes is applying their tokens in pre-order. */
  lemma {:induction false} WalkIsApply(b: Built<string>, nodes: seq<DomNode>)
    ensures Walk(b, nodes) == Apply(b, Tokens(nodes))
    decreases nodes
  {
    if |nodes| > 0 {
      var n := nodes[|nodes| - 1];
      var front := nodes[..|nodes| - 1];
      WalkIsApply(b, front);
      var b1 := Walk(b, front);
      VisitIsApply(b1, n);
      WalkIsApply(Visit(b1, n), n.children);
      ApplyAppend(b, Tokens(front), Own(n));
      ApplyAppend(b, Tokens(front) + Own(n), Tokens(n.children));
    }
  }

  lemma StepThen(b: Built<string>, w: Built<string>, t: Token)
    ensures Step(Then(b, w), t) == Then(b, Step(w, t))
  {
    if |b.paras| > 0 {
      var last := |b.paras| - 1;
      var pre := b.paras[..last] + [b.paras[last] + w.lead];
      match t {
        case Break =>
          assert pre + w.paras + [[]] == pre + (w.paras + [[]]);
        case Text(s) =>
          if |w.paras| == 0 {
            assert b.paras[last] + w.lead + [s] == b.paras[last] + (w.lead + [s]);
            assert pre[last := b.paras[last] + w.lead + [s]] == b.paras[..last] + [b.paras[last] + (w.lead + [s])];
          } else {
            var wl := |w.paras| - 1;
            assert (pre + w.paras)[|pre| + wl := w.paras[wl] + [s]] == pre + w.paras[wl := w.paras[wl] + [s]];
          }
      }
    }
  }

  /** Applying tokens from any state is applying them from nothing and putting the result on top. */
  lemma {:induction false} ApplyThen(b: Built<string>, ts: seq<Token>)
    ensures Apply(b, ts) == Then(b, Apply(Nothing, ts))
    decreases |ts|
  {
    if |ts| == 0 {
      if |b.paras| > 0 {
        var last := |b.paras| - 1;
        assert b.paras[last] + [] == b.paras[last];
        assert b.paras[..last] + [b.paras[last]] == b.paras;
      }
    } else {
      var n := |ts| - 1;
      ApplyThen(b, ts[..n]);
      StepThen(b, Apply(Nothing, ts[..n]), ts[n]);
    }
  }

  /** What the children of a node build depends on the state they start in only through `Then`. */
  lemma WalkThen(b: Built<string>, nodes: seq<DomNode>)
    ensures Walk(b, nodes) == Then(b, Walk(Nothing, nodes))
  {
    WalkIsApply(b, nodes);
    WalkIsApply(Nothing, nodes);
    ApplyThen(b, Tokens(nodes));
  }

  // ---------------------------------------------------------------------------
  // What the walk promises
  // ---------------------------------------------------------------------------

  function Breaks(ts: seq<Token>): nat {
    if |ts| == 0 then 0 else Breaks(ts[..|ts| - 1]) + (if ts[|ts| - 1] == Break then 1 else 0)
  }

  function TextsIn(ts: seq<Token>): seq<string> {
    if |ts| == 0 then []
    else TextsIn(ts[..|ts| - 1]) + (match ts[|ts| - 1] case Text(s) => [s] case Break => [])
  }

  function Flatten(pss: seq<seq<string>>): seq<string> {
    if |pss| == 0 then [] else Flatten(pss[..|pss| - 1]) + pss[|pss| - 1]
  }

  /** Every run the walk appends, in the order of the frame. */
  function AllRuns(b: Built<string>): seq<string> {
    b.lead + Flatten(b.paras)
  }

  lemma FlattenLast(pss: seq<seq<string>>, s: string)
    requires |pss| > 0
    ensures Flatten(pss[|pss| - 1 := pss[|pss| - 1] + [s]]) == Flatten(pss) + [s]
  {
    var last := |pss| - 1;
    assert pss[last := pss[last] + [s]][..last] == pss[..last];
  }

  /** One paragraph per `p` or `br` token. */
  lemma {:induction false} ApplyCount(b: Built<string>, ts: seq<Token>)
    ensures |Apply(b, ts).paras| == |b.paras| + Breaks(ts)
    decreases |ts|
  {
    if |ts| > 0 {
      ApplyCount(b, ts[..|ts| - 1]);
    }
  }

  /** Every text token becomes a run, in order. */
  lemma {:induction false} ApplyRuns(b: Built<string>, ts: seq<Token>)
    ensures AllRuns(Apply(b, ts)) == AllRuns(b) + TextsIn(ts)
    decreases |ts|
  {
    if |ts| > 0 {
      var n := |ts| - 1;
      var a := Apply(b, ts[..n]);
      ApplyRuns(b, ts[..n]);
      match ts[n] {
        case Break =>
          assert (a.paras + [[]])[..|a.paras|] == a.paras;
          assert Flatten(a.paras + [[]]) == Flatten(a.paras);
          assert TextsIn(ts) == TextsIn(ts[..n]);
        case Text(s) =>
          assert TextsIn(ts) == TextsIn(ts[..n]) + [s];
          assert Apply(b, ts) == AddRun(a, s);
          if |a.paras| > 0 {
            FlattenLast(a.paras, s);
            assert AllRuns(AddRun(a, s)) == a.lead + (Flatten(a.paras) + [s]);
            assert AllRuns(AddRun(a, s)) == AllRuns(a) + [s];
          } else {
            assert AllRuns(a) == a.lead + [];
            assert AllRuns(AddRun(a, s)) == a.lead + [s] + [];
            assert AllRuns(AddRun(a, s)) == AllRuns(a) + [s];
          }
      }
    }
  }

  /** The frame gets one paragraph per `p` or `br` element. */
  lemma WalkCount(nodes: seq<DomNode>)
    ensures |Walk(Nothing, nodes).paras| == Breaks(Tokens(nodes))
  {
    WalkIsApply(Nothing, nodes);
    ApplyCount(Nothing, Tokens(nodes));
  }

  /** The runs the walk makes are the text nodes' contents in document order. */
  lemma WalkRuns(nodes: seq<DomNode>)
    ensures AllRuns(Walk(Nothing, nodes)) == TextsIn(Tokens(nodes))
  {
    WalkIsApply(Nothing, nodes);
    ApplyRuns(Nothing, Tokens(nodes));
    assert AllRuns(Nothing) == [];
  }

  /** An element other than `p` or `br`, or a node of another type, adds nothing itself; its children are walked. */
  lemma TransparentNode(b: Built<string>, n: DomNode)
    requires !StartsParagraph(n) && n.kind != TextNode
    ensures Walk(b, [n]) == Walk(b, n.children)
  {
    assert [n][..0] == [];
  }

  /**
   * `current` is never reset when the walk leaves an element: in
   * `<div><p>a</p>b</div>` the "b" after the closing `p` joins that
   * paragraph.
   */
  lemma CurrentNotReset()
    ensures var a := DomNode(TextNode, "", "a", []);
      var b := DomNode(TextNode, "", "b", []);
      var p := DomNode(ElementNode, "p", "", [a]);
      Walk(Nothing, [DomNode(ElementNode, "div", "", [p, b])]) == Built([], [["a", "b"]])
  {
    var a := DomNode(TextNode, "", "a", []);
    var b := DomNode(TextNode, "", "b", []);
    var p := DomNode(ElementNode, "p", "", [a]);
    var div := DomNode(ElementNode, "div", "", [p, b]);
    assert [div][..0] == [] && [p, b][..1] == [p] && [p][..0] == [] && [a][..0] == [] && [b][..0] == [];
    assert AddRun(Built([], [[]]), "a") == Built([], [["a"]]) by {
      var e: seq<string> := [];
      assert e + ["a"] == ["a"];
      assert [e][0 := ["a"]] == [["a"]];
    }
    assert Walk(Built([], [[]]), [a]) == Built([], [["a"]]);
    assert Visit(Nothing, p) == Built([], [[]]);
    assert Walk(Nothing, [p]) == Built([], [["a"]]);
    assert AddRun(Built([], [["a"]]), "b") == Built([], [["a", "b"]]) by {
      assert ["a"] + ["b"] == ["a", "b"];
      assert [["a"]][0 := ["a", "b"]] == [["a", "b"]];
    }
    assert Walk(Nothing, [p, b]) == Built([], [["a", "b"]]);
    assert Walk(Nothing, [div]) == Walk(Nothing, [p, b]);
  }

  /** In `x<p>y</p>` the "x" arrives before any paragraph: it is lead text, which the frame never receives. */
  lemma TextBeforeParagraph()
    ensures var x := DomNode(TextNode, "", "x", []);
      var y := DomNode(TextNode, "", "y", []);
      Walk(Nothing, [x, DomNode(ElementNode, "p", "", [y])]) == Built(["x"], [["y"]])
  {
    var x := DomNode(TextNode, "", "x", []);
    var y := DomNode(TextNode, "", "y", []);
    var p := DomNode(ElementNode, "p", "", [y]);
    assert [x, p][..1] == [x] && [x][..0] == [] && [y][..0] == [];
    assert Walk(Nothing, [x]) == Built(["x"], []);
    assert Visit(Built(["x"], []), p) == Built(["x"], [[]]);
    assert AddRun(Built(["x"], [[]]), "y") == Built(["x"], [["y"]]) by {
      var e: seq<string> := [];
      assert e + ["y"] == ["y"];
      assert [e][0 := ["y"]] == [["y"]];
    }
    assert Walk(Built(["x"], [[]]), [y]) == Built(["x"], [["y"]]);
  }

  // ---------------------------------------------------------------------------
  // The builder on the heap
  // ---------------------------------------------------------------------------

  /** The blocks that hold the paragraphs `ps`, in order. */
  function Blocks(ps: seq<Paragraph>): (r: seq<Block>)
    ensures |r| == |ps|
  {
    if |ps| == 0 then [] else Blocks(ps[..|ps| - 1]) + [ParagraphBlock(ps[|ps| - 1])]
  }

  lemma {:induction false} BlocksAppend(a: seq<Paragraph>, b: seq<Paragraph>)
    ensures Blocks(a + b) == Blocks(a) + Blocks(b)
    decreases |b|
  {
    if |b| == 0 {
      assert a + b == a;
    } else {
      var n := |b| - 1;
      assert (a + b)[..|a + b| - 1] == a + b[..n];
      BlocksAppend(a, b[..n]);
    }
  }

  /** No paragraph made before the last one is the last one: the last is the only one the walk still changes. */
  predicate LastIsNew<T(==)>(s: seq<T>) {
    forall j :: 0 <= j < |s| - 1 ==> s[j] != s[|s| - 1]
  }

  /** The last paragraph made, or the incoming current one when none was. */
  function Current(current: Paragraph?, made: seq<Paragraph>): Paragraph? {
    if |made| == 0 then current else made[|made| - 1]
  }

  /** Where a walk on the heap began: the frame's blocks, and the current paragraph with its runs. */
  datatype Origin = Origin(blocks: seq<Block>, current: Paragraph?, runs: seq<Fragment>)

  /**
   * How far a walk on the heap has got: the paragraphs it made, the runs it
   * appended to the original current paragraph, and the value walk it follows.
   */
  datatype Trace = Trace(made: seq<Paragraph>, lead: seq<Fragment>, built: Built<string>)

  /**
   * The heap is in step with the value walk: the frame holds the paragraphs
   * made after its original blocks, each made paragraph holds runs with the
   * texts the value walk gave it, the original current paragraph holds its
   * own runs and then runs with the lead texts, and `cur` is the current
   * paragraph. When there was no current paragraph the lead texts went
   * nowhere.
   */
  ghost predicate InStep(frame: Frame, o: Origin, t: Trace, cur: Paragraph?)
    reads frame, o.current, t.made, t.lead, Frags(t.made)
  {
    frame.blocks == o.blocks + Blocks(t.made) &&
    LastIsNew(t.made) && (forall j :: 0 <= j < |t.made| ==> t.made[j] != o.current) &&
    |t.made| == |t.built.paras| && (forall j :: 0 <= j < |t.made| ==> Texts(t.made[j].fragments) == t.built.paras[j]) &&
    cur == Current(o.current, t.made) &&
    (o.current != null ==> o.current.fragments == o.runs + t.lead && Texts(t.lead) == t.built.lead)
  }

  /** A `p` or `br` element: a new paragraph is appended to the frame and becomes current. */
  method StartParagraph(frame: Frame, ghost o: Origin, ghost t: Trace, ghost cur: Paragraph?)
    returns (p: Paragraph, ghost t': Trace)
    requires InStep(frame, o, t, cur)
    modifies frame
    ensures InStep(frame, o, t', p) && t'.built == t.built.(paras := t.built.paras + [[]])
    ensures t'.made == t.made + [p] && fresh(p)
  {
    p := new Paragraph();
    AppendBlock(frame, Some(ParagraphBlock(p)));
    BlocksAppend(t.made, [p]);
    t' := Trace(t.made + [p], t.lead, t.built.(paras := t.built.paras + [[]]));
    assert forall j :: 0 <= j < |t.made| ==> t.made[j] != p;
    assert Texts(p.fragments) == [];
  }

  /** A text node: a new run holding its content is appended to the current paragraph, or dropped when there is none. */
  method AddText(content: string, frame: Frame, cur: Paragraph?, ghost o: Origin, ghost t: Trace)
    returns (ghost t': Trace)
    requires InStep(frame, o, t, cur)
    modifies cur
    ensures InStep(frame, o, t', cur) && t'.built == AddRun(t.built, content) && t'.made == t.made
  {
    var run := new Fragment.Run(content);
    t' := t.(built := AddRun(t.built, content));
    if cur == null {
      assert t'.built.paras == t.built.paras;
    } else {
      ghost var before := cur.fragments;
      AppendRun(cur, run);
      TextsAppend(before, [run]);
      if |t.made| == 0 {
        TextsAppend(t.lead, [run]);
        t' := t'.(lead := t.lead + [run]);
        assert t'.built.paras == t.built.paras;
        assert o.current.fragments == o.runs + t'.lead;
      } else {
        ghost var last := |t.made| - 1;
        assert cur == t.made[last] && Texts(cur.fragments) == t'.built.paras[last];
        assert forall j :: 0 <= j < last ==> t.made[j] != cur && t'.built.paras[j] == t.built.paras[j];
      }
    }
  }

  /**
   * The body of the sibling loop of `build_text_frame_recursive` before the
   * children are walked: a `p` or `br` element starts a paragraph, a text
   * node adds a run, and any other node changes nothing.
   */
  method VisitNode(n: DomNode, frame: Frame, cur: Paragraph?, ghost o: Origin, ghost t: Trace)
    returns (cur': Paragraph?, ghost t': Trace)
    requires InStep(frame, o, t, cur)
    modifies frame, cur
    ensures InStep(frame, o, t', cur') && t'.built == Visit(t.built, n)
    ensures t.made <= t'.made && forall j :: |t.made| <= j < |t'.made| ==> fresh(t'.made[j])
    ensures cur' == cur || fresh(cur')
  {
    cur', t' := cur, t;
    if n.kind == ElementNode {
      if n.name == "p" || n.name == "br" {
        cur', t' := StartParagraph(frame, o, t, cur);
      }
    } else if n.kind == TextNode {
      t' := AddText(n.content, frame, cur, o, t);
    }
  }

  /**
   * One pass of the sibling loop of `build_text_frame_recursive`: the node
   * `nodes[i]` is visited, then its children are walked with the current
   * paragraph passed on.
   */
  method BuildNode(nodes: seq<DomNode>, i: nat, frame: Frame, cur: Paragraph?, ghost o: Origin, ghost t: Trace)
    returns (cur': Paragraph?, ghost t': Trace)
    requires i < |nodes| && InStep(frame, o, t, cur)
    modifies frame, cur
    ensures InStep(frame, o, t', cur') && t'.built == Walk(Visit(t.built, nodes[i]), nodes[i].children)
    ensures t.made <= t'.made && forall j :: |t.made| <= j < |t'.made| ==> fresh(t'.made[j])
    ensures cur' == cur || fresh(cur')
    decreases nodes, 0
  {
    ghost var t1;
    cur', t1 := VisitNode(nodes[i], frame, cur, o, t);
    cur', t' := BuildTextFrameRecursive(nodes[i].children, frame, cur', o, t1);
  }

  /**
   * `build_text_frame_recursive`: `current` stands for `*current` on entry
   * and `cur` for it on return. Every node of `nodes` is visited and its
   * children are walked with the current paragraph passed on, so the heap
   * follows the value walk `Walk` over `nodes`.
   */
  method BuildTextFrameRecursive(nodes: seq<DomNode>, frame: Frame, current: Paragraph?, ghost o: Origin, ghost t: Trace)
    returns (cur: Paragraph?, ghost t': Trace)
    requires InStep(frame, o, t, current)
    modifies frame, current
    ensures InStep(frame, o, t', cur) && t'.built == Walk(t.built, nodes)
    ensures t.made <= t'.made && forall j :: |t.made| <= j < |t'.made| ==> fresh(t'.made[j])
    ensures cur == current || fresh(cur)
    decreases nodes, 1
  {
    cur, t' := current, t;
    if |nodes| == 0 {
      return;
    }
    var i := 0;
    while i < |nodes|
      invariant 0 <= i <= |nodes|
      invariant InStep(frame, o, t', cur) && t'.built == Walk(t.built, nodes[..i])
      invariant t.made <= t'.made && forall j :: |t.made| <= j < |t'.made| ==> fresh(t'.made[j])
      invariant cur == current || fresh(cur)
    {
      assert nodes[..i + 1][..i] == nodes[..i];
      cur, t' := BuildNode(nodes, i, frame, cur, o, t');
      i := i + 1;
    }
    assert nodes[..|nodes|] == nodes;
  }

  /**
   * `build_text_frame`: the walk starts with no current paragraph, so only
   * the paragraphs it makes reach the frame; runs before the first `p` or
   * `br` are dropped.
   */
  method BuildTextFrame(nodes: seq<DomNode>, frame: Frame) returns (ghost made: seq<Paragraph>)
    modifies frame
    ensures var w := Walk(Nothing, nodes);
      frame.blocks == old(frame.blocks) + Blocks(made) && |made| == |w.paras| &&
      (forall j :: 0 <= j < |made| ==> fresh(made[j]) && Texts(made[j].fragments) == w.paras[j])
  {
    ghost var o := Origin(frame.blocks, null, []);
    ghost var t := Trace([], [], Nothing);
    var cur;
    cur, t := BuildTextFrameRecursive(nodes, frame, null, o, t);
    made := t.made;
  }

  /** `xmlDocGetRootElement`: the first element among the document's top-level nodes. */
  function RootElement(top: seq<DomNode>): (r: Option<nat>)
    ensures r.Some? ==> (r.value < |top| && top[r.value].kind == ElementNode &&
                         forall k :: 0 <= k < r.value ==> top[k].kind != ElementNode)
    ensures r.None? ==> forall k :: 0 <= k < |top| ==> top[k].kind != ElementNode
  {
    if |top| == 0 then None
    else if top[0].kind == ElementNode then Some(0)
    else match RootElement(top[1..]) case None => None case Some(k) => Some(k + 1)
  }

  /**
   * `format_parse_html` (and `parse_comment_html`, the same code): `doc` is
   * what `htmlParseDoc` returned, `None` when it failed. A failed parse or a
   * document with no element gives no frame; otherwise a new frame is built
   * from the root element and the nodes that follow it.
   */
  method FormatParseHtml(doc: Option<seq<DomNode>>) returns (frame: Frame?, ghost made: seq<Paragraph>)
    ensures doc.None? || RootElement(doc.value).None? <==> frame == null
    ensures frame != null ==> var w := Walk(Nothing, doc.value[RootElement(doc.value).value..]);
      fresh(frame) && frame.blocks == Blocks(made) && |made| == |w.paras| &&
      (forall j :: 0 <= j < |made| ==> fresh(made[j]) && Texts(made[j].fragments) == w.paras[j])
  {
    made := [];
    if doc.None? {
      return null, [];
    }
    var root := RootElement(doc.value);
    if root.None? {
      return null, [];
    }
    frame := new Frame();
    made := BuildTextFrame(doc.value[root.value..], frame);
  }
}
