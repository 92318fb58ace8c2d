/**
 * The model layer of the C engine (`src/model/`): fragments (text runs and
 * opaque or inline objects) holding text, paragraphs holding fragments,
 * frames holding blocks, and the document that owns the marks.
 *
 * The child lists that `src/tree/node.c` keeps as intrusive pointer lists
 * (modelled on their own in `TreeNode`) are sequence fields here: a
 * paragraph's `fragments` and a frame's `blocks`. Appending to one of them
 * is `text_node_append_child`, prepending is `text_node_prepend_child`.
 *
 * Text is ASCII, so a byte index and a character offset are the same number.
 */
module TextModel {
  import opened Optional

  datatype Gravity = Left | Right

  /** The concrete fragment classes: `TextRun`, `TextOpaque` and `TextInline`. */
  datatype FragmentKind = RunKind | OpaqueKind | InlineKind

  class Fragment {
    const kind: FragmentKind
    /** The `text` property (`priv->text`); `None` is NULL. */
    var text: Option<string>
    var bold: bool
    var italic: bool
    var underline: bool

    /** `text_run_new`: a run holding `s`, with no style set. */
    constructor Run(s: string)
      ensures kind == RunKind && text == Some(s)
      ensures !bold && !italic && !underline
      ensures Length() == |s|
    {
      kind := RunKind;
      text := Some(s);
      bold, italic, underline := false, false, false;
    }

    /** A fragment created without a `text` value: the property defaults to NULL. */
    constructor Bare(k: FragmentKind)
      ensures kind == k && text == None
      ensures !bold && !italic && !underline
      ensures Length() == if k == RunKind then 0 else 1
    {
      kind := k;
      text := None;
      bold, italic, underline := false, false, false;
    }

    /**
     * `text_fragment_get_length` after dispatch: the default
     * `text_fragment_real_get_length` counts the bytes of the text (0 for
     * NULL); `TextOpaque` and `TextInline` override it with 1.
     */
    function Length(): (n: nat)
      reads this
      ensures kind == RunKind ==> n == |FragmentText(this)|
      ensures kind != RunKind ==> n == 1
    {
      if kind != RunKind then 1 else if text.Some? then |text.value| else 0
    }

    /** `text_fragment_get_text`: the stored text, NULL included (no class overrides it). */
    function GetText(): (r: Option<string>)
      reads this
      ensures r.Some? ==> FragmentText(this) == r.value
      ensures r.None? ==> FragmentText(this) == ""
    {
      text
    }

    /** Setting the `text` property frees the old string and stores a copy of the new one. */
    method SetText(s: Option<string>)
      modifies this
      ensures text == s
      ensures bold == old(bold) && italic == old(italic) && underline == old(underline)
      ensures kind == RunKind ==> Length() == if s.Some? then |s.value| else 0
    {
      text := s;
    }
  }

  /** The text a fragment contributes to its paragraph; NULL contributes nothing. */
  function FragmentText(f: Fragment): string
    reads f
  {
    if f.text.Some? then f.text.value else ""
  }

  /** The texts of a fragment list, in order. */
  function Texts(fs: seq<Fragment>): (r: seq<string>)
    reads fs
    ensures |r| == |fs|
    ensures forall i :: 0 <= i < |fs| ==> r[i] == FragmentText(fs[i])
  {
    seq(|fs|, i requires 0 <= i < |fs| reads fs => FragmentText(fs[i]))
  }

  lemma TextsAppend(a: seq<Fragment>, b: seq<Fragment>)
    ensures Texts(a + b) == Texts(a) + Texts(b)
  {
  }

  /** Concatenation of a list of strings, built left to right. */
  function Join(ts: seq<string>): string {
    if |ts| == 0 then "" else Join(ts[..|ts| - 1]) + ts[|ts| - 1]
  }

  /** The byte offset at which piece `k` starts. */
  function Start(ts: seq<string>, k: nat): nat
    requires k <= |ts|
  {
    |Join(ts[..k])|
  }

  lemma {:induction false} JoinAppend(a: seq<string>, b: seq<string>)
    ensures Join(a + b) == Join(a) + Join(b)
    decreases |b|
  {
    if |b| == 0 {
      assert a + b == a;
    } else {
      var b', x := b[..|b| - 1], b[|b| - 1];
      assert (a + b)[..|a + b| - 1] == a + b' && (a + b)[|a + b| - 1] == x;
      JoinAppend(a, b');
      assert Join(a + b) == Join(a) + Join(b') + x;
    }
  }

  lemma JoinOne(t: string)
    ensures Join([t]) == t
  {
    assert [t][..0] == [];
  }

  /** Piece `k` sits between `Start(k)` and `Start(k + 1)`. */
  lemma JoinSplit(ts: seq<string>, k: nat)
    requires k < |ts|
    ensures Join(ts) == Join(ts[..k]) + ts[k] + Join(ts[k + 1..])
    ensures Start(ts, k + 1) == Start(ts, k) + |ts[k]|
    ensures Join(ts)[Start(ts, k)..Start(ts, k + 1)] == ts[k]
  {
    assert ts == ts[..k] + [ts[k]] + ts[k + 1..];
    JoinAppend(ts[..k] + [ts[k]], ts[k + 1..]);
    JoinAppend(ts[..k], [ts[k]]);
    JoinOne(ts[k]);
    assert ts[..k + 1] == ts[..k] + [ts[k]];
    JoinAppend(ts[..k], [ts[k]]);
  }

  lemma {:induction false} StartMonotone(ts: seq<string>, j: nat, k: nat)
    requires j <= k <= |ts|
    ensures Start(ts, j) <= Start(ts, k)
    decreases k - j
  {
    if j < k {
      JoinSplit(ts, k - 1);
      StartMonotone(ts, j, k - 1);
    }
  }

  lemma StartEnd(ts: seq<string>)
    ensures Start(ts, |ts|) == |Join(ts)|
  {
    assert ts[..|ts|] == ts;
  }

  /** The text before and after byte `j` of piece `r`, in the joined text. */
  lemma {:induction false} JoinAt(ts: seq<string>, r: nat, j: int)
    requires r < |ts| && 0 <= j <= |ts[r]|
    ensures Start(ts, r) + j <= |Join(ts)|
    ensures Join(ts)[..Start(ts, r) + j] == Join(ts[..r]) + ts[r][..j]
    ensures Join(ts)[Start(ts, r) + j..] == ts[r][j..] + Join(ts[r + 1..])
  {
    JoinSplit(ts, r);
    var a, x, y, b := Join(ts[..r]), ts[r][..j], ts[r][j..], Join(ts[r + 1..]);
    assert ts[r] == x + y;
    assert Join(ts) == (a + x) + (y + b);
  }

  /** Cutting piece `r` at byte `j` cuts the joined text at `Start(r) + j`. */
  lemma {:induction false} JoinCut(ts: seq<string>, r: nat, j: int)
    requires r < |ts| && 0 <= j <= |ts[r]|
    ensures Start(ts, r) + j <= |Join(ts)|
    ensures Join(ts[..r] + [ts[r][..j]]) == Join(ts)[..Start(ts, r) + j]
    ensures Join([ts[r][j..]] + ts[r + 1..]) == Join(ts)[Start(ts, r) + j..]
  {
    JoinAt(ts, r, j);
    JoinAppend(ts[..r], [ts[r][..j]]);
    JoinOne(ts[r][..j]);
    JoinAppend([ts[r][j..]], ts[r + 1..]);
    JoinOne(ts[r][j..]);
  }

  /** Inserting `s` at byte `j` of piece `r` inserts it into the joined text at `Start(r) + j`. */
  lemma {:induction false} JoinInsertInto(ts: seq<string>, r: nat, j: int, s: string)
    requires r < |ts| && 0 <= j <= |ts[r]|
    ensures var i := Start(ts, r) + j;
      i <= |Join(ts)| && Join(ts[r := ts[r][..j] + s + ts[r][j..]]) == Join(ts)[..i] + s + Join(ts)[i..]
  {
    var ts' := ts[r := ts[r][..j] + s + ts[r][j..]];
    var a, x, y, b := Join(ts[..r]), ts[r][..j], ts[r][j..], Join(ts[r + 1..]);
    JoinAt(ts, r, j);
    JoinSplit(ts', r);
    assert ts'[..r] == ts[..r] && ts'[r + 1..] == ts[r + 1..];
    assert Join(ts') == a + (x + s + y) + b;
    assert a + (x + s + y) + b == (a + x) + s + (y + b);
  }

  /** The first piece at or after `k` whose byte range `[start, start + len]` holds `i`. */
  function FindItem(ts: seq<string>, i: int, k: nat): (r: Option<nat>)
    requires k <= |ts|
    ensures r.Some? ==> k <= r.value < |ts|
    decreases |ts| - k
  {
    if k == |ts| then None
    else if Start(ts, k) <= i <= Start(ts, k) + |ts[k]| then Some(k)
    else FindItem(ts, i, k + 1)
  }

  /**
   * `text_paragraph_get_item_at_index` (declared in paragraph.h, body not
   * part of this model): the first fragment whose byte range, end included,
   * holds `i`, so an index on the boundary of two runs picks the earlier one.
   */
  function ItemAtIndex(ts: seq<string>, i: int): Option<nat>
  {
    FindItem(ts, i, 0)
  }

  lemma {:induction false} FindItemFound(ts: seq<string>, i: int, k: nat)
    requires k < |ts| && Start(ts, k) <= i <= |Join(ts)|
    ensures FindItem(ts, i, k).Some?
    ensures var r := FindItem(ts, i, k).value;
      Start(ts, r) <= i <= Start(ts, r) + |ts[r]| && (r > k ==> Start(ts, r) < i)
    decreases |ts| - k
  {
    JoinSplit(ts, k);
    if i > Start(ts, k) + |ts[k]| {
      if k + 1 == |ts| {
        StartEnd(ts);
        assert false;
      }
      FindItemFound(ts, i, k + 1);
    }
  }

  /**
   * Within a paragraph's byte range the item lookup always succeeds; the
   * item holds the index, and the index is strictly inside it unless the
   * item is the first one.
   */
  lemma ItemAtIndexFound(ts: seq<string>, i: int)
    requires |ts| > 0 && 0 <= i <= |Join(ts)|
    ensures ItemAtIndex(ts, i).Some?
    ensures var k := ItemAtIndex(ts, i).value;
      Start(ts, k) <= i <= Start(ts, k) + |ts[k]| && (k > 0 ==> Start(ts, k) < i)
  {
    assert ts[..0] == [];
    FindItemFound(ts, i, 0);
  }

  class Paragraph {
    var fragments: seq<Fragment>

    /** `text_paragraph_new`: a paragraph with no children. */
    constructor ()
      ensures fragments == []
    {
      fragments := [];
    }

    /** `text_paragraph_append_fragment` (used by the editor): the fragment becomes the last child. */
    method AppendFragment(f: Fragment)
      modifies this
      ensures fragments == old(fragments) + [f]
    {
      fragments := fragments + [f];
    }
  }

  /** `text_paragraph_get_text`: the paragraph's fragments' texts concatenated in child order. */
  function ParagraphText(p: Paragraph): string
    reads p, p.fragments
  {
    Join(Texts(p.fragments))
  }

  /** The number of bytes the fragments contribute, summed without building the text. */
  function TextsLength(fs: seq<Fragment>): nat
    reads fs
  {
    if |fs| == 0 then 0 else TextsLength(fs[..|fs| - 1]) + |FragmentText(fs[|fs| - 1])|
  }

  /**
   * `text_paragraph_get_length`, which the editor calls and whose
   * definition is not part of this model, taken as the byte length of the
   * paragraph's text.
   */
  function ParagraphLength(p: Paragraph): nat
    reads p, p.fragments
  {
    TextsLength(p.fragments)
  }

  lemma {:induction false} TextsLengthIsLength(fs: seq<Fragment>)
    ensures TextsLength(fs) == |Join(Texts(fs))|
    decreases |fs|
  {
    if |fs| > 0 {
      var n := |fs| - 1;
      TextsLengthIsLength(fs[..n]);
      assert Texts(fs)[..n] == Texts(fs[..n]);
    }
  }

  /** The paragraph's length is the length of its text. */
  lemma ParagraphLengthIsText(p: Paragraph)
    ensures ParagraphLength(p) == |ParagraphText(p)|
  {
    TextsLengthIsLength(p.fragments);
  }

  /** The fragments held by the paragraphs `ps`. */
  ghost function Frags(ps: seq<Paragraph>): (r: set<Fragment>)
    reads ps
    ensures forall i, f :: 0 <= i < |ps| && f in ps[i].fragments ==> f in r
  {
    set i, f | 0 <= i < |ps| && f in ps[i].fragments :: f
  }

  /**
   * `text_paragraph_append_run`: a NULL paragraph, or an argument that is not
   * a run, leaves everything unchanged; otherwise the run becomes the
   * paragraph's last child and the earlier children keep their order.
   */
  method AppendRun(p: Paragraph?, run: Fragment?)
    modifies p
    ensures p != null && run != null && run.kind == RunKind ==>
      p.fragments == old(p.fragments) + [run] && |p.fragments| == |old(p.fragments)| + 1
    ensures p != null && (run == null || run.kind != RunKind) ==> p.fragments == old(p.fragments)
  {
    if p == null || run == null || run.kind != RunKind {
      return;
    }
    p.fragments := p.fragments + [run];
  }

  /** A child of a frame: `TextParagraph` or a nested `TextFrame` (both are `TextBlock`s). */
  datatype Block = ParagraphBlock(paragraph: Paragraph) | FrameBlock(frame: Frame)

  class Frame {
    var blocks: seq<Block>

    /** `text_frame_new`: a frame with no children. */
    constructor ()
      ensures blocks == []
    {
      blocks := [];
    }
  }

  /**
   * `text_frame_append_block`: a NULL frame or a missing block changes
   * nothing; otherwise the block becomes the frame's last child.
   */
  method AppendBlock(frame: Frame?, block: Option<Block>)
    modifies frame
    ensures frame != null && block.Some? ==>
      frame.blocks == old(frame.blocks) + [block.value] && |frame.blocks| == |old(frame.blocks)| + 1
    ensures frame != null && block.None? ==> frame.blocks == old(frame.blocks)
  {
    if frame == null || block.None? {
      return;
    }
    frame.blocks := frame.blocks + [block.value];
  }

  /**
   * `text_frame_prepend_block`: a NULL frame or a missing block changes
   * nothing; otherwise the block becomes the frame's first child.
   */
  method PrependBlock(frame: Frame?, block: Option<Block>)
    modifies frame
    ensures frame != null && block.Some? ==>
      frame.blocks == [block.value] + old(frame.blocks) && |frame.blocks| == |old(frame.blocks)| + 1
    ensures frame != null && block.None? ==> frame.blocks == old(frame.blocks)
  {
    if frame == null || block.None? {
      return;
    }
    frame.blocks := [block.value] + frame.blocks;
  }

  /** The paragraphs among a frame's children, in order. */
  function Paragraphs(blocks: seq<Block>): (ps: seq<Paragraph>)
    ensures |ps| <= |blocks|
  {
    if |blocks| == 0 then []
    else
      var last := blocks[|blocks| - 1];
      Paragraphs(blocks[..|blocks| - 1]) + (if last.ParagraphBlock? then [last.paragraph] else [])
  }

  /** Every child of the frame is a paragraph. */
  predicate Flat(blocks: seq<Block>) {
    forall i :: 0 <= i < |blocks| ==> blocks[i].ParagraphBlock?
  }

  /** In a flat frame the paragraphs are the children themselves. */
  lemma {:induction false} FlatParagraphs(blocks: seq<Block>)
    requires Flat(blocks)
    ensures |Paragraphs(blocks)| == |blocks|
    ensures forall i :: 0 <= i < |blocks| ==> Paragraphs(blocks)[i] == blocks[i].paragraph
    decreases |blocks|
  {
    if |blocks| > 0 {
      FlatParagraphs(blocks[..|blocks| - 1]);
    }
  }

  /** A mark: a byte index into a paragraph, with a gravity (`TextMark`). */
  class Mark {
    /** Declared by mark.h, whose `text_mark_new` takes it; the one in mark.c zero-fills the record and never sets it. */
    var document: Document?
    var paragraph: Paragraph?
    var index: int
    var gravity: Gravity

    /** `text_mark_new`. */
    constructor (paragraph: Paragraph?, index: int, gravity: Gravity)
      ensures this.paragraph == paragraph && this.index == index && this.gravity == gravity
      ensures document == null
    {
      this.document := null;
      this.paragraph := paragraph;
      this.index := index;
      this.gravity := gravity;
    }
  }

  /**
   * `text_mark_copy`: NULL for NULL, otherwise a new record with the same
   * paragraph, index and gravity (and, like every new mark, no document).
   */
  method MarkCopy(m: Mark?) returns (c: Mark?)
    ensures m == null ==> c == null
    ensures m != null ==> (c != null && fresh(c) && c.paragraph == m.paragraph &&
                           c.index == m.index && c.gravity == m.gravity && c.document == null)
  {
    if m == null {
      return null;
    }
    c := new Mark(m.paragraph, m.index, m.gravity);
  }

  /** `g_slist_remove`: drops the first occurrence of `x`, if any. */
  function RemoveFirst<T(==)>(s: seq<T>, x: T): seq<T> {
    if |s| == 0 then []
    else if s[0] == x then s[1..]
    else [s[0]] + RemoveFirst(s[1..], x)
  }

  /** Removing an element that does not occur changes nothing. */
  lemma {:induction false} RemoveFirstAbsent<T>(s: seq<T>, x: T)
    requires x !in s
    ensures RemoveFirst(s, x) == s
  {
    if |s| > 0 {
      assert s[1..] == s[1..] && x !in s[1..];
      RemoveFirstAbsent(s[1..], x);
      assert s == [s[0]] + s[1..];
    }
  }

  /**
   * Removing the first occurrence, at position `k`, leaves every other
   * element in order.
   */
  lemma {:induction false} RemoveFirstAt<T>(s: seq<T>, x: T, k: nat)
    requires k < |s| && s[k] == x && x !in s[..k]
    ensures RemoveFirst(s, x) == s[..k] + s[k + 1..]
  {
    if k == 0 {
      assert s[..0] == [];
    } else {
      var t := s[1..];
      assert s[0] in s[..k];
      assert t[..k - 1] == s[1..k];
      RemoveFirstAt(t, x, k - 1);
      assert s[..k] == [s[0]] + t[..k - 1];
      assert s[k + 1..] == t[k..];
    }
  }

  class Document {
    var frame: Frame?
    var cursor: Mark
    /** Set by the display widget when a selection exists; NULL otherwise. */
    var selection: Mark?
    /** The user marks, in creation order. */
    var marks: seq<Mark>

    /** `text_document_new`: the cursor is `(NULL, 0, RIGHT)`; no frame, selection or marks. */
    constructor ()
      ensures frame == null && selection == null && marks == []
      ensures fresh(cursor) && cursor.paragraph == null && cursor.index == 0 &&
        cursor.gravity == Right && cursor.document == null
    {
      frame := null;
      cursor := new Mark(null, 0, Right);
      selection := null;
      marks := [];
    }

    /**
     * `text_document_get_all_marks`: the user marks, then the cursor, then
     * the selection when there is one.
     */
    function AllMarks(): (r: seq<Mark>)
      reads this
      ensures |r| == |marks| + 1 + (if selection != null then 1 else 0)
      ensures r[..|marks|] == marks && r[|marks|] == cursor
      ensures selection != null ==> r[|r| - 1] == selection
    {
      marks + [cursor] + (if selection != null then var s: Mark := selection; [s] else [])
    }

    /**
     * `text_document_create_mark`: with a NULL paragraph nothing changes and
     * NULL is returned; otherwise a new mark is appended and returned.
     */
    method CreateMark(paragraph: Paragraph?, index: int, gravity: Gravity) returns (m: Mark?)
      modifies this
      ensures paragraph == null ==> m == null && marks == old(marks)
      ensures paragraph != null ==> (m != null && fresh(m) && marks == old(marks) + [m] &&
                                     m.paragraph == paragraph && m.index == index && m.gravity == gravity)
      ensures frame == old(frame) && cursor == old(cursor) && selection == old(selection)
    {
      if paragraph == null {
        return null;
      }
      m := new Mark(paragraph, index, gravity);
      marks := marks + [m];
    }

    /**
     * `text_document_copy_mark`: with a NULL mark nothing changes; otherwise
     * a copy is appended and returned.
     */
    method CopyMark(mark: Mark?) returns (m: Mark?)
      modifies this
      ensures mark == null ==> m == null && marks == old(marks)
      ensures mark != null ==> (m != null && fresh(m) && marks == old(marks) + [m] &&
                                m.paragraph == mark.paragraph && m.index == mark.index &&
                                m.gravity == mark.gravity)
      ensures frame == old(frame) && cursor == old(cursor) && selection == old(selection)
    {
      m := MarkCopy(mark);
      if m != null {
        marks := marks + [m];
      }
    }

    /** `text_document_delete_mark`: the first occurrence of the mark leaves `marks`. */
    method DeleteMark(mark: Mark?)
      modifies this
      ensures mark != null ==> marks == RemoveFirst<Mark>(old(marks), mark)
      ensures mark == null ==> marks == old(marks)
      ensures frame == old(frame) && cursor == old(cursor) && selection == old(selection)
    {
      if mark == null {
        return;
      }
      marks := RemoveFirst<Mark>(marks, mark);
    }

    /**
     * `text_document_clear_mark`: removes the mark like `DeleteMark` and
     * returns the NULL the caller's pointer is set to.
     */
    method ClearMark(mark: Mark?) returns (cleared: Mark?)
      modifies this
      ensures cleared == null
      ensures mark != null ==> marks == RemoveFirst<Mark>(old(marks), mark)
      ensures mark == null ==> marks == old(marks)
      ensures frame == old(frame) && cursor == old(cursor) && selection == old(selection)
    {
      DeleteMark(mark);
      cleared := null;
    }
  }
}
