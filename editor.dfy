/**
 * `TextEditor` (`src/editor/editor.c`): edits a document in place through
 * marks.
 *
 * The document's frame holds paragraphs directly (the editor walks the tree
 * with `walk_until_next_paragraph` and `walk_until_previous_paragraph`, which
 * in such a frame step to the neighbouring child), each paragraph holds runs,
 * and text is ASCII. Inserting and splitting are proved against the
 * value-level editor in `EditorSpec`: the paragraph texts after them (`ts`)
 * and the places of all the document's marks. The moves are proved on the
 * paragraph sizes (`ns`). Deleting and replacing are stated on values only,
 * in `EditorSpec`.
 */
module Editor {
  import opened Optional
  import opened TextModel
  import opened EditorSpec

  predicate Distinct<T(==)>(s: seq<T>) {
    forall i, j :: 0 <= i < j < |s| ==> s[i] != s[j]
  }

  twostate lemma ParagraphTextUnchanged(p: Paragraph)
    requires unchanged(p)
    requires forall f :: f in p.fragments ==> unchanged(f)
    ensures ParagraphText(p) == old(ParagraphText(p))
  {
    var fs := p.fragments;
    forall i | 0 <= i < |fs|
      ensures FragmentText(fs[i]) == old(FragmentText(fs[i]))
    {
      assert fs[i] in p.fragments;
    }
    assert Texts(fs) == old(Texts(fs));
  }

  /** Where paragraph `p` sits in the list `ps`. */
  ghost function IndexOf(ps: seq<Paragraph>, p: Paragraph): (k: nat)
    requires p in ps
    ensures k < |ps| && ps[k] == p
  {
    if ps[0] == p then 0 else 1 + IndexOf(ps[1..], p)
  }

  lemma IndexOfDistinct(ps: seq<Paragraph>, k: nat)
    requires Distinct(ps) && k < |ps|
    ensures IndexOf(ps, ps[k]) == k
  {
  }

  /** The position of paragraph `p` among the children of a frame, as the tree walks find it. */
  function BlockIndex(blocks: seq<Block>, p: Paragraph): (k: nat)
    requires ParagraphBlock(p) in blocks
    ensures k < |blocks| && blocks[k] == ParagraphBlock(p)
    decreases |blocks|
  {
    if blocks[0] == ParagraphBlock(p) then 0
    else
      assert blocks == [blocks[0]] + blocks[1..];
      1 + BlockIndex(blocks[1..], p)
  }

  /** The frame's children are the paragraphs `ps`, in order. */
  predicate FrameOf(blocks: seq<Block>, ps: seq<Paragraph>) {
    |blocks| == |ps| && forall i :: 0 <= i < |ps| ==> blocks[i] == ParagraphBlock(ps[i])
  }

  /**
   * The paragraphs are distinct, each holds at least one fragment, all of
   * them runs, no fragment appears twice in a paragraph and no two
   * paragraphs share one.
   */
  ghost predicate Tidy(ps: seq<Paragraph>)
    reads ps
  {
    Distinct(ps) &&
    (forall i :: 0 <= i < |ps| ==> TidyParagraph(ps[i])) &&
    (forall i, j, f :: 0 <= i < |ps| && 0 <= j < |ps| && i != j && f in ps[i].fragments ==>
      f !in ps[j].fragments)
  }

  /** The paragraph holds at least one fragment, all of them distinct runs. */
  ghost predicate TidyParagraph(p: Paragraph)
    reads p
  {
    |p.fragments| > 0 && Distinct(p.fragments) && forall f :: f in p.fragments ==> f.kind == RunKind
  }

  function PlaceOf(m: Mark): Place<Paragraph?>
    reads m
  {
    Place(m.paragraph, m.index, m.gravity)
  }

  function Places(ms: seq<Mark>): (r: seq<Place<Paragraph?>>)
    reads ms
    ensures |r| == |ms| && forall i :: 0 <= i < |ms| ==> r[i] == PlaceOf(ms[i])
  {
    seq(|ms|, i requires 0 <= i < |ms| reads ms => PlaceOf(ms[i]))
  }

  /** Which of the marks is the mark `start` the operation works at. */
  function StartFlags(ms: seq<Mark>, start: Mark): (r: seq<bool>)
    ensures |r| == |ms| && forall i :: 0 <= i < |ms| ==> (r[i] <==> ms[i] == start)
  {
    seq(|ms|, i requires 0 <= i < |ms| => ms[i] == start)
  }

  /** `_distribute_mark`: a mark of left gravity goes to the start place, one of right gravity to the end place. */
  method DistributeMark(mark: Mark, sp: Paragraph?, si: int, ep: Paragraph?, ei: int)
    modifies mark
    ensures PlaceOf(mark) == Distribute(old(PlaceOf(mark)), sp, si, ep, ei)
    ensures mark.document == old(mark.document)
  {
    if mark.gravity == Left {
      mark.paragraph := sp;
      mark.index := si;
      return;
    }
    mark.paragraph := ep;
    mark.index := ei;
  }

  /**
   * The mark loop of `text_editor_insert_text_at_mark`, after `n` bytes were
   * inserted at `start`: every mark of `ms` is compared with `start`'s
   * paragraph and live index, and `start` may be one of them.
   */
  method InsertMarksLoop(ms: seq<Mark>, start: Mark, n: int)
    requires Distinct(ms)
    modifies ms
    ensures Places(ms) == InsertMarksAsWritten(old(Places(ms)), StartFlags(ms, start), old(start.paragraph), old(start.index), n).0
    ensures start.paragraph == old(start.paragraph)
    ensures forall j :: 0 <= j < |ms| ==> ms[j].document == old(ms[j].document)
  {
    ghost var P0, F := Places(ms), StartFlags(ms, start);
    ghost var p, i0 := start.paragraph, start.index;
    ghost var R := InsertMarksAsWritten(P0, F, p, i0, n).0;
    var i := 0;
    while i < |ms|
      invariant 0 <= i <= |ms|
      invariant start.paragraph == p
      invariant start.index == InsertMarksAsWritten(P0[..i], F[..i], p, i0, n).1
      invariant forall j :: 0 <= j < i ==> PlaceOf(ms[j]) == R[j]
      invariant forall j :: i <= j < |ms| ==> PlaceOf(ms[j]) == P0[j]
      invariant forall j :: 0 <= j < |ms| ==> ms[j].document == old(ms[j].document)
    {
      InsertMarksStep(P0, F, p, i0, n, i);
      InsertTurn(ms[i], start, n);
      i := i + 1;
    }
    assert P0[..i] == P0 && F[..i] == F;
  }

  /** One turn of the insertion mark loop, on `mark`, which may be `start` itself. */
  method InsertTurn(mark: Mark, start: Mark, n: int)
    modifies mark
    ensures PlaceOf(mark) == InsertedPlace(old(PlaceOf(mark)), old(start.paragraph), old(start.index), n)
    ensures mark.document == old(mark.document) && start.paragraph == old(start.paragraph)
  {
    if mark.paragraph == start.paragraph && mark.index == start.index {
      DistributeMark(mark, start.paragraph, start.index, start.paragraph, start.index + n);
      return;
    }
    if mark.paragraph == start.paragraph && mark.index > start.index {
      mark.index := mark.index + n;
    }
  }

  /**
   * The run update of `text_editor_insert_text_at_mark`: the run holding
   * byte `i` of the paragraph (the earlier one on a boundary) has `str`
   * inserted at that byte, so the paragraph's text has it at byte `i`.
   */
  method InsertIntoRun(p: Paragraph, i: int, str: string)
    requires TidyParagraph(p) && 0 <= i <= |ParagraphText(p)|
    modifies p.fragments
    ensures ParagraphText(p) == old(ParagraphText(p)[..i] + str + ParagraphText(p)[i..])
    ensures forall f :: f in p.fragments ==>
      f.bold == old(f.bold) && f.italic == old(f.italic) && f.underline == old(f.underline)
  {
    var fs := p.fragments;
    ghost var texts := Texts(fs);
    ItemAtIndexFound(texts, i);
    var r := ItemAtIndex(Texts(fs), i).value;
    var j := i - Start(Texts(fs), r);
    var run := fs[r];
    var text := FragmentText(run);
    SetRunText(fs, r, text[..j] + str + text[j..]);
    JoinInsertInto(texts, r, j, str);
  }

  /** Sets the text of the `r`-th of the distinct runs `fs`, keeping its styles. */
  method SetRunText(fs: seq<Fragment>, r: nat, t: string)
    requires r < |fs| && fs[r].kind == RunKind
    requires forall i :: 0 <= i < |fs| && i != r ==> fs[i] != fs[r]
    modifies fs[r]
    ensures Texts(fs) == old(Texts(fs))[r := t]
    ensures forall f :: f in fs ==>
      f.bold == old(f.bold) && f.italic == old(f.italic) && f.underline == old(f.underline)
  {
    ghost var was := Texts(fs)[r := t];
    fs[r].SetText(Some(t));
    forall i | 0 <= i < |fs|
      ensures Texts(fs)[i] == was[i]
    {
      if i != r {
        assert FragmentText(fs[i]) == old(FragmentText(fs[i]));
      }
    }
  }

  /**
   * `split_run_at_offset`: the run keeps the text before `offset`, and a new
   * run holds the rest with the run's bold, italic and underline.
   */
  method SplitRunAtOffset(run: Fragment, offset: int) returns (nu: Fragment)
    requires run.kind == RunKind && 0 <= offset <= |FragmentText(run)|
    modifies run
    ensures fresh(nu) && nu.kind == RunKind
    ensures FragmentText(run) == old(FragmentText(run))[..offset]
    ensures FragmentText(nu) == old(FragmentText(run))[offset..]
    ensures run.bold == old(run.bold) && run.italic == old(run.italic) && run.underline == old(run.underline)
    ensures nu.bold == run.bold && nu.italic == run.italic && nu.underline == run.underline
  {
    var first := FragmentText(run);
    var second := first[offset..];
    first := first[..offset];
    run.SetText(Some(first));
    nu := new Fragment.Run(second);
    nu.bold := run.bold;
    nu.italic := run.italic;
    nu.underline := run.underline;
  }

  /**
   * The loop of `text_editor_split_at_mark` that unparents the children of
   * `cur` from position `t0` on, one at a time, and appends each to `nu`.
   */
  method MoveFragments(cur: Paragraph, nu: Paragraph, t0: nat)
    requires cur != nu && t0 <= |cur.fragments|
    modifies cur, nu
    ensures cur.fragments == old(cur.fragments)[..t0]
    ensures nu.fragments == old(nu.fragments) + old(cur.fragments)[t0..]
  {
    ghost var fs, ns := cur.fragments, nu.fragments;
    ghost var t := t0;
    while |cur.fragments| > t0
      invariant t0 <= t <= |fs|
      invariant cur.fragments == fs[..t0] + fs[t..]
      invariant nu.fragments == ns + fs[t0..t]
      decreases |cur.fragments|
    {
      var f := cur.fragments[t0];
      cur.fragments := cur.fragments[..t0] + cur.fragments[t0 + 1..];
      nu.AppendFragment(f);
      assert fs[t0..t + 1] == fs[t0..t] + [f];
      t := t + 1;
    }
    assert t == |fs|;
  }

  /** A list of distinct elements cut at `t`, with a new element `x` in front of the second part. */
  lemma CutDistinct<T>(fs: seq<T>, t: nat, x: T)
    requires Distinct(fs) && t <= |fs| && x !in fs
    ensures Distinct(fs[..t]) && Distinct([x] + fs[t..])
    ensures forall f :: f in fs[..t] ==> f !in [x] + fs[t..]
  {
  }

  /**
   * The mid-paragraph case of `text_editor_split_at_mark` when byte `j` of
   * run `r` is not the start of the run: the run is split there, the new
   * run goes first in a new paragraph `nu`, and the runs after `r` follow it.
   */
  method SplitAfterRun(cur: Paragraph, r: nat, j: int) returns (nu: Paragraph)
    requires TidyParagraph(cur) && r < |cur.fragments| && 0 <= j <= |FragmentText(cur.fragments[r])|
    modifies cur, cur.fragments[r]
    ensures fresh(nu) && |nu.fragments| == |old(cur.fragments)| - r
    ensures cur.fragments == old(cur.fragments)[..r + 1]
    ensures fresh(nu.fragments[0]) && nu.fragments[1..] == old(cur.fragments)[r + 1..]
    ensures TidyParagraph(cur) && TidyParagraph(nu) && forall f :: f in cur.fragments ==> f !in nu.fragments
    ensures FragmentText(cur.fragments[r]) == old(FragmentText(cur.fragments[r]))[..j]
    ensures FragmentText(nu.fragments[0]) == old(FragmentText(cur.fragments[r]))[j..]
  {
    var fs := cur.fragments;
    nu := new Paragraph();
    var newRun := SplitRunAtOffset(fs[r], j);
    nu.AppendFragment(newRun);
    MoveFragments(cur, nu, r + 1);
    assert nu.fragments == [newRun] + fs[r + 1..];
    CutDistinct(fs, r + 1, newRun);
  }

  /**
   * The runs of `text_editor_split_at_mark`: at the end of `cur` a new
   * paragraph `nu` holding one empty run, otherwise `SplitFragments`.
   */
  method SplitRuns(cur: Paragraph, i: int) returns (nu: Paragraph)
    requires TidyParagraph(cur) && 0 <= i <= |ParagraphText(cur)|
    modifies cur, cur.fragments
    ensures fresh(nu) && TidyParagraph(cur) && TidyParagraph(nu)
    ensures ParagraphText(cur) == old(ParagraphText(cur))[..i]
    ensures ParagraphText(nu) == old(ParagraphText(cur))[i..]
    ensures forall f :: f in cur.fragments ==> f in old(cur.fragments) || fresh(f)
    ensures forall f :: f in nu.fragments ==> f in old(cur.fragments) || fresh(f)
    ensures forall f :: f in cur.fragments ==> f !in nu.fragments
  {
    var size := ParagraphLength(cur);
    ParagraphLengthIsText(cur);
    if i == size {
      nu := new Paragraph();
      var run := new Fragment.Run("");
      nu.AppendFragment(run);
      JoinOne("");
      assert ParagraphText(nu) == "";
    } else {
      nu := SplitFragments(cur, i);
    }
  }

  /**
   * The mid-paragraph case of `text_editor_split_at_mark`: the run holding
   * byte `i` is split there unless `i` starts it, the runs after it move to
   * a new paragraph `nu`, and `cur` gets an empty run if none is left.
   */
  method SplitFragments(cur: Paragraph, i: int) returns (nu: Paragraph)
    requires TidyParagraph(cur) && 0 <= i < |ParagraphText(cur)|
    modifies cur, cur.fragments
    ensures fresh(nu) && TidyParagraph(cur) && TidyParagraph(nu)
    ensures ParagraphText(cur) == old(ParagraphText(cur))[..i]
    ensures ParagraphText(nu) == old(ParagraphText(cur))[i..]
    ensures forall f :: f in cur.fragments ==> f in old(cur.fragments) || fresh(f)
    ensures forall f :: f in nu.fragments ==> f in old(cur.fragments) || fresh(f)
    ensures forall f :: f in cur.fragments ==> f !in nu.fragments
  {
    var fs := cur.fragments;
    ghost var texts := Texts(fs);
    ItemAtIndexFound(texts, i);
    var r := ItemAtIndex(Texts(fs), i).value;
    var runStart := Start(Texts(fs), r);
    ghost var t := Join(texts);
    if i != runStart {
      var j := i - runStart;
      nu := SplitInsideRun(cur, r, j);
      JoinCut(texts, r, j);
      assert ParagraphText(cur) == Join(texts[..r] + [texts[r][..j]]) == t[..i];
      assert ParagraphText(nu) == Join([texts[r][j..]] + texts[r + 1..]) == t[i..];
    } else {
      assert r == 0;
      nu := SplitAtStart(cur);
      JoinOne("");
      assert ParagraphText(cur) == "" == t[..i];
      assert ParagraphText(nu) == t == t[i..];
    }
  }

  /** `SplitFragments` at byte `j` of run `r`, `j` not being the start of the paragraph. */
  method SplitInsideRun(cur: Paragraph, r: nat, j: int) returns (nu: Paragraph)
    requires TidyParagraph(cur) && r < |cur.fragments| && 0 <= j <= |FragmentText(cur.fragments[r])|
    modifies cur, cur.fragments
    ensures fresh(nu) && TidyParagraph(cur) && TidyParagraph(nu)
    ensures var texts := old(Texts(cur.fragments));
      Texts(cur.fragments) == texts[..r] + [texts[r][..j]] &&
      Texts(nu.fragments) == [texts[r][j..]] + texts[r + 1..]
    ensures forall f :: f in cur.fragments ==> f in old(cur.fragments)
    ensures forall f :: f in nu.fragments ==> f in old(cur.fragments) || fresh(f)
    ensures forall f :: f in cur.fragments ==> f !in nu.fragments
  {
    var fs := cur.fragments;
    ghost var texts := Texts(fs);
    nu := SplitAfterRun(cur, r, j);
    ghost var before, after := texts[..r] + [texts[r][..j]], [texts[r][j..]] + texts[r + 1..];
    forall q | 0 <= q < |fs| && q != r
      ensures FragmentText(fs[q]) == texts[q]
    {
      assert fs[q] != fs[r];
    }
    forall q | 0 <= q <= r
      ensures Texts(cur.fragments)[q] == before[q]
    {
    }
    forall q | 0 <= q < |fs| - r
      ensures Texts(nu.fragments)[q] == after[q]
    {
      if q > 0 {
        assert nu.fragments[q] == fs[r + q];
      }
    }
    assert Texts(cur.fragments) == before;
    assert Texts(nu.fragments) == after;
  }

  /** `SplitFragments` at byte 0: every run moves to `nu`, and `cur` gets a new empty run. */
  method SplitAtStart(cur: Paragraph) returns (nu: Paragraph)
    requires TidyParagraph(cur)
    modifies cur
    ensures fresh(nu) && TidyParagraph(cur) && TidyParagraph(nu)
    ensures Texts(cur.fragments) == [""] && nu.fragments == old(cur.fragments)
    ensures forall f :: f in cur.fragments ==> fresh(f)
  {
    nu := new Paragraph();
    MoveFragments(cur, nu, 0);
    var run := new Fragment.Run("");
    cur.AppendFragment(run);
  }

  /**
   * The mark loop of `text_editor_split_at_mark` after `cur` was split at
   * `split`'s index into `cur` and `nu`: marks are compared with `cur` and
   * with `split`'s live index, and `split` may be one of them.
   */
  method SplitMarksLoop(ms: seq<Mark>, split: Mark, cur: Paragraph, nu: Paragraph)
    requires Distinct(ms)
    modifies ms
    ensures Places(ms) == SplitMarksAsWritten(old(Places(ms)), StartFlags(ms, split), cur, nu, old(split.index)).0
    ensures forall j :: 0 <= j < |ms| ==> ms[j].document == old(ms[j].document)
  {
    ghost var P0, F := Places(ms), StartFlags(ms, split);
    ghost var i0 := split.index;
    ghost var R := SplitMarksAsWritten(P0, F, cur, nu, i0).0;
    var i := 0;
    while i < |ms|
      invariant 0 <= i <= |ms|
      invariant split.index == SplitMarksAsWritten(P0[..i], F[..i], cur, nu, i0).1
      invariant forall j :: 0 <= j < i ==> PlaceOf(ms[j]) == R[j]
      invariant forall j :: i <= j < |ms| ==> PlaceOf(ms[j]) == P0[j]
      invariant forall j :: 0 <= j < |ms| ==> ms[j].document == old(ms[j].document)
    {
      SplitMarksStep(P0, F, cur, nu, i0, i);
      SplitTurn(ms[i], split, cur, nu);
      i := i + 1;
    }
    assert P0[..i] == P0 && F[..i] == F;
  }

  /** One turn of the split mark loop, on `mark`, which may be `split` itself. */
  method SplitTurn(mark: Mark, split: Mark, cur: Paragraph, nu: Paragraph)
    modifies mark
    ensures PlaceOf(mark) == SplitPlace(old(PlaceOf(mark)), cur, nu, old(split.index))
    ensures mark.document == old(mark.document)
  {
    if mark.paragraph == cur && mark.index == split.index {
      DistributeMark(mark, cur, split.index, nu, 0);
      return;
    }
    if mark.paragraph == cur && mark.index > split.index {
      mark.paragraph := nu;
      mark.index := mark.index - split.index;
    }
  }

  /** Inserting a tidy paragraph `nu`, sharing no fragment with the others, after the `k`th keeps them tidy. */
  lemma TidyAfterSplit(ps: seq<Paragraph>, k: nat, nu: Paragraph)
    requires k < |ps| && nu !in ps && Distinct(ps)
    requires forall j :: 0 <= j < |ps| ==> TidyParagraph(ps[j])
    requires TidyParagraph(nu)
    requires forall i, j, f :: 0 <= i < |ps| && 0 <= j < |ps| && i != j && i != k && j != k && f in ps[i].fragments ==>
      f !in ps[j].fragments
    requires forall j, f :: 0 <= j < |ps| && j != k && f in ps[j].fragments ==>
      f !in ps[k].fragments && f !in nu.fragments
    requires forall f :: f in ps[k].fragments ==> f !in nu.fragments
    ensures Tidy(ps[..k + 1] + [nu] + ps[k + 1..])
  {
    var ps' := ps[..k + 1] + [nu] + ps[k + 1..];
    assert forall j :: 0 <= j < |ps'| ==> ps'[j] == if j <= k then ps[j] else if j == k + 1 then nu else ps[j - 1];
  }

  /** A paragraph inserted after the `k`th paragraph is the child after the `k`th block. */
  lemma FrameInsert(blocks: seq<Block>, ps: seq<Paragraph>, k: nat, nu: Paragraph)
    requires FrameOf(blocks, ps) && k < |ps|
    ensures FrameOf(blocks[..k + 1] + [ParagraphBlock(nu)] + blocks[k + 1..], ps[..k + 1] + [nu] + ps[k + 1..])
  {
  }

  /** After a split the paragraphs' fragments lie in the grown footprint. */
  lemma FragsAfterSplit(ps: seq<Paragraph>, k: nat, nu: Paragraph, R: set<object>)
    requires k < |ps|
    requires forall j, f :: 0 <= j < |ps| && j != k && f in ps[j].fragments ==> f in R
    ensures Frags(ps[..k + 1] + [nu] + ps[k + 1..]) <= R + {nu} + Frags([ps[k], nu])
  {
    var ps' := ps[..k + 1] + [nu] + ps[k + 1..];
    forall j, f | 0 <= j < |ps'| && f in ps'[j].fragments
      ensures f in R + {nu} + Frags([ps[k], nu])
    {
      if j == k {
        assert f in [ps[k], nu][0].fragments;
      } else if j == k + 1 {
        assert f in [ps[k], nu][1].fragments;
      } else if j > k + 1 {
        assert ps'[j] == ps[j - 1];
      }
    }
  }

  /** After a split of paragraph `k` at byte `i` into `ps[k]` and `nu` the texts are `SplitText(ts, k, i)`. */
  lemma TextsAfterSplit(ps: seq<Paragraph>, k: nat, nu: Paragraph, ts: seq<string>, i: int)
    requires k < |ps| && |ts| == |ps| && 0 <= i <= |ts[k]|
    requires forall j :: 0 <= j < |ps| && j != k ==> ParagraphText(ps[j]) == ts[j]
    requires ParagraphText(ps[k]) == ts[k][..i] && ParagraphText(nu) == ts[k][i..]
    ensures var ps' := ps[..k + 1] + [nu] + ps[k + 1..];
      |ps'| == |SplitText(ts, k, i)| &&
      forall j :: 0 <= j < |ps'| ==> ParagraphText(ps'[j]) == SplitText(ts, k, i)[j]
  {
    var ps' := ps[..k + 1] + [nu] + ps[k + 1..];
    forall j | 0 <= j < |ps'|
      ensures ParagraphText(ps'[j]) == SplitText(ts, k, i)[j]
    {
      if j > k + 1 {
        assert ps'[j] == ps[j - 1];
      }
    }
  }

  class Editor {
    var document: Document
    /** The paragraphs of the document's frame, in order. */
    ghost var paras: seq<Paragraph>
    /** The document, its frame, the paragraphs and their fragments. */
    ghost var Repr: set<object>

    /**
     * The document's frame holds the paragraphs `paras`, which are tidy, and
     * the document's marks are distinct objects. The marks themselves lie
     * outside the footprint `Repr`: moving one leaves the editor valid.
     */
    ghost predicate Valid()
      reads this, Repr
    {
      document in Repr && document.frame != null && document.frame in Repr &&
      (forall i :: 0 <= i < |paras| ==> paras[i] in Repr) && Frags(paras) <= Repr &&
      (forall o :: o in Repr ==> !(o is Mark)) &&
      FrameOf(document.frame.blocks, paras) &&
      Tidy(paras) &&
      Distinct(document.AllMarks())
    }

    /** `ts` are the texts of the paragraphs, in order. */
    ghost predicate HasTexts(ts: seq<string>)
      reads this, Repr
      requires Valid()
    {
      |ts| == |paras| && forall i :: 0 <= i < |paras| ==> ts[i] == ParagraphText(paras[i])
    }

    /** `ns` are the sizes in bytes of the paragraphs, in order. */
    ghost predicate HasSizes(ns: seq<nat>)
      reads this, Repr
      requires Valid()
    {
      |ns| == |paras| && forall i {:trigger ParagraphLength(paras[i])} :: 0 <= i < |paras| ==> ns[i] == ParagraphLength(paras[i])
    }

    /** The sizes of the paragraph texts are the paragraph sizes. */
    lemma SizesOfTexts(ts: seq<string>)
      requires Valid() && HasTexts(ts)
      ensures HasSizes(Sizes(ts))
    {
      forall i | 0 <= i < |paras|
        ensures Sizes(ts)[i] == ParagraphLength(paras[i])
      {
        ParagraphLengthIsText(paras[i]);
      }
    }

    /** The mark stands in a paragraph of the document, at a byte of it or at its end. */
    ghost predicate OnText(m: Mark, ns: seq<nat>)
      reads this, m
    {
      |ns| == |paras| && m.paragraph != null && m.paragraph in paras &&
      0 <= m.index <= ns[IndexOf(paras, m.paragraph)]
    }

    /** The offset of the mark in the plain-text dump, given the paragraph sizes `ns`. */
    ghost function Pos(m: Mark, ns: seq<nat>): int
      reads this, m
      requires OnText(m, ns)
    {
      LineStart(ns, IndexOf(paras, m.paragraph)) + m.index
    }

    /** The mark stands at byte `o` of the dump, in the `k`th paragraph. */
    ghost predicate AtOffset(m: Mark, ns: seq<nat>, k: nat, o: int)
      reads this, m
    {
      k < |paras| && k < |ns| && m.paragraph == paras[k] && 0 <= m.index <= ns[k] && LineStart(ns, k) + m.index == o
    }

    /** A mark at byte `i` of the `k`th paragraph stands on the text, at offset `LineStart(ns, k) + i`. */
    lemma PosAt(m: Mark, ns: seq<nat>, k: nat)
      requires Valid() && HasSizes(ns) && k < |paras| && m.paragraph == paras[k]
      requires 0 <= m.index <= ns[k]
      ensures OnText(m, ns) && Pos(m, ns) == LineStart(ns, k) + m.index
    {
      IndexOfDistinct(paras, k);
    }

    /** `text_editor_new`: an editor over a document whose frame holds the paragraphs `ps`. */
    constructor (document: Document, ghost ps: seq<Paragraph>)
      requires document.frame != null && FrameOf(document.frame.blocks, ps) && Tidy(ps)
      requires Distinct(document.AllMarks())
      ensures Valid() && this.document == document && paras == ps
    {
      this.document := document;
      paras := ps;
      Repr := {document, document.frame} + (set p | p in ps) + Frags(ps);
    }

    /**
     * `text_editor_dump_plain_text`: walks the frame's paragraphs in order,
     * appending each one's text and a newline.
     */
    method DumpPlainText(ghost ts: seq<string>) returns (r: string)
      requires Valid() && HasTexts(ts)
      ensures r == Dump(ts)
    {
      var blocks := document.frame.blocks;
      r := "";
      var q := 0;
      while q < |blocks|
        invariant 0 <= q <= |blocks|
        invariant r == Dump(ts[..q])
      {
        var text := ParagraphText(blocks[q].paragraph);
        assert ts[..q + 1][..q] == ts[..q];
        r := r + text + "\n";
        q := q + 1;
      }
      assert ts[..q] == ts;
    }

    /**
     * `text_editor_insert_text_at_mark`: inserts `str` into the run that
     * holds `start` (the earlier run on a boundary), then moves the marks as
     * `InsertMarksAsWritten` says. The runs keep their styles.
     */
    method InsertTextAtMark(start: Mark, str: string, ghost ts: seq<string>, ghost k: nat)
      requires Valid() && HasTexts(ts) && k < |paras| && start.paragraph == paras[k]
      requires 0 <= start.index <= |ts[k]|
      modifies paras[k].fragments, document.AllMarks()
      ensures unchanged(this) && Valid()
      ensures HasTexts(InsertText(ts, k, old(start.index), str))
      ensures Places(document.AllMarks()) ==
        InsertMarksAsWritten(old(Places(document.AllMarks())), StartFlags(document.AllMarks(), start),
                             paras[k], old(start.index), |str|).0
    {
      ghost var places, ms := Places(document.AllMarks()), document.AllMarks();
      InsertIntoParagraph(start.paragraph, start.index, str, ts, k);
      assert document.AllMarks() == ms && Places(ms) == places;
      assert start.paragraph == paras[k] && start.index == old(start.index);
      MoveMarksForInsert(start, |str|, InsertText(ts, k, old(start.index), str));
    }

    /** The mark loop of `text_editor_insert_text_at_mark` over all of the document's marks. */
    method MoveMarksForInsert(start: Mark, n: int, ghost ts: seq<string>)
      requires Valid() && HasTexts(ts)
      modifies document.AllMarks()
      ensures unchanged(this) && Valid() && HasTexts(ts)
      ensures Places(document.AllMarks()) ==
        InsertMarksAsWritten(old(Places(document.AllMarks())), StartFlags(document.AllMarks(), start),
                             old(start.paragraph), old(start.index), n).0
    {
      var ms := document.AllMarks();
      label Before:
      InsertMarksLoop(ms, start, n);
      assert forall o :: o in Repr ==> o !in ms;
      KeptByMarks@Before(ts);
    }

    /**
     * `text_editor_split_at_mark`: splits the paragraph of `split` at its
     * index into itself and a new paragraph inserted right after it, then
     * moves the marks as `SplitMarksAsWritten` says.
     */
    method SplitAtMark(split: Mark, ghost ts: seq<string>, ghost k: nat)
      requires Valid() && HasTexts(ts) && k < |paras| && split.paragraph == paras[k]
      requires 0 <= split.index <= |ts[k]|
      modifies this, document.frame, paras[k], paras[k].fragments, document.AllMarks()
      ensures Valid() && document == old(document)
      ensures |paras| == |old(paras)| + 1 && fresh(paras[k + 1])
      ensures paras == old(paras)[..k + 1] + [paras[k + 1]] + old(paras)[k + 1..]
      ensures HasTexts(SplitText(ts, k, old(split.index)))
      ensures Places(document.AllMarks()) ==
        SplitMarksAsWritten(old(Places(document.AllMarks())), StartFlags(document.AllMarks(), split),
                            paras[k], paras[k + 1], old(split.index)).0
    {
      var cur := split.paragraph;
      var nu := SplitParagraph(cur, split.index, ts, k);
      MoveMarksForSplit(split, cur, nu, SplitText(ts, k, old(split.index)));
    }

    /** The mark loop of `text_editor_split_at_mark` over all of the document's marks. */
    method MoveMarksForSplit(split: Mark, cur: Paragraph, nu: Paragraph, ghost ts: seq<string>)
      requires Valid() && HasTexts(ts)
      modifies document.AllMarks()
      ensures unchanged(this) && Valid() && HasTexts(ts)
      ensures Places(document.AllMarks()) ==
        SplitMarksAsWritten(old(Places(document.AllMarks())), StartFlags(document.AllMarks(), split),
                            cur, nu, old(split.index)).0
    {
      var ms := document.AllMarks();
      label Before:
      SplitMarksLoop(ms, split, cur, nu);
      assert forall o :: o in Repr ==> o !in ms;
      KeptByMarks@Before(ts);
    }

    /**
     * The tree half of `text_editor_split_at_mark`: at the end of `cur` a new
     * paragraph holding one empty run, otherwise `SplitFragments`; the new
     * paragraph goes into the frame right after `cur`.
     */
    method SplitParagraph(cur: Paragraph, i: int, ghost ts: seq<string>, ghost k: nat) returns (nu: Paragraph)
      requires Valid() && HasTexts(ts) && k < |paras| && cur == paras[k] && 0 <= i <= |ts[k]|
      modifies this, document.frame, cur, cur.fragments
      ensures Valid() && fresh(nu) && document == old(document)
      ensures paras == old(paras)[..k + 1] + [nu] + old(paras)[k + 1..]
      ensures HasTexts(SplitText(ts, k, i))
      ensures unchanged(document.AllMarks())
    {
      ghost var ms := document.AllMarks();
      assert Distinct(ms) && document in Repr && document.frame in Repr;
      label Runs:
      nu := SplitParagraphRuns(cur, i, ts, k);
      assert unchanged@Runs(ms);
      var blocks := document.frame.blocks;
      var q := BlockIndex(blocks, cur);
      assert q == k by {
        assert blocks[q] == ParagraphBlock(paras[q]);
      }
      LinkParagraph(q, nu, SplitText(ts, k, i));
    }

    /**
     * The first half of `text_editor_split_paragraph`: the runs of the `k`-th
     * paragraph from byte `i` on move to a new paragraph `nu`, which is not
     * linked in yet.
     */
    method SplitParagraphRuns(cur: Paragraph, i: int, ghost ts: seq<string>, ghost k: nat) returns (nu: Paragraph)
      requires Valid() && HasTexts(ts) && k < |paras| && cur == paras[k] && 0 <= i <= |ts[k]|
      modifies cur, cur.fragments
      ensures fresh(nu)
      ensures forall j, f :: 0 <= j < |paras| && j != k && f in paras[j].fragments ==> f in Repr
      ensures Tidy(paras[..k + 1] + [nu] + paras[k + 1..])
      ensures |SplitText(ts, k, i)| == |paras| + 1
      ensures forall j :: 0 <= j < |paras| + 1 ==> ParagraphText((paras[..k + 1] + [nu] + paras[k + 1..])[j]) == SplitText(ts, k, i)[j]
    {
      ghost var ps := paras;
      assert TidyParagraph(ps[k]);
      nu := SplitRuns(cur, i);
      forall j | 0 <= j < |ps| && j != k
        ensures ps[j].fragments == old(ps[j].fragments) && ParagraphText(ps[j]) == ts[j]
        ensures forall f :: f in ps[j].fragments ==> f in Repr && f !in cur.fragments && f !in nu.fragments
      {
        assert TidyParagraph(ps[j]);
        ParagraphTextUnchanged(ps[j]);
      }
      TidyAfterSplit(ps, k, nu);
      TextsAfterSplit(ps, k, nu, ts, i);
    }

    /**
     * The second half of `text_editor_split_paragraph`: the new paragraph `nu`
     * goes into the frame's block list right after the `k`-th paragraph, and
     * into the footprint with its fragments.
     */
    method LinkParagraph(k: nat, nu: Paragraph, ghost ts: seq<string>)
      requires document in Repr && document.frame != null && document.frame in Repr
      requires k < |paras| && FrameOf(document.frame.blocks, paras)
      requires forall j :: 0 <= j < |paras| ==> paras[j] in Repr
      requires forall o :: o in Repr ==> !(o is Mark)
      requires forall j, f :: 0 <= j < |paras| && j != k && f in paras[j].fragments ==> f in Repr
      requires Tidy(paras[..k + 1] + [nu] + paras[k + 1..])
      requires Distinct(document.AllMarks())
      requires |ts| == |paras| + 1
      requires forall j :: 0 <= j < |ts| ==> ParagraphText((paras[..k + 1] + [nu] + paras[k + 1..])[j]) == ts[j]
      modifies this, document.frame
      ensures Valid() && HasTexts(ts) && document == old(document)
      ensures paras == old(paras[..k + 1] + [nu] + paras[k + 1..])
      ensures unchanged(document.AllMarks())
    {
      ghost var ps := paras;
      var frame := document.frame;
      var blocks := frame.blocks;
      FrameInsert(blocks, ps, k, nu);
      frame.blocks := blocks[..k + 1] + [ParagraphBlock(nu)] + blocks[k + 1..];
      paras := ps[..k + 1] + [nu] + ps[k + 1..];
      Repr := Repr + {nu} + Frags([ps[k], nu]);
      FragsAfterSplit(ps, k, nu, old(Repr));
      assert Tidy(paras);
      assert FrameOf(document.frame.blocks, paras);
      assert forall j :: 0 <= j < |paras| ==> paras[j] in Repr;
      assert forall o :: o in Repr ==> !(o is Mark);
      assert forall j :: 0 <= j < |ts| ==> ParagraphText(paras[j]) == ts[j];
    }

    /** Moving marks, which lie outside the footprint, keeps the editor valid and its texts. */
    twostate lemma KeptByMarks(ts: seq<string>)
      requires old(Valid()) && old(HasTexts(ts))
      requires unchanged(this) && unchanged(old(Repr))
      ensures Valid() && HasTexts(ts)
    {
    }

    /** The text half of `text_editor_insert_text_at_mark`: `str` goes in at byte `i` of the `k`th paragraph. */
    method InsertIntoParagraph(p: Paragraph, i: int, str: string, ghost ts: seq<string>, ghost k: nat)
      requires Valid() && HasTexts(ts) && k < |paras| && p == paras[k] && 0 <= i <= |ts[k]|
      modifies p.fragments
      ensures Valid() && HasTexts(InsertText(ts, k, i, str))
      ensures forall f :: f in p.fragments ==>
        f.bold == old(f.bold) && f.italic == old(f.italic) && f.underline == old(f.underline)
      ensures unchanged(document.AllMarks())
    {
      assert TidyParagraph(paras[k]);
      InsertIntoRun(p, i, str);
      ghost var ts' := InsertText(ts, k, i, str);
      forall q | 0 <= q < |paras|
        ensures ParagraphText(paras[q]) == ts'[q]
      {
        if q != k {
          assert forall f :: f in paras[q].fragments ==> f !in p.fragments;
          ParagraphTextUnchanged(paras[q]);
        }
      }
    }

    // -------------------------------------------------------------------------
    // Walking the frame
    // -------------------------------------------------------------------------

    /**
     * `walk_until_previous_paragraph` from a paragraph of the frame: the
     * paragraph before it, or NULL at the first.
     */
    function PreviousParagraph(p: Paragraph): (q: Paragraph?)
      reads this, Repr
      requires Valid() && p in paras
      ensures var k := IndexOf(paras, p); q == if k > 0 then paras[k - 1] else null
    {
      var blocks := document.frame.blocks;
      var k := BlockIndex(blocks, p);
      IndexOfDistinct(paras, k);
      if k > 0 then blocks[k - 1].paragraph else null
    }

    /**
     * `walk_until_next_paragraph` from a paragraph of the frame: the
     * paragraph after it, or NULL at the last.
     */
    function NextParagraph(p: Paragraph): (q: Paragraph?)
      reads this, Repr
      requires Valid() && p in paras
      ensures var k := IndexOf(paras, p); q == if k + 1 < |paras| then paras[k + 1] else null
    {
      var blocks := document.frame.blocks;
      var k := BlockIndex(blocks, p);
      IndexOfDistinct(paras, k);
      if k + 1 < |blocks| then blocks[k + 1].paragraph else null
    }

    /**
     * `walk_until_next_paragraph` from the frame itself: its first child,
     * NULL when it has none.
     */
    function FirstParagraph(): (q: Paragraph?)
      reads this, Repr
      requires Valid()
      ensures q == if |paras| > 0 then paras[0] else null
    {
      var blocks := document.frame.blocks;
      if |blocks| > 0 then blocks[0].paragraph else null
    }

    /**
     * `walk_until_previous_paragraph` from the frame itself: its last child,
     * NULL when it has none.
     */
    function LastParagraph(): (q: Paragraph?)
      reads this, Repr
      requires Valid()
      ensures q == if |paras| > 0 then paras[|paras| - 1] else null
    {
      var blocks := document.frame.blocks;
      if |blocks| > 0 then blocks[|blocks| - 1].paragraph else null
    }

    // -------------------------------------------------------------------------
    // Moving marks
    // -------------------------------------------------------------------------

    /**
     * `text_editor_move_mark_first`: a mark without a document is left alone
     * (mark.c's `text_mark_new` never gives one; mark.h's does); otherwise it goes to index 0
     * of the first paragraph, NULL when there is none.
     */
    method MoveMarkFirst(mark: Mark?, ghost ns: seq<nat>)
      requires Valid() && HasSizes(ns)
      requires mark != null ==> mark.document == null || mark.document == document
      modifies mark
      ensures Valid() && HasSizes(ns)
      ensures mark != null && old(mark.document) == null ==> unchanged(mark)
      ensures mark != null && old(mark.document) != null ==>
        mark.paragraph == (if |paras| > 0 then paras[0] else null) && mark.index == 0 &&
        mark.gravity == old(mark.gravity) && mark.document == old(mark.document)
    {
      if mark == null || mark.document == null {
        return;
      }
      mark.paragraph := FirstParagraph();
      mark.index := 0;
    }

    /**
     * `text_editor_move_mark_last`: a mark without a document is left alone;
     * otherwise it goes to the end of the last paragraph (NULL and 0 when
     * there is none).
     */
    method MoveMarkLast(mark: Mark?, ghost ns: seq<nat>)
      requires Valid() && HasSizes(ns)
      requires mark != null ==> mark.document == null || mark.document == document
      modifies mark
      ensures Valid() && HasSizes(ns)
      ensures mark != null && old(mark.document) == null ==> unchanged(mark)
      ensures mark != null && old(mark.document) != null ==>
        mark.gravity == old(mark.gravity) && mark.document == old(mark.document) &&
        if |paras| > 0 then mark.paragraph == paras[|paras| - 1] && mark.index == ns[|paras| - 1]
        else mark.paragraph == null && mark.index == 0
    {
      if mark == null || mark.document == null {
        return;
      }
      var last := LastParagraph();
      var n := if last == null then 0 else ParagraphLength(last);
      mark.paragraph, mark.index := last, n;
    }

    /** Puts the mark at byte `i` of the `k`th paragraph, as the move and edit operations do. */
    method PlaceMark(mark: Mark, p: Paragraph, i: int, ghost ns: seq<nat>, ghost k: nat)
      requires Valid() && HasSizes(ns) && k < |paras| && p == paras[k] && 0 <= i <= ns[k]
      modifies mark
      ensures Valid() && HasSizes(ns)
      ensures mark.paragraph == p && mark.index == i
      ensures mark.gravity == old(mark.gravity) && mark.document == old(mark.document)
    {
      mark.paragraph := p;
      mark.index := i;
    }

    /**
     * The loop of `_try_move_mark_left`: from the start of paragraph `p`,
     * `moved` characters already covered, walks back through the previous
     * paragraphs until `amount` is covered. Returns the paragraph and index
     * reached, or NULL with the distance covered when the document starts
     * first.
     */
    method CrossLeft(p: Paragraph, moved0: int, amount: int, ghost ns: seq<nat>, ghost k0: nat)
      returns (q: Paragraph?, index: int, moved: int, ghost k: nat)
      requires Valid() && HasSizes(ns) && k0 < |paras| && p == paras[k0] && 0 <= moved0 < amount
      ensures var g := LineStart(ns, k0) + moved0;
        (q == null ==> moved == g && moved < amount) &&
        (q != null ==> k < |paras| && q == paras[k] && 0 <= index <= ns[k] && LineStart(ns, k) + index == g - amount)
    {
      ghost var g := LineStart(ns, k0) + moved0;
      q, index, moved, k := p, 0, moved0, k0;
      while moved < amount
        invariant k < |paras| && q == paras[k]
        invariant moved == g - LineStart(ns, k) && moved < amount
        decreases k
      {
        IndexOfDistinct(paras, k);
        q := PreviousParagraph(q);
        if q == null {
          assert k == 0;
          break;
        }
        k := k - 1;
        LineStartNext(ns, k);
        var num := ParagraphLength(q) + 1;
        if moved + num < amount {
          moved := moved + num;
          continue;
        }
        index := num - (amount - moved);
        assert ns[k] == ParagraphLength(q);
        return;
      }
    }

    /**
     * `_try_move_mark_left`: moves the mark `amount` characters towards the
     * start of the document, each paragraph boundary counting as one. When
     * the start is reached first the shortfall is returned and
     * `MoveMarkFirst` applies; -1 reports a NULL mark or a negative amount.
     */
    method TryMoveMarkLeft(mark: Mark?, amount: int, ghost ns: seq<nat>) returns (r: int)
      requires Valid() && HasSizes(ns)
      requires mark != null ==> OnText(mark, ns) && (mark.document == null || mark.document == document)
      modifies mark
      ensures Valid() && HasSizes(ns)
      ensures mark == null || amount < 0 ==> r == -1
      ensures mark != null && amount < 0 ==> unchanged(mark)
      ensures mark != null && amount == 0 ==> r == 0 && unchanged(mark)
      ensures mark != null && 0 <= amount ==>
        var g := old(Pos(mark, ns));
        OnText(mark, ns) && mark.gravity == old(mark.gravity) && mark.document == old(mark.document) &&
        (amount <= g ==> r == 0 && Pos(mark, ns) == g - amount) &&
        (amount > g ==> (r == amount - g &&
          (old(mark.document) == null ==> unchanged(mark)) &&
          (old(mark.document) != null ==> mark.paragraph == paras[0] && mark.index == 0)))
    {
      if mark == null || amount < 0 {
        return -1;
      }
      if amount == 0 {
        return 0;
      }
      ghost var k := IndexOf(paras, mark.paragraph);
      ghost var k';
      r, k' := MoveLeftBy(mark, amount, ns, k);
      if r == 0 {
        PosAt(mark, ns, k');
      } else if old(mark.document) != null {
        PosAt(mark, ns, 0);
      }
    }

    /** The body of `_try_move_mark_left` for a positive amount, from byte `mark.index` of paragraph `k`. */
    method MoveLeftBy(mark: Mark, amount: int, ghost ns: seq<nat>, ghost k: nat) returns (r: int, ghost k': nat)
      requires Valid() && HasSizes(ns) && 0 < amount
      requires k < |paras| && mark.paragraph == paras[k] && 0 <= mark.index <= ns[k]
      requires mark.document == null || mark.document == document
      modifies mark
      ensures Valid() && HasSizes(ns)
      ensures mark.gravity == old(mark.gravity) && mark.document == old(mark.document)
      ensures var g := LineStart(ns, k) + old(mark.index);
        (amount <= g ==> r == 0 && AtOffset(mark, ns, k', g - amount)) &&
        (amount > g ==> (r == amount - g &&
          (old(mark.document) == null ==> unchanged(mark)) &&
          (old(mark.document) != null ==> mark.paragraph == paras[0] && mark.index == 0)))
    {
      var offset := mark.index;
      if offset - amount >= 0 {
        PlaceMark(mark, mark.paragraph, offset - amount, ns, k);
        return 0, k;
      }
      r, k' := MoveLeftAcross(mark, amount, ns, k);
    }

    /** `_try_move_mark_left` when the amount reaches past the start of the mark's paragraph. */
    method MoveLeftAcross(mark: Mark, amount: int, ghost ns: seq<nat>, ghost k: nat) returns (r: int, ghost k': nat)
      requires Valid() && HasSizes(ns)
      requires k < |paras| && mark.paragraph == paras[k] && 0 <= mark.index < amount && mark.index <= ns[k]
      requires mark.document == null || mark.document == document
      modifies mark
      ensures Valid() && HasSizes(ns)
      ensures mark.gravity == old(mark.gravity) && mark.document == old(mark.document)
      ensures var g := LineStart(ns, k) + old(mark.index);
        (amount <= g ==> r == 0 && AtOffset(mark, ns, k', g - amount)) &&
        (amount > g ==> (r == amount - g &&
          (old(mark.document) == null ==> unchanged(mark)) &&
          (old(mark.document) != null ==> mark.paragraph == paras[0] && mark.index == 0)))
    {
      ghost var g := LineStart(ns, k) + mark.index;
      var iter, index, moved, j := CrossLeft(mark.paragraph, mark.index, amount, ns, k);
      if iter != null {
        PlaceMark(mark, iter, index, ns, j);
        return 0, j;
      }
      MoveMarkFirst(mark, ns);
      return amount - moved, 0;
    }

    /**
     * The loop of `_try_move_mark_right`: from the end of paragraph `p`,
     * `moved` characters already covered, walks on through the following
     * paragraphs until `amount` is covered. Returns the paragraph and index
     * reached, or NULL with the distance covered when the document ends
     * first.
     */
    method CrossRight(p: Paragraph, moved0: int, amount: int, ghost ns: seq<nat>, ghost k0: nat)
      returns (q: Paragraph?, index: int, moved: int, ghost k: nat)
      requires Valid() && HasSizes(ns) && k0 < |paras| && p == paras[k0] && 0 <= moved0 < amount
      ensures var g := LineStart(ns, k0) + ns[k0] - moved0;
        (q == null ==> moved == LineStart(ns, |ns|) - 1 - g && moved < amount) &&
        (q != null ==> k < |paras| && q == paras[k] && 0 <= index <= ns[k] &&
                       LineStart(ns, k) + index == g + amount < LineStart(ns, |ns|))
    {
      ghost var g := LineStart(ns, k0) + ns[k0] - moved0;
      q, index, moved, k := p, 0, moved0, k0;
      while moved < amount
        invariant k < |paras| && q == paras[k]
        invariant moved == LineStart(ns, k) + ns[k] - g && moved < amount
        decreases |paras| - k
      {
        IndexOfDistinct(paras, k);
        q := NextParagraph(q);
        if q == null {
          assert k == |ns| - 1;
          LineStartNext(ns, k);
          break;
        }
        LineStartNext(ns, k);
        k := k + 1;
        var num := ParagraphLength(q) + 1;
        if moved + num < amount {
          moved := moved + num;
          continue;
        }
        index := (amount - moved) - 1;
        assert ns[k] == ParagraphLength(q);
        LineStartBelowEnd(ns, k, index);
        return;
      }
    }

    /**
     * `_try_move_mark_right`: moves the mark `amount` characters towards the
     * end of the document, each paragraph boundary counting as one. When the
     * end is reached first the shortfall is returned and `MoveMarkLast`
     * applies; -1 reports a NULL mark or a negative amount.
     */
    method TryMoveMarkRight(mark: Mark?, amount: int, ghost ns: seq<nat>) returns (r: int)
      requires Valid() && HasSizes(ns)
      requires mark != null ==> OnText(mark, ns) && (mark.document == null || mark.document == document)
      modifies mark
      ensures Valid() && HasSizes(ns)
      ensures mark == null || amount < 0 ==> r == -1
      ensures mark != null && amount < 0 ==> unchanged(mark)
      ensures mark != null && amount == 0 ==> r == 0 && unchanged(mark)
      ensures mark != null && 0 <= amount ==>
        var g, last := old(Pos(mark, ns)), LineStart(ns, |ns|) - 1;
        OnText(mark, ns) && mark.gravity == old(mark.gravity) && mark.document == old(mark.document) &&
        (g + amount <= last ==> r == 0 && Pos(mark, ns) == g + amount) &&
        (g + amount > last ==> (r == g + amount - last &&
          (old(mark.document) == null ==> unchanged(mark)) &&
          (old(mark.document) != null ==> Pos(mark, ns) == last)))
    {
      if mark == null || amount < 0 {
        return -1;
      }
      if amount == 0 {
        LineStartBelowEnd(ns, IndexOf(paras, mark.paragraph), mark.index);
        return 0;
      }
      ghost var k := IndexOf(paras, mark.paragraph);
      ghost var k';
      r, k' := MoveRightBy(mark, amount, ns, k);
      if r == 0 || old(mark.document) != null {
        PosAt(mark, ns, k');
      }
    }

    /** The body of `_try_move_mark_right` for a positive amount, from byte `mark.index` of paragraph `k`. */
    method MoveRightBy(mark: Mark, amount: int, ghost ns: seq<nat>, ghost k: nat) returns (r: int, ghost k': nat)
      requires Valid() && HasSizes(ns) && 0 < amount
      requires k < |paras| && mark.paragraph == paras[k] && 0 <= mark.index <= ns[k]
      requires mark.document == null || mark.document == document
      modifies mark
      ensures Valid() && HasSizes(ns)
      ensures mark.gravity == old(mark.gravity) && mark.document == old(mark.document)
      ensures var g, last := LineStart(ns, k) + old(mark.index), LineStart(ns, |ns|) - 1;
        (g + amount <= last ==> r == 0 && AtOffset(mark, ns, k', g + amount)) &&
        (g + amount > last ==> (r == g + amount - last &&
          (old(mark.document) == null ==> unchanged(mark)) &&
          (old(mark.document) != null ==> AtOffset(mark, ns, k', last))))
    {
      var offset := mark.index;
      var lastIndex := ParagraphLength(mark.paragraph);
      if offset + amount <= lastIndex {
        LineStartBelowEnd(ns, k, offset + amount);
        PlaceMark(mark, mark.paragraph, offset + amount, ns, k);
        return 0, k;
      }
      r, k' := MoveRightAcross(mark, amount, lastIndex, ns, k);
    }

    /** `_try_move_mark_right` when the amount reaches past the end of the mark's paragraph. */
    method MoveRightAcross(mark: Mark, amount: int, lastIndex: int, ghost ns: seq<nat>, ghost k: nat)
      returns (r: int, ghost k': nat)
      requires Valid() && HasSizes(ns)
      requires k < |paras| && mark.paragraph == paras[k] && lastIndex == ns[k] && 0 <= mark.index <= lastIndex < mark.index + amount
      requires mark.document == null || mark.document == document
      modifies mark
      ensures Valid() && HasSizes(ns)
      ensures mark.gravity == old(mark.gravity) && mark.document == old(mark.document)
      ensures var g, last := LineStart(ns, k) + old(mark.index), LineStart(ns, |ns|) - 1;
        (g + amount <= last ==> r == 0 && AtOffset(mark, ns, k', g + amount)) &&
        (g + amount > last ==> (r == g + amount - last &&
          (old(mark.document) == null ==> unchanged(mark)) &&
          (old(mark.document) != null ==> AtOffset(mark, ns, k', last))))
    {
      ghost var g, last := LineStart(ns, k) + mark.index, LineStart(ns, |ns|) - 1;
      var iter, index, moved, j := CrossRight(mark.paragraph, lastIndex - mark.index, amount, ns, k);
      if iter != null {
        PlaceMark(mark, iter, index, ns, j);
        assert g + amount <= last;
        return 0, j;
      }
      ghost var n := |ns| - 1;
      LineStartNext(ns, n);
      MoveMarkLast(mark, ns);
      return amount - moved, n;
    }
  }
}
