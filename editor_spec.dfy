/**
 * The editor of the C engine (`src/editor/editor.c`) stated on values.
 *
 * A document is the list of its paragraph texts. `text_editor_dump_plain_text`
 * writes each paragraph followed by a newline, so a position `(k, c)` (byte
 * `c` of paragraph `k`) is the character offset `Offset(ts, k, c)` of that
 * dump, and every paragraph boundary counts as one character.
 *
 * Marks are places `(paragraph, index, gravity)`; the paragraph is an
 * identity of any type `P`, so the heap editor uses `Paragraph?` and the
 * counterexamples below use `int`. The mark loops of the editor are given
 * twice: as written (they read the index of the mark they edit at, which the
 * loop itself may have moved) and as evidently intended (a fixed index).
 */
module EditorSpec {
  import opened Optional
  import opened TextModel

  // ---------------------------------------------------------------------------
  // The plain-text dump and offsets
  // ---------------------------------------------------------------------------

  /** `text_editor_dump_plain_text`: every paragraph's text followed by a newline. */
  function Dump(ts: seq<string>): string {
    if |ts| == 0 then "" else Dump(ts[..|ts| - 1]) + ts[|ts| - 1] + "\n"
  }

  /** A mark position inside the text of paragraph `k`, end included. */
  predicate ValidPos(ts: seq<string>, k: int, c: int) {
    0 <= k < |ts| && 0 <= c <= |ts[k]|
  }

  /** The character offset of position `(k, c)` in the dump. */
  function Offset(ts: seq<string>, k: nat, c: int): int
    requires k <= |ts|
  {
    |Dump(ts[..k])| + c
  }

  lemma SliceAt<T>(x: seq<T>, y: seq<T>)
    ensures (x + y)[..|x|] == x && (x + y)[|x|..] == y
  {
  }

  lemma {:induction false} DumpAppend(a: seq<string>, b: seq<string>)
    ensures Dump(a + b) == Dump(a) + Dump(b)
    decreases |b|
  {
    if |b| == 0 {
      assert a + b == a;
    } else {
      var b' := b[..|b| - 1];
      assert (a + b)[..|a + b| - 1] == a + b';
      DumpAppend(a, b');
    }
  }

  lemma DumpOne(t: string)
    ensures Dump([t]) == t + "\n"
  {
    assert [t][..0] == [];
  }

  /** Appending a paragraph appends its text and a newline. */
  lemma DumpSnoc(a: seq<string>, x: string)
    ensures Dump(a + [x]) == Dump(a) + x + "\n"
  {
    assert (a + [x])[..|a|] == a;
  }

  /** Paragraph `k` sits in the dump between the paragraphs before and after it. */
  lemma DumpAt(ts: seq<string>, k: nat)
    requires k < |ts|
    ensures Dump(ts) == Dump(ts[..k]) + ts[k] + "\n" + Dump(ts[k + 1..])
    ensures Dump(ts[..k + 1]) == Dump(ts[..k]) + ts[k] + "\n"
  {
    DumpSplit(ts, k + 1);
    DumpPrefix(ts, k);
  }

  lemma DumpSplit(ts: seq<string>, j: nat)
    requires j <= |ts|
    ensures Dump(ts) == Dump(ts[..j]) + Dump(ts[j..])
  {
    assert ts == ts[..j] + ts[j..];
    DumpAppend(ts[..j], ts[j..]);
  }

  lemma DumpPrefix(ts: seq<string>, k: nat)
    requires k < |ts|
    ensures Dump(ts[..k + 1]) == Dump(ts[..k]) + ts[k] + "\n"
  {
    assert ts[..k + 1][..k] == ts[..k];
  }

  /** Replacing the text of paragraph `k` replaces it in the dump. */
  lemma DumpReplace(ts: seq<string>, k: nat, x: string)
    requires k < |ts|
    ensures Dump(ts[k := x]) == Dump(ts[..k]) + x + "\n" + Dump(ts[k + 1..])
  {
    var r := ts[k := x];
    assert r[..k] == ts[..k] && r[k + 1..] == ts[k + 1..];
    DumpAt(r, k);
  }

  /**
   * Every valid position names a character of the dump: the text of the
   * paragraph from `c` on, then its newline, then the later paragraphs.
   */
  lemma OffsetInDump(ts: seq<string>, k: nat, c: int)
    requires ValidPos(ts, k, c)
    ensures 0 <= Offset(ts, k, c) < |Dump(ts)|
    ensures Dump(ts)[..Offset(ts, k, c)] == Dump(ts[..k]) + ts[k][..c]
    ensures Dump(ts)[Offset(ts, k, c)..] == ts[k][c..] + "\n" + Dump(ts[k + 1..])
  {
    var A, B, t := Dump(ts[..k]), Dump(ts[k + 1..]), ts[k];
    var x, y := t[..c], t[c..];
    DumpAt(ts, k);
    assert t == x + y;
    JoinAssoc(A, x, y, B);
    SliceAt(A + x, y + "\n" + B);
  }

  /** Every valid position lies before the end of the dump. */
  lemma OffsetBelowEnd(ts: seq<string>, k: nat, c: int)
    requires ValidPos(ts, k, c)
    ensures 0 <= Offset(ts, k, c) < |Dump(ts)|
  {
    OffsetInDump(ts, k, c);
  }

  /** Positions in later paragraphs have larger offsets. */
  lemma {:induction false} OffsetOrder(ts: seq<string>, j: nat, cj: int, k: nat, ck: int)
    requires ValidPos(ts, j, cj) && ValidPos(ts, k, ck) && j < k
    ensures Offset(ts, j, cj) < Offset(ts, k, ck)
    decreases k - j
  {
    DumpAt(ts, k - 1);
    if j < k - 1 {
      OffsetOrder(ts, j, cj, k - 1, 0);
    }
  }

  // ---------------------------------------------------------------------------
  // Text edits on paragraph texts
  // ---------------------------------------------------------------------------

  /** The paragraph texts after `str` is inserted at `(k, i)`. */
  function InsertText(ts: seq<string>, k: nat, i: int, s: string): seq<string>
    requires ValidPos(ts, k, i)
  {
    ts[k := ts[k][..i] + s + ts[k][i..]]
  }

  /** Inserting at a position inserts into the dump at its offset. */
  lemma InsertTextDump(ts: seq<string>, k: nat, i: int, s: string)
    requires ValidPos(ts, k, i)
    ensures var g := Offset(ts, k, i);
      0 <= g < |Dump(ts)| && Dump(InsertText(ts, k, i, s)) == Dump(ts)[..g] + s + Dump(ts)[g..]
  {
    var A, B, t := Dump(ts[..k]), Dump(ts[k + 1..]), ts[k];
    DumpReplace(ts, k, t[..i] + s + t[i..]);
    OffsetInDump(ts, k, i);
    InsertAssoc(A, t[..i], s, t[i..], B);
  }

  lemma InsertAssoc(a: string, x: string, s: string, y: string, b: string)
    ensures a + (x + s + y) + "\n" + b == (a + x) + s + (y + "\n" + b)
  {
  }

  /** The paragraph texts after paragraph `k` is split at byte `i`. */
  function SplitText(ts: seq<string>, k: nat, i: int): seq<string>
    requires ValidPos(ts, k, i)
  {
    ts[..k] + [ts[k][..i], ts[k][i..]] + ts[k + 1..]
  }

  /** Splitting a paragraph inserts one newline into the dump at the split offset. */
  lemma SplitTextDump(ts: seq<string>, k: nat, i: int)
    requires ValidPos(ts, k, i)
    ensures var g := Offset(ts, k, i);
      0 <= g < |Dump(ts)| && Dump(SplitText(ts, k, i)) == Dump(ts)[..g] + "\n" + Dump(ts)[g..]
  {
    var t := ts[k];
    var r := SplitText(ts, k, i);
    assert r == (ts[..k] + [t[..i]]) + ([t[i..]] + ts[k + 1..]);
    DumpAppend(ts[..k] + [t[..i]], [t[i..]] + ts[k + 1..]);
    DumpAppend(ts[..k], [t[..i]]);
    DumpAppend([t[i..]], ts[k + 1..]);
    DumpOne(t[..i]);
    DumpOne(t[i..]);
    OffsetInDump(ts, k, i);
  }

  /**
   * Where the multi-paragraph deletion loop stops: `end` is the paragraph the
   * loop stopped on (`|ts|` for NULL), `remaining` is `Some(r)` when `r` bytes
   * are deleted from the front of `end` and `None` when the loop stopped on a
   * paragraph boundary.
   */
  datatype Stop = Stop(end: nat, remaining: Option<nat>)

  /**
   * The bytes deleted from the front of the paragraph the loop stopped on.
   * When the loop stops on a boundary, `remaining` is never written in the
   * C code and the mark loop reads an uninitialised local; the model reads
   * it as 0, which puts every mark of the paragraph after the deletion in
   * the "after the affected area" case.
   */
  function FrontBytes(s: Stop): nat {
    if s.remaining.Some? then s.remaining.value else 0
  }

  /**
   * The loop of `text_editor_delete_at_mark` over the paragraphs after the
   * first one: `cur` characters are deleted before paragraph `q`; a paragraph
   * that fits entirely (with its boundary) is marked for deletion, otherwise
   * the rest is deleted from its front.
   */
  function DeleteStop(ts: seq<string>, q: nat, cur: int, L: int): (s: Stop)
    requires q <= |ts| && cur <= L
    ensures q <= s.end <= |ts|
    ensures s.remaining.Some? ==> s.end < |ts| && 0 < s.remaining.value <= |ts[s.end]|
    decreases |ts| - q
  {
    if cur >= L || q == |ts| then Stop(q, None)
    else if cur + |ts[q]| + 1 <= L then DeleteStop(ts, q + 1, cur + |ts[q]| + 1, L)
    else Stop(q, Some(L - cur))
  }

  /**
   * The loop stopped at `s` has deleted exactly `L` characters from `cur`
   * on: on a boundary after the whole paragraphs `q..end`, or `r` bytes into
   * paragraph `end`, never past its last byte.
   */
  predicate StopsAt(ts: seq<string>, q: nat, cur: int, L: int, s: Stop) {
    q <= s.end <= |ts| &&
    (s.remaining.None? ==> cur + |Dump(ts[q..s.end])| == L) &&
    (s.remaining.Some? ==> s.end < |ts| && 0 < s.remaining.value <= |ts[s.end]| &&
                           cur + |Dump(ts[q..s.end])| + s.remaining.value == L)
  }

  /**
   * The loop stops exactly `L` characters in, and never runs off the end
   * while characters remain.
   */
  lemma {:induction false} DeleteStopSpec(ts: seq<string>, q: nat, cur: int, L: int)
    requires q <= |ts| && cur <= L && L - cur <= |Dump(ts[q..])|
    ensures StopsAt(ts, q, cur, L, DeleteStop(ts, q, cur, L))
    decreases |ts| - q
  {
    var s := DeleteStop(ts, q, cur, L);
    assert ts[q..q] == [];
    if cur >= L || q == |ts| {
      assert s == Stop(q, None);
    } else {
      var cur' := cur + |ts[q]| + 1;
      DumpLenCons(ts, q, |ts|);
      assert ts[q..|ts|] == ts[q..] && ts[q + 1..|ts|] == ts[q + 1..];
      if cur' <= L {
        DeleteStopSpec(ts, q + 1, cur', L);
        DeleteStopStep(ts, q, cur, L);
      } else {
        assert s == Stop(q, Some(L - cur));
      }
    }
  }

  /** A whole paragraph deleted: the stop after it is the stop from `q`. */
  lemma DeleteStopStep(ts: seq<string>, q: nat, cur: int, L: int)
    requires q < |ts| && cur < L && cur + |ts[q]| + 1 <= L
    requires StopsAt(ts, q + 1, cur + |ts[q]| + 1, L, DeleteStop(ts, q + 1, cur + |ts[q]| + 1, L))
    ensures StopsAt(ts, q, cur, L, DeleteStop(ts, q, cur, L))
  {
    var s := DeleteStop(ts, q + 1, cur + |ts[q]| + 1, L);
    assert DeleteStop(ts, q, cur, L) == s;
    DumpLenCons(ts, q, s.end);
  }

  /** The dump of paragraphs `q..e` is paragraph `q`, its newline and the rest. */
  lemma DumpLenCons(ts: seq<string>, q: nat, e: nat)
    requires q < e <= |ts|
    ensures |Dump(ts[q..e])| == |ts[q]| + 1 + |Dump(ts[q + 1..e])|
  {
    var w := ts[q..e];
    DumpAt(w, 0);
    assert w[..0] == [] && w[0] == ts[q] && w[1..] == ts[q + 1..e];
  }

  /**
   * The paragraph texts after deleting `L` characters from `(k, c)`. Within
   * the paragraph the span is cut out. Across paragraphs the first paragraph
   * keeps its prefix, the paragraphs covered whole go, and the surviving
   * suffix of the paragraph the deletion ends in is joined on; when the
   * deletion ends on the final boundary there is nothing to join.
   */
  function DeleteText(ts: seq<string>, k: nat, c: int, L: int): seq<string>
    requires ValidPos(ts, k, c) && 0 <= L
  {
    var t := ts[k];
    if c + L <= |t| then ts[k := t[..c] + t[c + L..]]
    else
      var s := DeleteStop(ts, k + 1, |t| - c + 1, L);
      if s.end < |ts| then ts[..k] + [t[..c] + ts[s.end][FrontBytes(s)..]] + ts[s.end + 1..]
      else ts[..k] + [t[..c]]
  }

  lemma DeleteWithinDump(ts: seq<string>, k: nat, c: int, L: int)
    requires ValidPos(ts, k, c) && 0 <= L && Offset(ts, k, c) + L <= |Dump(ts)| && c + L <= |ts[k]|
    ensures var g := Offset(ts, k, c);
      g + L < |Dump(ts)| && Dump(DeleteText(ts, k, c, L)) == Dump(ts)[..g] + Dump(ts)[g + L..]
  {
    var t := ts[k];
    DumpReplace(ts, k, t[..c] + t[c + L..]);
    DumpAt(ts, k);
    CutWithin(Dump(ts[..k]), t, Dump(ts[k + 1..]), c, L);
  }

  /** Cutting bytes `c..c + L` of a paragraph `t` out of a dump `a + t + "\n" + b`. */
  lemma CutWithin(a: string, t: string, b: string, c: int, L: int)
    requires 0 <= c && 0 <= L && c + L <= |t|
    ensures var d, g := a + t + "\n" + b, |a| + c;
      g + L < |d| && a + (t[..c] + t[c + L..]) + "\n" + b == d[..g] + d[g + L..]
  {
    var x, m, y := t[..c], t[c..c + L], t[c + L..];
    assert t == x + m + y;
    Regroup(a, x, m, y, b);
    Cut3(a + x, m, y + "\n" + b);
    JoinAssoc(a, x, y, b);
  }

  /** Regrouping the dump around a span `m` of paragraph text `x + m + y`. */
  lemma Regroup(a: string, x: string, m: string, y: string, b: string)
    ensures a + (x + m + y) + "\n" + b == (a + x) + m + (y + "\n" + b)
  {
  }

  /** The parts of a three-part concatenation, recovered by slicing. */
  lemma Cut3<T>(p: seq<T>, m: seq<T>, q: seq<T>)
    ensures (p + m + q)[..|p|] == p && (p + m + q)[|p| + |m|..] == q
  {
  }

  lemma JoinAssoc(a: string, x: string, y: string, b: string)
    ensures a + (x + y) + "\n" + b == (a + x) + (y + "\n" + b)
  {
  }

  lemma DeleteAcrossDump(ts: seq<string>, k: nat, c: int, L: int)
    requires ValidPos(ts, k, c) && 0 <= L && c + L > |ts[k]|
    requires Offset(ts, k, c) + L <= |Dump(ts)|
    ensures var g := Offset(ts, k, c);
      (g + L < |Dump(ts)| ==> Dump(DeleteText(ts, k, c, L)) == Dump(ts)[..g] + Dump(ts)[g + L..]) &&
      (g + L == |Dump(ts)| ==> Dump(DeleteText(ts, k, c, L)) == Dump(ts)[..g] + "\n")
  {
    var s := DeleteStop(ts, k + 1, |ts[k]| - c + 1, L);
    DeleteTextAcross(ts, k, c, L);
    if s.end < |ts| {
      DeleteJoinCase(ts, k, c, L);
    } else {
      DeleteEndCase(ts, k, c, L);
    }
  }

  /** The deletion ends inside or at the start of a later paragraph, whose rest is joined on. */
  lemma DeleteJoinCase(ts: seq<string>, k: nat, c: int, L: int)
    requires ValidPos(ts, k, c) && 0 <= L && c + L > |ts[k]|
    requires Offset(ts, k, c) + L <= |Dump(ts)|
    requires DeleteStop(ts, k + 1, |ts[k]| - c + 1, L).end < |ts|
    ensures var g := Offset(ts, k, c);
      var s := DeleteStop(ts, k + 1, |ts[k]| - c + 1, L);
      g + L < |Dump(ts)| &&
      Dump(ts[..k] + [ts[k][..c] + ts[s.end][FrontBytes(s)..]] + ts[s.end + 1..]) == Dump(ts)[..g] + Dump(ts)[g + L..]
  {
    var s := DeleteStop(ts, k + 1, |ts[k]| - c + 1, L);
    DeleteAcrossCut(ts, k, c, L);
    DeleteJoinDump(ts, k, c, L, s.end, FrontBytes(s), ts[k][c..] + "\n" + Dump(ts[k + 1..s.end]));
  }

  /** The deletion covers every later paragraph: the first one's prefix and the final newline remain. */
  lemma DeleteEndCase(ts: seq<string>, k: nat, c: int, L: int)
    requires ValidPos(ts, k, c) && 0 <= L && c + L > |ts[k]|
    requires Offset(ts, k, c) + L <= |Dump(ts)|
    requires DeleteStop(ts, k + 1, |ts[k]| - c + 1, L).end == |ts|
    ensures var g := Offset(ts, k, c);
      g + L == |Dump(ts)| && Dump(ts[..k] + [ts[k][..c]]) == Dump(ts)[..g] + "\n"
  {
    DeleteAcrossCut(ts, k, c, L);
    assert ts[|ts|..] == [];
    DumpSnoc(ts[..k], ts[k][..c]);
  }

  /**
   * Across paragraphs the dump from the start offset on is the deleted text
   * up to paragraph `end` (the rest of the first paragraph, its newline and
   * the paragraphs covered whole), then the dump from `end` on.
   */
  lemma DeleteAcrossCut(ts: seq<string>, k: nat, c: int, L: int)
    requires ValidPos(ts, k, c) && 0 <= L && c + L > |ts[k]|
    requires Offset(ts, k, c) + L <= |Dump(ts)|
    ensures var g := Offset(ts, k, c);
      var s := DeleteStop(ts, k + 1, |ts[k]| - c + 1, L);
      var gone := ts[k][c..] + "\n" + Dump(ts[k + 1..s.end]);
      k < s.end <= |ts| && |gone| + FrontBytes(s) == L && 0 <= g < |Dump(ts)| &&
      Dump(ts)[..g] == Dump(ts[..k]) + ts[k][..c] && Dump(ts)[g..] == gone + Dump(ts[s.end..]) &&
      (s.end == |ts| ==> s.remaining.None?) && (s.end < |ts| ==> FrontBytes(s) <= |ts[s.end]|)
  {
    var t := ts[k];
    var cur := |t| - c + 1;
    DumpAt(ts, k);
    DeleteStopSpec(ts, k + 1, cur, L);
    var s := DeleteStop(ts, k + 1, cur, L);
    DumpRange(ts, k + 1, s.end);
    CutAcross(Dump(ts[..k]), t, Dump(ts[k + 1..]), Dump(ts[k + 1..s.end]), Dump(ts[s.end..]), c);
  }

  /**
   * In a dump `a + t + "\n" + b` whose tail `b` is `m + r`, the part from
   * byte `c` of `t` on is the rest of `t`, its newline and `m`, then `r`.
   */
  lemma CutAcross(a: string, t: string, b: string, m: string, r: string, c: int)
    requires 0 <= c <= |t| && b == m + r
    ensures var d, g := a + t + "\n" + b, |a| + c;
      0 <= g < |d| && d[..g] == a + t[..c] && d[g..] == (t[c..] + "\n" + m) + r
  {
    var x, y := t[..c], t[c..];
    assert t == x + y;
    JoinAssoc(a, x, y, b);
    SliceAt(a + x, y + "\n" + b);
  }

  /** The deletion ends `rem` bytes into paragraph `e`, whose rest joins the first paragraph. */
  lemma DeleteJoinDump(ts: seq<string>, k: nat, c: int, L: int, e: nat, rem: nat, gone: string)
    requires ValidPos(ts, k, c) && k < e < |ts| && rem <= |ts[e]|
    requires |gone| + rem == L
    requires var g := Offset(ts, k, c);
      0 <= g <= |Dump(ts)| && Dump(ts)[..g] == Dump(ts[..k]) + ts[k][..c] &&
      Dump(ts)[g..] == gone + Dump(ts[e..])
    ensures var g := Offset(ts, k, c);
      g + L < |Dump(ts)| &&
      Dump(ts[..k] + [ts[k][..c] + ts[e][rem..]] + ts[e + 1..]) == Dump(ts)[..g] + Dump(ts)[g + L..]
  {
    DumpFrom(ts, e);
    DumpJoined(ts, k, e, ts[k][..c] + ts[e][rem..]);
    CutJoin(Dump(ts), Offset(ts, k, c), Dump(ts[..k]), ts[k][..c], gone, Dump(ts[e..]), ts[e], rem, Dump(ts[e + 1..]));
  }

  /** Replacing paragraphs `k..e` by the one text `x`. */
  lemma DumpJoined(ts: seq<string>, k: nat, e: nat, x: string)
    requires k < e < |ts|
    ensures Dump(ts[..k] + [x] + ts[e + 1..]) == Dump(ts[..k]) + x + "\n" + Dump(ts[e + 1..])
  {
    var r := ts[..k] + [x] + ts[e + 1..];
    assert r[..k] == ts[..k] && r[k] == x && r[k + 1..] == ts[e + 1..];
    DumpAt(r, k);
  }

  /**
   * In a dump `d` that reads `a + x` up to `g` and `gone + te + "\n" + b`
   * from there, cutting `gone` and the first `rem` bytes of `te` joins the
   * rest of `te` onto `x`.
   */
  lemma CutJoin(d: string, g: int, a: string, x: string, gone: string, rest: string, te: string, rem: nat, b: string)
    requires 0 <= g <= |d| && rem <= |te|
    requires d[..g] == a + x && d[g..] == gone + rest && rest == te + "\n" + b
    ensures g + |gone| + rem < |d| && a + (x + te[rem..]) + "\n" + b == d[..g] + d[g + |gone| + rem..]
  {
    var u, v := te[..rem], te[rem..];
    assert te == u + v;
    assert d[g..] == (gone + u) + (v + "\n" + b);
    SliceAt(gone + u, v + "\n" + b);
    assert d[g + |gone| + rem..] == d[g..][|gone| + rem..];
    JoinAssoc(a, x, v, b);
  }

  lemma DeleteTextAcross(ts: seq<string>, k: nat, c: int, L: int)
    requires ValidPos(ts, k, c) && 0 <= L && c + L > |ts[k]|
    ensures var s := DeleteStop(ts, k + 1, |ts[k]| - c + 1, L);
      (s.end < |ts| ==> DeleteText(ts, k, c, L) == ts[..k] + [ts[k][..c] + ts[s.end][FrontBytes(s)..]] + ts[s.end + 1..]) &&
      (s.end == |ts| ==> DeleteText(ts, k, c, L) == ts[..k] + [ts[k][..c]])
  {
  }

  /** The dump of the paragraphs from `a` on is that of `a..b` followed by that from `b` on. */
  lemma DumpRange(ts: seq<string>, a: nat, b: nat)
    requires a <= b <= |ts|
    ensures Dump(ts[a..]) == Dump(ts[a..b]) + Dump(ts[b..])
  {
    assert ts[a..] == ts[a..b] + ts[b..];
    DumpAppend(ts[a..b], ts[b..]);
  }

  lemma DumpFrom(ts: seq<string>, q: nat)
    requires q < |ts|
    ensures Dump(ts[q..]) == ts[q] + "\n" + Dump(ts[q + 1..])
  {
    var u := ts[q..];
    DumpAt(u, 0);
    assert u[..0] == [] && u[0] == ts[q] && u[1..] == ts[q + 1..];
  }

  /**
   * Deleting `L` characters deletes them from the dump. A deletion that
   * reaches the final newline (past the end of the last paragraph) leaves
   * that newline, since the last paragraph has nothing to join.
   */
  lemma DeleteTextDump(ts: seq<string>, k: nat, c: int, L: int)
    requires ValidPos(ts, k, c) && 0 <= L && Offset(ts, k, c) + L <= |Dump(ts)|
    ensures var g := Offset(ts, k, c);
      (g + L < |Dump(ts)| ==> Dump(DeleteText(ts, k, c, L)) == Dump(ts)[..g] + Dump(ts)[g + L..]) &&
      (g + L == |Dump(ts)| ==> Dump(DeleteText(ts, k, c, L)) == Dump(ts)[..g] + "\n")
  {
    if c + L <= |ts[k]| {
      DeleteWithinDump(ts, k, c, L);
    } else {
      DeleteAcrossDump(ts, k, c, L);
    }
  }

  // ---------------------------------------------------------------------------
  // Marks
  // ---------------------------------------------------------------------------

  /** The place of a mark: a paragraph, a byte index into it and a gravity. */
  datatype Place<P> = Place(paragraph: P, index: int, gravity: Gravity)

  /** `_distribute_mark`: left gravity goes to the start place, right gravity to the end place. */
  function Distribute<P>(m: Place<P>, sp: P, si: int, ep: P, ei: int): Place<P> {
    if m.gravity == Left then m.(paragraph := sp, index := si) else m.(paragraph := ep, index := ei)
  }

  /**
   * One turn of the mark loop of `text_editor_insert_text_at_mark` for `n`
   * bytes inserted at `(p, i)`: a mark on the point is distributed by its
   * gravity, a later mark of the paragraph shifts by `n`.
   */
  function InsertedPlace<P(==)>(m: Place<P>, p: P, i: int, n: int): Place<P> {
    if m.paragraph == p && m.index == i then Distribute(m, p, i, p, i + n)
    else if m.paragraph == p && m.index > i then m.(index := m.index + n)
    else m
  }

  /** The marks after an insertion, every one compared with the insertion point. */
  function InsertMarks<P(==)>(ms: seq<Place<P>>, p: P, i: int, n: int): (r: seq<Place<P>>)
    ensures |r| == |ms|
  {
    seq(|ms|, j requires 0 <= j < |ms| => InsertedPlace(ms[j], p, i, n))
  }

  /**
   * The mark loop as written: it compares every mark with `start->index`,
   * and `start` is itself one of the marks (`isStart` flags it), so once the
   * loop has moved it the later marks are compared with its new index. The
   * second component is that live index after the loop.
   */
  function InsertMarksAsWritten<P(==)>(ms: seq<Place<P>>, isStart: seq<bool>, p: P, i: int, n: int)
    : (r: (seq<Place<P>>, int))
    requires |isStart| == |ms|
    ensures |r.0| == |ms|
    decreases |ms|
  {
    if |ms| == 0 then ([], i)
    else
      var last := |ms| - 1;
      var before := InsertMarksAsWritten(ms[..last], isStart[..last], p, i, n);
      var m := InsertedPlace(ms[last], p, before.1, n);
      (before.0 + [m], if isStart[last] then m.index else before.1)
  }

  /**
   * The loop as written agrees with the intended mapping whenever visiting
   * the start mark leaves it where it is: it has left gravity, or nothing is
   * inserted.
   */
  lemma {:induction false} InsertMarksAgree<P>(ms: seq<Place<P>>, isStart: seq<bool>, p: P, i: int, n: int)
    requires |isStart| == |ms|
    requires forall j :: 0 <= j < |ms| && isStart[j] ==>
      ms[j].paragraph == p && ms[j].index == i && (ms[j].gravity == Left || n == 0)
    ensures InsertMarksAsWritten(ms, isStart, p, i, n) == (InsertMarks(ms, p, i, n), i)
    decreases |ms|
  {
    if |ms| > 0 {
      var last := |ms| - 1;
      InsertMarksAgree(ms[..last], isStart[..last], p, i, n);
      assert InsertMarks(ms, p, i, n) == InsertMarks(ms[..last], p, i, n) + [InsertedPlace(ms[last], p, i, n)];
    }
  }

  /**
   * Turn `j` of the loop as written: mark `j` is compared with the live
   * index the first `j` turns left, and the live index after turn `j`.
   */
  lemma {:induction false} InsertMarksStep<P>(ms: seq<Place<P>>, isStart: seq<bool>, p: P, i: int, n: int, j: nat)
    requires |isStart| == |ms| && j < |ms|
    ensures var live := InsertMarksAsWritten(ms[..j], isStart[..j], p, i, n).1;
      var m := InsertMarksAsWritten(ms, isStart, p, i, n).0[j];
      m == InsertedPlace(ms[j], p, live, n) &&
      InsertMarksAsWritten(ms[..j + 1], isStart[..j + 1], p, i, n).1 == (if isStart[j] then m.index else live)
    decreases |ms|
  {
    var last := |ms| - 1;
    assert ms[..j + 1][..j] == ms[..j] && isStart[..j + 1][..j] == isStart[..j];
    if j < last {
      InsertMarksStep(ms[..last], isStart[..last], p, i, n, j);
      assert ms[..last][..j] == ms[..j] && isStart[..last][..j] == isStart[..j];
      assert ms[..last][..j + 1] == ms[..j + 1] && isStart[..last][..j + 1] == isStart[..j + 1];
    } else {
      assert ms[..j + 1] == ms && isStart[..j + 1] == isStart;
    }
  }

  /**
   * What the insertion mapping means: a mark before the point (or on it
   * with left gravity) keeps the text before it; a mark after the point (or
   * on it with right gravity) keeps the text after it.
   */
  lemma InsertKeepsNeighbours<P>(t: string, s: string, m: Place<P>, p: P, i: int)
    requires m.paragraph == p && 0 <= i <= |t| && 0 <= m.index <= |t|
    ensures var r := InsertedPlace(m, p, i, |s|);
      var u := t[..i] + s + t[i..];
      r.paragraph == p && r.gravity == m.gravity && 0 <= r.index <= |u| &&
      ((m.index < i || (m.index == i && m.gravity == Left)) ==>
        r.index == m.index && u[..r.index] == t[..m.index]) &&
      ((m.index > i || (m.index == i && m.gravity == Right)) ==>
        r.index == m.index + |s| && u[r.index..] == t[m.index..])
  {
    var u := t[..i] + s + t[i..];
    var x := m.index;
    if x < i {
      assert u[..x] == t[..i][..x];
    } else if x > i {
      assert u[x + |s|..] == t[i..][x - i..];
    } else if m.gravity == Right {
      assert u[x + |s|..] == t[i..];
    }
  }

  /**
   * Inserting "ab" at the start of a paragraph reading "x" with the
   * right-gravity cursor as the start mark: the selection at index 1 (after
   * the "x") is compared with the cursor's new index 2 and left at 1, inside
   * the inserted text, where the intended mapping moves it to 3.
   */
  lemma InsertCursorSkipsSelection()
    ensures var ms := [Place(0, 0, Right), Place(0, 1, Left)];
      InsertMarksAsWritten(ms, [true, false], 0, 0, 2).0 == [Place(0, 2, Right), Place(0, 1, Left)] &&
      InsertMarks(ms, 0, 0, 2) == [Place(0, 2, Right), Place(0, 3, Left)]
  {
    var ms := [Place(0, 0, Right), Place(0, 1, Left)];
    assert ms[..1] == [Place(0, 0, Right)] && [true, false][..1] == [true];
    assert [Place(0, 0, Right)][..0] == [] && [true][..0] == [];
  }

  /**
   * One turn of the mark loop of `text_editor_split_at_mark` when paragraph
   * `cur` is split at `i` into `cur` and `next`: a mark on the split point is
   * distributed by gravity to `(cur, i)` or `(next, 0)`, a later mark moves
   * into `next`, `i` bytes further left.
   */
  function SplitPlace<P(==)>(m: Place<P>, cur: P, next: P, i: int): Place<P> {
    if m.paragraph == cur && m.index == i then Distribute(m, cur, i, next, 0)
    else if m.paragraph == cur && m.index > i then m.(paragraph := next, index := m.index - i)
    else m
  }

  function SplitMarks<P(==)>(ms: seq<Place<P>>, cur: P, next: P, i: int): (r: seq<Place<P>>)
    ensures |r| == |ms|
  {
    seq(|ms|, j requires 0 <= j < |ms| => SplitPlace(ms[j], cur, next, i))
  }

  /** The split loop as written: it compares with the live `split->index`. */
  function SplitMarksAsWritten<P(==)>(ms: seq<Place<P>>, isStart: seq<bool>, cur: P, next: P, i: int)
    : (r: (seq<Place<P>>, int))
    requires |isStart| == |ms|
    ensures |r.0| == |ms|
    decreases |ms|
  {
    if |ms| == 0 then ([], i)
    else
      var last := |ms| - 1;
      var before := SplitMarksAsWritten(ms[..last], isStart[..last], cur, next, i);
      var m := SplitPlace(ms[last], cur, next, before.1);
      (before.0 + [m], if isStart[last] then m.index else before.1)
  }

  /** As written and intended agree when the split mark keeps its index: left gravity, or a split at 0. */
  lemma {:induction false} SplitMarksAgree<P>(ms: seq<Place<P>>, isStart: seq<bool>, cur: P, next: P, i: int)
    requires |isStart| == |ms|
    requires forall j :: 0 <= j < |ms| && isStart[j] ==>
      ms[j].paragraph == cur && ms[j].index == i && (ms[j].gravity == Left || i == 0)
    ensures SplitMarksAsWritten(ms, isStart, cur, next, i) == (SplitMarks(ms, cur, next, i), i)
    decreases |ms|
  {
    if |ms| > 0 {
      var last := |ms| - 1;
      SplitMarksAgree(ms[..last], isStart[..last], cur, next, i);
      assert SplitMarks(ms, cur, next, i) == SplitMarks(ms[..last], cur, next, i) + [SplitPlace(ms[last], cur, next, i)];
    }
  }

  /** Turn `j` of the split loop as written, as `InsertMarksStep` for insertion. */
  lemma {:induction false} SplitMarksStep<P>(ms: seq<Place<P>>, isStart: seq<bool>, cur: P, next: P, i: int, j: nat)
    requires |isStart| == |ms| && j < |ms|
    ensures var live := SplitMarksAsWritten(ms[..j], isStart[..j], cur, next, i).1;
      var m := SplitMarksAsWritten(ms, isStart, cur, next, i).0[j];
      m == SplitPlace(ms[j], cur, next, live) &&
      SplitMarksAsWritten(ms[..j + 1], isStart[..j + 1], cur, next, i).1 == (if isStart[j] then m.index else live)
    decreases |ms|
  {
    var last := |ms| - 1;
    assert ms[..j + 1][..j] == ms[..j] && isStart[..j + 1][..j] == isStart[..j];
    if j < last {
      SplitMarksStep(ms[..last], isStart[..last], cur, next, i, j);
      assert ms[..last][..j] == ms[..j] && isStart[..last][..j] == isStart[..j];
      assert ms[..last][..j + 1] == ms[..j + 1] && isStart[..last][..j + 1] == isStart[..j + 1];
    } else {
      assert ms[..j + 1] == ms && isStart[..j + 1] == isStart;
    }
  }

  /**
   * What the split mapping means: a mark that stays in `cur` keeps the text
   * before it, a mark that moves to `next` keeps the text after it.
   */
  lemma SplitKeepsNeighbours<P>(t: string, m: Place<P>, cur: P, next: P, i: int)
    requires cur != next && m.paragraph == cur && 0 <= i <= |t| && 0 <= m.index <= |t|
    ensures var r := SplitPlace(m, cur, next, i);
      r.gravity == m.gravity &&
      ((m.index < i || (m.index == i && m.gravity == Left)) ==>
        r.paragraph == cur && r.index == m.index && r.index <= |t[..i]| && t[..i][..r.index] == t[..m.index]) &&
      ((m.index > i || (m.index == i && m.gravity == Right)) ==>
        r.paragraph == next && 0 <= r.index <= |t[i..]| && t[i..][r.index..] == t[m.index..])
  {
  }

  /**
   * Splitting "abc" at 2 with the right-gravity cursor as the split mark: the
   * cursor goes to `(next, 0)`, the split index read afterwards is 0, and the
   * selection at `(cur, 1)` is moved to `(next, 1)`, past the "c", where the
   * intended mapping leaves it at `(cur, 1)`.
   */
  lemma SplitCursorMovesSelection()
    ensures var ms := [Place(0, 2, Right), Place(0, 1, Left)];
      SplitMarksAsWritten(ms, [true, false], 0, 1, 2).0 == [Place(1, 0, Right), Place(1, 1, Left)] &&
      SplitMarks(ms, 0, 1, 2) == [Place(1, 0, Right), Place(0, 1, Left)]
  {
    var ms := [Place(0, 2, Right), Place(0, 1, Left)];
    assert ms[..1] == [Place(0, 2, Right)] && [true, false][..1] == [true];
    assert [Place(0, 2, Right)][..0] == [] && [true][..0] == [];
  }

  /**
   * One turn of the mark loop of a deletion within paragraph `p`: marks in
   * `[c, c + b]` collapse onto `(p, c)`, later marks of the paragraph shift
   * left by the `b` bytes deleted.
   */
  function DeletedPlace<P(==)>(m: Place<P>, p: P, c: int, b: int): Place<P> {
    if m.paragraph == p && c <= m.index <= c + b then Distribute(m, p, c, p, c)
    else if m.paragraph == p && c + b < m.index then m.(index := m.index - b)
    else m
  }

  /**
   * The marks after a deletion of `b` bytes within paragraph `p` from `c`.
   * For a deletion of length 0, `_delete_within_paragraph` returns before
   * writing `bytes_deleted` and the C loop reads an uninitialised local;
   * the model takes `b` = 0 there.
   */
  function DeleteMarks<P(==)>(ms: seq<Place<P>>, p: P, c: int, b: int): (r: seq<Place<P>>)
    ensures |r| == |ms|
  {
    seq(|ms|, j requires 0 <= j < |ms| => DeletedPlace(ms[j], p, c, b))
  }

  /** What the mapping means: marks before the span keep the text before them, marks after it the text after them. */
  lemma DeleteKeepsNeighbours<P>(t: string, m: Place<P>, p: P, c: int, b: int)
    requires m.paragraph == p && 0 <= c && 0 <= b && c + b <= |t| && 0 <= m.index <= |t|
    ensures var r := DeletedPlace(m, p, c, b);
      var u := t[..c] + t[c + b..];
      r.paragraph == p && r.gravity == m.gravity && 0 <= r.index <= |u| &&
      (m.index < c ==> r.index == m.index && u[..r.index] == t[..m.index]) &&
      (c <= m.index <= c + b ==> r.index == c) &&
      (m.index > c + b ==> r.index == m.index - b && u[r.index..] == t[m.index..])
  {
    var u := t[..c] + t[c + b..];
    if m.index < c {
      assert u[..m.index] == t[..c][..m.index];
    } else if m.index > c + b {
      assert u[m.index - b..] == t[c + b..][m.index - c - b..];
    }
  }

  /**
   * One turn of the mark loop of a deletion across paragraphs, from `(p, c)`
   * to `remaining` bytes into `end` (when the loop stopped on a paragraph),
   * with `dirty` the paragraphs covered whole. Marks in the deleted range
   * collapse onto `(p, c)`; marks of `end` after it move into `p`, shifted by
   * `shift`, since `end` is joined onto `p`.
   */
  function JoinedPlace<P(==)>(m: Place<P>, p: P, c: int, dirty: seq<P>, end: Option<P>, remaining: int, shift: int)
    : Place<P>
  {
    if (m.paragraph == p && c <= m.index) || m.paragraph in dirty ||
       (end.Some? && m.paragraph == end.value && m.index <= remaining)
    then Distribute(m, p, c, p, c)
    else if end.Some? && m.paragraph == end.value && remaining < m.index
    then m.(paragraph := p, index := m.index + shift)
    else m
  }

  /** The paragraph the loop stopped on, if it is not past the last one. */
  function EndParagraph<P>(ps: seq<P>, s: Stop): Option<P> {
    if s.end < |ps| then Some(ps[s.end]) else None
  }

  /**
   * The marks after a deletion across paragraphs `ps` starting at
   * `(ps[k], c)` that stopped at `s`, with the given shift for the marks
   * that move from the end paragraph into `ps[k]`.
   */
  function JoinMarks<P(==)>(ms: seq<Place<P>>, ps: seq<P>, k: nat, c: int, s: Stop, shift: int)
    : (r: seq<Place<P>>)
    requires k < s.end <= |ps|
    ensures |r| == |ms|
  {
    seq(|ms|, j requires 0 <= j < |ms| =>
      JoinedPlace(ms[j], ps[k], c, ps[k + 1..s.end], EndParagraph(ps, s), FrontBytes(s), shift))
  }

  /**
   * The shift as written: the first paragraph's new size (`c`) minus the
   * `bytes_deleted` last written, which is the front of the end paragraph
   * when one was cut and otherwise what was cut from the first paragraph.
   * When nothing was cut from the first paragraph either (`c` at its end),
   * `_delete_within_paragraph` returns before writing `bytes_deleted`, and
   * the C code reads an uninitialised local; the model reads it as 0.
   */
  function JoinShiftAsWritten(ts: seq<string>, k: nat, c: int, s: Stop): int
    requires k < |ts|
  {
    c - (if s.remaining.Some? then s.remaining.value else |ts[k]| - c)
  }

  /** The intended shift: the end paragraph's surviving text starts at `c` in the joined paragraph. */
  function JoinShift(c: int, s: Stop): int {
    c - FrontBytes(s)
  }

  /** The two shifts differ only when the loop stopped on a boundary after cutting a nonempty tail. */
  lemma JoinShiftAgree(ts: seq<string>, k: nat, c: int, s: Stop)
    requires ValidPos(ts, k, c)
    ensures JoinShiftAsWritten(ts, k, c, s) == JoinShift(c, s) <==> (s.remaining.Some? || c == |ts[k]|)
  {
  }

  /**
   * What the intended mapping means: no mark is left in a paragraph that is
   * removed; a mark before the start keeps the text before it; a mark of the
   * end paragraph after the cut keeps the text after it in the joined
   * paragraph.
   */
  lemma JoinKeepsNeighbours<P>(ts: seq<string>, ps: seq<P>, k: nat, c: int, s: Stop, m: Place<P>)
    requires |ps| == |ts| && ValidPos(ts, k, c) && k < s.end <= |ts|
    requires forall a, b :: 0 <= a < b < |ps| ==> ps[a] != ps[b]
    requires s.end < |ts| ==> FrontBytes(s) <= |ts[s.end]|
    requires s.end == |ts| ==> s.remaining.None?
    ensures var r := JoinedPlace(m, ps[k], c, ps[k + 1..s.end], EndParagraph(ps, s), FrontBytes(s), JoinShift(c, s));
      r.paragraph !in ps[k + 1..s.end] && (s.end < |ps| ==> r.paragraph != ps[s.end]) &&
      (m.paragraph == ps[k] && 0 <= m.index < c ==> r == m) &&
      (s.end < |ts| && m.paragraph == ps[s.end] && FrontBytes(s) < m.index <= |ts[s.end]| ==>
        var e, rem := ts[s.end], FrontBytes(s);
        var u := ts[k][..c] + e[rem..];
        r.paragraph == ps[k] && 0 <= r.index <= |u| && u[r.index..] == e[m.index..])
  {
    var e := s.end;
    if m.paragraph == ps[k] {
      assert m.paragraph !in ps[k + 1..e];
    }
    if e < |ts| && m.paragraph == ps[e] && FrontBytes(s) < m.index <= |ts[e]| {
      assert m.paragraph !in ps[k + 1..e];
      var u := ts[k][..c] + ts[e][FrontBytes(s)..];
      assert u[m.index + c - FrontBytes(s)..] == ts[e][FrontBytes(s)..][m.index - FrontBytes(s)..];
    }
  }

  /**
   * Deleting 2 characters from `(0, 1)` in "ab" / "cd" removes "b" and the
   * boundary and joins "cd" on: the text becomes "acd". The loop stops on the
   * boundary, so `bytes_deleted` still holds the 1 byte cut from "ab" and
   * the mark before the "d" moves to `(0, 1)`, before the "c"; the intended
   * place is `(0, 2)`.
   */
  lemma JoinShiftCounterexample()
    ensures var ts := ["ab", "cd"];
      var s := DeleteStop(ts, 1, 2, 2);
      var ms := [Place(1, 1, Left)];
      s == Stop(1, None) && DeleteText(ts, 0, 1, 2) == ["acd"] &&
      JoinMarks(ms, [0, 1], 0, 1, s, JoinShiftAsWritten(ts, 0, 1, s)) == [Place(0, 1, Left)] &&
      JoinMarks(ms, [0, 1], 0, 1, s, JoinShift(1, s)) == [Place(0, 2, Left)] &&
      "acd"[2..] == "cd"[1..]
  {
    var ts := ["ab", "cd"];
    var s := DeleteStop(ts, 1, 2, 2);
    assert s == Stop(1, None);
    assert DeleteText(ts, 0, 1, 2) == ["acd"] by {
      DeleteTextAcross(ts, 0, 1, 2);
      assert ts[..0] == [] && ts[2..] == [];
      assert ts[0][..1] + ts[1][0..] == "acd";
    }
    assert FrontBytes(s) == 0;
    assert [0, 1][1..1] == [];
    assert JoinMarks([Place(1, 1, Left)], [0, 1], 0, 1, s, JoinShiftAsWritten(ts, 0, 1, s)) == [Place(0, 1, Left)];
    assert JoinMarks([Place(1, 1, Left)], [0, 1], 0, 1, s, JoinShift(1, s)) == [Place(0, 2, Left)];
  }

  // ---------------------------------------------------------------------------
  // Offsets of neighbouring positions, and deletion keeping what precedes it
  // ---------------------------------------------------------------------------

  /** The first position of paragraph `k + 1` is one character (the boundary) after the last of `k`. */
  lemma OffsetNext(ts: seq<string>, k: nat)
    requires k + 1 < |ts|
    ensures Offset(ts, k + 1, 0) == Offset(ts, k, |ts[k]|) + 1
  {
    DumpAt(ts, k);
  }

  /** The last position of the last paragraph is the dump's final newline. */
  lemma OffsetLast(ts: seq<string>)
    requires |ts| > 0
    ensures Offset(ts, |ts| - 1, |ts[|ts| - 1]|) == |Dump(ts)| - 1
  {
  }

  lemma OffsetFirst(ts: seq<string>, c: int)
    requires |ts| > 0
    ensures Offset(ts, 0, c) == c
  {
    assert ts[..0] == [];
  }

  // ---------------------------------------------------------------------------
  // Offsets from paragraph sizes
  // ---------------------------------------------------------------------------

  /** The sizes in bytes of the paragraphs `ts`. */
  function Sizes(ts: seq<string>): (ns: seq<nat>)
    ensures |ns| == |ts| && forall i :: 0 <= i < |ts| ==> ns[i] == |ts[i]|
  {
    seq(|ts|, i requires 0 <= i < |ts| => |ts[i]|)
  }

  /**
   * Where paragraph `k` starts when paragraphs of sizes `ns` are laid end to
   * end, each followed by one boundary character: the sum the move
   * operations add up as they walk from paragraph to paragraph.
   */
  function LineStart(ns: seq<nat>, k: nat): nat
    requires k <= |ns|
  {
    if k == 0 then 0 else LineStart(ns, k - 1) + ns[k - 1] + 1
  }

  /** Paragraph `k + 1` starts after paragraph `k` and its boundary. */
  lemma LineStartNext(ns: seq<nat>, k: nat)
    requires k < |ns|
    ensures LineStart(ns, k + 1) == LineStart(ns, k) + ns[k] + 1
  {
  }

  /** Paragraph `k` starts at offset `LineStart` of the sizes in the plain-text dump. */
  lemma {:induction false} LineStartIsOffset(ts: seq<string>, k: nat)
    requires k <= |ts|
    ensures LineStart(Sizes(ts), k) == Offset(ts, k, 0)
  {
    if k > 0 {
      LineStartIsOffset(ts, k - 1);
      assert ts[..k][..k - 1] == ts[..k - 1];
    }
  }

  /** The dump is as long as the sizes and boundaries together. */
  lemma DumpSize(ts: seq<string>)
    ensures LineStart(Sizes(ts), |ts|) == |Dump(ts)|
  {
    LineStartIsOffset(ts, |ts|);
    assert ts[..|ts|] == ts;
  }

  /** Every position of a paragraph, its end included, comes before the end of the last boundary. */
  lemma {:induction false} LineStartBelowEnd(ns: seq<nat>, k: nat, c: int)
    requires k < |ns| && 0 <= c <= ns[k]
    ensures LineStart(ns, k) + c < LineStart(ns, |ns|)
    decreases |ns| - k
  {
    if k + 1 < |ns| {
      LineStartBelowEnd(ns, k + 1, 0);
    }
  }

  /** A deletion from `(k, c)` keeps the paragraphs before `k` and the first `c` bytes of `k`. */
  lemma DeleteTextKeepsBefore(ts: seq<string>, k: nat, c: int, L: int)
    requires ValidPos(ts, k, c) && 0 <= L
    ensures var r := DeleteText(ts, k, c, L);
      ValidPos(r, k, c) && r[..k] == ts[..k] && r[k][..c] == ts[k][..c] &&
      Offset(r, k, c) == Offset(ts, k, c)
  {
    var r := DeleteText(ts, k, c, L);
    if c + L > |ts[k]| {
      DeleteTextAcross(ts, k, c, L);
    }
    assert r[..k] == ts[..k];
  }

  /**
   * A backward deletion at `(k, c)` of more characters than precede it, as
   * written with `text_mark_new` as in mark.c, which leaves the cursor
   * without a document: the cursor's move to the document start is skipped,
   * so the characters it could move over are deleted forward from where it
   * stands. Where marks carry their document (mark.h), the move happens and
   * the result is `BackspacePastStart`.
   */
  function BackspacePastStartAsWritten(ts: seq<string>, k: nat, c: int): seq<string>
    requires ValidPos(ts, k, c)
  {
    DeleteText(ts, k, c, Offset(ts, k, c))
  }

  /** The intended backward deletion past the start: everything before the cursor goes. */
  function BackspacePastStart(ts: seq<string>, k: nat, c: int): seq<string>
    requires ValidPos(ts, k, c)
  {
    DeleteText(ts, 0, 0, Offset(ts, k, c))
  }

  /** The intended deletion leaves exactly the dump from the cursor on. */
  lemma BackspacePastStartDump(ts: seq<string>, k: nat, c: int)
    requires ValidPos(ts, k, c)
    ensures Offset(ts, k, c) < |Dump(ts)| && Dump(BackspacePastStart(ts, k, c)) == Dump(ts)[Offset(ts, k, c)..]
  {
    var g := Offset(ts, k, c);
    OffsetInDump(ts, k, c);
    OffsetFirst(ts, 0);
    DeleteTextDump(ts, 0, 0, g);
  }

  /**
   * With the cursor after "abc" in "abcdefghij", deleting 5 characters
   * backwards can move over only 3: as written "def" goes, where the
   * intended result (the one the editor's own tests expect) is "defghij".
   */
  lemma BackspaceCounterexample()
    ensures BackspacePastStartAsWritten(["abcdefghij"], 0, 3) == ["abcghij"]
    ensures BackspacePastStart(["abcdefghij"], 0, 3) == ["defghij"]
    ensures BackspaceAsWritten(["abcdefghij"], 0, 3, 5) == ["abcghij"]
    ensures Backspace(["abcdefghij"], 0, 3, 5) == ["defghij"]
  {
    var ts := ["abcdefghij"];
    OffsetFirst(ts, 3);
    BackspacePastStartIsBackspace(ts, 0, 3, 5);
    assert ts[0][..3] + ts[0][6..] == "abcghij";
    assert ts[0][..0] + ts[0][3..] == "defghij";
  }

  // ---------------------------------------------------------------------------
  // Ordering two marks, the length between them, and replacing a range
  // ---------------------------------------------------------------------------

  /** A position in the paragraph texts: byte `index` of paragraph `para`. */
  datatype Pos = Pos(para: nat, index: int)

  predicate Valid(ts: seq<string>, p: Pos) {
    ValidPos(ts, p.para, p.index)
  }

  /**
   * `_ensure_ordered` in a frame of paragraphs: two positions in one
   * paragraph are in order when the first index is strictly smaller; in two
   * paragraphs, when the first paragraph comes first among the frame's
   * children (what `_relate_nodes` finds). Positions out of order are
   * swapped.
   */
  function EnsureOrdered(a: Pos, b: Pos): (Pos, Pos) {
    var inOrder := if a.para == b.para then a.index < b.index else a.para < b.para;
    if inOrder then (a, b) else (b, a)
  }

  /** Two distinct valid positions have distinct offsets. */
  lemma OffsetInjective(ts: seq<string>, a: Pos, b: Pos)
    requires Valid(ts, a) && Valid(ts, b) && Offset(ts, a.para, a.index) == Offset(ts, b.para, b.index)
    ensures a == b
  {
    if a.para < b.para {
      OffsetOrder(ts, a.para, a.index, b.para, b.index);
    } else if b.para < a.para {
      OffsetOrder(ts, b.para, b.index, a.para, a.index);
    }
  }

  /**
   * `_ensure_ordered` returns the same two positions with the earlier one in
   * the dump first: as given when they are in order, swapped when not.
   */
  lemma EnsureOrderedSpec(ts: seq<string>, a: Pos, b: Pos)
    requires Valid(ts, a) && Valid(ts, b)
    ensures var r := EnsureOrdered(a, b);
      (r == (a, b) || r == (b, a)) && Offset(ts, r.0.para, r.0.index) <= Offset(ts, r.1.para, r.1.index)
    ensures Offset(ts, a.para, a.index) < Offset(ts, b.para, b.index) ==> EnsureOrdered(a, b) == (a, b)
    ensures Offset(ts, a.para, a.index) > Offset(ts, b.para, b.index) ==> EnsureOrdered(a, b) == (b, a)
  {
    if a.para < b.para {
      OffsetOrder(ts, a.para, a.index, b.para, b.index);
    } else if b.para < a.para {
      OffsetOrder(ts, b.para, b.index, a.para, a.index);
    }
  }

  /** Paragraph `k + 1` starts one boundary after the end of paragraph `k`, the last one included. */
  lemma OffsetStep(ts: seq<string>, k: nat)
    requires k < |ts|
    ensures Offset(ts, k + 1, 0) == Offset(ts, k, 0) + |ts[k]| + 1
  {
    assert ts[..k + 1][..k] == ts[..k];
  }

  /**
   * `_length_between_marks`: the characters from `s` to `e`. In one paragraph
   * the difference of the indices; otherwise the rest of `s`'s paragraph and
   * its boundary, then each following paragraph and its boundary until the
   * walk reaches `e`'s paragraph, where it adds `e`'s index. When `e` is in an
   * earlier paragraph the walk never meets it and counts to the end of the
   * document.
   */
  method LengthBetweenMarks(ts: seq<string>, s: Pos, e: Pos) returns (length: int)
    requires Valid(ts, s) && Valid(ts, e)
    ensures s.para <= e.para ==> length == Offset(ts, e.para, e.index) - Offset(ts, s.para, s.index)
    ensures s.para > e.para ==> length == |Dump(ts)| - Offset(ts, s.para, s.index)
  {
    if s.para == e.para {
      return e.index - s.index;
    }
    var iter := s.para;
    length := |ts[iter]| + 1 - s.index;
    OffsetStep(ts, iter);
    iter := iter + 1;
    while iter < |ts|
      invariant s.para < iter <= |ts|
      invariant s.para < e.para ==> iter <= e.para
      invariant length == Offset(ts, iter, 0) - Offset(ts, s.para, s.index)
      decreases |ts| - iter
    {
      if iter == e.para {
        length := length + e.index;
        return;
      }
      length := length + |ts[iter]| + 1;
      OffsetStep(ts, iter);
      iter := iter + 1;
    }
    assert ts[..|ts|] == ts;
  }

  /**
   * `text_editor_replace_at_mark`: order the marks, delete the characters
   * between them from the first, and insert `str` where the first stands
   * (a deletion leaves the mark it starts at in place).
   */
  function ReplaceText(ts: seq<string>, a: Pos, b: Pos, str: string): seq<string>
    requires Valid(ts, a) && Valid(ts, b)
  {
    var (st, en) := EnsureOrdered(a, b);
    EnsureOrderedSpec(ts, a, b);
    var L := Offset(ts, en.para, en.index) - Offset(ts, st.para, st.index);
    DeleteTextKeepsBefore(ts, st.para, st.index, L);
    InsertText(DeleteText(ts, st.para, st.index, L), st.para, st.index, str)
  }

  /**
   * Replacing swaps the characters between the marks for `str` in the dump;
   * `ReplaceTextSymmetric` covers marks given the other way round.
   */
  lemma ReplaceTextDump(ts: seq<string>, a: Pos, b: Pos, str: string)
    requires Valid(ts, a) && Valid(ts, b) && Offset(ts, a.para, a.index) <= Offset(ts, b.para, b.index)
    ensures Offset(ts, b.para, b.index) < |Dump(ts)|
    ensures Dump(ReplaceText(ts, a, b, str)) ==
      Dump(ts)[..Offset(ts, a.para, a.index)] + str + Dump(ts)[Offset(ts, b.para, b.index)..]
  {
    ReplaceTextUnfolded(ts, a, b, str);
    ReplaceOrderedDump(ts, a, b, str);
  }

  /** Deleting from `st` to `en`, the later one, and inserting `str` at `st` swaps that span for `str` in the dump. */
  lemma ReplaceOrderedDump(ts: seq<string>, st: Pos, en: Pos, str: string)
    requires Valid(ts, st) && Valid(ts, en) && Offset(ts, st.para, st.index) <= Offset(ts, en.para, en.index)
    ensures var lo, hi := Offset(ts, st.para, st.index), Offset(ts, en.para, en.index);
      hi < |Dump(ts)| && ValidPos(DeleteText(ts, st.para, st.index, hi - lo), st.para, st.index) &&
      Dump(InsertText(DeleteText(ts, st.para, st.index, hi - lo), st.para, st.index, str)) == Dump(ts)[..lo] + str + Dump(ts)[hi..]
  {
    OffsetBelowEnd(ts, en.para, en.index);
    DeleteThenInsertDump(ts, st.para, st.index, Offset(ts, en.para, en.index) - Offset(ts, st.para, st.index), str);
  }

  /** Replacing from a mark to a later one is deleting between them, then inserting at the first. */
  lemma ReplaceTextUnfolded(ts: seq<string>, a: Pos, b: Pos, str: string)
    requires Valid(ts, a) && Valid(ts, b) && Offset(ts, a.para, a.index) <= Offset(ts, b.para, b.index)
    ensures var L := Offset(ts, b.para, b.index) - Offset(ts, a.para, a.index);
      ValidPos(DeleteText(ts, a.para, a.index, L), a.para, a.index) &&
      ReplaceText(ts, a, b, str) == InsertText(DeleteText(ts, a.para, a.index, L), a.para, a.index, str)
  {
    assert EnsureOrdered(a, b) == (a, b) by {
      EnsureOrderedSpec(ts, a, b);
      if Offset(ts, a.para, a.index) == Offset(ts, b.para, b.index) {
        OffsetInjective(ts, a, b);
      }
    }
    DeleteTextKeepsBefore(ts, a.para, a.index, Offset(ts, b.para, b.index) - Offset(ts, a.para, a.index));
  }

  /** Deleting `L` characters at a position and inserting `str` there swaps them for `str` in the dump. */
  lemma {:induction false} DeleteThenInsertDump(ts: seq<string>, k: nat, c: int, L: int, str: string)
    requires ValidPos(ts, k, c) && 0 <= L && Offset(ts, k, c) + L < |Dump(ts)|
    ensures var g := Offset(ts, k, c);
      ValidPos(DeleteText(ts, k, c, L), k, c) &&
      Dump(InsertText(DeleteText(ts, k, c, L), k, c, str)) == Dump(ts)[..g] + str + Dump(ts)[g + L..]
  {
    var g, D := Offset(ts, k, c), Dump(ts);
    DeleteTextKeepsBefore(ts, k, c, L);
    var d := DeleteText(ts, k, c, L);
    assert Dump(d) == D[..g] + D[g + L..] by {
      DeleteTextDump(ts, k, c, L);
    }
    InsertTextDump(d, k, c, str);
    SpliceInto(D[..g], D[g + L..], str);
  }

  /** Inserting at the seam of `x + y` puts the insertion between them. */
  lemma SpliceInto(x: string, y: string, s: string)
    ensures (x + y)[..|x|] + s + (x + y)[|x|..] == x + s + y
  {
    assert (x + y)[..|x|] == x && (x + y)[|x|..] == y;
  }

  /** The order the marks are passed in does not matter. */
  lemma ReplaceTextSymmetric(ts: seq<string>, a: Pos, b: Pos, str: string)
    requires Valid(ts, a) && Valid(ts, b)
    ensures ReplaceText(ts, a, b, str) == ReplaceText(ts, b, a, str)
  {
    EnsureOrderedSpec(ts, a, b);
    EnsureOrderedSpec(ts, b, a);
    if Offset(ts, a.para, a.index) == Offset(ts, b.para, b.index) {
      OffsetInjective(ts, a, b);
    }
  }

  /** With both marks at one position, replacing is inserting. */
  lemma ReplaceAtOneMark(ts: seq<string>, a: Pos, str: string)
    requires Valid(ts, a)
    ensures ReplaceText(ts, a, a, str) == InsertText(ts, a.para, a.index, str)
  {
    var t := ts[a.para];
    assert t[..a.index] + t[a.index..] == t;
    assert DeleteText(ts, a.para, a.index, 0) == ts;
  }

  // ---------------------------------------------------------------------------
  // Backward deletion
  // ---------------------------------------------------------------------------

  /** The position at character `o` of the dump. */
  function PositionOf(ts: seq<string>, o: int): (p: Pos)
    requires 0 <= o < |Dump(ts)|
    ensures Valid(ts, p) && Offset(ts, p.para, p.index) == o
    decreases |ts|
  {
    var k := |ts| - 1;
    var base := |Dump(ts[..k])|;
    if base <= o then Pos(k, o - base)
    else
      var p := PositionOf(ts[..k], o);
      assert ts[..k][..p.para] == ts[..p.para];
      p
  }

  /** The text with the characters of the dump from `o` up to `g` deleted, as a forward deletion from `o`. */
  function DeleteBack(ts: seq<string>, o: int, g: int): seq<string>
    requires 0 <= o <= g < |Dump(ts)|
  {
    var p := PositionOf(ts, o);
    DeleteText(ts, p.para, p.index, g - o)
  }

  /** Deleting from `o` up to `g` cuts exactly those characters out of the dump. */
  lemma {:induction false} DeleteBackDump(ts: seq<string>, o: int, g: int)
    requires 0 <= o <= g < |Dump(ts)|
    ensures Dump(DeleteBack(ts, o, g)) == Dump(ts)[..o] + Dump(ts)[g..]
  {
    var p := PositionOf(ts, o);
    DeleteTextDump(ts, p.para, p.index, g - o);
  }

  /**
   * `text_editor_delete_at_mark` with a negative length `-n`, at the
   * cursor `(k, c)`, as written: `_try_move_mark_left` moves the cursor back
   * by `n` and the deletion runs forward `n` characters from there; when
   * fewer than `n` characters precede the cursor and the cursor has no
   * document (mark.c's `text_mark_new`), its move to the start of the
   * document is skipped and as many characters as precede it are deleted
   * forward from where it stands. With a document (mark.h's `text_mark_new`)
   * the move happens, and the result is `Backspace`.
   */
  function BackspaceAsWritten(ts: seq<string>, k: nat, c: int, n: nat): seq<string>
    requires ValidPos(ts, k, c)
  {
    var g := Offset(ts, k, c);
    OffsetBelowEnd(ts, k, c);
    if n <= g then DeleteBack(ts, g - n, g)
    else BackspacePastStartAsWritten(ts, k, c)
  }

  /** The intended backward deletion of `n` characters: those before the cursor, as far back as the start. */
  function Backspace(ts: seq<string>, k: nat, c: int, n: nat): seq<string>
    requires ValidPos(ts, k, c)
  {
    var g := Offset(ts, k, c);
    OffsetBelowEnd(ts, k, c);
    DeleteBack(ts, if n <= g then g - n else 0, g)
  }

  /** The intended backward deletion cuts the `n` characters before the cursor (or all of them) out of the dump. */
  lemma {:induction false} BackspaceDump(ts: seq<string>, k: nat, c: int, n: nat)
    requires ValidPos(ts, k, c)
    ensures var g := Offset(ts, k, c);
      var o := if n <= g then g - n else 0;
      g < |Dump(ts)| && Dump(Backspace(ts, k, c, n)) == Dump(ts)[..o] + Dump(ts)[g..]
  {
    var g := Offset(ts, k, c);
    OffsetBelowEnd(ts, k, c);
    var o := if n <= g then g - n else 0;
    assert Backspace(ts, k, c, n) == DeleteBack(ts, o, g);
    DeleteBackDump(ts, o, g);
  }

  /** The offset 0 is the start of the first paragraph. */
  lemma PositionOfStart(ts: seq<string>)
    requires 0 < |Dump(ts)|
    ensures PositionOf(ts, 0) == Pos(0, 0)
  {
    var p := PositionOf(ts, 0);
    assert |ts| > 0;
    OffsetFirst(ts, 0);
    OffsetInjective(ts, p, Pos(0, 0));
  }

  /** Where the cursor can move back the full `n`, the code as written does what is intended. */
  lemma BackspaceAgrees(ts: seq<string>, k: nat, c: int, n: nat)
    requires ValidPos(ts, k, c) && n <= Offset(ts, k, c)
    ensures BackspaceAsWritten(ts, k, c, n) == Backspace(ts, k, c, n)
  {
  }

  /** Past the start, the intended backward deletion is `BackspacePastStart`. */
  lemma BackspacePastStartIsBackspace(ts: seq<string>, k: nat, c: int, n: nat)
    requires ValidPos(ts, k, c) && n > Offset(ts, k, c)
    ensures Backspace(ts, k, c, n) == BackspacePastStart(ts, k, c)
  {
    OffsetBelowEnd(ts, k, c);
    PositionOfStart(ts);
  }
}
