/** The flat piece table of the first Rust prototype: an immutable original
    `buffer`, an append-only `append` buffer and a list of runs, each a byte
    range of one of the two buffers. The text of the document is the runs'
    slices in order. Text is ASCII, so a byte is a character. */
module PieceTable {
  import opened Optional

  /** A byte range [startIndex, endIndex) of the append buffer or of the original buffer. */
  datatype Run = Run(startIndex: nat, endIndex: nat, appendBuffer: bool)

  /** The whole state of a document, as a value. */
  datatype Table = Table(buffer: string, append: string, runs: seq<Run>)

  /** `Run::length`: a `usize` subtraction, so it only exists when it does not underflow. */
  function Length(r: Run): nat
    requires r.startIndex <= r.endIndex
  {
    r.endIndex - r.startIndex
  }

  /** The buffer a run points into. */
  function Source(t: Table, r: Run): string {
    if r.appendBuffer then t.append else t.buffer
  }

  /** The slice `[startIndex..endIndex]` exists in the run's buffer (otherwise Rust panics). */
  predicate InRange(t: Table, r: Run) {
    r.startIndex <= r.endIndex <= |Source(t, r)|
  }

  /** Every run of the table can be sliced. */
  predicate Valid(t: Table) {
    forall r :: r in t.runs ==> InRange(t, r)
  }

  /** `get_text`: the run's slice of the buffer its flag selects; `None` is the slice panic. */
  function GetText(t: Table, r: Run): (s: Option<string>)
    ensures s.Some? <==> InRange(t, r)
    ensures s.Some? ==> |s.value| == Length(r)
    ensures s.Some? ==> forall i :: 0 <= i < |s.value| ==> s.value[i] == Source(t, r)[r.startIndex + i]
  {
    if InRange(t, r) then Some(Source(t, r)[r.startIndex..r.endIndex]) else None
  }

  /** The texts of `runs` in order; `None` as soon as one of them cannot be sliced. */
  function Concat(t: Table, runs: seq<Run>): Option<string>
    decreases |runs|
  {
    if runs == [] then Some("")
    else
      var head := GetText(t, runs[0]);
      var rest := Concat(t, runs[1..]);
      if head.Some? && rest.Some? then Some(head.value + rest.value) else None
  }

  /** `get_all_text`: the in-order concatenation of `get_text` over all runs. */
  function AllText(t: Table): Option<string> {
    Concat(t, t.runs)
  }

  /** No run ends before it starts, so `Run::length` never underflows. */
  predicate WellFormed(runs: seq<Run>) {
    forall r :: r in runs ==> r.startIndex <= r.endIndex
  }

  /** The sum of the lengths of well-formed runs: the logical length of their text. */
  function TotalLength(runs: seq<Run>): nat
    requires WellFormed(runs)
    decreases |runs|
  {
    if runs == [] then 0 else Length(runs[0]) + TotalLength(runs[1..])
  }

  /** The text of the runs exists exactly when every run can be sliced, and then
      it is as long as their total length. */
  lemma {:induction false} ConcatDefined(t: Table, runs: seq<Run>)
    ensures Concat(t, runs).Some? <==> forall r :: r in runs ==> InRange(t, r)
    ensures Concat(t, runs).Some? ==> |Concat(t, runs).value| == TotalLength(runs)
    decreases |runs|
  {
    if runs != [] {
      ConcatDefined(t, runs[1..]);
      assert forall r :: r in runs ==> r == runs[0] || r in runs[1..];
    }
  }

  /** Concatenating run lists concatenates their texts (with the panic propagated). */
  lemma {:induction false} ConcatAppend(t: Table, a: seq<Run>, b: seq<Run>)
    ensures Concat(t, a + b) ==
      (if Concat(t, a).Some? && Concat(t, b).Some? then Some(Concat(t, a).value + Concat(t, b).value) else None)
    decreases |a|
  {
    if a == [] {
      assert a + b == b;
      assert Concat(t, a) == Some("");
      assert Concat(t, b).Some? ==> "" + Concat(t, b).value == Concat(t, b).value;
    } else {
      assert (a + b)[0] == a[0];
      assert (a + b)[1..] == a[1..] + b;
      ConcatAppend(t, a[1..], b);
      var head, x, y := GetText(t, a[0]), Concat(t, a[1..]), Concat(t, b);
      if head.Some? && x.Some? && y.Some? {
        assert head.value + (x.value + y.value) == (head.value + x.value) + y.value;
      }
    }
  }

  /** Appending to the append buffer does not change the text of runs that could already be sliced. */
  lemma {:induction false} ConcatGrownAppend(t: Table, u: Table, runs: seq<Run>)
    requires u.buffer == t.buffer && |t.append| <= |u.append| && u.append[..|t.append|] == t.append
    requires forall r :: r in runs ==> InRange(t, r)
    ensures Concat(u, runs) == Concat(t, runs)
    decreases |runs|
  {
    if runs != [] {
      var r := runs[0];
      assert InRange(t, r);
      assert Source(u, r)[r.startIndex..r.endIndex] == Source(t, r)[r.startIndex..r.endIndex];
      ConcatGrownAppend(t, u, runs[1..]);
    }
  }

  /** Appending to the append buffer keeps every sliceable run sliceable. */
  lemma GrownAppendInRange(t: Table, u: Table)
    requires u.buffer == t.buffer && |t.append| <= |u.append|
    ensures forall r :: InRange(t, r) ==> InRange(u, r)
  {
  }

  // ---------------------------------------------------------------------------
  // insert, as written
  // ---------------------------------------------------------------------------

  /** Where the run loop of `insert` stops. */
  datatype Target =
    | SplitAt(k: nat)   // run k is the first whose logical start is strictly greater than the index
    | Push              // no such run: the loop ran to the end
    | Underflow         // `Run::length` of a run with endIndex < startIndex panics

  /** The loop of `insert`, from run `k` with `iter` the logical start of run `k`. */
  function Locate(runs: seq<Run>, index: nat, k: nat, iter: nat): (r: Target)
    requires k <= |runs|
    ensures r.SplitAt? ==> k <= r.k < |runs| && (r.k == k ==> iter > index)
    ensures r.Underflow? ==> exists j :: k <= j < |runs| && runs[j].endIndex < runs[j].startIndex
    decreases |runs| - k
  {
    if k == |runs| then Push
    else if iter > index then SplitAt(k)
    else if runs[k].endIndex < runs[k].startIndex then Underflow
    else Locate(runs, index, k + 1, iter + Length(runs[k]))
  }

  /** The run the insert creates on the append buffer. */
  function NewRun(t: Table, text: string): Run {
    Run(|t.append|, |t.append| + |text|, true)
  }

  /** `insert` as written: the text always goes to the append buffer; if the loop
      found a run to split, only that run's `endIndex` is overwritten with the
      (absolute) index and the new run is dropped; otherwise the new run is pushed
      last. The boolean is false when the loop panicked. */
  function InsertAsWritten(t: Table, index: nat, text: string): (r: (Table, bool))
    ensures r.0.buffer == t.buffer && r.0.append == t.append + text
    ensures r.1 <==> !Locate(t.runs, index, 0, 0).Underflow?
    ensures Locate(t.runs, index, 0, 0).Push? ==> r.0.runs == t.runs + [NewRun(t, text)]
    ensures Locate(t.runs, index, 0, 0).Underflow? ==> r.0.runs == t.runs
    ensures Locate(t.runs, index, 0, 0).SplitAt? ==>
      var k := Locate(t.runs, index, 0, 0).k;
      |r.0.runs| == |t.runs| &&
      r.0.runs[k] == Run(t.runs[k].startIndex, index, t.runs[k].appendBuffer) &&
      forall j :: 0 <= j < |t.runs| && j != k ==> r.0.runs[j] == t.runs[j]
  {
    var grown := t.append + text;
    match Locate(t.runs, index, 0, 0)
    case Push => (Table(t.buffer, grown, t.runs + [NewRun(t, text)]), true)
    case SplitAt(k) => (Table(t.buffer, grown, t.runs[k := t.runs[k].(endIndex := index)]), true)
    case Underflow => (Table(t.buffer, grown, t.runs), false)
  }

  /** The logical start of run `j`: the total length of the runs before it. */
  function LogicalStart(runs: seq<Run>, j: nat): nat
    requires WellFormed(runs) && j <= |runs|
  {
    assert forall r :: r in runs[..j] ==> r in runs;
    TotalLength(runs[..j])
  }

  /** Adding a run at the end adds its length to the total. */
  lemma {:induction false} TotalLengthSnoc(s: seq<Run>, r: Run)
    requires WellFormed(s) && r.startIndex <= r.endIndex
    ensures WellFormed(s + [r]) && TotalLength(s + [r]) == TotalLength(s) + Length(r)
    decreases |s|
  {
    assert forall x :: x in s + [r] ==> x in s || x == r;
    if s == [] {
      assert s + [r] == [r];
      assert [r][1..] == [];
    } else {
      assert (s + [r])[1..] == s[1..] + [r];
      assert forall x :: x in s[1..] ==> x in s;
      TotalLengthSnoc(s[1..], r);
    }
  }

  /** One step of the search: the next run's logical start is this one's plus its length. */
  lemma LogicalStartNext(runs: seq<Run>, j: nat)
    requires WellFormed(runs) && j < |runs|
    ensures LogicalStart(runs, j + 1) == LogicalStart(runs, j) + Length(runs[j])
  {
    assert runs[..j + 1] == runs[..j] + [runs[j]];
    assert forall r :: r in runs[..j] ==> r in runs;
    TotalLengthSnoc(runs[..j], runs[j]);
  }

  /** The search from run `k`, with `iter` the logical start of run `k`, never
      underflows on well-formed runs; it stops at the first run from `k` on
      whose logical start exceeds the index, and runs off the end when there
      is none. */
  lemma {:induction false} LocateFrom(runs: seq<Run>, index: nat, k: nat, iter: nat)
    requires WellFormed(runs) && k <= |runs| && iter == LogicalStart(runs, k)
    ensures !Locate(runs, index, k, iter).Underflow?
    ensures Locate(runs, index, k, iter).SplitAt? ==>
      var m := Locate(runs, index, k, iter).k;
      LogicalStart(runs, m) > index && forall j :: k <= j < m ==> LogicalStart(runs, j) <= index
    ensures Locate(runs, index, k, iter).Push? ==>
      forall j :: k <= j < |runs| ==> LogicalStart(runs, j) <= index
    decreases |runs| - k
  {
    if k < |runs| && iter <= index {
      assert runs[k] in runs;
      LogicalStartNext(runs, k);
      LocateFrom(runs, index, k + 1, iter + Length(runs[k]));
    }
  }

  /** The search of `insert` over well-formed runs: it never underflows, it
      stops at run `k` exactly when `k` is the first run whose logical start
      is greater than the index, and it runs off the end exactly when no
      run's logical start is. */
  lemma LocateAtLogicalStart(runs: seq<Run>, index: nat)
    requires WellFormed(runs)
    ensures !Locate(runs, index, 0, 0).Underflow?
    ensures forall k :: 0 <= k < |runs| ==>
      (Locate(runs, index, 0, 0) == SplitAt(k) <==>
        LogicalStart(runs, k) > index && forall j :: 0 <= j < k ==> LogicalStart(runs, j) <= index)
    ensures Locate(runs, index, 0, 0).Push? <==>
      forall j :: 0 <= j < |runs| ==> LogicalStart(runs, j) <= index
  {
    assert runs[..0] == [];
    LocateFrom(runs, index, 0, 0);
  }

  /** `insert` as written, on well-formed runs, in terms of logical starts:
      it never panics; when no run starts past the index the new run is
      pushed last; otherwise the first run that does has its end overwritten
      with the index, and the new run is dropped. */
  lemma InsertAsWrittenBranches(t: Table, index: nat, text: string)
    requires WellFormed(t.runs)
    ensures InsertAsWritten(t, index, text).1
    ensures (forall j :: 0 <= j < |t.runs| ==> LogicalStart(t.runs, j) <= index) ==>
      InsertAsWritten(t, index, text).0.runs == t.runs + [NewRun(t, text)]
    ensures forall k ::
      (0 <= k < |t.runs| && LogicalStart(t.runs, k) > index &&
       forall j :: 0 <= j < k ==> LogicalStart(t.runs, j) <= index) ==>
      InsertAsWritten(t, index, text).0.runs == t.runs[k := Run(t.runs[k].startIndex, index, t.runs[k].appendBuffer)]
  {
    LocateAtLogicalStart(t.runs, index);
  }

  /** When the loop runs off the end, the inserted text lands after all existing text. */
  lemma InsertPushAppends(t: Table, index: nat, text: string)
    requires Valid(t) && Locate(t.runs, index, 0, 0).Push?
    ensures Valid(InsertAsWritten(t, index, text).0)
    ensures AllText(t).Some?
    ensures AllText(InsertAsWritten(t, index, text).0) == Some(AllText(t).value + text)
  {
    var u := InsertAsWritten(t, index, text).0;
    var piece := NewRun(t, text);
    assert u.runs == t.runs + [piece];
    ConcatDefined(t, t.runs);
    assert u.append[..|t.append|] == t.append;
    GrownAppendInRange(t, u);
    ConcatGrownAppend(t, u, t.runs);
    ConcatAppend(u, t.runs, [piece]);
    assert u.append[|t.append|..|t.append| + |text|] == text;
    assert [piece][1..] == [];
    assert Concat(u, [piece]) == Some(text + "");
    assert text + "" == text;
    assert forall r :: r in u.runs ==> r in t.runs || r == piece;
  }

  /** With a single well-formed run (a document made by `new(Some(s))`) the loop
      never finds a run to split, so every insert, at any index, appends. */
  lemma SingleRunInsertAppends(s: string, index: nat, text: string)
    ensures AllText(InsertAsWritten(Table(s, "", [Run(0, |s|, false)]), index, text).0) == Some(s + text)
  {
    var t := Table(s, "", [Run(0, |s|, false)]);
    assert Locate(t.runs, index, 1, |s|) == Push;
    assert s[0..|s|] == s;
    assert t.runs[1..] == [];
    assert s + "" == s;
    assert GetText(t, t.runs[0]) == Some(s);
    assert Concat(t, t.runs[1..]) == Some("");
    assert AllText(t) == Some(s);
    InsertPushAppends(t, index, text);
  }

  /** Inserting "," at byte 5 of "Hello World" gives "Hello World,". */
  lemma HelloWorldInsertAppends()
    ensures AllText(InsertAsWritten(Table("Hello World", "", [Run(0, 11, false)]), 5, ",").0) == Some("Hello World,")
  {
    SingleRunInsertAppends("Hello World", 5, ",");
    assert "Hello World" + "," == "Hello World,";
  }

  /** Three inserts at index 0 into an empty document: the third hits the split
      branch, which turns the second run into [1, 0). The text has no valid
      slice any more, so `get_all_text` panics, and the third text is lost from the runs. */
  lemma ThreeFrontInsertsPanic()
    ensures var t1 := InsertAsWritten(Table("", "", []), 0, "A").0;
            var t2 := InsertAsWritten(t1, 0, "B").0;
            var t3 := InsertAsWritten(t2, 0, "C").0;
            AllText(t2) == Some("AB") && t3.runs == [Run(0, 1, true), Run(1, 0, true)] && AllText(t3) == None
  {
    var t1 := InsertAsWritten(Table("", "", []), 0, "A").0;
    assert t1.runs == [Run(0, 1, true)];
    var t2 := InsertAsWritten(t1, 0, "B").0;
    assert Locate(t1.runs, 0, 1, 1) == Push;
    assert t2.runs == [Run(0, 1, true), Run(1, 2, true)];
    assert t2.append == "AB";
    assert t2.runs[1..][1..] == [];
    assert "AB"[1..2] == "B" && "AB"[0..1] == "A";
    assert GetText(t2, t2.runs[1]) == Some("B");
    ConcatCons(t2, t2.runs[1], []);
    assert [t2.runs[1]] + [] == t2.runs[1..];
    assert "B" + "" == "B";
    assert Concat(t2, t2.runs[1..]) == Some("B");
    assert AllText(t2) == Some("AB");
    var t3 := InsertAsWritten(t2, 0, "C").0;
    assert Locate(t2.runs, 0, 1, 1) == SplitAt(1);
    assert t3.runs == [Run(0, 1, true), Run(1, 0, true)];
    assert GetText(t3, t3.runs[1..][0]) == None;
    assert Concat(t3, t3.runs[1..]) == None;
  }

  // ---------------------------------------------------------------------------
  // insert, as evidently intended: split the run at the logical offset
  // ---------------------------------------------------------------------------

  /** Place `piece` at logical offset `index` of `runs`, splitting the run that contains it. */
  function SplitRuns(runs: seq<Run>, index: nat, piece: Run): seq<Run>
    requires WellFormed(runs) && index <= TotalLength(runs)
    decreases |runs|
  {
    if index == 0 then [piece] + runs
    else
      var r := runs[0];
      if index < Length(r) then
        [r.(endIndex := r.startIndex + index), piece, r.(startIndex := r.startIndex + index)] + runs[1..]
      else
        [r] + SplitRuns(runs[1..], index - Length(r), piece)
  }

  /** The corrected insert: the text goes to the append buffer and a run for it is
      placed at the logical offset. */
  function InsertSplit(t: Table, index: nat, text: string): Table
    requires Valid(t) && index <= TotalLength(t.runs)
  {
    Table(t.buffer, t.append + text, SplitRuns(t.runs, index, NewRun(t, text)))
  }

  /** Cutting a run at an inner offset gives two runs whose texts are the two halves of its text. */
  lemma CutRun(u: Table, r: Run, index: nat)
    requires InRange(u, r) && 0 < index < Length(r)
    ensures InRange(u, r.(endIndex := r.startIndex + index)) && InRange(u, r.(startIndex := r.startIndex + index))
    ensures GetText(u, r.(endIndex := r.startIndex + index)).value == GetText(u, r).value[..index]
    ensures GetText(u, r.(startIndex := r.startIndex + index)).value == GetText(u, r).value[index..]
  {
  }

  /** Every run `SplitRuns` produces can be sliced. */
  lemma {:induction false} SplitRunsInRange(u: Table, runs: seq<Run>, index: nat, piece: Run)
    requires forall r :: r in runs ==> InRange(u, r)
    requires WellFormed(runs) && InRange(u, piece) && index <= TotalLength(runs)
    ensures forall r :: r in SplitRuns(runs, index, piece) ==> InRange(u, r)
    decreases |runs|
  {
    if index != 0 {
      var r := runs[0];
      if index < Length(r) {
        CutRun(u, r, index);
      } else {
        SplitRunsInRange(u, runs[1..], index - Length(r), piece);
      }
    }
  }

  /** One step of `Concat` on a list built with a leading run. */
  lemma ConcatCons(u: Table, x: Run, xs: seq<Run>)
    requires InRange(u, x) && Concat(u, xs).Some?
    ensures Concat(u, [x] + xs) == Some(GetText(u, x).value + Concat(u, xs).value)
  {
    assert ([x] + xs)[0] == x;
    assert ([x] + xs)[1..] == xs;
  }

  /** Inserting `f` at offset `i < |head|` of `head + rest` only touches `head`. */
  lemma InsertInHead(head: string, rest: string, f: string, i: nat)
    requires i <= |head|
    ensures i <= |head + rest|
    ensures head[..i] + (f + (head[i..] + rest)) == (head + rest)[..i] + f + (head + rest)[i..]
  {
    assert (head + rest)[..i] == head[..i];
    assert (head + rest)[i..] == head[i..] + rest;
  }

  /** Inserting `f` at offset `|head| + k` of `head + rest` only touches `rest`. */
  lemma InsertInRest(head: string, rest: string, f: string, k: nat)
    requires k <= |rest|
    ensures |head| + k <= |head + rest|
    ensures head + (rest[..k] + f + rest[k..]) == (head + rest)[..|head| + k] + f + (head + rest)[|head| + k..]
  {
    assert (head + rest)[..|head| + k] == head + rest[..k];
    assert (head + rest)[|head| + k..] == rest[k..];
  }

  /** The case of `SplitRunsText` where the offset is 0: the piece goes first. */
  lemma SplitAtStart(u: Table, runs: seq<Run>, piece: Run)
    requires forall r :: r in runs ==> InRange(u, r)
    requires WellFormed(runs) && InRange(u, piece)
    ensures Concat(u, runs).Some?
    ensures Concat(u, SplitRuns(runs, 0, piece)) ==
      Some(Concat(u, runs).value[..0] + GetText(u, piece).value + Concat(u, runs).value[0..])
  {
    ConcatDefined(u, runs);
    var whole := Concat(u, runs).value;
    ConcatCons(u, piece, runs);
    assert whole[..0] + GetText(u, piece).value + whole[0..] == GetText(u, piece).value + whole;
  }

  /** The case of `SplitRunsText` where the offset falls strictly inside the first run. */
  lemma SplitInsideRun(u: Table, runs: seq<Run>, index: nat, piece: Run)
    requires forall r :: r in runs ==> InRange(u, r)
    requires WellFormed(runs) && InRange(u, piece) && runs != [] && 0 < index < Length(runs[0])
    ensures Concat(u, runs).Some? && index <= |Concat(u, runs).value|
    ensures Concat(u, SplitRuns(runs, index, piece)) ==
      Some(Concat(u, runs).value[..index] + GetText(u, piece).value + Concat(u, runs).value[index..])
  {
    ConcatDefined(u, runs);
    ConcatDefined(u, runs[1..]);
    var r := runs[0];
    var rest := Concat(u, runs[1..]).value;
    var head := GetText(u, r).value;
    var f := GetText(u, piece).value;
    var left := r.(endIndex := r.startIndex + index);
    var right := r.(startIndex := r.startIndex + index);
    CutRun(u, r, index);
    var tail := [right] + runs[1..];
    var mid := [piece] + tail;
    assert Concat(u, tail) == Some(head[index..] + rest) by {
      ConcatCons(u, right, runs[1..]);
    }
    assert Concat(u, mid) == Some(f + (head[index..] + rest)) by {
      ConcatCons(u, piece, tail);
    }
    assert Concat(u, [left] + mid) == Some(head[..index] + (f + (head[index..] + rest))) by {
      ConcatCons(u, left, mid);
    }
    assert SplitRuns(runs, index, piece) == [left] + mid by {
      assert [left, piece, right] + runs[1..] == [left] + mid;
    }
    assert Concat(u, runs).value == head + rest;
    InsertInHead(head, rest, f, index);
  }

  /** The case of `SplitRunsText` where the offset is past the first run, given the result for the rest. */
  lemma SplitPastRun(u: Table, runs: seq<Run>, index: nat, piece: Run)
    requires forall r :: r in runs ==> InRange(u, r)
    requires WellFormed(runs) && InRange(u, piece) && runs != [] && 0 < index && Length(runs[0]) <= index
    requires index - Length(runs[0]) <= TotalLength(runs[1..])
    requires Concat(u, runs[1..]).Some? && index - Length(runs[0]) <= |Concat(u, runs[1..]).value|
    requires Concat(u, SplitRuns(runs[1..], index - Length(runs[0]), piece)) ==
      Some(Concat(u, runs[1..]).value[..index - Length(runs[0])] + GetText(u, piece).value
           + Concat(u, runs[1..]).value[index - Length(runs[0])..])
    ensures Concat(u, runs).Some? && index <= |Concat(u, runs).value|
    ensures Concat(u, SplitRuns(runs, index, piece)) ==
      Some(Concat(u, runs).value[..index] + GetText(u, piece).value + Concat(u, runs).value[index..])
  {
    var r := runs[0];
    var k := index - Length(r);
    var rest := Concat(u, runs[1..]).value;
    var head := GetText(u, r).value;
    var f := GetText(u, piece).value;
    assert r in runs;
    assert SplitRuns(runs, index, piece) == [r] + SplitRuns(runs[1..], k, piece);
    ConcatCons(u, r, SplitRuns(runs[1..], k, piece));
    assert Concat(u, runs).value == head + rest;
    InsertInRest(head, rest, f, k);
  }

  /** `SplitRuns` puts the piece's text at logical offset `index` of the runs' text. */
  lemma {:induction false} SplitRunsText(u: Table, runs: seq<Run>, index: nat, piece: Run)
    requires forall r :: r in runs ==> InRange(u, r)
    requires WellFormed(runs) && InRange(u, piece) && index <= TotalLength(runs)
    ensures Concat(u, runs).Some? && index <= |Concat(u, runs).value|
    ensures Concat(u, SplitRuns(runs, index, piece)) ==
      Some(Concat(u, runs).value[..index] + GetText(u, piece).value + Concat(u, runs).value[index..])
    decreases |runs|
  {
    if index == 0 {
      SplitAtStart(u, runs, piece);
      ConcatDefined(u, runs);
    } else if index < Length(runs[0]) {
      SplitInsideRun(u, runs, index, piece);
    } else {
      assert WellFormed(runs[1..]);
      assert forall r :: r in runs[1..] ==> r in runs;
      SplitRunsText(u, runs[1..], index - Length(runs[0]), piece);
      SplitPastRun(u, runs, index, piece);
    }
  }

  /** The corrected insert keeps every run sliceable and puts the text exactly at `index`. */
  lemma InsertSplitCorrect(t: Table, index: nat, text: string)
    requires Valid(t) && index <= TotalLength(t.runs)
    ensures Valid(InsertSplit(t, index, text))
    ensures AllText(t).Some? && index <= |AllText(t).value|
    ensures AllText(InsertSplit(t, index, text)) ==
      Some(AllText(t).value[..index] + text + AllText(t).value[index..])
  {
    var u := InsertSplit(t, index, text);
    var piece := NewRun(t, text);
    assert u.append[..|t.append|] == t.append;
    assert u.append[|t.append|..|t.append| + |text|] == text;
    GrownAppendInRange(t, u);
    ConcatGrownAppend(t, u, t.runs);
    SplitRunsInRange(u, t.runs, index, piece);
    SplitRunsText(u, t.runs, index, piece);
  }

  // ---------------------------------------------------------------------------
  // The document object
  // ---------------------------------------------------------------------------

  class Document {
    var buffer: string
    var append: string
    var runs: seq<Run>

    function Value(): Table
      reads this
    {
      Table(buffer, append, runs)
    }

    /** `Document::new`: `Some(s)` gives one run covering the whole original buffer,
        `None` gives two empty buffers and no runs. */
    constructor (initial: Option<string>)
      ensures initial.Some? ==> Value() == Table(initial.value, "", [Run(0, |initial.value|, false)])
      ensures initial.None? ==> Value() == Table("", "", [])
      ensures Valid(Value())
      ensures AllText(Value()) == Some(if initial.Some? then initial.value else "")
    {
      if initial.Some? {
        var r := Run(0, |initial.value|, false);
        assert initial.value[0..|initial.value|] == initial.value;
        ConcatCons(Table(initial.value, "", [r]), r, []);
        assert [r] + [] == [r];
        assert initial.value + "" == initial.value;
        buffer, append, runs := initial.value, "", [r];
      } else {
        buffer, append, runs := "", "", [];
      }
    }

    /** `get_all_text`: builds the text run by run; `None` where a slice panics. */
    method GetAllText() returns (s: Option<string>)
      ensures s == AllText(Value())
    {
      var t := Value();
      var builder := "";
      var i := 0;
      assert runs[0..] == runs;
      assert Concat(t, runs).Some? ==> "" + Concat(t, runs).value == Concat(t, runs).value;
      while i < |runs|
        invariant 0 <= i <= |runs|
        invariant Concat(t, runs) ==
          (if Concat(t, runs[i..]).Some? then Some(builder + Concat(t, runs[i..]).value) else None)
      {
        var text := GetText(t, runs[i]);
        assert runs[i..][0] == runs[i] && runs[i..][1..] == runs[i + 1..];
        if text.None? {
          return None;
        }
        var rest := Concat(t, runs[i + 1..]);
        if rest.Some? {
          assert builder + (text.value + rest.value) == (builder + text.value) + rest.value;
        }
        builder := builder + text.value;
        i := i + 1;
      }
      assert runs[i..] == [];
      assert builder + "" == builder;
      return Some(builder);
    }

    /** `insert`, as written: see `InsertAsWritten`. `completed` is false when
        `Run::length` underflows on a run the loop visits. */
    method Insert(index: nat, text: string) returns (completed: bool)
      modifies this
      ensures (Value(), completed) == InsertAsWritten(old(Value()), index, text)
    {
      var appendIndex := |append|;
      append := append + text;
      var iter: nat := 0;
      var k := 0;
      while k < |runs|
        invariant 0 <= k <= |runs| && runs == old(runs)
        invariant append == old(append) + text && buffer == old(buffer)
        invariant Locate(runs, index, 0, 0) == Locate(runs, index, k, iter)
      {
        if iter > index {
          runs := runs[k := runs[k].(endIndex := index)];
          return true;
        }
        if runs[k].endIndex < runs[k].startIndex {
          return false;
        }
        iter := iter + Length(runs[k]);
        k := k + 1;
      }
      runs := runs + [Run(appendIndex, appendIndex + |text|, true)];
      return true;
    }
  }
}
