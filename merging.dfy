/**
  The interval merger of internal/bed/merging.go: one left-to-right pass
  over interval lines that are already in canonical (sorted) order. An
  accumulator holds the coalesced form of the current run; each line either
  joins the run or closes it and starts the next one.

  A Go runtime panic (an index out of range while rewriting a column of the
  accumulator) is modelled as a failed outcome: `None` for the specification
  functions, `panicked` for the method, which then leaves the lines as they were.
*/
module Merging {
  import opened Wrappers
  import opened Text

  /** Index of the stop column in `full`: the columns are chr, start, stop, then optional ones. */
  const StopIdx: nat := 2

  /**
    One interval line: the parsed chromosome, start, stop, strand and feature,
    and `full`, the verbatim columns of the line.
  */
  datatype Line = Line(chr: string, start: int, stop: int, strand: string, feat: string, full: seq<string>)

  /** Go's zero value of `Line`. */
  const ZeroLine: Line := Line("", 0, 0, "", "", [])

  /** `stringInSlice`: whether `item` is one of the elements of `slice`, searched left to right. */
  function StringInSlice(slice: seq<string>, item: string): (r: bool)
    ensures r <==> item in slice
    decreases |slice|
  {
    if |slice| == 0 then false
    else if item == slice[0] then true
    else StringInSlice(slice[1..], item)
  }

  /** The grouping key: chromosome, strand and feature agree. */
  predicate SameKey(a: Line, b: Line) {
    a.chr == b.chr && a.strand == b.strand && a.feat == b.feat
  }

  /** The merge condition of merging.go:15-19 (apart from the first-line test). */
  predicate Mergeable(merged: Line, l: Line, overlap: int) {
    SameKey(merged, l) && merged.stop + overlap >= l.start - 1
  }

  /**
    Absorbing `l` into `merged` stays within the slice bounds: the stop column
    exists when the stop is raised, and `l` has no optional column beyond
    those of `merged`. Otherwise the Go code panics.
  */
  predicate Fits(merged: Line, l: Line) {
    (l.stop > merged.stop ==> StopIdx < |merged.full|) &&
    (StopIdx + 1 < |l.full| ==> |l.full| <= |merged.full|)
  }

  /**
    The set-union of one optional column: `col` is appended after a comma
    unless it is already one of the comma-separated entries of `acc`.
  */
  function UnionColumn(acc: string, col: string): (r: string)
    ensures Split(r) == if col in Split(acc) then Split(acc) else Split(acc) + Split(col)
    ensures Comma !in col ==> col in Split(r)
    ensures Comma !in col ==> Split(r) == if col in Split(acc) then Split(acc) else Split(acc) + [col]
  {
    if StringInSlice(Split(acc), col) then acc
    else
      SplitAppend(acc, col);
      if Comma !in col then SplitSingle(col); acc + [Comma] + col
      else acc + [Comma] + col
  }

  /**
    Every optional column of `full` that `cols` also has is unioned with it:
    its old entries stay in front, and a comma-free value of `cols` is among
    the new entries. The other columns are unchanged.
  */
  function UnionColumns(full: seq<string>, cols: seq<string>): (r: seq<string>)
    ensures |r| == |full|
    ensures forall k :: 0 <= k < |full| && (k <= StopIdx || |cols| <= k) ==> r[k] == full[k]
    ensures forall k :: StopIdx < k < |full| && k < |cols| ==>
      Split(r[k]) == if cols[k] in Split(full[k]) then Split(full[k]) else Split(full[k]) + Split(cols[k])
    ensures forall k :: StopIdx < k < |full| && k < |cols| ==> Split(full[k]) <= Split(r[k])
    ensures forall k :: StopIdx < k < |full| && k < |cols| && Comma !in cols[k] ==> cols[k] in Split(r[k])
  {
    seq(|full|, k requires 0 <= k < |full| =>
      if StopIdx < k < |cols| then UnionColumn(full[k], cols[k]) else full[k])
  }

  /** `l` joins the run held by `merged` (merging.go:20-34). */
  function Absorb(merged: Line, l: Line): (r: Line)
    requires Fits(merged, l)
    ensures r.chr == merged.chr && r.start == merged.start
    ensures r.strand == merged.strand && r.feat == merged.feat
    ensures r.stop >= merged.stop && r.stop >= l.stop && (r.stop == merged.stop || r.stop == l.stop)
    ensures |r.full| == |merged.full|
    ensures forall k :: 0 <= k < StopIdx && k < |r.full| ==> r.full[k] == merged.full[k]
    ensures StopIdx < |r.full| ==>
      r.full[StopIdx] == if l.stop > merged.stop then Itoa(l.stop) else merged.full[StopIdx]
  {
    var raised := l.stop > merged.stop;
    var full := if raised then merged.full[StopIdx := Itoa(l.stop)] else merged.full;
    Line(merged.chr, merged.start, if raised then l.stop else merged.stop,
         merged.strand, merged.feat, UnionColumns(full, l.full))
  }

  /** The state of the pass: the lines emitted so far and the accumulator. */
  datatype Sweep = Sweep(emitted: seq<Line>, merged: Line)

  /**
    One iteration of the loop of merging.go:13-47; `first` is `i == 0`. Only
    a line that joins can panic; the accumulator afterwards carries the key of
    `l` and reaches at least its stop; at most one line is emitted, and that
    line is the previous accumulator; a joining line keeps the run's start and
    takes the larger stop.
  */
  function Step(st: Sweep, l: Line, first: bool, overlap: int): (r: Option<Sweep>)
    ensures r.None? <==> !first && Mergeable(st.merged, l, overlap) && !Fits(st.merged, l)
    ensures r.Some? ==> SameKey(r.value.merged, l) && r.value.merged.stop >= l.stop
    ensures r.Some? ==> st.emitted <= r.value.emitted && |r.value.emitted| <= |st.emitted| + 1
    ensures r.Some? && |r.value.emitted| == |st.emitted| + 1 ==>
      r.value.emitted[|st.emitted|] == st.merged
    ensures r.Some? && !first && Mergeable(st.merged, l, overlap) ==>
      r.value.emitted == st.emitted && r.value.merged.start == st.merged.start &&
      r.value.merged.stop == (if l.stop > st.merged.stop then l.stop else st.merged.stop)
    ensures r.Some? && (first || !Mergeable(st.merged, l, overlap)) ==>
      r.value.merged.start == l.start && r.value.merged.stop == l.stop
  {
    if !first && Mergeable(st.merged, l, overlap) then
      if Fits(st.merged, l) then Some(Sweep(st.emitted, Absorb(st.merged, l))) else None
    else
      Some(Sweep(if first then st.emitted else st.emitted + [st.merged],
                 Line(l.chr, l.start, l.stop, l.strand, l.feat, l.full)))
  }

  /** The state after the loop has processed all of `lines`. */
  function SweepLines(lines: seq<Line>, overlap: int): (r: Option<Sweep>)
    ensures r.Some? && |lines| > 0 ==> |r.value.emitted| < |lines|
    ensures |lines| == 0 ==> r == Some(Sweep([], ZeroLine))
    decreases |lines|
  {
    if |lines| == 0 then Some(Sweep([], ZeroLine))
    else
      match SweepLines(lines[..|lines| - 1], overlap)
      case None => None
      case Some(st) => Step(st, lines[|lines| - 1], |lines| == 1, overlap)
  }

  /** What `MergeLines` leaves in `Lines`, or `None` when it panics. */
  function Merge(lines: seq<Line>, overlap: int): (r: Option<seq<Line>>)
    ensures |lines| == 0 ==> r == Some([ZeroLine])
    ensures r.Some? ==> 1 <= |r.value| && (|lines| > 0 ==> |r.value| <= |lines|)
  {
    match SweepLines(lines, overlap)
    case None => None
    case Some(st) =>
      assert |lines| == 0 ==> st.emitted + [st.merged] == [ZeroLine];
      Some(st.emitted + [st.merged])
  }

  /** One more iteration of the pass. */
  lemma SweepNext(lines: seq<Line>, i: nat, overlap: int)
    requires i < |lines|
    ensures SweepLines(lines[..i + 1], overlap) ==
      match SweepLines(lines[..i], overlap)
      case None => None
      case Some(st) => Step(st, lines[i], i == 0, overlap)
  {
    assert lines[..i + 1][..i] == lines[..i];
  }

  /** Once the pass has panicked on a prefix, it panics on the whole input. */
  lemma {:induction false} PanicPersists(lines: seq<Line>, n: nat, overlap: int)
    requires n <= |lines|
    requires SweepLines(lines[..n], overlap).None?
    ensures SweepLines(lines, overlap).None?
    decreases |lines| - n
  {
    if n < |lines| {
      assert lines[..n + 1][..n] == lines[..n];
      PanicPersists(lines, n + 1, overlap);
    } else {
      assert lines[..n] == lines;
    }
  }

  /** Extending the unioned prefix of `cols` by one column changes only that column. */
  lemma UnionColumnsStep(full: seq<string>, cols: seq<string>, k: nat)
    requires StopIdx < k < |full| && k < |cols|
    ensures UnionColumns(full, cols[..k])[k] == full[k]
    ensures UnionColumns(full, cols[..k + 1]) ==
            UnionColumns(full, cols[..k])[k := UnionColumn(full[k], cols[k])]
  {
  }

  /**
    The body of the merge branch (merging.go:20-34): raise the stop and
    rewrite its column, then union each optional column of `l` into the
    accumulator, in column order. `panicked` reports an index out of range.
  */
  method AbsorbLine(merged: Line, l: Line) returns (r: Line, panicked: bool)
    ensures panicked <==> !Fits(merged, l)
    ensures !panicked ==> r == Absorb(merged, l)
  {
    r := merged;
    if l.stop > r.stop {
      if |r.full| <= StopIdx {
        return r, true;
      }
      r := r.(stop := l.stop, full := r.full[StopIdx := Itoa(l.stop)]);
    }
    ghost var raised := r;
    if |l.full| > StopIdx + 1 {
      var idx := 0;
      while idx < |l.full| - (StopIdx + 1)
        invariant 0 <= idx <= |l.full| - (StopIdx + 1)
        invariant idx > 0 ==> idx + StopIdx < |raised.full|
        invariant r == raised.(full := UnionColumns(raised.full, l.full[..idx + StopIdx + 1]))
      {
        var mIdx := idx + StopIdx + 1;
        if mIdx >= |r.full| {
          return r, true;
        }
        UnionColumnsStep(raised.full, l.full, mIdx);
        ghost var u := UnionColumn(raised.full[mIdx], l.full[mIdx]);
        ghost var before := r;
        if !StringInSlice(Split(r.full[mIdx]), l.full[mIdx]) {
          r := r.(full := r.full[mIdx := r.full[mIdx] + [Comma] + l.full[mIdx]]);
        }
        assert r == before.(full := before.full[mIdx := u]);
        idx := idx + 1;
      }
      assert l.full[..idx + StopIdx + 1] == l.full;
    } else {
      assert r.full == UnionColumns(raised.full, l.full);
    }
    panicked := false;
  }

  /** A BED file: its lines and the merge gap tolerance `Overlap`. */
  class Bedfile {
    var lines: seq<Line>
    var overlap: int

    constructor (lines: seq<Line>, overlap: int)
      ensures this.lines == lines && this.overlap == overlap
    {
      this.lines := lines;
      this.overlap := overlap;
    }

    /**
      `(*Bedfile).MergeLines`, over lines already in the order `mergeSort`
      returns. On success the lines are replaced by the merged lines; on a
      panic they are left unchanged.
    */
    method MergeLines() returns (panicked: bool)
      modifies this
      ensures overlap == old(overlap)
      ensures panicked <==> Merge(old(lines), overlap).None?
      ensures !panicked ==> lines == Merge(old(lines), overlap).value
      ensures panicked ==> lines == old(lines)
    {
      var input := lines;
      var merged := ZeroLine;
      var mergedLines: seq<Line> := [];
      var i := 0;
      while i < |input|
        invariant 0 <= i <= |input|
        invariant lines == input && overlap == old(overlap)
        invariant SweepLines(input[..i], overlap) == Some(Sweep(mergedLines, merged))
      {
        var l := input[i];
        ghost var st := Sweep(mergedLines, merged);
        SweepNext(input, i, overlap);
        assert SweepLines(input[..i + 1], overlap) == Step(st, l, i == 0, overlap);
        if i != 0 && merged.chr == l.chr && merged.strand == l.strand && merged.feat == l.feat &&
           merged.stop + overlap >= l.start - 1
        {
          assert Mergeable(merged, l, overlap);
          var absorbed, failed := AbsorbLine(merged, l);
          if failed {
            assert SweepLines(input[..i + 1], overlap) == None;
            PanicPersists(input, i + 1, overlap);
            return true;
          }
          merged := absorbed;
        } else {
          assert !(i != 0 && Mergeable(merged, l, overlap));
          if i != 0 {
            mergedLines := mergedLines + [merged];
          }
          merged := Line(l.chr, l.start, l.stop, l.strand, l.feat, l.full);
          assert merged == l;
        }
        i := i + 1;
      }
      assert input[..i] == input;
      lines := mergedLines + [merged];
      return false;
    }
  }
}
