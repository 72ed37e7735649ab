/**
  What the pass of `Merging.MergeLines` computes, run by run. The input is
  cut into contiguous runs; each output line is the coalesced form of one run,
  in input order; every line of a run is mergeable with the coalesced form of
  the lines before it in that run; and the first line of each later run is not
  mergeable with the coalesced form of the run before it.
*/
module MergeRuns {
  import opened Wrappers
  import opened Text
  import opened Merging

  /** A run coalesced into one line: the first line absorbs the others in order; `None` on a panic. */
  function Coalesce(run: seq<Line>): (r: Option<Line>)
    requires |run| > 0
    ensures r.Some? ==>
      r.value.chr == run[0].chr && r.value.start == run[0].start &&
      r.value.strand == run[0].strand && r.value.feat == run[0].feat &&
      |r.value.full| == |run[0].full| &&
      forall k :: 0 <= k < StopIdx && k < |r.value.full| ==> r.value.full[k] == run[0].full[k]
    decreases |run|
  {
    if |run| == 1 then Some(run[0])
    else
      match Coalesce(run[..|run| - 1])
      case None => None
      case Some(m) =>
        var l := run[|run| - 1];
        if Fits(m, l) then Some(Absorb(m, l)) else None
  }

  /** The largest stop of a run. */
  function MaxStop(run: seq<Line>): (m: int)
    requires |run| > 0
    ensures forall t :: 0 <= t < |run| ==> run[t].stop <= m
    ensures exists t :: 0 <= t < |run| && run[t].stop == m
    decreases |run|
  {
    if |run| == 1 then run[0].stop
    else
      var m := MaxStop(run[..|run| - 1]);
      assert forall t :: 0 <= t < |run| - 1 ==> run[..|run| - 1][t] == run[t];
      if run[|run| - 1].stop > m then run[|run| - 1].stop else m
  }

  /** The values in column `j` of the lines that have such a column, in order. */
  function ColumnValues(ls: seq<Line>, j: nat): seq<string>
    decreases |ls|
  {
    if |ls| == 0 then []
    else ColumnValues(ls[..|ls| - 1], j) + (if j < |ls[|ls| - 1].full| then [ls[|ls| - 1].full[j]] else [])
  }

  /** The values of `vals` not in `base`, each once, in the order of their first occurrence. */
  function NewValues(base: seq<string>, vals: seq<string>): seq<string>
    decreases |vals|
  {
    if |vals| == 0 then []
    else
      var v := vals[|vals| - 1];
      var pre := vals[..|vals| - 1];
      NewValues(base, pre) + (if v in base || v in pre then [] else [v])
  }

  ghost predicate NoDup(s: seq<string>) {
    forall i, j :: 0 <= i < j < |s| ==> s[i] != s[j]
  }

  ghost predicate CommaFree(vals: seq<string>) {
    forall i :: 0 <= i < |vals| ==> Comma !in vals[i]
  }

  /**
    `NewValues` adds exactly the values of `vals` missing from `base`, none twice,
    each at its first occurrence in `vals`.
  */
  lemma {:induction false} NewValuesSpec(base: seq<string>, vals: seq<string>)
    ensures forall v :: v in NewValues(base, vals) ==> v in vals && v !in base
    ensures forall v :: v in vals ==> v in base || v in NewValues(base, vals)
    ensures NoDup(NewValues(base, vals))
    ensures NoDup(base) ==> NoDup(base + NewValues(base, vals))
    decreases |vals|
  {
    if |vals| > 0 {
      var v := vals[|vals| - 1];
      var pre := vals[..|vals| - 1];
      NewValuesSpec(base, pre);
      assert vals == pre + [v];
      var nv := NewValues(base, vals);
      var np := NewValues(base, pre);
      if !(v in base || v in pre) {
        assert nv == np + [v];
        assert v !in np;
        assert NoDup(nv) by {
          forall i, j | 0 <= i < j < |nv| ensures nv[i] != nv[j] {
            if j == |nv| - 1 { assert nv[i] == np[i]; assert np[i] in np; }
          }
        }
        if NoDup(base) {
          var all := base + nv;
          forall i, j | 0 <= i < j < |all| ensures all[i] != all[j] {
            if j >= |base| && i < |base| {
              assert all[i] in base;
              assert all[j] in nv;
            } else if i >= |base| {
              assert all[i] == nv[i - |base|] && all[j] == nv[j - |base|];
            }
          }
        }
      } else {
        assert nv == np;
      }
    }
  }

  /** A run whose coalescing fits has prefixes whose coalescing fits. */
  lemma {:induction false} CoalescePrefix(run: seq<Line>, t: nat)
    requires 0 < t <= |run| && Coalesce(run).Some?
    ensures Coalesce(run[..t]).Some?
    decreases |run| - t
  {
    if t < |run| {
      CoalescePrefix(run[..|run| - 1], t);
      assert run[..|run| - 1][..t] == run[..t];
    } else {
      assert run[..t] == run;
    }
  }

  /**
    The coalesced stop is the largest stop of the run; the stop column holds its
    decimal text when a later line raised it, and the first line's text otherwise.
  */
  lemma {:induction false} CoalesceStop(run: seq<Line>)
    requires |run| > 0 && Coalesce(run).Some?
    ensures Coalesce(run).value.stop == MaxStop(run)
    ensures StopIdx < |run[0].full| ==>
      Coalesce(run).value.full[StopIdx] ==
        if MaxStop(run) > run[0].stop then Itoa(MaxStop(run)) else run[0].full[StopIdx]
    decreases |run|
  {
    if |run| > 1 {
      var pre := run[..|run| - 1];
      CoalesceStop(pre);
      assert pre[0] == run[0];
    }
  }

  /** Column `j` after the stop column, once `l` is absorbed. */
  lemma AbsorbColumn(m: Line, l: Line, j: nat)
    requires Fits(m, l) && StopIdx < j < |m.full|
    ensures Absorb(m, l).full[j] == if j < |l.full| then UnionColumn(m.full[j], l.full[j]) else m.full[j]
  {
  }

  /**
    Each optional column of the coalesced line, split on commas, is the first
    line's entries followed by the comma-free values the later lines bring
    that are not yet there, in first-seen order.
  */
  lemma {:induction false} CoalesceColumn(run: seq<Line>, j: nat)
    requires |run| > 0 && Coalesce(run).Some?
    requires StopIdx < j < |run[0].full|
    requires CommaFree(ColumnValues(run[1..], j))
    ensures Split(Coalesce(run).value.full[j]) ==
      Split(run[0].full[j]) + NewValues(Split(run[0].full[j]), ColumnValues(run[1..], j))
    decreases |run|
  {
    if |run| == 1 {
      assert run[1..] == [];
    } else {
      var pre := run[..|run| - 1];
      var l := run[|run| - 1];
      CoalesceSnoc(run);
      ColumnValuesSnoc(run, j);
      var m := Coalesce(pre).value;
      var pvals := ColumnValues(pre[1..], j);
      CoalesceColumn(pre, j);
      UnionStep(m, l, j, Split(run[0].full[j]), pvals);
    }
  }

  /** A run of two or more lines coalesces by absorbing its last line into the rest. */
  lemma CoalesceSnoc(run: seq<Line>)
    requires |run| > 1 && Coalesce(run).Some?
    ensures Coalesce(run[..|run| - 1]).Some?
    ensures run[..|run| - 1][0] == run[0]
    ensures Fits(Coalesce(run[..|run| - 1]).value, run[|run| - 1])
    ensures Coalesce(run) == Some(Absorb(Coalesce(run[..|run| - 1]).value, run[|run| - 1]))
  {
  }

  /**
    The values of column `j` after the first line, split off at the last line;
    when they are comma-free, so are the earlier ones and the last.
  */
  lemma ColumnValuesSnoc(run: seq<Line>, j: nat)
    requires |run| > 1
    ensures var l := run[|run| - 1];
      ColumnValues(run[1..], j) ==
        ColumnValues(run[..|run| - 1][1..], j) + (if j < |l.full| then [l.full[j]] else [])
    ensures CommaFree(ColumnValues(run[1..], j)) ==>
      CommaFree(ColumnValues(run[..|run| - 1][1..], j)) &&
      (j < |run[|run| - 1].full| ==> Comma !in run[|run| - 1].full[j])
  {
    var pre := run[..|run| - 1];
    var l := run[|run| - 1];
    assert pre[1..] == run[1..][..|run[1..]| - 1];
    var vals := ColumnValues(run[1..], j);
    var pvals := ColumnValues(pre[1..], j);
    assert vals == pvals + (if j < |l.full| then [l.full[j]] else []);
    if CommaFree(vals) {
      forall i | 0 <= i < |pvals| ensures Comma !in pvals[i] { assert vals[i] == pvals[i]; }
      if j < |l.full| {
        assert vals[|vals| - 1] == l.full[j];
      }
    }
  }

  /** One absorbed line extends the unioned entries of column `j` by its value, if new. */
  lemma UnionStep(m: Line, l: Line, j: nat, base: seq<string>, pvals: seq<string>)
    requires Fits(m, l) && StopIdx < j < |m.full|
    requires Split(m.full[j]) == base + NewValues(base, pvals)
    requires j < |l.full| ==> Comma !in l.full[j]
    ensures Split(Absorb(m, l).full[j]) ==
      base + NewValues(base, pvals + (if j < |l.full| then [l.full[j]] else []))
  {
    AbsorbColumn(m, l, j);
    if j < |l.full| {
      UnionValues(Split(m.full[j]), base, pvals, l.full[j]);
    } else {
      assert pvals + [] == pvals;
    }
  }

  /** Appending `v` to the entries unless present is extending the new values by `v`. */
  lemma UnionValues(entries: seq<string>, base: seq<string>, pvals: seq<string>, v: string)
    requires entries == base + NewValues(base, pvals)
    ensures (if v in entries then entries else entries + [v]) == base + NewValues(base, pvals + [v])
  {
    NewValuesSnoc(base, pvals, v);
    NewValuesMember(base, pvals, v);
    var nv := NewValues(base, pvals);
    if v !in entries {
      assert base + (nv + [v]) == (base + nv) + [v];
    }
  }

  /** `NewValues` of one more value. */
  lemma NewValuesSnoc(base: seq<string>, pvals: seq<string>, v: string)
    ensures NewValues(base, pvals + [v]) ==
      NewValues(base, pvals) + (if v in base || v in pvals then [] else [v])
  {
    var vals := pvals + [v];
    assert vals[|vals| - 1] == v && vals[..|vals| - 1] == pvals;
  }

  /** A value is among the base and the new values exactly when it is in the base or in `vals`. */
  lemma {:induction false} NewValuesMember(base: seq<string>, vals: seq<string>, v: string)
    ensures v in base + NewValues(base, vals) <==> v in base || v in vals
    decreases |vals|
  {
    if |vals| > 0 {
      var pre := vals[..|vals| - 1];
      var w := vals[|vals| - 1];
      assert vals == pre + [w];
      NewValuesMember(base, pre, v);
      NewValuesSnoc(base, pre, w);
    }
  }

  /**
    The union of a column is duplicate-free when the first line's entries are,
    and every comma-free value of the run appears among its entries.
  */
  lemma RunColumnUnion(run: seq<Line>, j: nat)
    requires |run| > 0 && Coalesce(run).Some?
    requires StopIdx < j < |run[0].full|
    requires CommaFree(ColumnValues(run[1..], j))
    ensures forall v :: v in ColumnValues(run[1..], j) ==> v in Split(Coalesce(run).value.full[j])
    ensures Split(run[0].full[j]) <= Split(Coalesce(run).value.full[j])
    ensures NoDup(Split(run[0].full[j])) ==> NoDup(Split(Coalesce(run).value.full[j]))
  {
    CoalesceColumn(run, j);
    NewValuesSpec(Split(run[0].full[j]), ColumnValues(run[1..], j));
  }

  /** `run` is one run: each later line was mergeable with the coalesced lines before it. */
  ghost predicate IsRun(run: seq<Line>, overlap: int) {
    |run| > 0 && Coalesce(run).Some? &&
    forall t :: 0 < t < |run| ==>
      Coalesce(run[..t]).Some? && Mergeable(Coalesce(run[..t]).value, run[t], overlap)
  }

  /** The positions of `lines` where a new run starts. */
  function Starts(lines: seq<Line>, overlap: int): (c: seq<nat>)
    ensures |lines| > 0 ==> |c| > 0 && c[0] == 0
    ensures forall k :: 0 <= k < |c| ==> c[k] < |lines|
    ensures forall k :: 0 < k < |c| ==> c[k - 1] < c[k]
    decreases |lines|
  {
    if |lines| == 0 then []
    else
      var p := lines[..|lines| - 1];
      Starts(p, overlap) + (if JoinsLast(lines, overlap) then [] else [|p|])
  }

  /** The last line of `lines` joins the accumulator of the lines before it. */
  predicate JoinsLast(lines: seq<Line>, overlap: int)
    requires |lines| > 0
  {
    var p := lines[..|lines| - 1];
    var sp := SweepLines(p, overlap);
    |p| > 0 && sp.Some? && Mergeable(sp.value.merged, lines[|lines| - 1], overlap)
  }

  /** The end (exclusive) of run `k`. */
  function Bound(c: seq<nat>, n: nat, k: nat): nat {
    if k < |c| then c[k] else n
  }

  /** Run `k` of `lines` cut at `c` coalesces to `out[k]`. */
  ghost predicate RunAt(lines: seq<Line>, overlap: int, out: seq<Line>, c: seq<nat>, k: nat) {
    k < |c| == |out| && c[k] < Bound(c, |lines|, k + 1) <= |lines| &&
    Coalesce(lines[c[k]..Bound(c, |lines|, k + 1)]) == Some(out[k]) &&
    IsRun(lines[c[k]..Bound(c, |lines|, k + 1)], overlap)
  }

  /** The first line of run `k + 1` was not mergeable with the coalesced run `k`. */
  ghost predicate Maximal(lines: seq<Line>, overlap: int, out: seq<Line>, c: seq<nat>, k: nat) {
    k + 1 < |c| == |out| && c[k + 1] < |lines| && !Mergeable(out[k], lines[c[k + 1]], overlap)
  }

  /** `out` is the sequence of coalesced runs of `lines` cut at `c`, and the runs are maximal. */
  ghost predicate Runs(lines: seq<Line>, overlap: int, out: seq<Line>, c: seq<nat>) {
    |lines| > 0 && |c| == |out| && |c| > 0 && c[0] == 0 &&
    (forall k :: 0 <= k < |c| ==> c[k] < |lines|) &&
    (forall k :: 0 < k < |c| ==> c[k - 1] < c[k]) &&
    (forall k :: 0 <= k < |c| ==> RunAt(lines, overlap, out, c, k)) &&
    (forall k :: 0 <= k < |c| - 1 ==> Maximal(lines, overlap, out, c, k))
  }

  /** The accumulator after a successful pass shares the grouping key of the last line. */
  lemma {:induction false} AccumulatorKey(lines: seq<Line>, overlap: int)
    requires |lines| > 0 && SweepLines(lines, overlap).Some?
    ensures SameKey(SweepLines(lines, overlap).value.merged, lines[|lines| - 1])
    decreases |lines|
  {
    if |lines| > 1 {
      var p := lines[..|lines| - 1];
      AccumulatorKey(p, overlap);
    }
  }

  /** A pass that does not panic on `lines` does not panic on any prefix. */
  lemma SweepPrefix(lines: seq<Line>, i: nat, overlap: int)
    requires i <= |lines| && SweepLines(lines, overlap).Some?
    ensures SweepLines(lines[..i], overlap).Some?
  {
    if SweepLines(lines[..i], overlap).None? {
      PanicPersists(lines, i, overlap);
    }
  }

  /** The run structure of a pass with one more line that joins the last run. */
  lemma RunsAbsorb(lines: seq<Line>, overlap: int, c: seq<nat>, outp: seq<Line>, m: Line)
    requires |lines| > 1
    requires Runs(lines[..|lines| - 1], overlap, outp, c) && outp[|outp| - 1] == m
    requires Mergeable(m, lines[|lines| - 1], overlap) && Fits(m, lines[|lines| - 1])
    ensures Runs(lines, overlap, outp[..|outp| - 1] + [Absorb(m, lines[|lines| - 1])], c)
  {
    var n := |lines|;
    var p := lines[..n - 1];
    var out := outp[..|outp| - 1] + [Absorb(m, lines[n - 1])];
    forall k | 0 <= k < |c| ensures RunAt(lines, overlap, out, c, k) {
      assert RunAt(p, overlap, outp, c, k);
      RunAtAbsorb(lines, overlap, c, outp, m, k);
    }
    forall k | 0 <= k < |c| - 1 ensures Maximal(lines, overlap, out, c, k) {
      assert Maximal(p, overlap, outp, c, k);
      assert out[k] == outp[k];
    }
  }

  /** Run `k` once the next line has joined the last run. */
  lemma RunAtAbsorb(lines: seq<Line>, overlap: int, c: seq<nat>, outp: seq<Line>, m: Line, k: nat)
    requires |lines| > 1 && k < |c| && c[|c| - 1] < |lines| - 1
    requires RunAt(lines[..|lines| - 1], overlap, outp, c, k) && outp[|outp| - 1] == m
    requires Mergeable(m, lines[|lines| - 1], overlap) && Fits(m, lines[|lines| - 1])
    ensures RunAt(lines, overlap, outp[..|outp| - 1] + [Absorb(m, lines[|lines| - 1])], c, k)
  {
    if k < |c| - 1 {
      RunAtAbsorbEarlier(lines, overlap, c, outp, Absorb(m, lines[|lines| - 1]), k);
    } else {
      RunAtAbsorbLast(lines, overlap, c, outp, m);
    }
  }

  /** A run other than the last is unchanged when the last run absorbs a line. */
  lemma RunAtAbsorbEarlier(lines: seq<Line>, overlap: int, c: seq<nat>, outp: seq<Line>, a: Line, k: nat)
    requires |lines| > 1 && k + 1 < |c|
    requires RunAt(lines[..|lines| - 1], overlap, outp, c, k)
    ensures RunAt(lines, overlap, outp[..|outp| - 1] + [a], c, k)
  {
    var p := lines[..|lines| - 1];
    var out := outp[..|outp| - 1] + [a];
    var run := p[c[k]..c[k + 1]];
    assert Bound(c, |p|, k + 1) == c[k + 1] == Bound(c, |lines|, k + 1);
    assert lines[c[k]..c[k + 1]] == run;
    assert out[k] == outp[k];
  }

  /** The last run once it has absorbed the next line. */
  lemma RunAtAbsorbLast(lines: seq<Line>, overlap: int, c: seq<nat>, outp: seq<Line>, m: Line)
    requires |lines| > 1 && |c| > 0 && c[|c| - 1] < |lines| - 1
    requires RunAt(lines[..|lines| - 1], overlap, outp, c, |c| - 1) && outp[|outp| - 1] == m
    requires Mergeable(m, lines[|lines| - 1], overlap) && Fits(m, lines[|lines| - 1])
    ensures RunAt(lines, overlap, outp[..|outp| - 1] + [Absorb(m, lines[|lines| - 1])], c, |c| - 1)
  {
    var out := outp[..|outp| - 1] + [Absorb(m, lines[|lines| - 1])];
    LastRunBefore(lines, overlap, c, outp);
    LastRunAbsorb(lines, overlap, c[|c| - 1], m);
    assert |out| == |c| && out[|c| - 1] == Absorb(m, lines[|lines| - 1]);
    LastRunAfter(lines, overlap, c, out);
  }

  /** The last run of the lines before the last one, read off `RunAt`. */
  lemma LastRunBefore(lines: seq<Line>, overlap: int, c: seq<nat>, outp: seq<Line>)
    requires |lines| > 1 && |c| > 0 && c[|c| - 1] < |lines| - 1
    requires RunAt(lines[..|lines| - 1], overlap, outp, c, |c| - 1)
    ensures Coalesce(lines[..|lines| - 1][c[|c| - 1]..]) == Some(outp[|c| - 1])
    ensures IsRun(lines[..|lines| - 1][c[|c| - 1]..], overlap)
  {
    var p := lines[..|lines| - 1];
    var s := c[|c| - 1];
    assert Bound(c, |p|, |c|) == |p|;
    assert p[s..|p|] == p[s..];
  }

  /** `RunAt` for a last run that reaches the end of the lines. */
  lemma LastRunAfter(lines: seq<Line>, overlap: int, c: seq<nat>, out: seq<Line>)
    requires 0 < |c| == |out| && c[|c| - 1] < |lines|
    requires Coalesce(lines[c[|c| - 1]..]) == Some(out[|c| - 1])
    requires IsRun(lines[c[|c| - 1]..], overlap)
    ensures RunAt(lines, overlap, out, c, |c| - 1)
  {
    assert Bound(c, |lines|, |c|) == |lines|;
    assert lines[c[|c| - 1]..|lines|] == lines[c[|c| - 1]..];
  }

  /** The last run grows by the line it absorbs. */
  lemma LastRunAbsorb(lines: seq<Line>, overlap: int, s: nat, m: Line)
    requires s < |lines| - 1
    requires Coalesce(lines[..|lines| - 1][s..]) == Some(m) && IsRun(lines[..|lines| - 1][s..], overlap)
    requires Mergeable(m, lines[|lines| - 1], overlap) && Fits(m, lines[|lines| - 1])
    ensures Coalesce(lines[s..]) == Some(Absorb(m, lines[|lines| - 1]))
    ensures IsRun(lines[s..], overlap)
  {
    var run := lines[s..];
    var prun := lines[..|lines| - 1][s..];
    assert run[..|run| - 1] == prun;
    assert run[|run| - 1] == lines[|lines| - 1];
    forall t | 0 < t < |run|
      ensures Coalesce(run[..t]).Some? && Mergeable(Coalesce(run[..t]).value, run[t], overlap)
    {
      if t < |run| - 1 {
        assert run[..t] == prun[..t];
        assert run[t] == prun[t];
      }
    }
  }

  /** The run structure of a pass with one more line that starts a new run. */
  lemma RunsOpen(lines: seq<Line>, overlap: int, c: seq<nat>, outp: seq<Line>, m: Line)
    requires |lines| > 1
    requires Runs(lines[..|lines| - 1], overlap, outp, c) && outp[|outp| - 1] == m
    requires !Mergeable(m, lines[|lines| - 1], overlap)
    ensures Runs(lines, overlap, outp + [lines[|lines| - 1]], c + [|lines| - 1])
  {
    var n := |lines|;
    var p := lines[..n - 1];
    var l := lines[n - 1];
    var out := outp + [l];
    var c' := c + [n - 1];
    forall k | 0 <= k < |c'| ensures RunAt(lines, overlap, out, c', k) {
      if k < |c| {
        assert RunAt(p, overlap, outp, c, k);
        assert Bound(c', n, k + 1) == Bound(c, n - 1, k + 1);
        assert lines[c[k]..Bound(c, n - 1, k + 1)] == p[c[k]..Bound(c, n - 1, k + 1)];
        assert out[k] == outp[k];
      } else {
        assert lines[n - 1..n] == [l];
      }
    }
    forall k | 0 <= k < |c'| - 1 ensures Maximal(lines, overlap, out, c', k) {
      if k < |c| - 1 {
        assert Maximal(p, overlap, outp, c, k);
      }
      assert out[k] == outp[k];
    }
  }

  /** Main theorem: a pass that does not panic returns the maximal runs, coalesced, in input order. */
  lemma {:induction false} SweepRuns(lines: seq<Line>, overlap: int)
    requires |lines| > 0 && Merge(lines, overlap).Some?
    ensures Runs(lines, overlap, Merge(lines, overlap).value, Starts(lines, overlap))
    decreases |lines|
  {
    var n := |lines|;
    var l := lines[n - 1];
    if n == 1 {
      assert lines[0..1] == lines;
    } else {
      var p := lines[..n - 1];
      var stp := SweepLines(p, overlap).value;
      SweepRuns(p, overlap);
      var outp := stp.emitted + [stp.merged];
      var c := Starts(p, overlap);
      assert lines[..n - 1] == p;
      assert SweepLines(lines, overlap) == Step(stp, l, false, overlap);
      if Mergeable(stp.merged, l, overlap) {
        assert Starts(lines, overlap) == c;
        var st := SweepLines(lines, overlap).value;
        assert st == Sweep(stp.emitted, Absorb(stp.merged, l));
        RunsAbsorb(lines, overlap, c, outp, stp.merged);
        assert outp[..|outp| - 1] == stp.emitted;
        assert Merge(lines, overlap).value == outp[..|outp| - 1] + [Absorb(stp.merged, l)];
      } else {
        assert Starts(lines, overlap) == c + [n - 1];
        var st := SweepLines(lines, overlap).value;
        assert st == Sweep(stp.emitted + [stp.merged], l);
        RunsOpen(lines, overlap, c, outp, stp.merged);
        assert Merge(lines, overlap).value == outp + [l];
      }
    }
  }

  /** The accumulator after the pass over `lines` (the zero line if it panicked). */
  function Accumulator(lines: seq<Line>, overlap: int): Line {
    match SweepLines(lines, overlap)
    case None => ZeroLine
    case Some(st) => st.merged
  }

  /**
    Position `i` starts a new run exactly when it is the first line or it is
    not mergeable with the accumulator built from the lines before it.
  */
  lemma StartsExactly(lines: seq<Line>, overlap: int)
    requires SweepLines(lines, overlap).Some?
    ensures forall i :: 0 <= i < |lines| ==>
      (i in Starts(lines, overlap) <==>
       i == 0 || !Mergeable(Accumulator(lines[..i], overlap), lines[i], overlap))
  {
    forall i | 0 <= i < |lines|
      ensures i in Starts(lines, overlap) <==>
        i == 0 || !Mergeable(Accumulator(lines[..i], overlap), lines[i], overlap)
    {
      StartsAt(lines, overlap, i);
    }
  }

  /** `StartsExactly` at one position. */
  lemma StartsAt(lines: seq<Line>, overlap: int, i: nat)
    requires i < |lines| && SweepLines(lines, overlap).Some?
    ensures i in Starts(lines, overlap) <==>
      i == 0 || !Mergeable(Accumulator(lines[..i], overlap), lines[i], overlap)
  {
    StartsPrefixMember(lines, overlap, i, i + 1);
    SweepPrefix(lines, i + 1, overlap);
    StartsLastOf(lines, overlap, i);
  }

  /** `StartsLast` for the prefix of `lines` that ends at position `i`. */
  lemma StartsLastOf(lines: seq<Line>, overlap: int, i: nat)
    requires i < |lines| && SweepLines(lines[..i + 1], overlap).Some?
    ensures i in Starts(lines[..i + 1], overlap) <==>
      i == 0 || !Mergeable(Accumulator(lines[..i], overlap), lines[i], overlap)
  {
    var q := lines[..i + 1];
    assert q[..i] == lines[..i] && q[i] == lines[i];
    StartsLast(q, overlap);
  }

  /** Whether position `i` starts a run does not depend on the lines after it. */
  lemma {:induction false} StartsPrefixMember(lines: seq<Line>, overlap: int, i: nat, m: nat)
    requires i < m <= |lines|
    ensures i in Starts(lines, overlap) <==> i in Starts(lines[..m], overlap)
    decreases |lines|
  {
    if m < |lines| {
      var p := lines[..|lines| - 1];
      StartsEarlier(lines, overlap, i);
      StartsPrefixMember(p, overlap, i, m);
      assert p[..m] == lines[..m];
    } else {
      assert lines[..m] == lines;
    }
  }

  /** A position before the last line starts a run exactly when it does without the last line. */
  lemma StartsEarlier(lines: seq<Line>, overlap: int, i: nat)
    requires i + 1 < |lines|
    ensures i in Starts(lines, overlap) <==> i in Starts(lines[..|lines| - 1], overlap)
  {
    var p := lines[..|lines| - 1];
    var extra := if JoinsLast(lines, overlap) then [] else [|p|];
    assert Starts(lines, overlap) == Starts(p, overlap) + extra;
    assert i !in extra;
  }

  /** The last line starts a run exactly when it is the only line or does not join the accumulator. */
  lemma StartsLast(lines: seq<Line>, overlap: int)
    requires |lines| > 0 && SweepLines(lines, overlap).Some?
    ensures |lines| - 1 in Starts(lines, overlap) <==>
      |lines| - 1 == 0 || !Mergeable(Accumulator(lines[..|lines| - 1], overlap), lines[|lines| - 1], overlap)
  {
    StartsLastJoins(lines, overlap);
    SweepPrefix(lines, |lines| - 1, overlap);
    JoinsAccumulator(lines, overlap);
  }

  lemma StartsLastJoins(lines: seq<Line>, overlap: int)
    requires |lines| > 0
    ensures |lines| - 1 in Starts(lines, overlap) <==> !JoinsLast(lines, overlap)
  {
    var p := lines[..|lines| - 1];
    var c := Starts(p, overlap);
    var extra := if JoinsLast(lines, overlap) then [] else [|p|];
    assert Starts(lines, overlap) == c + extra;
    assert |p| !in c;
  }

  lemma JoinsAccumulator(lines: seq<Line>, overlap: int)
    requires |lines| > 0 && SweepLines(lines[..|lines| - 1], overlap).Some?
    ensures JoinsLast(lines, overlap) <==>
      |lines| - 1 > 0 && Mergeable(Accumulator(lines[..|lines| - 1], overlap), lines[|lines| - 1], overlap)
  {
  }

  /**
    A change of grouping key between neighbouring lines always starts a new
    run, however close the intervals are.
  */
  lemma KeyChangeStartsRun(lines: seq<Line>, overlap: int, i: nat)
    requires 0 < i < |lines| && SweepLines(lines, overlap).Some?
    requires !SameKey(lines[i - 1], lines[i])
    ensures i in Starts(lines, overlap)
  {
    assert lines[..i][i - 1] == lines[i - 1];
    SweepPrefix(lines, i, overlap);
    AccumulatorKey(lines[..i], overlap);
    StartsAt(lines, overlap, i);
  }

  /** Run `k` of the lines: from its first line up to the next run's first line. */
  function RunOf(lines: seq<Line>, overlap: int, k: nat): seq<Line>
    requires k < |Starts(lines, overlap)|
  {
    var c := Starts(lines, overlap);
    lines[c[k]..Bound(c, |lines|, k + 1)]
  }

  /** Output line `k` is the coalesced run `k`, and that run is a run. */
  lemma OutputRun(lines: seq<Line>, overlap: int, k: nat)
    requires |lines| > 0 && Merge(lines, overlap).Some? && k < |Merge(lines, overlap).value|
    ensures |Starts(lines, overlap)| == |Merge(lines, overlap).value|
    ensures Coalesce(RunOf(lines, overlap, k)) == Some(Merge(lines, overlap).value[k])
    ensures IsRun(RunOf(lines, overlap, k), overlap)
    ensures RunOf(lines, overlap, k)[0] == lines[Starts(lines, overlap)[k]]
  {
    SweepRuns(lines, overlap);
    assert RunAt(lines, overlap, Merge(lines, overlap).value, Starts(lines, overlap), k);
  }

  /**
    Output size and order: one output line per run start, at least one and at
    most one per input line; output `k` has the chromosome, start, strand and
    feature of the first line of run `k`, and the runs' first lines appear in
    input order.
  */
  lemma OutputHeads(lines: seq<Line>, overlap: int)
    requires |lines| > 0 && Merge(lines, overlap).Some?
    ensures var out := Merge(lines, overlap).value; var c := Starts(lines, overlap);
      |out| == |c| && 1 <= |out| <= |lines| &&
      (forall k, k' :: 0 <= k < k' < |c| ==> c[k] < c[k']) &&
      forall k :: 0 <= k < |out| ==>
        out[k].chr == lines[c[k]].chr && out[k].start == lines[c[k]].start &&
        out[k].strand == lines[c[k]].strand && out[k].feat == lines[c[k]].feat &&
        |out[k].full| == |lines[c[k]].full| &&
        forall j :: 0 <= j < StopIdx && j < |out[k].full| ==> out[k].full[j] == lines[c[k]].full[j]
  {
    var out := Merge(lines, overlap).value;
    var c := Starts(lines, overlap);
    SweepRuns(lines, overlap);
    forall k | 0 <= k < |out|
      ensures out[k].chr == lines[c[k]].chr && out[k].start == lines[c[k]].start &&
        out[k].strand == lines[c[k]].strand && out[k].feat == lines[c[k]].feat &&
        |out[k].full| == |lines[c[k]].full| &&
        forall j :: 0 <= j < StopIdx && j < |out[k].full| ==> out[k].full[j] == lines[c[k]].full[j]
    {
      OutputRun(lines, overlap, k);
    }
    StartsIncreasing(c, |lines|);
  }

  /** Increasing neighbours make the whole sequence increasing. */
  lemma {:induction false} StartsIncreasing(c: seq<nat>, n: nat)
    requires forall k :: 0 < k < |c| ==> c[k - 1] < c[k]
    ensures forall k, k' :: 0 <= k < k' < |c| ==> c[k] < c[k']
    decreases |c|
  {
    if |c| > 1 {
      var q := c[..|c| - 1];
      assert forall k :: 0 <= k < |q| ==> q[k] == c[k];
      StartsIncreasing(q, n);
      forall k, k' | 0 <= k < k' < |c| ensures c[k] < c[k'] {
        if k' < |c| - 1 {
          assert q[k] < q[k'];
        } else if k < k' - 1 {
          assert q[k] < q[k' - 1];
        }
      }
    }
  }

  /**
    The stop of output `k` is the largest stop of its run; its stop column
    holds that value's decimal text when a later line of the run raised the
    stop, and the first line's own text otherwise.
  */
  lemma OutputStop(lines: seq<Line>, overlap: int, k: nat)
    requires |lines| > 0 && Merge(lines, overlap).Some? && k < |Merge(lines, overlap).value|
    ensures |Starts(lines, overlap)| == |Merge(lines, overlap).value|
    ensures |Merge(lines, overlap).value[k].full| == |RunOf(lines, overlap, k)[0].full|
    ensures var out := Merge(lines, overlap).value; var run := RunOf(lines, overlap, k);
      out[k].stop == MaxStop(run) &&
      (forall t :: 0 <= t < |run| ==> run[t].stop <= out[k].stop) &&
      (StopIdx < |run[0].full| ==>
         out[k].full[StopIdx] == if MaxStop(run) > run[0].stop then Itoa(MaxStop(run)) else run[0].full[StopIdx])
  {
    OutputRun(lines, overlap, k);
    CoalesceStop(RunOf(lines, overlap, k));
  }

  /**
    Each optional column of output `k` is the set-union of the run's values:
    the first line's entries come first, every comma-free value of a later line
    appears, a value already present is not added again, and new values follow
    in first-seen order.
  */
  lemma OutputColumn(lines: seq<Line>, overlap: int, k: nat, j: nat)
    requires |lines| > 0 && Merge(lines, overlap).Some? && k < |Starts(lines, overlap)|
    requires StopIdx < j < |RunOf(lines, overlap, k)[0].full|
    requires CommaFree(ColumnValues(RunOf(lines, overlap, k)[1..], j))
    ensures |Starts(lines, overlap)| == |Merge(lines, overlap).value|
    ensures |Merge(lines, overlap).value[k].full| == |RunOf(lines, overlap, k)[0].full|
    ensures var col := Merge(lines, overlap).value[k].full[j];
      var run := RunOf(lines, overlap, k); var base := Split(run[0].full[j]);
      var vals := ColumnValues(run[1..], j);
      Split(col) == base + NewValues(base, vals) &&
      (forall v :: v in vals ==> v in Split(col)) &&
      (NoDup(base) ==> NoDup(Split(col)))
  {
    var run := RunOf(lines, overlap, k);
    SweepRuns(lines, overlap);
    OutputRun(lines, overlap, k);
    CoalesceColumn(run, j);
    RunColumnUnion(run, j);
  }

  /**
    No two consecutive output lines are mergeable: the later one differs in
    grouping key or starts beyond the earlier one's stop plus the tolerance.
  */
  lemma OutputsApart(lines: seq<Line>, overlap: int)
    requires Merge(lines, overlap).Some?
    ensures var out := Merge(lines, overlap).value;
      forall k :: 0 <= k < |out| - 1 ==>
        !SameKey(out[k], out[k + 1]) || out[k].stop + overlap < out[k + 1].start - 1
  {
    var out := Merge(lines, overlap).value;
    if |lines| > 0 {
      var c := Starts(lines, overlap);
      SweepRuns(lines, overlap);
      forall k | 0 <= k < |out| - 1
        ensures !SameKey(out[k], out[k + 1]) || out[k].stop + overlap < out[k + 1].start - 1
      {
        assert Maximal(lines, overlap, out, c, k);
        OutputRun(lines, overlap, k + 1);
      }
    }
  }

  /** A pass over lines no two neighbours of which are mergeable copies them unchanged. */
  lemma {:induction false} SweepApart(xs: seq<Line>, overlap: int)
    requires |xs| > 0
    requires forall k :: 0 <= k < |xs| - 1 ==> !Mergeable(xs[k], xs[k + 1], overlap)
    ensures SweepLines(xs, overlap) == Some(Sweep(xs[..|xs| - 1], xs[|xs| - 1]))
    decreases |xs|
  {
    var n := |xs|;
    if n > 1 {
      var p := xs[..n - 1];
      assert forall k :: 0 <= k < |p| ==> p[k] == xs[k];
      SweepApart(p, overlap);
      assert p[..n - 2] + [p[n - 2]] == xs[..n - 1];
    }
  }

  /** Merging the merged lines again changes nothing. */
  lemma MergeIdempotent(lines: seq<Line>, overlap: int)
    requires Merge(lines, overlap).Some?
    ensures Merge(Merge(lines, overlap).value, overlap) == Merge(lines, overlap)
  {
    var out := Merge(lines, overlap).value;
    OutputsApart(lines, overlap);
    SweepApart(out, overlap);
    assert out[..|out| - 1] + [out[|out| - 1]] == out;
  }

  /**
    When every line has the same number of columns, at least the three
    mandatory ones, the pass never panics.
  */
  lemma {:induction false} UniformColumnsNoPanic(lines: seq<Line>, overlap: int, w: nat)
    requires StopIdx < w
    requires forall i :: 0 <= i < |lines| ==> |lines[i].full| == w
    ensures Merge(lines, overlap).Some?
    ensures |lines| > 0 ==> |SweepLines(lines, overlap).value.merged.full| == w
    decreases |lines|
  {
    if |lines| > 0 {
      var p := lines[..|lines| - 1];
      assert forall i :: 0 <= i < |p| ==> p[i] == lines[i];
      UniformColumnsNoPanic(p, overlap, w);
    }
  }
}
