/**
  The merger on the `testMergeChrOnly` and `testMergeChrStrand` lines of
  internal/bed/merging_test.go, fed in the order the sort gives them:
  chromosome "1" (strand "-1" before strand "1") by start, the (5,8) lines in
  their input order, then chromosome "2".
*/
module MergeExamples {
  import opened Wrappers
  import opened Text
  import opened Merging
  import opened MergeRuns

  // The seven input lines, named by their position in the test's slice.
  const T1: Line := Line("1", 1, 4, "", "", ["1", "1", "4", "1", "A"])
  const T2: Line := Line("1", 5, 8, "", "", ["1", "5", "8", "1", "A"])
  const T3: Line := Line("1", 6, 8, "", "", ["1", "6", "8", "1", "A"])
  const T4: Line := Line("1", 5, 8, "", "", ["1", "5", "8", "-1", "A"])
  const T5: Line := Line("2", 6, 8, "", "", ["2", "6", "8", "1", "A"])
  const T6: Line := Line("1", 5, 8, "", "", ["1", "5", "8", "1", "B"])
  const T7: Line := Line("1", 20, 30, "", "", ["1", "20", "30", "1", "A"])

  const Sorted: seq<Line> := [T1, T2, T4, T6, T3, T7, T5]

  // Accumulators of the run that starts at (1,4).
  const R2: Line := Line("1", 1, 8, "", "", ["1", "1", "8", "1", "A"])
  const R3: Line := Line("1", 1, 8, "", "", ["1", "1", "8", "1,-1", "A"])
  const R4: Line := Line("1", 1, 8, "", "", ["1", "1", "8", "1,-1", "A,B"])
  const R6: Line := Line("1", 1, 30, "", "", ["1", "1", "30", "1,-1", "A,B"])

  // Accumulators of the run that starts at (5,8), when (1,4) stays apart.
  const N3: Line := Line("1", 5, 8, "", "", ["1", "5", "8", "1,-1", "A"])
  const N4: Line := Line("1", 5, 8, "", "", ["1", "5", "8", "1,-1", "A,B"])

  /** Absorbing a line into a five-column accumulator, column by column. */
  lemma AbsorbFiveColumns(m: Line, l: Line)
    requires |m.full| == 5 && |l.full| == 5
    ensures Fits(m, l)
    ensures Absorb(m, l) ==
      m.(stop := if l.stop > m.stop then l.stop else m.stop,
         full := [m.full[0], m.full[1], if l.stop > m.stop then Itoa(l.stop) else m.full[2],
                  UnionColumn(m.full[3], l.full[3]), UnionColumn(m.full[4], l.full[4])])
  {
    var s := if l.stop > m.stop then Itoa(l.stop) else m.full[2];
    var full := if l.stop > m.stop then m.full[StopIdx := Itoa(l.stop)] else m.full;
    assert Absorb(m, l).full == UnionColumns(full, l.full);
    assert |full| == 5 && full[0] == m.full[0] && full[1] == m.full[1] && full[2] == s;
    assert full[3] == m.full[3] && full[4] == m.full[4];
    UnionColumnsFive(full, l.full);
  }

  /** On five columns only the two optional ones are unioned. */
  lemma UnionColumnsFive(a: seq<string>, b: seq<string>)
    requires |a| == 5 && |b| == 5
    ensures UnionColumns(a, b) == [a[0], a[1], a[2], UnionColumn(a[3], b[3]), UnionColumn(a[4], b[4])]
  {
    var r := UnionColumns(a, b);
    assert r[3] == UnionColumn(a[3], b[3]) && r[4] == UnionColumn(a[4], b[4]);
  }

  /** A comma-free value not present in a single-entry column is appended. */
  lemma UnionNewValue(acc: string, col: string)
    requires Comma !in acc && Comma !in col && acc != col
    ensures UnionColumn(acc, col) == acc + [Comma] + col
  {
    SplitSingle(acc);
  }

  /** A value equal to a single-entry column leaves it unchanged. */
  lemma UnionPresentValue(acc: string)
    requires Comma !in acc
    ensures UnionColumn(acc, acc) == acc
  {
    SplitSingle(acc);
  }

  /** A value equal to one entry of a two-entry column leaves it unchanged. */
  lemma UnionPairValue(a: string, b: string, col: string)
    requires Comma !in a && Comma !in b && (col == a || col == b)
    ensures UnionColumn(a + [Comma] + b, col) == a + [Comma] + b
  {
    SplitAppend(a, b);
    SplitSingle(a);
    SplitSingle(b);
  }

  /** The joined column values of the expected lines, written with `Comma` as `Absorb` builds them. */
  lemma CommaJoinedColumns()
    ensures "1" + [Comma] + "-1" == "1,-1" && "A" + [Comma] + "B" == "A,B"
  {
  }

  /** (5,8) with "1", "A" joins (1,4): the stop rises to 8. */
  lemma AbsorbT2()
    ensures Fits(T1, T2) && Absorb(T1, T2) == R2
  {
    AbsorbFiveColumns(T1, T2);
    UnionPresentValue("1");
    UnionPresentValue("A");
    assert Itoa(8) == "8";
  }

  /** (5,8) with "-1" adds "-1" to the fourth column. */
  lemma AbsorbT4()
    ensures Fits(R2, T4) && Absorb(R2, T4) == R3
    ensures Fits(T2, T4) && Absorb(T2, T4) == N3
  {
    AbsorbFiveColumns(R2, T4);
    AbsorbFiveColumns(T2, T4);
    UnionNewValue("1", "-1");
    UnionPresentValue("A");
    CommaJoinedColumns();
  }

  /** (5,8) with "B" adds "B" to the fifth column. */
  lemma AbsorbT6()
    ensures Fits(R3, T6) && Absorb(R3, T6) == R4
    ensures Fits(N3, T6) && Absorb(N3, T6) == N4
  {
    AbsorbFiveColumns(R3, T6);
    AbsorbFiveColumns(N3, T6);
    UnionPairValue("1", "-1", "1");
    UnionNewValue("A", "B");
    CommaJoinedColumns();
  }

  /** (6,8) with "1", "A" brings nothing new. */
  lemma AbsorbT3()
    ensures Fits(R4, T3) && Absorb(R4, T3) == R4
    ensures Fits(N4, T3) && Absorb(N4, T3) == N4
  {
    AbsorbFiveColumns(R4, T3);
    AbsorbFiveColumns(N4, T3);
    UnionPairValue("1", "-1", "1");
    UnionPairValue("A", "B", "A");
    CommaJoinedColumns();
  }

  lemma ItoaThirty()
    ensures Itoa(30) == "30"
  {
    assert NatDigits(3) == "3";
    assert NatDigits(30) == NatDigits(3) + [DigitChar(0)];
  }

  /** (20,30) joining the run raises the stop to 30. */
  lemma AbsorbT7()
    ensures Fits(R4, T7) && Absorb(R4, T7) == R6
  {
    AbsorbFiveColumns(R4, T7);
    UnionPairValue("1", "-1", "1");
    UnionPairValue("A", "B", "A");
    CommaJoinedColumns();
    ItoaThirty();
  }

  /** A line that joins the accumulator is absorbed into it. */
  lemma StepJoin(ls: seq<Line>, l: Line, overlap: int, e: seq<Line>, m: Line, a: Line)
    requires |ls| > 0 && SweepLines(ls, overlap) == Some(Sweep(e, m))
    requires Mergeable(m, l, overlap) && Fits(m, l) && Absorb(m, l) == a
    ensures SweepLines(ls + [l], overlap) == Some(Sweep(e, a))
  {
    assert (ls + [l])[..|ls|] == ls;
  }

  /** A line that does not join the accumulator emits it and starts a new run. */
  lemma StepOpen(ls: seq<Line>, l: Line, overlap: int, e: seq<Line>, m: Line)
    requires |ls| > 0 && SweepLines(ls, overlap) == Some(Sweep(e, m))
    requires !Mergeable(m, l, overlap)
    ensures SweepLines(ls + [l], overlap) == Some(Sweep(e + [m], l))
  {
    assert (ls + [l])[..|ls|] == ls;
  }

  /** The pass over `ls` ends with `Sweep(e, m)`, so it returns `e + [m]`. */
  lemma MergeOf(ls: seq<Line>, overlap: int, e: seq<Line>, m: Line)
    requires SweepLines(ls, overlap) == Some(Sweep(e, m))
    ensures Merge(ls, overlap) == Some(e + [m])
  {
  }

  lemma FirstLine(l: Line, overlap: int)
    ensures SweepLines([l], overlap) == Some(Sweep([], l))
  {
    assert [l][..0] == [];
  }

  lemma FirstTwo(overlap: int)
    requires overlap >= 0
    ensures SweepLines([T1, T2], overlap) == Some(Sweep([], R2))
  {
    FirstLine(T1, overlap);
    AbsorbT2();
    StepJoin([T1], T2, overlap, [], T1, R2);
    assert [T1] + [T2] == [T1, T2];
  }

  lemma FirstThree(overlap: int)
    requires overlap >= 0
    ensures SweepLines([T1, T2, T4], overlap) == Some(Sweep([], R3))
  {
    FirstTwo(overlap);
    AbsorbT4();
    StepJoin([T1, T2], T4, overlap, [], R2, R3);
    assert [T1, T2] + [T4] == [T1, T2, T4];
  }

  lemma FirstFour(overlap: int)
    requires overlap >= 0
    ensures SweepLines([T1, T2, T4, T6], overlap) == Some(Sweep([], R4))
  {
    FirstThree(overlap);
    AbsorbT6();
    StepJoin([T1, T2, T4], T6, overlap, [], R3, R4);
    assert [T1, T2, T4] + [T6] == [T1, T2, T4, T6];
  }

  /** With a tolerance of at least 0, the first five lines form one run. */
  lemma FirstRun(overlap: int)
    requires overlap >= 0
    ensures SweepLines([T1, T2, T4, T6, T3], overlap) == Some(Sweep([], R4))
  {
    FirstFour(overlap);
    AbsorbT3();
    StepJoin([T1, T2, T4, T6], T3, overlap, [], R4, R4);
    assert [T1, T2, T4, T6] + [T3] == [T1, T2, T4, T6, T3];
  }

  /** The last line, on chromosome "2", always starts a run of its own. */
  lemma LastLine(overlap: int, e: seq<Line>, m: Line)
    requires SweepLines([T1, T2, T4, T6, T3, T7], overlap) == Some(Sweep(e, m)) && m.chr == "1"
    ensures Merge(Sorted, overlap) == Some(e + [m, T5])
  {
    StepOpen([T1, T2, T4, T6, T3, T7], T5, overlap, e, m);
    assert [T1, T2, T4, T6, T3, T7] + [T5] == Sorted;
    MergeOf(Sorted, overlap, e + [m], T5);
    assert e + [m] + [T5] == e + [m, T5];
  }

  /**
    Tolerances 0 to 10: (1,4) and the (5,8) and (6,8) lines merge into (1,8)
    with columns "1,-1" and "A,B", while (20,30) and chromosome "2" stay apart.
  */
  lemma ChrOnlyUpToTen(overlap: int)
    requires 0 <= overlap <= 10
    ensures Merge(Sorted, overlap) == Some([R4, T7, T5])
  {
    FirstRun(overlap);
    StepOpen([T1, T2, T4, T6, T3], T7, overlap, [], R4);
    assert [T1, T2, T4, T6, T3] + [T7] == [T1, T2, T4, T6, T3, T7];
    assert [] + [R4] == [R4];
    LastLine(overlap, [R4], T7);
    assert [R4] + [T7, T5] == [R4, T7, T5];
  }

  /** The default tolerance 0. */
  lemma ChrOnlyDefault()
    ensures Merge(Sorted, 0) == Some([
      Line("1", 1, 8, "", "", ["1", "1", "8", "1,-1", "A,B"]),
      Line("1", 20, 30, "", "", ["1", "20", "30", "1", "A"]),
      Line("2", 6, 8, "", "", ["2", "6", "8", "1", "A"])])
  {
    ChrOnlyUpToTen(0);
  }

  /** Tolerance 10: 8 + 10 < 20 - 1, so (20,30) still stays apart. */
  lemma ChrOnlyOverlapTen()
    ensures Merge(Sorted, 10) == Some([
      Line("1", 1, 8, "", "", ["1", "1", "8", "1,-1", "A,B"]),
      Line("1", 20, 30, "", "", ["1", "20", "30", "1", "A"]),
      Line("2", 6, 8, "", "", ["2", "6", "8", "1", "A"])])
  {
    ChrOnlyUpToTen(10);
  }

  /** Tolerance 11: 8 + 11 >= 20 - 1, so (20,30) joins and the stop becomes 30. */
  lemma ChrOnlyOverlapEleven()
    ensures Merge(Sorted, 11) == Some([
      Line("1", 1, 30, "", "", ["1", "1", "30", "1,-1", "A,B"]),
      Line("2", 6, 8, "", "", ["2", "6", "8", "1", "A"])])
  {
    FirstRun(11);
    AbsorbT7();
    StepJoin([T1, T2, T4, T6, T3], T7, 11, [], R4, R6);
    assert [T1, T2, T4, T6, T3] + [T7] == [T1, T2, T4, T6, T3, T7];
    LastLine(11, [], R6);
    assert [] + [R6, T5] == [R6, T5];
  }

  lemma ApartFirstTwo()
    ensures SweepLines([T1, T2], -1) == Some(Sweep([T1], T2))
  {
    FirstLine(T1, -1);
    StepOpen([T1], T2, -1, [], T1);
    assert [T1] + [T2] == [T1, T2] && [] + [T1] == [T1];
  }

  lemma ApartFirstFour()
    ensures SweepLines([T1, T2, T4, T6], -1) == Some(Sweep([T1], N4))
  {
    ApartFirstTwo();
    AbsorbT4();
    StepJoin([T1, T2], T4, -1, [T1], T2, N3);
    assert [T1, T2] + [T4] == [T1, T2, T4];
    AbsorbT6();
    StepJoin([T1, T2, T4], T6, -1, [T1], N3, N4);
    assert [T1, T2, T4] + [T6] == [T1, T2, T4, T6];
  }

  lemma ApartFirstFive()
    ensures SweepLines([T1, T2, T4, T6, T3], -1) == Some(Sweep([T1], N4))
  {
    ApartFirstFour();
    AbsorbT3();
    StepJoin([T1, T2, T4, T6], T3, -1, [T1], N4, N4);
    assert [T1, T2, T4, T6] + [T3] == [T1, T2, T4, T6, T3];
  }

  /**
    Tolerance -1: (1,4) and (5,8) only touch, 4 - 1 < 5 - 1, so (1,4) stays
    alone and the (5,8) and (6,8) lines merge into (5,8).
  */
  lemma ChrOnlyOverlapMinusOne()
    ensures Merge(Sorted, -1) == Some([
      Line("1", 1, 4, "", "", ["1", "1", "4", "1", "A"]),
      Line("1", 5, 8, "", "", ["1", "5", "8", "1,-1", "A,B"]),
      Line("1", 20, 30, "", "", ["1", "20", "30", "1", "A"]),
      Line("2", 6, 8, "", "", ["2", "6", "8", "1", "A"])])
  {
    ApartFirstFive();
    StepOpen([T1, T2, T4, T6, T3], T7, -1, [T1], N4);
    assert [T1, T2, T4, T6, T3] + [T7] == [T1, T2, T4, T6, T3, T7];
    assert [T1] + [N4] == [T1, N4];
    LastLine(-1, [T1, N4], T7);
    assert [T1, N4] + [T7, T5] == [T1, N4, T7, T5];
  }

  // The seven lines of `testMergeChrStrand`, named by their position in the test's slice.
  const S1: Line := Line("1", 1, 4, "1", "", ["1", "1", "4", "1", "A"])
  const S2: Line := Line("1", 5, 8, "1", "", ["1", "5", "8", "1", "A"])
  const S3: Line := Line("1", 6, 8, "1", "", ["1", "6", "8", "1", "A"])
  const S4: Line := Line("1", 5, 8, "-1", "", ["1", "5", "8", "-1", "A"])
  const S5: Line := Line("2", 6, 8, "1", "", ["2", "6", "8", "1", "A"])
  const S6: Line := Line("1", 5, 8, "1", "", ["1", "5", "8", "1", "B"])
  const S7: Line := Line("1", 20, 30, "1", "", ["1", "20", "30", "1", "A"])

  const StrandSorted: seq<Line> := [S4, S1, S2, S6, S3, S7, S5]

  // Accumulators of the strand-"1" run that starts at (1,4).
  const Q2: Line := Line("1", 1, 8, "1", "", ["1", "1", "8", "1", "A"])
  const Q4: Line := Line("1", 1, 8, "1", "", ["1", "1", "8", "1", "A,B"])

  lemma AbsorbS2()
    ensures Fits(S1, S2) && Absorb(S1, S2) == Q2
  {
    AbsorbFiveColumns(S1, S2);
    UnionPresentValue("1");
    UnionPresentValue("A");
    assert Itoa(8) == "8";
  }

  /** The fourth column stays "1"; the fifth gains "B". */
  lemma AbsorbS6()
    ensures Fits(Q2, S6) && Absorb(Q2, S6) == Q4
  {
    AbsorbFiveColumns(Q2, S6);
    UnionPresentValue("1");
    UnionNewValue("A", "B");
    CommaJoinedColumns();
  }

  lemma AbsorbS3()
    ensures Fits(Q4, S3) && Absorb(Q4, S3) == Q4
  {
    AbsorbFiveColumns(Q4, S3);
    UnionPresentValue("1");
    UnionPairValue("A", "B", "A");
    CommaJoinedColumns();
  }

  /** The strand "-1" line cannot join the strand "1" run that follows it. */
  lemma StrandFirstTwo()
    ensures SweepLines([S4, S1], 0) == Some(Sweep([S4], S1))
  {
    FirstLine(S4, 0);
    StepOpen([S4], S1, 0, [], S4);
    assert [S4] + [S1] == [S4, S1] && [] + [S4] == [S4];
  }

  lemma StrandFirstThree()
    ensures SweepLines([S4, S1, S2], 0) == Some(Sweep([S4], Q2))
  {
    StrandFirstTwo();
    AbsorbS2();
    StepJoin([S4, S1], S2, 0, [S4], S1, Q2);
    assert [S4, S1] + [S2] == [S4, S1, S2];
  }

  lemma StrandFirstFour()
    ensures SweepLines([S4, S1, S2, S6], 0) == Some(Sweep([S4], Q4))
  {
    StrandFirstThree();
    AbsorbS6();
    StepJoin([S4, S1, S2], S6, 0, [S4], Q2, Q4);
    assert [S4, S1, S2] + [S6] == [S4, S1, S2, S6];
  }

  lemma StrandFirstFive()
    ensures SweepLines([S4, S1, S2, S6, S3], 0) == Some(Sweep([S4], Q4))
  {
    StrandFirstFour();
    AbsorbS3();
    StepJoin([S4, S1, S2, S6], S3, 0, [S4], Q4, Q4);
    assert [S4, S1, S2, S6] + [S3] == [S4, S1, S2, S6, S3];
  }

  lemma StrandFirstSix()
    ensures SweepLines([S4, S1, S2, S6, S3, S7], 0) == Some(Sweep([S4, Q4], S7))
  {
    StrandFirstFive();
    StepOpen([S4, S1, S2, S6, S3], S7, 0, [S4], Q4);
    assert [S4, S1, S2, S6, S3] + [S7] == [S4, S1, S2, S6, S3, S7];
    assert [S4] + [Q4] == [S4, Q4];
  }

  /**
    The default tolerance on `testMergeChrStrand`: the strand "-1" line (5,8)
    stays apart from the touching strand "1" line (1,4), which merges with the
    (5,8) and (6,8) lines of its own strand into (1,8).
  */
  lemma ChrStrandDefault()
    ensures Merge(StrandSorted, 0) == Some([
      Line("1", 5, 8, "-1", "", ["1", "5", "8", "-1", "A"]),
      Line("1", 1, 8, "1", "", ["1", "1", "8", "1", "A,B"]),
      Line("1", 20, 30, "1", "", ["1", "20", "30", "1", "A"]),
      Line("2", 6, 8, "1", "", ["2", "6", "8", "1", "A"])])
  {
    StrandFirstSix();
    StepOpen([S4, S1, S2, S6, S3, S7], S5, 0, [S4, Q4], S7);
    assert [S4, S1, S2, S6, S3, S7] + [S5] == StrandSorted;
    MergeOf(StrandSorted, 0, [S4, Q4] + [S7], S5);
    assert [S4, Q4] + [S7] + [S5] == [S4, Q4, S7, S5];
  }

  /** A caller of `Bedfile.MergeLines` sees the merged lines in place of the old ones. */
  method MergeLinesClient() {
    var bf := new Bedfile(Sorted, 11);
    ChrOnlyOverlapEleven();
    var panicked := bf.MergeLines();
    assert !panicked && bf.lines == [R6, T5];
    bf.lines := Sorted;
    bf.overlap := 0;
    ChrOnlyDefault();
    panicked := bf.MergeLines();
    assert !panicked && bf.lines == [R4, T7, T5];
  }
}
