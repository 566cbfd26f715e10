/** Detection of runs of missing genotypes (`Locus::step_many_unknown_intervals_mut`
    and `Locus::find_unknown_intervals` in src/geneobject.rs), written as a fold
    over locus indices whose state holds, per strain, the start of the run
    still open and the half-open ranges `[start, end)` already closed. */
module Intervals {
  import opened Wrappers
  import opened Types

  /** The half-open locus-index range `[start, end)`. */
  datatype Range = Range(start: nat, end: nat)

  /** Per strain: the start of the currently open run of unknowns, and the closed runs so far. */
  datatype ScanState = ScanState(open: seq<Option<nat>>, closed: seq<seq<Range>>)

  /** One strain's step at locus `ix`: an unknown opens a run unless one is
      open already; a known genotype closes the open run at `ix`. */
  function StepOne(open: Option<nat>, closed: seq<Range>, ix: nat, unk: bool): (Option<nat>, seq<Range>) {
    if unk then
      (if open.None? then Some(ix) else open, closed)
    else if open.Some? then
      (None, closed + [Range(open.value, ix)])
    else
      (None, closed)
  }

  /** The state before the first locus: nothing open, nothing closed, for `n` strains. */
  function InitState(n: nat): (r: ScanState)
    ensures |r.open| == n && |r.closed| == n
  {
    ScanState(seq(n, _ => None), seq(n, _ => []))
  }

  /** `step_many_unknown_intervals_mut`: every strain of the row takes its own
      step; strains beyond the end of the row are left as they were. */
  function StepMany(st: ScanState, ix: nat, row: seq<Slot>): (r: ScanState)
    requires |row| <= |st.open| && |st.closed| == |st.open|
    ensures |r.open| == |st.open| && |r.closed| == |st.closed|
    ensures forall s :: 0 <= s < |row| ==>
      (r.open[s], r.closed[s]) == StepOne(st.open[s], st.closed[s], ix, row[s].tag == Unk)
    ensures forall s :: |row| <= s < |st.open| ==> r.open[s] == st.open[s] && r.closed[s] == st.closed[s]
  {
    ScanState(
      seq(|st.open|, s requires 0 <= s < |st.open| =>
        if s < |row| then StepOne(st.open[s], st.closed[s], ix, row[s].tag == Unk).0 else st.open[s]),
      seq(|st.open|, s requires 0 <= s < |st.open| =>
        if s < |row| then StepOne(st.open[s], st.closed[s], ix, row[s].tag == Unk).1 else st.closed[s]))
  }

  /** No row is wider than the first one (the strain count is read from the first locus). */
  predicate RowsFit(loci: seq<Locus>) {
    |loci| > 0 ==> forall k :: 0 <= k < |loci| ==> |loci[k].genotype| <= |loci[0].genotype|
  }

  /** The fold state after the first `k` loci. */
  function Scan(loci: seq<Locus>, k: nat): (r: ScanState)
    requires |loci| > 0 && RowsFit(loci) && k <= |loci|
    ensures |r.open| == |loci[0].genotype| && |r.closed| == |loci[0].genotype|
    decreases k
  {
    if k == 0 then InitState(|loci[0].genotype|)
    else StepMany(Scan(loci, k - 1), k - 1, loci[k - 1].genotype)
  }

  /** `find_unknown_intervals`: the closed runs per strain after the last
      locus; an empty locus list has no first locus to size the state. */
  function FindUnknownIntervals(loci: seq<Locus>): (r: Result<seq<seq<Range>>, Error>)
    requires RowsFit(loci)
    ensures r.Err? <==> |loci| == 0
    ensures r.Ok? ==> |r.value| == |loci[0].genotype|
  {
    if |loci| == 0 then Err(EmptyChromosome) else Ok(Scan(loci, |loci|).closed)
  }

  // ---------------------------------------------------------------------
  // One strain at a time: the column of "is unknown" flags.

  /** Every row has the same width as the first (the dataset's strain count). */
  predicate Rect(loci: seq<Locus>) {
    |loci| > 0 && forall k :: 0 <= k < |loci| ==> |loci[k].genotype| == |loci[0].genotype|
  }

  function Width(loci: seq<Locus>): nat
    requires |loci| > 0
  {
    |loci[0].genotype|
  }

  /** Whether strain `s` is unknown at each locus. */
  function Column(loci: seq<Locus>, s: nat): (col: seq<bool>)
    requires Rect(loci) && s < Width(loci)
    ensures |col| == |loci|
    ensures forall k :: 0 <= k < |loci| ==> col[k] == (loci[k].genotype[s].tag == Unk)
  {
    seq(|loci|, k requires 0 <= k < |loci| => loci[k].genotype[s].tag == Unk)
  }

  /** The fold restricted to one strain's column. */
  function ScanCol(col: seq<bool>, k: nat): (Option<nat>, seq<Range>)
    requires k <= |col|
    decreases k
  {
    if k == 0 then (None, [])
    else
      var st := ScanCol(col, k - 1);
      StepOne(st.0, st.1, k - 1, col[k - 1])
  }

  /** The many-strain fold is the one-strain fold on every column. */
  lemma {:induction false} ScanProjects(loci: seq<Locus>, s: nat, k: nat)
    requires Rect(loci) && s < Width(loci) && k <= |loci|
    ensures Scan(loci, k).open[s] == ScanCol(Column(loci, s), k).0
    ensures Scan(loci, k).closed[s] == ScanCol(Column(loci, s), k).1
    decreases k
  {
    if k > 0 {
      ScanProjects(loci, s, k - 1);
    }
  }

  /** All of `[a, b)` is unknown. */
  predicate AllUnk(col: seq<bool>, a: nat, b: nat)
    requires b <= |col|
  {
    forall i :: a <= i < b ==> col[i]
  }

  /** `[a, b)` is a maximal run of unknowns closed by the known index `b < k`. */
  predicate ClosedRun(col: seq<bool>, k: nat, a: nat, b: nat) {
    a < b < k <= |col| && AllUnk(col, a, b) && !col[b] && (a == 0 || !col[a - 1])
  }

  /** `[a, k)` is a run of unknowns that starts maximally and reaches the last scanned index. */
  predicate OpenRun(col: seq<bool>, k: nat, a: nat) {
    a < k <= |col| && AllUnk(col, a, k) && (a == 0 || !col[a - 1])
  }

  /** Non-empty ranges, each one ending strictly before the next one starts. */
  predicate Increasing(rs: seq<Range>) {
    && (forall j :: 0 <= j < |rs| ==> rs[j].start < rs[j].end)
    && (forall i, j :: 0 <= i < j < |rs| ==> rs[i].end < rs[j].start)
  }

  /** What the one-strain state means after `k` loci. */
  ghost predicate ScanInv(col: seq<bool>, k: nat, st: (Option<nat>, seq<Range>)) {
    && k <= |col|
    && (forall r :: r in st.1 ==> ClosedRun(col, k, r.start, r.end))
    && (forall a: nat, b: nat :: ClosedRun(col, k, a, b) ==> Range(a, b) in st.1)
    && Increasing(st.1)
    && (st.0.None? <==> (k == 0 || !col[k - 1]))
    && (st.0.Some? ==> OpenRun(col, k, st.0.value))
  }

  /** Two maximal starts of runs reaching the same index coincide. */
  lemma RunStartUnique(col: seq<bool>, k: nat, a: nat, a0: nat)
    requires k <= |col|
    requires a < k && AllUnk(col, a, k) && (a == 0 || !col[a - 1])
    requires a0 < k && AllUnk(col, a0, k) && (a0 == 0 || !col[a0 - 1])
    ensures a == a0
  {
  }

  /** One step keeps the meaning of the state. */
  lemma StepKeepsInv(col: seq<bool>, k: nat, st: (Option<nat>, seq<Range>))
    requires k < |col| && ScanInv(col, k, st)
    ensures ScanInv(col, k + 1, StepOne(st.0, st.1, k, col[k]))
  {
    var nx := StepOne(st.0, st.1, k, col[k]);
    forall r | r in nx.1
      ensures ClosedRun(col, k + 1, r.start, r.end)
    {
      if r !in st.1 {
        assert r == Range(st.0.value, k);
      }
    }
    forall a: nat, b: nat | ClosedRun(col, k + 1, a, b)
      ensures Range(a, b) in nx.1
    {
      if b < k {
        assert ClosedRun(col, k, a, b);
      } else {
        assert col[k - 1];
        RunStartUnique(col, k, a, st.0.value);
      }
    }
    if !col[k] && st.0.Some? {
      var a := st.0.value;
      forall i | 0 <= i < |st.1|
        ensures st.1[i].end < a
      {
        assert st.1[i] in st.1;
        assert ClosedRun(col, k, st.1[i].start, st.1[i].end);
      }
    }
  }

  /** The one-strain fold means what it should after every prefix. */
  lemma {:induction false} ScanColInv(col: seq<bool>, k: nat)
    requires k <= |col|
    ensures ScanInv(col, k, ScanCol(col, k))
    decreases k
  {
    // The steps below need only the invariant's name, not its meaning.
    hide ScanInv, StepOne;
    if k > 0 {
      ScanColInv(col, k - 1);
      StepKeepsInv(col, k - 1, ScanCol(col, k - 1));
    } else {
      ScanInvStart(col);
    }
  }

  /** Before the first index nothing is open or closed. */
  lemma ScanInvStart(col: seq<bool>)
    ensures ScanInv(col, 0, ScanCol(col, 0))
  {
  }

  /** `find_unknown_intervals` returns, for each strain, exactly the maximal
      runs of unknowns closed by a known locus, as non-empty ranges in
      strictly increasing, disjoint order; a run reaching the last locus is
      not among them. */
  lemma FindUnknownIntervalsSpec(loci: seq<Locus>, s: nat)
    requires Rect(loci) && s < Width(loci)
    ensures FindUnknownIntervals(loci).Ok?
    ensures var rs := FindUnknownIntervals(loci).value[s];
      && (forall r :: r in rs ==> ClosedRun(Column(loci, s), |loci|, r.start, r.end))
      && (forall a: nat, b: nat :: ClosedRun(Column(loci, s), |loci|, a, b) ==> Range(a, b) in rs)
      && Increasing(rs)
      && (forall r :: r in rs ==> r.end < |loci| && !loci[r.end].genotype[s].tag.Unk?)
  {
    ScanProjects(loci, s, |loci|);
    ScanColInv(Column(loci, s), |loci|);
  }

  // ---------------------------------------------------------------------
  // Nearest known neighbours, the reference the runs are compared against.

  /** The nearest known index before `i` (index 0 is known). */
  function PrevKnown(col: seq<bool>, i: nat): (j: nat)
    requires 0 < i < |col| && !col[0]
    ensures j < i && !col[j] && forall t :: j < t < i ==> col[t]
    decreases i
  {
    if !col[i - 1] then i - 1 else PrevKnown(col, i - 1)
  }

  /** The nearest known index after `i` (the last index is known). */
  function NextKnown(col: seq<bool>, i: nat): (j: nat)
    requires i < |col| - 1 && !col[|col| - 1]
    ensures i < j < |col| && !col[j] && forall t :: i < t < j ==> col[t]
    decreases |col| - i
  {
    if !col[i + 1] then i + 1 else NextKnown(col, i + 1)
  }

  /** When both ends of the column are known, every unknown index lies in the
      closed run between its nearest known neighbours. */
  lemma UnknownLiesInRun(col: seq<bool>, i: nat)
    requires 0 < |col| && !col[0] && !col[|col| - 1]
    requires i < |col| && col[i]
    ensures 0 < i < |col| - 1
    ensures ClosedRun(col, |col|, PrevKnown(col, i) + 1, NextKnown(col, i))
  {
  }

  /** Inside a closed run whose column starts known, the flanks of the run
      are the nearest known neighbours of each of its indices. */
  lemma RunFlanksAreNearest(col: seq<bool>, a: nat, b: nat, i: nat)
    requires 0 < |col| && !col[0] && !col[|col| - 1]
    requires ClosedRun(col, |col|, a, b) && a <= i < b
    ensures 0 < a && PrevKnown(col, i) == a - 1 && NextKnown(col, i) == b
  {
    var p := PrevKnown(col, i);
    var q := NextKnown(col, i);
  }

  /** A three-strain row with the genotypes' encoded dosages. */
  function ExampleRow(a: Genotype, b: Genotype, c: Genotype): Locus {
    Locus(None, [Slot(a, Encoding(a)), Slot(b, Encoding(b)), Slot(c, Encoding(c))], Marker("", 0.0, None, "1"))
  }

  /** The example's first, second and third strain columns scan as the source's test expects. */
  lemma WorkedExampleColumns()
    ensures ScanCol([false, true, true, true, false, false], 6).1 == [Range(1, 4)]
    ensures ScanCol([false, false, true, true, false, false], 6).1 == [Range(2, 4)]
    ensures ScanCol([false, true, false, true, true, false], 6).1 == [Range(1, 2), Range(3, 5)]
  {
  }

  /** The example's loci, read column by column. */
  lemma ExampleLociColumns(loci: seq<Locus>)
    requires loci == [ExampleRow(Mat, Mat, Pat), ExampleRow(Unk, Pat, Unk), ExampleRow(Unk, Unk, Pat),
                      ExampleRow(Unk, Unk, Unk), ExampleRow(Pat, Mat, Unk), ExampleRow(Pat, Mat, Mat)]
    ensures Rect(loci) && RowsFit(loci) && Width(loci) == 3 && |loci| == 6
    ensures Column(loci, 0) == [false, true, true, true, false, false]
    ensures Column(loci, 1) == [false, false, true, true, false, false]
    ensures Column(loci, 2) == [false, true, false, true, true, false]
  {
    assert Rect(loci);
    assert Column(loci, 0) == [false, true, true, true, false, false];
    assert Column(loci, 1) == [false, false, true, true, false, false];
    assert Column(loci, 2) == [false, true, false, true, true, false];
  }

  /** The worked example of the source's own test: three strains, six loci. */
  lemma WorkedExample()
    ensures
      var loci := [ExampleRow(Mat, Mat, Pat), ExampleRow(Unk, Pat, Unk), ExampleRow(Unk, Unk, Pat),
                   ExampleRow(Unk, Unk, Unk), ExampleRow(Pat, Mat, Unk), ExampleRow(Pat, Mat, Mat)];
      FindUnknownIntervals(loci) == Ok([[Range(1, 4)], [Range(2, 4)], [Range(1, 2), Range(3, 5)]])
  {
    var loci := [ExampleRow(Mat, Mat, Pat), ExampleRow(Unk, Pat, Unk), ExampleRow(Unk, Unk, Pat),
                 ExampleRow(Unk, Unk, Unk), ExampleRow(Pat, Mat, Unk), ExampleRow(Pat, Mat, Mat)];
    // The steps below need only the columns and the scan's contracts.
    hide ExampleRow, Scan, StepMany, ScanCol, Column;
    ExampleLociColumns(loci);
    WorkedExampleColumns();
    ScanProjects(loci, 0, 6);
    ScanProjects(loci, 1, 6);
    ScanProjects(loci, 2, 6);
    var cl := Scan(loci, 6).closed;
    assert |cl| == 3;
    assert cl[0] == [Range(1, 4)];
    assert cl[1] == [Range(2, 4)];
    assert cl[2] == [Range(1, 2), Range(3, 5)];
    assert cl == [[Range(1, 4)], [Range(2, 4)], [Range(1, 2), Range(3, 5)]];
  }
}
