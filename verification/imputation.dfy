/** Imputation of missing genotypes on one chromosome (the per-chromosome
    body of `Dataset::estimate_unknown` and `Locus::estimate_unknown_genotypes`
    in src/geneobject.rs): the unknowns of the first and last locus become
    heterozygous, the runs of unknowns are found, and every locus inside a run
    gets the expected dosage (and, for an intercross, dominance) given the
    genotypes flanking the run and the genetic distances to them. */
module Imputation {
  import opened Wrappers
  import opened Types
  import opened Intervals
  import opened DosageTables

  /** The conditional terms as a function of the three distances in Morgans
      (flank to locus, locus to flank, flank to flank); the Haldane map, its
      `exp` and the divisions of `ConditionalTerms` live inside it. */
  type TermsOf = ((real, real, real)) -> Terms

  function Cm(l: Locus): real {
    l.marker.centiMorgan
  }

  /** The three distances the source computes, in Morgans. */
  function Distances(prev: Locus, here: Locus, next: Locus): (real, real, real) {
    ((Cm(here) - Cm(prev)) / 100.0, (Cm(next) - Cm(here)) / 100.0, (Cm(next) - Cm(prev)) / 100.0)
  }

  // ---------------------------------------------------------------------
  // Shape of a chromosome

  /** Every row as wide as the first, and every dominance vector as wide as its row. */
  predicate Shaped(loci: seq<Locus>) {
    && Rect(loci)
    && forall k :: 0 <= k < |loci| && loci[k].dominance.Some? ==>
         |loci[k].dominance.value| == |loci[k].genotype|
  }

  /** The same markers, genotype tags, widths and dominance presence: all that
      imputation reads, and all it leaves alone. */
  predicate SameFrame(a: seq<Locus>, b: seq<Locus>) {
    && |a| == |b|
    && forall k :: 0 <= k < |a| ==>
         && a[k].marker == b[k].marker
         && |a[k].genotype| == |b[k].genotype|
         && (forall s :: 0 <= s < |a[k].genotype| ==> a[k].genotype[s].tag == b[k].genotype[s].tag)
         && a[k].dominance.Some? == b[k].dominance.Some?
         && (a[k].dominance.Some? ==> |a[k].dominance.value| == |b[k].dominance.value|)
  }

  lemma SameFrameShaped(a: seq<Locus>, b: seq<Locus>)
    requires Shaped(a) && SameFrame(a, b)
    ensures Shaped(b) && Width(b) == Width(a)
    ensures forall s :: 0 <= s < Width(a) ==> Column(b, s) == Column(a, s)
  {
  }

  lemma SameFrameTrans(a: seq<Locus>, b: seq<Locus>, c: seq<Locus>)
    requires SameFrame(a, b) && SameFrame(b, c)
    ensures SameFrame(a, c)
  {
  }

  function Dos(l: Locus, s: nat): real
    requires s < |l.genotype|
  {
    l.genotype[s].dosage
  }

  /** Strain `s`'s dominance coefficient, when the locus carries them. */
  function Dom(l: Locus, s: nat): Option<real>
    requires s < |l.genotype|
    requires l.dominance.Some? ==> |l.dominance.value| == |l.genotype|
  {
    if l.dominance.Some? then Some(l.dominance.value[s]) else None
  }

  // ---------------------------------------------------------------------
  // The boundary fix

  /** An unknown becomes a heterozygote with dosage 0; anything else stays. */
  function FixSlot(g: Slot): (r: Slot)
    ensures r.tag != Unk
    ensures g.tag != Unk ==> r == g
  {
    if g.tag == Unk then Slot(Het, 0.0) else g
  }

  /** Every slot of the locus fixed; marker and dominance untouched. */
  function FixLocus(l: Locus): (r: Locus)
    ensures r.marker == l.marker && r.dominance == l.dominance && |r.genotype| == |l.genotype|
    ensures forall s :: 0 <= s < |l.genotype| ==> r.genotype[s] == FixSlot(l.genotype[s])
  {
    l.(genotype := seq(|l.genotype|, s requires 0 <= s < |l.genotype| => FixSlot(l.genotype[s])))
  }

  /** The first and then the last locus fixed; a chromosome without loci has
      neither and is an error. */
  function FixEnds(loci: seq<Locus>): (r: Result<seq<Locus>, Error>)
    ensures r.Err? <==> |loci| == 0
    ensures r.Err? ==> r.error == EmptyChromosome
    ensures r.Ok? ==> |r.value| == |loci|
    ensures r.Ok? ==> forall k :: 0 < k < |loci| - 1 ==> r.value[k] == loci[k]
    ensures r.Ok? ==> r.value[0] == FixLocus(loci[0]) && r.value[|loci| - 1] == FixLocus(loci[|loci| - 1])
  {
    if |loci| == 0 then Err(EmptyChromosome)
    else
      var first := loci[0 := FixLocus(loci[0])];
      assert FixLocus(FixLocus(loci[0])) == FixLocus(loci[0]);
      Ok(first[|loci| - 1 := FixLocus(first[|loci| - 1])])
  }

  /** After the fix, no strain is unknown at either end, the shape is kept,
      and only slots that were unknown have changed. */
  lemma FixEndsSpec(loci: seq<Locus>)
    requires Shaped(loci)
    ensures var f := FixEnds(loci).value;
      && Shaped(f) && Width(f) == Width(loci)
      && (forall s :: 0 <= s < Width(f) ==>
            f[0].genotype[s].tag != Unk && f[|f| - 1].genotype[s].tag != Unk)
      && (forall k, s :: 0 <= k < |f| && 0 <= s < Width(f) ==>
            f[k].genotype[s] == (if loci[k].genotype[s].tag == Unk && (k == 0 || k == |f| - 1)
                                 then Slot(Het, 0.0) else loci[k].genotype[s]))
      && (forall k :: 0 <= k < |f| ==> f[k].marker == loci[k].marker && f[k].dominance == loci[k].dominance)
  {
  }

  // ---------------------------------------------------------------------
  // Estimating one cell

  predicate RangeFits(loci: seq<Locus>, rg: Range) {
    1 <= rg.start <= rg.end < |loci|
  }

  /** Strain `s`'s genotype on either side of the range is itself unknown. */
  predicate FlankUnknown(loci: seq<Locus>, s: nat, rg: Range)
    requires Shaped(loci) && s < Width(loci) && RangeFits(loci, rg)
  {
    loci[rg.start - 1].genotype[s].tag == Unk || loci[rg.end].genotype[s].tag == Unk
  }

  /** The dosage and dominance estimates for strain `s` at locus `k`, from
      the flanks of the range `rg`; an unknown flank is an error. */
  function CellEstimate(loci: seq<Locus>, s: nat, rg: Range, k: nat, tm: TermsOf): (r: Result<(real, real), Error>)
    requires Shaped(loci) && s < Width(loci) && RangeFits(loci, rg) && k < |loci|
    ensures r.Err? <==> FlankUnknown(loci, s, rg)
    ensures r.Err? ==> r.error == Error.FlankUnknown
  {
    var p := loci[rg.start - 1].genotype[s].tag;
    var n := loci[rg.end].genotype[s].tag;
    var t := tm(Distances(loci[rg.start - 1], loci[k], loci[rg.end]));
    match DosageTable(p, n, t)
    case None => Err(Error.FlankUnknown)
    case Some(v) => Ok((v, DominanceTableAsWritten(p, n, t).value))
  }

  /** The estimate reads only the frame: any two chromosomes with the same
      frame give the same estimate. */
  lemma EstimateReadsFrame(a: seq<Locus>, b: seq<Locus>, s: nat, rg: Range, k: nat, tm: TermsOf)
    requires Shaped(a) && SameFrame(a, b) && s < Width(a) && RangeFits(a, rg) && k < |a|
    ensures Shaped(b) && Width(b) == Width(a)
    ensures CellEstimate(a, s, rg, k, tm) == CellEstimate(b, s, rg, k, tm)
  {
    SameFrameShaped(a, b);
  }

  /** Writes an estimate into strain `s`'s slot (keeping its tag) and, when
      dominance is modelled and the locus carries coefficients, into its
      dominance entry. */
  function WriteCell(l: Locus, s: nat, e: (real, real), dom: bool): (r: Locus)
    requires s < |l.genotype|
    requires l.dominance.Some? ==> |l.dominance.value| == |l.genotype|
    ensures r.marker == l.marker && |r.genotype| == |l.genotype| && r.dominance.Some? == l.dominance.Some?
    ensures forall t :: 0 <= t < |l.genotype| ==> r.genotype[t].tag == l.genotype[t].tag
    ensures forall t :: 0 <= t < |l.genotype| ==>
      r.genotype[t].dosage == (if t == s then e.0 else l.genotype[t].dosage)
    ensures l.dominance.Some? ==> |r.dominance.value| == |l.genotype| && forall t :: 0 <= t < |l.genotype| ==>
      r.dominance.value[t] == (if t == s && dom then e.1 else l.dominance.value[t])
  {
    var g := l.genotype[s := Slot(l.genotype[s].tag, e.0)];
    if dom && l.dominance.Some? then l.(genotype := g, dominance := Some(l.dominance.value[s := e.1]))
    else l.(genotype := g)
  }

  /** The write changes exactly strain `s`'s numbers and nothing of the frame. */
  lemma WriteCellSpec(cur: seq<Locus>, k: nat, s: nat, e: (real, real), dom: bool)
    requires Shaped(cur) && k < |cur| && s < Width(cur)
    ensures var next := cur[k := WriteCell(cur[k], s, e, dom)];
      && SameFrame(cur, next) && Shaped(next)
      && (forall i, t :: 0 <= i < |cur| && 0 <= t < Width(cur) ==>
            && Dos(next[i], t) == (if i == k && t == s then e.0 else Dos(cur[i], t))
            && Dom(next[i], t) == (if i == k && t == s && dom && cur[i].dominance.Some? then Some(e.1)
                                   else Dom(cur[i], t)))
  {
    var next := cur[k := WriteCell(cur[k], s, e, dom)];
    assert SameFrame(cur, next);
  }

  // ---------------------------------------------------------------------
  // The three nested loops

  /** The innermost loop: loci `k .. rg.end` of strain `s`'s range. */
  function FillRange(cur: seq<Locus>, s: nat, rg: Range, k: nat, dom: bool, tm: TermsOf): (r: Result<seq<Locus>, Error>)
    requires Shaped(cur) && s < Width(cur) && RangeFits(cur, rg) && rg.start <= k <= rg.end
    ensures r.Ok? ==> Shaped(r.value) && SameFrame(cur, r.value)
    ensures r.Err? <==> k < rg.end && FlankUnknown(cur, s, rg)
    decreases rg.end - k
  {
    if k == rg.end then Ok(cur)
    else
      var e :- CellEstimate(cur, s, rg, k, tm);
      var next := cur[k := WriteCell(cur[k], s, e, dom)];
      WriteCellSpec(cur, k, s, e, dom);
      var r := FillRange(next, s, rg, k + 1, dom, tm);
      if r.Ok? then SameFrameTrans(cur, next, r.value); r else r
  }

  predicate RangesFit(loci: seq<Locus>, rs: seq<Range>) {
    forall q :: 0 <= q < |rs| ==> RangeFits(loci, rs[q])
  }

  /** Some non-empty range from index `j` on has an unknown flank. */
  predicate SomeFlankUnknown(loci: seq<Locus>, s: nat, rs: seq<Range>, j: nat)
    requires Shaped(loci) && s < Width(loci) && RangesFit(loci, rs)
  {
    exists q :: j <= q < |rs| && rs[q].start < rs[q].end && FlankUnknown(loci, s, rs[q])
  }

  /** The middle loop: strain `s`'s ranges from index `j` on, in order. */
  function FillStrain(cur: seq<Locus>, s: nat, rs: seq<Range>, j: nat, dom: bool, tm: TermsOf): (r: Result<seq<Locus>, Error>)
    requires Shaped(cur) && s < Width(cur) && RangesFit(cur, rs) && j <= |rs|
    ensures r.Ok? ==> Shaped(r.value) && SameFrame(cur, r.value)
    ensures r.Err? <==> SomeFlankUnknown(cur, s, rs, j)
    decreases |rs| - j
  {
    if j == |rs| then Ok(cur)
    else
      var r1 := FillRange(cur, s, rs[j], rs[j].start, dom, tm);
      if r1.Err? then
        assert j <= j < |rs| && rs[j].start < rs[j].end && FlankUnknown(cur, s, rs[j]);
        Err(r1.error)
      else
        var next := r1.value;
        StrainFrame(cur, next, s, rs, j);
        var r := FillStrain(next, s, rs, j + 1, dom, tm);
        if r.Ok? then SameFrameTrans(cur, next, r.value); r else r
  }

  /** A round of the middle loop keeps the frame, so the remaining ranges
      still fit and have the same flanks. */
  lemma StrainFrame(cur: seq<Locus>, next: seq<Locus>, s: nat, rs: seq<Range>, j: nat)
    requires Shaped(cur) && SameFrame(cur, next) && s < Width(cur) && RangesFit(cur, rs) && j < |rs|
    requires !(rs[j].start < rs[j].end && FlankUnknown(cur, s, rs[j]))
    ensures Shaped(next) && s < Width(next) && RangesFit(next, rs)
    ensures SomeFlankUnknown(cur, s, rs, j) <==> SomeFlankUnknown(next, s, rs, j + 1)
  {
    SameFrameShaped(cur, next);
    forall q | 0 <= q < |rs|
      ensures FlankUnknown(cur, s, rs[q]) == FlankUnknown(next, s, rs[q])
    {
    }
  }

  predicate IntervalsFit(loci: seq<Locus>, ivs: seq<seq<Range>>)
    requires Shaped(loci)
  {
    |ivs| <= Width(loci) && forall t :: 0 <= t < |ivs| ==> RangesFit(loci, ivs[t])
  }

  /** Some strain from `s` on has a non-empty range with an unknown flank. */
  predicate AnyFlankUnknown(loci: seq<Locus>, ivs: seq<seq<Range>>, s: nat)
    requires Shaped(loci) && IntervalsFit(loci, ivs)
  {
    exists t :: s <= t < |ivs| && SomeFlankUnknown(loci, t, ivs[t], 0)
  }

  /** The outer loop: strains `s ..` in order. */
  function FillStrains(cur: seq<Locus>, ivs: seq<seq<Range>>, s: nat, dom: bool, tm: TermsOf): (r: Result<seq<Locus>, Error>)
    requires Shaped(cur) && IntervalsFit(cur, ivs) && s <= |ivs|
    ensures r.Ok? ==> Shaped(r.value) && SameFrame(cur, r.value)
    ensures r.Err? <==> AnyFlankUnknown(cur, ivs, s)
    decreases |ivs| - s
  {
    if s == |ivs| then Ok(cur)
    else
      var r1 := FillStrain(cur, s, ivs[s], 0, dom, tm);
      if r1.Err? then
        Err(r1.error)
      else
        var next := r1.value;
        StrainsFrame(cur, next, ivs, s);
        var r := FillStrains(next, ivs, s + 1, dom, tm);
        if r.Ok? then SameFrameTrans(cur, next, r.value); r else r
  }

  /** A round of the outer loop keeps the frame, so the remaining strains'
      ranges still fit and have the same flanks. */
  lemma StrainsFrame(cur: seq<Locus>, next: seq<Locus>, ivs: seq<seq<Range>>, s: nat)
    requires Shaped(cur) && SameFrame(cur, next) && IntervalsFit(cur, ivs) && s < |ivs|
    requires !SomeFlankUnknown(cur, s, ivs[s], 0)
    ensures Shaped(next) && IntervalsFit(next, ivs)
    ensures AnyFlankUnknown(cur, ivs, s) <==> AnyFlankUnknown(next, ivs, s + 1)
  {
    SameFrameShaped(cur, next);
    forall t, q | 0 <= t < |ivs| && 0 <= q < |ivs[t]|
      ensures FlankUnknown(cur, t, ivs[t][q]) == FlankUnknown(next, t, ivs[t][q])
    {
    }
  }

  /** `estimate_unknown_genotypes`: fill every range of every strain. It
      fails exactly when some non-empty range has an unknown flank, and then
      with `FlankUnknown`. */
  function EstimateUnknownGenotypes(dom: bool, loci: seq<Locus>, ivs: seq<seq<Range>>, tm: TermsOf): (r: Result<seq<Locus>, Error>)
    requires Shaped(loci) && IntervalsFit(loci, ivs)
    ensures r.Ok? ==> Shaped(r.value) && SameFrame(loci, r.value)
    ensures r.Err? <==> (exists t, q :: 0 <= t < |ivs| && 0 <= q < |ivs[t]| &&
                          ivs[t][q].start < ivs[t][q].end && FlankUnknown(loci, t, ivs[t][q]))
    ensures r.Err? ==> r.error == Error.FlankUnknown
  {
    var r := FillStrains(loci, ivs, 0, dom, tm);
    assert r.Err? ==> r.error == Error.FlankUnknown by {
      ErrorIsFlankUnknown(loci, ivs, 0, dom, tm);
    }
    r
  }

  lemma {:induction false} ErrorIsFlankUnknown(cur: seq<Locus>, ivs: seq<seq<Range>>, s: nat, dom: bool, tm: TermsOf)
    requires Shaped(cur) && IntervalsFit(cur, ivs) && s <= |ivs|
    ensures var r := FillStrains(cur, ivs, s, dom, tm); r.Err? ==> r.error == Error.FlankUnknown
    decreases |ivs| - s
  {
    if s < |ivs| {
      var r1 := FillStrain(cur, s, ivs[s], 0, dom, tm);
      if r1.Err? {
        StrainErrorIsFlankUnknown(cur, s, ivs[s], 0, dom, tm);
      } else {
        SameFrameShaped(cur, r1.value);
        ErrorIsFlankUnknown(r1.value, ivs, s + 1, dom, tm);
      }
    }
  }

  lemma {:induction false} StrainErrorIsFlankUnknown(cur: seq<Locus>, s: nat, rs: seq<Range>, j: nat, dom: bool, tm: TermsOf)
    requires Shaped(cur) && s < Width(cur) && RangesFit(cur, rs) && j <= |rs|
    ensures var r := FillStrain(cur, s, rs, j, dom, tm); r.Err? ==> r.error == Error.FlankUnknown
    decreases |rs| - j
  {
    if j < |rs| {
      var r1 := FillRange(cur, s, rs[j], rs[j].start, dom, tm);
      if r1.Err? {
        RangeErrorIsFlankUnknown(cur, s, rs[j], rs[j].start, dom, tm);
      } else {
        StrainErrorIsFlankUnknown(r1.value, s, rs, j + 1, dom, tm);
      }
    }
  }

  lemma {:induction false} RangeErrorIsFlankUnknown(cur: seq<Locus>, s: nat, rg: Range, k: nat, dom: bool, tm: TermsOf)
    requires Shaped(cur) && s < Width(cur) && RangeFits(cur, rg) && rg.start <= k <= rg.end
    ensures var r := FillRange(cur, s, rg, k, dom, tm); r.Err? ==> r.error == Error.FlankUnknown
    decreases rg.end - k
  {
    if k < rg.end {
      var e := CellEstimate(cur, s, rg, k, tm);
      if e.Ok? {
        WriteCellSpec(cur, k, s, e.value, dom);
        RangeErrorIsFlankUnknown(cur[k := WriteCell(cur[k], s, e.value, dom)], s, rg, k + 1, dom, tm);
      }
    }
  }

  // ---------------------------------------------------------------------
  // What the loops compute, cell by cell

  /** Strain `s` is known at both ends of the chromosome. */
  predicate EndsKnown(loci: seq<Locus>, s: nat)
    requires Shaped(loci) && s < Width(loci)
  {
    loci[0].genotype[s].tag != Unk && loci[|loci| - 1].genotype[s].tag != Unk
  }

  /** The reference estimate for an unknown cell: the tables applied to the
      nearest known genotypes before and after it in the strain's column. */
  function Target(loci: seq<Locus>, s: nat, i: nat, tm: TermsOf): (real, real)
    requires Shaped(loci) && s < Width(loci) && i < |loci| && EndsKnown(loci, s)
    requires loci[i].genotype[s].tag == Unk
  {
    var col := Column(loci, s);
    var p := PrevKnown(col, i);
    var n := NextKnown(col, i);
    var a := loci[p].genotype[s].tag;
    var b := loci[n].genotype[s].tag;
    var t := tm(Distances(loci[p], loci[i], loci[n]));
    (DosageTable(a, b, t).value, DominanceTableAsWritten(a, b, t).value)
  }

  /** Inside a maximal run the source's estimate is the reference estimate. */
  lemma RunEstimateIsTarget(loci: seq<Locus>, s: nat, rg: Range, i: nat, tm: TermsOf)
    requires Shaped(loci) && s < Width(loci) && EndsKnown(loci, s)
    requires ClosedRun(Column(loci, s), |loci|, rg.start, rg.end) && rg.start <= i < rg.end
    ensures RangeFits(loci, rg) && !FlankUnknown(loci, s, rg) && loci[i].genotype[s].tag == Unk
    ensures CellEstimate(loci, s, rg, i, tm) == Ok(Target(loci, s, i, tm))
  {
    RunFlanksAreNearest(Column(loci, s), rg.start, rg.end, i);
  }

  /** The innermost loop writes the estimate into each cell of `[k, rg.end)`
      of strain `s` and leaves every other cell as it was. */
  lemma FillRangeCells(orig: seq<Locus>, cur: seq<Locus>, s: nat, rg: Range, k: nat, dom: bool, tm: TermsOf)
    requires Shaped(orig) && Shaped(cur) && SameFrame(orig, cur) && s < Width(orig)
    requires RangeFits(orig, rg) && rg.start <= k <= rg.end && !FlankUnknown(orig, s, rg)
    ensures var r := FillRange(cur, s, rg, k, dom, tm);
      && r.Ok?
      && forall i, t :: 0 <= i < |cur| && 0 <= t < Width(cur) ==>
           && Dos(r.value[i], t) == (if t == s && k <= i < rg.end then CellEstimate(orig, s, rg, i, tm).value.0
                                     else Dos(cur[i], t))
           && Dom(r.value[i], t) == (if t == s && k <= i < rg.end && dom && cur[i].dominance.Some?
                                     then Some(CellEstimate(orig, s, rg, i, tm).value.1) else Dom(cur[i], t))
  {
    SameFrameShaped(orig, cur);
    if Width(cur) > 0 {
      FillRangeCell(orig, cur, s, rg, k, dom, tm, 0, 0);
    }
    forall i, t | 0 <= i < |cur| && 0 <= t < Width(cur)
      ensures var r := FillRange(cur, s, rg, k, dom, tm);
        && r.Ok?
        && Dos(r.value[i], t) == (if t == s && k <= i < rg.end then CellEstimate(orig, s, rg, i, tm).value.0
                                  else Dos(cur[i], t))
        && Dom(r.value[i], t) == (if t == s && k <= i < rg.end && dom && cur[i].dominance.Some?
                                  then Some(CellEstimate(orig, s, rg, i, tm).value.1) else Dom(cur[i], t))
    {
      FillRangeCell(orig, cur, s, rg, k, dom, tm, i, t);
    }
  }

  /** The innermost loop, seen from cell `(i, t)`. */
  lemma {:induction false} FillRangeCell(orig: seq<Locus>, cur: seq<Locus>, s: nat, rg: Range, k: nat, dom: bool, tm: TermsOf, i: nat, t: nat)
    requires Shaped(orig) && Shaped(cur) && SameFrame(orig, cur) && s < Width(orig)
    requires RangeFits(orig, rg) && rg.start <= k <= rg.end && !FlankUnknown(orig, s, rg)
    requires i < |cur| && t < Width(cur)
    ensures var r := FillRange(cur, s, rg, k, dom, tm);
      && r.Ok?
      && Dos(r.value[i], t) == (if t == s && k <= i < rg.end then CellEstimate(orig, s, rg, i, tm).value.0
                                else Dos(cur[i], t))
      && Dom(r.value[i], t) == (if t == s && k <= i < rg.end && dom && cur[i].dominance.Some?
                                then Some(CellEstimate(orig, s, rg, i, tm).value.1) else Dom(cur[i], t))
    decreases rg.end - k
  {
    // The steps below need only the contracts of the loops, not their bodies.
    hide FillRange, CellEstimate, WriteCell;
    if k < rg.end {
      RangeStep(orig, cur, s, rg, k, dom, tm);
      var next := cur[k := WriteCell(cur[k], s, CellEstimate(orig, s, rg, k, tm).value, dom)];
      FillRangeCell(orig, next, s, rg, k + 1, dom, tm, i, t);
    } else {
      RangeDone(cur, s, rg, dom, tm);
    }
  }

  /** At the end of its range the innermost loop changes nothing. */
  lemma RangeDone(cur: seq<Locus>, s: nat, rg: Range, dom: bool, tm: TermsOf)
    requires Shaped(cur) && s < Width(cur) && RangeFits(cur, rg)
    ensures FillRange(cur, s, rg, rg.end, dom, tm) == Ok(cur)
  {
  }

  /** One round of the innermost loop, seen from the chromosome the loops
      started from: cell `(k, s)` gets its estimate and nothing else moves. */
  lemma RangeStep(orig: seq<Locus>, cur: seq<Locus>, s: nat, rg: Range, k: nat, dom: bool, tm: TermsOf)
    requires Shaped(orig) && Shaped(cur) && SameFrame(orig, cur) && s < Width(orig)
    requires RangeFits(orig, rg) && rg.start <= k < rg.end && !FlankUnknown(orig, s, rg)
    ensures CellEstimate(orig, s, rg, k, tm).Ok?
    ensures var next := cur[k := WriteCell(cur[k], s, CellEstimate(orig, s, rg, k, tm).value, dom)];
      && Shaped(next) && SameFrame(orig, next) && |next| == |cur| && Width(next) == Width(cur)
      && FillRange(cur, s, rg, k, dom, tm) == FillRange(next, s, rg, k + 1, dom, tm)
      && forall i, t :: 0 <= i < |cur| && 0 <= t < Width(cur) ==>
           && next[i].dominance.Some? == cur[i].dominance.Some?
           && Dos(next[i], t) == (if i == k && t == s then CellEstimate(orig, s, rg, k, tm).value.0 else Dos(cur[i], t))
           && Dom(next[i], t) == (if i == k && t == s && dom && cur[i].dominance.Some?
                                  then Some(CellEstimate(orig, s, rg, k, tm).value.1) else Dom(cur[i], t))
  {
    EstimateReadsFrame(orig, cur, s, rg, k, tm);
    var e := CellEstimate(cur, s, rg, k, tm).value;
    var next := cur[k := WriteCell(cur[k], s, e, dom)];
    WriteCellSpec(cur, k, s, e, dom);
    RangeUnfold(cur, s, rg, k, dom, tm);
    SameFrameTrans(orig, cur, next);
  }

  /** One round of the innermost loop: the write, then the rest of the range. */
  lemma RangeUnfold(cur: seq<Locus>, s: nat, rg: Range, k: nat, dom: bool, tm: TermsOf)
    requires Shaped(cur) && s < Width(cur) && RangeFits(cur, rg) && rg.start <= k < rg.end
    requires !FlankUnknown(cur, s, rg)
    ensures CellEstimate(cur, s, rg, k, tm).Ok?
    ensures var next := cur[k := WriteCell(cur[k], s, CellEstimate(cur, s, rg, k, tm).value, dom)];
      && Shaped(next) && Width(next) == Width(cur) && SameFrame(cur, next)
      && FillRange(cur, s, rg, k, dom, tm) == FillRange(next, s, rg, k + 1, dom, tm)
  {
    WriteCellSpec(cur, k, s, CellEstimate(cur, s, rg, k, tm).value, dom);
  }

  /** One round of the middle loop: a range, then the ranges after it. */
  lemma StrainUnfold(cur: seq<Locus>, s: nat, rs: seq<Range>, j: nat, dom: bool, tm: TermsOf)
    requires Shaped(cur) && s < Width(cur) && RangesFit(cur, rs) && j < |rs|
    requires FillRange(cur, s, rs[j], rs[j].start, dom, tm).Ok?
    ensures var next := FillRange(cur, s, rs[j], rs[j].start, dom, tm).value;
      && Shaped(next) && Width(next) == Width(cur) && RangesFit(next, rs)
      && FillStrain(cur, s, rs, j, dom, tm) == FillStrain(next, s, rs, j + 1, dom, tm)
  {
    var next := FillRange(cur, s, rs[j], rs[j].start, dom, tm).value;
    StrainFrame(cur, next, s, rs, j);
  }

  /** Index `i` lies in one of the ranges from index `j` on. */
  predicate CoveredFrom(rs: seq<Range>, j: nat, i: nat)
    decreases |rs| - j
  {
    j < |rs| && (rs[j].start <= i < rs[j].end || CoveredFrom(rs, j + 1, i))
  }

  lemma {:induction false} CoveredFromExists(rs: seq<Range>, j: nat, i: nat)
    ensures CoveredFrom(rs, j, i) <==> exists q :: j <= q < |rs| && rs[q].start <= i < rs[q].end
    decreases |rs| - j
  {
    if j < |rs| {
      CoveredFromExists(rs, j + 1, i);
    }
  }

  /** Every range of the list is a maximal run of strain `s`'s column. */
  predicate AllRuns(loci: seq<Locus>, s: nat, rs: seq<Range>)
    requires Shaped(loci) && s < Width(loci)
  {
    forall q :: 0 <= q < |rs| ==> ClosedRun(Column(loci, s), |loci|, rs[q].start, rs[q].end)
  }

  lemma AllRunsFit(loci: seq<Locus>, s: nat, rs: seq<Range>)
    requires Shaped(loci) && s < Width(loci) && EndsKnown(loci, s) && AllRuns(loci, s, rs)
    ensures RangesFit(loci, rs)
  {
    forall q | 0 <= q < |rs|
      ensures RangeFits(loci, rs[q])
    {
      assert Column(loci, s)[rs[q].start];
    }
  }

  /** The middle loop over maximal runs writes the reference estimate into
      every covered cell of strain `s`. */
  lemma FillStrainCells(orig: seq<Locus>, cur: seq<Locus>, s: nat, rs: seq<Range>, j: nat, dom: bool, tm: TermsOf)
    requires Shaped(orig) && Shaped(cur) && SameFrame(orig, cur) && s < Width(orig) && EndsKnown(orig, s)
    requires AllRuns(orig, s, rs) && RangesFit(cur, rs) && j <= |rs|
    ensures var r := FillStrain(cur, s, rs, j, dom, tm);
      && r.Ok?
      && forall i, t :: 0 <= i < |cur| && 0 <= t < Width(cur) ==>
           && Dos(r.value[i], t) == (if t == s && orig[i].genotype[s].tag == Unk && CoveredFrom(rs, j, i)
                                     then Target(orig, s, i, tm).0 else Dos(cur[i], t))
           && Dom(r.value[i], t) == (if t == s && orig[i].genotype[s].tag == Unk && CoveredFrom(rs, j, i)
                                        && dom && cur[i].dominance.Some?
                                     then Some(Target(orig, s, i, tm).1) else Dom(cur[i], t))
  {
    SameFrameShaped(orig, cur);
    FillStrainCell(orig, cur, s, rs, j, dom, tm, 0, s);
    forall i, t | 0 <= i < |cur| && 0 <= t < Width(cur)
      ensures var r := FillStrain(cur, s, rs, j, dom, tm);
        && r.Ok?
        && Dos(r.value[i], t) == (if t == s && orig[i].genotype[s].tag == Unk && CoveredFrom(rs, j, i)
                                  then Target(orig, s, i, tm).0 else Dos(cur[i], t))
        && Dom(r.value[i], t) == (if t == s && orig[i].genotype[s].tag == Unk && CoveredFrom(rs, j, i)
                                     && dom && cur[i].dominance.Some?
                                  then Some(Target(orig, s, i, tm).1) else Dom(cur[i], t))
    {
      FillStrainCell(orig, cur, s, rs, j, dom, tm, i, t);
    }
  }

  /** The middle loop, seen from cell `(i, t)`. */
  lemma {:induction false} FillStrainCell(orig: seq<Locus>, cur: seq<Locus>, s: nat, rs: seq<Range>, j: nat, dom: bool, tm: TermsOf, i: nat, t: nat)
    requires Shaped(orig) && Shaped(cur) && SameFrame(orig, cur) && s < Width(orig) && EndsKnown(orig, s)
    requires AllRuns(orig, s, rs) && RangesFit(cur, rs) && j <= |rs|
    requires i < |cur| && t < Width(cur)
    ensures var r := FillStrain(cur, s, rs, j, dom, tm);
      && r.Ok?
      && Dos(r.value[i], t) == (if t == s && orig[i].genotype[s].tag == Unk && CoveredFrom(rs, j, i)
                                then Target(orig, s, i, tm).0 else Dos(cur[i], t))
      && Dom(r.value[i], t) == (if t == s && orig[i].genotype[s].tag == Unk && CoveredFrom(rs, j, i)
                                   && dom && cur[i].dominance.Some?
                                then Some(Target(orig, s, i, tm).1) else Dom(cur[i], t))
    decreases |rs| - j
  {
    // The steps below need only the contracts of the loops, not their bodies.
    hide FillStrain, FillRange;
    if j < |rs| {
      var rg := rs[j];
      RunEstimateIsTarget(orig, s, rg, rg.start, tm);
      FillRangeCell(orig, cur, s, rg, rg.start, dom, tm, i, t);
      var next := FillRange(cur, s, rg, rg.start, dom, tm).value;
      StrainUnfold(cur, s, rs, j, dom, tm);
      SameFrameTrans(orig, cur, next);
      FillStrainCell(orig, next, s, rs, j + 1, dom, tm, i, t);
      if t == s && rg.start <= i < rg.end {
        RunEstimateIsTarget(orig, s, rg, i, tm);
      }
    } else {
      StrainDone(cur, s, rs, dom, tm);
    }
  }

  /** Past its last range the middle loop changes nothing. */
  lemma StrainDone(cur: seq<Locus>, s: nat, rs: seq<Range>, dom: bool, tm: TermsOf)
    requires Shaped(cur) && s < Width(cur) && RangesFit(cur, rs)
    ensures FillStrain(cur, s, rs, |rs|, dom, tm) == Ok(cur)
  {
  }

  /** One round of the outer loop over maximal runs. */
  lemma StrainsStep(orig: seq<Locus>, cur: seq<Locus>, ivs: seq<seq<Range>>, s: nat, dom: bool, tm: TermsOf)
    requires Shaped(orig) && Shaped(cur) && SameFrame(orig, cur) && IntervalsFit(cur, ivs) && s < |ivs|
    requires |ivs| <= Width(orig)
    requires EndsKnown(orig, s) && AllRuns(orig, s, ivs[s])
    ensures var r1 := FillStrain(cur, s, ivs[s], 0, dom, tm);
      && r1.Ok?
      && Shaped(r1.value) && SameFrame(orig, r1.value) && IntervalsFit(r1.value, ivs)
      && FillStrains(cur, ivs, s, dom, tm) == FillStrains(r1.value, ivs, s + 1, dom, tm)
      && forall i, t :: 0 <= i < |cur| && 0 <= t < Width(cur) ==>
           && r1.value[i].dominance.Some? == cur[i].dominance.Some?
           && Dos(r1.value[i], t) == (if t == s && orig[i].genotype[s].tag == Unk && CoveredFrom(ivs[s], 0, i)
                                      then Target(orig, s, i, tm).0 else Dos(cur[i], t))
           && Dom(r1.value[i], t) == (if t == s && orig[i].genotype[s].tag == Unk && CoveredFrom(ivs[s], 0, i)
                                         && dom && cur[i].dominance.Some?
                                      then Some(Target(orig, s, i, tm).1) else Dom(cur[i], t))
  {
    FillStrainCells(orig, cur, s, ivs[s], 0, dom, tm);
    var next := FillStrain(cur, s, ivs[s], 0, dom, tm).value;
    SameFrameTrans(orig, cur, next);
    SameFrameShaped(cur, next);
  }

  /** One round of the outer loop, seen from one cell. */
  lemma StrainsStepCell(orig: seq<Locus>, cur: seq<Locus>, ivs: seq<seq<Range>>, s: nat, dom: bool, tm: TermsOf, i: nat, t: nat)
    requires Shaped(orig) && Shaped(cur) && SameFrame(orig, cur) && IntervalsFit(cur, ivs) && s < |ivs|
    requires |ivs| <= Width(orig)
    requires EndsKnown(orig, s) && AllRuns(orig, s, ivs[s])
    requires i < |cur| && t < Width(cur)
    ensures var r1 := FillStrain(cur, s, ivs[s], 0, dom, tm);
      && r1.Ok?
      && Shaped(r1.value) && SameFrame(orig, r1.value) && IntervalsFit(r1.value, ivs)
      && FillStrains(cur, ivs, s, dom, tm) == FillStrains(r1.value, ivs, s + 1, dom, tm)
      && |r1.value| == |cur| && Width(r1.value) == Width(cur)
      && r1.value[i].dominance.Some? == cur[i].dominance.Some?
      && Dos(r1.value[i], t) == (if t == s && orig[i].genotype[s].tag == Unk && CoveredFrom(ivs[s], 0, i)
                                 then Target(orig, s, i, tm).0 else Dos(cur[i], t))
      && Dom(r1.value[i], t) == (if t == s && orig[i].genotype[s].tag == Unk && CoveredFrom(ivs[s], 0, i)
                                    && dom && cur[i].dominance.Some?
                                 then Some(Target(orig, s, i, tm).1) else Dom(cur[i], t))
  {
    StrainsStep(orig, cur, ivs, s, dom, tm);
  }

  /** `ivs` is what detection finds in `loci`, whose ends are known for every strain. */
  predicate Detected(loci: seq<Locus>, ivs: seq<seq<Range>>)
    requires Shaped(loci)
  {
    && (forall s :: 0 <= s < Width(loci) ==> EndsKnown(loci, s))
    && FindUnknownIntervals(loci) == Ok(ivs)
  }

  /** Each detected list is a list of maximal runs. */
  lemma DetectedRuns(loci: seq<Locus>, ivs: seq<seq<Range>>, u: nat)
    requires Shaped(loci) && Detected(loci, ivs) && u < |ivs|
    ensures |ivs| == Width(loci) && IntervalsFit(loci, ivs)
    ensures EndsKnown(loci, u) && AllRuns(loci, u, ivs[u])
  {
    FixedIntervalsFit(loci);
  }

  /** Past the last strain the outer loop changes nothing. */
  lemma FillStrainsDone(cur: seq<Locus>, ivs: seq<seq<Range>>, dom: bool, tm: TermsOf)
    requires Shaped(cur) && IntervalsFit(cur, ivs)
    ensures FillStrains(cur, ivs, |ivs|, dom, tm) == Ok(cur)
  {
  }

  /** The outer loop's effect on the dosage of cell `(i, t)`. */
  lemma {:induction false} FillStrainsDos(orig: seq<Locus>, cur: seq<Locus>, ivs: seq<seq<Range>>, s: nat, dom: bool, tm: TermsOf, i: nat, t: nat)
    requires Shaped(orig) && Shaped(cur) && SameFrame(orig, cur) && Detected(orig, ivs)
    requires IntervalsFit(cur, ivs) && s <= |ivs| && i < |cur| && t < Width(cur)
    ensures var r := FillStrains(cur, ivs, s, dom, tm);
      && r.Ok?
      && Dos(r.value[i], t) == (if s <= t < |ivs| && orig[i].genotype[t].tag == Unk && CoveredFrom(ivs[t], 0, i)
                                then Target(orig, t, i, tm).0 else Dos(cur[i], t))
    decreases |ivs| - s
  {
    // The steps below need only the contracts of the loops, not their bodies.
    hide FillStrains, FillStrain, FillRange;
    if s < |ivs| {
      DetectedRuns(orig, ivs, s);
      StrainsStepCell(orig, cur, ivs, s, dom, tm, i, t);
      var next := FillStrain(cur, s, ivs[s], 0, dom, tm).value;
      FillStrainsDos(orig, next, ivs, s + 1, dom, tm, i, t);
    } else {
      FillStrainsDone(cur, ivs, dom, tm);
    }
  }

  /** The outer loop's effect on the dominance value of cell `(i, t)`. */
  lemma {:induction false} FillStrainsDom(orig: seq<Locus>, cur: seq<Locus>, ivs: seq<seq<Range>>, s: nat, dom: bool, tm: TermsOf, i: nat, t: nat)
    requires Shaped(orig) && Shaped(cur) && SameFrame(orig, cur) && Detected(orig, ivs)
    requires IntervalsFit(cur, ivs) && s <= |ivs| && i < |cur| && t < Width(cur)
    ensures var r := FillStrains(cur, ivs, s, dom, tm);
      && r.Ok?
      && Dom(r.value[i], t) == (if s <= t < |ivs| && orig[i].genotype[t].tag == Unk && CoveredFrom(ivs[t], 0, i)
                                   && dom && cur[i].dominance.Some?
                                then Some(Target(orig, t, i, tm).1) else Dom(cur[i], t))
    decreases |ivs| - s
  {
    // The steps below need only the contracts of the loops, not their bodies.
    hide FillStrains, FillStrain, FillRange;
    if s < |ivs| {
      DetectedRuns(orig, ivs, s);
      StrainsStepCell(orig, cur, ivs, s, dom, tm, i, t);
      var next := FillStrain(cur, s, ivs[s], 0, dom, tm).value;
      FillStrainsDom(orig, next, ivs, s + 1, dom, tm, i, t);
    } else {
      FillStrainsDone(cur, ivs, dom, tm);
    }
  }

  /** The outer loop, over strains `s ..`, when every range is a maximal run:
      cell `(i, t)` holds the reference estimate when it is covered by one
      of strain `t`'s runs, and its old value otherwise. */
  lemma FillStrainsCell(orig: seq<Locus>, cur: seq<Locus>, ivs: seq<seq<Range>>, s: nat, dom: bool, tm: TermsOf, i: nat, t: nat)
    requires Shaped(orig) && Shaped(cur) && SameFrame(orig, cur) && Detected(orig, ivs)
    requires IntervalsFit(cur, ivs) && s <= |ivs| && i < |cur| && t < Width(cur)
    ensures var r := FillStrains(cur, ivs, s, dom, tm);
      && r.Ok?
      && Dos(r.value[i], t) == (if s <= t < |ivs| && orig[i].genotype[t].tag == Unk && CoveredFrom(ivs[t], 0, i)
                                then Target(orig, t, i, tm).0 else Dos(cur[i], t))
      && Dom(r.value[i], t) == (if s <= t < |ivs| && orig[i].genotype[t].tag == Unk && CoveredFrom(ivs[t], 0, i)
                                   && dom && cur[i].dominance.Some?
                                then Some(Target(orig, t, i, tm).1) else Dom(cur[i], t))
  {
    FillStrainsDos(orig, cur, ivs, s, dom, tm, i, t);
    FillStrainsDom(orig, cur, ivs, s, dom, tm, i, t);
  }

  // ---------------------------------------------------------------------
  // One chromosome, end to end

  /** The runs found in a column whose ends are known cover exactly its
      unknown indices. */
  lemma CoveredIffUnknown(loci: seq<Locus>, s: nat, i: nat)
    requires Shaped(loci) && s < Width(loci) && EndsKnown(loci, s) && i < |loci|
    ensures FindUnknownIntervals(loci).Ok? && |FindUnknownIntervals(loci).value| == Width(loci)
    ensures CoveredFrom(FindUnknownIntervals(loci).value[s], 0, i) <==> loci[i].genotype[s].tag == Unk
  {
    FindUnknownIntervalsSpec(loci, s);
    var rs := FindUnknownIntervals(loci).value[s];
    var col := Column(loci, s);
    CoveredFromExists(rs, 0, i);
    if col[i] {
      UnknownLiesInRun(col, i);
      var rg := Range(PrevKnown(col, i) + 1, NextKnown(col, i));
      assert rg in rs;
      var q :| 0 <= q < |rs| && rs[q] == rg;
    }
  }

  /** The runs found after the boundary fix satisfy the estimator's needs. */
  lemma FixedIntervalsFit(fixed: seq<Locus>)
    requires Shaped(fixed) && forall s :: 0 <= s < Width(fixed) ==> EndsKnown(fixed, s)
    ensures FindUnknownIntervals(fixed).Ok?
    ensures var ivs := FindUnknownIntervals(fixed).value;
      && |ivs| == Width(fixed) && IntervalsFit(fixed, ivs)
      && forall s :: 0 <= s < |ivs| ==> AllRuns(fixed, s, ivs[s])
  {
    var ivs := FindUnknownIntervals(fixed).value;
    forall s | 0 <= s < |ivs|
      ensures AllRuns(fixed, s, ivs[s]) && RangesFit(fixed, ivs[s])
    {
      FindUnknownIntervalsSpec(fixed, s);
      forall q | 0 <= q < |ivs[s]|
        ensures ClosedRun(Column(fixed, s), |fixed|, ivs[s][q].start, ivs[s][q].end)
      {
        assert ivs[s][q] in ivs[s];
      }
      AllRunsFit(fixed, s, ivs[s]);
    }
  }

  /** The per-chromosome work of `estimate_unknown`: fix both ends, find the
      runs of unknowns, fill them. */
  function ImputeChromosome(loci: seq<Locus>, dom: bool, tm: TermsOf): (r: Result<seq<Locus>, Error>)
    requires |loci| > 0 ==> Shaped(loci)
    ensures r.Ok? <==> |loci| > 0
    ensures r.Err? ==> r.error == EmptyChromosome
    ensures r.Ok? ==> Shaped(r.value) && SameFrame(FixEnds(loci).value, r.value)
  {
    var fixed :- FixEnds(loci);
    FixEndsSpec(loci);
    FixedIntervalsFit(fixed);
    var ivs := FindUnknownIntervals(fixed).value;
    assert forall t, q :: 0 <= t < |ivs| && 0 <= q < |ivs[t]| ==> !FlankUnknown(fixed, t, ivs[t][q]) by {
      forall t, q | 0 <= t < |ivs| && 0 <= q < |ivs[t]|
        ensures !FlankUnknown(fixed, t, ivs[t][q])
      {
        RunEstimateIsTarget(fixed, t, ivs[t][q], ivs[t][q].start, tm);
      }
    }
    EstimateUnknownGenotypes(dom, fixed, ivs, tm)
  }

  /** `r` is `f` imputed: every unknown cell of `f` holds the reference
      estimate from its nearest known neighbours in `r` (the dominance cell
      only when the flag is set and the vector exists), and every other cell
      keeps its value. */
  predicate ImputedCells(f: seq<Locus>, r: seq<Locus>, dom: bool, tm: TermsOf)
    requires Shaped(f) && SameFrame(f, r) && forall s :: 0 <= s < Width(f) ==> EndsKnown(f, s)
  {
    SameFrameShaped(f, r);
    forall i, s :: 0 <= i < |f| && 0 <= s < Width(f) ==>
      && Dos(r[i], s) == (if f[i].genotype[s].tag == Unk then Target(f, s, i, tm).0 else Dos(f[i], s))
      && Dom(r[i], s) == (if f[i].genotype[s].tag == Unk && dom && f[i].dominance.Some?
                          then Some(Target(f, s, i, tm).1) else Dom(f[i], s))
  }

  /** Imputation fails only on a chromosome without loci, and otherwise every
      unknown cell (after the boundary fix) holds the reference estimate from
      its nearest known neighbours, every other cell keeps its value, and
      tags, markers and widths are unchanged. */
  lemma ImputeChromosomeSpec(loci: seq<Locus>, dom: bool, tm: TermsOf)
    requires |loci| > 0 ==> Shaped(loci)
    ensures ImputeChromosome(loci, dom, tm).Err? <==> |loci| == 0
    ensures ImputeChromosome(loci, dom, tm).Err? ==> ImputeChromosome(loci, dom, tm).error == EmptyChromosome
    ensures |loci| > 0 ==>
      var f := FixEnds(loci).value;
      var r := ImputeChromosome(loci, dom, tm).value;
      && Shaped(f) && SameFrame(f, r) && Width(f) == Width(r)
      && (forall s :: 0 <= s < Width(f) ==> EndsKnown(f, s))
      && ImputedCells(f, r, dom, tm)
  {
    // The steps below need only the contracts of the fill loops.
    hide FillStrains, FillStrain, FillRange;
    if |loci| > 0 {
      FixEndsSpec(loci);
      var f := FixEnds(loci).value;
      FixedIntervalsFit(f);
      var ivs := FindUnknownIntervals(f).value;
      ImputeUnfold(loci, dom, tm);
      var r := ImputeChromosome(loci, dom, tm).value;
      SameFrameShaped(f, r);
      forall i, s | 0 <= i < |f| && 0 <= s < Width(f)
        ensures Dos(r[i], s) == (if f[i].genotype[s].tag == Unk then Target(f, s, i, tm).0 else Dos(f[i], s))
        ensures Dom(r[i], s) == (if f[i].genotype[s].tag == Unk && dom && f[i].dominance.Some?
                                 then Some(Target(f, s, i, tm).1) else Dom(f[i], s))
      {
        FillStrainsCell(f, f, ivs, 0, dom, tm, i, s);
        CoveredIffUnknown(f, s, i);
      }
    }
  }

  /** On a chromosome with loci, imputation is the fill loop over the fixed
      loci and their unknown runs. */
  lemma ImputeUnfold(loci: seq<Locus>, dom: bool, tm: TermsOf)
    requires |loci| > 0 && Shaped(loci)
    ensures FixEnds(loci).Ok? && Shaped(FixEnds(loci).value)
    ensures RowsFit(FixEnds(loci).value) && FindUnknownIntervals(FixEnds(loci).value).Ok?
    ensures IntervalsFit(FixEnds(loci).value, FindUnknownIntervals(FixEnds(loci).value).value)
    ensures
      var f := FixEnds(loci).value;
      ImputeChromosome(loci, dom, tm) == FillStrains(f, FindUnknownIntervals(f).value, 0, dom, tm)
  {
    FixEndsSpec(loci);
    FixedIntervalsFit(FixEnds(loci).value);
  }

  /** The reference estimate reads only the frame. */
  lemma TargetReadsFrame(a: seq<Locus>, b: seq<Locus>, s: nat, i: nat, tm: TermsOf)
    requires Shaped(a) && SameFrame(a, b) && s < Width(a) && i < |a| && EndsKnown(a, s)
    requires a[i].genotype[s].tag == Unk
    ensures Shaped(b) && Width(b) == Width(a) && EndsKnown(b, s) && b[i].genotype[s].tag == Unk
    ensures Target(a, s, i, tm) == Target(b, s, i, tm)
  {
    SameFrameShaped(a, b);
  }

  /** A chromosome is determined by its frame and its numbers. */
  lemma FrameAndCellsDetermine(a: seq<Locus>, b: seq<Locus>)
    requires Shaped(a) && SameFrame(a, b)
    requires Shaped(b)
    requires forall i, s :: 0 <= i < |a| && 0 <= s < Width(a) ==> Dos(a[i], s) == Dos(b[i], s) && Dom(a[i], s) == Dom(b[i], s)
    ensures a == b
  {
    forall k | 0 <= k < |a|
      ensures a[k] == b[k]
    {
      assert a[k].genotype == b[k].genotype by {
        forall s | 0 <= s < |a[k].genotype|
          ensures a[k].genotype[s] == b[k].genotype[s]
        {
          assert Dos(a[k], s) == Dos(b[k], s);
        }
      }
      if a[k].dominance.Some? {
        assert a[k].dominance.value == b[k].dominance.value by {
          forall s | 0 <= s < |a[k].dominance.value|
            ensures a[k].dominance.value[s] == b[k].dominance.value[s]
          {
            assert Dom(a[k], s) == Dom(b[k], s);
          }
        }
      }
    }
  }

  /** Fixing a locus without unknowns changes nothing. */
  lemma FixLocusKnown(l: Locus)
    requires forall s :: 0 <= s < |l.genotype| ==> l.genotype[s].tag != Unk
    ensures FixLocus(l) == l
  {
    assert FixLocus(l).genotype == l.genotype;
  }

  /** An imputed chromosome is known at both ends, so the boundary fix leaves it alone. */
  lemma FixEndsOfImputed(loci: seq<Locus>, dom: bool, tm: TermsOf)
    requires |loci| > 0 && Shaped(loci)
    ensures var r := ImputeChromosome(loci, dom, tm).value;
      FixEnds(r) == Ok(r)
  {
    ImputeChromosomeSpec(loci, dom, tm);
    var f := FixEnds(loci).value;
    var r := ImputeChromosome(loci, dom, tm).value;
    var last := |r| - 1;
    SameFrameShaped(f, r);
    assert forall s :: 0 <= s < |r[0].genotype| ==> r[0].genotype[s].tag == f[0].genotype[s].tag;
    assert forall s :: 0 <= s < |r[last].genotype| ==> r[last].genotype[s].tag == f[last].genotype[s].tag;
    FixLocusKnown(r[0]);
    FixLocusKnown(r[last]);
    assert FixEnds(r).value == r;
  }

  /** Imputing an imputed chromosome again changes nothing: the estimates
      depend only on the tags and positions, which imputation keeps. */
  lemma ImputeChromosomeIdempotent(loci: seq<Locus>, dom: bool, tm: TermsOf)
    requires |loci| > 0 && Shaped(loci)
    ensures var r := ImputeChromosome(loci, dom, tm).value;
      ImputeChromosome(r, dom, tm) == Ok(r)
  {
    // Both passes are read off the specification, not the fill loops.
    hide ImputeChromosome, FillStrains, FillStrain, FillRange;
    ImputeChromosomeSpec(loci, dom, tm);
    var f := FixEnds(loci).value;
    var r := ImputeChromosome(loci, dom, tm).value;
    SameFrameShaped(f, r);
    FixEndsOfImputed(loci, dom, tm);
    ImputeChromosomeSpec(r, dom, tm);
    var r2 := ImputeChromosome(r, dom, tm).value;
    forall i, s | 0 <= i < |r| && 0 <= s < Width(r)
      ensures Dos(r[i], s) == Dos(r2[i], s) && Dom(r[i], s) == Dom(r2[i], s)
    {
      if f[i].genotype[s].tag == Unk {
        TargetReadsFrame(f, r, s, i, tm);
      }
    }
    FrameAndCellsDetermine(r, r2);
  }

  /** Every known slot carries its genotype's encoded dosage, as parsing leaves it. */
  predicate Encoded(loci: seq<Locus>) {
    forall k, s :: 0 <= k < |loci| && 0 <= s < |loci[k].genotype| && loci[k].genotype[s].tag != Unk ==>
      loci[k].genotype[s].dosage == Encoding(loci[k].genotype[s].tag)
  }

  /** The conditional terms are probabilities at every triple of loci
      p < i < n, the only triples imputation evaluates them at. */
  predicate FlankTermsAreProbabilities(loci: seq<Locus>, tm: TermsOf) {
    forall p, i, n :: 0 <= p < i < n < |loci| ==> Probabilities(tm(Distances(loci[p], loci[i], loci[n])))
  }

  /** When the conditional terms are probabilities at every flank triple of
      the chromosome (loci p < i < n, in the order the markers lie), every
      dosage after imputation lies in [-1, 1]: no 99 sentinel survives. */
  lemma ImputedDosagesBounded(loci: seq<Locus>, dom: bool, tm: TermsOf)
    requires |loci| > 0 && Shaped(loci) && Encoded(loci)
    requires FlankTermsAreProbabilities(loci, tm)
    ensures var r := ImputeChromosome(loci, dom, tm).value;
      forall i, s :: 0 <= i < |r| && 0 <= s < |r[i].genotype| ==> -1.0 <= r[i].genotype[s].dosage <= 1.0
  {
    // The cells are read off the specification, not the fill loops.
    hide ImputeChromosome, FillStrains, FillStrain, FillRange, FlankTermsAreProbabilities;
    ImputeChromosomeSpec(loci, dom, tm);
    FixEndsSpec(loci);
    var f := FixEnds(loci).value;
    var r := ImputeChromosome(loci, dom, tm).value;
    assert forall k :: 0 <= k < |f| ==> f[k].marker == loci[k].marker;
    forall i, s | 0 <= i < |r| && 0 <= s < |r[i].genotype|
      ensures -1.0 <= r[i].genotype[s].dosage <= 1.0
    {
      assert Dos(r[i], s) == r[i].genotype[s].dosage;
      if f[i].genotype[s].tag == Unk {
        TargetDosageBounded(loci, f, s, i, tm);
      }
    }
  }

  /** The distances read only the three markers. */
  lemma SameMarkersSameDistances(a: Locus, b: Locus, c: Locus, a': Locus, b': Locus, c': Locus)
    requires a.marker == a'.marker && b.marker == b'.marker && c.marker == c'.marker
    ensures Distances(a, b, c) == Distances(a', b', c')
  {
  }

  /** The reference dosage of one unknown cell lies in [-1, 1] when the terms
      are probabilities at the flank triples of a chromosome with the same markers. */
  lemma TargetDosageBounded(loci: seq<Locus>, f: seq<Locus>, s: nat, i: nat, tm: TermsOf)
    requires Shaped(f) && s < Width(f) && i < |f| && EndsKnown(f, s) && f[i].genotype[s].tag == Unk
    requires |loci| == |f| && forall k :: 0 <= k < |f| ==> f[k].marker == loci[k].marker
    requires FlankTermsAreProbabilities(loci, tm)
    ensures -1.0 <= Target(f, s, i, tm).0 <= 1.0
  {
    hide DosageTable, DominanceTableAsWritten, Distances;
    var col := Column(f, s);
    var p := PrevKnown(col, i);
    var n := NextKnown(col, i);
    // Only the markers enter the distances, and the two chromosomes share them.
    SameMarkersSameDistances(f[p], f[i], f[n], loci[p], loci[i], loci[n]);
    var t := tm(Distances(loci[p], loci[i], loci[n]));
    assert Probabilities(t);
    DosageBounded(f[p].genotype[s].tag, f[n].genotype[s].tag, t);
  }
}
