/** The 3x3 tables of `Locus::estimate_unknown_genotypes` (src/geneobject.rs)
    that turn the genotypes flanking a run of missing data into an expected
    dosage and an expected dominance coefficient.  The Haldane step
    `f(d) = (1 - e^(-2d)) / 2` is not modelled: the conditional terms
    `r0..r3` (and the mixing weight `w` of the Het/Het dominance cell) are
    inputs. */
module DosageTables {
  import opened Wrappers
  import opened Types

  /** Conditional probabilities given the flanks, for a locus between them:
      r0 = no crossover on either side | none across the span,
      r1 = crossover on the left only | one across the span,
      r2 = crossover on the right only | one across the span,
      r3 = crossover on both sides | none across the span;
      `w` weighs the two phases of a Het/Het flank pair. */
  datatype Terms = Terms(r0: real, r1: real, r2: real, r3: real, w: real)

  /** The terms computed from the recombination fractions `f1` (left),
      `f2` (right) and `f0` (whole span), as the source writes them. */
  function ConditionalTerms(f1: real, f2: real, f0: real): Terms
    requires 0.0 < f0 < 1.0
  {
    var den := 1.0 - 2.0 * f0 * (1.0 - f0);
    assert den == (1.0 - f0) * (1.0 - f0) + f0 * f0;
    assert den > 0.0;
    Terms(
      (1.0 - f1) * (1.0 - f2) / (1.0 - f0),
      f1 * (1.0 - f2) / f0,
      f2 * (1.0 - f1) / f0,
      f1 * f2 / (1.0 - f0),
      ((1.0 - f0) * (1.0 - f0)) / den)
  }

  /** Fractions related as the Haldane map makes them: no interference, so
      `1 - 2 f0 = (1 - 2 f1)(1 - 2 f2)`, and each fraction below one half. */
  predicate NoInterference(f1: real, f2: real, f0: real) {
    0.0 <= f1 < 0.5 && 0.0 <= f2 < 0.5 && 0.0 < f0 && f0 == f1 + f2 - 2.0 * f1 * f2
  }

  /** All four terms are probabilities. */
  predicate Probabilities(t: Terms) {
    0.0 <= t.r0 <= 1.0 && 0.0 <= t.r1 <= 1.0 && 0.0 <= t.r2 <= 1.0 && 0.0 <= t.r3 <= 1.0
  }

  /** Without interference the terms form two distributions: given no
      crossover across the span it is none or both (r0 + r3 = 1); given one,
      it is left or right (r1 + r2 = 1). */
  lemma ConditionalTermsAreDistributions(f1: real, f2: real, f0: real)
    requires NoInterference(f1, f2, f0)
    ensures f0 < 1.0
    ensures var t := ConditionalTerms(f1, f2, f0);
      t.r0 + t.r3 == 1.0 && t.r1 + t.r2 == 1.0 && Probabilities(t)
  {
    var a, b := (1.0 - f1) * (1.0 - f2), f1 * f2;
    var c, d := f1 * (1.0 - f2), f2 * (1.0 - f1);
    assert b >= 0.0 by { ProductNonNegative(f1, f2); }
    assert a > 0.0 by { ProductPositive(1.0 - f1, 1.0 - f2); }
    assert c >= 0.0 by { ProductNonNegative(f1, 1.0 - f2); }
    assert d >= 0.0 by { ProductNonNegative(f2, 1.0 - f1); }
    assert 1.0 - f0 == a + b;
    assert f0 == c + d;
    SharesOfWhole(a, b, 1.0 - f0);
    SharesOfWhole(c, d, f0);
  }

  lemma ProductNonNegative(x: real, y: real)
    requires x >= 0.0 && y >= 0.0
    ensures x * y >= 0.0
  {
  }

  lemma ProductPositive(x: real, y: real)
    requires x > 0.0 && y > 0.0
    ensures x * y > 0.0
  {
  }

  /** Two non-negative shares of a positive whole are fractions summing to one. */
  lemma SharesOfWhole(a: real, b: real, s: real)
    requires a >= 0.0 && b >= 0.0 && s > 0.0 && a + b == s
    ensures a / s + b / s == 1.0
    ensures 0.0 <= a / s <= 1.0 && 0.0 <= b / s <= 1.0
  {
    assert a / s + b / s == (a + b) / s;
  }

  /** Exchanges the two parental genotypes. */
  function Swap(g: Genotype): Genotype {
    match g
    case Mat => Pat
    case Pat => Mat
    case Het => Het
    case Unk => Unk
  }

  /** The expected dosage at a missing locus, keyed by (previous, next)
      flanking genotype; None when a flank is itself unknown. */
  function DosageTable(prev: Genotype, next: Genotype, t: Terms): (r: Option<real>)
    ensures r.Some? <==> prev != Unk && next != Unk
  {
    match (prev, next)
    case (Mat, Mat) => Some(1.0 - 2.0 * t.r0)
    case (Het, Mat) => Some(1.0 - t.r0 - t.r1)
    case (Pat, Mat) => Some(1.0 - 2.0 * t.r1)
    case (Mat, Het) => Some(t.r1 - t.r0)
    case (Het, Het) => Some(0.0)
    case (Pat, Het) => Some(t.r0 - t.r1)
    case (Mat, Pat) => Some(2.0 * t.r1 - 1.0)
    case (Het, Pat) => Some(t.r0 + t.r1 - 1.0)
    case (Pat, Pat) => Some(2.0 * t.r0 - 1.0)
    case _ => None
  }

  /** The dominance table exactly as the source writes it. */
  function DominanceTableAsWritten(prev: Genotype, next: Genotype, t: Terms): (r: Option<real>)
    ensures r.Some? <==> prev != Unk && next != Unk
  {
    match (prev, next)
    case (Mat, Mat) => Some(2.0 * t.r0 * t.r3)
    case (Het, Mat) => Some(t.r1 * (t.r2 + t.r3))
    case (Pat, Mat) => Some(2.0 * t.r1 * t.r2)
    case (Mat, Het) => Some(t.r1 * t.r0 + t.r2 * t.r3)
    case (Het, Het) => Some(1.0 - 2.0 * t.w * t.r0 * t.r3 - 2.0 * (1.0 - t.w) * t.r1 * t.r2)
    case (Pat, Het) => Some(t.r0 * t.r1 + t.r2 * t.r3)
    case (Mat, Pat) => Some(2.0 * t.r1 * t.r2)
    case (Het, Pat) => Some(t.r1 * (t.r2 + t.r3))
    case (Pat, Pat) => Some(2.0 * t.r1 * t.r3)
    case _ => None
  }

  /** The dominance table with the (Pat, Pat) cell made the mirror image of
      the (Mat, Mat) cell; all other cells are the source's. */
  function DominanceTable(prev: Genotype, next: Genotype, t: Terms): (r: Option<real>)
    ensures r.Some? <==> prev != Unk && next != Unk
    ensures (prev, next) != (Pat, Pat) ==> r == DominanceTableAsWritten(prev, next, t)
  {
    if (prev, next) == (Pat, Pat) then Some(2.0 * t.r0 * t.r3)
    else DominanceTableAsWritten(prev, next, t)
  }

  /** Swapping the parents on both flanks negates the expected dosage; the
      Het/Het cell is zero. */
  lemma DosageAntisymmetric(prev: Genotype, next: Genotype, t: Terms)
    requires prev != Unk && next != Unk
    ensures DosageTable(Swap(prev), Swap(next), t) == Some(-DosageTable(prev, next, t).value)
    ensures DosageTable(Het, Het, t) == Some(0.0)
  {
  }

  /** Swapping the parents on both flanks leaves the expected dominance
      unchanged, cell by cell. */
  lemma DominanceSymmetric(prev: Genotype, next: Genotype, t: Terms)
    ensures DominanceTable(Swap(prev), Swap(next), t) == DominanceTable(prev, next, t)
  {
    match (prev, next)
    case (Mat, Het) =>
      // These two cells write the same product in two orders.
      assert t.r1 * t.r0 == t.r0 * t.r1;
    case (Pat, Het) =>
      assert t.r1 * t.r0 == t.r0 * t.r1;
    case _ =>
  }

  /** The source's table breaks that symmetry: with recombination fractions
      f1 = f2 = 0.1 and f0 = 0.18 (no interference) the (Mat, Mat) and
      (Pat, Pat) cells differ. */
  lemma DominanceAsWrittenAsymmetric()
    ensures var t := ConditionalTerms(0.1, 0.1, 0.18);
      DominanceTableAsWritten(Swap(Mat), Swap(Mat), t) != DominanceTableAsWritten(Mat, Mat, t)
  {
    var t := ConditionalTerms(0.1, 0.1, 0.18);
    assert t.r0 == 0.81 / 0.82 && t.r1 == 0.5 && t.r3 == 0.01 / 0.82;
  }

  /** With probability terms every expected dosage lies between the two
      homozygote encodings, -1 and 1; in particular it is never the 99 sentinel. */
  lemma DosageBounded(prev: Genotype, next: Genotype, t: Terms)
    requires Probabilities(t) && prev != Unk && next != Unk
    ensures -1.0 <= DosageTable(prev, next, t).value <= 1.0
  {
  }
}
