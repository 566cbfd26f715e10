/** The per-locus regression of src/regression.rs: the two least-squares
    kernels are left uninterpreted (their sums, solve and `ln` are floating
    point); what is modelled is the clamp each applies to its result and the
    policy `regression` uses to choose a kernel for every locus. */
module Regression {
  import opened Wrappers
  import opened Types
  import opened GenomeStore
  import opened Datasets

  /** An `f64` as a kernel produces it: NaN, or a value. */
  datatype Float = NaN | Finite(v: real)

  /** A kernel's output before the clamp: the likelihood-ratio statistic,
      the additive coefficient, and the third coefficient (`betac`) that
      only the three-parameter kernel has. */
  datatype Fit = Fit(lrs: Float, additive: real, betac: real)

  /** `RegResult`. */
  datatype RegResult = RegResult(lrs: real, additive: real, dominance: Option<real>)

  /** The kernels: `fit2(traits, genotypes)` is `regression_2n` before its
      clamp and `fit3(traits, genotypes, third, diff)` is `regression_3n`
      before its clamp, with `third` the dominance or control column. */
  datatype Kernels = Kernels(
    fit2: (seq<real>, seq<real>) -> Fit,
    fit3: (seq<real>, seq<real>, seq<real>, bool) -> Fit)

  /** `QTL` (src/geneobject.rs): one locus's statistic and its marker. */
  datatype Qtl = Qtl(lrs: real, additive: real, dominance: Option<real>, marker: Marker)

  /** A statistic the kernels throw away: NaN or negative. */
  predicate Rejected(f: Float) {
    f.NaN? || f.v < 0.0
  }

  /** The tail of `regression_2n`: a rejected statistic becomes zero and so
      does the additive coefficient; there is no dominance coefficient. */
  function Clamp2(f: Fit): (r: RegResult)
    ensures r.lrs >= 0.0 && r.dominance == None
    ensures Rejected(f.lrs) ==> r.lrs == 0.0 && r.additive == 0.0
    ensures !Rejected(f.lrs) ==> r.lrs == f.lrs.v && r.additive == f.additive
  {
    if Rejected(f.lrs) then RegResult(0.0, 0.0, None) else RegResult(f.lrs.v, f.additive, None)
  }

  /** The tail of `regression_3n`: as `Clamp2`, and the third coefficient is
      reported, zeroed along with the others when the statistic is rejected. */
  function Clamp3(f: Fit): (r: RegResult)
    ensures r.lrs >= 0.0 && r.dominance.Some?
    ensures Rejected(f.lrs) ==> r == RegResult(0.0, 0.0, Some(0.0))
    ensures !Rejected(f.lrs) ==> r.lrs == f.lrs.v && r.additive == f.additive && r.dominance == Some(f.betac)
  {
    if Rejected(f.lrs) then RegResult(0.0, 0.0, Some(0.0)) else RegResult(f.lrs.v, f.additive, Some(f.betac))
  }

  /** The clamps change a result exactly when its statistic is rejected, and
      clamping what they report changes nothing. */
  lemma ClampsIdempotent(f: Fit)
    ensures Clamp2(f) == RegResult(0.0, 0.0, None) || (!Rejected(f.lrs) && Clamp2(f).lrs == f.lrs.v)
    ensures var r := Clamp2(f); Clamp2(Fit(Finite(r.lrs), r.additive, f.betac)) == r
    ensures var r := Clamp3(f); Clamp3(Fit(Finite(r.lrs), r.additive, r.dominance.value)) == r
  {
  }

  /** `regression_2n`. */
  function Regression2n(k: Kernels, traits: seq<real>, genotypes: seq<real>): (r: RegResult)
    ensures r.lrs >= 0.0 && r.dominance == None
    ensures !Rejected(k.fit2(traits, genotypes).lrs) ==> r.lrs == k.fit2(traits, genotypes).lrs.v
  {
    Clamp2(k.fit2(traits, genotypes))
  }

  /** `regression_3n`. */
  function Regression3n(k: Kernels, traits: seq<real>, genotypes: seq<real>, third: seq<real>, diff: bool): (r: RegResult)
    ensures r.lrs >= 0.0 && r.dominance.Some?
    ensures !Rejected(k.fit3(traits, genotypes, third, diff).lrs) ==> r.lrs == k.fit3(traits, genotypes, third, diff).lrs.v
  {
    Clamp3(k.fit3(traits, genotypes, third, diff))
  }

  // ---------------------------------------------------------------------
  // Shape of a dataset's loci

  /** A locus has one genotype per strain and, when dominance is modelled,
      one dominance coefficient per strain. */
  predicate LocusFits(l: Locus, n: nat, dom: bool) {
    |l.genotype| == n && (dom ==> l.dominance.Some? && |l.dominance.value| == n)
  }

  /** Every locus of the dataset fits its strain list. */
  predicate WellFormed(d: Dataset) {
    forall c, i :: c in d.genome.chromosomes && 0 <= i < |d.genome.chromosomes[c]| ==>
      LocusFits(d.genome.chromosomes[c][i], |d.strains|, d.dominance)
  }

  lemma {:induction false} AllLociFit(m: map<string, seq<Locus>>, visit: seq<string>, n: nat, dom: bool)
    requires forall c :: c in visit ==> c in m
    requires forall c, i :: c in m && 0 <= i < |m[c]| ==> LocusFits(m[c][i], n, dom)
    ensures forall j :: 0 <= j < |AllLoci(m, visit)| ==> LocusFits(AllLoci(m, visit)[j], n, dom)
    decreases |visit|
  {
    if |visit| > 0 {
      AllLociFit(m, visit[1..], n, dom);
      var head, all := m[visit[0]], AllLoci(m, visit);
      forall j | 0 <= j < |all|
        ensures LocusFits(all[j], n, dom)
      {
        if j < |head| {
          assert all[j] == head[j];
        } else {
          assert all[j] == AllLoci(m, visit[1..])[j - |head|];
        }
      }
    }
  }

  /** `Locus::dominance_subset` (its body is not part of this model): the
      dominance coefficients of the selected strains, in selection order. */
  function DominanceSubset(l: Locus, ixs: seq<nat>): (r: seq<real>)
    requires l.dominance.Some? && forall i :: 0 <= i < |ixs| ==> ixs[i] < |l.dominance.value|
    ensures |r| == |ixs| && forall i :: 0 <= i < |ixs| ==> r[i] == l.dominance.value[ixs[i]]
  {
    seq(|ixs|, i requires 0 <= i < |ixs| => l.dominance.value[ixs[i]])
  }

  /** The selected indices all address one of `n` strains. */
  predicate IndicesBelow(ixs: seq<nat>, n: nat) {
    forall i :: 0 <= i < |ixs| ==> ixs[i] < n
  }

  /** The genotype column of the selected strains, as dosages. */
  function Column(l: Locus, ixs: seq<nat>): (r: seq<real>)
    requires IndicesBelow(ixs, |l.genotype|)
    ensures |r| == |ixs| && forall i :: 0 <= i < |ixs| ==> r[i] == l.genotype[ixs[i]].dosage
  {
    Dosages(GenotypesSubset(l, ixs))
  }

  // ---------------------------------------------------------------------
  // The dispatch

  /** The kernel chosen for one locus: without a control, the dominance
      flag picks the two- or three-parameter kernel; with a control, the
      three-parameter kernel in its composite form, which an intercross
      does not have. Either kernel reads one genotype per trait, so a trait
      vector longer than the selected strains is an error. */
  function LocusRegression(k: Kernels, traits: seq<real>, l: Locus, ixs: seq<nat>,
                           ctrl: Option<seq<real>>, dom: bool, n: nat): (r: Result<RegResult, Error>)
    requires LocusFits(l, n, dom && ctrl.None?) && IndicesBelow(ixs, n)
    ensures r.Err? <==> (ctrl.Some? && dom) || |traits| > |ixs|
    ensures r.Err? ==> r.error == (if ctrl.Some? && dom then CompositeIntercross else TraitsOutnumberStrains)
    ensures r.Ok? ==> r.value.lrs >= 0.0 && (r.value.dominance.None? <==> ctrl.None? && !dom)
  {
    var genotypes := Column(l, ixs);
    match ctrl
    case None =>
      if |traits| > |ixs| then Err(TraitsOutnumberStrains)
      else if dom then Ok(Regression3n(k, traits, genotypes, DominanceSubset(l, ixs), false))
      else Ok(Regression2n(k, traits, genotypes))
    case Some(c) =>
      if dom then Err(CompositeIntercross)
      else if |traits| > |ixs| then Err(TraitsOutnumberStrains)
      else Ok(Regression3n(k, traits, genotypes, c, true))
  }

  /** The loop of `regression` over the loci: one QTL per locus, in order,
      carrying that locus's marker. */
  function RegressLoci(k: Kernels, traits: seq<real>, loci: seq<Locus>, ixs: seq<nat>,
                       ctrl: Option<seq<real>>, dom: bool, n: nat): (r: Result<seq<Qtl>, Error>)
    requires forall j :: 0 <= j < |loci| ==> LocusFits(loci[j], n, dom)
    requires IndicesBelow(ixs, n)
    ensures r.Err? <==> |loci| > 0 && ((ctrl.Some? && dom) || |traits| > |ixs|)
    ensures r.Err? ==> r.error == (if ctrl.Some? && dom then CompositeIntercross else TraitsOutnumberStrains)
    ensures r.Ok? ==> |r.value| == |loci|
    ensures r.Ok? ==> forall j :: 0 <= j < |loci| ==>
      && r.value[j].marker == loci[j].marker
      && LocusRegression(k, traits, loci[j], ixs, ctrl, dom, n)
         == Ok(RegResult(r.value[j].lrs, r.value[j].additive, r.value[j].dominance))
    decreases |loci|
  {
    if |loci| == 0 then Ok([])
    else if ctrl.Some? && dom then Err(CompositeIntercross)
    else if |traits| > |ixs| then Err(TraitsOutnumberStrains)
    else
      assert LocusFits(loci[0], n, dom);
      var g := LocusRegression(k, traits, loci[0], ixs, ctrl, dom, n).value;
      var rest := RegressLoci(k, traits, loci[1..], ixs, ctrl, dom, n).value;
      Ok([Qtl(g.lrs, g.additive, g.dominance, loci[0].marker)] + rest)
  }

  /** The control column: the selected genotypes of the locus carrying the
      control marker; an unknown control is an error. */
  function ControlColumn(d: Dataset, control: Option<string>, ixs: seq<nat>): (r: Result<Option<seq<real>>, Error>)
    requires WellFormed(d) && IndicesBelow(ixs, |d.strains|)
    ensures r.Err? <==> control.Some? && FindLocus(d.genome, control.value).None?
    ensures r.Err? ==> r.error == ControlNotFound
    ensures r.Ok? ==> (r.value.Some? <==> control.Some?)
    ensures r.Ok? && control.Some? ==>
      |r.value.value| == |ixs| && r.value.value == Column(FindLocus(d.genome, control.value).value, ixs)
  {
    match control
    case None => Ok(None)
    case Some(c) =>
      match FindLocus(d.genome, c)
      case None => Err(ControlNotFound)
      case Some(l) => Ok(Some(Column(l, ixs)))
  }

  /** `regression`: the strains are looked up, then the control marker, then
      every locus is regressed, chromosomes taken in the map's order `visit`. */
  function Regress(k: Kernels, d: Dataset, traits: seq<real>, names: seq<string>,
                   control: Option<string>, visit: seq<string>): (r: Result<seq<Qtl>, Error>)
    requires WellFormed(d) && IsEnumeration(visit, d.genome.chromosomes)
    ensures (exists i :: 0 <= i < |names| && names[i] !in d.strains) ==> r.Err? && r.error.UnknownStrain?
    ensures ((forall i :: 0 <= i < |names| ==> names[i] in d.strains)
             && control.Some? && FindLocus(d.genome, control.value).None?)
            ==> r == Err(ControlNotFound)
    ensures ((forall i :: 0 <= i < |names| ==> names[i] in d.strains)
             && (control.Some? ==> FindLocus(d.genome, control.value).Some?)
             && NLoci(d.genome, visit) > 0 && !(control.Some? && d.dominance) && |traits| > |names|)
            ==> r == Err(TraitsOutnumberStrains)
    ensures r.Err? ==> || r.error.UnknownStrain? || r.error == ControlNotFound || r.error == CompositeIntercross
                       || r.error == TraitsOutnumberStrains
    ensures r.Ok? ==> |r.value| == NLoci(d.genome, visit)
    ensures r.Ok? ==> forall j :: 0 <= j < |r.value| ==>
      r.value[j].marker == AllLoci(d.genome.chromosomes, visit)[j].marker && r.value[j].lrs >= 0.0
  {
    var ixs :- StrainIndices(d.strains, names);
    var ctrl :- ControlColumn(d, control, ixs);
    AllLociFit(d.genome.chromosomes, visit, |d.strains|, d.dominance);
    RegressLoci(k, traits, AllLoci(d.genome.chromosomes, visit), ixs, ctrl, d.dominance, |d.strains|)
  }

  /** The dispatch, case by case, once the strains and the control resolve:
      each QTL of locus `j` is the clamped result of the kernel the policy
      picks; a control in an intercross, or more traits than strains, is an
      error as soon as there is a locus. */
  lemma RegressPolicy(k: Kernels, d: Dataset, traits: seq<real>, names: seq<string>,
                      control: Option<string>, visit: seq<string>, j: nat)
    requires WellFormed(d) && IsEnumeration(visit, d.genome.chromosomes)
    requires forall i :: 0 <= i < |names| ==> names[i] in d.strains
    requires control.Some? ==> FindLocus(d.genome, control.value).Some?
    requires j < NLoci(d.genome, visit)
    ensures var r := Regress(k, d, traits, names, control, visit);
      var ixs := StrainIndices(d.strains, names).value;
      var l := AllLoci(d.genome.chromosomes, visit)[j];
      && IndicesBelow(ixs, |d.strains|) && LocusFits(l, |d.strains|, d.dominance)
      && ((control.Some? && d.dominance) || |traits| > |names| <==> r.Err?)
      && (r.Err? ==> r.error == (if control.Some? && d.dominance then CompositeIntercross else TraitsOutnumberStrains))
      && (control.None? && !d.dominance && |traits| <= |names| ==>
            r.Ok? && RegResult(r.value[j].lrs, r.value[j].additive, r.value[j].dominance)
                     == Regression2n(k, traits, Column(l, ixs)))
      && (control.None? && d.dominance && |traits| <= |names| ==>
            r.Ok? && RegResult(r.value[j].lrs, r.value[j].additive, r.value[j].dominance)
                     == Regression3n(k, traits, Column(l, ixs), DominanceSubset(l, ixs), false))
      && (control.Some? && !d.dominance && |traits| <= |names| ==>
            r.Ok? && RegResult(r.value[j].lrs, r.value[j].additive, r.value[j].dominance)
                     == Regression3n(k, traits, Column(l, ixs),
                                     Column(FindLocus(d.genome, control.value).value, ixs), true))
  {
    AllLociFit(d.genome.chromosomes, visit, |d.strains|, d.dominance);
  }
}
