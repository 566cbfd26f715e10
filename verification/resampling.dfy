/** The resampling bookkeeping of src/regression.rs: the p-value lookup, the
    swap shuffle, the bootstrap index draw, the permutation test and the
    bootstrap locus tally.  Every random number is a parameter: `gen_range(0,
    n)` is an arbitrary draw reduced modulo `n`, indexed by where it is
    drawn; the thread pool of `permutation` is its workers' results
    concatenated in worker order. */
module Resampling {
  import opened Wrappers
  import opened Types
  import opened GenomeStore
  import opened Datasets
  import opened Sorting
  import opened Regression

  // ---------------------------------------------------------------------
  // p-values

  /** `f64::max` against a number: NaN yields the number. */
  function MaxWith(a: Float, b: real): real {
    if a.NaN? then b else if a.v < b then b else a.v
  }

  function Min(a: real, b: real): real {
    if a < b then a else b
  }

  /** `pvalue`: one minus the share of permutation maxima at most `lrs`,
      counted on a sorted copy; the share of an empty list is 0/0, a NaN,
      which the final clamp turns into 0. */
  function PValue(lrs: real, permutations: seq<real>): (r: real)
    ensures 0.0 <= r <= 1.0
    ensures |permutations| == 0 ==> r == 0.0
    ensures |permutations| > 0 ==>
      r == 1.0 - CountLe(permutations, lrs) as real / |permutations| as real
  {
    var temp := Sort(permutations);
    var i := TakeWhileLe(temp, lrs);
    var n := |permutations|;
    TakeWhileCounts(temp, lrs);
    CountLeSort(permutations, lrs);
    var share := if n == 0 then NaN else Finite(1.0 - i as real / n as real);
    assert n > 0 ==> 0.0 <= i as real / n as real <= 1.0 by {
      if n > 0 { ShareBounded(i, n); }
    }
    Min(MaxWith(share, 0.0), 1.0)
  }

  lemma ShareBounded(i: nat, n: nat)
    requires 0 < n && i <= n
    ensures 0.0 <= i as real / n as real <= 1.0
  {
  }

  /** A larger statistic never has a larger p-value. */
  lemma PValueMonotone(lrs: real, lrs': real, permutations: seq<real>)
    requires lrs <= lrs'
    ensures PValue(lrs', permutations) <= PValue(lrs, permutations)
  {
    if |permutations| > 0 {
      CountLeMonotone(permutations, lrs, lrs');
      DivMonotone(CountLe(permutations, lrs) as real, CountLe(permutations, lrs') as real, |permutations| as real);
    }
  }

  lemma DivMonotone(a: real, b: real, n: real)
    requires a <= b && n > 0.0
    ensures a / n <= b / n
  {
    assert b / n - a / n == (b - a) / n;
  }

  /** A statistic below every permutation maximum has p-value 1. */
  lemma PValueBelowAll(lrs: real, permutations: seq<real>)
    requires |permutations| > 0
    requires forall i :: 0 <= i < |permutations| ==> lrs < permutations[i]
    ensures PValue(lrs, permutations) == 1.0
  {
    CountLeNone(permutations, lrs);
    assert 0 as real / |permutations| as real == 0.0;
  }

  /** A statistic at or above every permutation maximum has p-value 0. */
  lemma PValueAboveAll(lrs: real, permutations: seq<real>)
    requires |permutations| > 0
    requires forall i :: 0 <= i < |permutations| ==> permutations[i] <= lrs
    ensures PValue(lrs, permutations) == 0.0
  {
    CountLeAll(permutations, lrs);
    assert |permutations| as real / |permutations| as real == 1.0;
  }

  // ---------------------------------------------------------------------
  // Shuffling and index draws

  function SwapAt<T>(s: seq<T>, i: nat, j: nat): (r: seq<T>)
    requires i < |s| && j < |s|
    ensures |r| == |s| && multiset(r) == multiset(s)
    ensures r[i] == s[j] && r[j] == s[i]
    ensures forall k :: 0 <= k < |s| && k != i && k != j ==> r[k] == s[k]
  {
    s[i := s[j]][j := s[i]]
  }

  /** The swaps of `permuted_mut` from position `ix` on: position `ix` is
      swapped with the draw for `ix`, reduced into range. */
  function ShuffleFrom<T>(s: seq<T>, ix: nat, draw: nat -> nat): (r: seq<T>)
    requires ix <= |s|
    ensures |r| == |s| && multiset(r) == multiset(s)
    decreases |s| - ix
  {
    if ix == |s| then s else ShuffleFrom(SwapAt(s, ix, draw(ix) % |s|), ix + 1, draw)
  }

  /** The result of `permuted_mut` for the draws `draw`: a rearrangement of `s`. */
  function Shuffled<T>(s: seq<T>, draw: nat -> nat): (r: seq<T>)
    ensures |r| == |s| && multiset(r) == multiset(s)
  {
    ShuffleFrom(s, 0, draw)
  }

  /** `permuted_mut`: every position in turn is swapped with a drawn one;
      the result is a rearrangement of the input. */
  method PermutedMut<T>(data: seq<T>, draw: nat -> nat) returns (r: seq<T>)
    ensures r == Shuffled(data, draw)
    ensures |r| == |data| && multiset(r) == multiset(data)
  {
    r := data;
    var n := |data|;
    for ix := 0 to n
      invariant |r| == n && ShuffleFrom(r, ix, draw) == Shuffled(data, draw)
    {
      var j := draw(ix) % n;
      r := SwapAt(r, ix, j);
    }
  }

  /** `bootstrap_indices` for a slice of length `n`: one draw per element, each below `n`. */
  function BootstrapIndices(n: nat, draw: nat -> nat): (r: seq<nat>)
    ensures |r| == n && IndicesBelow(r, n)
  {
    seq(n, i requires 0 <= i < n => draw(i) % n)
  }

  /** Every index vector of the right length and range is some draw's. */
  lemma BootstrapIndicesCover(ixs: seq<nat>)
    requires IndicesBelow(ixs, |ixs|)
    ensures BootstrapIndices(|ixs|, (i: nat) => if i < |ixs| then ixs[i] else 0) == ixs
  {
  }

  /** The elements of `v` at the drawn indices. */
  function Pick(v: seq<real>, ixs: seq<nat>): (r: seq<real>)
    requires IndicesBelow(ixs, |v|)
    ensures |r| == |ixs| && forall j :: 0 <= j < |ixs| ==> r[j] == v[ixs[j]]
  {
    seq(|ixs|, j requires 0 <= j < |ixs| => v[ixs[j]])
  }

  // ---------------------------------------------------------------------
  // The permutation test

  /** `threads.max(1)`. */
  function Workers(threads: nat): (r: nat)
    ensures r >= 1 && (threads >= 1 ==> r == threads)
  {
    if threads < 1 then 1 else threads
  }

  /** Each loci fits `n` strains. */
  predicate LociFit(loci: seq<Locus>, n: nat) {
    forall j :: 0 <= j < |loci| ==> |loci[j].genotype| == n
  }

  function LocusLrs(k: Kernels, traits: seq<real>, l: Locus, ixs: seq<nat>): real
    requires IndicesBelow(ixs, |l.genotype|)
  {
    Regression2n(k, traits, Column(l, ixs)).lrs
  }

  /** The inner loop of a permutation round: `lrs_max` starts at `acc` and
      takes the maximum with every locus's two-parameter statistic. */
  function LociMax(k: Kernels, traits: seq<real>, loci: seq<Locus>, ixs: seq<nat>, n: nat, acc: real): (r: real)
    requires LociFit(loci, n) && IndicesBelow(ixs, n)
    ensures r >= acc
    ensures forall j :: 0 <= j < |loci| ==> LocusLrs(k, traits, loci[j], ixs) <= r
    ensures r == acc || exists j :: 0 <= j < |loci| && r == LocusLrs(k, traits, loci[j], ixs)
    decreases |loci|
  {
    if |loci| == 0 then acc
    else
      var x := LocusLrs(k, traits, loci[0], ixs);
      var r := LociMax(k, traits, loci[1..], ixs, n, if x < acc then acc else x);
      assert forall j :: 1 <= j < |loci| ==> loci[j] == loci[1..][j - 1];
      r
  }

  /** The traits of worker `w` in round `t`: shuffled once before the first
      round and once more after every round. */
  function TraitsAt(traits: seq<real>, w: nat, t: nat, draw: (nat, nat, nat) -> nat): (r: seq<real>)
    ensures multiset(r) == multiset(traits) && |r| == |traits|
    decreases t
  {
    var prev := if t == 0 then traits else TraitsAt(traits, w, t - 1, draw);
    Shuffled(prev, j => draw(w, t, j))
  }

  /** One worker's `n_perms / threads` round maxima, in round order. */
  function WorkerMaxima(k: Kernels, traits: seq<real>, loci: seq<Locus>, ixs: seq<nat>, n: nat,
                        rounds: nat, draw: (nat, nat, nat) -> nat, w: nat): (r: seq<real>)
    requires LociFit(loci, n) && IndicesBelow(ixs, n)
    ensures |r| == rounds && forall t :: 0 <= t < rounds ==> r[t] >= 0.0
  {
    seq(rounds, t requires 0 <= t < rounds => LociMax(k, TraitsAt(traits, w, t, draw), loci, ixs, n, 0.0))
  }

  function Concat(xss: seq<seq<real>>): (r: seq<real>)
    decreases |xss|
  {
    if |xss| == 0 then [] else xss[0] + Concat(xss[1..])
  }

  lemma {:induction false} ConcatUniform(xss: seq<seq<real>>, m: nat)
    requires forall i :: 0 <= i < |xss| ==> |xss[i]| == m
    ensures |Concat(xss)| == |xss| * m
    decreases |xss|
  {
    if |xss| > 0 {
      ConcatUniform(xss[1..], m);
    }
  }

  lemma {:induction false} ConcatNonNegative(xss: seq<seq<real>>)
    requires forall i, j :: 0 <= i < |xss| && 0 <= j < |xss[i]| ==> xss[i][j] >= 0.0
    ensures AllAtLeast(Concat(xss), 0.0)
    decreases |xss|
  {
    if |xss| > 0 {
      ConcatNonNegative(xss[1..]);
      var c := Concat(xss);
      forall j | 0 <= j < |c|
        ensures c[j] >= 0.0
      {
        if j < |xss[0]| {
          assert c[j] == xss[0][j];
        } else {
          assert c[j] == Concat(xss[1..])[j - |xss[0]|];
        }
      }
    }
  }

  /** Every worker's maxima, concatenated in worker order. */
  function AllMaxima(k: Kernels, traits: seq<real>, loci: seq<Locus>, ixs: seq<nat>, n: nat,
                     workers: nat, rounds: nat, draw: (nat, nat, nat) -> nat): (r: seq<real>)
    requires LociFit(loci, n) && IndicesBelow(ixs, n)
    ensures |r| == workers * rounds && AllAtLeast(r, 0.0)
  {
    var xss := seq(workers, w requires 0 <= w < workers => WorkerMaxima(k, traits, loci, ixs, n, rounds, draw, w));
    ConcatUniform(xss, rounds);
    ConcatNonNegative(xss);
    Concat(xss)
  }

  lemma {:induction false} DatasetLociFit(d: Dataset, visit: seq<string>)
    requires WellFormed(d) && IsEnumeration(visit, d.genome.chromosomes)
    ensures LociFit(AllLoci(d.genome.chromosomes, visit), |d.strains|)
  {
    AllLociFit(d.genome.chromosomes, visit, |d.strains|, d.dominance);
    var loci := AllLoci(d.genome.chromosomes, visit);
    forall j | 0 <= j < |loci|
      ensures |loci[j].genotype| == |d.strains|
    {
      assert LocusFits(loci[j], |d.strains|, d.dominance);
    }
  }

  /** `permutation`: `max(threads, 1)` workers each run `n_perms / threads`
      rounds; the maxima of all rounds come back sorted ascending. The first
      round's first locus already reads one genotype per trait, so more
      traits than strains is an error once there is a round and a locus. */
  function Permutation(k: Kernels, d: Dataset, traits: seq<real>, names: seq<string>, nPerms: nat,
                       threads: nat, visit: seq<string>, draw: (nat, nat, nat) -> nat): (r: Result<seq<real>, Error>)
    requires WellFormed(d) && IsEnumeration(visit, d.genome.chromosomes)
    ensures r.Ok? <==> && (forall i :: 0 <= i < |names| ==> names[i] in d.strains)
                       && !(|traits| > |names| && nPerms / Workers(threads) > 0 && NLoci(d.genome, visit) > 0)
    ensures r.Err? ==> r.error.UnknownStrain? || r.error == TraitsOutnumberStrains
    ensures r.Err? && r.error == TraitsOutnumberStrains ==> forall i :: 0 <= i < |names| ==> names[i] in d.strains
    ensures r.Ok? ==> |r.value| == Workers(threads) * (nPerms / Workers(threads))
    ensures r.Ok? ==> Sorted(r.value) && AllAtLeast(r.value, 0.0)
  {
    var ixs :- StrainIndices(d.strains, names);
    DatasetLociFit(d, visit);
    var w := Workers(threads);
    var loci := AllLoci(d.genome.chromosomes, visit);
    if |traits| > |ixs| && nPerms / w > 0 && |loci| > 0 then Err(TraitsOutnumberStrains)
    else
      var all := AllMaxima(k, traits, loci, ixs, |d.strains|, w, nPerms / w, draw);
      var sorted := Sort(all);
      AtLeastOfMultiset(sorted, all, 0.0);
      Ok(sorted)
  }

  /** The permutation output is the rounds' maxima rearranged. */
  lemma PermutationContents(k: Kernels, d: Dataset, traits: seq<real>, names: seq<string>, nPerms: nat,
                            threads: nat, visit: seq<string>, draw: (nat, nat, nat) -> nat)
    requires WellFormed(d) && IsEnumeration(visit, d.genome.chromosomes)
    requires forall i :: 0 <= i < |names| ==> names[i] in d.strains
    ensures var r := Permutation(k, d, traits, names, nPerms, threads, visit, draw);
      var ixs := StrainIndices(d.strains, names).value;
      var w := Workers(threads);
      && LociFit(AllLoci(d.genome.chromosomes, visit), |d.strains|) && IndicesBelow(ixs, |d.strains|)
      && (|traits| <= |names| ==> r.Ok?)
      && (r.Ok? ==> multiset(r.value) == multiset(AllMaxima(k, traits, AllLoci(d.genome.chromosomes, visit), ixs, |d.strains|, w, nPerms / w, draw)))
  {
    DatasetLociFit(d, visit);
  }

  /** Whole rounds only: the output has at most `n_perms` maxima, exactly
      `n_perms` when the worker count divides it. */
  lemma PermutationCount(nPerms: nat, threads: nat)
    ensures var w := Workers(threads);
      w * (nPerms / w) <= nPerms && (w * (nPerms / w) == nPerms <==> nPerms % w == 0)
  {
    var w := Workers(threads);
    assert nPerms == w * (nPerms / w) + nPerms % w;
  }

  // ---------------------------------------------------------------------
  // The bootstrap

  const BootstrapTestSize: nat := 1000
  const MaxPermutation: nat := 1000000

  /** `n_boot.max(BOOTSTRAP_TESTSIZE).min(MAXPERMUTATION)`. */
  function NTest(nBoot: nat): (r: nat)
    ensures BootstrapTestSize <= r <= MaxPermutation
    ensures BootstrapTestSize <= nBoot <= MaxPermutation ==> r == nBoot
    ensures nBoot < BootstrapTestSize ==> r == BootstrapTestSize
    ensures nBoot > MaxPermutation ==> r == MaxPermutation
  {
    var lo := if nBoot < BootstrapTestSize then BootstrapTestSize else nBoot;
    if lo > MaxPermutation then MaxPermutation else lo
  }

  /** The argmax loop of one trial from locus `i` on, with the running
      maximum `best` at position `pos`: a locus takes over only when it is
      strictly greater. */
  function ArgMaxFrom(xs: seq<real>, i: nat, best: real, pos: nat): (r: nat)
    requires i <= |xs| && best >= 0.0
    requires forall j :: 0 <= j < i ==> xs[j] <= best
    requires best == 0.0 ==> pos == 0
    requires best > 0.0 ==> pos < i && xs[pos] == best && forall j :: 0 <= j < pos ==> xs[j] < best
    ensures (best == 0.0 && forall j :: i <= j < |xs| ==> xs[j] <= 0.0) ==> r == 0
    ensures (best > 0.0 || exists j :: i <= j < |xs| && xs[j] > 0.0) ==>
      && r < |xs| && xs[r] > 0.0
      && (forall j :: 0 <= j < |xs| ==> xs[j] <= xs[r])
      && (forall j :: 0 <= j < r ==> xs[j] < xs[r])
    decreases |xs| - i
  {
    if i == |xs| then pos
    else if best < xs[i] then ArgMaxFrom(xs, i + 1, xs[i], i)
    else ArgMaxFrom(xs, i + 1, best, pos)
  }

  /** The locus a trial votes for: the first one whose statistic is
      strictly greatest, or locus 0 when none exceeds 0. */
  function FirstArgMax(xs: seq<real>): (r: nat)
    ensures (forall j :: 0 <= j < |xs| ==> xs[j] <= 0.0) ==> r == 0
    ensures (exists j :: 0 <= j < |xs| && xs[j] > 0.0) ==>
      && r < |xs| && xs[r] > 0.0
      && (forall j :: 0 <= j < |xs| ==> xs[j] <= xs[r])
      && (forall j :: 0 <= j < r ==> xs[j] < xs[r])
  {
    ArgMaxFrom(xs, 0, 0.0, 0)
  }

  /** Any position characterised as the first strict maximum is the vote. */
  lemma FirstArgMaxUnique(xs: seq<real>, p: nat)
    requires p < |xs| && xs[p] > 0.0
    requires forall j :: 0 <= j < |xs| ==> xs[j] <= xs[p]
    requires forall j :: 0 <= j < p ==> xs[j] < xs[p]
    ensures FirstArgMax(xs) == p
  {
    var r := FirstArgMax(xs);
    assert xs[r] <= xs[p] && xs[p] <= xs[r];
  }

  /** How many entries of `pos` equal `j`. */
  function Count(pos: seq<nat>, j: nat): nat
    decreases |pos|
  {
    if |pos| == 0 then 0 else (if pos[0] == j then 1 else 0) + Count(pos[1..], j)
  }

  function Sum(s: seq<nat>): nat
    decreases |s|
  {
    if |s| == 0 then 0 else s[0] + Sum(s[1..])
  }

  lemma {:induction false} CountSnoc(pos: seq<nat>, x: nat, j: nat)
    ensures Count(pos + [x], j) == Count(pos, j) + (if x == j then 1 else 0)
    decreases |pos|
  {
    if |pos| > 0 {
      assert (pos + [x])[1..] == pos[1..] + [x];
      CountSnoc(pos[1..], x, j);
    }
  }

  lemma {:induction false} SumIncrement(s: seq<nat>, k: nat)
    requires k < |s|
    ensures Sum(s[k := s[k] + 1]) == Sum(s) + 1
    decreases |s|
  {
    if k > 0 {
      SumIncrement(s[1..], k - 1);
      assert s[k := s[k] + 1][1..] == s[1..][k - 1 := s[k] + 1];
    } else {
      assert s[k := s[k] + 1][1..] == s[1..];
    }
  }

  lemma {:induction false} SumZeros(n: nat)
    ensures Sum(seq(n, _ => 0)) == 0
    decreases n
  {
    if n > 0 {
      assert seq(n, _ => 0)[1..] == seq(n - 1, _ => 0);
      SumZeros(n - 1);
    }
  }

  /** `locus_count[pos] += 1` over the trials: entry `j` counts the trials
      that voted for `j`, and the counts add up to the number of trials. */
  function Tally(votes: seq<nat>, n: nat): (r: seq<nat>)
    requires IndicesBelow(votes, n)
    ensures |r| == n && Sum(r) == |votes|
    ensures forall j :: 0 <= j < n ==> r[j] == Count(votes, j)
    decreases |votes|
  {
    if |votes| == 0 then
      SumZeros(n);
      seq(n, _ => 0)
    else
      var init, last := votes[..|votes| - 1], votes[|votes| - 1];
      assert votes == init + [last];
      var t := Tally(init, n);
      SumIncrement(t, last);
      forall j | 0 <= j < n
        ensures t[last := t[last] + 1][j] == Count(votes, j)
      {
        CountSnoc(init, last, j);
      }
      t[last := t[last] + 1]
  }

  /** The statistics of one bootstrap trial, one per locus: the resampled
      traits against the resampled genotype (and control) columns. */
  function TrialLrs(k: Kernels, traits: seq<real>, loci: seq<Locus>, ixs: seq<nat>, n: nat,
                    ctrl: Option<seq<real>>, indices: seq<nat>): (r: seq<real>)
    requires LociFit(loci, n) && IndicesBelow(ixs, n)
    requires IndicesBelow(indices, |traits|) && |traits| <= |ixs|
    requires ctrl.Some? ==> |ctrl.value| == |ixs|
    ensures |r| == |loci| && forall j :: 0 <= j < |loci| ==> r[j] >= 0.0
  {
    var bTraits := Pick(traits, indices);
    seq(|loci|, j requires 0 <= j < |loci| =>
      var bGenotypes := Pick(Column(loci[j], ixs), indices);
      match ctrl
      case Some(c) => Regression3n(k, bTraits, bGenotypes, Pick(c, indices), true).lrs
      case None => Regression2n(k, bTraits, bGenotypes).lrs)
  }

  /** The vote of trial `i`: indices drawn with `draw(i, _)`. */
  function Vote(k: Kernels, traits: seq<real>, loci: seq<Locus>, ixs: seq<nat>, n: nat,
                ctrl: Option<seq<real>>, draw: (nat, nat) -> nat, i: nat): (r: nat)
    requires LociFit(loci, n) && IndicesBelow(ixs, n) && |traits| <= |ixs|
    requires ctrl.Some? ==> |ctrl.value| == |ixs|
    ensures |loci| > 0 ==> r < |loci|
  {
    var xs := TrialLrs(k, traits, loci, ixs, n, ctrl, BootstrapIndices(|traits|, j => draw(i, j)));
    FirstArgMax(xs)
  }

  /** `bootstrap`: strains, then the control, are looked up; every trial
      votes for one locus, and the votes are tallied per locus.  Without loci
      the first vote has nowhere to go. */
  function Bootstrap(k: Kernels, d: Dataset, traits: seq<real>, names: seq<string>, control: Option<string>,
                     nBoot: nat, visit: seq<string>, draw: (nat, nat) -> nat): (r: Result<seq<nat>, Error>)
    requires WellFormed(d) && IsEnumeration(visit, d.genome.chromosomes)
    requires |traits| <= |names|
    ensures (exists i :: 0 <= i < |names| && names[i] !in d.strains) ==> r.Err? && r.error.UnknownStrain?
    ensures ((forall i :: 0 <= i < |names| ==> names[i] in d.strains)
             && control.Some? && FindLocus(d.genome, control.value).None?)
            ==> r == Err(ControlNotFound)
    ensures ((forall i :: 0 <= i < |names| ==> names[i] in d.strains)
             && (control.Some? ==> FindLocus(d.genome, control.value).Some?))
            ==> (r.Err? <==> NLoci(d.genome, visit) == 0) && (r.Err? ==> r.error == NoLoci)
    ensures r.Ok? ==> |r.value| == NLoci(d.genome, visit) && Sum(r.value) == NTest(nBoot)
  {
    var ixs :- StrainIndices(d.strains, names);
    var ctrl :- ControlColumn(d, control, ixs);
    var loci := AllLoci(d.genome.chromosomes, visit);
    if |loci| == 0 then Err(NoLoci)
    else
      DatasetLociFit(d, visit);
      var votes := seq(NTest(nBoot), i requires 0 <= i < NTest(nBoot) =>
        Vote(k, traits, loci, ixs, |d.strains|, ctrl, draw, i));
      Ok(Tally(votes, |loci|))
  }

  /** Entry `j` of the bootstrap result counts the trials whose vote, the
      first strictly greatest statistic, is locus `j`. */
  lemma BootstrapCounts(k: Kernels, d: Dataset, traits: seq<real>, names: seq<string>, control: Option<string>,
                        nBoot: nat, visit: seq<string>, draw: (nat, nat) -> nat, j: nat)
    requires WellFormed(d) && IsEnumeration(visit, d.genome.chromosomes)
    requires |traits| <= |names|
    requires Bootstrap(k, d, traits, names, control, nBoot, visit, draw).Ok?
    requires j < NLoci(d.genome, visit)
    ensures var ixs := StrainIndices(d.strains, names).value;
      var ctrl := ControlColumn(d, control, ixs).value;
      var loci := AllLoci(d.genome.chromosomes, visit);
      && LociFit(loci, |d.strains|) && IndicesBelow(ixs, |d.strains|)
      && (ctrl.Some? ==> |ctrl.value| == |ixs|)
      && Bootstrap(k, d, traits, names, control, nBoot, visit, draw).value[j]
         == Count(seq(NTest(nBoot), i requires 0 <= i < NTest(nBoot) =>
                    Vote(k, traits, loci, ixs, |d.strains|, ctrl, draw, i)), j)
  {
    DatasetLociFit(d, visit);
  }
}
