/** A genotype dataset (`Dataset` in src/geneobject.rs): its metadata, the
    strain list from the header, the genome, and whether dominance is modelled;
    the header parser, the strain lookup, and the dataset-wide imputation. */
module Datasets {
  import opened Wrappers
  import opened Types
  import opened Text
  import opened Meta
  import opened GenomeStore
  import opened Imputation
  import opened Intervals

  datatype Dataset = Dataset(
    metadata: Metadata,
    hasMb: bool,
    genome: Genome,
    strains: seq<string>,
    dominance: bool)

  const Intercross: string := "intercross"

  /** `Dataset::new`: an empty genome; dominance is modelled exactly for an intercross. */
  function New(md: Metadata, hasMb: bool, strains: seq<string>): (d: Dataset)
    ensures d.dominance <==> md.datasetType == Intercross
    ensures d.genome == Empty() && d.strains == strains && d.hasMb == hasMb && d.metadata == md
  {
    Dataset(md, hasMb, Empty(), strains, md.datasetType == Intercross)
  }

  // ---------------------------------------------------------------------
  // The header line

  /** `parse_dataset_header`: the tab-separated words (an empty last one
      dropped) must number at least four; the fourth decides whether an Mb
      column is present, and the strains are the words after the fixed columns. */
  function ParseDatasetHeader(line: string): (r: Result<(bool, seq<string>), Error>)
    ensures r.Err? <==> |SplitTerminator(line, Tab)| < 4
    ensures r.Err? ==> r.error == HeaderTooShort
    ensures r.Ok? ==>
      var words := SplitTerminator(line, Tab);
      && (r.value.0 <==> words[3] == "Mb")
      && r.value.1 == words[if r.value.0 then 4 else 3..]
  {
    var words := SplitTerminator(line, Tab);
    if |words| < 4 then Err(HeaderTooShort)
    else
      var hasMb := words[3] == "Mb";
      Ok((hasMb, words[if hasMb then 4 else 3..]))
  }

  /** The fixed columns of a header, with or without the Mb column. */
  function HeaderColumns(hasMb: bool): seq<string> {
    ["Chr", "Locus", "cM"] + (if hasMb then ["Mb"] else [])
  }

  /** A header written from a strain list parses back to that list: the
      strains must be tab-free with a non-empty last one, and without an Mb
      column there must be a first strain, not itself named "Mb". */
  lemma HeaderRoundTrip(hasMb: bool, strains: seq<string>)
    requires forall i :: 0 <= i < |strains| ==> Tab !in strains[i]
    requires |strains| > 0 ==> strains[|strains| - 1] != ""
    requires !hasMb ==> |strains| > 0 && strains[0] != "Mb"
    ensures ParseDatasetHeader(Join(HeaderColumns(hasMb) + strains, Tab)) == Ok((hasMb, strains))
  {
    hide ParseDatasetHeader, SplitTerminator, Join;
    var parts := HeaderColumns(hasMb) + strains;
    PartsTabFree(hasMb, strains);
    LastPartNonEmpty(hasMb, strains);
    SplitTerminatorJoin(parts, Tab);
    ParseWords(Join(parts, Tab), hasMb, strains);
  }

  /** The header's last word is a strain name or a fixed column, never empty. */
  lemma LastPartNonEmpty(hasMb: bool, strains: seq<string>)
    requires |strains| > 0 ==> strains[|strains| - 1] != ""
    ensures var parts := HeaderColumns(hasMb) + strains;
      |parts| >= 1 && parts[|parts| - 1] != ""
  {
    var parts := HeaderColumns(hasMb) + strains;
    if |strains| > 0 {
      assert parts[|parts| - 1] == strains[|strains| - 1];
    } else {
      assert parts == HeaderColumns(hasMb);
    }
  }

  /** A line whose words are the fixed columns and the strains parses to them. */
  lemma ParseWords(line: string, hasMb: bool, strains: seq<string>)
    requires SplitTerminator(line, Tab) == HeaderColumns(hasMb) + strains
    requires !hasMb ==> |strains| > 0 && strains[0] != "Mb"
    ensures ParseDatasetHeader(line) == Ok((hasMb, strains))
  {
    var parts := HeaderColumns(hasMb) + strains;
    assert parts[3] == "Mb" <==> hasMb;
    assert parts[|HeaderColumns(hasMb)|..] == strains;
  }

  lemma PartsTabFree(hasMb: bool, strains: seq<string>)
    requires forall i :: 0 <= i < |strains| ==> Tab !in strains[i]
    ensures var parts := HeaderColumns(hasMb) + strains;
      forall i :: 0 <= i < |parts| ==> Tab !in parts[i]
  {
    var cols := HeaderColumns(hasMb);
    var parts := cols + strains;
    ColumnsTabFree(hasMb);
    forall i | 0 <= i < |parts|
      ensures Tab !in parts[i]
    {
      if i < |cols| {
        assert parts[i] == cols[i];
      } else {
        assert parts[i] == strains[i - |cols|];
      }
    }
  }

  lemma ColumnsTabFree(hasMb: bool)
    ensures forall i :: 0 <= i < |HeaderColumns(hasMb)| ==> Tab !in HeaderColumns(hasMb)[i]
  {
    var cols := HeaderColumns(hasMb);
    assert cols[0] == ['C', 'h', 'r'] && cols[1] == ['L', 'o', 'c', 'u', 's'] && cols[2] == ['c', 'M'];
    assert hasMb ==> cols[3] == ['M', 'b'];
  }

  /** The header line of src/geneobject.rs:566-568 names four strains and has no Mb column. */
  lemma HeaderExample()
    ensures ParseDatasetHeader("Chr\tLocus\tcM\tBXD1\tBXD2\tBXD5\tBXD6")
         == Ok((false, ["BXD1", "BXD2", "BXD5", "BXD6"]))
  {
    // Only the round trip and the joined line are needed, not the parser.
    hide ParseDatasetHeader, Join, SplitTerminator;
    HeaderRoundTrip(false, ["BXD1", "BXD2", "BXD5", "BXD6"]);
    ExampleHeaderLine();
  }

  /** The example's columns joined with tabs give the header line of the test. */
  lemma ExampleHeaderLine()
    ensures Join(HeaderColumns(false) + ["BXD1", "BXD2", "BXD5", "BXD6"], Tab)
         == "Chr\tLocus\tcM\tBXD1\tBXD2\tBXD5\tBXD6"
  {
    assert HeaderColumns(false) + ["BXD1", "BXD2", "BXD5", "BXD6"] == ["Chr", "Locus", "cM", "BXD1", "BXD2", "BXD5", "BXD6"];
    JoinSeven("Chr", "Locus", "cM", "BXD1", "BXD2", "BXD5", "BXD6");
    ExampleHeaderChars();
  }

  /** The header line of the test, spelled out piece by piece. */
  lemma ExampleHeaderChars()
    ensures "Chr" + [Tab] + "Locus" + [Tab] + "cM" + [Tab] + "BXD1" + [Tab] + "BXD2" + [Tab] + "BXD5" + [Tab] + "BXD6"
         == "Chr\tLocus\tcM\tBXD1\tBXD2\tBXD5\tBXD6"
  {
  }

  // ---------------------------------------------------------------------
  // Strain lookup

  /** `strain_indices`: the position of each requested strain's first
      occurrence; a strain the dataset does not have is an error. */
  function StrainIndices(all: seq<string>, names: seq<string>): (r: Result<seq<nat>, Error>)
    ensures r.Ok? <==> forall i :: 0 <= i < |names| ==> names[i] in all
    ensures r.Ok? ==> |r.value| == |names|
    ensures r.Ok? ==> forall i :: 0 <= i < |names| ==>
      r.value[i] < |all| && all[r.value[i]] == names[i] && names[i] !in all[..r.value[i]]
    ensures r.Err? ==> exists i :: 0 <= i < |names| && names[i] !in all && r.error == UnknownStrain(names[i])
    decreases |names|
  {
    if |names| == 0 then Ok([])
    else if names[0] !in all then Err(UnknownStrain(names[0]))
    else
      var rest :- StrainIndices(all, names[1..]);
      Ok([FirstIndex(all, names[0])] + rest)
  }

  /** `Locus::genotypes_subset`: the slots of the selected strains, in selection order. */
  function GenotypesSubset(l: Locus, ixs: seq<nat>): (r: seq<Slot>)
    requires forall i :: 0 <= i < |ixs| ==> ixs[i] < |l.genotype|
    ensures |r| == |ixs| && forall i :: 0 <= i < |ixs| ==> r[i] == l.genotype[ixs[i]]
  {
    seq(|ixs|, i requires 0 <= i < |ixs| => l.genotype[ixs[i]])
  }

  /** Selecting by the indices of named strains gives, for each name in
      turn, the slot of the first strain of the dataset with that name. */
  lemma SubsetOfNamedStrains(all: seq<string>, names: seq<string>, l: Locus)
    requires |l.genotype| == |all|
    requires forall i :: 0 <= i < |names| ==> names[i] in all
    ensures var ixs := StrainIndices(all, names).value;
      && (forall i :: 0 <= i < |ixs| ==> ixs[i] < |l.genotype|)
      && var sub := GenotypesSubset(l, ixs);
         && |sub| == |names|
         && forall i :: 0 <= i < |names| ==>
              exists j :: 0 <= j < |all| && all[j] == names[i] && names[i] !in all[..j] && sub[i] == l.genotype[j]
  {
    var ixs := StrainIndices(all, names).value;
    var sub := GenotypesSubset(l, ixs);
    forall i | 0 <= i < |names|
      ensures exists j :: 0 <= j < |all| && all[j] == names[i] && names[i] !in all[..j] && sub[i] == l.genotype[j]
    {
      var j := ixs[i];
      assert all[j] == names[i] && names[i] !in all[..j] && sub[i] == l.genotype[j];
    }
  }

  // ---------------------------------------------------------------------
  // Dataset-wide imputation

  /** Every chromosome is rectangular with dominance vectors as wide as its rows. */
  predicate ChromosomesShaped(g: Genome) {
    forall c :: c in g.chromosomes && |g.chromosomes[c]| > 0 ==> Shaped(g.chromosomes[c])
  }

  predicate HasEmptyChromosome(g: Genome) {
    exists c :: c in g.chromosomes && g.chromosomes[c] == []
  }

  /** `Dataset::estimate_unknown`: every chromosome imputed on its own; a
      chromosome without loci has no first locus and is an error. */
  function EstimateUnknown(d: Dataset, tm: TermsOf): (r: Result<Dataset, Error>)
    requires ChromosomesShaped(d.genome)
    ensures r.Err? <==> HasEmptyChromosome(d.genome)
    ensures r.Err? ==> r.error == EmptyChromosome
    ensures r.Ok? ==>
      && r.value == d.(genome := r.value.genome)
      && r.value.genome.chrOrder == d.genome.chrOrder
      && r.value.genome.chromosomes.Keys == d.genome.chromosomes.Keys
  {
    if HasEmptyChromosome(d.genome) then Err(EmptyChromosome)
    else Ok(d.(genome := d.genome.(chromosomes := ImputeAll(d.genome.chromosomes, d.dominance, tm))))
  }

  /** Imputes every chromosome of a map, none of them empty. */
  function ImputeAll(m: map<string, seq<Locus>>, dom: bool, tm: TermsOf): (r: map<string, seq<Locus>>)
    requires forall c :: c in m ==> |m[c]| > 0 && Shaped(m[c])
    ensures r.Keys == m.Keys
  {
    map c | c in m :: ImputeChromosome(m[c], dom, tm).value
  }

  /** A map of chromosomes that are each a fixed point is a fixed point. */
  lemma ImputeAllStable(m: map<string, seq<Locus>>, dom: bool, tm: TermsOf)
    requires forall c :: c in m ==> |m[c]| > 0 && Shaped(m[c]) && ImputeChromosome(m[c], dom, tm) == Ok(m[c])
    ensures ImputeAll(m, dom, tm) == m
  {
    // Each chromosome's fixed point is given; imputation need not be unfolded.
    hide ImputeChromosome;
    var r := ImputeAll(m, dom, tm);
    forall c | c in m
      ensures r[c] == m[c]
    {
    }
  }

  /** Each chromosome of the result is its imputed self: known after the
      boundary fix at both ends, the same frame, and the reference estimate
      in every unknown cell. */
  lemma EstimateUnknownSpec(d: Dataset, tm: TermsOf, c: string)
    requires ChromosomesShaped(d.genome) && !HasEmptyChromosome(d.genome) && c in d.genome.chromosomes
    ensures var loci := d.genome.chromosomes[c];
      var r := EstimateUnknown(d, tm).value.genome.chromosomes[c];
      var f := FixEnds(loci).value;
      && |loci| > 0 && Shaped(f) && SameFrame(f, r)
      && (forall s :: 0 <= s < Width(f) ==> EndsKnown(f, s))
      && ImputedCells(f, r, d.dominance, tm)
  {
    ImputeChromosomeSpec(d.genome.chromosomes[c], d.dominance, tm);
  }

  /** Imputing a dataset twice is imputing it once. */
  lemma EstimateUnknownIdempotent(d: Dataset, tm: TermsOf)
    requires ChromosomesShaped(d.genome) && !HasEmptyChromosome(d.genome)
    ensures var e := EstimateUnknown(d, tm).value;
      ChromosomesShaped(e.genome) && EstimateUnknown(e, tm) == Ok(e)
  {
    var e := EstimateUnknown(d, tm).value;
    var m := e.genome.chromosomes;
    forall c | c in m
      ensures |m[c]| > 0 && Shaped(m[c]) && ImputeChromosome(m[c], e.dominance, tm) == Ok(m[c])
    {
      ChromosomeStable(d, tm, c);
    }
    ImputeAllStable(m, e.dominance, tm);
  }

  /** One chromosome of an imputed dataset is non-empty, shaped, and a fixed
      point of imputation. */
  lemma ChromosomeStable(d: Dataset, tm: TermsOf, c: string)
    requires ChromosomesShaped(d.genome) && !HasEmptyChromosome(d.genome) && c in d.genome.chromosomes
    ensures var e := EstimateUnknown(d, tm).value.genome.chromosomes;
      c in e && |e[c]| > 0 && Shaped(e[c]) && ImputeChromosome(e[c], d.dominance, tm) == Ok(e[c])
  {
    var loci := d.genome.chromosomes[c];
    assert |loci| > 0;
    ImputeChromosomeIdempotent(loci, d.dominance, tm);
  }

  /** A genome built by pushing loci has no empty chromosome, so imputing
      the dataset that holds it cannot fail. */
  lemma BuiltGenomeImputes(d: Dataset, pairs: seq<(string, Locus)>, tm: TermsOf)
    requires d.genome == Build(pairs) && ChromosomesShaped(d.genome)
    ensures EstimateUnknown(d, tm).Ok?
  {
    BuildValid(pairs);
  }
}
