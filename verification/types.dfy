/** The data model shared by every component: genotypes, markers, loci and errors. */
module Types {
  import opened Wrappers

  /** The four genotype symbols of a cross. */
  datatype Genotype = Mat | Pat | Het | Unk

  /** One strain's entry at a locus: the symbol read from the file and the
      numeric value the regression uses (the dosage). */
  datatype Slot = Slot(tag: Genotype, dosage: real)

  /** A genetic marker; `centiMorgan` is its map position. */
  datatype Marker = Marker(name: string, centiMorgan: real, megaBasepair: Option<real>, chromosome: string)

  /** A marker together with one genotype slot per strain (strain order) and,
      for intercross data, one dominance coefficient per strain. */
  datatype Locus = Locus(dominance: Option<seq<real>>, genotype: seq<Slot>, marker: Marker)

  /** The conditions under which the original program panics. */
  datatype Error =
    | MissingColon                 // a `@` metadata line without `:`
    | MissingMetadata              // one of name, mat, pat, type never given
    | UnknownSymbol(symbol: string) // a genotype symbol none of the four metadata symbols match
    | HeaderTooShort               // a dataset header with fewer than four columns
    | UnknownStrain(strain: string) // a strain name absent from the dataset
    | EmptyChromosome              // a chromosome without loci reached imputation
    | FlankUnknown                 // a missing run whose flanking genotype is itself unknown
    | ControlNotFound              // the control marker is not in the genome
    | CompositeIntercross          // control-marker regression requested on an intercross
    | NoLoci                       // the bootstrap tally was asked of a genome without loci
    | TraitsOutnumberStrains       // a kernel read a genotype past the selected strains

  /** The spec'd numeric encoding of a genotype (99 is the "not yet estimated" sentinel). */
  function Encoding(g: Genotype): real {
    match g
    case Mat => -1.0
    case Pat => 1.0
    case Het => 0.0
    case Unk => 99.0
  }

  /** The dominance coding of a genotype: homozygotes 0, heterozygote (and unknown) 1. */
  function DominanceCode(g: Genotype): real {
    match g
    case Mat => 0.0
    case Pat => 0.0
    case Het => 1.0
    case Unk => 1.0
  }

  /** The dosages of a sequence of slots, in order. */
  function Dosages(slots: seq<Slot>): (r: seq<real>)
    ensures |r| == |slots|
    ensures forall i :: 0 <= i < |slots| ==> r[i] == slots[i].dosage
  {
    seq(|slots|, i requires 0 <= i < |slots| => slots[i].dosage)
  }
}
