# rust-qtlreaper core, modelled in Dafny

rust-qtlreaper maps quantitative trait loci (QTL). A genotype file gives one
row per marker locus and one column per strain. It starts with `@key:value`
metadata lines and a `Chr	Locus	cM	[Mb]	strain…` header. The program
parses that file and estimates the genotypes recorded as unknown from their
flanking loci. It then regresses a trait vector on every locus, and uses
permutation and bootstrap resampling to judge the strongest association.

This project models the program's discrete bookkeeping and its real-valued
lookup logic:

* **Parsing.** Metadata lines, the genotype-symbol encodings and the dataset
  header. Modules `Meta`, `Datasets` and `Text`.
* **Genome.** The insertion-ordered genome store: a map from chromosome to
  loci, plus a first-seen order list. Module `GenomeStore`.
* **Imputation of unknown genotypes.**
  * Boundary fix-up and detection of unknown runs: modules `Imputation` and
    `Intervals`.
  * The flank-keyed 3×3 dosage and dominance tables: module `DosageTables`.
* **Regression dispatch.** The choice of two- or three-parameter kernel and
  the clamp of rejected LRS values. Module `Regression`.
* **Resampling.** p-value, shuffle, bootstrap draws, the permutation test's
  trial bookkeeping and the bootstrap's vote counting. Modules `Resampling`
  and `Sorting`.

Real numbers stand for `f64`. Every source panic that the model covers is an
`Err` of `Types.Error`:

| panic in the source | `Err` in the model |
|---|---|
| a metadata line without a colon | `MissingColon` |
| a missing required metadata field | `MissingMetadata` |
| an unknown genotype symbol | `UnknownSymbol` |
| a header with fewer than four columns | `HeaderTooShort` |
| a strain name that is not in the dataset | `UnknownStrain` |
| a chromosome without loci | `EmptyChromosome` |
| an unknown flanking genotype | `FlankUnknown` |
| a control marker that is not found | `ControlNotFound` |
| composite regression on an intercross | `CompositeIntercross` |
| a bootstrap on a dataset without loci | `NoLoci` |
| a kernel reading `genotypes[ix]` for a trait index past the selected strains, in `regression` and `permutation` | `TraitsOutnumberStrains` |

The regression kernels, the Haldane map function, random draws and the
HashMap iteration order are parameters.

## Model

| member | source | states |
|---|---|---|
| Meta.ParseLine | src/geneobject.rs:47-61 | A `#` line, even `#@type:…`, and any line not starting with `@` carry no field. An `@` line fails exactly when it has no colon. A field's key holds no colon, so the split is at the first colon. |
| Meta.ParseLineRebuilds | src/geneobject.rs:52-58 | A parsed field rebuilds its line as `@` key `:` value, so nothing is lost or reordered. |
| Meta.ParseLineOfField | src/geneobject.rs:52-58 | Any colon-free key with any value, even one that holds colons, parses back from `@key:value` (the inverse of ParseLineRebuilds). |
| Meta.FieldLine | src/geneobject.rs:52-58 | A line laid out as `@`, a colon-free key, `:` and a value parses to that key and value. |
| Meta.CommentLine | src/geneobject.rs:48-50 | Every line starting with `#` carries no field, whatever follows. |
| Meta.ParseLineExamples | src/geneobject.rs:594-596 | The test lines `#@type:intercross` and the parental-abbreviation comment give no field; `@name:BXD` gives (name, BXD). |
| Meta.ParseLineMatExample | src/geneobject.rs:597 | `@mat:B6` gives (mat, B6). |
| Meta.Absorb | src/geneobject.rs:76-84 | A recognised key overwrites only its own entry; an unrecognised key changes nothing. |
| Meta.CollectOkIff | src/geneobject.rs:74-86 | Collecting the lines fails exactly when some line is a malformed `@` line. |
| Meta.CollectField | src/geneobject.rs:74-86 | Each collected field is the value of the last line that sets it, or absent when no line sets it. |
| Meta.CollectSnoc | src/geneobject.rs:74-86 | Appending one line folds exactly that line into the fields collected so far. |
| Meta.FromLinesErrors | src/geneobject.rs:88-93 | When every line parses, metadata fails exactly when name, mat, pat or type is never set. |
| Meta.FromLines | src/geneobject.rs:64-103 | `from_lines` fails only with a missing colon or a missing required field, and succeeds only when every line parses; which error and which values are FromLinesErrors and FromLinesValues. |
| Meta.FromLinesValues | src/geneobject.rs:64-103 | Each metadata field is its last setting. `het` defaults to "H" and `unk` to "U" when never set. |
| Meta.FromLinesOfFields | src/geneobject.rs:64-103 | A comment followed by the six `@` lines yields exactly those six values. |
| Meta.FromLinesOfLayout | src/geneobject.rs:64-103 | In the layout of the test (two comments, `type`, `name`, a comment, `mat`, `pat`, a comment, `het`, a comment, `unk`, a column header), the comment and header lines carry nothing: the result is the six field values. |
| Meta.FromLinesExample | src/geneobject.rs:601-627 | All twelve lines of the test, including the four interleaved comments and the trailing `Chr\tLocus\tcM\tBXD1…BXD42` header, give name BXD, mat B6, pat D, type riset, het H and unk U. |
| Meta.ParseGenotype | src/geneobject.rs:19-31 | A symbol is accepted exactly when it is one of the four. The result is the first match in the order mat, pat, het, unk, with dosage -1, 1, 0 or 99. Any other symbol is an error naming it. |
| Meta.ParseDominance | src/geneobject.rs:33-45 | It accepts the same symbols as ParseGenotype. mat and pat code 0; het and unk code 1. |
| Meta.ParseSymbolRoundTrip | src/geneobject.rs:19-45 | When the four symbols are distinct, each genotype's own symbol parses back to that genotype and its codes. |
| Text.SplitTerminatorJoin | src/geneobject.rs:402 | Splitting tab-joined, tab-free columns with a non-empty last column recovers the columns. |
| Datasets.ParseDatasetHeader | src/geneobject.rs:401-418 | It fails exactly when the header has fewer than four tab-separated words. The Mb flag is "fourth word is Mb". The strains are the words after the first three, or after four with Mb. |
| Datasets.HeaderRoundTrip | src/geneobject.rs:401-418 | A header written from a tab-free strain list, with or without Mb, parses back to that flag and list. |
| Datasets.ParseWords | src/geneobject.rs:402-417 | A line whose words are the fixed columns plus strains parses to exactly those strains. |
| Datasets.HeaderExample | src/geneobject.rs:566-577 | The test's literal header `"Chr\tLocus\tcM\tBXD1\tBXD2\tBXD5\tBXD6"` parses to no Mb column and strains BXD1, BXD2, BXD5, BXD6. |
| Datasets.New | src/geneobject.rs:371-380 | The dataset is an intercross (dominance on) exactly when its type is `intercross`. The genome starts empty. |
| Datasets.StrainIndices | src/geneobject.rs:386-391 | It succeeds exactly when every requested name is a dataset strain. Each index is that name's first position. An unknown name is the error. |
| Datasets.GenotypesSubset | src/geneobject.rs:291-293 | A plain projection: its contract is the element-wise reading of the selection, not a further property; SubsetOfNamedStrains states what the selection means. |
| Datasets.SubsetOfNamedStrains | src/geneobject.rs:291-293 | For known names, the subset's i-th entry is the genotype of the first strain named `names[i]`. |
| Datasets.EstimateUnknown | src/geneobject.rs:463-495 | It fails exactly when some chromosome has no loci. Otherwise only the loci change; the order list and chromosome set are kept. |
| Datasets.ImputeAll | src/geneobject.rs:486-494 | Imputing every chromosome keeps the set of chromosomes. |
| Datasets.ImputeAllStable | src/geneobject.rs:486-494 | When each chromosome is already a fixed point of imputation, imputing all of them changes nothing. |
| Datasets.EstimateUnknownSpec | src/geneobject.rs:463-495 | Per chromosome, after the boundary fix, every unknown cell holds its estimate from the flank tables as written. Every known cell, every tag and every marker stays as it was. |
| Datasets.ChromosomeStable | src/geneobject.rs:463-495 | Each chromosome of an estimated dataset is a fixed point of per-chromosome imputation. |
| Datasets.EstimateUnknownIdempotent | src/geneobject.rs:463-495 | Estimating twice gives the same dataset as estimating once. |
| Datasets.BuiltGenomeImputes | src/geneobject.rs:452-457 | A genome built by pushing loci has no empty chromosome, so estimation after reading cannot fail. |
| GenomeStore.Empty | src/geneobject.rs:320-325 | A new genome has an empty order list and an empty map. |
| GenomeStore.OrPushChromosome | src/geneobject.rs:327-333 | It appends the name only when absent and creates an empty list only for a new key. It keeps every other list and the order-list/map agreement. |
| GenomeStore.PushLocus | src/geneobject.rs:335-337 | The locus is appended to its own chromosome's list only. Every other list is unchanged and the agreement is kept. |
| GenomeStore.BuildValid | src/geneobject.rs:327-337 | After any sequence of pushes, the order list has no duplicates and names exactly the map's keys (the pushed chromosomes). No list is empty. |
| GenomeStore.Build | src/geneobject.rs:453-456 | The push loop of `read_file` always yields a valid genome (no duplicate in the order list, which names exactly the map's keys) keyed by exactly the chromosomes pushed. |
| GenomeStore.BuildContents | src/geneobject.rs:335-337 | Each chromosome's list is the loci pushed for it, in push order. |
| GenomeStore.BuildOrder | src/geneobject.rs:327-331 | The order list lists chromosomes in first-seen order. |
| GenomeStore.FirstSeenStep | src/geneobject.rs:328-330 | Appending a name only when unseen keeps the order first-seen. |
| GenomeStore.IterValid | src/geneobject.rs:339-345 | Iteration yields one list per order-list entry, in order-list order. |
| GenomeStore.Iter | src/geneobject.rs:306-345 | For a valid genome, `iter` yields exactly one list per order-list entry, the i-th being the chromosome the i-th entry names. |
| GenomeStore.FindLocus | src/regression.rs:52-58 | The control marker is found exactly when some locus carries its name. The found locus carries that name and belongs to the genome. |
| GenomeStore.NLociOrderFree | src/geneobject.rs:393-399 | The number of loci does not depend on the order in which the map is walked. |
| GenomeStore.NLoci | src/geneobject.rs:393-399 | `n_loci` equals the number of loci the chromosome-by-chromosome walk visits. |
| Intervals.InitState | src/geneobject.rs:206-207 | The fold starts with no open run and no closed range for each strain. |
| Intervals.Scan | src/geneobject.rs:205-213 | The fold state after any number of loci keeps one open slot and one list of closed ranges per strain; the contents per strain are ScanProjects and ScanColInv. |
| Intervals.StepMany | src/geneobject.rs:184-203 | Each strain steps independently. An unknown opens a run or keeps it open; a known genotype closes an open run as [start, ix). |
| Intervals.FindUnknownIntervals | src/geneobject.rs:205-214 | It fails exactly when there are no loci. Otherwise it gives one range list per strain of the first locus. |
| Intervals.ScanProjects | src/geneobject.rs:190-211 | The many-strain fold is, strain by strain, the one-strain fold over that strain's column. |
| Intervals.StepKeepsInv | src/geneobject.rs:191-200 | One step keeps the meaning of the fold state: closed runs are exactly the maximal unknown runs seen so far, and an open run ends at the last index. |
| Intervals.ScanColInv | src/geneobject.rs:209-211 | After k loci the state has exactly that meaning. |
| Intervals.FindUnknownIntervalsSpec | src/geneobject.rs:205-214 | Each emitted range is non-empty and all-unknown, with a known end and (start = 0 or a known start-1). Every such run is emitted. Ranges increase and are disjoint. A run still open at the end is not emitted. |
| Intervals.UnknownLiesInRun | src/geneobject.rs:221-226 | When both ends are known, every unknown lies in a closed run bounded by its nearest known neighbours. |
| Intervals.RunFlanksAreNearest | src/geneobject.rs:224-225 | For a cell of a run, `range.start-1` and `range.end` are its nearest known loci on either side. |
| Intervals.WorkedExampleColumns | src/geneobject.rs:631-672 | The test's three strain columns scan to [1..4], [2..4] and [1..2, 3..5]. |
| Intervals.WorkedExample | src/geneobject.rs:631-672 | The test's six loci give [[1..4], [2..4], [1..2, 3..5]]. |
| DosageTables.ConditionalTermsAreDistributions | src/geneobject.rs:236-239 | Without interference, r0 + r3 = 1 and r1 + r2 = 1, and all four terms lie in [0, 1]. |
| DosageTables.DosageTable | src/geneobject.rs:246-257 | An estimate exists exactly when neither flank is unknown; an unknown flank panics in the source. |
| DosageTables.DosageAntisymmetric | src/geneobject.rs:246-257 | Swapping Mat and Pat on both flanks negates the dosage estimate; (Het, Het) is 0. |
| DosageTables.DosageBounded | src/geneobject.rs:246-257 | When r0..r3 are probabilities, every dosage estimate lies in [-1, 1]. |
| DosageTables.DominanceTableAsWritten | src/geneobject.rs:260-274 | The dominance table as written: defined exactly when neither flank is unknown. |
| DosageTables.DominanceAsWrittenAsymmetric | src/geneobject.rs:261-272 | With f1 = f2 = 0.1 and f0 = 0.18, the written (Pat, Pat) cell differs from (Mat, Mat). |
| DosageTables.DominanceTable | src/geneobject.rs:260-274 | The corrected table agrees with the written one on every cell except (Pat, Pat). |
| DosageTables.DominanceSymmetric | src/geneobject.rs:260-274 | Swapping Mat and Pat on both flanks leaves the corrected dominance estimate unchanged; e.g. (Pat, Mat) = (Mat, Pat) and (Het, Mat) = (Het, Pat). |
| Imputation.FixSlot | src/geneobject.rs:466-471 | An unknown entry becomes known; a known entry is untouched. |
| Imputation.FixLocus | src/geneobject.rs:474-480 | Every entry of the locus is fixed; marker and dominance are untouched. |
| Imputation.FixEnds | src/geneobject.rs:473-484 | It fails exactly on a chromosome without loci. Otherwise it fixes the first and last locus and leaves every interior locus unchanged. |
| Imputation.FixEndsSpec | src/geneobject.rs:463-484 | In the first and last locus each unknown becomes (Het, 0.0) and every other entry is unchanged, so no run starts at index 0 or stays open at the end. |
| Imputation.CellEstimate | src/geneobject.rs:224-274 | The estimate for a cell fails exactly when the strain's genotype at `range.start-1` or `range.end` is unknown |
| Imputation.EstimateReadsFrame | src/geneobject.rs:224-242 | An estimate reads only markers and tags, never earlier estimates: chromosomes with the same frame give the same estimate. |
| Imputation.WriteCellSpec | src/geneobject.rs:276-281 | Writing a cell changes only that strain's numeric slot at that locus, and keeps the tag. Dominance is written only when the flag is set and the vector exists. |
| Imputation.WriteCell | src/geneobject.rs:270-281 | Writing one cell keeps the marker, every tag and the widths, changes strain s's dosage to the estimate and no other dosage, and changes only entry s of an existing dominance vector, and only when the flag is set. |
| Imputation.FillRange | src/geneobject.rs:223-282 | Filling one range fails exactly when the range is non-empty and a flank is unknown. On success the frame is kept. |
| Imputation.FillStrain | src/geneobject.rs:222-283 | Filling one strain fails exactly when some non-empty range has an unknown flank. On success the frame is kept. |
| Imputation.FillStrains | src/geneobject.rs:221-284 | Filling all strains fails exactly when some strain's non-empty range has an unknown flank. On success the frame is kept. |
| Imputation.EstimateUnknownGenotypes | src/geneobject.rs:216-285 | It fails (with FlankUnknown) exactly when some non-empty range has an unknown flank. Otherwise markers, tags and shape are kept. |
| Imputation.ErrorIsFlankUnknown | src/geneobject.rs:256 | Any failure of filling the strains is the unknown-flank error. |
| Imputation.RunEstimateIsTarget | src/geneobject.rs:224-257 | Inside a maximal run, the estimate is the reference estimate from the nearest known flanks. |
| Imputation.FillRangeCells | src/geneobject.rs:223-282 | Filling a range writes, from index k on, the estimate for each of its cells, and nothing else. |
| Imputation.FillStrainCells | src/geneobject.rs:222-283 | Filling a strain writes the reference estimate into exactly its unknown cells covered by a range. |
| Imputation.FillStrainsCell | src/geneobject.rs:221-284 | After all strains, each cell holds the reference estimate if unknown and covered, else its old value. |
| Imputation.CoveredIffUnknown | src/geneobject.rs:205-214 | With known ends, a cell lies in a detected range exactly when it is unknown. |
| Imputation.FixedIntervalsFit | src/geneobject.rs:486-494 | After the fix-up, every detected range has two in-bounds flanks, so the source's `loci[range.start - 1]` and `loci[range.end]` are valid. |
| Imputation.ImputeChromosome | src/geneobject.rs:486-494 | It fails exactly on an empty chromosome. Otherwise it keeps the frame of the fixed chromosome. |
| Imputation.ImputeChromosomeSpec | src/geneobject.rs:463-494 | After the fix-up, every unknown cell holds its flank estimate from the tables as written (dominance only when the flag is set and the vector exists). Every known cell is unchanged. |
| Imputation.FrameAndCellsDetermine | src/geneobject.rs:276-281 | Two chromosomes with the same frame and the same cell values are equal: imputation touches nothing else. |
| Imputation.FixEndsOfImputed | src/geneobject.rs:473-484 | The fix-up does nothing to an imputed chromosome. |
| Imputation.ImputeChromosomeIdempotent | src/geneobject.rs:463-494 | Imputing an imputed chromosome changes nothing. |
| Imputation.ImputedDosagesBounded | src/geneobject.rs:463-494 | Assume the terms are probabilities at every triple of loci p < i < n of the chromosome, the only places imputation evaluates them, and that known dosages carry their encoding. Then no dosage is left outside [-1, 1]: no 99 survives. |
| Imputation.TargetDosageBounded | src/geneobject.rs:220-257 | One unknown cell's estimate lies in [-1, 1] when the terms at its flank triple are probabilities. The fix-up keeps the markers, so that triple is the input's. |
| Sorting.Sort | src/regression.rs:30 | The sorted copy is ascending and a permutation of its input. |
| Sorting.SortedUnique | src/regression.rs:137 | Two ascending permutations of the same values are equal, so the sort used does not matter. |
| Sorting.TakeWhileCounts | src/regression.rs:32 | On a sorted sequence, the take-while prefix length is the count of values at most x. |
| Sorting.CountLeSort | src/regression.rs:29-32 | Sorting a copy does not change the count of values at most x. |
| Sorting.CountLeMonotone | src/regression.rs:32 | A larger threshold counts at least as many values. |
| Resampling.PValue | src/regression.rs:28-37 | The result lies in [0, 1]. For a non-empty list it is 1 minus the share of values at most the LRS; for an empty list (0/0, clamped) it is 0. |
| Resampling.PValueMonotone | src/regression.rs:28-37 | The p-value does not increase as the LRS grows. |
| Resampling.PValueBelowAll | src/regression.rs:32-36 | An LRS below every permutation maximum has p-value 1. |
| Resampling.PValueAboveAll | src/regression.rs:32-36 | An LRS at or above every maximum has p-value 0. |
| Resampling.SwapAt | src/regression.rs:19 | A swap exchanges two positions, keeps the rest, and is a permutation. |
| Resampling.PermutedMut | src/regression.rs:15-21 | For any swap targets, the shuffle returns a permutation of its input: same length, same multiset. |
| Resampling.Shuffled | src/regression.rs:15-21 | The functional form of `permuted_mut` for given draws returns a rearrangement of its input: same length, same multiset. |
| Resampling.BootstrapIndices | src/regression.rs:23-26 | It returns exactly n indices, each below n. |
| Resampling.BootstrapIndicesCover | src/regression.rs:23-26 | Every sequence of in-range indices is some draw's outcome, so no index vector is excluded. |
| Resampling.Pick | src/regression.rs:166-167 | A plain projection: its contract is the element-wise reading of resampling by indices, not a further property. |
| Resampling.Workers | src/regression.rs:107 | The thread count is at least one, and a positive count is kept. |
| Resampling.LociMax | src/regression.rs:119-128 | The per-trial maximum is at least 0 and at least every locus's LRS, and it is either 0 or some locus's LRS. |
| Resampling.TraitsAt | src/regression.rs:116-131 | The traits a worker uses in any round are a permutation of the input traits. |
| Resampling.WorkerMaxima | src/regression.rs:114-134 | Each worker emits one non-negative maximum per round. |
| Resampling.AllMaxima | src/regression.rs:113-135 | All workers together emit workers × rounds non-negative values. |
| Resampling.Permutation | src/regression.rs:100-139 | It fails exactly on an unknown strain, or when there are more traits than strains, at least one round and at least one locus; the first kernel call then reads past the genotypes (src/regression.rs:215-217). Otherwise it returns threads × (n_perms / threads) values with threads at least 1, sorted ascending and all non-negative. |
| Resampling.PermutationContents | src/regression.rs:135-138 | With every strain known and no more traits than strains it succeeds, and any output is a rearrangement of the workers' maxima. |
| Resampling.PermutationCount | src/regression.rs:107-118 | The number of trials is at most n_perms, and equal exactly when threads divides n_perms. |
| Resampling.NTest | src/regression.rs:152 | The bootstrap trial count is n_boot clamped to [1000, 1000000]. |
| Resampling.FirstArgMax | src/regression.rs:169-195 | The vote goes to 0 when no LRS exceeds 0. Otherwise it goes to the first locus whose LRS is positive and strictly greatest of all earlier ones and no smaller than any. |
| Resampling.FirstArgMaxUnique | src/regression.rs:188-191 | The first strict maximum is the only position satisfying that description. |
| Resampling.Tally | src/regression.rs:154-196 | Counting votes gives one count per locus; the counts sum to the number of votes and each counts its locus's votes. |
| Resampling.TrialLrs | src/regression.rs:173-187 | One bootstrap trial gives one non-negative LRS per locus. |
| Resampling.Vote | src/regression.rs:164-196 | Each trial votes for an existing locus. |
| Resampling.Bootstrap | src/regression.rs:141-200 | Errors come in the source's order: unknown strain, then missing control, then no loci. A result has one count per locus, and the counts sum to the clamped trial count. |
| Resampling.BootstrapCounts | src/regression.rs:164-199 | Locus j's count is the number of trials whose first strict LRS maximum is j. |
| Regression.Clamp2 | src/regression.rs:237-248 | A NaN or negative LRS resets LRS and additive to 0; any other LRS is passed through. There is never a dominance value. |
| Regression.Clamp3 | src/regression.rs:366-378 | A NaN or negative LRS resets LRS, additive and betac to 0; dominance is always Some(betac). |
| Regression.ClampsIdempotent | src/regression.rs:237-248 | A clamped result passes through the clamp unchanged; the two-parameter result is all zeros or the kernel's LRS. |
| Regression.Regression2n | src/regression.rs:204-249 | For any kernel, the reported LRS is non-negative and equals the kernel's when not rejected; no dominance. |
| Regression.Regression3n | src/regression.rs:301-379 | For any kernel, the reported LRS is non-negative and equals the kernel's when not rejected; dominance is present. |
| Regression.DominanceSubset | src/regression.rs:71 | A plain projection: its contract is the element-wise reading of the selection of dominance values, not a further property. |
| Regression.Column | src/regression.rs:66 | A plain projection: its contract is the element-wise reading of the selection of dosages, not a further property. |
| Regression.LocusRegression | src/regression.rs:68-86 | One locus fails exactly when a control is given on an intercross, or when there are more traits than selected strains (the kernels' index panic at src/regression.rs:217 and 320-322); the intercross error comes first. A dominance value is reported exactly when the 3-parameter kernel runs. |
| Regression.RegressLoci | src/regression.rs:64-95 | It fails exactly when there is at least one locus and either a control on an intercross or more traits than selected strains. Otherwise it gives one QTL per locus, in order, carrying that locus's marker and regression. |
| Regression.ControlColumn | src/regression.rs:52-62 | A control fails exactly when no locus carries its name. A found control gives that locus's dosages at the selected strains. |
| Regression.Regress | src/regression.rs:41-98 | An unknown strain is an error, and so (after that) is a missing control. With both resolved, at least one locus and no control on an intercross, more traits than strains is TraitsOutnumberStrains. No other error occurs. On success there is one non-negative QTL per locus, with that locus's marker, in walk order. |
| Regression.RegressPolicy | src/regression.rs:64-97 | With no more traits than strains: no control and no dominance gives the 2n kernel. No control with dominance gives 3n on the locus's dominance with diff false. A control without dominance gives 3n on the control with diff true. A control with dominance is an error, and otherwise so is a trait vector longer than the strain list. |
| Regression.AllLociFit | src/regression.rs:64-65 | Every locus in the walk has one genotype (and dominance value) per strain. |
| GenomeStore.AllLoci | src/regression.rs:64-65 | The walk over all chromosomes yields as many loci as the per-chromosome lengths sum to. |

## Left out

- File reading and the command line: `Dataset::read_file`, `Locus::parse_line`, `Traits::read_file` and `src/main.rs`. These are I/O and argument handling. Datasets.BuiltGenomeImputes stands for the push-then-estimate sequence of `read_file`.
- The least-squares algebra and `ln` of `regression_2n` and `regression_3n` are not modelled. The kernels are function parameters of type `Regression.Kernels`, constrained only through the clamp.
- `regression_2n_variance` is not called by any modelled operation. The commented-out matrix version of `regression_3n` is not code.
- The Haldane step `(1 - exp(-2d))/2` and the formulas for r0..r3 and w are not computed by the model. The conditional terms are a function parameter of the three Morgan distances; the distances themselves are computed as in the source. DosageTables.ConditionalTerms states the r0..r3 formulas separately for the distribution lemma.
- The floating-point test of `estimate_unknown_genotypes` (src/geneobject.rs:675-795) compares rounded `f64` values. Its frame (tags stay `Unk`, only numeric slots change) is covered by Imputation.WriteCellSpec; its numbers are not.
- Randomness: `thread_rng().gen_range(0, n)` is a draw parameter reduced `% n`. Uniformity is not modelled.
- Parallelism: rayon's workers are concatenated in worker order. The output is sorted either way, so the order is irrelevant.
- HashMap iteration order: the walks in `estimate_unknown`, `regression`, `permutation`, `bootstrap` and `n_loci` take an arbitrary enumeration `visit` of the keys. Nothing order-dependent is claimed beyond "in walk order".
- `Genome::find_locus`, `Locus::dominance_subset` and `Locus::genotypes_subindices` are not part of this model's sources. They are modelled as GenomeStore.FindLocus (the first locus with the marker name in order-list order), Regression.DominanceSubset and Regression.Column (the selected dosages).
- The source passes `Vec<(Genotype, f64)>` from `genotypes_subset` to kernels that take `&[f64]`. The model passes the dosages.
- The control check at src/regression.rs:60-62 can never fire, because `find_locus(c).unwrap()` panics first. The model returns ControlNotFound for that panic.
- Index panics that the model excludes by precondition rather than modelling as errors:
  - locus widths other than the strain count (`Regression.WellFormed`);
  - ragged chromosomes (`Imputation.Shaped`);
  - a trait vector longer than the strain list in `bootstrap` (`|traits| <= |names|`).
- Loci at the same cM, or a cM that decreases between flanks, make the source's estimate NaN or negative: `f0` is 0 and `r_1 = f1·(1-f2)/f0` is 0/0. The model takes the terms as a parameter, so Imputation.ImputedDosagesBounded assumes them to be probabilities at the chromosome's flank triples, which such loci do not meet.
- `f64` details: rounding and infinities are not modelled. A NaN reaching `partial_cmp().unwrap()` in a sort would panic; the model's sort inputs are clamped LRS values, which are never NaN.
- `usize` overflow of the bootstrap counters is not modelled; the counts are bounded by 1000000.
- Datasets.HeaderExample: the source test at src/geneobject.rs:571-583 asserts both `has_mb == false` and `has_mb == true` for the same header. Only the first can hold, and only it is stated.
- Resampling.PermutedMut: states that the shuffle is a permutation, not that it is uniform.
- Regression.Regression2n: states only what the clamp guarantees, because the kernel is a parameter.
- Regression.Regression3n: states only what the clamp guarantees, because the kernel is a parameter.

## Findings

| source | as written | input that shows it | evidently intended | confidence | as-written member | corrected member |
|---|---|---|---|---|---|---|
| src/geneobject.rs:272 | the (Pat, Pat) dominance estimate is `2.0 * r_1 * r_3` | f1 = f2 = 0.1, f0 = 0.18: (Mat, Mat) gives 2·r0·r3 ≈ 0.0241 but (Pat, Pat) gives 2·r1·r3 ≈ 0.0122 | `2.0 * r_0 * r_3`, mirroring (Mat, Mat) at line 261. Every other cell of the table is unchanged under swapping the two parental genotypes. | medium, not executed | DosageTables.DominanceTableAsWritten (counterexample DosageTables.DominanceAsWrittenAsymmetric) | DosageTables.DominanceTable (proved DosageTables.DominanceSymmetric) |

The imputation model keeps the program's behaviour: Imputation.CellEstimate and
Imputation.Target read the dominance table as written, (Pat, Pat) cell
included, so every imputation contract describes the written program.
DosageTables.DominanceTable and DosageTables.DominanceSymmetric state only what
the evidently intended table would be.
