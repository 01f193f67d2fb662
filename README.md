# carlin_hf read processing and clonal denoising, modelled in Dafny

This project models the clonal-barcode processing core of carlin_hf. That
core is the LARRY helpers in `mosaiclineage/larry.py` and the CARLIN helpers
in `carlinhf/CARLIN.py`. The model proves what these operations promise:

- **Read counting.** A library's read file becomes a read-count table
  (`generate_LARRY_read_count_table`). Each molecule
  (sample, cell, UMI, sequence) is counted once per read and becomes one row.
- **CARLIN reads.** The tag split of `CARLIN_raw_reads` and the filtering of
  `CARLIN_preprocessing`:
  - a read passes when it contains both primers (possibly trimmed) and, with
    a reference list, its cell barcode is listed;
  - its clone is the text between the primers;
  - it is counted per cell, molecule and clone.
- **The denoiser (`denoise_sequence`).** Reads are summed per distinct
  sequence and ranked by read count. Then one of three strategies maps every
  sequence to a corrected one:
  - the greedy Hamming seed-and-absorb loop;
  - its whitelist mode;
  - the greedy alignment loop;
  - the external UMI_tools clusterer.

  Each loop is an imperative method over an array of "remaining" flags. It is
  proved equal to a declarative reference:
  - greedy loops: a rank is a seed when no earlier seed absorbs it, and each
    rank goes to the first seed that absorbs it;
  - whitelist mode: each barcode goes to the first whitelist entry within the
    threshold.

  Properties proved about that reference: keys, idempotence, distance bounds,
  read dominance, and first-match semantics.
- **`denoise_clonal_data`.** It cleans a table's target column, optionally
  one partition at a time, then aggregates the rows with `group_cells`.
- **The quality-control and selection helpers:**
  - the sequence distance matrix and `seq_partition`;
  - the clones per cell and the cells per clone;
  - `remove_cells`;
  - the read-dominant sequences per cell;
  - the consensus sequence;
  - the read-cutoff estimate.

Float constants are compared cross-multiplied, exactly:
- at most a tenth of the seed's reads: `10 * r <= r0`;
- `a + c > 2.5 * b`: `2 * (a + c) > 5 * b`;
- `a < 1.2 * b`: `5 * a < 6 * b`.

Foreign code becomes a parameter:
- the UMI_tools directional clusterer is `cluster`;
- the pairwise2 global alignment distance is `align`.

Exceptions become `Failure` values of a `Result`. In `denoise_clonal_data`
a corrected target that is the string "nan" becomes `None`, as the code
turns exactly that string into a missing value (`mosaiclineage/larry.py:168`,
`mosaiclineage/larry.py:183`).

## Where the description and the code disagree (the model follows the code)

- **`group_cells`.** Its `umi_count` is the number of rows of a group (a
  pandas `count`), not the number of distinct UMIs
  (`mosaiclineage/larry.py:796`).
- **Partitions in `denoise_clonal_data`.** In the per-partition mode, a
  partition without any row at the read cutoff is appended unchanged. Its
  rows below the cutoff are then kept too (`mosaiclineage/larry.py:156-169`).
- **Whitelist mode with a threshold of zero or below.** The mapping is the
  identity on the whitelist entries, and the pool is not consulted
  (`mosaiclineage/larry.py:325-326`).
- **Hamming mode with a negative threshold.** Nothing is absorbed, not even
  the seed, so the mapping stays empty. Building the corrected list then
  raises `KeyError`, modelled as `Unmapped`
  (`mosaiclineage/larry.py:294`, `mosaiclineage/larry.py:384`).
- **`CARLIN_preprocessing` on an empty input.** It divides by zero in its
  pass-rate report (`carlinhf/CARLIN.py:157`), modelled as `NoReads`.
- **Ragged barcode lists and numpy broadcasting.** A ragged list does not
  form a numpy character matrix. The Hamming strategy then fails with
  `UnequalLengths`, and the distance matrix is `None`. Two matrices of
  different widths are compared by numpy broadcasting, which works when one
  of the widths is 1: a width-1 row is repeated to the other width
  (`mosaiclineage/larry.py:316`, `mosaiclineage/larry.py:438-441`). The
  model matches whitelist entries against the pool this way too; other
  width pairs fail.
- **Whitelist mode writes into the inputs' own width.** The corrected list
  is a copy of the inputs' fixed-width byte array, whose width is the
  longest input (at least 1). A mapped whitelist entry longer than that is
  cut to it, and an unmapped input gets `np.nan` written as text, which is
  "nan" cut to that width (`mosaiclineage/larry.py:386-390`). So inputs
  `["A","C"]` matched against `["AAA"]` give `["A","n"]`, not `["AAA", nan]`.
  `denoise_clonal_data` then drops only the targets equal to "nan"
  (`mosaiclineage/larry.py:168`, `mosaiclineage/larry.py:183`): below width
  3 the marker is "n" or "na" and its rows survive. The same test drops any
  corrected target that is the string "nan" in the other modes too.
- **Empty inputs.** Several pandas calls raise on empty data, and the model
  fails there too:
  - `pd.concat` of no library tables (`ReadCountTable` gives `None`);
  - `pd.concat` of no partitions in per-sample mode (`NothingToConcatenate`);
  - the group-by of `QC_clonal_bc_per_cell` and `QC_clone_size` with no row
    at the cutoff, including the caps of `remove_cells` on an empty table
    (`EmptyGrouping`).
- **Ties in the read ranking.** `sort_values` does not promise a stable
  order. The model's tie order is its own choice, and every property proved
  holds for any tie order.

## Model

| member | source | states |
|---|---|---|
| ReadCounts.CountReads | mosaiclineage/larry.py:52-70 | the line-by-line counting loop returns exactly the dictionary and insertion order of the scan `Run` |
| ReadCounts.StepGrows | mosaiclineage/larry.py:61-70 | a line never loses a molecule or a read; a molecule seen for the first time has four parts, one read, and goes to the end of the insertion order; otherwise the order stays |
| ReadCounts.RunFacts | mosaiclineage/larry.py:57-70 | after the scan every counted molecule has four parts and at least one read, and the insertion order lists the counted molecules, each once |
| ReadCounts.TagFacts | mosaiclineage/larry.py:61-66 | the current tag has three fields exactly when the last line was a three-field header, and then holds those fields |
| ReadCounts.StepCases | mosaiclineage/larry.py:61-70 | a line is counted only when it is a non-empty non-header line under a three-field tag; otherwise counts and order stay |
| ReadCounts.LastRecord | mosaiclineage/larry.py:63-67 | the last line is a read exactly when the scan before it holds a three-field tag and the line is a sequence line, and its molecule is that tag plus the line |
| ReadCounts.StepFacts | mosaiclineage/larry.py:59-70 | the scan counts the last line exactly when it is a read, under that read's molecule |
| ReadCounts.RecordsOfPrefix | mosaiclineage/larry.py:59-67 | reads are recognised from two adjacent lines, so a prefix of the lines has the same reads |
| ReadCounts.RecordsSnoc | mosaiclineage/larry.py:59-70 | a molecule's reads gain the last line exactly when it is one of them |
| ReadCounts.HasRecordSnoc | mosaiclineage/larry.py:59-70 | a molecule has a read exactly when it has one before the last line or the last line is one |
| ReadCounts.KeysFacts | mosaiclineage/larry.py:68-69 | the dictionary's keys are exactly the molecules with a read, each four fields long |
| ReadCounts.CountFacts | mosaiclineage/larry.py:68-70 | each key's count is its number of reads, and a non-key has no reads |
| ReadCounts.CountOne | mosaiclineage/larry.py:68-70 | one more line keeps a molecule's count equal to its number of reads |
| ReadCounts.OrderFacts | mosaiclineage/larry.py:68-69 | the insertion order lists every key once and nothing else |
| ReadCounts.CountsFacts | mosaiclineage/larry.py:57-70 | every molecule is a key exactly when it has a read, its count is its number of reads, and the order lists each key once |
| ReadCounts.ReadCountTable | mosaiclineage/larry.py:46-90 | no library is `None`, the error `pd.concat` raises on an empty list; otherwise the table is the library tables one after the other, each built from its library's scan |
| ReadCounts.AllTables | mosaiclineage/larry.py:72-89 | every row of the concatenated table carries the name of one of the libraries |
| ReadCounts.LibraryTableFacts | mosaiclineage/larry.py:72-85 | one row per molecule with a read, in first-seen order, built from its fields and read count; no molecule twice; every read's molecule has a row |
| ReadCounts.LibraryRowAt | mosaiclineage/larry.py:72-85 | row `i` is the row of the `i`-th molecule seen, with its number of reads, at least 1 |
| ReadCounts.MoleculeRowFacts | mosaiclineage/larry.py:79-85 | the row's columns: library, cell barcode, UMI, `umi_id = cell_bc + "_" + umi`, `cell_id = library + "_" + cell_bc`, the sequence as clone, and the read count |
| Text.FindFrom | carlinhf/CARLIN.py:163 | the first occurrence at or after a position, or none when there is none from there |
| Text.SplitFirst | carlinhf/CARLIN.py:163 | the first piece of `split` is a prefix, the whole text exactly when the separator does not occur |
| Text.SplitSecond | carlinhf/CARLIN.py:163 | the second piece of `split` exists exactly when the separator occurs, and is no longer than the text after it |
| Text.Slice | carlinhf/CARLIN.py:146-149 | a Python slice: its length from the normalised bounds, inside the text, character `k` being `s[i + k]` |
| Text.Find | carlinhf/CARLIN.py:152-163 | `find` succeeds exactly when `p in s`, at the first occurrence |
| Text.FindFirst | carlinhf/CARLIN.py:163 | an occurrence with none before it is what `find` returns |
| Text.FindNotBefore | carlinhf/CARLIN.py:163 | with no occurrence before `n`, `find` returns one at or after `n` |
| Text.SplitFirstKeeps | carlinhf/CARLIN.py:163 | with no separator before `n`, the first split piece is a prefix at least `n` long |
| Text.SecondAfter | carlinhf/CARLIN.py:163 | when the first separator ends where `a` ends, the second piece of `a + r` is the first piece of `r` |
| Text.SplitFirstIff | carlinhf/CARLIN.py:163 | the first split piece is exactly the prefix that ends at the first separator or at the end and holds no separator start |
| Text.OccursInSuffix | carlinhf/CARLIN.py:163 | occurrences in a suffix are the shifted occurrences of the whole text |
| Text.OccursInPrefix | carlinhf/CARLIN.py:163 | occurrences in a prefix are those that end inside it |
| Text.NotContains | carlinhf/CARLIN.py:152 | a text with no occurrence starting at any position does not contain a non-empty pattern |
| Text.SliceBound | carlinhf/CARLIN.py:146-149 | Python's slice-bound normalisation: negatives count from the end, clamped to the length |
| Text.SliceLastFacts | carlinhf/CARLIN.py:147 | `s[-n:]` is a suffix: the last `n` characters, the whole text for `n == 0` or `n` too large, shorter by `-n` for negative `n` |
| Text.SliceFirstFacts | carlinhf/CARLIN.py:149 | `s[:n]` is a prefix: the first `n` characters, the whole text when `n` is too large, shorter by `-n` for negative `n` |
| Text.SplitOn | mosaiclineage/larry.py:64 | `split` on one character gives at least one piece and no piece holds the separator |
| Text.SplitJoin | mosaiclineage/larry.py:64 | joining the split pieces with the separator gives the text back |
| Text.JoinSplit | mosaiclineage/larry.py:64 | splitting the join of separator-free pieces gives the pieces back |
| Text.PieceSplit | mosaiclineage/larry.py:64 | text without the separator splits into itself |
| Text.SplitPrefix | mosaiclineage/larry.py:64 | splitting a piece, the separator and more gives the piece followed by the split of the rest |
| Carlin.ParseTemplate | carlinhf/CARLIN.py:130-144 | exactly the three names "cCARLIN", "Tigre" and "Rosa" are templates, each its own |
| Carlin.TemplatePrimers | carlinhf/CARLIN.py:21-31 | each template has its own two primers, neither empty |
| Carlin.TrimFivePrime | carlinhf/CARLIN.py:146-147 | the trimmed 5' primer is a suffix of the primer: its last `n` characters, all of it for `n == 0`, empty exactly when `n <= -len` |
| Carlin.TrimThreePrime | carlinhf/CARLIN.py:148-149 | the trimmed 3' primer is a prefix of the primer: its first `n` characters, empty exactly when `n == 0` or `n <= -len` |
| Carlin.Passing | carlinhf/CARLIN.py:152-159 | exactly the input reads containing both primers and, with a reference list, from a listed cell barcode are kept |
| Carlin.Clones | carlinhf/CARLIN.py:163 | one clone per kept read, cut from its sequence |
| Carlin.Ids | carlinhf/CARLIN.py:164 | one counting key per kept read, from its cell, molecule and clone |
| Carlin.CloneOf | carlinhf/CARLIN.py:163 | the clone cut between the primers is shorter than the read by at least the 5' primer |
| Carlin.CountedRows | carlinhf/CARLIN.py:163-166 | one row per kept read, its `clone_id` the read's clone and its `Seq` column dropped |
| Carlin.Preprocess | carlinhf/CARLIN.py:130-166 | an unknown template fails with `InvalidTemplate`, an empty input fails, and a successful table has no duplicate row |
| Carlin.RawReads | carlinhf/CARLIN.py:75-98 | succeeds exactly for the "scLimeCat" protocol and files of equal length; then one read per line with its sequence, library and clone |
| CarlinProperties.TwoCuts | carlinhf/CARLIN.py:163 | the two cuts leave a prefix free of both primers that ends at the end or where a primer starts |
| CarlinProperties.CloneFacts | carlinhf/CARLIN.py:163 | the clone directly follows the first 5' primer, holds neither primer, and ends at the read's end or at a primer |
| CarlinProperties.CloneIsTwoCuts | carlinhf/CARLIN.py:163 | the clone is the two cuts of the text after the first 5' primer |
| CarlinProperties.CloneRoundTrip | carlinhf/CARLIN.py:163 | a read laid out as prefix, 5' primer, clone, 3' primer and suffix, with no stray primer, yields exactly that clone |
| CarlinProperties.CloneInRest | carlinhf/CARLIN.py:163 | the text after the 5' primer cuts to the clone when no stray primer starts inside it |
| CarlinProperties.PreprocessErrors | carlinhf/CARLIN.py:130-163 | invalid template first, then an empty input, then an empty trimmed primer exactly when some read passes; success otherwise |
| CarlinProperties.PassingNonEmpty | carlinhf/CARLIN.py:152-159 | some read is kept exactly when some input read passes |
| CarlinProperties.PositiveTrimNeverEmpty | carlinhf/CARLIN.py:146-149 | untrimmed or positively trimmed primers never fail on an empty separator |
| CarlinProperties.PreprocessFacts | carlinhf/CARLIN.py:151-166 | no duplicate output row; each is a kept read's projected row; each kept read's row is output; the read count is the number of kept reads of its key, and these add up to the kept reads |
| CarlinProperties.CountMatching | carlinhf/CARLIN.py:165 | a sum of ones over a key is the number of positions with that key |
| CarlinProperties.ProjectFacts | carlinhf/CARLIN.py:163-166 | the output columns are the read's columns without `Seq`, `Valid`, `unique_id`, with the new `clone_id`, and the others unchanged |
| CarlinProperties.CountedRowFacts | carlinhf/CARLIN.py:163-166 | kept read `i` becomes its projected row with the number of kept reads sharing its cell, molecule and clone |
| CarlinProperties.RawReadsFacts | carlinhf/CARLIN.py:75-98 | unsupported protocol and unequal file lengths fail; otherwise one record per read with the seven columns, the barcode and UMI as tag slices `[:8]` and `[8:16]`, and the prefixed identifiers |
| Collections.SumAppend | mosaiclineage/larry.py:794 | a sum grows by an appended value |
| Collections.SumConcat | mosaiclineage/larry.py:794 | the sum of a concatenation is the sum of the sums |
| Collections.DistinctCount | mosaiclineage/larry.py:251 | a duplicate-free sequence holds each value at most once |
| Collections.DistinctPermutation | mosaiclineage/larry.py:251 | reordering a duplicate-free sequence keeps it duplicate-free |
| Collections.DistinctCard | mosaiclineage/larry.py:453 | a duplicate-free sequence is as long as its set |
| Collections.SubsetCard | mosaiclineage/larry.py:453 | a subset is no larger than its superset |
| Collections.Filter | mosaiclineage/larry.py:822 | the selection holds exactly the elements the condition accepts |
| Collections.Uniques | mosaiclineage/larry.py:251 | the de-duplicated sequence is duplicate-free and has exactly the input's elements |
| Collections.IndexOf | mosaiclineage/larry.py:296 | the first position of a value |
| Collections.IndexOfDistinct | mosaiclineage/larry.py:296 | in a duplicate-free sequence a value's position is where it stands |
| Collections.AssignMapped | mosaiclineage/larry.py:295-301 | assigning one unassigned barcode to a seed keeps every assigned barcode mapped as the round says |
| Collections.AssignKeys | mosaiclineage/larry.py:295-301 | assigning one barcode keeps only assigned barcodes as keys |
| Collections.SumWhereAppend | mosaiclineage/larry.py:251 | an appended keyed value adds to its key's sum only |
| Collections.SumWhereAbsent | mosaiclineage/larry.py:251 | an absent key sums to zero |
| Collections.TotalOverAppendKey | mosaiclineage/larry.py:794 | one more group adds its group sum to the total |
| Collections.TotalOverAppendValue | mosaiclineage/larry.py:794 | one more keyed value adds to exactly one group of a distinct key list containing its key |
| Collections.GroupSumConserves | mosaiclineage/larry.py:250-252 | the group sums over the distinct keys add up to the sum of all values |
| Collections.UniquesSnoc | mosaiclineage/larry.py:251 | one more element extends the distinct keys exactly when it is new |
| Collections.GroupSums | mosaiclineage/larry.py:794 | one group sum per listed key |
| Collections.GroupSumsTotal | mosaiclineage/larry.py:794 | adding up the group sums gives the total over the keys |
| Collections.GroupSum | mosaiclineage/larry.py:250-252 | the group-by sum: each distinct key once with the sum of its values |
| Collections.Firsts | mosaiclineage/larry.py:279 | the first components, position by position |
| Collections.Seconds | mosaiclineage/larry.py:333 | the second components, position by position |
| Collections.Ones | mosaiclineage/larry.py:246 | `n` ones, the read counts when none are given |
| Ranking.Insert | mosaiclineage/larry.py:251 | inserting into a descending sequence keeps it descending and adds exactly the element |
| Ranking.HeadBound | mosaiclineage/larry.py:251 | a head no smaller than the inserted element stays a valid head |
| Ranking.SortDesc | mosaiclineage/larry.py:250-252 | `sort_values(ascending=False)`: a permutation in descending key order |
| Distance.MismatchesProperties | mosaiclineage/larry.py:436-441 | the mismatch count is symmetric, at most the length, and zero exactly for equal sequences |
| Distance.BroadcastWidth | mosaiclineage/larry.py:438-441 | the width of a numpy comparison of widths `m` and `n`: the one that is not 1 |
| Distance.Stretch | mosaiclineage/larry.py:438-441 | a width-1 array repeated to the broadcast width; an array of that width unchanged |
| Distance.CountOther | mosaiclineage/larry.py:438-441 | the number of entries different from one value, at most the length |
| Distance.BroadcastFacts | mosaiclineage/larry.py:438-441 | the broadcast mismatch count is the mismatch count of the stretched arrays; it is symmetric, at most the broadcast width, and zero exactly when the stretched arrays agree |
| Distance.MismatchesConstant | mosaiclineage/larry.py:438-441 | mismatches against a repeated value count the entries different from it |
| Distance.MismatchesSelf | mosaiclineage/larry.py:293 | a sequence has no mismatch with itself |
| Distance.SeqPartition | mosaiclineage/larry.py:801-810 | `len // n` chunks of `n` characters, the short tail dropped; no chunks for a width below 1 |
| Distance.ChunkEnd | mosaiclineage/larry.py:810 | every chunk ends inside the sequence |
| Distance.PartitionAt | mosaiclineage/larry.py:810 | chunk `i` is the slice `[i*n, i*n+n)` |
| Distance.PartitionJoin | mosaiclineage/larry.py:810 | joining the first `m` chunks gives the first `m*n` characters |
| Distance.PartitionOne | mosaiclineage/larry.py:807-808 | width 1 gives the characters, which join back to the sequence |
| Distance.StretchPartition | mosaiclineage/larry.py:807-810 | stretching the characters of a sequence is taking the characters of the stretched sequence |
| Distance.ChunkDistanceOne | mosaiclineage/larry.py:426-441 | at width 1 the chunk distance is the broadcast mismatch count of the sequences, and the Hamming distance when their lengths agree |
| Distance.MismatchesOfSingletons | mosaiclineage/larry.py:807-808 | mismatches of the characters are the mismatches of the sequences |
| Distance.FillDistances | mosaiclineage/larry.py:432-441 | entry `(i, j)` of the filled matrix is the broadcast mismatch count of source `i` and target `j`, filled by columns or by rows |
| Distance.SequenceDistance | mosaiclineage/larry.py:410-443 | the matrix exists exactly when every pair of chunk arrays broadcasts (equal widths or one of width 1); each entry is the chunk distance; without targets it is symmetric with a zero diagonal |
| Distance.SequenceDistanceBroadcastExample | mosaiclineage/larry.py:410-443 | `["A","C"]` against `["AAA","CCC"]` at width 1 broadcasts and gives the matrix `[[0,3],[3,0]]` |
| Greedy.CanonFrom | mosaiclineage/larry.py:288-304 | the first seed in a range of ranks that absorbs `i`, or `i` itself |
| Greedy.Canon | mosaiclineage/larry.py:288-304 | the canonical rank of `i` is at most `i`, and when earlier it is a seed that absorbs `i` |
| Greedy.CanonProperties | mosaiclineage/larry.py:288-304 | each rank's canonical rank is an earlier-or-equal seed that absorbs it, no earlier seed absorbs it, and it is its own canonical rank |
| Greedy.CanonOfSeed | mosaiclineage/larry.py:289-291 | a seed is its own canonical rank |
| Greedy.AllSeeds | mosaiclineage/larry.py:288-304 | when no rank absorbs another, every rank is a seed |
| Greedy.AdvanceSeed | mosaiclineage/larry.py:289-301 | the first uncovered rank is a seed, and the ranks it newly absorbs go to it |
| Greedy.CanonIndex | mosaiclineage/larry.py:296-298 | the canonical rank of a pool barcode lies in the pool |
| Greedy.CanonFromBound | mosaiclineage/larry.py:289-298 | a canonical rank is never later than the rank |
| Greedy.CanonMapAt | mosaiclineage/larry.py:298 | the greedy mapping is defined on the pool and sends rank `i` to its canonical rank |
| Greedy.CanonMapFacts | mosaiclineage/larry.py:298 | each barcode goes to an earlier-or-equal seed that absorbs it, and that seed goes to itself |
| Greedy.CanonMap | mosaiclineage/larry.py:288-304 | the greedy mapping's keys are exactly the pool |
| Greedy.CanonMapKeys | mosaiclineage/larry.py:298 | the mapping is defined exactly on the pool and maps into the pool |
| Greedy.FirstRemaining | mosaiclineage/larry.py:289-290 | the first position still unassigned |
| Greedy.AnyRemaining | mosaiclineage/larry.py:303 | whether some position is still unassigned |
| Greedy.AbsorbRound | mosaiclineage/larry.py:292-301 | one round maps every unassigned barcode the seed absorbs to the seed and marks it assigned, nothing else changing |
| Greedy.AbsorbStep | mosaiclineage/larry.py:295-301 | looking at one rank keeps the round's state |
| Greedy.AbsorbHit | mosaiclineage/larry.py:296-301 | assigning one rank keeps the round's state |
| Greedy.AbsorbFlags | mosaiclineage/larry.py:299-301 | assigning one rank updates only its flag |
| Greedy.ProcessedIntro | mosaiclineage/larry.py:288-304 | the loop state is the conjunction of its parts |
| Greedy.SeedAfterProcessed | mosaiclineage/larry.py:289-290 | the next seed is the first rank no earlier seed covers |
| Greedy.StepRemaining | mosaiclineage/larry.py:299-301 | after a round the unassigned ranks are exactly those no seed so far covers |
| Greedy.StepAssigned | mosaiclineage/larry.py:294-301 | after a round every rank up to the seed is assigned |
| Greedy.StepMapping | mosaiclineage/larry.py:298 | after a round every assigned barcode goes to its canonical barcode |
| Greedy.ProcessedStep | mosaiclineage/larry.py:288-304 | a round moves the processed boundary past its seed |
| Greedy.ProcessedDone | mosaiclineage/larry.py:303-304 | once nothing is unassigned the mapping is the greedy mapping |
| Greedy.RoundReady | mosaiclineage/larry.py:288-292 | the loop state gives what a round needs |
| Greedy.RoundStep | mosaiclineage/larry.py:288-304 | for a reflexive rule the boundary advances; for a rule absorbing nothing the round changes nothing |
| Greedy.GreedyRound | mosaiclineage/larry.py:289-304 | one round keeps the loop invariant and reports whether anything is left |
| Greedy.SeedAndAbsorb | mosaiclineage/larry.py:282-304 | for a reflexive rule the loop computes the declarative greedy mapping; for a rule absorbing nothing the mapping stays empty |
| Whitelist.FirstMatch | mosaiclineage/larry.py:311-324 | the first whitelist entry within the threshold, no earlier one being within it |
| Whitelist.WhitelistMap | mosaiclineage/larry.py:311-324 | the whitelist mapping's keys are pool barcodes |
| Whitelist.IdentityMap | mosaiclineage/larry.py:325-326 | the identity on the whitelist entries |
| Whitelist.FirstMatchExtend | mosaiclineage/larry.py:311-324 | a later entry never takes over an earlier match, and the new entry takes exactly the unmatched barcodes within the threshold |
| Whitelist.RoundStep | mosaiclineage/larry.py:318-324 | looking at one pool barcode keeps the round's state |
| Whitelist.RoundHit | mosaiclineage/larry.py:318-324 | assigning one pool barcode keeps the round's state |
| Whitelist.HitFlags | mosaiclineage/larry.py:322-324 | assigning one barcode updates only its flag |
| Whitelist.MatchRound | mosaiclineage/larry.py:313-324 | one entry's round maps every unassigned barcode within the threshold to the entry and marks it assigned |
| Whitelist.WhitelistStep | mosaiclineage/larry.py:311-324 | a round extends the loop state by one whitelist entry |
| Whitelist.FitsSnoc | mosaiclineage/larry.py:316 | appending an entry whose width broadcasts against a barcode keeps the whole whitelist broadcastable against it |
| Whitelist.StepAt | mosaiclineage/larry.py:313-324 | one pool barcode's state after one more entry |
| Whitelist.WhitelistDone | mosaiclineage/larry.py:308-324 | after the whole whitelist the mapping is the first-match mapping |
| Whitelist.WhitelistAssign | mosaiclineage/larry.py:305-326 | a positive threshold gives the first-match mapping; otherwise the identity on the whitelist |
| Denoise.ParseMethod | mosaiclineage/larry.py:238-241 | exactly "Hamming", "UMI_tools" and "alignment" are methods, each its own |
| Denoise.ReadCounts | mosaiclineage/larry.py:245-246 | one read per sequence when no read counts are given, otherwise the given counts |
| Denoise.RankedFacts | mosaiclineage/larry.py:249-252 | every distinct input once, with its summed reads, in descending read order |
| Denoise.PermutedSums | mosaiclineage/larry.py:250-252 | a reordering of the group sums carries each input's summed reads |
| Denoise.PermutedDistinct | mosaiclineage/larry.py:250-252 | a reordering of the group sums names each sequence once |
| Denoise.PermutedCovers | mosaiclineage/larry.py:250-252 | a reordering of the group sums names every input |
| Denoise.HammingRuleReflexive | mosaiclineage/larry.py:293-294 | with a threshold of zero or more every barcode absorbs itself |
| Denoise.HammingRuleNever | mosaiclineage/larry.py:293-294 | with a negative threshold nothing is absorbed |
| Denoise.RectangularComparable | mosaiclineage/larry.py:307-316 | two character matrices whose first rows broadcast broadcast row by row |
| Denoise.HammingMapping | mosaiclineage/larry.py:278-326 | fails only with `UnequalLengths`, exactly for a ragged pool or whitelist or a whitelist whose width does not broadcast against the pool's; without a whitelist the keys are the pool (empty for a negative threshold); with one and a positive threshold pool barcodes go to whitelist entries, otherwise the identity on the whitelist |
| Denoise.AlignRuleReflexive | mosaiclineage/larry.py:369-371 | the alignment rule always takes the seed itself |
| Denoise.ClusterEntries | mosaiclineage/larry.py:270-271 | every member of a cluster goes to its first member |
| Denoise.ClusterMapProperties | mosaiclineage/larry.py:265-271 | the keys are the cluster members, each mapped to the first member of the last cluster holding it |
| Denoise.ClusterMapKeys | mosaiclineage/larry.py:265-271 | the keys are exactly the cluster members |
| Denoise.LastCluster | mosaiclineage/larry.py:269-271 | a key's value comes from the last cluster that holds it |
| Denoise.ClusterMapping | mosaiclineage/larry.py:265-271 | the nested loop over the clusters computes the cluster mapping |
| Denoise.HammingStrategyMapping | mosaiclineage/larry.py:278-326 | the Hamming strategy, with its character-matrix checks, computes the declarative Hamming mapping |
| Denoise.ComputeMapping | mosaiclineage/larry.py:253-381 | the chosen strategy computes the declarative strategy mapping |
| Denoise.StrategyMapping | mosaiclineage/larry.py:253-381 | fails with `IncompatibleWhitelist` exactly for UMI_tools with a whitelist, otherwise only with `UnequalLengths`; the alignment strategy always succeeds with the pool as keys; UMI_tools on nothing gives the empty mapping |
| Denoise.Corrected | mosaiclineage/larry.py:383-384 | without a whitelist, one entry per input, its mapped sequence, which is a value of the mapping |
| Denoise.Width | mosaiclineage/larry.py:386 | the width of the inputs' byte array: at least 1, no input longer, and some input that long when it is above 1 |
| Denoise.Fit | mosaiclineage/larry.py:387 | writing into the width keeps a prefix, the whole string exactly when it fits |
| Denoise.NanMarker | mosaiclineage/larry.py:389 | the text of `np.nan` at a width is a prefix of "nan", and is "nan" exactly from width 3 |
| Denoise.WhitelistEntry | mosaiclineage/larry.py:386-389 | an entry fits the width; a key gets a prefix of its value, the value itself when it fits; a non-key gets the marker; below width 3 it is never "nan", from width 3 a non-key's is |
| Denoise.WhitelistCorrected | mosaiclineage/larry.py:384-389 | the whitelist-mode list: one entry per input within the width, a prefix of the mapped entry (equal when it fits) for a key, the marker otherwise |
| Denoise.DenoiseSequence | mosaiclineage/larry.py:214-392 | `denoise_sequence` returns or raises exactly what the declarative specification `DenoiseSpec` says, including the whitelist-mode list written at the inputs' width |
| Denoise.DenoiseSpec | mosaiclineage/larry.py:214-392 | an unknown method fails first; read counts of the wrong length fail next; `Unmapped` only without a whitelist; a success has one entry per input; without a whitelist every input is a key and is corrected to its mapped sequence; with one the list is `WhitelistCorrected`, the entries cut to the inputs' width |
| DenoiseProperties.ChecksComeFirst | mosaiclineage/larry.py:238-248 | an unknown method fails first, then mismatched read counts |
| DenoiseProperties.PoolOfLength | mosaiclineage/larry.py:279-283 | inputs of one length give a rectangular ranked pool, non-empty for non-empty input |
| DenoiseProperties.RankingOfRanked | mosaiclineage/larry.py:249-252 | the ranked pool and counts are a ranking of the inputs |
| DenoiseProperties.HammingCanonFacts | mosaiclineage/larry.py:288-304 | the greedy Hamming mapping's keys are the inputs; it is idempotent; each input goes to a sequence within the threshold with at least as many reads |
| DenoiseProperties.CorrectedThrough | mosaiclineage/larry.py:383-384 | an idempotent mapping keyed by the inputs corrects each of them |
| DenoiseProperties.HammingDenoise | mosaiclineage/larry.py:272-384 | Hamming without whitelist succeeds, corrects every input idempotently, within the threshold, to a sequence with at least as many reads |
| DenoiseProperties.HammingResult | mosaiclineage/larry.py:272-384 | the result is the greedy Hamming mapping of the ranked inputs and the inputs looked up in it |
| DenoiseProperties.HammingNegativeThreshold | mosaiclineage/larry.py:288-384 | with a negative threshold the mapping stays empty and correcting any input fails |
| DenoiseProperties.WhitelistDenoise | mosaiclineage/larry.py:305-390 | whitelist mode over equal-length inputs and entries whose widths broadcast: the width is the inputs' length (1 for empty strings); the keys are the matched inputs; each goes to its first matching entry, cut to the width; unmatched inputs get "nan" cut to the width |
| DenoiseProperties.WhitelistResult | mosaiclineage/larry.py:305-390 | whitelist mode over equal-length inputs returns the whitelist mapping of the ranked pool with the whitelist-mode list |
| DenoiseProperties.WidthOfLength | mosaiclineage/larry.py:386 | inputs of one length have that length as width, 1 when it is 0 |
| DenoiseProperties.WhitelistCorrectedAt | mosaiclineage/larry.py:386-389 | each entry of the whitelist-mode list is the first matching entry cut to the width, or the marker |
| DenoiseProperties.WhitelistCorrectedFits | mosaiclineage/larry.py:384-389 | when every mapped value is an input, the whitelist-mode list equals the plain lookups |
| DenoiseProperties.WhitelistBroadcastExample | mosaiclineage/larry.py:305-390 | inputs `["A","C"]` against the whitelist `["AAA"]` at threshold 2: the width-1 pool broadcasts, "A" maps to "AAA" and "C" stays unmapped, and the width-1 list is `["A","n"]` |
| DenoiseProperties.WhitelistZeroThreshold | mosaiclineage/larry.py:325-390 | with threshold at most 0 the mapping is the identity on the whitelist; an input that is an entry is kept, any other gets "nan" cut to the inputs' width |
| DenoiseProperties.LengthGapRulesOut | mosaiclineage/larry.py:353-355 | a length gap beyond the threshold alone rules a sequence out |
| DenoiseProperties.AlignmentDenoise | mosaiclineage/larry.py:328-390 | alignment mode corrects every input idempotently, also with a whitelist, where every value fits the width; a non-seed goes to a seed with at least ten times its reads, within the threshold by alignment and length gap |
| DenoiseProperties.AlignCanonFacts | mosaiclineage/larry.py:343-381 | the greedy alignment mapping's keys are the inputs; it is idempotent; a moved sequence goes to one with ten times its reads, within the threshold |
| DenoiseProperties.ClusterMapCovers | mosaiclineage/larry.py:265-271 | every input is a key exactly when every input lies in some cluster |
| DenoiseProperties.UmiToolsDenoise | mosaiclineage/larry.py:253-271 | UMI_tools refuses a whitelist, gives an empty mapping for no input, and otherwise succeeds exactly when the clusters cover the inputs, with the cluster mapping |
| Tables.FilterRowsOver | mosaiclineage/larry.py:142 | selecting rows keeps their columns |
| Tables.RowsOverHasColumns | mosaiclineage/larry.py:187 | rows over the table's columns have every key column among them |
| Tables.FilterHasColumns | mosaiclineage/larry.py:142 | selecting rows keeps the key columns |
| Tables.RowsOverConcat | mosaiclineage/larry.py:170 | concatenated partitions keep the columns |
| Tables.Column | mosaiclineage/larry.py:158 | a column's values, row by row |
| Tables.Reads | mosaiclineage/larry.py:159 | the read counts, row by row |
| Tables.KeyOf | mosaiclineage/larry.py:794 | a row's key values, key by key |
| Tables.Keys | mosaiclineage/larry.py:794 | every row's key |
| Tables.GroupCells | mosaiclineage/larry.py:793-798 | no more rows than the input, no key twice, every key an input row's key, `umi_count` present exactly when the UMI column is counted |
| Tables.GroupReads | mosaiclineage/larry.py:794 | the output read sums, row by row |
| Tables.GroupKeys | mosaiclineage/larry.py:794 | the output keys, row by row |
| Tables.GroupCellsFacts | mosaiclineage/larry.py:793-798 | one row per distinct key, each input key present, read sums per key, the total conserved, `umi_count` exactly when "umi" is a column and not a key, counting rows and summing to the row count |
| Tables.OnesSum | mosaiclineage/larry.py:796 | `n` ones add up to `n` |
| Clonal.Relabel | mosaiclineage/larry.py:166-170 | relabelling drops rows, never adds |
| Clonal.Unmarked | mosaiclineage/larry.py:168 | an entry is missing exactly when it is the string "nan", and is kept otherwise |
| Clonal.RelabelFrom | mosaiclineage/larry.py:166-170 | every relabelled row is an input row with a present correction, retargeted |
| Clonal.RelabelKeeps | mosaiclineage/larry.py:166-170 | every row with a present correction is relabelled |
| Clonal.RelabelAll | mosaiclineage/larry.py:181-184 | with every correction present each row is relabelled in place |
| Clonal.RelabelReads | mosaiclineage/larry.py:181-184 | relabelling keeps the read counts |
| Clonal.DenoiseSpecCorrected | mosaiclineage/larry.py:173-181 | the corrected list has one entry per input; without a whitelist each is the input's mapped sequence and every input is a key; with one each is the whitelist-mode entry at the inputs' width |
| Clonal.KeyColumns | mosaiclineage/larry.py:187 | the requested key columns that exist, each once |
| Clonal.Present | mosaiclineage/larry.py:187 | exactly the requested keys that are columns |
| Clonal.RelabelOver | mosaiclineage/larry.py:166-170 | relabelling keeps the columns |
| Clonal.CleanedOver | mosaiclineage/larry.py:181-184 | cleaning keeps the columns |
| Clonal.CleanedPartitionsOver | mosaiclineage/larry.py:147-170 | the per-partition cleaning keeps the columns |
| Clonal.SurvivorsOver | mosaiclineage/larry.py:147-184 | the survivors have the table's columns |
| Clonal.CleanRows | mosaiclineage/larry.py:172-184 | the non-partitioned cleaning denoises the rows at the cutoff and relabels them, as `CleanedRows` says |
| Clonal.CleanedPartitionsFailure | mosaiclineage/larry.py:151-169 | a failing partition ends the per-partition cleaning with its error |
| Clonal.CleanedPartitions | mosaiclineage/larry.py:149-169 | no partition gives the empty result; a failure is the error of some partition with a row at the cutoff |
| Clonal.Lifted | mosaiclineage/larry.py:173-181 | a denoising result with its error wrapped, success and value unchanged |
| Clonal.CleanPartitions | mosaiclineage/larry.py:149-170 | no partition value fails with `NothingToConcatenate` (the `pd.concat([])` error); otherwise the loop over the partition values computes the per-partition cleaning |
| Clonal.DenoiseClonalData | mosaiclineage/larry.py:141-188 | `denoise_clonal_data` returns or raises exactly what `ClonalSpec` says |
| Clonal.ClonalSpec | mosaiclineage/larry.py:141-188 | `MissingTarget` exactly for a missing target; a success has the target, a key column, surviving rows (those whose corrected target is not "nan"), and no more groups than survivors |
| ClonalProperties.CleanedFacts | mosaiclineage/larry.py:181-184 | for a list written through a map: every survivor is a row at the cutoff retargeted to its entry, which is not "nan"; every row at the cutoff whose entry is not "nan" survives so |
| ClonalProperties.CleanedSound | mosaiclineage/larry.py:181-184 | every survivor is a row at the cutoff retargeted to its written entry, which is not "nan" |
| ClonalProperties.CleanedComplete | mosaiclineage/larry.py:181-184 | every row at the cutoff whose written entry is not "nan" survives, retargeted to it |
| ClonalProperties.CleanedRowsFacts | mosaiclineage/larry.py:172-184 | the non-partitioned cleaning fails exactly when denoising fails, with its error; without a whitelist every target at the cutoff is a key, and the survivors are exactly the rows at the cutoff whose mapped sequence is not "nan", retargeted to it |
| ClonalProperties.AtCutoffKeys | mosaiclineage/larry.py:172-181 | when every target at the cutoff is a key, so is the target of every row at the cutoff |
| ClonalProperties.WhitelistWrites | mosaiclineage/larry.py:386-389 | the whitelist-mode entry per target, keyed exactly by the targets |
| ClonalProperties.WhitelistCleaning | mosaiclineage/larry.py:172-184 | with a whitelist the cleaning relabels with the whitelist-mode list, each entry written at the targets' width |
| ClonalProperties.WhitelistWritesAt | mosaiclineage/larry.py:386-389 | each target at the cutoff is keyed in the written map, with its whitelist-mode entry |
| ClonalProperties.CleanedWhitelistFacts | mosaiclineage/larry.py:172-184 | with a whitelist the survivors are exactly the rows at the cutoff whose written entry is not "nan", retargeted to it |
| ClonalProperties.CleanedWhitelistWide | mosaiclineage/larry.py:181-184 | with a whitelist and targets of width 3 or more, every survivor is a row at the cutoff whose target is a key, carrying a prefix of its mapped entry |
| ClonalProperties.WideSurvivors | mosaiclineage/larry.py:181-184 | a list written through the whitelist-mode entries at width 3 or more keeps only keyed rows, retargeted to a prefix of their value |
| ClonalProperties.WideOne | mosaiclineage/larry.py:386-389 | one survivor of such a list has a key as target and a prefix of its value |
| ClonalProperties.CleanedWhitelistShort | mosaiclineage/larry.py:181-184 | with a whitelist and targets narrower than 3, the marker escapes the "nan" test: every row at the cutoff survives, in order, with its reads |
| ClonalProperties.ShortEntries | mosaiclineage/larry.py:389 | below width 3 no whitelist-mode entry is "nan" |
| ClonalProperties.CleanedKeepsAll | mosaiclineage/larry.py:181-184 | with no corrected entry "nan", every row at the cutoff survives, in order, with its reads |
| ClonalProperties.CleanedRowsKeepsAll | mosaiclineage/larry.py:172-184 | without a whitelist, and with no mapped sequence the string "nan", no read at the cutoff is lost |
| ClonalProperties.PartitionPassThrough | mosaiclineage/larry.py:155-169 | a partition without a row at the cutoff keeps all its rows |
| ClonalProperties.CleanedRetargets | mosaiclineage/larry.py:166-168 | partition cleaning keeps only retargeted rows at the cutoff |
| ClonalProperties.KeptOrRetargetedAppend | mosaiclineage/larry.py:169 | appending a kept or cleaned partition keeps every survivor kept or retargeted |
| ClonalProperties.PartitionSurvivors | mosaiclineage/larry.py:147-170 | each per-partition survivor is an unchanged row or a retargeted row at the cutoff |
| ClonalProperties.ClonalOutput | mosaiclineage/larry.py:186-188 | the output has one row per distinct key, conserves the survivors' reads, and has `umi_count` exactly when "umi" is a column and not a key |
| ClonalProperties.ClonalKeepsReads | mosaiclineage/larry.py:171-188 | without whitelist or partition, and with no mapped sequence the string "nan", every read at the cutoff reaches the output |
| ClonalProperties.ClonalErrors | mosaiclineage/larry.py:141-188 | a missing target fails; a failed denoising of the table or of a partition passes its error on; per-sample mode on a table without rows has nothing to concatenate; no existing key column fails; success has the target and survivors |
| CellFilters.Project | mosaiclineage/larry.py:828 | one column's values, row by row |
| CellFilters.CountPerGroup | mosaiclineage/larry.py:451-456 | the group-by counts fail with `EmptyGrouping` exactly on no rows, and are the distinct-partner counts otherwise |
| CellFilters.NoneAtLeast | mosaiclineage/larry.py:450 | no row at the cutoff exactly when every row is below it |
| CellFilters.ClonalBcPerCell | mosaiclineage/larry.py:446-461 | fails with `EmptyGrouping` exactly when every row is below the cutoff |
| CellFilters.CloneSize | mosaiclineage/larry.py:477-489 | fails with `EmptyGrouping` exactly when every row is below the cutoff |
| CellFilters.DistinctInCard | mosaiclineage/larry.py:451-456 | a group's count is its number of distinct partners |
| CellFilters.UniquesArePartners | mosaiclineage/larry.py:453 | the distinct member values of a group are its partners |
| CellFilters.PartnersNonEmpty | mosaiclineage/larry.py:451-456 | a group present in the rows has at least one partner |
| CellFilters.DistinctPerGroupFacts | mosaiclineage/larry.py:451-456 | each group once, exactly the values present, counted by distinct partners, at least 1 |
| CellFilters.GroupCount | mosaiclineage/larry.py:451-456 | a present group counts its distinct partners, at least 1 |
| CellFilters.FilterAll | mosaiclineage/larry.py:826 | a cutoff every row meets keeps all rows |
| CellFilters.PartnersAtLeast | mosaiclineage/larry.py:450 | partners among rows at the cutoff are the partners of those rows |
| CellFilters.GroupFactsAtLeast | mosaiclineage/larry.py:450-456 | the per-group counts over the rows at the cutoff, stated on those rows |
| CellFilters.CellTerms | mosaiclineage/larry.py:450-456 | a cell's clones are its generic partners |
| CellFilters.CloneTerms | mosaiclineage/larry.py:478-484 | a clone's cells are its generic partners |
| CellFilters.ClonalBcPerCellFacts | mosaiclineage/larry.py:446-461 | fails exactly when no row is at the cutoff (the empty group-by raises); otherwise exactly the cells with a row at the cutoff, once each, with their number of distinct clones, at least 1 |
| CellFilters.CloneSizeFacts | mosaiclineage/larry.py:477-489 | fails exactly when no row is at the cutoff (the empty group-by raises); otherwise exactly the clones with a row at the cutoff, once each, with their number of distinct cells, at least 1 |
| CellFilters.WithinCap | mosaiclineage/larry.py:827 | a group is listed within the cap exactly when its count is at most the cap |
| CellFilters.KeepGroupsFacts | mosaiclineage/larry.py:825-833 | an empty table fails (the empty group-by raises); otherwise a row survives a cap exactly when its group has at most that many distinct partners |
| CellFilters.KeepOne | mosaiclineage/larry.py:826-828 | a row's group is within the cap exactly when it has at most that many partners |
| CellFilters.KeepGroups | mosaiclineage/larry.py:825-833 | a cap fails with `EmptyGrouping` exactly on no rows, and otherwise keeps some of the rows |
| CellFilters.PartnersSubset | mosaiclineage/larry.py:830-833 | dropping rows only shrinks partner sets |
| CellFilters.ReadAndUmiFacts | mosaiclineage/larry.py:821-824 | the read and UMI stages keep exactly the rows meeting both cutoffs, failing only for a UMI cutoff without `umi_count` |
| CellFilters.ReadAndUmiStage | mosaiclineage/larry.py:821-824 | succeeds exactly without a UMI cutoff or with `umi_count`, failing with `MissingUmiCount`, and keeps some of the rows |
| CellFilters.RemoveCells | mosaiclineage/larry.py:813-834 | a success keeps some of the input rows |
| CellFilters.RemoveCellsFacts | mosaiclineage/larry.py:813-834 | a UMI cutoff without `umi_count` fails; a cap on an empty table fails; survivors are input rows meeting the cutoffs; cells and clones respect the caps in the result; no cutoff changes nothing |
| Dominant.MaxOf | mosaiclineage/larry.py:641 | the maximum bounds every entry and is one of them, 0 for none |
| Dominant.MaxSumBounds | mosaiclineage/larry.py:642 | the maximum is at most the sum, and the sum at most the maximum times the count |
| Dominant.SumAtMost | mosaiclineage/larry.py:642 | numbers each at most a bound add up to at most the bound times their number |
| Dominant.Entries | mosaiclineage/larry.py:631-635 | each row's cell, clone and read |
| Dominant.Clones | mosaiclineage/larry.py:631-635 | exactly the clones seen in a cell |
| Dominant.Annotated | mosaiclineage/larry.py:658-660 | every row annotated, in input order |
| Dominant.CellMaxFacts | mosaiclineage/larry.py:638-645 | the cell maximum bounds every group of the cell and is attained |
| Dominant.DominantIff | mosaiclineage/larry.py:650-652 | a row's group sum is its cell's maximum exactly when no group of the cell has more |
| Dominant.PickSound | mosaiclineage/larry.py:650-660 | every kept row is a dominant group's annotated row |
| Dominant.PickComplete | mosaiclineage/larry.py:650-660 | every dominant group's row is kept, ties included |
| Dominant.AnnotateFacts | mosaiclineage/larry.py:624-660 | a dominant row keeps the input columns, reads the cell's maximum, respects `max <= total <= max * groups`, and carries the clone length when asked |
| Dominant.Annotate | mosaiclineage/larry.py:624-660 | an annotated row keeps its columns, its group's reads are at most its cell's maximum, which is at most the cell's total, and the clone length is there exactly when asked for |
| Dominant.DominantSequencesFacts | mosaiclineage/larry.py:613-660 | exactly the annotated rows of the groups at their cell's maximum, ties all kept; with the length considered this is also the CARLIN variant (`carlinhf/CARLIN.py` lines 39-51) |
| Dominant.DominantSequences | mosaiclineage/larry.py:613-660 | no more rows than the input, each at its cell's maximum, within the cell's total, and with an input row's columns |
| Consensus.CountConcat | carlinhf/CARLIN.py:36 | counts add over a concatenation |
| Consensus.CountPermutation | carlinhf/CARLIN.py:36 | counting does not depend on order |
| Consensus.CountAll | carlinhf/CARLIN.py:36 | a condition every value meets counts all |
| Consensus.PrefixAtLeast | carlinhf/CARLIN.py:36 | a sorted prefix at least `m` is counted |
| Consensus.SuffixAtMost | carlinhf/CARLIN.py:36 | a sorted suffix at most `m` is counted |
| Consensus.MiddleFacts | carlinhf/CARLIN.py:36 | in descending order the middle value splits the values into larger and smaller halves |
| Consensus.MedianBounds | carlinhf/CARLIN.py:36 | the median lies between the column's extremes, and a constant column has that value |
| Consensus.MiddleHalves | carlinhf/CARLIN.py:36 | at least half the values are at least, and at least half at most, the middle |
| Consensus.MedianHalves | carlinhf/CARLIN.py:36 | at least half of a column is at least, and at least half at most, its median |
| Consensus.Median | carlinhf/CARLIN.py:36 | the median is between two values of the column |
| Consensus.Column | carlinhf/CARLIN.py:35-36 | column `k` of the stacked sequences |
| Consensus.ConsensusFacts | carlinhf/CARLIN.py:34-36 | defined exactly for a non-empty list of one length; each byte is its column's median, within the column's range; agreeing columns and copies of one sequence are kept |
| Consensus.ConsensusSequence | carlinhf/CARLIN.py:34-36 | defined exactly for a non-empty list of one length, and then as long as the sequences |
| ReadCutoff.Counts | mosaiclineage/larry.py:718 | the cell counts in table order |
| ReadCutoff.EstimateReadCutoff | mosaiclineage/larry.py:716-731 | the cutoff just after the first jump of the table sorted by cutoff, 3 when there is none; always a table cutoff or 3 |
| ReadCutoff.SortedCutoffIn | mosaiclineage/larry.py:717-725 | every cutoff of the sorted table is a cutoff of the table |
| ReadCutoff.KneeUnique | mosaiclineage/larry.py:721-727 | the first jump is unique |

## Left out

- **I/O and reporting.** Reading gzip and FASTQ files, CSV caching and the
  `recompute` test, UTF-8 decoding, `print`, `tqdm` progress bars and all
  plots: the models take the decoded lines or sequences as inputs.
- **UMI_tools.** The directional clusterer is an external library. It is the
  parameter `cluster`, and its cluster list is taken as given.
- **pairwise2.** The global alignment score is an external library. The
  distance `max_length - mean score` is the parameter `align`.
- **`distance_threshold=None`.** Thresholds are integers. The `None` default
  is not modelled: UMI_tools would replace it with a tenth of the first
  sequence's length, and the Hamming and alignment comparisons with `None`
  would raise.
- **pandas and numpy mechanics.** Data frames, indexes, chained assignment
  and dtype conversions become sequences of rows, with new column values.
  The `bytes` conversion of the denoiser keeps ASCII strings as they are;
  its fixed width, which matters only in whitelist mode, is modelled
  (`Denoise.Width`, `Denoise.Fit`, `Denoise.NanMarker`). Non-ASCII input,
  on which the conversion raises, is not modelled.
- **`dropna`.** The model drops the rows whose corrected target is the
  string "nan", and the rows below the cutoff. Rows with
  other missing values do not arise in the model, because it has no missing
  values apart from the target marker.
- Clonal.DenoiseClonalData: `plot_report` is taken as False, so the
  report's exceptions are not modelled: its `KeyError` when the target is
  not among the grouped columns (`mosaiclineage/larry.py:192`) and the
  ragged-list error of its distance histogram (`mosaiclineage/larry.py:203-205`).
  It takes `progress_bar` at its default. The
  progress report reads the target column, so a missing target column fails
  even in the per-partition mode. Partition values are visited in order of
  first occurrence, not in Python set order.
- Tables.GroupCellsFacts: output rows come in first-occurrence order of
  their keys, where pandas sorts the keys. The counting option `count_UMI`
  is the parameter `countUmi`.
- CellFilters.ClonalBcPerCellFacts: cells are listed in order of first
  occurrence, not the sorted order of the pandas group-by. The same holds
  for CellFilters.CloneSizeFacts and clones.
- Distance.SequenceDistance: de-duplication keeps the order of first
  occurrence, not Python's set order, so rows and columns of the matrix may
  be permuted relative to the source. The matrix holds integers where the
  source uses floats.
- Dominant.AnnotateFacts: `max_read_ratio` is carried as the pair of its
  numerator and denominator, not as a float.
- Dominant.DominantSequencesFacts: the source adds a `seq_length` (or
  `CARLIN_length`) column to the caller's own table as a side effect. This
  is not modelled.
- Consensus.ConsensusFacts: it works on the byte values. The UTF-8
  decoding of the median bytes is not modelled. An empty list is modelled as
  a failure, where numpy gives the median of nothing.
- ReadCutoff.EstimateReadCutoff: cell counts are natural numbers and
  cutoffs are integers, rather than pandas floats.
- Ranking.SortDesc: which of two equal-read sequences ranks first is the
  model's choice (a stable insertion sort), where pandas uses an unstable
  sort. The greedy mapping itself depends on this choice. The properties
  proved about it hold for every descending order.
- **Reference sequences.** `CC_CARLIN`, `TC_CARLIN` and `RC_CARLIN` are
  selected in `CARLIN_preprocessing` but never used, so they are not part of
  this model.
- **`CARLIN_analysis`.** It refers to a `df_dominant_fraction` it never
  defines, so it cannot complete. It is left out, apart from
  `obtain_read_dominant_sequences` and `consensus_sequence`, which it calls.
- **The other larry.py helpers.** These are not part of this model:
  - `QC_unique_cells`, `QC_read_coverage`, `QC_read_per_molecule` and
    `QC_clonal_reports`: plots and reports;
  - `rename_library_info`;
  - `extract_putative_valid_cell_id`;
  - `calculate_read_fraction_per_clone_cell`.
- **Monotonicity in the threshold.** Fewer or equal clusters for a larger
  threshold is not claimed. The code does not promise it for its greedy
  loop.
