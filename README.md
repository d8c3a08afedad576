# Gap shortening and gene filtering, modelled in Dafny

This project models two parts of a transcript-plotting library.

**Gap shortening** (`shorten_gaps` in `src/plotly_ggtranscript/shorten_gaps.py`)
takes an exon table and an intron table and produces coordinates for a compact
plot. Long stretches of DNA that no exon covers are squeezed down to a target
width. The pipeline, and the module that models each stage:

- **Pipeline.GetType** fills in the `type` column, or checks it for introns.
- **Pipeline.Shrink** pulls each intron in by one position at each end.
- **Gaps.GetGaps** merges the exons, sorted by start, into blocks with a sweep, then lists the uncovered gaps between consecutive blocks.
- **GapMap.GetGapMap** classifies every (gap, row) pair in a double loop. It is an `equal` hit when the bounds are identical and a `within` hit when the row contains the gap.
- **Shorten.GetShortenedGaps** works out each row's shortened width. A row equal to a gap is capped at the target width. A row containing gaps loses, for each contained gap, the amount by which that gap exceeds the target.
- **TxStart.TxStartGaps** builds, when a grouping column is given, one synthetic "transcript-start gap" per group. It runs from the leftmost exon start to the group's own first exon start, and is shortened the same way.
- **Rescale.Rescaled** sorts the exons and shortened introns, lays them end to end with a running sum of widths (per group when grouping), shifts each group by the width of its start gap (by 1 without grouping), and widens introns back by one position at each side.

Tables are sequences of records. Positions are `int`. Row labels are positions in their table. The single grouping column is a `string` field. A failed `assert` in the source becomes an `Err` value of `Tables.Error`.

**Gene filtering** (`gene_filtering` in `src/RNApysoforms/gene_filtering.py`):

- keeps the annotation rows of one gene;
- restricts the expression rows to that gene's transcripts;
- keeps only the transcripts both tables share;
- when ordering is requested, ranks transcripts by total expression, keeps the top N (or all) and orders both tables by total, highest first.

The three `ValueError`s become `GeneFiltering.FilterError` values.

The model follows the code as written, including these behaviours:

- `_get_type` compares each `type` value with `"intron"`, so a missing value fails the check too.
- `shortened_width` replaces `width` only inside the branch of line 219, i.e. only when the table has at least one `pure_within` hit. When there are none, the uncapped `width` column reaches the rescaling, and the capping of `equal` rows is lost. `Shorten.EqualCapLostAsWritten` shows a concrete table where this happens.
- `pure_within` is assigned after `equal` (lines 205-209), so it overwrites it (`Shorten.Tag`). Over non-empty, ascending gaps a row never has both kinds of hit (`Shorten.EqualRowContainsNoGap`). `_get_gaps` gives such gaps when every exon has start <= end (`Gaps.GetGaps`), and then the overwrite never matters. An exon with start > end can break this. The exons [1,2], [10,5], [10,12] give the gaps [3,9] and [6,9]. A row [3,9] equals the first gap and contains the second, so it ends up tagged `pure_within`.
- An empty exon table fails the `nunique() == 1` assertion of line 92 before `iloc[0]` at line 99 is reached. It is therefore an `Err(MixedContext)` result, not a precondition.
- The start gap of the group holding the leftmost exon has `start == end`, so its width is 1, the same as the ungrouped offset.
- The inner merge of line 304 drops every row whose group has no exon.

## Model

| member | source | states |
|---|---|---|
| Pipeline.GetType | src/plotly_ggtranscript/shorten_gaps.py:66-75 | fails exactly when an intron table has a `type` column with some value other than "intron"; otherwise adds the column with the table's label when it is missing and keeps every other field; on success every intron row has type "intron" |
| Pipeline.HasRequiredEach | src/plotly_ggtranscript/shorten_gaps.py:29-31 | a table has the required columns exactly when each of start, end, strand and seqnames is among its columns |
| Pipeline.Shrink | src/plotly_ggtranscript/shorten_gaps.py:38-40 | each intron keeps all fields but start+1 and end-1, so its width drops by exactly 2 |
| Pipeline.ShortenAgainst | src/plotly_ggtranscript/shorten_gaps.py:192-264 | shortening keeps each candidate row; its `width` is the shortened width when the table has a `pure_within` hit and the true width otherwise |
| Pipeline.Assemble | src/plotly_ggtranscript/shorten_gaps.py:49-62 | the output has at most one row per exon and intron, and exactly one per input row without grouping |
| Pipeline.ShortenGaps | src/plotly_ggtranscript/shorten_gaps.py:29-64 | fails with MissingColumns exactly when a table lacks a required column, with BadIntronType exactly when the intron typing fails, with MixedContext exactly when the exons are empty or span several seqnames/strands; otherwise returns the assembly of the typed exons and shrunk introns against a gap set of the exons |
| Pipeline.ShortenedGroups | src/plotly_ggtranscript/shorten_gaps.py:197-216 | a shortened table holds a row of group g exactly when its input does |
| Pipeline.StartGapIffExonGroup | src/plotly_ggtranscript/shorten_gaps.py:144-153 | with grouping, a group receives a start-gap offset exactly when it has an exon |
| Pipeline.LeftmostGroupOffsetOne | src/plotly_ggtranscript/shorten_gaps.py:144-149 | the group of the leftmost exon is shifted by exactly 1, as every row is without grouping |
| Pipeline.StartGapWidthOne | src/plotly_ggtranscript/shorten_gaps.py:144-149 | the leftmost group's start gap keeps width 1 after shortening, since no gap touches a covered position |
| Gaps.SortByStart | src/plotly_ggtranscript/shorten_gaps.py:96 | the sorted exons are a permutation of the input, ordered by start |
| Gaps.SingleContextNunique | src/plotly_ggtranscript/shorten_gaps.py:92 | the single-context test holds exactly when the exons have one distinct seqnames and one distinct strand, so an empty table fails it |
| Gaps.GetGaps | src/plotly_ggtranscript/shorten_gaps.py:92-125 | fails exactly when the exons are empty or not all on one seqnames and strand; otherwise every gap is non-empty and, for well-formed exons, the gaps are ascending and disjoint, avoid every exon position, contain every uncovered position between two covered ones (so adjacent exons yield no gap), and are flanked by covered positions |
| Gaps.SweepInit | src/plotly_ggtranscript/shorten_gaps.py:99-100 | the sweep starts with the first exon as the open block |
| Gaps.SweepClose | src/plotly_ggtranscript/shorten_gaps.py:104-109 | an exon starting after the open block closes it and opens a new one, keeping the blocks separated and their union equal to the exons seen |
| Gaps.SweepExtend | src/plotly_ggtranscript/shorten_gaps.py:110-112 | an overlapping or touching exon extends the open block to the larger end, keeping the union equal to the exons seen |
| Gaps.SweepDone | src/plotly_ggtranscript/shorten_gaps.py:115 | the merged blocks are separated and cover exactly the positions the exons cover |
| Gaps.GapsBetween | src/plotly_ggtranscript/shorten_gaps.py:118-123 | the emitted gaps are non-empty; for valid blocks they are ascending, avoid every block, are flanked by blocks and contain every position between the first block's start and the last block's end that no block holds |
| Gaps.GapsOfBlocks | src/plotly_ggtranscript/shorten_gaps.py:117-125 | the holes between the merged blocks form a gap set of the original exons |
| GapMap.GetGapMap | src/plotly_ggtranscript/shorten_gaps.py:171-190 | the two loops build exactly the gap-major lists of `equal` and `within` hits |
| GapMap.ScanRows | src/plotly_ggtranscript/shorten_gaps.py:175-181 | the inner loop appends, to each running list, exactly one gap's row scan for that relation |
| GapMap.ScanStep | src/plotly_ggtranscript/shorten_gaps.py:176-181 | one pair extends the running list by its hit when it stands in the relation, and leaves it unchanged otherwise |
| GapMap.RowScanOrdered | src/plotly_ggtranscript/shorten_gaps.py:175-181 | one gap's row scan names only that gap, rows below j, in increasing row order |
| GapMap.GapScanOrdered | src/plotly_ggtranscript/shorten_gaps.py:174-181 | the scan of the first i gaps is in gap-major order and names only gaps below i and existing rows |
| GapMap.HitsOrdered | src/plotly_ggtranscript/shorten_gaps.py:171-181 | the hit lists are in gap-major, then row, order with no repeated pair, and name only existing gaps and rows |
| GapMap.Difference | src/plotly_ggtranscript/shorten_gaps.py:187 | the filtered list is no longer than the list it filters |
| GapMap.DifferenceMembers | src/plotly_ggtranscript/shorten_gaps.py:187 | a hit survives the filter exactly when it is a `within` hit that is not an `equal` hit |
| GapMap.RowScanMembers | src/plotly_ggtranscript/shorten_gaps.py:175-181 | a pair is in one gap's row scan iff it names that gap, a scanned row and the relation holds |
| GapMap.GapScanMembers | src/plotly_ggtranscript/shorten_gaps.py:174-181 | a pair is in the scan of the first i gaps iff its gap is below i and the relation holds |
| GapMap.HitsMembers | src/plotly_ggtranscript/shorten_gaps.py:176-181 | a pair is an `equal` hit iff gap and row have identical bounds, and a `within` hit iff the row contains the gap without being equal to it |
| GapMap.EqualWithinDisjoint | src/plotly_ggtranscript/shorten_gaps.py:176-181 | no pair is both an `equal` and a `within` hit |
| GapMap.PureWithinIsWithin | src/plotly_ggtranscript/shorten_gaps.py:187 | removing the `equal` pairs from the `within` hits removes nothing |
| Shorten.Cap | src/plotly_ggtranscript/shorten_gaps.py:212-216 | the capped width is the smaller of the width and the target |
| Shorten.Reduction | src/plotly_ggtranscript/shorten_gaps.py:232-239 | a gap's reduction is non-negative and zero exactly when the gap is no wider than the target |
| Shorten.SumReduction | src/plotly_ggtranscript/shorten_gaps.py:243 | the per-row sum of reductions is non-negative and zero for a row with no hit |
| Shorten.Tag | src/plotly_ggtranscript/shorten_gaps.py:200-209 | a row is tagged `pure_within` iff it has a `pure_within` hit, `equal` iff it has an `equal` hit and no `pure_within` hit, and untouched iff it has neither |
| Shorten.CappedWidth | src/plotly_ggtranscript/shorten_gaps.py:212-216 | the capped width never exceeds the width; an `equal` row gets at most the target, either its width or the target; any other row keeps its width |
| Shorten.ShortenedWidth | src/plotly_ggtranscript/shorten_gaps.py:212-256 | the shortened width never exceeds the width; a row with only `equal` hits gets the capped width; a row with no hit keeps its width |
| Shorten.ShortenSpec | src/plotly_ggtranscript/shorten_gaps.py:219-264 | one output row per input row, carrying that row and a width at most its true width; with `pure_within` hits the bookkeeping columns are dropped and a row with no such hit gets its capped width; without them `width` stays the true width and the bookkeeping holds the tag and the capped width |
| Shorten.ReductionSums | src/plotly_ggtranscript/shorten_gaps.py:226-249 | the loop yields, for each row, the sum of the reductions of its `pure_within` gaps when it has one, and nothing otherwise |
| Shorten.GetShortenedGaps | src/plotly_ggtranscript/shorten_gaps.py:192-264 | the column assignments produce, for every row, its shortened width as `width` when some `pure_within` hit exists, and otherwise its true width together with its type and shortened width |
| Shorten.HitsInRange | src/plotly_ggtranscript/shorten_gaps.py:174-181 | every hit names an existing gap |
| Shorten.HitsRowIff | src/plotly_ggtranscript/shorten_gaps.py:203-209 | a row is tagged by a hit list iff some gap stands in that relation to it |
| Shorten.SumReductionAppend | src/plotly_ggtranscript/shorten_gaps.py:243 | the per-row sum over two concatenated hit lists is the sum of the two sums |
| Shorten.RowScanReduction | src/plotly_ggtranscript/shorten_gaps.py:175-181 | the per-row sum over one gap's scan is that gap's reduction if the row contains it, else 0 |
| Shorten.GapScanReduction | src/plotly_ggtranscript/shorten_gaps.py:174-181 | the per-row sum over the scan of the first n gaps is the reduction of those gaps the row contains |
| Shorten.PureReductionIsContainedSum | src/plotly_ggtranscript/shorten_gaps.py:226-243 | a row's summed reduction is the sum of the reductions of exactly the gaps it strictly contains |
| Shorten.ContainedReduction | src/plotly_ggtranscript/shorten_gaps.py:226-243 | the reference sum of contained reductions is non-negative |
| Shorten.ShortenedWidthOfRow | src/plotly_ggtranscript/shorten_gaps.py:198-256 | against the gap map, a row's shortened width is its width minus its contained reductions if it contains a gap, else the capped width if it equals a gap, else its width |
| Shorten.LastEnd | src/plotly_ggtranscript/shorten_gaps.py:225-243 | the end of the last gap the row strictly contains, which lies inside the row, or the position before the row when it contains none |
| Shorten.LastEndBefore | src/plotly_ggtranscript/shorten_gaps.py:225-243 | over ascending gaps, every later gap the row contains starts after that last end |
| Shorten.ContainedReductionBound | src/plotly_ggtranscript/shorten_gaps.py:232-243 | with a target of at least 1, the summed reduction of the contained gaps is less than the stretch of the row up to the last contained gap |
| Shorten.ShortenedWidthPositive | src/plotly_ggtranscript/shorten_gaps.py:212-256 | over the gaps `_get_gaps` produces and a target of at least 1, a row of positive width ends with `0 < shortened_width <= width` |
| Shorten.EqualRowContainsNoGap | src/plotly_ggtranscript/shorten_gaps.py:205-209 | over disjoint non-empty gaps, a row equal to a gap contains no gap, so the overwrite order never matters |
| Shorten.CoveredRowUntouched | src/plotly_ggtranscript/shorten_gaps.py:174-181 | a row all of whose positions are exon positions neither equals nor contains a gap |
| Shorten.CoveredStartNotEqual | src/plotly_ggtranscript/shorten_gaps.py:176 | a row starting on an exon position equals no gap |
| Shorten.EqualCapLostAsWritten | src/plotly_ggtranscript/shorten_gaps.py:219-261 | a 90-wide intron equal to a gap, with target 10 and no `within` hit, keeps width 90; its capped width 10 is only carried alongside |
| TxStart.MinStart | src/plotly_ggtranscript/shorten_gaps.py:145 | the minimum start is at most every start and is attained |
| TxStart.TxStartGaps | src/plotly_ggtranscript/shorten_gaps.py:144-153 | one start gap per distinct group |
| TxStart.GroupRowsNonEmpty | src/plotly_ggtranscript/shorten_gaps.py:144 | each group key has at least one exon |
| TxStart.GroupRowsMembers | src/plotly_ggtranscript/shorten_gaps.py:144 | the rows of a group are exactly the exons with that group key |
| TxStart.TxStartGapAt | src/plotly_ggtranscript/shorten_gaps.py:144-151 | the i-th start gap belongs to the i-th group key, which has an exon, and runs from the overall minimum start to that group's minimum start on the first exon's seqnames and strand |
| TxStart.TxStartGapsKeys | src/plotly_ggtranscript/shorten_gaps.py:144 | the start gaps hold each exon group exactly once and no other group |
| TxStart.TxStartGapSpan | src/plotly_ggtranscript/shorten_gaps.py:144-151 | a start gap runs from the overall minimum exon start to its group's minimum exon start, on the first exon's seqnames and strand |
| TxStart.LeftmostGroupWidthOne | src/plotly_ggtranscript/shorten_gaps.py:145-149 | the group of the leftmost exon has a start gap of width 1 |
| Rescale.ExonPieces | src/plotly_ggtranscript/shorten_gaps.py:288-289 | each exon enters the layout with its true width |
| Rescale.IntronPieces | src/plotly_ggtranscript/shorten_gaps.py:292 | each intron enters the layout with the `width` column of the shortened table |
| Rescale.OrderTotalPreorder | src/plotly_ggtranscript/shorten_gaps.py:294 | the sort keys form a total preorder |
| Rescale.Arranged | src/plotly_ggtranscript/shorten_gaps.py:292-294 | the concatenation of exons and introns is permuted into (group,) start, end order |
| Rescale.Layout | src/plotly_ggtranscript/shorten_gaps.py:297 | each row's end is the running width total of its key up to and including it |
| Rescale.LayoutSnoc | src/plotly_ggtranscript/shorten_gaps.py:297 | the layout of a table extended by one row is the old layout plus that row at its running end |
| Rescale.CumEndLast | src/plotly_ggtranscript/shorten_gaps.py:297 | an appended row ends at the total width of its key over the earlier rows plus its own width |
| Rescale.Contiguous | src/plotly_ggtranscript/shorten_gaps.py:297-298 | consecutive rows of one key are laid edge to edge |
| Rescale.KeysConsecutive | src/plotly_ggtranscript/shorten_gaps.py:294 | after the sort, the rows of one key are consecutive |
| Rescale.KeySumStable | src/plotly_ggtranscript/shorten_gaps.py:297 | rows of other keys do not change a key's running total |
| Rescale.FirstOfKey | src/plotly_ggtranscript/shorten_gaps.py:297-298 | the first row of each key starts at 1 before the shift |
| Rescale.LastOfKey | src/plotly_ggtranscript/shorten_gaps.py:297 | the last row of each key ends at the key's total width |
| Rescale.KeySumAppend | src/plotly_ggtranscript/shorten_gaps.py:292 | a key's total over concatenated tables is the sum of the totals |
| Rescale.KeySumPermutation | src/plotly_ggtranscript/shorten_gaps.py:294 | sorting does not change a key's total width |
| Rescale.KeyTotal | src/plotly_ggtranscript/shorten_gaps.py:292-297 | a key's total width is its exons' widths plus its introns' widths |
| Rescale.Offset | src/plotly_ggtranscript/shorten_gaps.py:300-304 | the shift is 1 without grouping; with grouping it exists iff the group has a start gap and is that gap's width |
| Rescale.FirstWidth | src/plotly_ggtranscript/shorten_gaps.py:304 | the merge finds a start gap for g iff one has group g, and takes its width |
| Rescale.Place | src/plotly_ggtranscript/shorten_gaps.py:307-317 | a placed row keeps seqnames, strand, type and group, ends at its running end plus the shift, and spans its width, widened by 1 on each side for an intron |
| Rescale.Rescaled | src/plotly_ggtranscript/shorten_gaps.py:266-323 | the result has at most one row per exon and intron |
| Rescale.JoinedMembers | src/plotly_ggtranscript/shorten_gaps.py:304 | a laid-out row survives the merge iff its group has a start gap |
| Rescale.JoinedPiece | src/plotly_ggtranscript/shorten_gaps.py:304 | every surviving row comes from the sorted table and has a start gap |
| Rescale.Joined | src/plotly_ggtranscript/shorten_gaps.py:304 | the merge keeps at most every laid-out row, and every row it keeps has a start gap for its group |
| Rescale.KeptPieces | src/plotly_ggtranscript/shorten_gaps.py:304 | the pieces of groups with a start gap, with their multiplicities, and only those |
| Rescale.KeptSnoc | src/plotly_ggtranscript/shorten_gaps.py:304 | extending the table by a kept piece extends the kept pieces by it; a dropped piece leaves them unchanged |
| Rescale.KeptKeySum | src/plotly_ggtranscript/shorten_gaps.py:297-304 | for a group with a start gap, dropping the other groups does not change the group's total width |
| Rescale.KeptEnd | src/plotly_ggtranscript/shorten_gaps.py:297-304 | a kept piece ends at the same running total whether or not the dropped groups are present |
| Rescale.JoinedSnocKept | src/plotly_ggtranscript/shorten_gaps.py:297-304 | appending a kept piece appends its laid-out row to the merge result |
| Rescale.JoinedSnocDropped | src/plotly_ggtranscript/shorten_gaps.py:297-304 | appending a piece whose group has no start gap leaves the merge result unchanged |
| Rescale.JoinedIsLayoutOfKept | src/plotly_ggtranscript/shorten_gaps.py:294-304 | with grouping the merge keeps or drops whole groups: its result is the layout of the kept pieces |
| Rescale.FilterSorted | src/plotly_ggtranscript/shorten_gaps.py:294-304 | removing rows from a sorted table keeps it sorted |
| Rescale.RescaledGrouped | src/plotly_ggtranscript/shorten_gaps.py:292-317 | with grouping the output is, row by row, the kept pieces in sort order, each placed at its own running end plus its group's start-gap width |
| Rescale.GroupedContiguous | src/plotly_ggtranscript/shorten_gaps.py:297-314 | with grouping two neighbouring output rows of one group are edge to edge: the later one's core starts right after the earlier one's core ends |
| Rescale.GroupedFirst | src/plotly_ggtranscript/shorten_gaps.py:297-314 | with grouping the first output row of a group has a start gap, and its core starts one past the start-gap width |
| Rescale.GroupedLast | src/plotly_ggtranscript/shorten_gaps.py:292-314 | with grouping the last output row of a group ends at the group's exon widths plus its intron widths plus the start-gap width |
| Rescale.RescaledAt | src/plotly_ggtranscript/shorten_gaps.py:304-317 | output row i is the i-th merged row, placed by its group's offset |
| Rescale.ArrangedMembers | src/plotly_ggtranscript/shorten_gaps.py:292-294 | the sorted table holds exactly the exon and intron pieces |
| Rescale.JoinedHasPiece | src/plotly_ggtranscript/shorten_gaps.py:304 | every piece whose group has a start gap survives the merge |
| Rescale.PlaceComes | src/plotly_ggtranscript/shorten_gaps.py:307-317 | a placed row keeps its piece's group, type, seqnames and strand, and its width |
| Rescale.CoreOfPlace | src/plotly_ggtranscript/shorten_gaps.py:307-314 | before intron widening a placed row ends at its running end plus the offset and spans its width |
| Rescale.UngroupedKeepsAll | src/plotly_ggtranscript/shorten_gaps.py:300-301 | without grouping every row survives, in sort order, shifted by 1 |
| Rescale.UngroupedContiguous | src/plotly_ggtranscript/shorten_gaps.py:296-301 | without grouping, each output row starts one past the end of the row before it |
| Rescale.UngroupedLast | src/plotly_ggtranscript/shorten_gaps.py:292-301 | without grouping, the last output row ends at the total width of all exons and introns, plus 1 |
| Rescale.RescaledRowOrigin | src/plotly_ggtranscript/shorten_gaps.py:304-317 | every output row comes from an input exon or intron whose group has a start gap, keeping its group, type, seqnames and strand and spanning its width (plus 2 for an intron) |
| Rescale.RescaledRowForPiece | src/plotly_ggtranscript/shorten_gaps.py:292-317 | every input exon or intron whose group has a start gap gives rise to some output row |
| Sorting.Sort | src/plotly_ggtranscript/shorten_gaps.py:294 | a sort returns a permutation of its input |
| Sorting.SortSorted | src/plotly_ggtranscript/shorten_gaps.py:294 | under a total preorder the sort's result is ordered |
| GeneFiltering.GeneRows | src/RNApysoforms/gene_filtering.py:129 | exactly the annotation rows of the target gene, with their multiplicities |
| GeneFiltering.GeneRowsEmpty | src/RNApysoforms/gene_filtering.py:129-133 | the gene has no annotation row exactly when no row names it |
| GeneFiltering.KeepExpression | src/RNApysoforms/gene_filtering.py:147-149 | exactly the expression rows whose transcript is in the given set, with their multiplicities |
| GeneFiltering.KeepAnnotation | src/RNApysoforms/gene_filtering.py:186-188 | exactly the annotation rows whose transcript is in the given set; their transcripts are the intersection |
| GeneFiltering.TotalKeep | src/RNApysoforms/gene_filtering.py:189-196 | filtering on a set containing t does not change t's total expression |
| GeneFiltering.TotalAbsent | src/RNApysoforms/gene_filtering.py:195-197 | a transcript with no expression row has total expression 0 |
| GeneFiltering.Aggregate | src/RNApysoforms/gene_filtering.py:195-197 | one entry per transcript of the table, holding its total expression |
| GeneFiltering.SortedTotals | src/RNApysoforms/gene_filtering.py:195-200 | the totals, each transcript once, ordered by total, highest first |
| GeneFiltering.SortedTotalsCount | src/RNApysoforms/gene_filtering.py:195-200 | the ranking has one entry per transcript |
| GeneFiltering.Keep | src/RNApysoforms/gene_filtering.py:203-220 | fails exactly for a value that is neither "all" nor a positive integer; a positive n below the count keeps the first n; otherwise keeps all |
| GeneFiltering.OrderAnnotation | src/RNApysoforms/gene_filtering.py:231-235 | a permutation of the annotation ordered by total expression, highest first |
| GeneFiltering.OrderExpression | src/RNApysoforms/gene_filtering.py:237-241 | a permutation of the expression rows ordered by total expression, highest first |
| GeneFiltering.Reconcile | src/RNApysoforms/gene_filtering.py:159-191 | both tables keep exactly their rows whose transcript is in the other table; both transcript sets become the intersection |
| GeneFiltering.PermutationTranscripts | src/RNApysoforms/gene_filtering.py:231-241 | reordering a table keeps its rows and transcript set |
| GeneFiltering.Ranking | src/RNApysoforms/gene_filtering.py:193-241 | fails exactly for a bad keep value; otherwise both tables keep just the selected transcripts, every row of those transcripts, and are ordered by total, highest first |
| GeneFiltering.Select | src/RNApysoforms/gene_filtering.py:186-188 | for a chosen transcript set inside both tables, both keep exactly those transcripts' rows, with their multiplicities, ordered by total expression, highest first |
| GeneFiltering.GeneFilter | src/RNApysoforms/gene_filtering.py:126-247 | NoAnnotation iff the gene has no row, EmptyExpression iff no expression row matches its transcripts, BadKeepTop iff ordering with a bad keep value; the annotation alone iff no expression table; otherwise both tables from the inputs with equal transcript sets inside the common ones |
| GeneFiltering.WithExpression | src/RNApysoforms/gene_filtering.py:139-241 | given the gene's rows, EmptyExpression iff no expression row shares a transcript with them, BadKeepTop iff some do, ordering is on and the keep value is bad; otherwise both tables hold the same transcripts, a subset of the shared ones |
| GeneFiltering.KeepAllExpression | src/RNApysoforms/gene_filtering.py:189-191 | keeping every transcript of a table keeps every row |
| GeneFiltering.ReconcileKeepsExpression | src/RNApysoforms/gene_filtering.py:185-191 | after the expression filter, reconciliation keeps every expression row |
| GeneFiltering.TopNames | src/RNApysoforms/gene_filtering.py:205-206 | the first n entries of the ranking name n distinct transcripts, none with a lower total than a transcript left out |
| GeneFiltering.TopAbove | src/RNApysoforms/gene_filtering.py:200-206 | every kept transcript's total is at least every dropped one's |
| GeneFiltering.TopNKept | src/RNApysoforms/gene_filtering.py:203-228 | with 0 < n below the transcript count, exactly n transcripts remain in both tables, and none dropped has a higher total than one kept |
| GeneFiltering.KeepAllNames | src/RNApysoforms/gene_filtering.py:207-216 | "all", or a count at least the transcript count, selects every transcript |
| GeneFiltering.KeepEverything | src/RNApysoforms/gene_filtering.py:207-228 | when every transcript is selected, both tables keep all their rows |
| GeneFiltering.OrderedByTotal | src/RNApysoforms/gene_filtering.py:230-241 | with ordering, both outputs are ordered by total expression over the input matrix, highest first |
| GeneFiltering.Reconciled | src/RNApysoforms/gene_filtering.py:129-191 | the reconciled tables are both present |
| GeneFiltering.ReconciledRows | src/RNApysoforms/gene_filtering.py:185-191 | the reconciled tables hold every gene row of an expressed transcript and every expression row of a gene transcript, with their multiplicities, and no other row; both transcript sets are the common transcripts |
| GeneFiltering.ReconciledTotal | src/RNApysoforms/gene_filtering.py:189-197 | on a common transcript the reconciled expression has the same total as the input matrix |
| GeneFiltering.GeneFilterReaches | src/RNApysoforms/gene_filtering.py:126-241 | with some common transcript, `gene_filtering` returns the reconciled tables without ordering, and the ranking of them with ordering |
| GeneFiltering.GeneFilterUnordered | src/RNApysoforms/gene_filtering.py:185-191 | with some common transcript and no ordering, the result holds exactly the common rows |
| GeneFiltering.GeneFilterAll | src/RNApysoforms/gene_filtering.py:203-228 | with ordering and "all", or a count at least the number of common transcripts, the result holds exactly the common rows |
| GeneFiltering.GeneFilterTopN | src/RNApysoforms/gene_filtering.py:193-228 | with ordering and 0 < n below the number of common transcripts, both tables hold the same n common transcripts, none with a lower input total than one dropped, with all their gene and expression rows |

## Left out

- Type checks (`TypeError`, src/RNApysoforms/gene_filtering.py:119-123, 137-141): the records are typed by construction.
- `check_df` (src/RNApysoforms/gene_filtering.py:126, 144) is not part of this model. Its records always carry the gene, transcript and expression fields, so a missing column cannot occur.
- Warnings (src/RNApysoforms/gene_filtering.py:169-182, 210-213): they do not affect the result.
- Column names: the gene, transcript and expression columns are fixed record fields, not parameters. Columns other than these are carried as one opaque `rest` field.
- Expression values are integers. Floating-point totals and their rounding are not modelled.
- Two values of `keep_top_expressed_transcripts` are not modelled: a boolean, which Python counts as an integer, and any value that is neither a string nor an integer.
- Multi-column `group_var`, the falsy empty-string `group_var`, a missing group column and missing group keys: grouping is a boolean plus one `string` field on every row.
- Columns beyond positions, strand, seqnames, type and group are not modelled. This covers the columns passed through, the drop of line 57, the `shorten_type`/`shortened_width` columns reaching the output, the `_tx_start` suffixes of the merge, and the column reorder of lines 320-321. Only the width each row brings and `width_tx_start` are modelled.
- Index labels: rows are identified by their position. The gap-map tagging of lines 205, 209 and 249 uses the `df_index` labels with `isin` and `loc`. `introns.copy()` (line 38) keeps the caller's index, so the model is exact when its labels are unique, as a default index is. Duplicate labels would tag every row that shares a label with a hit row, and this is not modelled.
- Floating-point columns: at lines 246-256 a row without a `pure_within` hit gets NaN as its summed reduction, which makes pandas store the shortened widths, and so the rescaled coordinates, as floats. The model keeps every width and coordinate an integer and does not model that dtype change.
- Tie order of the sorts: pandas' default sort and Polars' sorts do not promise an order for equal keys. The model uses a stable insertion sort. Every contract about sorted output holds for any order that respects the keys, except these. `Rescale.Layout`, `Rescale.RescaledGrouped` and `Rescale.UngroupedKeepsAll` fix one order among equal keys. `GeneFiltering.Ranking` depends on it as well: it names the kept transcripts as the first N of `SortedTotals`, and when totals tie at the cut-off the sort order decides which of them those are. `GeneFiltering.TopNKept` states the selection in a form that holds for any tie order.
- Group key order: `groupby` sorts its keys, but the model lists them in first-occurrence order. Nothing downstream depends on that order, because each group is looked up by key.
- Output order of the merge (line 304) is modelled as the layout order, with the non-matching rows removed.
- Pipeline.ShortenGaps: on success it states the result for some gap set of the exons rather than naming it; `Gaps.GetGaps` characterises that set, and for well-formed exons its properties pin it down.
- Rescale.Rescaled: its own contract gives only the row count. The rows themselves are stated by `RescaledAt`, `RescaledGrouped`, `UngroupedKeepsAll`, `GroupedContiguous`, `GroupedFirst`, `GroupedLast`, `RescaledRowOrigin` and `RescaledRowForPiece`.
- Pipeline.Assemble: its own contract gives only row counts. The rows it returns are those of `Rescale.Rescaled`, which the lemmas above describe.
- GeneFilter: its own contract gives the error cases and bounds the tables by the common transcripts. The exact tables are stated by `GeneFilterReaches`, `GeneFilterUnordered`, `GeneFilterAll` and `GeneFilterTopN`, together with `ReconciledRows`.
- WithExpression: its own contract gives the error cases and bounds the tables by the shared transcripts. The exact tables are stated through `GeneFilter` by `GeneFilterReaches`, `GeneFilterUnordered`, `GeneFilterAll` and `GeneFilterTopN`.
- Shorten.ShortenedWidthPositive: it requires a row of positive width. An intron whose original width is at most 2 has width at most 0 after the trim of lines 38-39, and then `0 < shortened_width` fails in the source as well.
