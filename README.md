# Variant-record merge and hard-filter pass

This project models two parts of a variant-calling toolkit and proves properties about them.

**The merge tool (`MungeVcfs`).** It reads several variant files that are each sorted by locus. Its header pass fixes the contig order, the sequence dictionary and the sample registry. Its merge loop then emits one record per locus:

- it selects the buffered record that comes first under the locus comparator (contig rank, then start);
- it gathers every buffered record at that locus;
- for each registry sample it keeps the first genotype found in input order, or a diploid missing call when no input has one;
- it advances every input whose buffered record was at or before that locus.

**The filter pass (`FilterApplyingVariantIterator` and two filters).** The iterator wraps a record stream. On each record it runs the site filters and the genotype filters, writes the results into the record, and flags the site `AllGtsFiltered` once every sample has a genotype-filter list. Two filters are modelled:

- the depth filter, a per-genotype filter that flags `LowDP`;
- the allele-balance filter, a per-site filter that flags `AlleleBalance`.

Layout:

- `VcfModel.dfy`: the shared values. These are alleles, genotypes, records, the locus comparator, genotype typing (het, hom-ref, no-call) and sample-name lookups.
- `MungeVcfs.dfy`: the header pass, the selection and advance helpers, genotype reconciliation, the merge loop and the whole run.
  - Inputs are sequences of records. Each input has a read position.
  - The buffer is an `array` of optional records, with `None` as the exhausted marker.
  - The loop is proved against `MergeSteps`, the specification of its iterations.
- `FilterIterator.dfy`: the iterator as a class over a source sequence and a read position, plus its `next()` broken into its loops. Each loop is proved equal to a specification function.
- `DepthFilter.dfy`: the depth filter, as a value with one function.
- `AlleleBalanceFilter.dfy`: the allele-balance filter. Its counting loop is proved equal to a recursive tally, and its scan is proved to return exactly when some counter is unbalanced.

All source paths below are relative to the repository root.

## Model

| member | source | states |
|---|---|---|
| VcfModel.Compare | src/main/java/picard/vcf/MungeVcfs.java:201 | the record comparator orders by contig rank and then start; it returns 0 exactly at the same locus, and negative exactly when strictly earlier |
| VcfModel.MissingGenotype | src/main/java/picard/vcf/MungeVcfs.java:291 | the synthesised genotype is for the given sample, has two no-call alleles, and has no depths or filters |
| VcfModel.TypeOfCases | src/java/picard/vcf/filter/AlleleBalanceFilter.java:41 | the genotype type in terms of the allele list: unavailable when there are no alleles; no-call when all are no-calls; het when there is no no-call and two alleles differ; hom-ref when one repeated reference allele |
| VcfModel.HetHasTwoCalledAlleles | src/java/picard/vcf/filter/AlleleBalanceFilter.java:41-51 | a het genotype has at least two called alleles and is neither no-call nor hom-ref, so the reads of alleles 0 and 1 are defined |
| VcfModel.GenotypeOf | src/main/java/picard/vcf/MungeVcfs.java:282 | looking a sample up in a record yields one of its genotypes for that sample, and yields none exactly when no genotype names it |
| VcfModel.IndexOf | src/java/picard/vcf/filter/AlleleBalanceFilter.java:50-51 | the allele index is the first position holding the allele, or -1 exactly when the allele is absent |
| VcfModel.DistinctNamesCount | src/java/picard/vcf/filter/FilterApplyingVariantIterator.java:88 | a genotype list with distinct sample names has as many names as genotypes |
| MungeVcfs.SamplesOfIsUnion | src/main/java/picard/vcf/MungeVcfs.java:211-214 | the sample registry holds exactly the names some input header lists |
| MungeVcfs.ScanHeaders | src/main/java/picard/vcf/MungeVcfs.java:185-228 | the header pass fails with the missing-dictionary error exactly when the first file has no contig lines and no dictionary was given. It fails with the incompatibility error exactly at the first later file the first file's comparator rejects, and fails index creation exactly when an index is requested with no dictionary and no file. Otherwise it succeeds with the first file's contig order, the given or first file's dictionary, and the union of the sample names |
| MungeVcfs.InitialBuffer | src/main/java/picard/vcf/MungeVcfs.java:246-251 | corrected buffer: one slot per input, holding its first record or the exhausted marker exactly when it is empty |
| MungeVcfs.InitialBufferAsWritten | src/main/java/picard/vcf/MungeVcfs.java:246-251 | the buffer as filled: entries only for non-empty inputs, so it is no longer than the input list |
| MungeVcfs.InitialBufferAsWrittenAgrees | src/main/java/picard/vcf/MungeVcfs.java:246-251 | when no input is empty, the buffer as filled has one entry per input, holding the same record as the corrected buffer's slot |
| MungeVcfs.EmptyInputShiftsBuffer | src/main/java/picard/vcf/MungeVcfs.java:246-251 | with inputs `[[], [r]]` the buffer as filled has one entry, `r`, in the slot of the empty first input |
| MungeVcfs.AllItemsAreNull | src/main/java/picard/vcf/MungeVcfs.java:334-341 | the loop guard returns true exactly when every buffered entry is the exhausted marker |
| MungeVcfs.First | src/main/java/picard/vcf/MungeVcfs.java:319-332 | the left-to-right scan returns none when all inputs are exhausted, otherwise the record of the leftmost minimal entry |
| MungeVcfs.IsFirstUnique | src/main/java/picard/vcf/MungeVcfs.java:319-332 | the selection is determined: two leftmost minima are the same entry |
| MungeVcfs.FindFirstVariantContext | src/main/java/picard/vcf/MungeVcfs.java:319-332 | the selection loop returns the leftmost minimal buffered record, or none when every input is exhausted |
| MungeVcfs.FindFirstAsWritten | src/main/java/picard/vcf/MungeVcfs.java:322-329 | the selection as written: an exhausted entry met after a candidate is handed to the comparator and fails |
| MungeVcfs.FindFirstAsWrittenAgrees | src/main/java/picard/vcf/MungeVcfs.java:319-332 | when no entry is exhausted, the selection as written returns what the corrected selection returns |
| MungeVcfs.GroupMembers | src/main/java/picard/vcf/MungeVcfs.java:266-271 | a record is in the group exactly when some buffered entry holds it and it is at the selected locus |
| MungeVcfs.CollectGroup | src/main/java/picard/vcf/MungeVcfs.java:266-271 | the grouping loop returns the records at the selected locus, in input order |
| MungeVcfs.GroupAsWritten | src/main/java/picard/vcf/MungeVcfs.java:266-271 | the grouping as written: each entry in input order goes to the comparator, and an exhausted entry fails |
| MungeVcfs.GroupAsWrittenAgrees | src/main/java/picard/vcf/MungeVcfs.java:266-271 | when no entry is exhausted, the grouping as written collects the corrected group |
| MungeVcfs.Pick | src/main/java/picard/vcf/MungeVcfs.java:280-292 | the genotype chosen for a sample is for that sample |
| MungeVcfs.PickFirstWins | src/main/java/picard/vcf/MungeVcfs.java:281-288 | the genotype kept is that of the first group member, in input order, that has the sample |
| MungeVcfs.PickMissing | src/main/java/picard/vcf/MungeVcfs.java:289-292 | a sample no group member has gets the diploid missing call |
| MungeVcfs.GenotypeFor | src/main/java/picard/vcf/MungeVcfs.java:280-292 | the per-sample scan stops at the first member that has the sample and falls back to the missing call, as `Pick` specifies |
| MungeVcfs.ReconcileGenotypes | src/main/java/picard/vcf/MungeVcfs.java:275-294 | the merged genotype list has distinct names, exactly the registry samples, and each entry is the genotype `Pick` chooses for it |
| MungeVcfs.MergedGenotypesOnePerSample | src/main/java/picard/vcf/MungeVcfs.java:275-294 | the merged list is as long as the registry and each registry sample names exactly one entry |
| MungeVcfs.Advance | src/main/java/picard/vcf/MungeVcfs.java:301-307 | an input advances by one exactly when its buffered record is at or before the selected one; every other input keeps its position |
| MungeVcfs.AdvanceConsumesGroup | src/main/java/picard/vcf/MungeVcfs.java:301-307 | each advance reads exactly as many records as the group has, and at least one, so the loop terminates |
| MungeVcfs.AdvancesExactlyGroup | src/main/java/picard/vcf/MungeVcfs.java:301-307 | the inputs that advance are exactly those whose buffered record is at the selected locus |
| MungeVcfs.AdvanceStreams | src/main/java/picard/vcf/MungeVcfs.java:301-307 | the advance loop updates the positions and buffer slots in place as `Advance` specifies |
| MungeVcfs.MergeSteps | src/main/java/picard/vcf/MungeVcfs.java:256-307 | the loop's iterations from given read positions: none exactly when every input is already exhausted, and never more than the records left to read |
| MungeVcfs.MergeStepsUnfold | src/main/java/picard/vcf/MungeVcfs.java:256-307 | one loop iteration: the selected record and its group, followed by the iterations from the advanced positions |
| MungeVcfs.MergedLocus | src/main/java/picard/vcf/MungeVcfs.java:263-264 | a merged record sits at the locus of the record it was built from |
| MungeVcfs.ProgressStep | src/main/java/picard/vcf/MungeVcfs.java:256-307 | one iteration keeps the loop's bookkeeping (steps done plus steps remaining is the whole run) and reads at least one record |
| MungeVcfs.FillBuffer | src/main/java/picard/vcf/MungeVcfs.java:244-251 | the fresh buffer holds the corrected initial buffer, with every read position at zero |
| MungeVcfs.MergeOne | src/main/java/picard/vcf/MungeVcfs.java:257-307 | one iteration selects the minimum, builds its merged record, and advances exactly the inputs the advance specifies |
| MungeVcfs.MergeVariants | src/main/java/picard/vcf/MungeVcfs.java:244-313 | the merge loop emits one record per iteration of `MergeSteps`, each built from that iteration's group and the registry |
| MungeVcfs.DoWork | src/main/java/picard/vcf/MungeVcfs.java:174-317 | the run succeeds exactly when the headers are accepted, fails with the missing dictionary exactly in that case, and on success returns the merge over the union of the sample names |
| MungeVcfs.AdvanceStaysAfter | src/main/java/picard/vcf/MungeVcfs.java:301-307 | reading further into sorted inputs never brings back a record before a given bound |
| MungeVcfs.FirstStaysAfter | src/main/java/picard/vcf/MungeVcfs.java:319-332 | the selected record is at or after any bound all buffered records respect |
| MungeVcfs.StepsStayAfter | src/main/java/picard/vcf/MungeVcfs.java:256-307 | all later iterations select records at or after such a bound |
| MungeVcfs.MergeStepsSorted | src/main/java/picard/vcf/MungeVcfs.java:256-307 | for sorted inputs the selected records come out in non-decreasing locus order |
| MungeVcfs.MergeOutputSorted | src/main/java/picard/vcf/MungeVcfs.java:256-307 | the merged output of sorted inputs is sorted under the comparator |
| MungeVcfs.MergeKeepsEveryRecord | src/main/java/picard/vcf/MungeVcfs.java:256-307 | the groups of all iterations together hold as many records as remain unread |
| MungeVcfs.UnreadMembers | src/main/java/picard/vcf/MungeVcfs.java:256-307 | a record is unread exactly when some input holds it at or after that input's read position |
| MungeVcfs.InputReadsItsGroupEntry | src/main/java/picard/vcf/MungeVcfs.java:301-307 | for one input, the advance reads exactly the record it adds to the group: its current record when tied with the minimum, otherwise nothing |
| MungeVcfs.AdvanceReadsGroup | src/main/java/picard/vcf/MungeVcfs.java:301-307 | when the selected record is at or before every buffered record, the records one advance reads are exactly the group, as multisets |
| MungeVcfs.GroupedMultisetMembers | src/main/java/picard/vcf/MungeVcfs.java:266-271 | a record is among the grouped records exactly when some iteration's group holds it |
| MungeVcfs.MergeHoldsEveryRecord | src/main/java/picard/vcf/MungeVcfs.java:256-307 | nothing is dropped or read twice: the groups of all iterations, as a multiset, are exactly the unread records of all inputs, each with its multiplicity |
| MungeVcfs.EveryUnreadRecordIsGrouped | src/main/java/picard/vcf/MungeVcfs.java:256-307 | every record an input holds at or after its read position lands in the group of some iteration |
| MungeVcfs.RemainingExhausted | src/main/java/picard/vcf/MungeVcfs.java:256 | when the loop guard says every input is exhausted, no record remains unread |
| MungeVcfs.SingleInputSteps | src/main/java/picard/vcf/MungeVcfs.java:256-307 | merging one input emits its records one by one, each alone in its group |
| MungeVcfs.ShorterFirstInputExhausts | src/main/java/picard/vcf/MungeVcfs.java:301-307 | inputs `[[a], [a, b]]` with `a` before `b` reach the buffer `[exhausted, b]` after one iteration |
| MungeVcfs.ExhaustedStreamBreaksGrouping | src/main/java/picard/vcf/MungeVcfs.java:266-271 | on the buffer `[exhausted, b]` the selection as written returns `b`, the grouping as written fails, and the corrected group is `[b]` |
| MungeVcfs.ExhaustedStreamBreaksSelection | src/main/java/picard/vcf/MungeVcfs.java:301-307 | inputs `[[a, b], [a]]` with `a` before `b` reach the buffer `[b, exhausted]`; there the selection as written fails and the corrected one returns `b` |
| FilterIterator.SiteFiltersFired | src/java/picard/vcf/filter/FilterApplyingVariantIterator.java:47-53 | a string is among the collected site filters exactly when some site filter returned it |
| FilterIterator.Results | src/java/picard/vcf/filter/FilterApplyingVariantIterator.java:58-60 | one result per genotype filter, in filter order, absent results included |
| FilterIterator.ListMapAdd | src/java/picard/vcf/filter/FilterApplyingVariantIterator.java:59 | adding to the list map appends the value to the key's list, creating it if new, and leaves other keys alone |
| FilterIterator.ExtendStep | src/java/picard/vcf/filter/FilterApplyingVariantIterator.java:58-60 | adding results one at a time gives the closed form `Extend` |
| FilterIterator.ExtendKeys | src/java/picard/vcf/filter/FilterApplyingVariantIterator.java:58-60 | adding results creates the key only when there is at least one result, and changes no other key |
| FilterIterator.CollectAsWrittenKeys | src/java/picard/vcf/filter/FilterApplyingVariantIterator.java:56-61 | the map has no keys when there are no genotype filters, and otherwise exactly the sample names of the genotypes |
| FilterIterator.CollectAsWrittenLists | src/java/picard/vcf/filter/FilterApplyingVariantIterator.java:56-61 | with distinct sample names, each sample's list is exactly its genotype's results |
| FilterIterator.Rebuilt | src/java/picard/vcf/filter/FilterApplyingVariantIterator.java:72-83 | the rebuilt genotype list keeps the length of the original |
| FilterIterator.RebuiltAt | src/java/picard/vcf/filter/FilterApplyingVariantIterator.java:73-83 | a genotype with no list or an empty list is kept as is; otherwise its filters become its list |
| FilterIterator.FilteredAsWritten | src/java/picard/vcf/filter/FilterApplyingVariantIterator.java:45-94 | `next()` as written keeps locus, identifier, alleles and attributes, and returns one genotype per input genotype |
| FilterIterator.FilteredRecordFilters | src/java/picard/vcf/filter/FilterApplyingVariantIterator.java:64-90 | fired site filters replace the record's own, and `AllGtsFiltered` is added when the map has an entry for every genotype |
| FilterIterator.CollectSiteFilters | src/java/picard/vcf/filter/FilterApplyingVariantIterator.java:47-53 | the site-filter loop collects the set the specification names |
| FilterIterator.AddGenotypeResults | src/java/picard/vcf/filter/FilterApplyingVariantIterator.java:58-60 | the inner loop appends one genotype's results, in filter order, to its sample's list |
| FilterIterator.CollectGenotypeFilters | src/java/picard/vcf/filter/FilterApplyingVariantIterator.java:56-61 | the nested loop builds the sample-to-results map the specification names |
| FilterIterator.RebuildGenotypes | src/java/picard/vcf/filter/FilterApplyingVariantIterator.java:72-83 | the rebuild loop produces the genotype list the specification names |
| FilterIterator.FilterApplyingVariantIterator.constructor | src/java/picard/vcf/filter/FilterApplyingVariantIterator.java:32-38 | the iterator starts at the head of its source with the given site and genotype filters |
| FilterIterator.FilterApplyingVariantIterator.HasNext | src/java/picard/vcf/filter/FilterApplyingVariantIterator.java:96 | true exactly when the source has a record left |
| FilterIterator.FilterApplyingVariantIterator.Remove | src/java/picard/vcf/filter/FilterApplyingVariantIterator.java:98 | removal always fails with the unsupported-operation message |
| FilterIterator.FilterApplyingVariantIterator.Next | src/java/picard/vcf/filter/FilterApplyingVariantIterator.java:45-94 | returns the next source record filtered as written and moves one record on |
| FilterIterator.ReadAll | src/java/picard/vcf/filter/FilterVcf.java:76-78 | draining the iterator yields one filtered record per source record, in order |
| FilterIterator.NothingFiredPassesThrough | src/java/picard/vcf/filter/FilterApplyingVariantIterator.java:64 | with no genotype filters and no site filter firing, the record passes through unchanged |
| FilterIterator.FilteredAsWrittenFilters | src/java/picard/vcf/filter/FilterApplyingVariantIterator.java:64-90 | the output filters are the fired site filters (or the record's own when none fired), plus `AllGtsFiltered` exactly when there is a genotype filter and the genotypes are a non-empty list with distinct names |
| FilterIterator.AllGtsFilteredAsWritten | src/java/picard/vcf/filter/FilterApplyingVariantIterator.java:87-90 | as written, any genotype filter flags every record that has genotypes with distinct names |
| FilterIterator.GenotypesGetTheirResults | src/java/picard/vcf/filter/FilterApplyingVariantIterator.java:56-84 | as written, every genotype's filters become exactly its list of results, absent ones included |
| FilterIterator.AllGtsFilteredWithoutAnyFilterFiring | src/java/picard/vcf/filter/FilterApplyingVariantIterator.java:59 | a one-genotype record under a genotype filter that never fires comes out flagged `AllGtsFiltered`, with a genotype filter list of one absent entry |
| FilterIterator.Fired | src/java/picard/vcf/filter/FilterApplyingVariantIterator.java:58-60 | the fired results of one genotype are non-empty exactly when some genotype filter fires |
| FilterIterator.FiredNameIn | src/java/picard/vcf/filter/FilterApplyingVariantIterator.java:56-61 | a genotype on which some filter fires has its sample among the fired names |
| FilterIterator.FiredNameWitness | src/java/picard/vcf/filter/FilterApplyingVariantIterator.java:56-61 | each fired name belongs to some genotype on which a filter fires |
| FilterIterator.FiredNamesMembers | src/java/picard/vcf/filter/FilterApplyingVariantIterator.java:56-61 | a name is fired exactly when some genotype of that name had a filter fire |
| FilterIterator.CollectFiredKeys | src/java/picard/vcf/filter/FilterApplyingVariantIterator.java:56-61 | with absent results skipped, a sample has an entry exactly when some genotype of that sample had a filter fire |
| FilterIterator.CollectFiredNames | src/java/picard/vcf/filter/FilterApplyingVariantIterator.java:56-61 | with absent results skipped, the map's keys are the fired names |
| FilterIterator.CollectFiredCoversAll | src/java/picard/vcf/filter/FilterApplyingVariantIterator.java:56-61 | with absent results skipped, the keys are sample names, and they are all of them exactly when every genotype had a filter fire |
| FilterIterator.Filtered | src/java/picard/vcf/filter/FilterApplyingVariantIterator.java:45-94 | the corrected `next()`, with absent genotype filter results left out, keeps locus, identifier, alleles and attributes and one genotype per input genotype |
| FilterIterator.FilteredFlagsOnlyFilteredGenotypes | src/java/picard/vcf/filter/FilterApplyingVariantIterator.java:87-90 | corrected: `AllGtsFiltered` is added exactly when every genotype had a genotype filter fire |
| FilterIterator.NothingFiredUnchanged | src/java/picard/vcf/filter/FilterApplyingVariantIterator.java:64 | corrected: a record on which no filter fires passes through unchanged, whatever genotype filters are installed |
| FilterIterator.FiredWhenAllFire | src/java/picard/vcf/filter/FilterApplyingVariantIterator.java:58-60 | a genotype on which every filter fires gets the same list with or without the correction |
| DepthFilters.DepthFilter.Filter | src/java/picard/vcf/filter/DepthFilter.java:24-40 | the only filter string produced is `LowDP` |
| DepthFilters.HomRefNeverFiltered | src/java/picard/vcf/filter/DepthFilter.java:35 | a hom-ref genotype always passes |
| DepthFilters.LowDepthIff | src/java/picard/vcf/filter/DepthFilter.java:24-40 | `LowDP` is returned exactly when the genotype is not hom-ref and its depth is below the threshold for the site kind (SNP or not) and zygosity (het or not); nothing is returned otherwise |
| DepthFilters.ThresholdsBySiteKind | src/java/picard/vcf/filter/DepthFilter.java:26-33 | only the SNP thresholds matter at a SNP site and only the indel thresholds elsewhere |
| DepthFilters.MonotoneInDepth | src/java/picard/vcf/filter/DepthFilter.java:35 | more depth never turns a pass into a failure |
| DepthFilters.MissingDepthFails | src/java/picard/vcf/filter/DepthFilter.java:35 | a non-hom-ref genotype without depth (-1) fails any positive threshold |
| AlleleBalance.HetCount | src/java/picard/vcf/filter/AlleleBalanceFilter.java:37 | the het count is zero exactly when no genotype is het |
| AlleleBalance.CountOne | src/java/picard/vcf/filter/AlleleBalanceFilter.java:41-51 | one visit of the counting loop: a skipped genotype changes nothing; a counted one adds its allele list to the keys and leaves every other counter as it was |
| AlleleBalance.Tally | src/java/picard/vcf/filter/AlleleBalanceFilter.java:38-52 | the counters after the counting loop are keyed by exactly the het allele lists |
| AlleleBalance.HetListsMembers | src/java/picard/vcf/filter/AlleleBalanceFilter.java:40-48 | an allele list gets a counter exactly when some called het genotype carries it |
| AlleleBalance.AdSumAbsent | src/java/picard/vcf/filter/AlleleBalanceFilter.java:40-51 | a list no counted genotype carries gets no depth |
| AlleleBalance.TallyClosedForm | src/java/picard/vcf/filter/AlleleBalanceFilter.java:38-52 | the counters are keyed by exactly the het allele lists, and each holds the summed depths of its first and second allele |
| AlleleBalance.CounterPerHetList | src/java/picard/vcf/filter/AlleleBalanceFilter.java:43-48 | a counter exists exactly for a list carried by some counted genotype |
| AlleleBalance.SkippedAddsNothing | src/java/picard/vcf/filter/AlleleBalanceFilter.java:41 | a no-call or non-het genotype leaves the counters unchanged |
| AlleleBalance.AdSumAppend | src/java/picard/vcf/filter/AlleleBalanceFilter.java:50-51 | one more genotype adds exactly its contribution to a sum |
| AlleleBalance.AdSumConcat | src/java/picard/vcf/filter/AlleleBalanceFilter.java:40-52 | the sum over two runs of genotypes is the sum of their sums |
| AlleleBalance.AdSumPermutation | src/java/picard/vcf/filter/AlleleBalanceFilter.java:40 | the sums do not depend on the order the genotypes are visited in |
| AlleleBalance.HetListsPermutation | src/java/picard/vcf/filter/AlleleBalanceFilter.java:40 | the set of counters does not depend on that order either |
| AlleleBalance.TallyOrderIndependent | src/java/picard/vcf/filter/AlleleBalanceFilter.java:40-52 | two orderings of the same genotypes give the same counters |
| AlleleBalance.FailsOrderIndependent | src/java/picard/vcf/filter/AlleleBalanceFilter.java:40 | the verdict is the same for any ordering of the genotypes, so visiting them by name changes nothing |
| AlleleBalance.NoHetNoCounters | src/java/picard/vcf/filter/AlleleBalanceFilter.java:37 | with no het genotype no counter is created, so the shortcut agrees with the loop |
| AlleleBalance.EmptyCounterPasses | src/java/picard/vcf/filter/AlleleBalanceFilter.java:55-56 | a counter with no depth never trips the filter |
| AlleleBalance.UnbalancedByProduct | src/java/picard/vcf/filter/AlleleBalanceFilter.java:55-56 | the ratio test equals `total > 0 && min < threshold * total` |
| AlleleBalance.CountGenotype | src/java/picard/vcf/filter/AlleleBalanceFilter.java:41-51 | one loop body: a skipped genotype leaves the counters alone; a counted one makes sure its list has a counter and adds to that counter only |
| AlleleBalance.CountAlleles | src/java/picard/vcf/filter/AlleleBalanceFilter.java:38-52 | the counting loop produces the tally over all genotypes |
| AlleleBalance.ScanCounters | src/java/picard/vcf/filter/AlleleBalanceFilter.java:54-59 | the scan returns `AlleleBalance` exactly when some counter is unbalanced and nothing otherwise, whatever order it visits them in |
| AlleleBalance.Filter | src/java/picard/vcf/filter/AlleleBalanceFilter.java:35-59 | returns `AlleleBalance` exactly when some het allele list has positive total depth and a minor-allele share below the threshold, and nothing otherwise |

## Left out

- File I/O is not modelled: path unrolling, readers, the output writer, header merging, the comment header lines, progress logging and console output. Inputs are given as header values and record sequences; the run returns the records it would write.
- Index creation is modelled only as the error it raises without a dictionary. The writer options are not modelled.
- The comparator's compatibility test belongs to the variant library and is a parameter of `MungeVcfs.ScanHeaders`. The comparator itself is modelled as contig rank then start, with the rank stored in the record.
- The sample registry is a hash set, so its iteration order is unspecified. `MungeVcfs.ReconcileGenotypes` picks samples in an arbitrary order, and its contract holds for every order.
- MungeVcfs.MergeVariants: reading past the end of an input is modelled as yielding the exhausted marker, because the loop relies on that. The library's iterators may throw there instead.
- MungeVcfs.AdvanceStreams: an exhausted slot is skipped, where the code hands it to the comparator (see Findings).
- MungeVcfs.CollectGroup: an exhausted slot is skipped, where the code hands it to the comparator at line 268 (see Findings). `MungeVcfs.GroupAsWritten` models the grouping as written.
- The merged record keeps the minimal record's fields and only replaces its genotypes. The record builder's other validation is not modelled.
- Genotype typing, the SNP test and allele indexing come from the variant library. They are reimplemented in `VcfModel` from their documented meaning: `IsSnp` requires at least two alleles, all single called bases.
- FilterIterator.FilterApplyingVariantIterator.Next: requires a record to be left. Calling `next()` on an exhausted wrapped iterator is not modelled; the only caller, the drain loop of `FilterVcf`, checks `hasNext()` first.
- The genotype builder's `filters(List)` belongs to the variant library and turns the list into the genotype's single filter field. That conversion is not modelled, including what it does with absent entries: the model keeps the list as a sequence of optional strings.
- `VariantFilter` and `GenotypeFilter` are modelled as function types. The filters' header lines are not modelled.
- `FilterVcf` is not part of this model apart from its drain loop (`FilterIterator.ReadAll`). `FisherStrandFilter` is not part of this model.
- The iterator's `close()` only releases the underlying reader and is not modelled.
- AlleleBalance.Filter: requires every counted genotype to have allele depths at its first two alleles' indices. The code reads the depth array without a check and would throw there.
- AlleleBalance.CountGenotype: the allele sums are Java `int`s and could wrap around; the model sums unbounded integers. The `double` division is modelled as `real` division.
- The `Counts` objects are updated in place in the code; here they are map values replaced on each update. Their `samples` field is never updated in the code and stays zero here.
- The counters map is a hash map, so the order of the final scan is arbitrary; `AlleleBalance.ScanCounters` picks the next counter by a nondeterministic choice. Genotypes are visited by sample name in the code; the model visits them in record order, which `AlleleBalance.FailsOrderIndependent` shows gives the same verdict.

## Findings

| source | as written | input that shows it | evidently intended | confidence | as-written member | corrected member |
|---|---|---|---|---|---|---|
| src/main/java/picard/vcf/MungeVcfs.java:246-251 | the initial buffer gets an entry only for inputs that have a record, but later code indexes it by input number (:301-303) | inputs `[[], [r]]`: the buffer is `[r]`, so slot 0 holds input 1's record and slot 1 does not exist | one slot per input, holding the exhausted marker for an empty input | not executed | MungeVcfs.EmptyInputShiftsBuffer | MungeVcfs.InitialBuffer |
| src/main/java/picard/vcf/MungeVcfs.java:322-329 | once a candidate is held, each later entry goes to the comparator even when it is the exhausted marker (also at :304) | inputs `[[a, b], [a]]` with `a` before `b`: after one step the buffer is `[b, exhausted]` and the selection compares the marker | exhausted entries are skipped during selection and advance | not executed | MungeVcfs.ExhaustedStreamBreaksSelection | MungeVcfs.FindFirstVariantContext |
| src/main/java/picard/vcf/MungeVcfs.java:266-271 | the grouping hands every buffered entry to the comparator (:268), the exhausted marker included | inputs `[[a], [a, b]]` with `a` before `b`: after one step the buffer is `[exhausted, b]`; the selection returns `b` but the grouping compares the marker | exhausted entries are skipped during grouping | not executed | MungeVcfs.ExhaustedStreamBreaksGrouping | MungeVcfs.CollectGroup |
| src/java/picard/vcf/filter/FilterApplyingVariantIterator.java:59 | every genotype filter result is added to the sample's list, absent results included, so each sample gets a list as soon as there is a genotype filter | one genotype and one genotype filter that never fires: the record is flagged `AllGtsFiltered`, and the genotype's filter list (in the model's representation) holds one absent entry | record only fired results, as the site filters are (:52); flag the site only when every genotype has a fired filter | not executed | FilterIterator.AllGtsFilteredWithoutAnyFilterFiring | FilterIterator.FilteredFlagsOnlyFilteredGenotypes |

The merge loop (`MungeVcfs.FillBuffer`, `MungeVcfs.MergeVariants`, `MungeVcfs.DoWork`) uses the corrected buffer, selection and grouping. `MungeVcfs.InitialBufferAsWrittenAgrees`, `MungeVcfs.FindFirstAsWrittenAgrees` and `MungeVcfs.GroupAsWrittenAgrees` show that the corrections change nothing when no input is empty or exhausted. `FilterIterator.FilterApplyingVariantIterator.Next` follows the code as written. The corrected behaviour is `FilterIterator.Filtered`, and its properties are proved alongside it.
