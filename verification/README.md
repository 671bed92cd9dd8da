# A verified model of the dbn record merge, symbology and legacy codecs

The project models five parts of the `dbn` workspace and proves what they promise.

1. **The lazy k-way merge of record streams**, and what sits on it. `RecordMerge` has the decoder
   as a class over mutable inner decoders and a heap of stream heads. It refines the reference
   models `KMerge`, of streams that do not fail, and `FailingMerge`, of streams that can.
   `StableSort` has the theorem that merging sorted streams is a stable sort.
   `Selection` and `Pipeline` add the metadata merge in front, the typed stream iterator, the
   schema and limit filters, the encode loops, and the whole command.
2. **Merging metadata.** `IntervalMerge` has the two-cursor merge of dated symbol intervals,
   `MetadataMerge` the merger object, `MetadataOrder` what merged metadata means and that it does
   not depend on the order of merging, `MetadataConflicts` when conflicting mappings are reported.
3. **Symbol maps.** `SymbolMaps` has the per-day index and the one-day snapshot and shows that they
   agree; `SymbolLookups` says, in terms of the texts in the metadata, what a lookup in either finds
   and when either can be built; `MergedSymbols` shows that the index of merged metadata is the
   union of the indexes.
4. **Sorting record fields** by their encode-order attributes, in the derive macros (`FieldOrder`).
5. **Codecs.** `PriceText` (with `Digits`) prints fixed-precision prices and reads them back.
   `CStr` (with `Utf8`) stores text in character arrays and widens them on version upgrades;
   `Utf8Scalars` shows which bytes are text. `DbzLayout` (with `Wire` and `Calendar`) defines the
   layout of legacy DBZ metadata with a parser and a printer that are proved inverse in both
   directions; `Dbz` and `DbzFile` are the cursor-moving decoder.

An object that the source updates in place is a class whose methods are proved against functions
on values; the theorems are lemmas about those functions. In the merge, the class carries two
ghost values: `view`, the cursors and the heap as a value, with the representation invariant
`MergeView.Consistent`, and `run`, what has been emitted, what is still to come and how it ends. Every
call of `DecodeRecordRef` is one `MergeRun.Step`: it moves the first pending record to the trace,
or, when none is left, returns the failure that the run ends in, or the end, for good.
`RecordDecoder.New` and `WithHints` start a run whose plan is the value of `MergeUntilFailure`:
that of `LazyMerge`, cut where the first inner decoder fails. So every lemma about these two
functions is a statement about whole runs.

Where code and documentation differ, the model follows the code:

- `decode/merge.rs` documents that `Decoder::new` and `with_hints` fail if an inner decoder fails
  on its first record. They read no record, so they cannot; that failure is reported by the call
  in which that decoder's hint reaches the top of the heap, which can be any call, and at the
  latest in place of the end. `Pipeline.MergeDecoder.New` and `RecordMerge.RecordDecoder.WithHints`
  state exactly when they fail, and `RecordMerge.RecordDecoder.DecodeRecordRef` exactly which call
  reports which failure.
- `with_hints` documents that a hint must not be later than the first record.
  `KMerge.HintIsSafeIff`: exactly for a later hint there is another stream with which the output
  is not that of reading both up front.
- `Px` with precision 0 prints the scaled integer, not the price without decimals
  (`PriceText.PrecisionZeroIsScaled`; by `PriceText.PrecisionZeroIff` the two agree only for 0).
- An interval merge can miss a conflict, although `Metadata::merge` documents an error for
  conflicting mappings, and can produce overlapping intervals
  (`IntervalMerge.WideIntervalHidesConflict`). For disjoint lists of nonempty intervals both happen
  only when some interval meets two of the other list, which depends on the dates alone: without
  such an interval the output is disjoint and every conflict is reported, and with one a successful
  merge overlaps itself
  (`IntervalMerge.DisjointIffPaired`) and there are symbols with a conflict that goes unnoticed
  (`IntervalMerge.ConflictsReportedIffPaired`). The same holds of two metadata and the raw symbols
  they share (`MetadataConflicts.MappingsReportedIffPaired`). Any number of metadata reports every
  conflict when two intervals of one raw symbol that overlap have the same dates
  (`MetadataConflicts.AlignedFailIff`), and whatever the dates, a merge whose output is disjoint
  has missed none (`MetadataConflicts.DisjointOutputIsConflictFree`).
- A v1 text field without a terminating NUL cannot be read, but can once it has been widened
  (`CStr.WideningKeepsText`).

## Model

| member | source | states |
|---|---|---|
| KMerge.NextIsUnique | rust/dbn/src/decode/merge.rs:104-135 | a stream whose key is least, ties to the lower index, is the one served, and no other is |
| KMerge.HintedEqualsEager | rust/dbn/src/decode/merge.rs:183-251 | for any streams and hints no later than the first records, the hinted merge emits what the eager one does, ties included |
| KMerge.ResolveAny | rust/dbn/src/decode/merge.rs:228-251 | reading any unread stream early changes nothing in the output |
| KMerge.LazyMergeIsInterleaving | rust/dbn/src/decode/merge.rs:227-280 | whatever the hints and the order in the streams, each record is emitted once and each stream keeps its order |
| KMerge.RunPrefix | rust/dbn/src/decode/merge.rs:257-280 | at any point of a run each stream splits into what was emitted and what is pending, in order |
| KMerge.HintIsSafeIff | rust/dbn/src/decode/merge.rs:172-183 | a hint is safe, whatever stream with a valid hint comes first, if and only if it is not later than the first record |
| FailingMerge.EmitsPrefix | rust/dbn/src/decode/merge.rs:227-280 | a run emits a prefix of the merge, and all of it unless it ends in a failure |
| FailingMerge.EndsWellIff | rust/dbn/src/decode/merge.rs:227-280 | a run ends in a failure if and only if some inner decoder fails |
| FailingMerge.FailureIsOfStream | rust/dbn/src/decode/merge.rs:238-247 | the failure is that of a decoder whose records have all been emitted |
| FailingMerge.FailsWhenEmptied | rust/dbn/src/decode/merge.rs:257-275 | unless a failing decoder is empty, the failure comes right after the last record of the first failing decoder to run out, whatever the hints |
| FailingMerge.HintedFailsLikeEager | rust/dbn/src/decode/merge.rs:183-251 | then valid hints change neither what is emitted before the failure nor the failure |
| StableSort.SortSorts | rust/dbn/src/decode/merge.rs:93-94 | the reference sort is sorted and a permutation |
| StableSort.SortIsStable | rust/dbn/src/decode/merge.rs:93-94 | the reference sort keeps the order of equal timestamps |
| StableSort.StableIsUnique | rust/dbn/src/decode/merge.rs:104-135 | being sorted and stable determines a sequence |
| StableSort.EagerMergeSorts | rust/dbn/src/decode/merge.rs:257-280 | merging sorted streams gives a sorted stream |
| StableSort.EagerMergeIsStable | rust/dbn/src/decode/merge.rs:257-280 | for each timestamp the merge keeps the records in decoder order, then stream order |
| StableSort.MergeIsStableSort | rust/dbn/src/decode/merge.rs:93-94 | over sorted streams with valid hints the whole output is the stable sort of their concatenation |
| RecordMerge.StreamDecoder.DecodeRecordRef | rust/dbn/src/test_utils.rs:36-47 | an inner decoder returns its records one by one, then its end, or a failure in its place |
| RecordMerge.StreamDecoder.LastRecord | rust/dbn/src/test_utils.rs:49-61 | the record that an inner decoder is on; none for an empty stream, a panic off the records |
| RecordMerge.PeekHeap | rust/dbn/src/decode/merge.rs:216-220 | the top is a head that is at most every other, by timestamp and then decoder index |
| RecordMerge.MergeView.AdvancedIsConsistent | rust/dbn/src/decode/merge.rs:238-247 | popping a head, reading its decoder and pushing the new head keeps the heap invariant |
| RecordMerge.MergeView.AdvancedIsUnfailed | rust/dbn/src/decode/merge.rs:238-247 | a read that does not fail keeps every failing decoder short of its end |
| RecordMerge.MergeView.ExhaustedIsUnfailed | rust/dbn/src/decode/merge.rs:230-236 | once every stream is exhausted without an error, no decoder fails |
| RecordMerge.MergeView.TopIsNext | rust/dbn/src/decode/merge.rs:228-238 | the top of the heap is the stream that the reference model serves, and is a hint exactly when that stream is unread |
| RecordMerge.MergeView.EmptyHeapEmitsNothing | rust/dbn/src/decode/merge.rs:230-236 | an empty heap means that every stream is exhausted |
| RecordMerge.MergeView.ServeStep | rust/dbn/src/decode/merge.rs:276-279 | the record under the top is the next one of the run |
| RecordMerge.MergeView.HintStep | rust/dbn/src/decode/merge.rs:238-247 | when a hint is on top, its decoder fails and the run ends, or reading it changes nothing of what is emitted |
| RecordMerge.MergeView.PopServed | rust/dbn/src/decode/merge.rs:261-275 | the head popped by the next call belongs to the record returned last; its decoder fails and the run ends, or what is left is exactly what came after it |
| RecordMerge.MergeRun.PopFits | rust/dbn/src/decode/merge.rs:261-275 | popping the top of a run leaves exactly what is pending, or ends it in the pending failure |
| RecordMerge.MergeRun.NextFits | rust/dbn/src/decode/merge.rs:257-280 | serving the chosen decoder, or none, is one step of the run and keeps the invariant |
| RecordMerge.RecordDecoder.New | rust/dbn/src/decode/merge.rs:147-169 | fails exactly on no decoders or with the error of the first decoder that fails at once; else starts a run of the eager merge up to its first failure |
| RecordMerge.RecordDecoder.WithHints | rust/dbn/src/decode/merge.rs:183-211 | fails exactly on no decoders or a wrong number of hints; else starts a run of the hinted merge up to its first failure, without reading |
| RecordMerge.RecordDecoder.PopulateHeap | rust/dbn/src/decode/merge.rs:155-163 | reads each decoder once and collects one head for each nonempty stream |
| RecordMerge.RecordDecoder.ReplaceHead | rust/dbn/src/decode/merge.rs:238-247 | fails exactly when the decoder of the popped head does on its next read; else the state after a pop, a read and a push |
| RecordMerge.RecordDecoder.PopAndRead | rust/dbn/src/decode/merge.rs:238-247 | the heap and the cursor after a pop, a read and a push |
| RecordMerge.RecordDecoder.NextDecoderIdx | rust/dbn/src/decode/merge.rs:228-251 | resolves hints, without changing what is still emitted, until a record is on top, or nothing is left and no decoder fails, or the run ends in the failure that it returns; terminates |
| RecordMerge.RecordDecoder.DecodeRecordRef | rust/dbn/src/decode/merge.rs:257-280 | every call is one step of the run: its next record, or after the last one the failure that it ends in, the run unchanged, or the end; a success keeps the invariant |
| RecordMerge.RecordDecoder.PopLast | rust/dbn/src/decode/merge.rs:261-275 | the first half of a later call: the head of the record returned last is popped and its decoder read again |
| RecordMerge.RecordDecoder.TopRecord | rust/dbn/src/decode/merge.rs:276-279 | the second half of a call: resolve hints, then return the record under the top, or the failure met |
| RecordMerge.RecordDecoder.LastRecord | rust/dbn/src/decode/merge.rs:298-308 | the record returned by the last successful call; after the end, what the first decoder gives, which is nothing or a panic |
| Selection.FilterStep | rust/dbn-cli/src/filter.rs:46-61 | the filtered stream is its first match followed by the filtered rest |
| Selection.FilterKeeps | rust/dbn-cli/src/filter.rs:46-61 | with a record type, exactly the records whose header has it are kept, as often and in the order as they come |
| Selection.FilterNone | rust/dbn-cli/src/filter.rs:46-61 | without one every record is kept |
| Selection.FirstMatchIsFirst | rust/dbn-cli/src/filter.rs:46-61 | the record found is the first whose header has the type, and what is left is all that comes after it |
| Selection.RTypeHasSchema | rust/dbn/src/enums/methods.rs:28-85 | the record type of a schema determines it, except that top-of-book trades are recorded as top-of-book updates |
| Selection.SmallerLimitIs | rust/dbn-cli/src/filter.rs:75-95 | the limit kept is one of the two and exceeds neither |
| Selection.PullStep | rust/dbn-cli/src/filter.rs:109-120 | a pull gives the first record of what the limit lets through, or shows that there is none |
| Selection.ReachesNext | rust/dbn/src/encode.rs:124-159 | a loop over pulls has let through a prefix of what the limit lets through, and all of it once a pull finds nothing |
| Selection.MeetsFull | rust/dbn/src/encode.rs:124-134 | a loop that meets a full sink has written exactly what the sink takes |
| Selection.MeetsEnd | rust/dbn/src/encode.rs:124-134 | a loop that finds nothing more has written everything, and fails exactly if the run does and the limit is not reached |
| Selection.LimitedPrefix | rust/dbn-cli/src/filter.rs:109-120 | what is let through of a prefix of the merge is a prefix, and all of it once the limit is reached |
| Selection.PullsNoFurther | rust/dbn/src/encode.rs:141-159 | what is read from the merge is exactly the records up to the last one let through, or everything |
| Selection.FilterSort | rust/dbn-cli/src/main.rs:46-51 | filtering and sorting commute |
| Selection.TakeIsEarliest | rust/dbn-cli/src/filter.rs:109-120 | a prefix of the sorted records holds the earliest ones and nothing left out is earlier |
| Selection.LimitedIsSorted | rust/dbn-cli/src/main.rs:46-51 | over sorted inputs the filtered, limited merge is the prefix of the sorted matching records |
| Selection.LimitedIsEarliest | rust/dbn-cli/src/main.rs:46-51 | over sorted inputs the limit and the schema let through the `limit` earliest matching records |
| Selection.EarliestMatchingIs | rust/dbn-cli/src/main.rs:46-51 | what that leaves is sorted and all of the type, and without a limit it holds every record of the type |
| Pipeline.MergeDecoder.New | rust/dbn/src/decode/merge.rs:26-42 | fails exactly when there is no decoder or the metadata does not merge; else holds the merged metadata and starts a run. If no metadata start is later than the first record, sorted files that do not fail come out as the stable sort of all their records |
| Pipeline.SortedRun | rust/dbn/src/decode/merge.rs:26-42 | hinted by their metadata starts, such files emit the stable sort of all their records and no failure |
| Pipeline.MergeDecoder.DecodeRecordRef | rust/dbn/src/decode/merge.rs:59-61 | one step of the run |
| Pipeline.DecodeRecords | rust/dbn/src/decode.rs:89-98 | all records of the run, or exactly the first error: a record of another type, or the failure that the run ends in |
| Pipeline.StreamIterDecoder.Advance | rust/dbn/src/decode/stream.rs:49-70 | moves to the next record and counts it; which call fails, and with what, is determined; the end and every error are final |
| Pipeline.StreamIterDecoder.Get | rust/dbn/src/decode/stream.rs:72-81 | the record that the last advance moved to, none after the end |
| Pipeline.SchemaFilter.New | rust/dbn-cli/src/filter.rs:18-32 | the record type of the schema, which also replaces the metadata's |
| Pipeline.SchemaFilter.DecodeRecordRef | rust/dbn-cli/src/filter.rs:46-61 | the first record of the run whose header has the type, or simply the first without a type, everything before it consumed and everything after it left; or else the failure or the end of the run |
| Pipeline.LimitFilter.New | rust/dbn-cli/src/filter.rs:75-95 | the metadata's limit becomes the smaller of the two: one of them, exceeding neither |
| Pipeline.LimitFilter.DecodeRecordRef | rust/dbn-cli/src/filter.rs:109-120 | one pull through the limit, with exactly the failure of the run; counts only records, pulls nothing once the limit is reached |
| Pipeline.EncodeDecoded | rust/dbn/src/encode.rs:124-134 | exactly what is written and returned: all that the filters let through of the run, as far as the sink takes it; the failure of the run shows unless the limit is reached |
| Pipeline.EncodeDecodedWithLimit | rust/dbn/src/encode.rs:141-159 | writes, returns, and takes from its decoder the same as the unlimited loop over a limit filter |
| Pipeline.Wrapped | rust/dbn-cli/src/main.rs:46-88 | the merge under both filters, with the whole run ahead of it |
| Pipeline.EncodedMerge | rust/dbn-cli/src/main.rs:46-88 | encoding a run writes a prefix of what the merge lets through, succeeds with all of it, and over sorted inputs that is the earliest matching records; every record written has the type |
| Pipeline.EncodedRun | rust/dbn-cli/src/main.rs:46-88 | the same for decoders, in terms of their own fields: over sorted files that start no later than their first record |
| Pipeline.EncodeMerged | rust/dbn-cli/src/main.rs:46-88 | merging, filtering, limiting and encoding sorted inputs, no metadata start later than the first record, writes the earliest matching records of all of them, stably sorted, and all records when there is neither schema nor limit; every record written has the record type of the schema; the result and what is written are exact for failing inputs too: with room in the sink it succeeds if and only if no input fails or the limit is reached before |
| IntervalMerge.MergeIntervals | rust/dbn/src/metadata/merge.rs:99-136 | the loop over two cursors computes the merge of the two lists |
| IntervalMerge.CoverageIsUnion | rust/dbn/src/metadata/merge.rs:99-136 | a successful merge covers exactly the union of the two date-to-symbol relations, sorted or not |
| IntervalMerge.ErrorIsConflict | rust/dbn/src/metadata/merge.rs:173-200 | over nonempty intervals every error has a date with two different symbols |
| IntervalMerge.ErrorBlamesMappings | rust/dbn/src/metadata/merge.rs:173-200 | every error of an interval merge blames the mappings |
| IntervalMerge.DisagreeingPair | rust/dbn/src/metadata/merge.rs:173-200 | a failing merge has met two overlapping intervals with different symbols |
| IntervalMerge.MergedIsSorted | rust/dbn/src/metadata/merge.rs:106-135 | disjoint lists merge into strictly increasing start dates |
| IntervalMerge.DisjointIffPaired | rust/dbn/src/metadata/merge.rs:106-135 | the output of disjoint lists is disjoint if and only if no interval of either meets two of the other |
| IntervalMerge.ErrorIffDisagree | rust/dbn/src/metadata/merge.rs:173-200 | in such lists merging fails if and only if some overlapping pair has different symbols |
| IntervalMerge.HideDisagreement | rust/dbn/src/metadata/merge.rs:114-121 | for any other dates, symbols with an overlapping pair that disagrees and a merge that succeeds |
| IntervalMerge.ConflictsReportedIffPaired | rust/dbn/src/metadata/merge.rs:99-136 | for given dates, merging fails exactly on a conflict whatever the symbols, if and only if no interval of either list meets two of the other |
| IntervalMerge.WideIntervalHidesConflict | rust/dbn/src/metadata/merge.rs:114-121 | one such input: a conflict goes unnoticed and the output overlaps |
| MetadataMerge.MetadataMerger.constructor | rust/dbn/src/metadata/merge.rs:28-49 | the merger starts with the original's fields, sets and mappings |
| MetadataMerge.MetadataMerger.Merge | rust/dbn/src/metadata/merge.rs:51-97 | one merge is one absorption into the state, with the same error |
| MetadataMerge.MetadataMerger.MergeFields | rust/dbn/src/metadata/merge.rs:77-86 | the schema, start, end, limit and symbol sets after a merge |
| MetadataMerge.MetadataMerger.MergeMappings | rust/dbn/src/metadata/merge.rs:87-94 | a new raw symbol is added, a known one has its intervals merged, in order, up to the first error |
| MetadataMerge.MetadataMerger.Finalize | rust/dbn/src/metadata/merge.rs:138-162 | the state, with every set and map listed once in some order |
| MetadataMerge.MergeAll | rust/dbn/src/metadata.rs:165-171 | the others are absorbed one after the other, and the first error is returned |
| MetadataOrder.AbsorbMappingsRel | rust/dbn/src/metadata/merge.rs:87-94 | absorbing mappings adds exactly their relation |
| MetadataOrder.MergeDescribes | rust/dbn/src/metadata/merge.rs:28-96 | a successful merge has the earliest start, the latest end, the common schema or none, and the union of the symbol sets and of the relations |
| MetadataOrder.MergeSucceeds | rust/dbn/src/metadata/merge.rs:51-97 | equal headers, unique raw symbols and a conflict-free relation are enough to merge |
| MetadataOrder.MergeInAnyOrder | rust/dbn/src/metadata/merge.rs:28-96 | such metadata merges in every order, to the same header, start, end, limit, schema, symbol sets and relation |
| MetadataConflicts.AbsorbMappingsOkIff | rust/dbn/src/metadata/merge.rs:87-94 | absorbing mappings succeeds exactly when each merge with a known raw symbol does |
| MetadataConflicts.MappingsReportedIffPaired | rust/dbn/src/metadata/merge.rs:87-136 | for given dates of two metadata, merging fails exactly on a conflict whatever the symbols, if and only if no interval of a shared raw symbol meets two of the other |
| MetadataConflicts.TwoFailIff | rust/dbn/src/metadata/merge.rs:51-136 | such metadata fails to merge exactly when the headers differ or the mappings conflict |
| MetadataConflicts.TwoErrorIs | rust/dbn/src/metadata/merge.rs:51-97 | merging two blames the argument exactly when the headers differ, and the mappings otherwise |
| MetadataConflicts.MergeErrorIs | rust/dbn/src/metadata.rs:165-171 | merging any number blames the argument only for a header that differs from the first |
| MetadataConflicts.DisjointOutputIsConflictFree | rust/dbn/src/metadata.rs:163-171 | a merge of any metadata whose output is disjoint has missed no conflict |
| MetadataConflicts.AlignedFailIff | rust/dbn/src/metadata.rs:153-171 | any number of metadata whose overlapping intervals have the same dates fails to merge exactly when the headers differ or the mappings conflict |
| SymbolMaps.LookupIsLastInsert | rust/dbn/src/symbol_map.rs:61-95 | after any inserts a lookup finds the symbol of the last one whose range covers the day, or none |
| SymbolMaps.ParseU32Iff | rust/dbn/src/symbol_map.rs:122-147 | text parses as an ID exactly if it is a decimal text of it: digits with any number of leading zeros and at most one plus sign |
| SymbolMaps.ParseU32Decimal | rust/dbn/src/symbol_map.rs:122-147 | the plain decimal text of every ID parses as that ID |
| SymbolMaps.TsSymbolMap.Insert | rust/dbn/src/symbol_map.rs:61-90 | writes exactly the days of the half-open range; fails and changes nothing when it is reversed; terminates |
| SymbolMaps.TsSymbolMap.FromMetadata | rust/dbn/src/symbol_map.rs:116-154 | the loops compute the map, or the error, of the fold over the mappings; metadata without instrument IDs on either side is refused |
| SymbolMaps.PitSymbolMap.FromMetadata | rust/dbn/src/symbol_map.rs:180-216 | the loop computes the snapshot, or the error, of the fold over the mappings; metadata without instrument IDs on either side is refused, and, for a query range that is not empty, a date exactly when no moment of that day is in it |
| SymbolMaps.RefusedIff | rust/dbn/src/symbol_map.rs:180-190 | for a query range that is not empty, a date is refused exactly when no moment of that day is in it |
| SymbolMaps.DayOfIff | rust/dbn/src/record/traits.rs:58-63 | a day is the 24 hours from its midnight on |
| SymbolMaps.FindDayIsFirst | rust/dbn/src/symbol_map.rs:192-196 | the interval used is the first that covers the day |
| SymbolMaps.PitSymbolMap.OnSymbolMapping | rust/dbn/src/symbol_map.rs:244-254 | replaces the symbol of one instrument; an unreadable symbol changes nothing |
| SymbolMaps.AddMappingsOnDay | rust/dbn/src/symbol_map.rs:116-216 | both constructions keep pace, mapping by mapping, on any one day |
| SymbolMaps.MapsAgree | rust/dbn/src/symbol_map.rs:108-216 | inside the query range both maps give the same symbol for every ID, even when mappings share one |
| SymbolMaps.RecordsAgree | rust/dbn/src/symbol_map.rs:108-114 | a record inside the query range has the same symbol in both maps; one without a timestamp has none in the timeseries map |
| SymbolMaps.InvertSameMap | rust/dbn/src/symbol_map.rs:788-810 | swapping IDs and symbols changes neither the map nor the error |
| SymbolLookups.LookupIsLast | rust/dbn/src/symbol_map.rs:116-154 | a lookup finds a name exactly when some interval over the day gives the ID one, and then that of the last such interval of the last such mapping |
| SymbolLookups.LookupById | rust/dbn/src/symbol_map.rs:136-150 | an interval over the day whose symbol is the decimal text of the ID is found by that ID, unless a later one gives it too |
| SymbolLookups.SnapshotIsLast | rust/dbn/src/symbol_map.rs:191-214 | the snapshot finds a name exactly when in some mapping the first interval over the day gives the ID one, and then that of the last such mapping |
| SymbolLookups.BuildsIff | rust/dbn/src/symbol_map.rs:116-154 | the timeseries map can be built exactly when one side of the query is instrument IDs, every ID is a decimal text of one, and no range with a symbol is reversed |
| SymbolLookups.SnapshotBuildsIff | rust/dbn/src/symbol_map.rs:180-216 | the snapshot can be built exactly when one side is instrument IDs, the day meets the query range, and what it uses on that day are IDs |
| MergedSymbols.AddMappingsOkIff | rust/dbn/src/symbol_map.rs:136-150 | building the map fails exactly on a symbol that is no ID or a reversed range |
| MergedSymbols.AddMappingsLookup | rust/dbn/src/symbol_map.rs:136-150 | a lookup finds a raw symbol that has the ID on that day, and finds one whenever there is one |
| MergedSymbols.MergedHasId | rust/dbn/src/metadata/merge.rs:51-136 | merged metadata gives a raw symbol an ID on a day exactly when some input does |
| MergedSymbols.MergedBuilds | rust/dbn/src/symbol_map.rs:136-150 | the map of the merged metadata can be built when those of the inputs can |
| MergedSymbols.MergedMapIsUnion | rust/dbn/src/symbol_map.rs:136-150 | the map of merged metadata is the union of the maps that went in |
| FieldOrder.CollectOrders | rust/dbn-macros/src/dbn_attr.rs:20-34 | fails exactly on an unreadable attribute or a repeated order, with the first such error; else collects the fields with an order |
| FieldOrder.FirstBadAttrIs | rust/dbn-macros/src/dbn_attr.rs:20-34 | the error is that of the first field whose attribute does not parse or repeats an order |
| FieldOrder.PlaceFields | rust/dbn-macros/src/dbn_attr.rs:36-47 | the removals and insertions, each of which finds its field |
| FieldOrder.GetSortedFields | rust/dbn-macros/src/dbn_attr.rs:19-49 | the sorted fields, or the first attribute error |
| FieldOrder.MoveLands | rust/dbn-macros/src/dbn_attr.rs:37-46 | a moved field ends at its order, or last |
| FieldOrder.MovePasses | rust/dbn-macros/src/dbn_attr.rs:37-46 | moving a field shifts one of lower order at most one place to the front, and stays behind it |
| FieldOrder.SortedPlaces | rust/dbn-macros/src/dbn_attr.rs:19-49 | a permutation; fields without an order keep theirs; the others appear in increasing order, each at most at its order, the largest at it or last |
| FieldOrder.MoveKeepsOrder | rust/dbn-macros/src/dbn_attr.rs:37-46 | moving a field keeps the order of any two others |
| FieldOrder.SortedIndex | rust/dbn-macros/src/dbn_attr.rs:19-49 | the exact final index of each field with an order: its order, or last, less the fields of higher order in front of it once it has been moved |
| FieldOrder.SortedFillsFront | rust/dbn-macros/src/dbn_attr.rs:19-49 | orders 0 to k-1 fill the first k places |
| PriceText.PrecisionTruncates | rust/dbn/src/pretty.rs:84-111 | precision 1 to 8 is the nine-decimal text without its last 9-p characters |
| PriceText.PrecisionZeroIff | rust/dbn/src/pretty.rs:103-103 | precision 0 is the text without its decimals only for the price 0 |
| PriceText.PrecisionZeroIsScaled | rust/dbn/src/pretty.rs:103-103 | precision 0 is the decimal text of the scaled integer, with its sign |
| PriceText.SpecialPrices | rust/dbn/src/pretty.rs:96-101 | the largest price is the null price, which has one text at every precision; the smallest has none |
| PriceText.PriceShape | rust/dbn/src/pretty.rs:125-147 | a minus sign exactly for negative prices, digits, a point and nine digits |
| PriceText.DefaultDisplay | rust/dbn/src/pretty.rs:112-117 | without a precision, or with nine or more, display prints what `fmt_px` prints |
| PriceText.ParseUndoesFmt | rust/dbn/src/pretty.rs:125-147 | reading the text back gives the price, exactly for every price but the null one and the smallest, which does not print |
| PriceText.FmtIsInjective | rust/dbn/src/pretty.rs:125-147 | distinct prices print distinct texts |
| CStr.StrToCChars | rust/dbn/src/record/conv.rs:103-121 | fails exactly on text longer than N-1; else the text followed by NULs |
| CStr.StoredTextComesBack | rust/dbn/src/record/conv.rs:103-140 | text that was stored is read back, if and only if it has no NUL |
| CStr.ReadTextIsStored | rust/dbn/src/record/conv.rs:130-140 | text that was read has no NUL, is valid and fits, and storing it gives the array back up to what follows its first NUL |
| CStr.WideningKeepsText | rust/dbn/src/v2.rs:99-164 | copying over the front of a longer zeroed array keeps the decoded text if and only if the old array has a NUL |
| CStr.UpgradeRawSymbol | rust/dbn/src/v2.rs:99-99 | a 22-byte symbol becomes a 71-byte one with the same text |
| CStr.UpgradeError | rust/dbn/src/v2.rs:104-118 | the header is kept, the 64-byte text becomes a 302-byte one with the same text |
| CStr.UpgradeSymbolMapping | rust/dbn/src/v2.rs:120-138 | header and times are kept, both symbols keep their text, both symbology types are unset |
| CStr.CodeOfText | rust/dbn/src/v2.rs:151-163 | which code a text has, by its first and last words, in both directions |
| CStr.UpgradeSystem | rust/dbn/src/v2.rs:140-167 | the text is kept, the code is the one that the text stands for, and the new message is a heartbeat exactly when the old one is |
| CStr.HeartbeatIff | rust/dbn/src/record/methods.rs:1165-1174 | a code that names a kind decides whether a message is a heartbeat, any other leaves it to the text |
| Utf8Scalars.ValidIffEncoded | rust/dbn/src/record/conv.rs:130-140 | bytes are valid text exactly when they encode a sequence of Unicode scalar values |
| Digits.ParseDigitsIff | rust/dbn/src/symbol_map.rs:122-147 | digits parse exactly to the sum of their place values |
| Wire.BytesOfNumbers | rust/dbn/src/decode.rs:232-266 | what two and four little-endian bytes count |
| Wire.ReadsWhatWasWritten | rust/dbn/src/decode.rs:228-266 | little-endian numbers of any width are read as written |
| Wire.WritesWhatWasRead | rust/dbn/src/decode.rs:228-266 | bytes are determined by the number read from them |
| Wire.CountedCompletes | rust/dbn/src/decode/dbz.rs:299-333 | a counted list of values that parse back parses back |
| Wire.CountedIsExact | rust/dbn/src/decode/dbz.rs:299-333 | a counted list parses only from its own layout |
| Calendar.DateRoundTrips | rust/dbn/src/decode/dbn/sync.rs:481-493 | a calendar date is read back from its decimal number |
| Calendar.DateText | rust/dbn/src/decode/dbn/sync.rs:481-493 | that number is written with four digits of the year, two of the month and two of the day |
| Calendar.SuccessorIsNext | rust/dbn/src/decode/dbn/sync.rs:490-492 | from every date the next one, in the month or the first of the next month, has the next day number |
| Calendar.YearLength | rust/dbn/src/decode/dbn/sync.rs:490-492 | years have 365 or 366 days and 400 years 146,097 |
| Calendar.EveryNumberIsADate | rust/dbn/src/decode/dbn/sync.rs:490-492 | every day number between the first and the last date is that of a date |
| DbzLayout.SymbolCompletes | rust/dbn/src/decode/dbz.rs:389-397 | a symbol of at most 22 bytes without a final NUL is read back from its padded field |
| DbzLayout.SymbolIsExact | rust/dbn/src/decode/dbz.rs:389-397 | a symbol is read only from its padded field |
| DbzLayout.IntervalLayout | rust/dbn/src/decode/dbz.rs:359-381 | where the dates and the symbol of an interval are in its 30 bytes |
| DbzLayout.MappingLayout | rust/dbn/src/decode/dbz.rs:335-387 | where the symbol, the number of intervals and each interval of a mapping are |
| DbzLayout.MappingTooShort | rust/dbn/src/decode/dbz.rs:335-345 | fewer bytes than a mapping without intervals has are refused before the symbol is looked at |
| DbzLayout.MappingRoundTrips | rust/dbn/src/decode/dbz.rs:335-387 | a mapping and its intervals are read from their layout and from nothing else |
| DbzLayout.SectionDecodesIffEncoded | rust/dbn/src/decode/dbz.rs:264-278 | the variable-length section decodes to a value if and only if the bytes start with the layout of that value |
| DbzLayout.SectionLayout | rust/dbn/src/decode/dbz.rs:264-278 | where each list, each of its symbols and the number of mappings are in the section |
| Dbz.MetadataCursor.DecodeSymbol | rust/dbn/src/decode/dbz.rs:389-397 | reads 22 bytes as a symbol; the cursor moves only on success |
| Dbz.MetadataCursor.DecodeRepeatedSymbolCstr | rust/dbn/src/decode/dbz.rs:299-317 | the loop agrees with the layout's parser for every buffer, in its value, its error and where it stops |
| Dbz.MetadataCursor.DecodeInterval | rust/dbn/src/decode/dbz.rs:359-381 | one interval, with the error of its first bad part |
| Dbz.MetadataCursor.DecodeIntervals | rust/dbn/src/decode/dbz.rs:346-382 | the interval count, its check against the buffer, and the loop |
| Dbz.MetadataCursor.DecodeSymbolMapping | rust/dbn/src/decode/dbz.rs:335-387 | one mapping, in bounds for every buffer |
| Dbz.MetadataCursor.DecodeSymbolMappings | rust/dbn/src/decode/dbz.rs:319-333 | the list of mappings, in bounds for every buffer |
| Dbz.MetadataCursor.DecodeSymbology | rust/dbn/src/decode/dbz.rs:264-278 | a success is the layout of the result and the cursor moves by exactly its length |
| DbzFile.FixedDecodesIffEncoded | rust/dbn/src/decode/dbz.rs:211-255 | the fixed section decodes to a value if and only if it is the layout of that value around what is skipped |
| DbzFile.FixedErrors | rust/dbn/src/decode/dbz.rs:211-255 | which fixed sections are refused and with what error, by their bytes |
| DbzFile.DecodeFixed | rust/dbn/src/decode/dbz.rs:211-255 | reading field by field agrees with the parser of the layout, in value and error |
| DbzFile.DecodeFrame | rust/dbn/src/decode/dbz.rs:211-297 | the fixed section, then the decompressed one; a panic exactly when that has fewer than four bytes |
| DbzFile.FrameDecodesIffEncoded | rust/dbn/src/decode/dbz.rs:211-297 | a whole frame decodes to given metadata if and only if it holds the layouts of its two parts |
| DbzFile.Read | rust/dbn/src/decode/dbz.rs:185-209 | the magic number and the frame size in the first eight bytes decide what is decoded, and every way to fail |

## Left out

- RecordMerge.RecordDecoder.DecodeRecordRef: nothing is stated of calls after the one that reports a failure, because the code pops the head before it reads and that stream is then lost; an inner decoder of the model fails only after its last record.
- RecordMerge.RecordDecoder.LastRecord: after the end the result is up to the first inner decoder; the one modelled here is the in-memory stream.
- RecordMerge.PeekHeap: the standard library's binary heap is a multiset with a minimum, not an array.
- MetadataMerge.MetadataMerger.Finalize: the order of hash sets and hash maps is left open, as in the source; error texts, such as the name of the field that differs, are not modelled.
- MetadataMerge.MetadataMerger.constructor: repeated raw symbols in the first metadata keep only the last one, as in the source; the theorems ask for unique ones.
- SymbolMaps.MapsAgree: dates are day numbers and timestamps are naturals of 64 bits; `next_day` past the last representable date is not modelled.
- PriceText.ParseUndoesFmt: width, alignment, fill and sign flags belong to the standard library. Negating the smallest price overflows, which the model shows as no text.
- CStr.UpgradeRawSymbol: the other fields of the instrument definition are copied one by one and are not modelled.
- CStr.StrToCChars: an array of length zero is not covered, where the source's N - 1 underflows. Characters are bytes, without a sign.
- Dbz.MetadataCursor.DecodeSymbology: allocating room for as many values as a count announces is not modelled.
- DbzFile.DecodeFrame: decompression is a parameter, and Zstandard itself is not part of this model. Enumerations are their codes. The constant fields of the result are left out.
- Pipeline.EncodeMerged: the command line's choice of encoding, the header, text symbols and `ts_out` are left out; a sink takes records until its room is used up.
- Record layouts, transmutes, record references and the upgrade policies of the decoders.
- The DBN state machine, the DBN, CSV and JSON encoders and decoders, and everything asynchronous.
- Publisher and venue tables, flags and the text forms of enumerations: finite tables without logic.
- The Python and C bindings, file handling and argument parsing.
