# Traffic-stats combiner, modelled in Dafny

The traffic-stats tool keeps one raw snapshot file per repository, metric
and day (`{repo}-{metric}-{date}.json`). Its offline combiner
(`combine_json_files.py`) folds every snapshot of one (repository, metric)
pair into a single deduplicated series sorted by date. This project models
that combiner and proves what it promises:

- `FilenameDate`: `extract_timestamp_from_filename`. It scans a file name
  for its leftmost `DDDD-DD-DD` substring, or reports that there is none.
- `MaxMerge`: the merge rule. A record `{count, uniques}` starts at zero
  and each field is raised to the maximum it is shown. `IsMaxMerge` states
  the result independently of any order: exactly the keys read, each field
  at least every reading and at least 0, and equal to 0 or to some reading.
  `MaxMergeUnique` shows that only one map meets that statement.
- `Snapshots`: a typed snapshot payload. A file name plus a list of
  entries; each entry is the item list under its `data` key (for views and
  clones, under `data[metric]`), empty when the key is missing. The module
  also holds the generic left folds the combiner's loops compute, and
  filing items under a file's date (`Filed`, or `FiledAsWritten` that keeps
  a None date).
- `Listing`: lines 51-59. The map becomes rows and `sorted` orders them by
  timestamp, using Python's string order (`Below`). `IsListing` states the
  result: strictly ascending, one row per key, each carrying that key's
  value. `ListingUnique` shows that only one list meets it. `SortAsWritten`
  is the same sort over timestamps that may be None, where comparing None
  raises TypeError.
- `Series`, `Referrers`, `Paths`: the three shapes of the merge loop
  (lines 19-27, 29-40, 42-48). Each comes as a left-fold specification
  (`Merged`) and as a method with the source's nested loops and in-place
  map updates (`CombineSeries`, `CombineReferrers`, `CombinePaths`). Each
  method's `ensures` ties its output to the listing of `Merged`.

The referrers and paths methods skip files whose name has no date; see
"Findings" for why. Two points where the code does not do what the tool is
meant to do:

- A second run over the same files is meant to give the same output. For
  referrers and paths the code raises instead (see "Findings").
- The code has no handling for a malformed file (see "Left out").

## Model

| member | source | states |
|---|---|---|
| FilenameDate.DateAt | combine_json_files.py:7 | a substring matching `\d{4}-\d{2}-\d{2}` starts at the offset: four digits, a hyphen, two digits, a hyphen, two digits |
| FilenameDate.ScanFrom | combine_json_files.py:7 | the offset found is a date-shaped start at or after the scan point with none before it; None means no date-shaped start from there on |
| FilenameDate.ExtractTimestamp | combine_json_files.py:6-8 | None exactly when no substring has the `DDDD-DD-DD` shape; otherwise the leftmost such substring, which is itself ten characters of that shape |
| FilenameDate.NoDigitNoDate | combine_json_files.py:6-8 | a name without digits gives None |
| FilenameDate.NoDateInPrefix | combine_json_files.py:7 | no date-shaped substring starts inside a prefix without digits, whatever follows it |
| FilenameDate.ExtractsSnapshotDate | combine_json_files.py:6-8 | a `{repo}-{metric}-{date}.json` name in which no date-shaped substring starts before the date gives exactly that date |
| FilenameDate.CombinedFileHasNoDate | combine_json_files.py:6-8 | the combiner's own output name `soprano-referrers-combined.json` gives None |
| MaxMerge.Bump | combine_json_files.py:23-27 | absorbing a reading adds its key and changes no other key; the key's count and uniques become at least both the previous value (0 when new) and the reading, and equal one of them |
| MaxMerge.EmptyIsMaxMerge | combine_json_files.py:12 | the empty map merges no readings |
| MaxMerge.BumpExtends | combine_json_files.py:23-27 | one merge step turns the max-merge of a set of readings into the max-merge of that set plus the absorbed reading |
| MaxMerge.MaxMergeUnique | combine_json_files.py:26-27 | two maps that are max-merges of the same readings are equal, so the fold's result depends only on the set of readings |
| MaxMerge.BumpCommutes | combine_json_files.py:26-27 | absorbing two readings in either order gives the same map |
| MaxMerge.BumpIdempotent | combine_json_files.py:26-27 | absorbing the same reading twice gives the same map as absorbing it once |
| MaxMerge.FoldIsMaxMerge | combine_json_files.py:23-40 | folding items with a step that absorbs each item's reading gives the max-merge of their readings: each key's count (uniques) is the maximum of 0 and every count (uniques) read for it; used for views/clones keyed by timestamp and referrers keyed by referrer |
| MaxMerge.SameItemsSameReadings | combine_json_files.py:19-21 | the readings depend only on which items were seen, not on their order or how often |
| Snapshots.MatchesPattern | combine_json_files.py:15 | the file name matches the glob `{repo}-{metric}-*.json`: it starts with `{repo}-{metric}-` and ends with `.json` |
| Snapshots.NameMatchesPattern | combine_json_files.py:15 | every name `{repo}-{metric}-{anything}.json` matches the glob, dated or not |
| Snapshots.Flat | combine_json_files.py:19-21 | an item is among a snapshot's items exactly when it is in one of its entries |
| Snapshots.AllItems | combine_json_files.py:15-21 | an item is among all items exactly when some snapshot holds it |
| Snapshots.Under | combine_json_files.py:30 | filing items under a key keeps their number and order and pairs each with the key |
| Snapshots.Filed | combine_json_files.py:16-30 | corrected filing: each item of a snapshot whose name gives a date is paired with that date, in file order; a snapshot whose name gives none contributes nothing |
| Snapshots.FiledAsWritten | combine_json_files.py:16-30 | filing as written: each item of every snapshot is paired with the optional date of its file name, None for an undated name |
| Snapshots.FileInto | combine_json_files.py:30-32 | filing an item creates or updates only the bucket of its date; every other date's bucket is unchanged |
| Snapshots.FiledMember | combine_json_files.py:16-30 | a (date, item) pair is filed exactly when some snapshot's name gives that date and the snapshot holds the item |
| Snapshots.FoldFiledAt | combine_json_files.py:29-32 | after filing, a date has a bucket exactly when some item was filed under it, and the bucket is the fold of exactly those items in order |
| Snapshots.FiledIsDatedPart | combine_json_files.py:16 | skipping undated files keeps exactly the items the code files under each real date |
| Snapshots.UndatedFileNotFiled | combine_json_files.py:15-16 | a file whose name has no date files nothing in the corrected model |
| Snapshots.DatedBucketsAgree | combine_json_files.py:16-32 | the corrected fold and the as-written fold agree on every real date |
| Snapshots.UndatedBesideDatedAsWritten | combine_json_files.py:15-32 | as written, a dated file read together with an undated one leaves a bucket under the date and a bucket under None |
| Snapshots.AllUndatedUnderNone | combine_json_files.py:15-30 | when no file name carries a date, the code as written files every item under None, in reading order, and nothing under any date |
| Snapshots.AllUndatedAsWritten | combine_json_files.py:15-32 | as written, undated files holding at least one item between them, with no dated snapshot, leave exactly one bucket, under None |
| Snapshots.AllDatedNothingUndated | combine_json_files.py:15-30 | when every file name carries a date, the code as written files no item under None |
| Snapshots.AllDatedAgree | combine_json_files.py:15-32 | when every file name carries a date, the as-written fold has no None bucket, and it has a bucket for Some(d) exactly when the corrected fold has one for d, with the same contents |
| Listing.Below | combine_json_files.py:59 | Python's `<` on strings: lexicographic by code point, a proper prefix first |
| Listing.BelowTransitive | combine_json_files.py:59 | Python's string order is transitive |
| Listing.BelowTotal | combine_json_files.py:59 | Python's string order is total on distinct strings |
| Listing.Insert | combine_json_files.py:59 | insertion adds the row and nothing else, as multisets |
| Listing.SortByTimestamp | combine_json_files.py:59 | the result is ascending by timestamp and a permutation of the input |
| Listing.SortKeepsDistinct | combine_json_files.py:59 | sorting keeps timestamps distinct |
| Listing.Items | combine_json_files.py:52-56 | the comprehension gives one row per key of the map, with no duplicate key, each row carrying the key's value |
| Listing.ListingUnique | combine_json_files.py:51-59 | there is only one listing of a map, so the combined output is fully determined by the merged map |
| Listing.ListSorted | combine_json_files.py:51-59 | the output is strictly ascending by timestamp, has one row per key and carries each key's merged value |
| Listing.InsertAsWritten | combine_json_files.py:59 | insertion with Python's comparison on optional timestamps adds the row and nothing else when it does not raise |
| Listing.SortAsWritten | combine_json_files.py:59 | `sorted` on rows whose timestamp may be None: when it returns, the result is a permutation of the input |
| Listing.InsertAsWrittenRaises | combine_json_files.py:59 | inserting into a list the sort returned raises exactly when the list is non-empty and the new row or a listed row has a None timestamp |
| Listing.SortAsWrittenRaises | combine_json_files.py:59 | the sort raises TypeError exactly when a None timestamp shares the list with at least one other row |
| Listing.ItemsSortRaises | combine_json_files.py:51-59 | sorting the items of a map keyed by optional timestamps raises exactly when None is a key beside some date, in any item order |
| Listing.LoneUndatedRow | combine_json_files.py:51-59 | a map whose only key is None lists as one row with a None timestamp, and the sort returns it unchanged |
| Listing.DistinctRowsFit | combine_json_files.py:52-56 | rows with distinct timestamps drawn from a key set are no more than the keys |
| Listing.InsertDated | combine_json_files.py:59 | on dated rows, insertion as written never raises and inserts where `Insert` does |
| Listing.SortDated | combine_json_files.py:59 | on dated rows, the sort as written never raises and orders the rows as `SortByTimestamp` does |
| Listing.DatedItemsSort | combine_json_files.py:51-59 | sorting as written the items of a map without a None key never raises and returns the listing of its dated version, whatever the items' order |
| Series.Merged | combine_json_files.py:12-27 | the views/clones map after the loop: every item of every snapshot folded in order into an empty map, keyed by the item's timestamp |
| Series.Absorb | combine_json_files.py:21-27 | absorbing an item adds its timestamp and leaves every other timestamp unchanged |
| Series.MergedIsMaxMerge | combine_json_files.py:15-27 | the combined views/clones map is the max-merge of every item of every snapshot |
| Series.MergedCoversItem | combine_json_files.py:21-27 | every item's timestamp is present, with count and uniques at least the item's and never negative |
| Series.MergedDependsOnItemsOnly | combine_json_files.py:15-27 | two snapshot lists holding the same items give the same map |
| Series.SnapshotOrderIrrelevant | combine_json_files.py:15 | reordering the snapshot files does not change the map |
| Series.DuplicateSnapshotIrrelevant | combine_json_files.py:26-27 | reading a snapshot a second time does not change the map |
| Series.EmptyFileIrrelevant | combine_json_files.py:19-21 | a file whose entries have no items, such as the combiner's own views/clones output, changes nothing |
| Series.InsertThenRaise | combine_json_files.py:23-27 | the source's insert-at-zero followed by two max updates is one merge step |
| Series.AbsorbItems | combine_json_files.py:21-27 | the item loop computes the fold of its items into the map it starts from |
| Series.CombineSeries | combine_json_files.py:12-59 | the views/clones pass returns the listing of the max-merge of all items |
| Referrers.Absorb | combine_json_files.py:36-40 | absorbing an item adds its referrer and leaves every other referrer unchanged |
| Referrers.Merged | combine_json_files.py:12-40 | the corrected referrers map: the dated items filed under their dates, each date's items folded into a map keyed by referrer |
| Referrers.MergedAsWritten | combine_json_files.py:12-40 | the referrers map as the code builds it: items of undated files are filed under None |
| Referrers.MergedByDate | combine_json_files.py:29-40 | a date is present exactly when some item was filed under it, and its referrers are the max-merge of those items |
| Referrers.FiledUnderFileDate | combine_json_files.py:16-30 | every item of a dated snapshot is filed under the date in the file name, whatever it contains: its referrer is present for that date, with count and uniques at least the item's and never negative |
| Referrers.MergedDependsOnFiledOnly | combine_json_files.py:39-40 | two snapshot lists that file the same (date, item) pairs give the same map |
| Referrers.SnapshotOrderIrrelevant | combine_json_files.py:15 | reordering the snapshot files does not change the map |
| Referrers.DuplicateSnapshotIrrelevant | combine_json_files.py:39-40 | reading a snapshot a second time does not change the map |
| Referrers.UndatedFileIgnored | combine_json_files.py:15-16 | corrected: a file without a date in its name, such as the combiner's own output, changes nothing |
| Referrers.MergedIsDatedPartOfAsWritten | combine_json_files.py:16-32 | the corrected map agrees with the as-written one on every date |
| Referrers.RerunRaisesAsWritten | combine_json_files.py:15-59 | as written, a non-empty dated snapshot followed by a non-empty undated file makes `sorted` raise on the items of the combined map, in any item order |
| Referrers.UndatedOnlyDoesNotRaise | combine_json_files.py:15-59 | as written, undated files holding at least one item between them, with no dated snapshot, do not raise: the output is one row with a None (`null`) timestamp carrying their merged referrers |
| Referrers.AllDatedAsWritten | combine_json_files.py:12-59 | when every file name carries a date, the as-written map has no None key, and the as-written sort of its items, in any order, returns exactly the rows of the corrected listing |
| Referrers.RerunFileNames | combine_json_files.py:6-16 | `soprano-referrers-2024-05-01.json` and `soprano-referrers-combined.json` both match the glob for (`soprano`, `referrers`); the first gives its date and the second gives None |
| Referrers.FileThenRaise | combine_json_files.py:31-40 | the source's nested update (create the date bucket, insert the referrer at zero, raise both fields) is one filing step |
| Referrers.AbsorbReferrals | combine_json_files.py:29-40 | the item loop files each item of an entry under the file's date, as the fold does |
| Referrers.AbsorbSnapshot | combine_json_files.py:19-40 | the entry loop files every item of a snapshot under its date |
| Referrers.CombineReferrers | combine_json_files.py:12-59 | the referrers pass returns the listing of the corrected map |
| Paths.Absorb | combine_json_files.py:44-48 | absorbing an item adds its path and leaves every other path unchanged; a new path takes the item's title and a known path keeps its title |
| Paths.AbsorbTallies | combine_json_files.py:45-48 | on count and uniques, a paths step is the max-merge step |
| Paths.FoldCountsIsMaxMerge | combine_json_files.py:44-48 | folding a date's items gives, on count and uniques, the max-merge of their readings keyed by path |
| Paths.FoldTitle | combine_json_files.py:44-45 | a path is present exactly when some item has it, and its title is the title of the first such item |
| Paths.FoldKeepsTitle | combine_json_files.py:44-45 | later items never change a title already set |
| Paths.SameTalliesSameTitles | combine_json_files.py:45-48 | a date's map is determined by its counts and its titles |
| Paths.Merged | combine_json_files.py:12-48 | the corrected paths map: the dated items filed under their dates, each date's items folded into a map keyed by path |
| Paths.MergedAsWritten | combine_json_files.py:12-48 | the paths map as the code builds it: items of undated files are filed under None |
| Paths.MergedByDate | combine_json_files.py:29-48 | a date is present exactly when some item was filed under it, and its counts are the max-merge of those items |
| Paths.MergedTitle | combine_json_files.py:44-45 | the title kept for a path on a date is that of the first item filed for it under that date |
| Paths.FiledUnderFileDate | combine_json_files.py:16-30 | every item of a dated snapshot is filed under the date in the file name: its path is present for that date, with count and uniques at least the item's and never negative |
| Paths.SnapshotOrderKeepsCounts | combine_json_files.py:47-48 | reordering the snapshot files keeps the dates, the paths and their counts |
| Paths.TitleDependsOnOrder | combine_json_files.py:44-45 | two files of one date with the same path under different titles: the title kept is that of the file read first |
| Paths.DuplicateSnapshotIrrelevant | combine_json_files.py:44-48 | reading a snapshot a second time does not change the map, titles included |
| Paths.FoldKnownItems | combine_json_files.py:44-48 | folding more items that were all folded before changes nothing |
| Paths.FiledOnSnoc | combine_json_files.py:16-30 | filing one more snapshot appends the items it files under each date |
| Paths.AlreadyFiled | combine_json_files.py:16-30 | the items a snapshot already read files under a date are already filed there |
| Paths.UndatedFileIgnored | combine_json_files.py:15-16 | corrected: a file without a date in its name changes nothing |
| Paths.MergedIsDatedPartOfAsWritten | combine_json_files.py:16-32 | the corrected map agrees with the as-written one on every date |
| Paths.RerunRaisesAsWritten | combine_json_files.py:15-59 | as written, a non-empty dated snapshot followed by a non-empty undated file makes `sorted` raise on the items of the combined map, in any item order |
| Paths.UndatedOnlyDoesNotRaise | combine_json_files.py:15-59 | as written, undated files holding at least one item between them, with no dated snapshot, do not raise: the output is one row with a None (`null`) timestamp carrying their merged paths |
| Paths.AllDatedAsWritten | combine_json_files.py:12-59 | when every file name carries a date, the as-written map has no None key, and the as-written sort of its items, in any order, returns exactly the rows of the corrected listing |
| Paths.FileThenRaise | combine_json_files.py:31-48 | the source's nested update (create the date bucket, insert the path with the item's title at zero, raise count then uniques) is one filing step |
| Paths.AbsorbVisits | combine_json_files.py:29-48 | the item loop files each item of an entry under the file's date, as the fold does |
| Paths.AbsorbSnapshot | combine_json_files.py:19-48 | the entry loop files every item of a snapshot under its date |
| Paths.CombinePaths | combine_json_files.py:12-59 | the paths pass returns the listing of the corrected map |

## Left out

- Directory globbing, file reading, `json.load`, `json.dump` and the output
  write (lines 11, 15, 17-18, 62-63) are I/O. The model takes the matched
  files as a list of snapshots, in glob order, and returns the rows to write.
- `main` and its repository list (lines 65 onward) are configuration with
  no logic.
- The regular-expression engine: only the meaning of the pattern `\d{4}-\d{2}-\d{2}`
  is modelled. `\d` is modelled as the ASCII digits; Python's `\d` on `str`
  also accepts other Unicode decimal digits.
- The order of the inner referrer and path lists (lines 54, 56) is Python
  dict insertion order. The model keeps each date's inner collection as a map.
- Listing.Items: the order of the rows before sorting (dict order) is left
  open; only the sorted result is pinned.
- A `data_type` other than the four metrics produces no rows and then fails
  at line 59 because `combined_list` is unbound. That driver error is not
  modelled; the three modelled passes are the views/clones, referrers and
  paths branches.
- Malformed item fields. In the source, a missing key raises KeyError.
  The keys it reads are `timestamp` (line 22, views and clones items only),
  `referrer` (line 35), `path` (line 43), and `count` and `uniques` (lines
  26-27, 39-40 and 47-48). It reads `title` only for the first item of a
  path on a date (line 45), so a later item of a known path may lack it. A
  `count` or `uniques` that is not a number (a string, `null`) makes `max`
  raise TypeError. Neither error is modelled: the model's typed items always
  carry every field, with integer counts.
- Float and boolean counts. The source merges them with `max` like integers
  and writes them back (`max(2.5, 0)` is 2.5). The model's items carry
  `int`, so such values are not modelled.
- A missing `data` key (or metric key) is modelled as an empty item list,
  as the `.get` defaults do.
- Listing.SortAsWritten: models `sorted` as an insertion sort, while
  CPython uses Timsort, which compares rows in another order. The set of
  inputs that raise is the same: with two or more rows every row takes part
  in some comparison, and every comparison involving None raises. Only the
  insertion sort's behaviour is proved.
- The rows of the as-written listing carry the date's merged map rather
  than the list of dicts built at lines 54 and 56; the sort looks only at
  the timestamp.
- .github/scripts/collect_traffic.py is not part of this model. The model
  assumes each snapshot file holds a JSON list of entries, as lines 19-21
  and 29 iterate it. A file holding one JSON object (`{"collected_at": ...,
  "data": ...}`) would be iterated by its keys, and `.get` on a key string
  raises AttributeError at line 21 or 29.
- Python integers are unbounded, like Dafny's `int`, so no width is modelled.
- The fetcher, reducer and summary store are not part of this model.
- Paths.SnapshotOrderKeepsCounts: states order independence for dates,
  paths and counts only, because the titles do depend on the order in which
  files are read (Paths.TitleDependsOnOrder).
- CombineReferrers, CombinePaths: they model the corrected combiner, which
  skips files without a date in their name. The as-written behaviour on
  such files is modelled by `MergedAsWritten` and the `RerunRaisesAsWritten`
  lemmas. When every file name carries a date, `AllDatedAsWritten` shows
  that the code as written produces the same rows as these methods.

## Findings

| source | as written | input that shows it | evidently intended | confidence | as-written member | corrected member |
|---|---|---|---|---|---|---|
| combine_json_files.py:15-16, 59 | the glob `{repo}-referrers-*.json` also matches the combiner's own output `{repo}-referrers-combined.json`; that name has no date, so its items are filed under None, and `sorted` then compares None with a date string and raises TypeError | `soprano-referrers-2024-05-01.json` and a `soprano-referrers-combined.json` left by an earlier run, each holding one referrer item | read only the dated snapshots, so that re-running the combiner gives the same output | high; not executed | Referrers.RerunRaisesAsWritten | Referrers.UndatedFileIgnored |
| combine_json_files.py:15-16, 59 | the same for paths: the earlier `{repo}-paths-combined.json` is re-read, its items go under None and the sort raises | `soprano-paths-2024-05-01.json` and a non-empty `soprano-paths-combined.json` from an earlier run | read only the dated snapshots | high; not executed | Paths.RerunRaisesAsWritten | Paths.UndatedFileIgnored |

With undated files only (any number of them, holding at least one item) and
no dated snapshot, the as-written pass does not raise: it writes one row
whose timestamp is `null` (`UndatedOnlyDoesNotRaise`). The sort raises only once such a row sits
beside a dated one.
