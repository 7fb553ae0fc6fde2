# S3 bucket inventory — a Dafny model of its core

The inventory tool lists every bucket of an account. For each bucket it scans
the paginated list of object versions, optionally filtered by storage class,
and builds a summary:

- object count, including delete markers;
- total size in a display unit and estimated monthly cost;
- the latest modification time;
- a histogram of server-side-encryption types;
- whether lifecycle and replication rules are configured;
- the bucket's region.

It then attaches each summary's share of the total size and prints the
summaries flat, grouped by region or grouped by dominant encryption type.

This project models that pipeline in pure functions. Every answer the storage
service would give is an input value:

- the pages of the version listing;
- the outcome of the per-version metadata lookup, carried on each version;
- both configuration queries;
- the location constraint.

Sizes and costs are exact `real`s. Timestamps are `nat`s counted from the
smallest representable instant, so `0` plays the role of `datetime.min`.

Modules, following the source:

- `Utils` (utils.py): `FormatSize`, `CalculateCost`, `DominantEncryption`, `GroupByEncryption`.
- `Scan` (s3_lister.py, the loop of `get_bucket`): the fold over pages and
  versions. Reference definitions over the flattened list of accepted versions,
  and lemmas proving that the fold computes them.
- `Lister` (s3_lister.py): the return rules of `get_bucket` (`GetBucket`),
  `get_bucket_region`, the three-way configuration outcome, collection of
  the per-bucket results, percentages, and region grouping
  (`SummarizeBuckets`).
- Helpers:
  - `Tallies`: a histogram as a Python dict keeps it, ordered by first insertion.
  - `Grouping`: the `defaultdict(list)` append pattern.
  - `Text`: `lower()` and `upper()`.
  - `Records`: the summary record.
  - `Wrappers`: `Option` and `Result`.

Behaviour of the code that the model keeps, including cases a reader of the
code might not expect:

- The summary reads the storage class of the last version visited. If no
  version was visited, the code raises `UnboundLocalError` and the model
  returns `StorageClassUnbound`. This happens for a bucket with no versions at
  all, when no storage-class filter is in force. It also happens for a bucket
  holding only delete markers, even though they count toward the object count.
  When a result is read, the error propagates and ends the whole run, so
  `Collect` fails on the first such outcome in completion order.
- A storage-class filter that matches nothing still yields a summary when the
  bucket has delete markers and at least one (skipped) version. That summary
  counts only the markers and reports the class of the last skipped version.
- The dominant encryption type is deterministic. A dict iterates in insertion
  order, and `max` keeps the first of equal counts, so a tie goes to the
  encryption type seen first during the scan.
- An empty name pattern or an empty storage-class filter is falsy in Python,
  so it acts as no filter.

## Model

| member | source | states |
|---|---|---|
| Text.Lower | utils.py:16 | lower-casing keeps the length and maps every ASCII capital to its small letter, leaving other characters alone |
| Text.Upper | utils.py:35 | upper-casing keeps the length and maps every ASCII small letter to its capital, leaving other characters alone |
| Utils.UnitDivisor | utils.py:10-16 | the divisor is one of 1, 1024, 1024², 1024³; a unit whose lower-cased form is in the table gets that entry's divisor, and any other unit gets the "mb" divisor |
| Utils.ListedUnit | utils.py:10-16 | "kb" and "KB" both divide by 1024 |
| Utils.FormatSize | utils.py:9-16 | the result times the unit's divisor is the byte count again; a non-negative byte count gives a result between 0 and the byte count |
| Utils.FormatSizeIgnoresCase | utils.py:16 | formatting with a unit and with its lower-cased form give the same result |
| Utils.FormatSizeMonotone | utils.py:16 | for a fixed unit, more bytes never format to a smaller size |
| Utils.FormatSizeFallback | utils.py:16 | a unit not in the table formats exactly as "mb" |
| Utils.FormatSizeExamples | utils.py:10-16 | 1048576 bytes is 1 mb; "bytes" returns the input unchanged |
| Utils.FormatSizeUnitExamples | utils.py:10-16 | "GB" divides by 1024³; "tb" falls back to 1024² |
| Utils.RatePerGb | utils.py:28-35 | the rate is positive; a class whose upper-cased form is in the table gets that entry's rate, and any other class gets the STANDARD rate 0.023 |
| Utils.ListedRate | utils.py:28-35 | "GLACIER" and "glacier" both cost 0.004 per GiB |
| Utils.CalculateCost | utils.py:27-35 | one GiB costs exactly the class's rate; cost is non-negative for a non-negative size and 0 at size 0 |
| Utils.RateIgnoresCase | utils.py:35 | a class and its upper-cased form have the same rate |
| Utils.CostIgnoresCase | utils.py:35 | a class and its upper-cased form cost the same at every size |
| Utils.CostAdditive | utils.py:35 | for a fixed class, the cost of a + b bytes is the cost of a plus the cost of b |
| Utils.CostExampleCase | utils.py:28-35 | "glacier" and "GLACIER" cost the same at every size |
| Utils.CostExampleUnknown | utils.py:35 | one GiB of "UNKNOWN_TIER" costs 0.023 |
| Utils.DominantEncryption | utils.py:43-48 | an empty histogram gives "Unknown"; otherwise the result is a key whose count is at least every other count; every entry before it has a strictly smaller count (ties go to the first key) |
| Utils.DominantEncryptionExamples | utils.py:43-48 | {"AES256": 5, "aws:kms": 2} gives "AES256"; an empty histogram gives "Unknown" |
| Utils.DominantIsFirstMaximum | utils.py:48 | the dominant type of a non-empty histogram sits at a position whose count is the largest, with every earlier entry's count strictly smaller |
| Utils.GroupByEncryption | utils.py:40-50 | keys are distinct; each group is exactly the rows with that dominant type, in input order; every row's type has a group; no group is empty; the group sizes add up to the number of rows |
| Tallies.Bump | s3_lister.py:92 | incrementing raises that key's count by one and leaves every other count unchanged; the total grows by one; a new key is appended at the end; existing keys keep their places |
| Tallies.BumpLabels | s3_lister.py:92 | after incrementing, the keys are the old keys plus the incremented key |
| Tallies.BumpDistinct | s3_lister.py:92 | incrementing keeps keys distinct and counts positive |
| Tallies.BumpKeys | s3_lister.py:92 | incrementing a key already present leaves the key order unchanged; a new key is appended after all others |
| Tallies.MaxIndexFrom | utils.py:48 | the left-to-right scan of `max` returns a position whose count is at least every count, and every earlier position has a strictly smaller count |
| Grouping.Place | utils.py:49 | appending under a key extends only that key's group, or adds a new group at the end; the member total grows by one |
| Grouping.GroupBy | utils.py:41-49 | grouping every element by its key gives distinct keys and no empty group; the group sizes add up to the input length |
| Grouping.GroupByContents | utils.py:41-49 | each group is exactly the elements with its key, in input order; every element's key has a group |
| Grouping.GroupByMembers | utils.py:41-49 | the members of all groups, group after group, are a permutation of the input: nothing is lost or duplicated |
| Grouping.GroupByPartitions | utils.py:41-49 | every element is in the group of its key and in no other group; every member comes from the input; no group is empty |
| Scan.Accepted | s3_lister.py:73-75 | a version is kept exactly when no filter is in force or its class (default "STANDARD") equals the filter, ignoring case |
| Scan.ScanTotals | s3_lister.py:77-85 | from the start, the fold's count, bytes and cost equal the number of accepted versions, the sum of their sizes and the sum of their costs |
| Scan.ScanLatest | s3_lister.py:62-83 | the fold's last-modified time is at least every accepted version's time and equals one of them; with no accepted version it is the minimum instant |
| Scan.ScanEncryption | s3_lister.py:86-92 | the histogram counts each accepted version once, under its algorithm, "None" when the lookup had no field, or "Unknown" when it failed; the counts add up to the accepted versions; keys are distinct and counts positive; the keys are the accepted versions' labels in the order each was first counted |
| Scan.FirstSeen | s3_lister.py:86-92 | the reference key order: a label is listed exactly when some version carries it |
| Scan.ScanKeyOrder | s3_lister.py:71-92 | from the start, the histogram's keys are the accepted versions' labels in order of first occurrence |
| Scan.DominantIsFirstSeen | utils.py:48 | for a histogram that counts a list of versions in first-seen order, the dominant type is a most frequent label of the list and every label first seen before it is strictly less frequent |
| Scan.ScanVersionsFromStart | s3_lister.py:71-92 | all of the above for one list of versions; the remembered class is that of the last version, accepted or not |
| Scan.ScanVersionsAppend | s3_lister.py:67-71 | scanning a concatenation equals scanning the first part and then the second |
| Scan.ScanPagesFlat | s3_lister.py:67-94 | scanning page by page equals scanning all versions in listing order once, with every page's delete markers added to the count |
| Scan.ScanPagesMeetsReference | s3_lister.py:59-94 | over the whole listing, the count is the accepted versions plus all delete markers; bytes, cost, latest time and histogram (counts and key order) are those of the accepted versions; the class is that of the last version listed |
| Scan.RejectedVersionIsInvisible | s3_lister.py:73-75 | inserting a version the filter rejects anywhere in a list leaves count, bytes, cost, latest time and histogram unchanged |
| Lister.ConfigStatus | s3_lister.py:96-112 | a returned configuration is present; the query's own not-found code is absent; any other client error is an error; nothing aborts |
| Lister.NotFoundCodesAreNotShared | s3_lister.py:100-109 | a lifecycle query failing with the replication not-found code is an error, and vice versa |
| Lister.BucketRegion | s3_lister.py:132-134 | a missing or empty location constraint gives "us-east-1"; any other constraint is the region; the region is never empty |
| Lister.GetBucket | s3_lister.py:54-129 | a rejected name gives no summary and nothing is scanned; otherwise there is no summary exactly when a filter is in force and nothing was counted; the scan fails exactly when no version was listed; any summary's fields are the reference values of the listing, its encryption keys in the order first counted |
| Lister.DominantIsFirstSeenMaximum | s3_lister.py:86-92 | a summary with accepted versions reports as dominant a label counted most often among them, and of several such labels the one counted first during the scan |
| Lister.NoVersionsFails | s3_lister.py:114-125 | a kept bucket with no version fails unless a filter is in force and it also has no delete marker |
| Lister.FilteredOutBucketWithMarkers | s3_lister.py:73-125 | if a filter rejects every version and the bucket has delete markers, it still gets a summary that counts only the markers, with zero size and cost, an empty histogram and the last skipped version's class |
| Lister.Summaries | s3_lister.py:23-26 | the summaries among the scan results keep each summary as often as it was found; `None` results and failures contribute nothing |
| Lister.Collect | s3_lister.py:23-26 | collection fails exactly when some scan failed; otherwise it yields the found summaries in completion order, each as often as its outcome occurs, with the `None` results dropped |
| Lister.CollectIgnoresOrder | s3_lister.py:23-26 | any reordering of the completed scans succeeds or fails alike and collects the same multiset of summaries |
| Lister.AttachPercentages | s3_lister.py:27-36 | one row per summary, in order, carrying that summary and its size as a percentage of the summed sizes; every share is 0 when the total size is 0 |
| Lister.SharesSum | s3_lister.py:33-35 | shares of a fixed non-zero total add up to the summed sizes over that total, times 100 |
| Lister.PercentagesSumTo100 | s3_lister.py:29-36 | with a non-zero total size, the shares add up to exactly 100 |
| Lister.PercentagesInRange | s3_lister.py:33-35 | non-negative sizes get shares between 0 and 100 |
| Lister.GroupByRegion | s3_lister.py:38-41 | keys are distinct; each group is exactly the rows of that region, in input order; every row's region has a group; no group is empty; no row is dropped |
| Lister.GroupByRegionExample | s3_lister.py:38-41 | rows in us-east-1, eu-west-1, us-east-1 give two groups: us-east-1 with two rows first, then eu-west-1 with one |
| Lister.SummarizeBuckets | s3_lister.py:23-51 | the run fails exactly when a scan failed; region grouping wins over encryption grouping, and with neither flag the rows stay flat in completion order; the report's rows are a permutation of the collected summaries with their shares; group keys are distinct, no group is empty, and every row in a group has that group's region or dominant encryption type |
| Lister.ReportFromOutcomes | s3_lister.py:18-51 | for any reordering of the scan results, the run fails exactly when one of them failed; otherwise the report has one row per found summary, every row's summary was found, and every found summary is in some row |
| Lister.FleetReport | s3_lister.py:14-51 | over a list of buckets scanned in any completion order, the run fails exactly when some bucket's scan fails; otherwise the report has one row per bucket that yields a summary, every row carries such a bucket's summary, and every such summary is in a row |

## Left out

- The storage-service client and its calls (listing buckets, paginating
  versions, `head_object`, the configuration queries, the location query).
  Their answers are input data in `BucketData` and `Version`.
- Exceptions the code does not catch are not modelled. These are failures of
  pagination or of the location query, and configuration-query failures that
  are not client errors. They propagate as a failed scan.
- The thread pool. `Collect` takes the outcomes in an arbitrary completion
  order, and `CollectIgnoresOrder` shows that the order does not change what
  is collected.
- Printing: `print_table`, `tabulate`, the region and encryption headers, and
  the whole command-line entry point in main.py.
- Glob matching (`fnmatch`). `GetBucket` takes the matcher as a function
  parameter `matches`.
- `filter_objects_by_storage_class`: it is imported but never called.
- The per-class tally `storage_class_count`: it is accumulated but never output.
- Utils.FormatSize: does not round to 3 decimal places; the result is the exact quotient.
- Lister.GetBucket: does not round the cost to 6 decimal places and does not format the dates with `strftime`; timestamps stay numbers.
- Lister.AttachPercentages: keeps the share as an exact number instead of the `"%.2f%%"` string.
- Text.Lower: maps only the ASCII letters, while Python's `lower()` also maps other Unicode letters.
- Text.Upper: maps only the ASCII letters, while Python's `upper()` also maps other Unicode letters.
- Utils.GroupByEncryption: a summary always carries its histogram. The code's default for a missing "Encryption Types" field is therefore not reachable; the empty histogram is modelled.
