/** One bucket's summary from the service's answers, and the fleet-wide steps
    that follow: collecting the summaries, attaching each one's share of the
    total size, and grouping by region or by dominant encryption type. */
module Lister {
  import opened Wrappers
  import opened Tallies
  import opened Grouping
  import opened Records
  import opened Utils
  import opened Scan

  /** Answer to a configuration query: the configuration came back, or the
      service raised a client error with a code. */
  datatype ConfigResponse = Configured | ClientError(code: string)

  /** Everything the service answers about one bucket: its listing entry, the
      pages of its version listing, both configuration queries and its location. */
  datatype BucketData = BucketData(
    name: string,
    creationDate: Timestamp,
    pages: seq<Page>,
    lifecycle: ConfigResponse,
    replication: ConfigResponse,
    locationConstraint: Option<string>)

  /** Result of one bucket's scan: no summary (`None`), a summary, or the
      `UnboundLocalError` raised when the summary reads the storage class of
      the last version visited and no version was visited. */
  datatype ScanOutcome = NoSummary | Found(summary: Summary) | StorageClassUnbound(bucket: string)

  const NoLifecycleCode: string := "NoSuchLifecycleConfiguration"
  const NoReplicationCode: string := "ReplicationConfigurationNotFoundError"
  const DefaultRegion: string := "us-east-1"

  /** The three-way outcome of a configuration query: returned means present,
      the query's own not-found code means absent, any other client error is
      recorded as an error. */
  function ConfigStatus(response: ConfigResponse, notFoundCode: string): (state: ConfigState)
    ensures state == Present <==> response.Configured?
    ensures state == Absent <==> response == ClientError(notFoundCode)
    ensures state == QueryError <==> response.ClientError? && response.code != notFoundCode
  {
    match response
    case Configured => Present
    case ClientError(code) => if code == notFoundCode then Absent else QueryError
  }

  /** The not-found codes are specific to their query: a lifecycle query that
      fails with the replication code is an error, and vice versa. */
  lemma NotFoundCodesAreNotShared()
    ensures ConfigStatus(ClientError(NoReplicationCode), NoLifecycleCode) == QueryError
    ensures ConfigStatus(ClientError(NoLifecycleCode), NoReplicationCode) == QueryError
  {
  }

  /** The region of a bucket: a missing or empty location constraint means the
      default region; any other constraint is the region itself. */
  function BucketRegion(locationConstraint: Option<string>): (region: string)
    ensures region != ""
    ensures locationConstraint.Some? && locationConstraint.value != "" ==> region == locationConstraint.value
    ensures locationConstraint.None? || locationConstraint.value == "" ==> region == DefaultRegion
  {
    match locationConstraint
    case Some(r) => if r != "" then r else DefaultRegion
    case None => DefaultRegion
  }

  /** A name pattern is in force when one is given and it is not empty, and it
      rejects a bucket whose name it does not match. */
  predicate NameRejected(name: string, namePattern: Option<string>, matches: (string, string) -> bool)
  {
    namePattern.Some? && namePattern.value != "" && !matches(name, namePattern.value)
  }

  /** The fields of a summary built from a full scan of `bucket`. */
  ghost predicate SummaryOf(s: Summary, bucket: BucketData, storageClass: Option<string>, unit: string)
  {
    var all := AllVersions(bucket.pages);
    var a := Accepted(all, storageClass);
    && s.bucket == bucket.name
    && s.creationDate == bucket.creationDate
    && s.files == |a| + DeleteMarkers(bucket.pages)
    && s.totalSize == FormatSize(TotalBytes(a) as real, unit)
    && s.totalSize >= 0.0
    && IsLatest(s.lastModified, a)
    && s.cost == TotalCost(a)
    && s.cost >= 0.0
    && s.region == BucketRegion(bucket.locationConstraint)
    && |all| > 0 && s.storageClass == ClassOf(all[|all| - 1])
    && (forall name :: Count(s.encryptionTypes, name) == Occurrences(a, name))
    && Total(s.encryptionTypes) == |a|
    && Distinct(s.encryptionTypes) && Positive(s.encryptionTypes)
    && Keys(s.encryptionTypes) == FirstSeen(a)
    && s.hasLifecycle == ConfigStatus(bucket.lifecycle, NoLifecycleCode)
    && s.hasReplication == ConfigStatus(bucket.replication, NoReplicationCode)
  }

  /** `get_bucket`: skip a bucket the name pattern rejects without scanning it;
      otherwise fold over the pages, query both configurations, and return no
      summary when a storage-class filter is in force and nothing was counted.
      A summary needs the class of the last version visited, so a bucket with
      no version at all fails instead. */
  function GetBucket(bucket: BucketData, namePattern: Option<string>, storageClass: Option<string>,
                     unit: string, matches: (string, string) -> bool): (r: ScanOutcome)
    ensures NameRejected(bucket.name, namePattern, matches) ==> r == NoSummary
    ensures !NameRejected(bucket.name, namePattern, matches) ==>
      (r == NoSummary <==>
        FilterActive(storageClass)
        && |Accepted(AllVersions(bucket.pages), storageClass)| + DeleteMarkers(bucket.pages) == 0)
    ensures r.StorageClassUnbound? <==>
      && !NameRejected(bucket.name, namePattern, matches)
      && !(FilterActive(storageClass)
           && |Accepted(AllVersions(bucket.pages), storageClass)| + DeleteMarkers(bucket.pages) == 0)
      && |AllVersions(bucket.pages)| == 0
    ensures r.StorageClassUnbound? ==> r.bucket == bucket.name
    ensures r.Found? ==> SummaryOf(r.summary, bucket, storageClass, unit)
  {
    if NameRejected(bucket.name, namePattern, matches) then NoSummary
    else
      ScanPagesMeetsReference(bucket.pages, storageClass);
      var s := ScanPages(bucket.pages, storageClass);
      var hasLifecycle := ConfigStatus(bucket.lifecycle, NoLifecycleCode);
      var hasReplication := ConfigStatus(bucket.replication, NoReplicationCode);
      if FilterActive(storageClass) && s.count == 0 then NoSummary
      else
        match s.lastClass
        case None => StorageClassUnbound(bucket.name)
        case Some(cls) =>
          Found(Summary(
            bucket.name,
            bucket.creationDate,
            s.count,
            FormatSize(s.bytes as real, unit),
            s.lastModified,
            s.cost,
            BucketRegion(bucket.locationConstraint),
            cls,
            s.encryption,
            hasLifecycle,
            hasReplication))
  }

  /** A bucket the name pattern keeps whose listing holds no version at all,
      only delete markers or nothing, fails: no version was visited, so there
      is no storage class for its summary. */
  lemma NoVersionsFails(bucket: BucketData, namePattern: Option<string>, storageClass: Option<string>,
                        unit: string, matches: (string, string) -> bool)
    requires !NameRejected(bucket.name, namePattern, matches)
    requires forall i :: 0 <= i < |bucket.pages| ==> bucket.pages[i].versions == []
    requires !FilterActive(storageClass) || DeleteMarkers(bucket.pages) > 0
    ensures GetBucket(bucket, namePattern, storageClass, unit, matches) == StorageClassUnbound(bucket.name)
  {
    NoVersionsListed(bucket.pages);
  }

  lemma {:induction false} NoVersionsListed(pages: seq<Page>)
    requires forall i :: 0 <= i < |pages| ==> pages[i].versions == []
    ensures AllVersions(pages) == []
  {
    if |pages| > 0 {
      NoVersionsListed(pages[..|pages| - 1]);
    }
  }

  /** With a storage-class filter that no version passes, a bucket still gets a
      summary when it has delete markers and at least one version: it counts
      only the delete markers, has no size, no cost and an empty histogram,
      and reports the class of the last (skipped) version. */
  lemma FilteredOutBucketWithMarkers(bucket: BucketData, namePattern: Option<string>, storageClass: Option<string>,
                                     unit: string, matches: (string, string) -> bool)
    requires !NameRejected(bucket.name, namePattern, matches)
    requires FilterActive(storageClass)
    requires forall v :: v in AllVersions(bucket.pages) ==> !Accepts(storageClass, v)
    requires |AllVersions(bucket.pages)| > 0 && DeleteMarkers(bucket.pages) > 0
    ensures var r := GetBucket(bucket, namePattern, storageClass, unit, matches);
      && r.Found?
      && r.summary.files == DeleteMarkers(bucket.pages)
      && r.summary.totalSize == 0.0
      && r.summary.cost == 0.0
      && r.summary.lastModified == 0
      && r.summary.encryptionTypes == []
      && r.summary.storageClass == ClassOf(AllVersions(bucket.pages)[|AllVersions(bucket.pages)| - 1])
  {
    NoneAccepted(AllVersions(bucket.pages), storageClass);
    NothingAccepted(bucket, namePattern, storageClass, unit, matches);
  }

  /** The same, once the filter is known to accept nothing. */
  lemma NothingAccepted(bucket: BucketData, namePattern: Option<string>, storageClass: Option<string>,
                        unit: string, matches: (string, string) -> bool)
    requires !NameRejected(bucket.name, namePattern, matches)
    requires FilterActive(storageClass)
    requires Accepted(AllVersions(bucket.pages), storageClass) == []
    requires |AllVersions(bucket.pages)| > 0 && DeleteMarkers(bucket.pages) > 0
    ensures var r := GetBucket(bucket, namePattern, storageClass, unit, matches);
      && r.Found?
      && r.summary.files == DeleteMarkers(bucket.pages)
      && r.summary.totalSize == 0.0
      && r.summary.cost == 0.0
      && r.summary.lastModified == 0
      && r.summary.encryptionTypes == []
      && r.summary.storageClass == ClassOf(AllVersions(bucket.pages)[|AllVersions(bucket.pages)| - 1])
  {
    var r := GetBucket(bucket, namePattern, storageClass, unit, matches);
    MarkersOnlySummary(r.summary, bucket, storageClass, unit);
  }

  /** A summary of a listing whose versions the filter all rejects has only
      the delete markers in it. */
  lemma MarkersOnlySummary(s: Summary, bucket: BucketData, storageClass: Option<string>, unit: string)
    requires SummaryOf(s, bucket, storageClass, unit)
    requires Accepted(AllVersions(bucket.pages), storageClass) == []
    ensures s.files == DeleteMarkers(bucket.pages)
    ensures s.totalSize == 0.0 && s.cost == 0.0 && s.lastModified == 0
    ensures s.encryptionTypes == []
  {
    assert TotalBytes([]) == 0;
    assert FormatSize(0.0, unit) <= 0.0;
    EmptyIffTotalZero(s.encryptionTypes);
  }

  /** The dominant encryption type of a summary with accepted versions is the
      label counted most often among them; of several such labels, the one
      first counted during the scan. */
  lemma DominantIsFirstSeenMaximum(s: Summary, bucket: BucketData, storageClass: Option<string>, unit: string)
    requires SummaryOf(s, bucket, storageClass, unit)
    requires |Accepted(AllVersions(bucket.pages), storageClass)| > 0
    ensures FirstSeenMaximum(Accepted(AllVersions(bucket.pages), storageClass), DominantEncryption(s.encryptionTypes))
  {
    var a := Accepted(AllVersions(bucket.pages), storageClass);
    DominantIsFirstSeen(s.encryptionTypes, a);
  }

  // ---------------------------------------------------------------------
  // Fleet-wide steps

  /** Definition of scanning every bucket: outcome `i` is the scan of bucket
      `i`. Its contract spells the definition out element by element so that
      callers need not unfold the comprehension. */
  function ScanFleet(buckets: seq<BucketData>, namePattern: Option<string>, storageClass: Option<string>,
                     unit: string, matches: (string, string) -> bool): (outcomes: seq<ScanOutcome>)
    ensures |outcomes| == |buckets|
    ensures forall i :: 0 <= i < |buckets| ==>
      outcomes[i] == GetBucket(buckets[i], namePattern, storageClass, unit, matches)
  {
    seq(|buckets|, i requires 0 <= i < |buckets| =>
      GetBucket(buckets[i], namePattern, storageClass, unit, matches))
  }

  /** The summaries among `outcomes`, in their order: what collecting keeps
      when no scan failed. */
  function Summaries(outcomes: seq<ScanOutcome>): (r: seq<Summary>)
    ensures forall s :: multiset(r)[s] == multiset(outcomes)[Found(s)]
  {
    if |outcomes| == 0 then []
    else
      assert outcomes == [outcomes[0]] + outcomes[1..];
      (if outcomes[0].Found? then [outcomes[0].summary] else []) + Summaries(outcomes[1..])
  }

  /** Reordered outcomes hold the same summaries with the same multiplicities. */
  lemma SummariesPermute(a: seq<ScanOutcome>, b: seq<ScanOutcome>)
    requires multiset(a) == multiset(b)
    ensures multiset(Summaries(a)) == multiset(Summaries(b))
  {
    assert forall s :: multiset(Summaries(a))[s] == multiset(Summaries(b))[s];
  }

  /** Collecting the scans as they complete: `outcomes` is in completion
      order. A failed scan re-raises when its result is read, so the first
      failure in that order ends the run; otherwise the summaries are kept in
      completion order and the `None` results dropped. */
  function Collect(outcomes: seq<ScanOutcome>): (r: Result<seq<Summary>, string>)
    ensures r.Failure? <==> exists o :: o in outcomes && o.StorageClassUnbound?
    ensures r.Success? ==> r.value == Summaries(outcomes)
    ensures r.Success? ==> forall s :: multiset(r.value)[s] == multiset(outcomes)[Found(s)]
    ensures r.Success? ==> |r.value| == |outcomes| - multiset(outcomes)[NoSummary]
  {
    if |outcomes| == 0 then Success([])
    else
      assert outcomes == [outcomes[0]] + outcomes[1..];
      match outcomes[0]
      case StorageClassUnbound(name) => assert outcomes[0] in outcomes; Failure(name)
      case NoSummary => Collect(outcomes[1..])
      case Found(s) =>
        var rest := Collect(outcomes[1..]);
        if rest.Failure? then rest else Success([s] + rest.value)
  }

  /** The completion order does not matter: any reordering of the scans fails
      or succeeds alike, and collects the same summaries with the same
      multiplicities. */
  lemma CollectIgnoresOrder(a: seq<ScanOutcome>, b: seq<ScanOutcome>)
    requires multiset(a) == multiset(b)
    ensures Collect(a).Success? <==> Collect(b).Success?
    ensures Collect(a).Success? ==> multiset(Collect(a).value) == multiset(Collect(b).value)
  {
    assert forall o :: o in a <==> o in b by {
      forall o ensures o in a <==> o in b {
        assert o in a <==> o in multiset(a);
        assert o in b <==> o in multiset(b);
      }
    }
    if Collect(a).Success? {
      var ra := Collect(a).value;
      var rb := Collect(b).value;
      assert forall s :: multiset(ra)[s] == multiset(rb)[s];
    }
  }

  /** Sum of the summaries' sizes in the display unit. */
  function SizeTotal(summaries: seq<Summary>): real
  {
    if |summaries| == 0 then 0.0
    else SizeTotal(summaries[..|summaries| - 1]) + summaries[|summaries| - 1].totalSize
  }

  /** One bucket's share of the total, in percent; 0 when the total is 0. */
  function Percent(size: real, total: real): real
  {
    if total != 0.0 then size / total * 100.0 else 0.0
  }

  /** Each summary with its share of `total` attached. */
  function Shares(summaries: seq<Summary>, total: real): seq<Row>
  {
    seq(|summaries|, i requires 0 <= i < |summaries| => Row(summaries[i], Percent(summaries[i].totalSize, total)))
  }

  /** The "Size % of Total" step: every summary, in order, with its share of
      the total size; every share is 0 when the total is 0. */
  function AttachPercentages(summaries: seq<Summary>): (rows: seq<Row>)
    ensures |rows| == |summaries|
    ensures forall i :: 0 <= i < |rows| ==> rows[i].summary == summaries[i]
    ensures forall i :: 0 <= i < |rows| ==>
      rows[i].sizePercent == Percent(summaries[i].totalSize, SizeTotal(summaries))
    ensures SizeTotal(summaries) == 0.0 ==> forall i :: 0 <= i < |rows| ==> rows[i].sizePercent == 0.0
  {
    Shares(summaries, SizeTotal(summaries))
  }

  /** Sum of the attached shares. */
  function PercentSum(rows: seq<Row>): real
  {
    if |rows| == 0 then 0.0 else PercentSum(rows[..|rows| - 1]) + rows[|rows| - 1].sizePercent
  }

  lemma ShareAdds(a: real, b: real, total: real)
    requires total != 0.0
    ensures a / total * 100.0 + b / total * 100.0 == (a + b) / total * 100.0
  {
  }

  /** Shares of a fixed non-zero total add up to the summed sizes' share. */
  lemma {:induction false} SharesSum(summaries: seq<Summary>, total: real)
    requires total != 0.0
    ensures PercentSum(Shares(summaries, total)) == SizeTotal(summaries) / total * 100.0
  {
    if |summaries| > 0 {
      var front := summaries[..|summaries| - 1];
      var rows := Shares(summaries, total);
      assert rows[..|rows| - 1] == Shares(front, total);
      SharesSum(front, total);
      ShareAdds(SizeTotal(front), summaries[|summaries| - 1].totalSize, total);
    }
  }

  /** With a non-zero total, the shares add up to exactly 100. */
  lemma PercentagesSumTo100(summaries: seq<Summary>)
    requires SizeTotal(summaries) != 0.0
    ensures PercentSum(AttachPercentages(summaries)) == 100.0
  {
    var total := SizeTotal(summaries);
    SharesSum(summaries, total);
    assert total / total == 1.0;
  }

  /** Sizes that are never negative have a total at least as large as each of them. */
  lemma {:induction false} SizeTotalBounds(summaries: seq<Summary>)
    requires forall i :: 0 <= i < |summaries| ==> summaries[i].totalSize >= 0.0
    ensures forall i :: 0 <= i < |summaries| ==> 0.0 <= summaries[i].totalSize <= SizeTotal(summaries)
  {
    if |summaries| > 0 {
      SizeTotalBounds(summaries[..|summaries| - 1]);
      assert forall i :: 0 <= i < |summaries| - 1 ==> summaries[..|summaries| - 1][i] == summaries[i];
    }
  }

  /** Sizes that are never negative get shares between 0 and 100. */
  lemma PercentagesInRange(summaries: seq<Summary>)
    requires forall i :: 0 <= i < |summaries| ==> summaries[i].totalSize >= 0.0
    ensures forall i :: 0 <= i < |summaries| ==> 0.0 <= AttachPercentages(summaries)[i].sizePercent <= 100.0
  {
    SizeTotalBounds(summaries);
    var total := SizeTotal(summaries);
    forall i | 0 <= i < |summaries|
      ensures 0.0 <= AttachPercentages(summaries)[i].sizePercent <= 100.0
    {
      var size := summaries[i].totalSize;
      if total != 0.0 {
        assert 0.0 <= size / total <= 1.0;
      }
    }
  }

  /** The group key of a report row under region grouping. */
  function RegionKey(b: Row): string
  {
    b.summary.region
  }

  /** Grouping by region: keys are distinct, each group holds exactly the rows
      of that region in input order, every row's region has a group and no row
      is dropped. */
  function GroupByRegion(rows: seq<Row>): (gs: seq<Group<string, Row>>)
    ensures DistinctKeys(gs)
    ensures forall i :: 0 <= i < |gs| ==> gs[i].members == Select(rows, RegionKey, gs[i].key)
    ensures forall b :: b in rows ==> HasKey(gs, RegionKey(b))
    ensures NonEmptyGroups(gs)
    ensures TotalMembers(gs) == |rows|
  {
    GroupByContents(rows, RegionKey);
    GroupBy(rows, RegionKey)
  }

  /** Worked value: two rows in us-east-1 around one in eu-west-1 make two
      groups, us-east-1 first, of two and one rows. */
  lemma GroupByRegionExample(r1: Row, r2: Row, r3: Row)
    requires r1.summary.region == "us-east-1" && r3.summary.region == "us-east-1"
    requires r2.summary.region == "eu-west-1"
    ensures GroupByRegion([r1, r2, r3]) == [Group("us-east-1", [r1, r3]), Group("eu-west-1", [r2])]
  {
    FirstTwoRegions(r1, r2);
    ThirdRow(r1, r2, r3);
    assert "us-east-1"[0] != "eu-west-1"[0];
    PlaceIntoFirst("us-east-1", "eu-west-1", r1, r2, r3);
  }

  /** The third row is placed into the groups of the first two. */
  lemma ThirdRow(r1: Row, r2: Row, r3: Row)
    ensures GroupBy([r1, r2, r3], RegionKey) == Place(GroupBy([r1, r2], RegionKey), RegionKey(r3), r3)
  {
    assert [r1, r2, r3][..2] == [r1, r2];
  }

  /** Appending under the first of two distinct keys extends only that group. */
  lemma PlaceIntoFirst<K, T>(a: K, b: K, x: T, y: T, z: T)
    requires a != b
    ensures DistinctKeys([Group(a, [x]), Group(b, [y])])
    ensures Place([Group(a, [x]), Group(b, [y])], a, z) == [Group(a, [x, z]), Group(b, [y])]
  {
    var gs := [Group(a, [x]), Group(b, [y])];
    assert gs[0].key == a;
    var r := Place(gs, a, z);
    assert r[0] == Group(a, [x, z]);
    assert r[1] == Group(b, [y]);
  }

  lemma FirstTwoRegions(r1: Row, r2: Row)
    requires r1.summary.region == "us-east-1"
    requires r2.summary.region == "eu-west-1"
    ensures GroupBy([r1, r2], RegionKey) == [Group("us-east-1", [r1]), Group("eu-west-1", [r2])]
  {
    assert [r1][..0] == [];
    var g1 := GroupBy([r1], RegionKey);
    assert g1 == [Group("us-east-1", [r1])];
    assert [r1, r2][..1] == [r1];
    assert !HasKey(g1, "eu-west-1");
  }

  /** The report handed to the table printer. */
  datatype Report = Flat(rows: seq<Row>) | ByRegion(groups: seq<Group<string, Row>>) | ByEncryption(groups: seq<Group<string, Row>>)

  /** The rows of a report in printing order: the flat rows, or the members of
      each group in turn. */
  function ReportRows(report: Report): seq<Row>
  {
    match report
    case Flat(rows) => rows
    case ByRegion(groups) => Members(groups)
    case ByEncryption(groups) => Members(groups)
  }

  /** `summarize_buckets` after the scans: collect, attach shares, then group by
      region if asked, else by encryption if asked, else leave the rows flat.
      The run fails exactly when a scan did. Otherwise the report's rows are
      the collected summaries with their shares, each exactly once, and every
      group holds only rows of its own key. */
  function SummarizeBuckets(outcomes: seq<ScanOutcome>, groupByRegion: bool, groupByEncryption: bool): (r: Result<Report, string>)
    ensures r.Failure? <==> exists o :: o in outcomes && o.StorageClassUnbound?
    ensures r.Success? && groupByRegion ==> r.value.ByRegion?
    ensures r.Success? && !groupByRegion && groupByEncryption ==> r.value.ByEncryption?
    ensures r.Success? && !groupByRegion && !groupByEncryption ==> r.value.Flat?
    ensures r.Success? ==> multiset(ReportRows(r.value)) == multiset(AttachPercentages(Summaries(outcomes)))
    ensures r.Success? ==> |ReportRows(r.value)| == |outcomes| - multiset(outcomes)[NoSummary]
    ensures r.Success? && r.value.Flat? ==> r.value.rows == AttachPercentages(Summaries(outcomes))
    ensures r.Success? && !r.value.Flat? ==> DistinctKeys(r.value.groups)
    ensures r.Success? && !r.value.Flat? ==> NonEmptyGroups(r.value.groups)
    ensures r.Success? && r.value.ByRegion? ==>
      forall i, row :: 0 <= i < |r.value.groups| && row in r.value.groups[i].members ==>
        row.summary.region == r.value.groups[i].key
    ensures r.Success? && r.value.ByEncryption? ==>
      forall i, row :: 0 <= i < |r.value.groups| && row in r.value.groups[i].members ==>
        DominantEncryption(row.summary.encryptionTypes) == r.value.groups[i].key
  {
    match Collect(outcomes)
    case Failure(e) => Failure(e)
    case Success(summaries) =>
      var rows := AttachPercentages(summaries);
      assert |multiset(rows)| == |rows|;
      if groupByRegion then
        GroupByMembers(rows, RegionKey);
        Success(ByRegion(GroupByRegion(rows)))
      else if groupByEncryption then
        GroupByMembers(rows, EncryptionKey);
        Success(ByEncryption(GroupByEncryption(rows)))
      else Success(Flat(rows))
  }

  /** Rows that are a reordering of the shared-out summaries of `completed`
      carry exactly the summaries found in any reordering `fleet` of it. */
  lemma RowsMatchFleet(rows: seq<Row>, completed: seq<ScanOutcome>, fleet: seq<ScanOutcome>)
    requires multiset(completed) == multiset(fleet)
    requires multiset(rows) == multiset(AttachPercentages(Summaries(completed)))
    ensures forall row :: row in rows ==> Found(row.summary) in fleet
    ensures forall s :: Found(s) in fleet ==> exists row :: row in rows && row.summary == s
  {
    var collected := Summaries(completed);
    var att := AttachPercentages(collected);
    forall row | row in rows ensures Found(row.summary) in fleet {
      assert row in multiset(att);
      var j :| 0 <= j < |att| && att[j] == row;
      assert collected[j] in multiset(collected);
      assert multiset(fleet)[Found(row.summary)] > 0;
    }
    forall s | Found(s) in fleet ensures exists row :: row in rows && row.summary == s {
      assert multiset(fleet)[Found(s)] > 0;
      assert s in multiset(collected);
      var j :| 0 <= j < |collected| && collected[j] == s;
      assert att[j] in multiset(att);
      assert att[j] in rows;
    }
  }

  /** Reordered outcomes give the same verdict, and a report with one row per
      summary among them, each row carrying a summary found among them. */
  lemma ReportFromOutcomes(completed: seq<ScanOutcome>, fleet: seq<ScanOutcome>,
                            groupByRegion: bool, groupByEncryption: bool)
    requires multiset(completed) == multiset(fleet)
    ensures var r := SummarizeBuckets(completed, groupByRegion, groupByEncryption);
      && (r.Failure? <==> exists o :: o in fleet && o.StorageClassUnbound?)
      && (r.Success? ==> |ReportRows(r.value)| == |Summaries(fleet)|)
      && (r.Success? ==> forall row :: row in ReportRows(r.value) ==> Found(row.summary) in fleet)
      && (r.Success? ==> forall s :: Found(s) in fleet ==> exists row :: row in ReportRows(r.value) && row.summary == s)
  {
    var r := SummarizeBuckets(completed, groupByRegion, groupByEncryption);
    forall o ensures o in completed <==> o in fleet {
      assert o in completed <==> o in multiset(completed);
      assert o in fleet <==> o in multiset(fleet);
    }
    SummariesPermute(completed, fleet);
    if r.Success? {
      var rows := ReportRows(r.value);
      var att := AttachPercentages(Summaries(completed));
      assert |multiset(rows)| == |rows| && |multiset(att)| == |att|;
      assert |multiset(Summaries(completed))| == |Summaries(completed)|;
      assert |multiset(Summaries(fleet))| == |Summaries(fleet)|;
      RowsMatchFleet(rows, completed, fleet);
    }
  }

  /** The whole run over the fleet, whatever order the scans complete in:
      `completed` is any reordering of the per-bucket scans. The run fails
      exactly when some bucket's scan fails; otherwise the report has one row
      per bucket that yields a summary, every row carries the summary of such
      a bucket, and every such bucket's summary is in a row. */
  lemma FleetReport(buckets: seq<BucketData>, namePattern: Option<string>, storageClass: Option<string>,
                    unit: string, matches: (string, string) -> bool,
                    completed: seq<ScanOutcome>, groupByRegion: bool, groupByEncryption: bool)
    requires multiset(completed) == multiset(ScanFleet(buckets, namePattern, storageClass, unit, matches))
    ensures SummarizeBuckets(completed, groupByRegion, groupByEncryption).Failure? <==>
      exists i :: 0 <= i < |buckets| &&
        GetBucket(buckets[i], namePattern, storageClass, unit, matches).StorageClassUnbound?
    ensures var r := SummarizeBuckets(completed, groupByRegion, groupByEncryption);
      r.Success? ==>
        |ReportRows(r.value)| == |Summaries(ScanFleet(buckets, namePattern, storageClass, unit, matches))|
    ensures var r := SummarizeBuckets(completed, groupByRegion, groupByEncryption);
      r.Success? ==> forall row :: row in ReportRows(r.value) ==>
        exists i :: 0 <= i < |buckets| &&
          GetBucket(buckets[i], namePattern, storageClass, unit, matches) == Found(row.summary)
    ensures var r := SummarizeBuckets(completed, groupByRegion, groupByEncryption);
      r.Success? ==> forall i :: 0 <= i < |buckets| && GetBucket(buckets[i], namePattern, storageClass, unit, matches).Found? ==>
        exists row :: row in ReportRows(r.value) &&
          row.summary == GetBucket(buckets[i], namePattern, storageClass, unit, matches).summary
  {
    var fleet := ScanFleet(buckets, namePattern, storageClass, unit, matches);
    ReportFromOutcomes(completed, fleet, groupByRegion, groupByEncryption);
    forall o | o in fleet ensures exists i :: 0 <= i < |buckets| && fleet[i] == o {
      var i :| 0 <= i < |fleet| && fleet[i] == o;
    }
    forall i | 0 <= i < |buckets| ensures fleet[i] in fleet {
    }
  }
}
