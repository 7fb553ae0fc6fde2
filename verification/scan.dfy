/** The per-bucket scan: a fold over the pages of a version listing that
    filters versions by storage class and accumulates count, bytes, cost, the
    latest modification time and an encryption histogram. The service's
    responses are plain input data: each version carries the outcome the
    per-version metadata lookup would have. */
module Scan {
  import opened Wrappers
  import opened Text
  import opened Tallies
  import opened Records
  import opened Utils

  /** Outcome of the metadata lookup of one version: success, with or without
      a server-side-encryption field, or any failure. */
  datatype HeadOutcome = HeadOk(serverSideEncryption: Option<string>) | HeadFailed

  /** One entry of a page's "Versions" list. */
  datatype Version = Version(
    key: string,
    versionId: string,
    size: nat,
    storageClass: Option<string>,
    lastModified: Timestamp,
    head: HeadOutcome)

  /** One page of the version listing: its versions and how many entries its
      "DeleteMarkers" list has (a missing list counts as empty). */
  datatype Page = Page(versions: seq<Version>, deleteMarkers: nat)

  /** The scan's local variables: byte total, object count, latest
      modification, cost, encryption histogram, and the storage class of the
      last version visited (None until one is visited). */
  datatype Accumulator = Accumulator(
    bytes: nat,
    count: nat,
    lastModified: Timestamp,
    cost: real,
    encryption: Histogram,
    lastClass: Option<string>)

  /** The values before the first page; the latest modification starts at the minimum instant. */
  const Start: Accumulator := Accumulator(0, 0, 0, 0.0, [], None)

  /** A version's storage class, "STANDARD" when the field is missing. */
  function ClassOf(v: Version): string
  {
    match v.storageClass
    case Some(c) => c
    case None => "STANDARD"
  }

  /** A storage-class filter is in force when one is given and it is not empty. */
  predicate FilterActive(filter: Option<string>)
  {
    filter.Some? && filter.value != ""
  }

  /** A version passes the filter when no filter is in force or its class
      equals the filter ignoring case. */
  predicate Accepts(filter: Option<string>, v: Version)
  {
    !FilterActive(filter) || Upper(ClassOf(v)) == Upper(filter.value)
  }

  /** The histogram key a version is counted under: its encryption algorithm,
      "None" when the lookup succeeded without one, "Unknown" when it failed. */
  function EncryptionLabel(v: Version): string
  {
    match v.head
    case HeadFailed => "Unknown"
    case HeadOk(None) => "None"
    case HeadOk(Some(algorithm)) => algorithm
  }

  /** The body of the loop over a page's versions. */
  function Visit(acc: Accumulator, v: Version, filter: Option<string>): Accumulator
  {
    var cls := ClassOf(v);
    if !Accepts(filter, v) then acc.(lastClass := Some(cls))
    else
      Accumulator(
        acc.bytes + v.size,
        acc.count + 1,
        if v.lastModified > acc.lastModified then v.lastModified else acc.lastModified,
        acc.cost + CalculateCost(cls, v.size as real),
        Bump(acc.encryption, EncryptionLabel(v)),
        Some(cls))
  }

  /** The loop over a list of versions, from first to last. */
  function ScanVersions(acc: Accumulator, vs: seq<Version>, filter: Option<string>): Accumulator
  {
    if |vs| == 0 then acc
    else Visit(ScanVersions(acc, vs[..|vs| - 1], filter), vs[|vs| - 1], filter)
  }

  /** One page: its versions, then its delete markers added to the count. */
  function ScanPage(acc: Accumulator, page: Page, filter: Option<string>): Accumulator
  {
    var a := ScanVersions(acc, page.versions, filter);
    a.(count := a.count + page.deleteMarkers)
  }

  /** The loop over the pages, from first to last. */
  function ScanPages(pages: seq<Page>, filter: Option<string>): Accumulator
  {
    if |pages| == 0 then Start
    else ScanPage(ScanPages(pages[..|pages| - 1], filter), pages[|pages| - 1], filter)
  }

  // ---------------------------------------------------------------------
  // Reference definitions over the flattened listing

  /** All versions of all pages, in listing order. */
  function AllVersions(pages: seq<Page>): seq<Version>
  {
    if |pages| == 0 then [] else AllVersions(pages[..|pages| - 1]) + pages[|pages| - 1].versions
  }

  /** All delete markers of all pages. */
  function DeleteMarkers(pages: seq<Page>): nat
  {
    if |pages| == 0 then 0 else DeleteMarkers(pages[..|pages| - 1]) + pages[|pages| - 1].deleteMarkers
  }

  /** The versions that pass the filter, in order. */
  function Accepted(vs: seq<Version>, filter: Option<string>): (r: seq<Version>)
    ensures forall v :: v in r <==> v in vs && Accepts(filter, v)
  {
    if |vs| == 0 then []
    else
      var front := vs[..|vs| - 1];
      var v := vs[|vs| - 1];
      assert vs == front + [v];
      Accepted(front, filter) + (if Accepts(filter, v) then [v] else [])
  }

  /** When the filter rejects every version, nothing is accepted. */
  lemma NoneAccepted(vs: seq<Version>, filter: Option<string>)
    requires forall v :: v in vs ==> !Accepts(filter, v)
    ensures Accepted(vs, filter) == []
  {
    if |vs| > 0 {
      assert vs[..|vs| - 1] <= vs;
    }
  }

  function TotalBytes(vs: seq<Version>): nat
  {
    if |vs| == 0 then 0 else TotalBytes(vs[..|vs| - 1]) + vs[|vs| - 1].size
  }

  /** Sum of the estimated cost of each version. */
  function TotalCost(vs: seq<Version>): (r: real)
    ensures r >= 0.0
  {
    if |vs| == 0 then 0.0
    else TotalCost(vs[..|vs| - 1]) + CalculateCost(ClassOf(vs[|vs| - 1]), vs[|vs| - 1].size as real)
  }

  /** Number of versions counted under `name`. */
  function Occurrences(vs: seq<Version>, name: string): nat
  {
    if |vs| == 0 then 0
    else Occurrences(vs[..|vs| - 1], name) + (if EncryptionLabel(vs[|vs| - 1]) == name then 1 else 0)
  }

  /** The encryption labels of `vs` in order of first occurrence, each once. */
  function FirstSeen(vs: seq<Version>): (r: seq<string>)
    ensures forall name :: name in r <==> exists v :: v in vs && EncryptionLabel(v) == name
  {
    if |vs| == 0 then []
    else
      var front := vs[..|vs| - 1];
      var v := vs[|vs| - 1];
      assert vs == front + [v];
      var f := FirstSeen(front);
      if EncryptionLabel(v) in f then f else f + [EncryptionLabel(v)]
  }

  /** `t` is the latest modification time among `vs`, or the minimum instant when `vs` is empty. */
  ghost predicate IsLatest(t: Timestamp, vs: seq<Version>)
  {
    && (forall v :: v in vs ==> v.lastModified <= t)
    && (|vs| == 0 ==> t == 0)
    && (|vs| > 0 ==> exists v :: v in vs && v.lastModified == t)
  }

  /** Storage class of the last version, None when there is none. */
  function LastClass(vs: seq<Version>): Option<string>
  {
    if |vs| == 0 then None else Some(ClassOf(vs[|vs| - 1]))
  }

  // ---------------------------------------------------------------------
  // The fold meets the reference definitions

  /** The reference sums step by one version appended at the end. */
  lemma SumsAppend(vs: seq<Version>, v: Version)
    ensures TotalBytes(vs + [v]) == TotalBytes(vs) + v.size
    ensures TotalCost(vs + [v]) == TotalCost(vs) + CalculateCost(ClassOf(v), v.size as real)
  {
    assert (vs + [v])[..|vs|] == vs;
  }

  /** The occurrence count steps by one version appended at the end. */
  lemma OccurrencesAppend(vs: seq<Version>, v: Version, name: string)
    ensures Occurrences(vs + [v], name) == Occurrences(vs, name) + (if EncryptionLabel(v) == name then 1 else 0)
  {
    assert (vs + [v])[..|vs|] == vs;
  }

  /** The latest time after one more version is the larger of the two. */
  lemma LatestAppend(t: Timestamp, vs: seq<Version>, v: Version)
    requires IsLatest(t, vs)
    ensures IsLatest(if v.lastModified > t then v.lastModified else t, vs + [v])
  {
    var t' := if v.lastModified > t then v.lastModified else t;
    assert v in vs + [v];
    forall w | w in vs + [v] ensures w.lastModified <= t' {
      if w != v { assert w in vs; }
    }
    if t' == t && |vs| > 0 {
      var w :| w in vs && w.lastModified == t;
      assert w in vs + [v];
    }
  }

  /** One more version at the end: the scan visits it, and the accepted list
      grows by it exactly when the filter accepts it. */
  lemma ScanStep(vs: seq<Version>, filter: Option<string>)
    requires |vs| > 0
    ensures var front := vs[..|vs| - 1];
      var v := vs[|vs| - 1];
      && ScanVersions(Start, vs, filter) == Visit(ScanVersions(Start, front, filter), v, filter)
      && Accepted(vs, filter) == Accepted(front, filter) + (if Accepts(filter, v) then [v] else [])
  {
  }

  /** One visit adds one to the count and the version's size to the bytes
      when the filter accepts it, and leaves both alone otherwise. */
  lemma VisitSizes(acc: Accumulator, v: Version, filter: Option<string>)
    ensures var r := Visit(acc, v, filter);
      if Accepts(filter, v) then r.count == acc.count + 1 && r.bytes == acc.bytes + v.size
      else r.count == acc.count && r.bytes == acc.bytes
  {
  }

  /** One visit adds the version's cost when the filter accepts it. */
  lemma VisitCost(acc: Accumulator, v: Version, filter: Option<string>)
    ensures var r := Visit(acc, v, filter);
      r.cost == if Accepts(filter, v) then acc.cost + CalculateCost(ClassOf(v), v.size as real) else acc.cost
  {
  }

  /** Count, bytes and cost of a scan from the start are those of the accepted versions. */
  lemma {:induction false} ScanTotals(vs: seq<Version>, filter: Option<string>)
    ensures var s := ScanVersions(Start, vs, filter);
      var a := Accepted(vs, filter);
      s.count == |a| && s.bytes == TotalBytes(a) && s.cost == TotalCost(a)
  {
    ScanSizes(vs, filter);
    ScanCost(vs, filter);
  }

  /** Count and bytes of a scan from the start are those of the accepted versions. */
  lemma {:induction false} ScanSizes(vs: seq<Version>, filter: Option<string>)
    ensures var s := ScanVersions(Start, vs, filter);
      var a := Accepted(vs, filter);
      s.count == |a| && s.bytes == TotalBytes(a)
  {
    if |vs| > 0 {
      var front := vs[..|vs| - 1];
      var v := vs[|vs| - 1];
      var before := ScanVersions(Start, front, filter);
      var a := Accepted(front, filter);
      ScanStep(vs, filter);
      ScanSizes(front, filter);
      VisitSizes(before, v, filter);
      if Accepts(filter, v) {
        SumsAppend(a, v);
        assert Accepted(vs, filter) == a + [v];
      } else {
        assert Accepted(vs, filter) == a;
      }
    }
  }

  /** The cost of a scan from the start is that of the accepted versions. */
  lemma {:induction false} ScanCost(vs: seq<Version>, filter: Option<string>)
    ensures ScanVersions(Start, vs, filter).cost == TotalCost(Accepted(vs, filter))
  {
    if |vs| > 0 {
      var front := vs[..|vs| - 1];
      var v := vs[|vs| - 1];
      var before := ScanVersions(Start, front, filter);
      var a := Accepted(front, filter);
      ScanStep(vs, filter);
      ScanCost(front, filter);
      VisitCost(before, v, filter);
      if Accepts(filter, v) {
        SumsAppend(a, v);
        assert Accepted(vs, filter) == a + [v];
      } else {
        assert Accepted(vs, filter) == a;
      }
    }
  }

  /** The latest time of a scan from the start is that of the accepted versions. */
  lemma {:induction false} ScanLatest(vs: seq<Version>, filter: Option<string>)
    ensures IsLatest(ScanVersions(Start, vs, filter).lastModified, Accepted(vs, filter))
  {
    if |vs| > 0 {
      var front := vs[..|vs| - 1];
      ScanStep(vs, filter);
      ScanLatest(front, filter);
      if Accepts(filter, vs[|vs| - 1]) {
        LatestAppend(ScanVersions(Start, front, filter).lastModified, Accepted(front, filter), vs[|vs| - 1]);
      }
    }
  }

  /** The histogram of a scan from the start counts each accepted version once,
      under its encryption label, with distinct keys and positive counts. */
  lemma {:induction false} ScanEncryption(vs: seq<Version>, filter: Option<string>)
    ensures var h := ScanVersions(Start, vs, filter).encryption;
      var a := Accepted(vs, filter);
      && (forall name :: Count(h, name) == Occurrences(a, name))
      && Total(h) == |a|
      && Distinct(h) && Positive(h)
      && Keys(h) == FirstSeen(a)
  {
    ScanKeyOrder(vs, filter);
    if |vs| > 0 {
      var front := vs[..|vs| - 1];
      var v := vs[|vs| - 1];
      ScanStep(vs, filter);
      ScanEncryption(front, filter);
      var h := ScanVersions(Start, front, filter).encryption;
      var a := Accepted(front, filter);
      if Accepts(filter, v) {
        var h' := Bump(h, EncryptionLabel(v));
        assert ScanVersions(Start, vs, filter).encryption == h';
        assert Accepted(vs, filter) == a + [v];
        forall name ensures Count(h', name) == Occurrences(a + [v], name) {
          OccurrencesAppend(a, v, name);
        }
        BumpDistinct(h, EncryptionLabel(v));
      } else {
        assert ScanVersions(Start, vs, filter).encryption == h;
        assert Accepted(vs, filter) == a;
      }
    }
  }

  /** The keys of the histogram of a scan from the start are the labels of
      the accepted versions in the order they were first counted. */
  lemma {:induction false} ScanKeyOrder(vs: seq<Version>, filter: Option<string>)
    ensures Keys(ScanVersions(Start, vs, filter).encryption) == FirstSeen(Accepted(vs, filter))
  {
    if |vs| > 0 {
      var front := vs[..|vs| - 1];
      var v := vs[|vs| - 1];
      var h := ScanVersions(Start, front, filter).encryption;
      var a := Accepted(front, filter);
      ScanStep(vs, filter);
      ScanKeyOrder(front, filter);
      if Accepts(filter, v) {
        assert ScanVersions(Start, vs, filter).encryption == Bump(h, EncryptionLabel(v));
        BumpKeys(h, EncryptionLabel(v));
        assert Accepted(vs, filter) == a + [v];
        assert (a + [v])[..|a|] == a;
      } else {
        assert ScanVersions(Start, vs, filter).encryption == h;
        assert Accepted(vs, filter) == a;
      }
    }
  }

  /** `name` is counted most often in `a`, and no label seen before it in `a`
      is counted as often. */
  ghost predicate FirstSeenMaximum(a: seq<Version>, name: string)
  {
    var f := FirstSeen(a);
    exists j :: 0 <= j < |f| && name == f[j]
      && (forall k :: 0 <= k < |f| ==> Occurrences(a, f[k]) <= Occurrences(a, f[j]))
      && (forall k :: 0 <= k < j ==> Occurrences(a, f[k]) < Occurrences(a, f[j]))
  }

  /** Position `k` of a histogram that counts `a` in first-seen order holds
      the `k`-th label first seen in `a` with its number of occurrences. */
  lemma EntryOfFirstSeen(h: Histogram, a: seq<Version>, k: int)
    requires Distinct(h) && 0 <= k < |h|
    requires Keys(h) == FirstSeen(a)
    requires forall name :: Count(h, name) == Occurrences(a, name)
    ensures FirstSeen(a)[k] == h[k].key && Occurrences(a, h[k].key) == h[k].count
  {
    CountAt(h, k);
  }

  /** A first maximum of a histogram that counts `a` in first-seen order is a
      first-seen maximum of `a`. */
  lemma FirstMaximumCarries(h: Histogram, a: seq<Version>, j: int)
    requires Distinct(h) && 0 <= j < |h|
    requires Keys(h) == FirstSeen(a)
    requires forall name :: Count(h, name) == Occurrences(a, name)
    requires forall k :: 0 <= k < |h| ==> h[k].count <= h[j].count
    requires forall k :: 0 <= k < j ==> h[k].count < h[j].count
    ensures FirstSeenMaximum(a, h[j].key)
  {
    var f := FirstSeen(a);
    EntryOfFirstSeen(h, a, j);
    forall k | 0 <= k < |f| ensures Occurrences(a, f[k]) <= Occurrences(a, f[j]) {
      EntryOfFirstSeen(h, a, k);
    }
    forall k | 0 <= k < j ensures Occurrences(a, f[k]) < Occurrences(a, f[j]) {
      EntryOfFirstSeen(h, a, k);
    }
  }

  /** For a histogram that counts the versions `a` in first-seen order, the
      dominant type is the label counted most often in `a`, the first counted
      of several such labels. */
  lemma DominantIsFirstSeen(h: Histogram, a: seq<Version>)
    requires Distinct(h) && |a| > 0
    requires Keys(h) == FirstSeen(a)
    requires forall name :: Count(h, name) == Occurrences(a, name)
    ensures FirstSeenMaximum(a, DominantEncryption(h))
  {
    assert a[0] in a;
    assert |FirstSeen(a)| > 0;
    DominantIsFirstMaximum(h);
    var j :| 0 <= j < |h| && DominantEncryption(h) == h[j].key &&
      (forall k :: 0 <= k < |h| ==> h[k].count <= h[j].count) &&
      (forall k :: 0 <= k < j ==> h[k].count < h[j].count);
    FirstMaximumCarries(h, a, j);
  }

  /** The remembered class of a scan is that of the last version, accepted or not. */
  lemma ScanLastClass(acc: Accumulator, vs: seq<Version>, filter: Option<string>)
    requires |vs| > 0
    ensures ScanVersions(acc, vs, filter).lastClass == LastClass(vs)
  {
  }

  /** Scanning a list of versions from the start computes the reference values
      over the accepted versions: count, bytes, cost, latest modification, the
      encryption histogram, and the class of the last version visited whether
      accepted or not. */
  lemma {:induction false} ScanVersionsFromStart(vs: seq<Version>, filter: Option<string>)
    ensures var s := ScanVersions(Start, vs, filter);
      var a := Accepted(vs, filter);
      && s.count == |a|
      && s.bytes == TotalBytes(a)
      && s.cost == TotalCost(a)
      && IsLatest(s.lastModified, a)
      && (forall name :: Count(s.encryption, name) == Occurrences(a, name))
      && Total(s.encryption) == |a|
      && Distinct(s.encryption) && Positive(s.encryption)
      && Keys(s.encryption) == FirstSeen(a)
      && s.lastClass == LastClass(vs)
  {
    ScanTotals(vs, filter);
    ScanLatest(vs, filter);
    ScanEncryption(vs, filter);
    if |vs| > 0 { ScanLastClass(Start, vs, filter); }
  }

  /** Scanning a concatenation is scanning the first part, then the second. */
  lemma {:induction false} ScanVersionsAppend(acc: Accumulator, a: seq<Version>, b: seq<Version>, filter: Option<string>)
    ensures ScanVersions(acc, a + b, filter) == ScanVersions(ScanVersions(acc, a, filter), b, filter)
  {
    if |b| == 0 {
      assert a + b == a;
    } else {
      assert (a + b)[..|a + b| - 1] == a + b[..|b| - 1];
      ScanVersionsAppend(acc, a, b[..|b| - 1], filter);
    }
  }

  /** Adding `m` to the count before a scan adds `m` to the count after it. */
  lemma {:induction false} ScanVersionsShift(acc: Accumulator, m: nat, vs: seq<Version>, filter: Option<string>)
    ensures ScanVersions(acc.(count := acc.count + m), vs, filter)
         == ScanVersions(acc, vs, filter).(count := ScanVersions(acc, vs, filter).count + m)
  {
    if |vs| > 0 {
      ScanVersionsShift(acc, m, vs[..|vs| - 1], filter);
    }
  }

  /** Scanning page by page is scanning the flattened versions once, with all
      delete markers added to the count. */
  lemma {:induction false} ScanPagesFlat(pages: seq<Page>, filter: Option<string>)
    ensures var flat := ScanVersions(Start, AllVersions(pages), filter);
      ScanPages(pages, filter) == flat.(count := flat.count + DeleteMarkers(pages))
  {
    if |pages| > 0 {
      var front := pages[..|pages| - 1];
      var p := pages[|pages| - 1];
      ScanPagesFlat(front, filter);
      var flat := ScanVersions(Start, AllVersions(front), filter);
      var m := DeleteMarkers(front);
      assert AllVersions(pages) == AllVersions(front) + p.versions;
      assert DeleteMarkers(pages) == m + p.deleteMarkers;
      ScanVersionsShift(flat, m, p.versions, filter);
      ScanVersionsAppend(Start, AllVersions(front), p.versions, filter);
      var shifted := flat.(count := flat.count + m);
      assert ScanPages(front, filter) == shifted;
      var whole := ScanVersions(flat, p.versions, filter);
      assert ScanVersions(Start, AllVersions(pages), filter) == whole;
      calc {
        ScanPages(pages, filter);
        ScanPage(ScanPages(front, filter), p, filter);
        ScanPage(shifted, p, filter);
        whole.(count := whole.count + m + p.deleteMarkers);
      }
    }
  }

  /** The whole listing: the count is the accepted versions plus every delete
      marker, and bytes, cost, latest time and histogram are those of the
      accepted versions; the last class is that of the last version listed. */
  lemma {:induction false} ScanPagesMeetsReference(pages: seq<Page>, filter: Option<string>)
    ensures var s := ScanPages(pages, filter);
      var a := Accepted(AllVersions(pages), filter);
      && s.count == |a| + DeleteMarkers(pages)
      && s.bytes == TotalBytes(a)
      && s.cost == TotalCost(a)
      && IsLatest(s.lastModified, a)
      && (forall name :: Count(s.encryption, name) == Occurrences(a, name))
      && Total(s.encryption) == |a|
      && Distinct(s.encryption) && Positive(s.encryption)
      && Keys(s.encryption) == FirstSeen(a)
      && s.lastClass == LastClass(AllVersions(pages))
  {
    ScanPagesFlat(pages, filter);
    ScanVersionsFromStart(AllVersions(pages), filter);
  }

  /** Changing the remembered class before a scan changes nothing else after it. */
  lemma {:induction false} LastClassIsolated(acc: Accumulator, c: Option<string>, vs: seq<Version>, filter: Option<string>)
    ensures ScanVersions(acc.(lastClass := c), vs, filter).(lastClass := None)
         == ScanVersions(acc, vs, filter).(lastClass := None)
  {
    if |vs| > 0 {
      LastClassIsolated(acc, c, vs[..|vs| - 1], filter);
    }
  }

  /** A version the filter rejects, wherever it sits, changes nothing but the
      remembered storage class: no count, bytes, cost, time or encryption entry. */
  lemma RejectedVersionIsInvisible(acc: Accumulator, a: seq<Version>, v: Version, b: seq<Version>, filter: Option<string>)
    requires !Accepts(filter, v)
    ensures ScanVersions(acc, a + [v] + b, filter).(lastClass := None)
         == ScanVersions(acc, a + b, filter).(lastClass := None)
  {
    ScanVersionsAppend(acc, a + [v], b, filter);
    ScanVersionsAppend(acc, a, [v], filter);
    ScanVersionsAppend(acc, a, b, filter);
    var mid := ScanVersions(acc, a, filter);
    assert [v][..0] == [];
    assert ScanVersions(mid, [v], filter) == mid.(lastClass := Some(ClassOf(v)));
    LastClassIsolated(mid, Some(ClassOf(v)), b, filter);
  }
}
