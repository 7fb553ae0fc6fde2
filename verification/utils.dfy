/** The helpers of the inventory tool: size formatting, the storage cost
    estimate and grouping by dominant encryption type. */
module Utils {
  import opened Text
  import opened Tallies
  import opened Grouping
  import opened Records

  /** Divisor of each display unit. */
  const Units: map<string, real> :=
    map["bytes" := 1.0, "kb" := 1024.0, "mb" := 1048576.0, "gb" := 1073741824.0]

  /** Divisor used for a unit the table does not know: that of "mb". */
  const DefaultDivisor: real := 1048576.0

  /** Dollars per GiB and month for each storage class. */
  const PricePerGb: map<string, real> :=
    map["STANDARD" := 0.023, "STANDARD_IA" := 0.0125, "ONEZONE_IA" := 0.01,
        "GLACIER" := 0.004, "DEEP_ARCHIVE" := 0.00099]

  /** Rate used for a storage class the table does not know: that of STANDARD. */
  const DefaultRate: real := 0.023

  const BytesPerGiB: real := 1073741824.0

  /** The divisor of a display unit, looked up by the unit's lower-cased name;
      a name the table does not know gets the divisor of "mb". */
  function UnitDivisor(unit: string): (d: real)
    ensures d == 1.0 || d == 1024.0 || d == 1048576.0 || d == 1073741824.0
    ensures Lower(unit) in Units ==> d == Units[Lower(unit)]
    ensures Lower(unit) !in Units ==> d == Units["mb"]
  {
    if Lower(unit) in Units then Units[Lower(unit)] else DefaultDivisor
  }

  /** `format_size` before rounding: the byte count expressed in `unit`.
      Multiplying back by the unit's divisor gives the byte count again. */
  function FormatSize(bytesValue: real, unit: string): (r: real)
    ensures r * UnitDivisor(unit) == bytesValue
    ensures bytesValue >= 0.0 ==> 0.0 <= r <= bytesValue
  {
    bytesValue / UnitDivisor(unit)
  }

  /** The unit is looked up case-insensitively. */
  lemma {:induction false} FormatSizeIgnoresCase(bytesValue: real, unit: string)
    ensures FormatSize(bytesValue, unit) == FormatSize(bytesValue, Lower(unit))
  {
    LowerIdempotent(unit);
  }

  /** For a fixed unit, a larger byte count never formats to a smaller size. */
  lemma FormatSizeMonotone(a: real, b: real, unit: string)
    requires a <= b
    ensures FormatSize(a, unit) <= FormatSize(b, unit)
  {
  }

  /** An unknown unit formats as "mb" does. */
  lemma FormatSizeFallback(bytesValue: real, unit: string)
    requires Lower(unit) !in Units
    ensures FormatSize(bytesValue, unit) == FormatSize(bytesValue, "mb")
  {
    LowerOfLowerCase("mb");
  }

  /** Worked values: one MiB is 1 mb, and "bytes" is the identity. */
  lemma FormatSizeExamples(x: real)
    ensures FormatSize(1048576.0, "mb") == 1.0
    ensures FormatSize(x, "bytes") == x
  {
    LowerOfLowerCase("mb");
    LowerOfLowerCase("bytes");
  }

  /** Worked values: "GB" is matched as "gb", and "tb" falls back to mb. */
  lemma FormatSizeUnitExamples(x: real)
    ensures FormatSize(x, "GB") == x / 1073741824.0
    ensures FormatSize(x, "tb") == x / 1048576.0
  {
    assert Lower("GB") == "gb";
    LowerOfLowerCase("tb");
  }

  /** The monthly rate per GiB of a storage class, looked up by the class's
      upper-cased name; a class the table does not know gets the STANDARD rate. */
  function RatePerGb(storageClass: string): (p: real)
    ensures p > 0.0
    ensures Upper(storageClass) in PricePerGb ==> p == PricePerGb[Upper(storageClass)]
    ensures Upper(storageClass) !in PricePerGb ==> p == PricePerGb["STANDARD"]
  {
    if Upper(storageClass) in PricePerGb then PricePerGb[Upper(storageClass)] else DefaultRate
  }

  /** `calculate_cost`: the size in GiB times the class's rate. */
  function CalculateCost(storageClass: string, sizeBytes: real): (r: real)
    ensures sizeBytes == BytesPerGiB ==> r == RatePerGb(storageClass)
    ensures sizeBytes >= 0.0 ==> r >= 0.0
    ensures sizeBytes == 0.0 ==> r == 0.0
  {
    (sizeBytes / 1024.0 / 1024.0 / 1024.0) * RatePerGb(storageClass)
  }

  /** A listed unit gets its own divisor, whatever the letter case: "kb" and
      "KB" divide by 1024. */
  lemma ListedUnit()
    ensures UnitDivisor("kb") == 1024.0
    ensures UnitDivisor("KB") == 1024.0
  {
    LowerOfLowerCase("kb");
    assert Lower("KB") == "kb";
  }

  /** A listed class gets its own rate, whatever the letter case: GLACIER
      storage costs 0.004 per GiB. */
  lemma ListedRate()
    ensures RatePerGb("GLACIER") == 0.004
    ensures RatePerGb("glacier") == 0.004
  {
    GlacierUpperCase();
    assert "GLACIER" in PricePerGb;
  }

  lemma GlacierUpperCase()
    ensures Upper("GLACIER") == "GLACIER"
    ensures Upper("glacier") == "GLACIER"
  {
    UpperOfUpperCase("GLACIER");
  }

  /** The storage class is looked up case-insensitively. */
  lemma {:induction false} RateIgnoresCase(storageClass: string)
    ensures RatePerGb(storageClass) == RatePerGb(Upper(storageClass))
  {
    UpperIdempotent(storageClass);
  }

  /** Two classes with the same rate cost the same at every size. */
  lemma SameRateSameCost(a: string, b: string, sizeBytes: real)
    requires RatePerGb(a) == RatePerGb(b)
    ensures CalculateCost(a, sizeBytes) == CalculateCost(b, sizeBytes)
  {
  }

  /** The cost does not depend on the case of the storage class name. */
  lemma CostIgnoresCase(storageClass: string, sizeBytes: real)
    ensures CalculateCost(storageClass, sizeBytes) == CalculateCost(Upper(storageClass), sizeBytes)
  {
    RateIgnoresCase(storageClass);
    SameRateSameCost(storageClass, Upper(storageClass), sizeBytes);
  }

  /** For a fixed class, the cost of two sizes together is the sum of their costs. */
  lemma CostAdditive(storageClass: string, a: real, b: real)
    ensures CalculateCost(storageClass, a + b) == CalculateCost(storageClass, a) + CalculateCost(storageClass, b)
  {
  }

  /** Worked value: "glacier" and "GLACIER" cost the same. */
  lemma CostExampleCase(sizeBytes: real)
    ensures CalculateCost("glacier", sizeBytes) == CalculateCost("GLACIER", sizeBytes)
  {
    assert Upper("glacier") == "GLACIER";
    SameRateSameCost("glacier", "GLACIER", sizeBytes);
  }

  /** A class not in the table is priced at the STANDARD rate. */
  lemma UnknownTierRate()
    ensures RatePerGb("UNKNOWN_TIER") == 0.023
  {
    UnknownTierIsUpperCase();
    UnknownTierIsNotPriced();
  }

  lemma UnknownTierIsNotPriced()
    ensures "UNKNOWN_TIER" !in PricePerGb
  {
  }

  lemma UnknownTierIsUpperCase()
    ensures Upper("UNKNOWN_TIER") == "UNKNOWN_TIER"
  {
    UpperOfUpperCase("UNKNOWN_TIER");
  }

  /** Worked value: one GiB of a class not in the table costs 0.023. */
  lemma CostExampleUnknown()
    ensures CalculateCost("UNKNOWN_TIER", BytesPerGiB) == 0.023
  {
    UnknownTierRate();
  }

  /** The dominant encryption type of a histogram: "Unknown" when it is empty,
      otherwise the key with the largest count, the first such key (in insertion
      order) with the largest count. */
  function DominantEncryption(h: Histogram): (k: string)
    ensures |h| == 0 ==> k == "Unknown"
    ensures |h| > 0 ==> k in Labels(h)
    ensures Distinct(h) ==> forall other :: Count(h, other) <= Count(h, k)
    ensures Distinct(h) ==> forall j, m :: 0 <= m < j < |h| && h[j].key == k ==> h[m].count < h[j].count
  {
    if |h| == 0 then "Unknown"
    else
      var best := MaxIndex(h);
      assert Distinct(h) ==> forall other :: Count(h, other) <= Count(h, h[best].key) by {
        if Distinct(h) {
          CountAt(h, best);
          forall other ensures Count(h, other) <= Count(h, h[best].key) {
            CountFromEntry(h, other);
          }
        }
      }
      h[best].key
  }

  /** The dominant type of a non-empty histogram sits at a position whose
      count is the largest, and every entry before it has a strictly smaller
      count. */
  lemma DominantIsFirstMaximum(h: Histogram)
    requires Distinct(h) && |h| > 0
    ensures
      exists j :: 0 <= j < |h| && DominantEncryption(h) == h[j].key &&
        (forall k :: 0 <= k < |h| ==> h[k].count <= h[j].count) &&
        (forall k :: 0 <= k < j ==> h[k].count < h[j].count)
  {
    var d := DominantEncryption(h);
    var j :| 0 <= j < |h| && h[j].key == d;
    CountAt(h, j);
    forall k | 0 <= k < |h| ensures h[k].count <= h[j].count {
      CountAt(h, k);
    }
    assert forall k :: 0 <= k < j ==> h[k].count < h[j].count;
  }

  /** The group key of a report row: its summary's dominant encryption type. */
  function EncryptionKey(b: Row): string
  {
    DominantEncryption(b.summary.encryptionTypes)
  }

  /** `group_by_encryption`: rows partitioned by dominant encryption type. Keys
      are distinct, each group holds exactly the rows with that key in input
      order, every row's key has a group and no row is dropped. */
  function GroupByEncryption(buckets: seq<Row>): (gs: seq<Group<string, Row>>)
    ensures DistinctKeys(gs)
    ensures forall i :: 0 <= i < |gs| ==> gs[i].members == Select(buckets, EncryptionKey, gs[i].key)
    ensures forall b :: b in buckets ==> HasKey(gs, EncryptionKey(b))
    ensures NonEmptyGroups(gs)
    ensures TotalMembers(gs) == |buckets|
  {
    GroupByContents(buckets, EncryptionKey);
    GroupBy(buckets, EncryptionKey)
  }

  /** Worked value: {"AES256": 5, "aws:kms": 2} is grouped under "AES256", and
      an empty histogram under "Unknown". */
  lemma DominantEncryptionExamples()
    ensures DominantEncryption([Tally("AES256", 5), Tally("aws:kms", 2)]) == "AES256"
    ensures DominantEncryption([]) == "Unknown"
  {
  }
}
