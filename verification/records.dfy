/** The per-bucket record the scanner produces and the report row it becomes
    once the share of the total size is attached. */
module Records {
  import opened Tallies

  /** An instant, counted from the smallest representable one (Python's `datetime.min`). */
  type Timestamp = nat

  /** Outcome of a configuration query: configured, not configured, or the query failed. */
  datatype ConfigState = Present | Absent | QueryError

  /** One bucket's summary, the dict built at the end of a bucket scan. */
  datatype Summary = Summary(
    bucket: string,
    creationDate: Timestamp,
    files: nat,
    totalSize: real,          // in the requested display unit
    lastModified: Timestamp,
    cost: real,               // dollars, unrounded
    region: string,
    storageClass: string,     // class of the last version visited
    encryptionTypes: Histogram,
    hasLifecycle: ConfigState,
    hasReplication: ConfigState)

  /** A summary with its "Size % of Total" field attached, unformatted. */
  datatype Row = Row(summary: Summary, sizePercent: real)
}
