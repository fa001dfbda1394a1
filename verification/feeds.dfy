/** The parsed feed the synchronizer consumes. Downloading and parsing the
    document happen before the model starts; only the fields the
    synchronizer reads are kept. */
module Feeds {
  import opened Wrappers

  /** A point in time; only the order of timestamps matters here. */
  type Timestamp = int

  /** One item of a parsed feed. Every field may be missing. */
  datatype Entry = Entry(
    entryId: Option<string>,
    url: Option<string>,
    published: Option<Timestamp>,
    title: Option<string>,
    summary: Option<string>,
    content: Option<string>
  )

  /** A parsed feed: an optional build time and its entries in feed order. */
  datatype ParsedFeed = ParsedFeed(lastBuilt: Option<Timestamp>, entries: seq<Entry>)

  /** The external key of an entry: its entry id, falling back to its url
      (Ruby's `entry_id || url`, where only nil falls through). */
  function GuidOf(e: Entry): Option<string>
  {
    match e.entryId
    case Some(_) => e.entryId
    case None => e.url
  }

  /** The age filter: an entry is considered only when it has a publish
      time strictly after the cutoff. */
  predicate Recent(e: Entry, cutoff: Timestamp)
  {
    e.published.Some? && cutoff < e.published.value
  }
}
