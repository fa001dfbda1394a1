/** One synchronization run of a channel against its parsed feed: the
    freshness gate, the watermark update, and the entry ingestion loop with
    its budget of tolerated invalid entries. */
module FeedSynchronizer {
  import opened Wrappers
  import opened Feeds
  import opened Articles

  /** A tracked feed source and its synchronization watermark. */
  datatype Channel = Channel(id: ChannelId, url: string, lastBuildDate: Option<Timestamp>)

  /** The run's options: the fraction of the feed's entries that may be
      invalid, and the cutoff before which entries are discarded. */
  datatype Config = Config(allowedInvalidEntryPercent: real, discardArticlesBefore: Timestamp)

  /** The default fraction of invalid entries tolerated. */
  const DefaultAllowedInvalidEntryPercent: real := 0.1

  /** What the image url heuristic yields for an entry: a url (possibly
      none), or an error raised while computing it. */
  datatype ImageUrl = ImageUrl(url: Option<string>) | ImageUrlError

  /** Why creating an article from an entry failed. */
  datatype CreationError = ImageUrlFailed | ValidationFailed(violations: set<Violation>)

  /** How the run ended. The budget overrun is an exception in the
      synchronizer; here it is a value naming the channel and the entry
      that tipped the count over. */
  datatype Outcome =
    | NoUpdateRequired
    | UpdateCompleted
    | ExceededMaxInvalidEntryCount(channel: ChannelId, item: Entry)

  /** The observable effect of a run: its outcome, the channel as left
      behind, and the articles table as left behind. */
  datatype Run = Run(outcome: Outcome, channel: Channel, articles: Table)

  /** The freshness gate. */
  function RequiresUpdate(lastBuildDate: Option<Timestamp>, lastBuilt: Option<Timestamp>): (r: bool)
    ensures lastBuilt.None? ==> r
    ensures lastBuildDate.None? ==> r
    ensures lastBuildDate.Some? && lastBuilt.Some? ==> (r <==> lastBuildDate.value < lastBuilt.value)
    ensures lastBuildDate == lastBuilt ==> (r <==> lastBuilt.None?)
  {
    match (lastBuildDate, lastBuilt)
    case (_, None) => true
    case (None, _) => true
    case (Some(stored), Some(built)) => stored < built
  }

  /** Advancing the watermark to the feed's build time, when it has one. */
  function UpdateChannel(channel: Channel, feed: ParsedFeed): (c: Channel)
    ensures c.id == channel.id && c.url == channel.url
    ensures feed.lastBuilt.Some? ==> c.lastBuildDate == feed.lastBuilt
    ensures feed.lastBuilt.None? ==> c == channel
  {
    match feed.lastBuilt
    case None => channel
    case Some(_) => channel.(lastBuildDate := feed.lastBuilt)
  }

  /** The fraction of the whole feed's entry count that may be invalid. */
  function MaxAllowedInvalidEntries(config: Config, feed: ParsedFeed): (budget: real)
    ensures config.allowedInvalidEntryPercent >= 0.0 ==> budget >= 0.0
  {
    config.allowedInvalidEntryPercent * |feed.entries| as real
  }

  /** Whether the lookup by `(guid, channel)` finds a persisted article. */
  predicate Persisted(t: Table, guid: Option<string>, channel: ChannelId)
  {
    exists i :: 0 <= i < |t| && t[i].guid == guid && t[i].channel == Some(channel)
  }

  /** The record initialized for an entry with the attributes the
      synchronizer assigns before saving it. */
  function NewArticle(e: Entry, channel: ChannelId, imageUrl: Option<string>): Article
  {
    Article(
      guid := GuidOf(e),
      channel := Some(channel),
      title := e.title,
      description := e.summary,
      publishedAt := e.published,
      content := e.content,
      url := e.url,
      imageUrl := imageUrl)
  }

  /** Creating an article from an entry: the image url is computed first
      (an error there aborts the creation), then the record is saved. */
  function CreateArticleFromItem(t: Table, channel: ChannelId, e: Entry, image: Entry -> ImageUrl)
    : (r: Result<Table, CreationError>)
    ensures r.Success? ==>
              && image(e).ImageUrl?
              && r.value == t + [NewArticle(e, channel, image(e).url)]
              && !GuidTaken(t, GuidOf(e))
              && Present(e.title) && Present(GuidOf(e))
    ensures r.Failure? <==>
              || image(e).ImageUrlError?
              || Blank(e.title) || Blank(GuidOf(e)) || GuidTaken(t, GuidOf(e))
    ensures TableValid(t) && r.Success? ==> TableValid(r.value)
  {
    match image(e)
    case ImageUrlError => Failure(ImageUrlFailed)
    case ImageUrl(u) =>
      match Save(t, NewArticle(e, channel, u))
      case Success(t') => Success(t')
      case Failure(v) => Failure(ValidationFailed(v))
  }

  /** What processing one entry did. */
  datatype Step =
    | Filtered
    | Skipped
    | Created(articles: Table)
    | Invalid(error: CreationError)

  /** One iteration of the ingestion loop: the age filter, the
      find-or-initialize lookup, and the creation of unseen entries. */
  function Process(t: Table, channel: ChannelId, e: Entry, cutoff: Timestamp, image: Entry -> ImageUrl)
    : (s: Step)
    ensures s.Filtered? <==> !Recent(e, cutoff)
    ensures s.Skipped? <==> Recent(e, cutoff) && Persisted(t, GuidOf(e), channel)
    ensures s.Created? ==>
              && image(e).ImageUrl?
              && |s.articles| == |t| + 1 && t <= s.articles
              && s.articles[|t|] == NewArticle(e, channel, image(e).url)
    ensures s.Created? && TableValid(t) ==> TableValid(s.articles)
    ensures s.Invalid? ==> CreateArticleFromItem(t, channel, e, image).Failure?
  {
    if !Recent(e, cutoff) then Filtered
    else if Persisted(t, GuidOf(e), channel) then Skipped
    else
      match CreateArticleFromItem(t, channel, e, image)
      case Success(t') => Created(t')
      case Failure(err) => Invalid(err)
  }

  /** The state of the ingestion loop when it stops. */
  datatype Ingestion =
    | Completed(articles: Table, invalidEntryCount: nat)
    | Aborted(articles: Table, invalidEntryCount: nat, item: Entry)

  /** The ingestion loop over `es`, in order, from table `t` with `count`
      invalid entries seen so far; each invalid entry adds one to the count
      and the loop aborts as soon as the count exceeds `budget`. */
  function Ingest(channel: ChannelId, es: seq<Entry>, cutoff: Timestamp, image: Entry -> ImageUrl,
                  budget: real, t: Table, count: nat): (r: Ingestion)
    ensures t <= r.articles
    ensures count <= r.invalidEntryCount
    ensures forall j :: |t| <= j < |r.articles| ==> r.articles[j].channel == Some(channel)
    ensures TableValid(t) ==> TableValid(r.articles)
    ensures r.Aborted? ==> r.invalidEntryCount as real > budget && r.item in es
    ensures r.Aborted? ==> Process(r.articles, channel, r.item, cutoff, image).Invalid?
    ensures r.Completed? && count as real <= budget ==> r.invalidEntryCount as real <= budget
    decreases |es|
  {
    if |es| == 0 then Completed(t, count)
    else
      match Process(t, channel, es[0], cutoff, image)
      case Filtered => Ingest(channel, es[1..], cutoff, image, budget, t, count)
      case Skipped => Ingest(channel, es[1..], cutoff, image, budget, t, count)
      case Created(t') => Ingest(channel, es[1..], cutoff, image, budget, t', count)
      case Invalid(_) =>
        if (count + 1) as real > budget then Aborted(t, count + 1, es[0])
        else Ingest(channel, es[1..], cutoff, image, budget, t, count + 1)
  }

  /** A whole synchronization run of `channel` against the parsed `feed`. */
  function Synchronize(channel: Channel, feed: ParsedFeed, config: Config, image: Entry -> ImageUrl, t: Table)
    : (r: Run)
    ensures r.outcome.NoUpdateRequired? <==> !RequiresUpdate(channel.lastBuildDate, feed.lastBuilt)
    ensures r.outcome.NoUpdateRequired? ==> r.channel == channel && r.articles == t
    ensures !r.outcome.NoUpdateRequired? && feed.lastBuilt.Some? ==> r.channel.lastBuildDate == feed.lastBuilt
    ensures feed.lastBuilt.None? ==> r.channel == channel
    ensures r.channel.id == channel.id && r.channel.url == channel.url
    ensures t <= r.articles
    ensures forall j :: |t| <= j < |r.articles| ==> r.articles[j].channel == Some(channel.id)
    ensures TableValid(t) ==> TableValid(r.articles)
    ensures r.outcome.ExceededMaxInvalidEntryCount? ==>
              && r.outcome.channel == channel.id && r.outcome.item in feed.entries
              && Process(r.articles, channel.id, r.outcome.item, config.discardArticlesBefore, image).Invalid?
  {
    if !RequiresUpdate(channel.lastBuildDate, feed.lastBuilt) then
      Run(NoUpdateRequired, channel, t)
    else
      var updated := UpdateChannel(channel, feed);
      var budget := MaxAllowedInvalidEntries(config, feed);
      match Ingest(channel.id, feed.entries, config.discardArticlesBefore, image, budget, t, 0)
      case Completed(t', _) => Run(UpdateCompleted, updated, t')
      case Aborted(t', _, item) => Run(ExceededMaxInvalidEntryCount(channel.id, item), updated, t')
  }

  /** The ingestion loop written as the `each` loop it is in the
      synchronizer, mutating the table and the count in place. */
  method IngestEntries(channel: ChannelId, es: seq<Entry>, cutoff: Timestamp, image: Entry -> ImageUrl,
                       budget: real, t: Table) returns (r: Ingestion)
    ensures r == Ingest(channel, es, cutoff, image, budget, t, 0)
  {
    var articles := t;
    var count: nat := 0;
    var i := 0;
    while i < |es|
      invariant 0 <= i <= |es|
      invariant Ingest(channel, es[i..], cutoff, image, budget, articles, count)
                == Ingest(channel, es, cutoff, image, budget, t, 0)
    {
      assert es[i..][0] == es[i] && es[i..][1..] == es[i + 1..];
      var step := Process(articles, channel, es[i], cutoff, image);
      match step {
        case Filtered =>
        case Skipped =>
        case Created(t') =>
          articles := t';
        case Invalid(_) =>
          count := count + 1;
          if count as real > budget {
            return Aborted(articles, count, es[i]);
          }
      }
      i := i + 1;
    }
    return Completed(articles, count);
  }
}
