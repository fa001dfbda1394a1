# Feed synchronization model

A Dafny model of the feed synchronizer of a news aggregator (`Channels::FeedSynchronizer`)
and of the validations of the `Article` record it writes. One synchronization run of a
channel against its parsed feed does three things:

1. **Freshness gate** (`requires_update?`): the run proceeds when the feed has no build
   time, when the channel has no stored `last_build_date`, or when the stored date is
   strictly earlier than the feed's `last_built`. Otherwise the run ends with
   `:no_update_required` and changes nothing.
2. **Watermark update** (`update_channel`): a feed with a build time moves the channel's
   `last_build_date` to it before any entry is processed. The new watermark stays even
   when the loop later aborts.
3. **Entry ingestion** (`create_or_update_articles`): entries are processed in feed order.
   An entry without a publish time, or published at or before the cutoff, is skipped
   silently. The rest are looked up by `(guid, channel)`, where the guid is the entry id,
   or the entry url when the id is nil. A found article is left alone. An unseen entry
   becomes a new article. If the image-url heuristic raises or a validation fails, the
   entry is counted as invalid. Once the invalid count exceeds
   `allowed_invalid_entry_percent × number of entries in the feed`, the run aborts with
   `ExceededMaxInvalidEntryCount`. Articles created earlier in the run stay in the table.

The article table is a `seq<Article>` of rows in insertion order. An `Article` record is
valid when its title and guid are present and it belongs to a channel. Present means
Rails' `present?`: not nil, not empty and not all whitespace. The table is valid when every
row is valid and no two rows share a guid, whatever their channels (`TableValid`).

The lookup matches on guid **and** channel, but uniqueness is checked on guid alone. So an
entry whose guid already belongs to another channel's article is not skipped. Saving it
fails the uniqueness validation and it counts as an invalid entry
(`ForeignGuidIsInvalidEntry`).

Modules:

- `Wrappers` (`wrappers.dfy`): `Option` for nil and `Result` for rescued failures.
- `Feeds` (`feeds.dfy`): the parsed feed, its entries, the entry key and the age filter.
- `Articles` (`articles.dfy`): the `Article` record, its validations and the table invariant.
- `FeedSynchronizer` (`feed_synchronizer.dfy`): the gate, the watermark, one loop step, the
  loop as a recursive function and as a `while` method, and the whole run.
- `SyncProperties` (`sync_properties.dfy`): properties that relate several operations or
  several runs. These cover provenance of new articles, the budget, replay idempotence, the
  cross-channel conflict and a worked scenario.

Details of the code the model keeps:

- The lookup matches on guid and channel (`app/services/channels/feed_synchronizer.rb:60-63`).
- On completion `call` returns `success(:update_completed)` with no counts, so
  `UpdateCompleted` carries nothing (`app/services/channels/feed_synchronizer.rb:33`). The number of created articles is the
  growth of the table.
- The budget exception carries only the channel id and the item
  (`app/services/channels/feed_synchronizer.rb:95-96`), and that is what
  `ExceededMaxInvalidEntryCount` carries.

The schema comment in `app/models/article.rb` lists no `url` or `image_url` column. The
synchronizer assigns both, and the model keeps them as article fields.

## Model

| member | source | states |
|---|---|---|
| Articles.Violations | app/models/article.rb:26-31 | a record has no violations exactly when its title and guid are present, it has a channel, and no row of the table already carries its guid |
| Articles.Save | app/models/article.rb:26-31 | a save succeeds only for a valid record whose guid is not yet taken, appends exactly that record, and keeps the table invariant (present titles and guids, a channel on every row, unique guids); a failed save reports a non-empty set of violations |
| FeedSynchronizer.RequiresUpdate | app/services/channels/feed_synchronizer.rb:42-47 | a feed without a build time or a channel without a watermark always needs an update; otherwise an update is needed exactly when the watermark is strictly earlier than the build time, so equal times mean no update |
| FeedSynchronizer.UpdateChannel | app/services/channels/feed_synchronizer.rb:49-53 | a feed with a build time sets the watermark to it; a feed without one leaves the channel as it was; the channel's id and url never change |
| FeedSynchronizer.MaxAllowedInvalidEntries | app/services/channels/feed_synchronizer.rb:100-102 | the tolerated number of invalid entries is never negative when the ratio is not negative |
| FeedSynchronizer.CreateArticleFromItem | app/services/channels/feed_synchronizer.rb:71-82 | creation fails exactly when the image heuristic raises, the title or key is blank, or the key is already taken in the table; a success appends one article built from the entry's fields for this channel and keeps the table invariant |
| FeedSynchronizer.Process | app/services/channels/feed_synchronizer.rb:56-66 | an entry is filtered exactly when it has no publish time or is not strictly after the cutoff; it is skipped exactly when it is recent and an article with its key and this channel exists; otherwise it is created (one row appended, earlier rows untouched, invariant kept) or it is invalid because creation failed |
| FeedSynchronizer.Ingest | app/services/channels/feed_synchronizer.rb:55-98 | the loop never changes or removes a row that existed before, every row it adds belongs to the channel, it keeps the table invariant, the invalid count never decreases, an abort happens only with the count above the budget and names the entry of the feed whose creation just failed against the table left behind, and a completed loop that started within the budget ends within it |
| FeedSynchronizer.Synchronize | app/services/channels/feed_synchronizer.rb:26-34 | the outcome is no-update exactly when the gate refuses, and then nothing changes; otherwise a feed build time becomes the watermark even if the run aborts; the table only grows, new rows belong to the channel, the table invariant is kept, and an abort names the channel and the entry of the feed whose creation failed against the table left behind |
| FeedSynchronizer.IngestEntries | app/services/channels/feed_synchronizer.rb:55-67 | the in-place `each` loop with a running count and an early exit computes the same result as the recursive loop |
| SyncProperties.GateClosesBehindWatermark | app/services/channels/feed_synchronizer.rb:42-53 | after the watermark is set from a feed, the gate refuses that same feed exactly when the feed has a build time |
| SyncProperties.StaleEntriesIngestNothing | app/services/channels/feed_synchronizer.rb:57-58 | wherever they stand in the feed, entries with no publish time or published at or before the cutoff change nothing: the loop over the whole feed ends exactly as the loop over its recent entries alone, with the same articles, the same invalid count and the same outcome |
| SyncProperties.IngestProvenance | app/services/channels/feed_synchronizer.rb:56-79 | every article the loop adds is the record built from some recent entry of the feed, with a computed image url, for this channel |
| SyncProperties.CompletedRunLeavesNoEntryBehind | app/services/channels/feed_synchronizer.rb:56-79 | after a completed loop, every recent entry with a present title and key and a working image heuristic has its key in the table, whether created now, already present for this channel, or held by another channel |
| SyncProperties.IngestUnbounded | app/services/channels/feed_synchronizer.rb:55-67 | the loop without the budget check always completes, only appends rows and only counts up; it is the reference the budget is measured against |
| SyncProperties.BudgetDecidesAbort | app/services/channels/feed_synchronizer.rb:84-98 | the loop completes exactly when the total number of invalid entries stays within the budget, and then its result is exactly the unbounded loop's |
| SyncProperties.AbortKeepsEarlierArticles | app/services/channels/feed_synchronizer.rb:92-97 | an aborted loop leaves the table exactly as processing the entries before the offending one leaves it; for a loop that starts within the budget the count before the offending entry is still within it, so the loop stops at the first entry that exceeds the budget; that entry failed creation against that table and added exactly one to the count |
| SyncProperties.AbortIffInvalidEntriesExceedBudget | app/services/channels/feed_synchronizer.rb:92-102 | for a non-negative ratio, a run that passes the gate aborts exactly when the feed's invalid entries outnumber ratio × all entries, filtered ones included; a completed run has the unbounded loop's table |
| SyncProperties.CreationFailurePersists | app/services/channels/feed_synchronizer.rb:71-82 | an entry whose creation fails against a table also fails against every extension of that table |
| SyncProperties.ReplayStep | app/services/channels/feed_synchronizer.rb:60-65 | an entry met again against a table that extends both the table it first met and the table it left behind is never created again, and it is invalid only if it was invalid the first time |
| SyncProperties.ReplayIsNoOp | app/services/channels/feed_synchronizer.rb:56-66 | replaying the entries of a completed loop against the table it produced creates nothing, does not abort and counts no more invalid entries |
| SyncProperties.ResyncIsNoOp | app/services/channels/feed_synchronizer.rb:26-34 | a second run against an unchanged feed, after a run that did not abort, leaves channel and articles as they were and does not abort |
| SyncProperties.ForeignGuidIsInvalidEntry | app/services/channels/feed_synchronizer.rb:60-63 | in a valid table, a recent entry whose key belongs to another channel's article is not skipped; it fails the guid uniqueness validation (or the image heuristic) and adds exactly one to the invalid count without changing the table |
| SyncProperties.FirstAndSecondRunScenario | app/services/channels/feed_synchronizer.rb:26-66 | a first run over two entries from yesterday and one from three days ago creates the two recent articles; an immediate second run creates nothing |

## Left out

- Downloading and parsing the feed (`download_feed`) are HTTP and XML work. The model starts from a parsed feed.
- The image-url heuristic (`Channels::ImageUrlParser`) is not part of this model. It is the oracle parameter `image`, which yields a url (possibly none) or an error.
- The sanitize helper include, `paginates_per`, and the schema, index and foreign-key declarations are not modelled. The table invariant states what they enforce.
- The default cutoff (`DateTime.now - 2.days`) reads the clock. The cutoff is a field of `Config`.
- MaxAllowedInvalidEntries: the product is computed exactly in real arithmetic, not in IEEE doubles. For the default ratio 0.1 the comparison with an integer count gives the same answer, because the double nearest 0.1 is above 0.1.
- The service wrapper (`ApplicationService`, `success`) is mirrored only as the `Outcome` datatype. The budget exception becomes an outcome value, and its message text is not modelled.
- The image-url heuristic is taken to be a deterministic function of the entry, the same in every run. `ResyncIsNoOp` and `ReplayIsNoOp` rely on this: a heuristic that failed once and succeeded later could let a second run create an article.
- Concurrent runs on the same channel are not modelled. Nor is the race between the uniqueness validation and the database index.
- A feed that responds to `last_built` but returns nil is not modelled. The build time is simply present or absent.
- A failing `channel.update!` in the watermark step is not modelled; it would end the run with an exception.
- Persistence failures other than the validations and the image heuristic are not modelled. This covers database errors and type-cast failures.
- The `belongs_to` check that the channel record exists is reduced to a channel id being set. The synchronizer always sets it.
- Guid comparison is exact string equality. Database collation and case folding are not modelled.
