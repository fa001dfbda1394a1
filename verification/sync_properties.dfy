/** Properties of a synchronization run that relate several operations or
    several runs: the gate closing behind the watermark, where new articles
    come from, the failure budget, replay idempotence, and the cross-channel
    guid conflict. */
module SyncProperties {
  import opened Wrappers
  import opened Feeds
  import opened Articles
  import opened FeedSynchronizer

  /** Once the watermark has been advanced to a feed's build time, the gate
      refuses that same feed; a feed without a build time always passes. */
  lemma GateClosesBehindWatermark(channel: Channel, feed: ParsedFeed)
    ensures RequiresUpdate(UpdateChannel(channel, feed).lastBuildDate, feed.lastBuilt)
            <==> feed.lastBuilt.None?
  {
  }

  /** The recent entries of `es`, in feed order. */
  function RecentOnly(es: seq<Entry>, cutoff: Timestamp): (rs: seq<Entry>)
    ensures forall e :: e in rs ==> e in es && Recent(e, cutoff)
    ensures forall e :: e in es && Recent(e, cutoff) ==> e in rs
    decreases |es|
  {
    if |es| == 0 then []
    else if Recent(es[0], cutoff) then [es[0]] + RecentOnly(es[1..], cutoff)
    else RecentOnly(es[1..], cutoff)
  }

  /** An entry that is too old, or has no publish time, changes nothing
      wherever it stands in the feed: the loop over the whole feed ends
      exactly as the loop over its recent entries alone, with the same
      articles and the same invalid count. */
  lemma {:induction false} StaleEntriesIngestNothing(
    channel: ChannelId, es: seq<Entry>, cutoff: Timestamp, image: Entry -> ImageUrl,
    budget: real, t: Table, count: nat)
    ensures Ingest(channel, es, cutoff, image, budget, t, count)
            == Ingest(channel, RecentOnly(es, cutoff), cutoff, image, budget, t, count)
    decreases |es|
  {
    if |es| > 0 {
      var rest := es[1..];
      if !Recent(es[0], cutoff) {
        StaleEntriesIngestNothing(channel, rest, cutoff, image, budget, t, count);
      } else {
        var rs := RecentOnly(es, cutoff);
        assert rs[0] == es[0] && rs[1..] == RecentOnly(rest, cutoff);
        match Process(t, channel, es[0], cutoff, image)
        case Filtered =>
        case Skipped =>
          StaleEntriesIngestNothing(channel, rest, cutoff, image, budget, t, count);
        case Created(t') =>
          StaleEntriesIngestNothing(channel, rest, cutoff, image, budget, t', count);
        case Invalid(_) =>
          StaleEntriesIngestNothing(channel, rest, cutoff, image, budget, t, count + 1);
      }
    }
  }

  /** `a` is the article initialized for some recent entry of `es` whose
      image heuristic succeeded. */
  ghost predicate BuiltFromRecentEntry(a: Article, channel: ChannelId, es: seq<Entry>,
                                       cutoff: Timestamp, image: Entry -> ImageUrl)
  {
    exists i :: 0 <= i < |es| && Recent(es[i], cutoff) && image(es[i]).ImageUrl?
                && a == NewArticle(es[i], channel, image(es[i]).url)
  }

  /** Every article a run adds was built from a recent entry of the feed,
      owned by the channel, carrying the entry's key and fields. */
  lemma {:induction false} IngestProvenance(
    channel: ChannelId, es: seq<Entry>, cutoff: Timestamp, image: Entry -> ImageUrl,
    budget: real, t: Table, count: nat)
    ensures var r := Ingest(channel, es, cutoff, image, budget, t, count);
            forall j :: |t| <= j < |r.articles| ==>
              BuiltFromRecentEntry(r.articles[j], channel, es, cutoff, image)
    decreases |es|
  {
    var r := Ingest(channel, es, cutoff, image, budget, t, count);
    if |es| > 0 {
      var s := Process(t, channel, es[0], cutoff, image);
      var t1 := if s.Created? then s.articles else t;
      var c1 := if s.Invalid? then count + 1 else count;
      if s.Invalid? && (count + 1) as real > budget {
        assert r.articles == t;
      } else {
        var rest := es[1..];
        assert r == Ingest(channel, rest, cutoff, image, budget, t1, c1);
        IngestProvenance(channel, rest, cutoff, image, budget, t1, c1);
        assert var rr := Ingest(channel, rest, cutoff, image, budget, t1, c1);
               forall j :: |t1| <= j < |rr.articles| ==>
                 BuiltFromRecentEntry(rr.articles[j], channel, rest, cutoff, image);
        forall j | |t| <= j < |r.articles|
          ensures BuiltFromRecentEntry(r.articles[j], channel, es, cutoff, image)
        {
          if j < |t1| {
            assert s.Created? && j == |t|;
            assert r.articles[j] == t1[j];
            assert Recent(es[0], cutoff) && image(es[0]).ImageUrl?
                   && r.articles[j] == NewArticle(es[0], channel, image(es[0]).url);
          } else {
            assert var rr := Ingest(channel, rest, cutoff, image, budget, t1, c1);
                   |t1| <= j < |rr.articles| && rr.articles[j] == r.articles[j]
                   && BuiltFromRecentEntry(rr.articles[j], channel, rest, cutoff, image);
            var i :| 0 <= i < |rest| && Recent(rest[i], cutoff) && image(rest[i]).ImageUrl?
                     && r.articles[j] == NewArticle(rest[i], channel, image(rest[i]).url);
            assert rest[i] == es[i + 1];
          }
        }
      }
    }
  }

  /** A guid carried by some row stays carried as the table grows. */
  lemma GuidTakenGrows(t: Table, f: Table, guid: Option<string>)
    requires t <= f
    requires GuidTaken(t, guid)
    ensures GuidTaken(f, guid)
  {
  }

  /** A loop that completes leaves no creatable entry behind: every recent
      entry with a present title and key and a working image heuristic ends
      with its key in the table, whether this run created it, an earlier run
      did, or another channel's article already held the key. */
  lemma {:induction false} CompletedRunLeavesNoEntryBehind(
    channel: ChannelId, es: seq<Entry>, cutoff: Timestamp, image: Entry -> ImageUrl,
    budget: real, t: Table, count: nat)
    requires Ingest(channel, es, cutoff, image, budget, t, count).Completed?
    ensures var r := Ingest(channel, es, cutoff, image, budget, t, count);
            forall i :: 0 <= i < |es| && Recent(es[i], cutoff) && Present(es[i].title)
                        && Present(GuidOf(es[i])) && image(es[i]).ImageUrl?
                        ==> GuidTaken(r.articles, GuidOf(es[i]))
    decreases |es|
  {
    var r := Ingest(channel, es, cutoff, image, budget, t, count);
    if |es| > 0 {
      var e := es[0];
      var rest := es[1..];
      var s := Process(t, channel, e, cutoff, image);
      var t1 := if s.Created? then s.articles else t;
      var c1 := if s.Invalid? then count + 1 else count;
      assert r == Ingest(channel, rest, cutoff, image, budget, t1, c1);
      CompletedRunLeavesNoEntryBehind(channel, rest, cutoff, image, budget, t1, c1);
      if Recent(e, cutoff) && Present(e.title) && Present(GuidOf(e)) && image(e).ImageUrl? {
        match s
        case Skipped =>
          var i :| 0 <= i < |t| && t[i].guid == GuidOf(e) && t[i].channel == Some(channel);
          assert GuidTaken(t, GuidOf(e));
          GuidTakenGrows(t, r.articles, GuidOf(e));
        case Created(t') =>
          assert t'[|t|].guid == GuidOf(e);
          GuidTakenGrows(t', r.articles, GuidOf(e));
        case Invalid(_) =>
          GuidTakenGrows(t, r.articles, GuidOf(e));
      }
      forall i | 1 <= i < |es|
        ensures es[i] == rest[i - 1]
      {
      }
    }
  }

  /** The ingestion loop without the budget check, a reference against which
      the budget is measured: what the loop would create and how many invalid
      entries it would count if it never aborted. */
  function IngestUnbounded(channel: ChannelId, es: seq<Entry>, cutoff: Timestamp,
                           image: Entry -> ImageUrl, t: Table, count: nat): (u: Ingestion)
    ensures u.Completed?
    ensures count <= u.invalidEntryCount
    ensures t <= u.articles
    decreases |es|
  {
    if |es| == 0 then Completed(t, count)
    else
      match Process(t, channel, es[0], cutoff, image)
      case Created(t') => IngestUnbounded(channel, es[1..], cutoff, image, t', count)
      case Invalid(_) => IngestUnbounded(channel, es[1..], cutoff, image, t, count + 1)
      case _ => IngestUnbounded(channel, es[1..], cutoff, image, t, count)
  }

  /** The loop completes exactly when the total number of invalid entries
      stays within the budget, and then it has done what the unbounded loop
      does; otherwise it aborts. */
  lemma {:induction false} BudgetDecidesAbort(
    channel: ChannelId, es: seq<Entry>, cutoff: Timestamp, image: Entry -> ImageUrl,
    budget: real, t: Table, count: nat)
    requires count as real <= budget
    ensures var r := Ingest(channel, es, cutoff, image, budget, t, count);
            var u := IngestUnbounded(channel, es, cutoff, image, t, count);
            && (r.Completed? <==> u.invalidEntryCount as real <= budget)
            && (r.Completed? ==> r == u)
    decreases |es|
  {
    if |es| > 0 {
      match Process(t, channel, es[0], cutoff, image)
      case Filtered =>
        BudgetDecidesAbort(channel, es[1..], cutoff, image, budget, t, count);
      case Skipped =>
        BudgetDecidesAbort(channel, es[1..], cutoff, image, budget, t, count);
      case Created(t') =>
        BudgetDecidesAbort(channel, es[1..], cutoff, image, budget, t', count);
      case Invalid(_) =>
        if (count + 1) as real <= budget {
          BudgetDecidesAbort(channel, es[1..], cutoff, image, budget, t, count + 1);
        }
    }
  }

  /** Articles committed before an abort stay committed: an aborted loop has
      left the table exactly as the unbounded loop leaves it just before the
      offending entry; the count was still within the budget before that
      entry (when it started within it), the entry failed creation against
      that table, and its one invalid entry pushed the count over the budget,
      so the loop stops at the first entry that exceeds the budget. */
  lemma {:induction false} AbortKeepsEarlierArticles(
    channel: ChannelId, es: seq<Entry>, cutoff: Timestamp, image: Entry -> ImageUrl,
    budget: real, t: Table, count: nat)
    requires Ingest(channel, es, cutoff, image, budget, t, count).Aborted?
    ensures var r := Ingest(channel, es, cutoff, image, budget, t, count);
            exists k :: 0 <= k < |es| && es[k] == r.item
                        && var before := IngestUnbounded(channel, es[..k], cutoff, image, t, count);
                           && before.articles == r.articles
                           && before.invalidEntryCount + 1 == r.invalidEntryCount
                           && (count as real <= budget ==> before.invalidEntryCount as real <= budget)
                           && r.invalidEntryCount as real > budget
                           && Process(before.articles, channel, es[k], cutoff, image).Invalid?
    decreases |es|
  {
    var r := Ingest(channel, es, cutoff, image, budget, t, count);
    var s := Process(t, channel, es[0], cutoff, image);
    if s.Invalid? && (count + 1) as real > budget {
      assert es[..0] == [];
      var before := IngestUnbounded(channel, es[..0], cutoff, image, t, count);
      assert before == Completed(t, count);
      assert r == Aborted(t, count + 1, es[0]);
      assert before.articles == r.articles && before.invalidEntryCount + 1 == r.invalidEntryCount;
    } else {
      var t1 := if s.Created? then s.articles else t;
      var c1 := if s.Invalid? then count + 1 else count;
      var rest := es[1..];
      assert r == Ingest(channel, rest, cutoff, image, budget, t1, c1);
      AbortKeepsEarlierArticles(channel, rest, cutoff, image, budget, t1, c1);
      var k :| 0 <= k < |rest| && rest[k] == r.item
               && var before := IngestUnbounded(channel, rest[..k], cutoff, image, t1, c1);
                  && before.articles == r.articles
                  && before.invalidEntryCount + 1 == r.invalidEntryCount
                  && (c1 as real <= budget ==> before.invalidEntryCount as real <= budget)
                  && r.invalidEntryCount as real > budget
                  && Process(before.articles, channel, rest[k], cutoff, image).Invalid?;
      assert es[..k + 1][0] == es[0] && es[..k + 1][1..] == rest[..k];
      var before := IngestUnbounded(channel, es[..k + 1], cutoff, image, t, count);
      assert before == IngestUnbounded(channel, rest[..k], cutoff, image, t1, c1);
      assert count as real <= budget ==> c1 as real <= budget;
      assert es[k + 1] == rest[k];
      assert before.articles == r.articles && before.invalidEntryCount + 1 == r.invalidEntryCount;
      assert Process(before.articles, channel, es[k + 1], cutoff, image).Invalid?;
    }
  }

  /** A run aborts with ExceededMaxInvalidEntryCount exactly when the feed
      holds more invalid entries than the fraction of its whole entry count
      allows; the filtered entries count in that denominator. */
  lemma AbortIffInvalidEntriesExceedBudget(
    channel: Channel, feed: ParsedFeed, config: Config, image: Entry -> ImageUrl, t: Table)
    requires config.allowedInvalidEntryPercent >= 0.0
    requires RequiresUpdate(channel.lastBuildDate, feed.lastBuilt)
    ensures var r := Synchronize(channel, feed, config, image, t);
            var u := IngestUnbounded(channel.id, feed.entries, config.discardArticlesBefore, image, t, 0);
            && (r.outcome.ExceededMaxInvalidEntryCount?
                <==> u.invalidEntryCount as real > MaxAllowedInvalidEntries(config, feed))
            && (r.outcome.UpdateCompleted? ==> r.articles == u.articles)
  {
    var budget := MaxAllowedInvalidEntries(config, feed);
    var cutoff := config.discardArticlesBefore;
    var r := Synchronize(channel, feed, config, image, t);
    var run := Ingest(channel.id, feed.entries, cutoff, image, budget, t, 0);
    assert r.outcome.ExceededMaxInvalidEntryCount? <==> run.Aborted?;
    assert r.articles == run.articles;
    BudgetDecidesAbort(channel.id, feed.entries, cutoff, image, budget, t, 0);
  }

  /** A creation that fails against a table also fails against any
      extension of it: the validations that do not look at the table give
      the same answer, and a guid already taken stays taken. */
  lemma CreationFailurePersists(t: Table, f: Table, channel: ChannelId, e: Entry, image: Entry -> ImageUrl)
    requires t <= f
    requires CreateArticleFromItem(t, channel, e, image).Failure?
    ensures CreateArticleFromItem(f, channel, e, image).Failure?
  {
  }

  /** One entry met again by a replay, against a table that extends both
      the table it first met and the table it left behind: it is never
      created again, and it is invalid only if it was invalid the first
      time. */
  lemma ReplayStep(channel: ChannelId, e: Entry, cutoff: Timestamp, image: Entry -> ImageUrl,
                   t: Table, f: Table)
    requires t <= f
    requires Process(t, channel, e, cutoff, image).Created? ==>
               Process(t, channel, e, cutoff, image).articles <= f
    ensures !Process(f, channel, e, cutoff, image).Created?
    ensures Process(f, channel, e, cutoff, image).Invalid? ==>
              Process(t, channel, e, cutoff, image).Invalid?
  {
  }

  /** Replaying the loop over the same entries against the table a
      completed pass produced, with no more invalid entries already counted,
      creates nothing, never aborts, and counts no more invalid entries
      than the first pass. */
  lemma {:induction false} ReplayIsNoOp(
    channel: ChannelId, es: seq<Entry>, cutoff: Timestamp, image: Entry -> ImageUrl,
    budget: real, t: Table, count: nat, f: Table, d: nat)
    requires Ingest(channel, es, cutoff, image, budget, t, count).Completed?
    requires f == Ingest(channel, es, cutoff, image, budget, t, count).articles
    requires d <= count
    ensures Ingest(channel, es, cutoff, image, budget, f, d).Completed?
    ensures Ingest(channel, es, cutoff, image, budget, f, d).articles == f
    ensures Ingest(channel, es, cutoff, image, budget, f, d).invalidEntryCount
            <= Ingest(channel, es, cutoff, image, budget, t, count).invalidEntryCount
    decreases |es|
  {
    if |es| > 0 {
      var e := es[0];
      var rest := es[1..];
      var s := Process(t, channel, e, cutoff, image);
      var t1 := if s.Created? then s.articles else t;
      var c1 := if s.Invalid? then count + 1 else count;
      assert Ingest(channel, es, cutoff, image, budget, t, count)
             == Ingest(channel, rest, cutoff, image, budget, t1, c1);
      assert t1 <= f;
      ReplayStep(channel, e, cutoff, image, t, f);
      var s2 := Process(f, channel, e, cutoff, image);
      var d1 := if s2.Invalid? then d + 1 else d;
      assert d1 <= c1;
      assert Ingest(channel, es, cutoff, image, budget, f, d)
             == Ingest(channel, rest, cutoff, image, budget, f, d1);
      ReplayIsNoOp(channel, rest, cutoff, image, budget, t1, c1, f, d1);
    }
  }

  /** Synchronizing again against an unchanged feed, after a run that did
      not abort, changes neither the channel nor the articles and does not
      abort: entries already ingested are skipped. */
  lemma ResyncIsNoOp(channel: Channel, feed: ParsedFeed, config: Config, image: Entry -> ImageUrl, t: Table)
    requires !Synchronize(channel, feed, config, image, t).outcome.ExceededMaxInvalidEntryCount?
    ensures var r1 := Synchronize(channel, feed, config, image, t);
            var r2 := Synchronize(r1.channel, feed, config, image, r1.articles);
            && !r2.outcome.ExceededMaxInvalidEntryCount?
            && r2.articles == r1.articles
            && r2.channel == r1.channel
  {
    var r1 := Synchronize(channel, feed, config, image, t);
    if !r1.outcome.NoUpdateRequired? && feed.lastBuilt.None? {
      var budget := MaxAllowedInvalidEntries(config, feed);
      var cutoff := config.discardArticlesBefore;
      ReplayIsNoOp(channel.id, feed.entries, cutoff, image, budget, t, 0, r1.articles, 0);
    }
  }

  /** An entry whose guid already belongs to another channel's article is
      not skipped: the lookup by guid and channel misses it, the uniqueness
      validation then rejects it, and it counts as one invalid entry. */
  lemma ForeignGuidIsInvalidEntry(
    channel: ChannelId, e: Entry, cutoff: Timestamp, image: Entry -> ImageUrl,
    budget: real, t: Table, count: nat, i: int)
    requires TableValid(t)
    requires Recent(e, cutoff)
    requires 0 <= i < |t| && t[i].guid == GuidOf(e) && t[i].channel != Some(channel)
    ensures Process(t, channel, e, cutoff, image).Invalid?
    ensures image(e).ImageUrl? ==>
              Process(t, channel, e, cutoff, image)
              == Invalid(ValidationFailed(Violations(t, NewArticle(e, channel, image(e).url))))
    ensures image(e).ImageUrl? ==>
              GuidNotUnique in Violations(t, NewArticle(e, channel, image(e).url))
    ensures var r := Ingest(channel, [e], cutoff, image, budget, t, count);
            r.articles == t && r.invalidEntryCount == count + 1
  {
  }

  /** A first synchronization of a channel with no watermark against a feed
      without a build time, two entries from yesterday and one from three
      days ago (cutoff two days ago, times in hours): the two recent entries
      become articles, the old one is dropped, and an immediate second run
      adds nothing. */
  lemma FirstAndSecondRunScenario(image: Entry -> ImageUrl)
    requires forall e :: image(e) == ImageUrl(None)
    ensures var channel := Channel(7, "https://example.org/feed", None);
            var yesterday := Entry(Some("a"), None, Some(76), Some("A"), None, None);
            var alsoYesterday := Entry(Some("b"), None, Some(80), Some("B"), None, None);
            var threeDaysAgo := Entry(Some("c"), None, Some(28), Some("C"), None, None);
            var feed := ParsedFeed(None, [yesterday, alsoYesterday, threeDaysAgo]);
            var config := Config(DefaultAllowedInvalidEntryPercent, 52);
            var r1 := Synchronize(channel, feed, config, image, []);
            var r2 := Synchronize(r1.channel, feed, config, image, r1.articles);
            && r1.outcome == UpdateCompleted
            && r1.articles == [NewArticle(yesterday, 7, None), NewArticle(alsoYesterday, 7, None)]
            && r2.outcome == UpdateCompleted
            && r2.articles == r1.articles
  {
    var channel := Channel(7, "https://example.org/feed", None);
    var yesterday := Entry(Some("a"), None, Some(76), Some("A"), None, None);
    var alsoYesterday := Entry(Some("b"), None, Some(80), Some("B"), None, None);
    var threeDaysAgo := Entry(Some("c"), None, Some(28), Some("C"), None, None);
    var es := [yesterday, alsoYesterday, threeDaysAgo];
    var feed := ParsedFeed(None, es);
    var config := Config(DefaultAllowedInvalidEntryPercent, 52);
    var budget := MaxAllowedInvalidEntries(config, feed);
    var a := NewArticle(yesterday, 7, None);
    var b := NewArticle(alsoYesterday, 7, None);
    assert "A"[0] == 'A' && "a"[0] == 'a' && "B"[0] == 'B' && "b"[0] == 'b';
    assert !Blank(Some("A")) && !Blank(Some("a")) && !Blank(Some("B")) && !Blank(Some("b"));
    assert es[1..] == [alsoYesterday, threeDaysAgo] && es[1..][1..] == [threeDaysAgo];
    assert [threeDaysAgo][1..] == [];
    assert Process([], 7, yesterday, 52, image) == Created([a]);
    assert !GuidTaken([a], Some("b"));
    assert Process([a], 7, alsoYesterday, 52, image) == Created([a, b]);
    assert Process([a, b], 7, threeDaysAgo, 52, image) == Filtered;
    assert Ingest(7, [threeDaysAgo], 52, image, budget, [a, b], 0) == Completed([a, b], 0);
    assert Ingest(7, es[1..], 52, image, budget, [a], 0) == Completed([a, b], 0);
    assert Ingest(7, es, 52, image, budget, [], 0) == Completed([a, b], 0);
    assert Persisted([a, b], Some("a"), 7) && Persisted([a, b], Some("b"), 7);
    assert Ingest(7, es, 52, image, budget, [a, b], 0) == Completed([a, b], 0);
  }
}
