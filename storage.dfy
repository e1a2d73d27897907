/** The feed, tag and entry store of tagrss (SqliteStorageProvider in tagrss.py).

    SQLite is modelled as three relations held in the fields of a `Store` object:
    feeds (id to source and title, both columns unique), feed_tags (id to its set of
    tags) and entries (a sequence of rows with increasing ids). Each provider method is
    modelled as one atomic step; the source's transactions are finer in two places:
    get_feeds reads the page and the tags in two blocks, and store_entries commits each
    entry on its own. */
module Storage {
  import TagCodec

  type FeedId = nat
  type EntryId = nat
  type Epoch = int

  datatype Option<T> = None | Some(value: T)
  {
    function GetOr(default: T): T
    {
      if Some? then value else default
    }
  }

  /** The exceptions of tagrss.py, plus the raw sqlite3.IntegrityError the provider lets through. */
  datatype Error =
    | FeedSourceAlreadyExists
    | FeedTitleAlreadyInUse(title: Option<string>)   // store_feed passes the title, set_feed_title does not
    | StorageConstraintViolation
    | IntegrityError
    | FeedFetchError(source: string, statusCode: int)

  datatype Result<T> = Ok(value: T) | Err(error: Error)

  datatype FeedRow = FeedRow(source: string, title: string)

  datatype EntryRow = EntryRow(
    id: EntryId,
    feedId: FeedId,
    title: Option<string>,
    link: Option<string>,
    epochPublished: Option<Epoch>,
    epochUpdated: Option<Epoch>,
    epochDownloaded: Epoch)

  /** An entry as get_entries returns it: the row without its download time. */
  datatype Entry = Entry(
    id: EntryId,
    feedId: FeedId,
    title: Option<string>,
    link: Option<string>,
    epochPublished: Option<Epoch>,
    epochUpdated: Option<Epoch>)

  datatype PartialFeed = PartialFeed(id: FeedId, source: string, title: string, tags: Option<set<string>>)

  /** The time tuple the feed parser produces for a date it could read. */
  datatype TimeStruct = TimeStruct(year: int, month: int, day: int, hour: int, minute: int, second: int)

  /** One parsed feed item; a key the document lacks, or holds as None, is `None` here. */
  datatype ParsedEntry = ParsedEntry(
    link: Option<string>,
    title: Option<string>,
    publishedParsed: Option<TimeStruct>,
    updatedParsed: Option<TimeStruct>)

  /** The optional `included_feeds` and `included_tags` arguments; an empty list (or None) filters nothing. */
  datatype Filter = Filter(includedFeeds: seq<FeedId>, includedTags: seq<string>)

  const NoFilter := Filter([], [])

  predicate IsUnfiltered(f: Filter)
  {
    |f.includedFeeds| == 0 && |f.includedTags| == 0
  }

  predicate NoDuplicates<T(==)>(s: seq<T>)
  {
    forall i, j | 0 <= i < j < |s| :: s[i] != s[j]
  }

  function Min(a: int, b: int): int
  {
    if a <= b then a else b
  }

  // ---------------------------------------------------------------------------
  // Filters: the WHERE clause the queries assemble, and what it means.

  /** One conjunct of the WHERE clause: `id IN (?, …)` or `id IN (SELECT feed_id FROM feed_tags WHERE tag = ?)`. */
  datatype Condition = FeedIdIn(ids: seq<FeedId>) | HasTag(tag: string)

  /** "WHERE 1", then the id-list conjunct when the list is non-empty, then one tag conjunct per requested tag. */
  function WhereClause(f: Filter): seq<Condition>
  {
    (if |f.includedFeeds| > 0 then [FeedIdIn(f.includedFeeds)] else [])
      + seq(|f.includedTags|, i requires 0 <= i < |f.includedTags| => HasTag(f.includedTags[i]))
  }

  function TagsOf(feedTags: map<FeedId, set<string>>, id: FeedId): set<string>
  {
    if id in feedTags then feedTags[id] else {}
  }

  predicate Satisfies(c: Condition, feedTags: map<FeedId, set<string>>, id: FeedId)
  {
    match c
    case FeedIdIn(ids) => id in ids
    case HasTag(t) => t in TagsOf(feedTags, id)
  }

  predicate SatisfiesAll(conds: seq<Condition>, feedTags: map<FeedId, set<string>>, id: FeedId)
  {
    forall k | 0 <= k < |conds| :: Satisfies(conds[k], feedTags, id)
  }

  /** What a filter is meant to select: a listed feed (when a list is given) carrying every requested tag. */
  predicate Matches(f: Filter, feedTags: map<FeedId, set<string>>, id: FeedId)
  {
    && (|f.includedFeeds| == 0 || id in f.includedFeeds)
    && TagCodec.Elements(f.includedTags) <= TagsOf(feedTags, id)
  }

  /** The assembled clause selects exactly the feeds the filter means: one conjunct per tag gives
      "has all of these tags" (intersection, not union), and an empty list adds no conjunct. */
  lemma WhereClauseMeansMatches(f: Filter, feedTags: map<FeedId, set<string>>, id: FeedId)
    ensures SatisfiesAll(WhereClause(f), feedTags, id) <==> Matches(f, feedTags, id)
  {
    var conds := WhereClause(f);
    var lead := if |f.includedFeeds| > 0 then 1 else 0;
    assert |conds| == lead + |f.includedTags|;
    assert forall i | 0 <= i < |f.includedTags| :: conds[lead + i] == HasTag(f.includedTags[i]);
    if SatisfiesAll(conds, feedTags, id) {
      if |f.includedFeeds| > 0 {
        assert conds[0] == FeedIdIn(f.includedFeeds) && Satisfies(conds[0], feedTags, id);
      }
      forall t | t in TagCodec.Elements(f.includedTags) ensures t in TagsOf(feedTags, id) {
        var i :| 0 <= i < |f.includedTags| && f.includedTags[i] == t;
        assert Satisfies(conds[lead + i], feedTags, id);
      }
    }
    if Matches(f, feedTags, id) {
      forall k | 0 <= k < |conds| ensures Satisfies(conds[k], feedTags, id) {
        if k >= lead {
          assert f.includedTags[k - lead] in TagCodec.Elements(f.includedTags);
        }
      }
    }
  }

  // ---------------------------------------------------------------------------
  // Queries: ORDER BY, then LIMIT and OFFSET.

  /** Where OFFSET starts: SQLite reads a negative offset as zero. */
  function PageStart(n: nat, offset: int): (s: nat)
    ensures s <= n
  {
    if offset < 0 then 0 else if offset > n then n else offset
  }

  /** `LIMIT limit OFFSET offset` over rows already in order; a negative limit sets no bound. */
  function Page<T>(rows: seq<T>, limit: int, offset: int): (r: seq<T>)
    ensures limit >= 0 ==> |r| <= limit
    ensures PageStart(|rows|, offset) + |r| <= |rows|
    ensures r == rows[PageStart(|rows|, offset)..PageStart(|rows|, offset) + |r|]
    ensures |r| == if 0 <= limit <= |rows| - PageStart(|rows|, offset) then limit
                   else |rows| - PageStart(|rows|, offset)
  {
    var rest := rows[PageStart(|rows|, offset)..];
    if limit < 0 || limit >= |rest| then rest else rest[..limit]
  }

  /** `SELECT id, source, title FROM feeds WHERE … ORDER BY id ASC` over the ids below n. */
  function SelectFeeds(feeds: map<FeedId, FeedRow>, feedTags: map<FeedId, set<string>>, f: Filter, n: nat)
    : seq<PartialFeed>
  {
    if n == 0 then []
    else
      var id := n - 1;
      SelectFeeds(feeds, feedTags, f, id)
        + if id in feeds && SatisfiesAll(WhereClause(f), feedTags, id)
          then [PartialFeed(id, feeds[id].source, feeds[id].title, None)] else []
  }

  predicate AscendingIds(r: seq<PartialFeed>)
  {
    forall i, j | 0 <= i < j < |r| :: r[i].id < r[j].id
  }

  /** Every row is a stored feed below n that the filter selects, shown as stored, without tags. */
  ghost predicate SelectedRows(r: seq<PartialFeed>, feeds: map<FeedId, FeedRow>,
                               feedTags: map<FeedId, set<string>>, f: Filter, n: nat)
  {
    forall i | 0 <= i < |r| ::
      && r[i].id < n && r[i].id in feeds && Matches(f, feedTags, r[i].id)
      && r[i] == PartialFeed(r[i].id, feeds[r[i].id].source, feeds[r[i].id].title, None)
  }

  /** The feed query is ordered by ascending id, returns only feeds the filter selects, and
      misses none of them. */
  lemma {:induction false} SelectFeedsSpec(
    feeds: map<FeedId, FeedRow>, feedTags: map<FeedId, set<string>>, f: Filter, n: nat)
    ensures var r := SelectFeeds(feeds, feedTags, f, n);
      && AscendingIds(r)
      && SelectedRows(r, feeds, feedTags, f, n)
      && forall id | id in feeds && id < n && Matches(f, feedTags, id) :: exists i :: 0 <= i < |r| && r[i].id == id
  {
    if n > 0 {
      var id := n - 1;
      SelectFeedsSpec(feeds, feedTags, f, id);
      WhereClauseMeansMatches(f, feedTags, id);
      var prefix := SelectFeeds(feeds, feedTags, f, id);
      var r := SelectFeeds(feeds, feedTags, f, n);
      assert forall i | 0 <= i < |prefix| :: r[i] == prefix[i];
      if id in feeds && Matches(f, feedTags, id) {
        assert r[|prefix|].id == id;
      }
    }
  }

  function MatchingFeeds(feeds: map<FeedId, FeedRow>, feedTags: map<FeedId, set<string>>, f: Filter, n: nat)
    : set<FeedId>
  {
    set id | id in feeds && id < n && Matches(f, feedTags, id)
  }

  /** The unpaged feed query returns one row per matching feed. */
  lemma {:induction false} SelectFeedsCount(
    feeds: map<FeedId, FeedRow>, feedTags: map<FeedId, set<string>>, f: Filter, n: nat)
    ensures |SelectFeeds(feeds, feedTags, f, n)| == |MatchingFeeds(feeds, feedTags, f, n)|
  {
    if n > 0 {
      var id := n - 1;
      SelectFeedsCount(feeds, feedTags, f, id);
      WhereClauseMeansMatches(f, feedTags, id);
      var before := MatchingFeeds(feeds, feedTags, f, id);
      if id in feeds && Matches(f, feedTags, id) {
        assert MatchingFeeds(feeds, feedTags, f, n) == before + {id};
      } else {
        assert MatchingFeeds(feeds, feedTags, f, n) == before;
      }
    }
  }

  predicate IdsIncreasing(entries: seq<EntryRow>)
  {
    forall i, j | 0 <= i < j < |entries| :: entries[i].id < entries[j].id
  }

  predicate IdsDecreasing(entries: seq<EntryRow>)
  {
    forall i, j | 0 <= i < j < |entries| :: entries[i].id > entries[j].id
  }

  /** `SELECT … FROM entries WHERE … ORDER BY id DESC`, written over a table kept in ascending id order. */
  function SelectEntries(entries: seq<EntryRow>, feedTags: map<FeedId, set<string>>, f: Filter)
    : seq<EntryRow>
  {
    if |entries| == 0 then []
    else
      var last := entries[|entries| - 1];
      (if SatisfiesAll(WhereClause(f), feedTags, last.feedId) then [last] else [])
        + SelectEntries(entries[..|entries| - 1], feedTags, f)
  }

  /** The entry query returns exactly the stored entries whose feed the filter selects. */
  lemma {:induction false} SelectEntriesMembers(entries: seq<EntryRow>, feedTags: map<FeedId, set<string>>,
                                                f: Filter)
    ensures |SelectEntries(entries, feedTags, f)| <= |entries|
    ensures forall e | e in SelectEntries(entries, feedTags, f) :: e in entries && Matches(f, feedTags, e.feedId)
    ensures forall e | e in entries && Matches(f, feedTags, e.feedId) :: e in SelectEntries(entries, feedTags, f)
  {
    if |entries| > 0 {
      var last := entries[|entries| - 1];
      var older := entries[..|entries| - 1];
      assert entries == older + [last];
      SelectEntriesMembers(older, feedTags, f);
      WhereClauseMeansMatches(f, feedTags, last.feedId);
    }
  }

  /** Putting a row with a higher id than all of rest in front keeps the ids decreasing. */
  lemma PrependKeepsDecreasing(head: seq<EntryRow>, rest: seq<EntryRow>, top: EntryRow)
    requires head == [] || head == [top]
    requires IdsDecreasing(rest) && forall e | e in rest :: e.id < top.id
    ensures IdsDecreasing(head + rest)
  {
    var r := head + rest;
    forall i, j | 0 <= i < j < |r| ensures r[i].id > r[j].id {
      if i < |head| {
        assert r[j] in rest;
      } else {
        assert r[i] == rest[i - |head|] && r[j] == rest[j - |head|];
      }
    }
  }

  /** Over rows stored in id order the query lists the newest (highest id) first. */
  lemma {:induction false} SelectEntriesNewestFirst(entries: seq<EntryRow>, feedTags: map<FeedId, set<string>>,
                                                    f: Filter)
    requires IdsIncreasing(entries)
    ensures IdsDecreasing(SelectEntries(entries, feedTags, f))
  {
    if |entries| > 0 {
      var last := entries[|entries| - 1];
      var older := entries[..|entries| - 1];
      SelectEntriesNewestFirst(older, feedTags, f);
      SelectEntriesMembers(older, feedTags, f);
      var rest := SelectEntries(older, feedTags, f);
      forall e | e in rest ensures e.id < last.id {
        var k :| 0 <= k < |older| && older[k] == e;
      }
      PrependKeepsDecreasing(if SatisfiesAll(WhereClause(f), feedTags, last.feedId) then [last] else [], rest, last);
    }
  }

  /** The entry query returns exactly the stored entries whose feed the filter selects, newest
      (highest id) first. */
  lemma SelectEntriesSpec(entries: seq<EntryRow>, feedTags: map<FeedId, set<string>>, f: Filter)
    ensures var r := SelectEntries(entries, feedTags, f);
      && |r| <= |entries|
      && (forall e | e in r :: e in entries && Matches(f, feedTags, e.feedId))
      && (forall e | e in entries && Matches(f, feedTags, e.feedId) :: e in r)
      && (IdsIncreasing(entries) ==> IdsDecreasing(r))
  {
    SelectEntriesMembers(entries, feedTags, f);
    if IdsIncreasing(entries) {
      SelectEntriesNewestFirst(entries, feedTags, f);
    }
  }

  /** Without a filter the entry query returns every row. */
  lemma {:induction false} SelectEntriesUnfiltered(entries: seq<EntryRow>, feedTags: map<FeedId, set<string>>)
    ensures |SelectEntries(entries, feedTags, NoFilter)| == |entries|
  {
    if |entries| > 0 {
      SelectEntriesUnfiltered(entries[..|entries| - 1], feedTags);
      WhereClauseMeansMatches(NoFilter, feedTags, entries[|entries| - 1].feedId);
    }
  }

  function ToEntry(row: EntryRow): Entry
  {
    Entry(row.id, row.feedId, row.title, row.link, row.epochPublished, row.epochUpdated)
  }

  /** The rows of get_feeds: tags attached (an empty set for a feed without tag rows) when asked
      for, None otherwise. */
  function WithTags(rows: seq<PartialFeed>, feedTags: map<FeedId, set<string>>, getTags: bool)
    : seq<PartialFeed>
  {
    if getTags then seq(|rows|, i requires 0 <= i < |rows| => rows[i].(tags := Some(TagsOf(feedTags, rows[i].id))))
    else rows
  }

  // ---------------------------------------------------------------------------
  // Per-entry normalisation done by store_entries.

  /** calendar.timegm applied to `entry.get(…, None)`: None raises TypeError, which becomes None. */
  function EpochOrNone(t: Option<TimeStruct>, timegm: TimeStruct -> Epoch): (r: Option<Epoch>)
    ensures r.None? <==> t.None?
  {
    match t
    case None => None
    case Some(ts) => Some(timegm(ts))
  }

  /** The row store_entries inserts for one parsed item. */
  function Normalise(entry: ParsedEntry, feedId: FeedId, epochDownloaded: Epoch,
                     timegm: TimeStruct -> Epoch, id: EntryId): EntryRow
  {
    EntryRow(id, feedId, entry.title, entry.link,
             EpochOrNone(entry.publishedParsed, timegm),
             EpochOrNone(entry.updatedParsed, timegm),
             epochDownloaded)
  }

  /** The rows one successful store_entries call appends: the items in reverse order, with
      consecutive fresh ids starting at firstId and one shared download time. */
  function BatchRows(feedId: FeedId, parsed: seq<ParsedEntry>, epochDownloaded: Epoch,
                     timegm: TimeStruct -> Epoch, firstId: EntryId): (rows: seq<EntryRow>)
    ensures |rows| == |parsed|
    decreases |parsed|
  {
    if |parsed| == 0 then []
    else
      [Normalise(parsed[|parsed| - 1], feedId, epochDownloaded, timegm, firstId)]
        + BatchRows(feedId, parsed[..|parsed| - 1], epochDownloaded, timegm, firstId + 1)
  }

  /** Row k of a batch is the k-th item counted from the end, stored under id firstId + k. */
  lemma {:induction false} BatchRowAt(feedId: FeedId, parsed: seq<ParsedEntry>, epochDownloaded: Epoch,
                                      timegm: TimeStruct -> Epoch, firstId: EntryId, k: nat)
    requires k < |parsed|
    ensures BatchRows(feedId, parsed, epochDownloaded, timegm, firstId)[k]
         == Normalise(parsed[|parsed| - 1 - k], feedId, epochDownloaded, timegm, firstId + k)
    decreases |parsed|
  {
    var n := |parsed|;
    var first := Normalise(parsed[n - 1], feedId, epochDownloaded, timegm, firstId);
    var rest := BatchRows(feedId, parsed[..n - 1], epochDownloaded, timegm, firstId + 1);
    assert BatchRows(feedId, parsed, epochDownloaded, timegm, firstId) == [first] + rest;
    if k > 0 {
      BatchRowAt(feedId, parsed[..n - 1], epochDownloaded, timegm, firstId + 1, k - 1);
      assert parsed[..n - 1][n - 1 - 1 - (k - 1)] == parsed[n - 1 - k];
    }
  }

  /** Every row of a batch belongs to the batch's feed and carries its download time. */
  lemma {:induction false} BatchRowsOfFeed(feedId: FeedId, parsed: seq<ParsedEntry>, epochDownloaded: Epoch,
                                           timegm: TimeStruct -> Epoch, firstId: EntryId)
    ensures forall r | r in BatchRows(feedId, parsed, epochDownloaded, timegm, firstId) ::
      r.feedId == feedId && r.epochDownloaded == epochDownloaded
    decreases |parsed|
  {
    if |parsed| > 0 {
      BatchRowsOfFeed(feedId, parsed[..|parsed| - 1], epochDownloaded, timegm, firstId + 1);
    }
  }

  /** What a stored batch looks like: the k-th row comes from the k-th item counted from the end,
      every row carries the batch's download time and feed, ids run on from firstId, and a missing
      title, link or date is stored as None rather than failing. */
  lemma BatchRowsShape(feedId: FeedId, parsed: seq<ParsedEntry>, epochDownloaded: Epoch,
                       timegm: TimeStruct -> Epoch, firstId: EntryId)
    ensures var rows := BatchRows(feedId, parsed, epochDownloaded, timegm, firstId);
      forall k | 0 <= k < |rows| ::
        var item := parsed[|parsed| - 1 - k];
        && rows[k].id == firstId + k
        && rows[k].feedId == feedId
        && rows[k].epochDownloaded == epochDownloaded
        && rows[k].title == item.title
        && rows[k].link == item.link
        && (rows[k].epochPublished.None? <==> item.publishedParsed.None?)
        && (rows[k].epochUpdated.None? <==> item.updatedParsed.None?)
  {
    var rows := BatchRows(feedId, parsed, epochDownloaded, timegm, firstId);
    forall k | 0 <= k < |rows|
      ensures rows[k] == Normalise(parsed[|parsed| - 1 - k], feedId, epochDownloaded, timegm, firstId + k)
    {
      BatchRowAt(feedId, parsed, epochDownloaded, timegm, firstId, k);
    }
  }

  /** The entries that survive deleting a feed. */
  function WithoutFeed(entries: seq<EntryRow>, id: FeedId): seq<EntryRow>
  {
    if |entries| == 0 then []
    else
      var kept := WithoutFeed(entries[..|entries| - 1], id);
      if entries[|entries| - 1].feedId == id then kept else kept + [entries[|entries| - 1]]
  }

  /** The cascade removes exactly the deleted feed's entries and keeps the others in order. */
  lemma WithoutFeedSpec(entries: seq<EntryRow>, id: FeedId)
    ensures var r := WithoutFeed(entries, id);
      && |r| <= |entries|
      && (forall e :: e in r <==> e in entries && e.feedId != id)
      && (IdsIncreasing(entries) ==> IdsIncreasing(r))
  {
    WithoutFeedMembers(entries, id);
    if IdsIncreasing(entries) {
      WithoutFeedIncreasing(entries, id);
    }
  }

  /** Deleting a feed removes exactly as many entries as the query for that feed's entries
      counts: the entry count drops by that number and no more. */
  lemma {:induction false} DeleteCount(entries: seq<EntryRow>, feedTags: map<FeedId, set<string>>, id: FeedId)
    ensures |WithoutFeed(entries, id)| + |SelectEntries(entries, feedTags, Filter([id], []))| == |entries|
  {
    if |entries| > 0 {
      DeleteCount(entries[..|entries| - 1], feedTags, id);
      WhereClauseMeansMatches(Filter([id], []), feedTags, entries[|entries| - 1].feedId);
    }
  }

  /** The cascade keeps exactly the entries of other feeds. */
  lemma {:induction false} WithoutFeedMembers(entries: seq<EntryRow>, id: FeedId)
    ensures var r := WithoutFeed(entries, id);
      && |r| <= |entries|
      && (forall e :: e in r <==> e in entries && e.feedId != id)
  {
    if |entries| > 0 {
      var older := entries[..|entries| - 1];
      assert entries == older + [entries[|entries| - 1]];
      WithoutFeedMembers(older, id);
    }
  }

  /** The cascade keeps the surviving entries in ascending id order. */
  lemma {:induction false} WithoutFeedIncreasing(entries: seq<EntryRow>, id: FeedId)
    requires IdsIncreasing(entries)
    ensures IdsIncreasing(WithoutFeed(entries, id))
  {
    if |entries| > 0 {
      var older := entries[..|entries| - 1];
      var last := entries[|entries| - 1];
      WithoutFeedIncreasing(older, id);
      WithoutFeedMembers(older, id);
      var kept := WithoutFeed(older, id);
      if last.feedId != id {
        forall e | e in kept ensures e.id < last.id {
          var k :| 0 <= k < |older| && older[k] == e;
          assert older[k] == entries[k];
        }
        AppendKeepsIncreasing(kept, last);
      }
    }
  }

  lemma AppendKeepsIncreasing(rows: seq<EntryRow>, last: EntryRow)
    requires IdsIncreasing(rows) && forall e | e in rows :: e.id < last.id
    ensures IdsIncreasing(rows + [last])
  {
    var r := rows + [last];
    forall i, j | 0 <= i < j < |r| ensures r[i].id < r[j].id {
      assert r[i] == rows[i];
      if j == |rows| {
        assert rows[i] in rows;
      } else {
        assert r[j] == rows[j];
      }
    }
  }

  /** After the cascade, asking for the deleted feed's entries yields nothing. */
  lemma DeletedFeedHasNoEntries(entries: seq<EntryRow>, feedTags: map<FeedId, set<string>>, id: FeedId)
    ensures SelectEntries(WithoutFeed(entries, id), feedTags, Filter([id], [])) == []
  {
    var kept := WithoutFeed(entries, id);
    WithoutFeedMembers(entries, id);
    SelectEntriesMembers(kept, feedTags, Filter([id], []));
    var r := SelectEntries(kept, feedTags, Filter([id], []));
    assert forall e | e in r :: e in kept && e.feedId == id;
  }

  // ---------------------------------------------------------------------------
  // Collision rules of the two UNIQUE columns.

  predicate SourceTaken(feeds: map<FeedId, FeedRow>, source: string)
  {
    exists id | id in feeds :: feeds[id].source == source
  }

  predicate TitleTaken(feeds: map<FeedId, FeedRow>, title: string)
  {
    exists id | id in feeds :: feeds[id].title == title
  }

  predicate SourceTakenByOther(feeds: map<FeedId, FeedRow>, id: FeedId, source: string)
  {
    exists other | other in feeds :: other != id && feeds[other].source == source
  }

  predicate TitleTakenByOther(feeds: map<FeedId, FeedRow>, id: FeedId, title: string)
  {
    exists other | other in feeds :: other != id && feeds[other].title == title
  }

  /** store_feed can insert: neither column collides and the tag list has no repeated tag. */
  predicate CanStoreFeed(feeds: map<FeedId, FeedRow>, source: string, title: string, tags: seq<string>)
  {
    !SourceTaken(feeds, source) && !TitleTaken(feeds, title) && NoDuplicates(tags)
  }

  /** The error a failing store_feed raises: a taken source is reported even when the title is
      taken too; the title is reported only when the source is free. */
  function StoreFeedError(feeds: map<FeedId, FeedRow>, source: string, title: string, tags: seq<string>)
    : (e: Error)
    requires !CanStoreFeed(feeds, source, title, tags)
    ensures SourceTaken(feeds, source) ==> e == FeedSourceAlreadyExists
    ensures !SourceTaken(feeds, source) && TitleTaken(feeds, title) ==> e == FeedTitleAlreadyInUse(Some(title))
    ensures !SourceTaken(feeds, source) && !TitleTaken(feeds, title) ==> e == IntegrityError
  {
    if SourceTaken(feeds, source) then FeedSourceAlreadyExists
    else if TitleTaken(feeds, title) then FeedTitleAlreadyInUse(Some(title))
    else IntegrityError
  }

  /** Two stored feeds share neither their source nor their title. */
  ghost predicate ColumnsDiffer(feeds: map<FeedId, FeedRow>, a: FeedId, b: FeedId)
    requires a in feeds && b in feeds
  {
    a != b ==> feeds[a].source != feeds[b].source && feeds[a].title != feeds[b].title
  }

  ghost predicate UniqueColumns(feeds: map<FeedId, FeedRow>)
  {
    forall a, b | a in feeds && b in feeds :: ColumnsDiffer(feeds, a, b)
  }

  ghost predicate IdsBelow(ids: set<FeedId>, bound: nat)
  {
    forall id | id in ids :: id < bound
  }

  /** Row i is below the next rowid, belongs to a live feed, and precedes row j in id order. */
  ghost predicate RowInOrder(entries: seq<EntryRow>, live: set<FeedId>, bound: EntryId, i: nat, j: nat)
    requires i < |entries| && j < |entries|
  {
    && entries[i].id < bound && entries[i].feedId in live
    && (i < j ==> entries[i].id < entries[j].id)
  }

  /** Entry ids ascend and stay below the next rowid, and every entry belongs to a live feed. */
  ghost predicate EntriesValid(entries: seq<EntryRow>, live: set<FeedId>, bound: EntryId)
  {
    forall i: nat, j: nat | i < |entries| && j < |entries| :: RowInOrder(entries, live, bound, i, j)
  }

  lemma EntriesValidMeans(entries: seq<EntryRow>, live: set<FeedId>, bound: EntryId)
    requires EntriesValid(entries, live, bound)
    ensures IdsIncreasing(entries)
    ensures forall i | 0 <= i < |entries| :: entries[i].id < bound && entries[i].feedId in live
  {
    forall i, j | 0 <= i < j < |entries| ensures entries[i].id < entries[j].id {
      assert RowInOrder(entries, live, bound, i, j);
    }
    forall i | 0 <= i < |entries| ensures entries[i].id < bound && entries[i].feedId in live {
      assert RowInOrder(entries, live, bound, i, i);
    }
  }

  lemma EntriesValidFrom(entries: seq<EntryRow>, live: set<FeedId>, bound: EntryId)
    requires IdsIncreasing(entries)
    requires forall i | 0 <= i < |entries| :: entries[i].id < bound && entries[i].feedId in live
    ensures EntriesValid(entries, live, bound)
  {
    forall i: nat, j: nat | i < |entries| && j < |entries| ensures RowInOrder(entries, live, bound, i, j) {
    }
  }

  lemma ReplaceRowPreservesUnique(feeds: map<FeedId, FeedRow>, id: FeedId, row: FeedRow)
    requires UniqueColumns(feeds) && id in feeds
    requires !SourceTakenByOther(feeds, id, row.source) && !TitleTakenByOther(feeds, id, row.title)
    ensures UniqueColumns(feeds[id := row])
  {
    var updated := feeds[id := row];
    forall a, b | a in updated && b in updated ensures ColumnsDiffer(updated, a, b) {
      if a != id && b != id {
        assert ColumnsDiffer(feeds, a, b);
      }
    }
  }

  lemma AddRowPreservesUnique(feeds: map<FeedId, FeedRow>, id: FeedId, row: FeedRow)
    requires UniqueColumns(feeds) && id !in feeds
    requires !SourceTaken(feeds, row.source) && !TitleTaken(feeds, row.title)
    ensures UniqueColumns(feeds[id := row])
  {
    var updated := feeds[id := row];
    forall a, b | a in updated && b in updated ensures ColumnsDiffer(updated, a, b) {
      if a != id && b != id {
        assert ColumnsDiffer(feeds, a, b);
      }
    }
  }

  lemma RemoveRowPreservesUnique(feeds: map<FeedId, FeedRow>, id: FeedId)
    requires UniqueColumns(feeds)
    ensures UniqueColumns(feeds - {id})
  {
    var rest := feeds - {id};
    forall a, b | a in rest && b in rest ensures ColumnsDiffer(rest, a, b) {
      assert ColumnsDiffer(feeds, a, b);
    }
  }

  lemma AddIdKeepsBelow(ids: set<FeedId>, bound: nat)
    requires IdsBelow(ids, bound)
    ensures bound !in ids && IdsBelow(ids + {bound}, bound + 1)
  {
  }

  lemma MoreLiveFeedsKeepEntriesValid(entries: seq<EntryRow>, live: set<FeedId>, more: set<FeedId>, bound: EntryId)
    requires EntriesValid(entries, live, bound) && live <= more
    ensures EntriesValid(entries, more, bound)
  {
    EntriesValidMeans(entries, live, bound);
    EntriesValidFrom(entries, more, bound);
  }

  lemma AppendKeepsEntriesValid(entries: seq<EntryRow>, live: set<FeedId>, bound: EntryId, row: EntryRow)
    requires EntriesValid(entries, live, bound) && row.id == bound && row.feedId in live
    ensures EntriesValid(entries + [row], live, bound + 1)
  {
    EntriesValidMeans(entries, live, bound);
    var s := entries + [row];
    forall i, j | 0 <= i < j < |s| ensures s[i].id < s[j].id {
      if j < |entries| {
        assert s[i] == entries[i] && s[j] == entries[j];
      } else {
        assert s[i] == entries[i];
      }
    }
    EntriesValidFrom(s, live, bound + 1);
  }

  lemma RemoveFeedKeys(feeds: map<FeedId, FeedRow>, feedTags: map<FeedId, set<string>>, id: FeedId, bound: nat)
    requires feedTags.Keys == feeds.Keys && IdsBelow(feeds.Keys, bound)
    ensures (feeds - {id}).Keys == feeds.Keys - {id} && (feedTags - {id}).Keys == (feeds - {id}).Keys
    ensures IdsBelow((feeds - {id}).Keys, bound)
    ensures |feeds - {id}| == if id in feeds then |feeds| - 1 else |feeds|
  {
    assert (feeds - {id}).Keys == feeds.Keys - {id};
    if id in feeds {
      assert |feeds.Keys - {id}| == |feeds.Keys| - 1;
    } else {
      assert feeds.Keys - {id} == feeds.Keys;
    }
  }

  lemma WithoutFeedKeepsEntriesValid(entries: seq<EntryRow>, live: set<FeedId>, bound: EntryId, id: FeedId)
    requires EntriesValid(entries, live, bound)
    ensures EntriesValid(WithoutFeed(entries, id), live - {id}, bound)
    ensures |WithoutFeed(entries, id)| <= |entries|
  {
    EntriesValidMeans(entries, live, bound);
    var kept := WithoutFeed(entries, id);
    WithoutFeedSpec(entries, id);
    forall i | 0 <= i < |kept| ensures kept[i].id < bound && kept[i].feedId in live - {id} {
      assert kept[i] in entries;
    }
    EntriesValidFrom(kept, live - {id}, bound);
  }

  /** A page of the entry query keeps the query's order and its rows all belong to live feeds the
      filter selects. */
  lemma EntryPageSpec(entries: seq<EntryRow>, live: set<FeedId>, bound: EntryId,
                      feedTags: map<FeedId, set<string>>, f: Filter, limit: int, offset: int)
    requires EntriesValid(entries, live, bound)
    ensures var rows := Page(SelectEntries(entries, feedTags, f), limit, offset);
      && IdsDecreasing(rows)
      && forall k | 0 <= k < |rows| :: rows[k].feedId in live && Matches(f, feedTags, rows[k].feedId)
  {
    EntriesValidMeans(entries, live, bound);
    var all := SelectEntries(entries, feedTags, f);
    SelectEntriesSpec(entries, feedTags, f);
    var rows := Page(all, limit, offset);
    var start := PageStart(|all|, offset);
    assert forall k | 0 <= k < |rows| :: rows[k] == all[start + k];
    forall k | 0 <= k < |rows| ensures rows[k].feedId in live && Matches(f, feedTags, rows[k].feedId) {
      assert all[start + k] in all;
      var i :| 0 <= i < |entries| && entries[i] == rows[k];
    }
  }

  /** A page of the feed query keeps the query's ascending order and its rows are stored feeds the
      filter selects. */
  lemma FeedPageSpec(feeds: map<FeedId, FeedRow>, feedTags: map<FeedId, set<string>>, f: Filter, n: nat,
                     limit: int, offset: int)
    ensures var rows := Page(SelectFeeds(feeds, feedTags, f, n), limit, offset);
      && AscendingIds(rows)
      && SelectedRows(rows, feeds, feedTags, f, n)
  {
    var all := SelectFeeds(feeds, feedTags, f, n);
    SelectFeedsSpec(feeds, feedTags, f, n);
    var rows := Page(all, limit, offset);
    var start := PageStart(|all|, offset);
    SliceKeepsRows(all, start, start + |rows|, feeds, feedTags, f, n);
  }

  /** A contiguous slice of an ascending, correctly selected result is ascending and selected. */
  lemma SliceKeepsRows(all: seq<PartialFeed>, s: nat, e: nat, feeds: map<FeedId, FeedRow>,
                       feedTags: map<FeedId, set<string>>, f: Filter, n: nat)
    requires s <= e <= |all|
    requires AscendingIds(all) && SelectedRows(all, feeds, feedTags, f, n)
    ensures AscendingIds(all[s..e]) && SelectedRows(all[s..e], feeds, feedTags, f, n)
  {
    var rows := all[s..e];
    forall i, j | 0 <= i < j < |rows| ensures rows[i].id < rows[j].id {
      assert rows[i] == all[s + i] && rows[j] == all[s + j];
    }
    forall i | 0 <= i < |rows|
      ensures && rows[i].id < n && rows[i].id in feeds && Matches(f, feedTags, rows[i].id)
              && rows[i] == PartialFeed(rows[i].id, feeds[rows[i].id].source, feeds[rows[i].id].title, None)
    {
      assert rows[i] == all[s + i];
    }
  }

  // ---------------------------------------------------------------------------

  class Store {
    var feeds: map<FeedId, FeedRow>
    var feedTags: map<FeedId, set<string>>
    var entries: seq<EntryRow>
    /** The next rowid each table hands out. */
    var nextFeedId: FeedId
    var nextEntryId: EntryId

    /** The schema's guarantees: unique source and title, a tag set for every feed and only for
        feeds, no entry without its feed, entry ids ascending and below the next rowid. */
    ghost predicate Valid()
      reads this
    {
      && UniqueColumns(feeds)
      && feedTags.Keys == feeds.Keys
      && IdsBelow(feeds.Keys, nextFeedId)
      && EntriesValid(entries, feeds.Keys, nextEntryId)
    }

    /** A freshly created database. */
    constructor ()
      ensures Valid()
      ensures feeds == map[] && feedTags == map[] && entries == []
    {
      feeds, feedTags, entries := map[], map[], [];
      nextFeedId, nextEntryId := 1, 1;
    }

    method StoreFeed(source: string, title: string, tags: seq<string>) returns (r: Result<FeedId>)
      requires Valid()
      modifies this
      ensures Valid()
      ensures !CanStoreFeed(old(feeds), source, title, tags) ==>
                r == Err(StoreFeedError(old(feeds), source, title, tags)) && unchanged(this)
      ensures CanStoreFeed(old(feeds), source, title, tags) ==>
                && r.Ok?
                && r.value !in old(feeds)
                && feeds == old(feeds)[r.value := FeedRow(source, title)]
                && feedTags == old(feedTags)[r.value := TagCodec.Elements(tags)]
                && entries == old(entries) && nextEntryId == old(nextEntryId)
    {
      var sourceTaken := exists id | id in feeds :: feeds[id].source == source;
      var titleTaken := exists id | id in feeds :: feeds[id].title == title;
      if sourceTaken || titleTaken {
        // The INSERT hit a UNIQUE column; the follow-up COUNT query tells which, source first.
        if sourceTaken {
          return Err(FeedSourceAlreadyExists);
        }
        return Err(FeedTitleAlreadyInUse(Some(title)));
      }
      if !NoDuplicates(tags) {
        // A repeated (feed_id, tag) row fails; the whole transaction, feed row included, rolls back.
        return Err(IntegrityError);
      }
      var id := nextFeedId;
      AddRowPreservesUnique(feeds, id, FeedRow(source, title));
      AddIdKeepsBelow(feeds.Keys, id);
      MoreLiveFeedsKeepEntriesValid(entries, feeds.Keys, feeds.Keys + {id}, nextEntryId);
      assert feeds[id := FeedRow(source, title)].Keys == feeds.Keys + {id};
      feeds := feeds[id := FeedRow(source, title)];
      feedTags := feedTags[id := TagCodec.Elements(tags)];
      nextFeedId := nextFeedId + 1;
      return Ok(id);
    }

    method GetFeeds(limit: int, offset: int, f: Filter, getTags: bool) returns (r: seq<PartialFeed>)
      requires Valid()
      ensures r == WithTags(Page(SelectFeeds(feeds, feedTags, f, nextFeedId), limit, offset), feedTags, getTags)
      ensures limit >= 0 ==> |r| <= limit
      ensures AscendingIds(r)
      ensures forall i | 0 <= i < |r| ::
                && r[i].id in feeds && Matches(f, feedTags, r[i].id)
                && r[i].source == feeds[r[i].id].source && r[i].title == feeds[r[i].id].title
                && r[i].tags == (if getTags then Some(feedTags[r[i].id]) else None)
    {
      var rows := Page(SelectFeeds(feeds, feedTags, f, nextFeedId), limit, offset);
      FeedPageSpec(feeds, feedTags, f, nextFeedId, limit, offset);
      r := [];
      for i := 0 to |rows|
        invariant |r| == i
        invariant forall k | 0 <= k < i :: r[k] == WithTags(rows, feedTags, getTags)[k]
      {
        var feed := PartialFeed(rows[i].id, rows[i].source, rows[i].title, None);
        if getTags {
          // A feed without tag rows gets an empty list, not None.
          feed := feed.(tags := Some(TagsOf(feedTags, rows[i].id)));
        }
        r := r + [feed];
      }
    }

    method GetFeedCount(f: Filter) returns (n: nat)
      requires Valid()
      ensures n == |SelectFeeds(feeds, feedTags, f, nextFeedId)|
      ensures n == |set id | id in feeds && Matches(f, feedTags, id)|
      ensures IsUnfiltered(f) ==> n == |feeds|
    {
      SelectFeedsCount(feeds, feedTags, f, nextFeedId);
      assert MatchingFeeds(feeds, feedTags, f, nextFeedId) == set id | id in feeds && Matches(f, feedTags, id);
      if IsUnfiltered(f) {
        assert (set id | id in feeds && Matches(f, feedTags, id)) == feeds.Keys;
        n := |feeds|;   // read from the trigger-maintained feed_count table
      } else {
        n := |SelectFeeds(feeds, feedTags, f, nextFeedId)|;
      }
    }

    method GetFeedSource(id: FeedId) returns (source: string)
      requires Valid() && id in feeds
      ensures source == feeds[id].source
      ensures forall other | other in feeds && other != id :: feeds[other].source != source
    {
      source := feeds[id].source;
      forall other | other in feeds && other != id ensures feeds[other].source != source {
        assert ColumnsDiffer(feeds, id, other);
      }
    }

    method GetFeedTitle(id: FeedId) returns (title: string)
      requires Valid() && id in feeds
      ensures title == feeds[id].title
      ensures forall other | other in feeds && other != id :: feeds[other].title != title
    {
      title := feeds[id].title;
      forall other | other in feeds && other != id ensures feeds[other].title != title {
        assert ColumnsDiffer(feeds, id, other);
      }
    }

    method GetFeedTags(id: FeedId) returns (tags: set<string>)
      requires Valid()
      ensures id in feeds ==> tags == feedTags[id]
      ensures id !in feeds ==> tags == {}
    {
      tags := TagsOf(feedTags, id);
    }

    method SetFeedSource(id: FeedId, source: string) returns (r: Result<()>)
      requires Valid()
      modifies this
      ensures Valid()
      ensures id in old(feeds) && SourceTakenByOther(old(feeds), id, source) ==>
                r == Err(FeedSourceAlreadyExists) && unchanged(this)
      ensures !(id in old(feeds) && SourceTakenByOther(old(feeds), id, source)) ==>
                && r == Ok(())
                && feeds == (if id in old(feeds) then old(feeds)[id := old(feeds)[id].(source := source)] else old(feeds))
                && feedTags == old(feedTags) && entries == old(entries)
                && nextFeedId == old(nextFeedId) && nextEntryId == old(nextEntryId)
    {
      if id !in feeds {
        return Ok(());   // the UPDATE matches no row
      }
      if exists other | other in feeds :: other != id && feeds[other].source == source {
        return Err(FeedSourceAlreadyExists);
      }
      ReplaceRowPreservesUnique(feeds, id, feeds[id].(source := source));
      feeds := feeds[id := feeds[id].(source := source)];
      return Ok(());
    }

    method SetFeedTitle(id: FeedId, title: string) returns (r: Result<()>)
      requires Valid()
      modifies this
      ensures Valid()
      ensures id in old(feeds) && TitleTakenByOther(old(feeds), id, title) ==>
                r == Err(FeedTitleAlreadyInUse(None)) && unchanged(this)
      ensures !(id in old(feeds) && TitleTakenByOther(old(feeds), id, title)) ==>
                && r == Ok(())
                && feeds == (if id in old(feeds) then old(feeds)[id := old(feeds)[id].(title := title)] else old(feeds))
                && feedTags == old(feedTags) && entries == old(entries)
                && nextFeedId == old(nextFeedId) && nextEntryId == old(nextEntryId)
    {
      if id !in feeds {
        return Ok(());
      }
      if exists other | other in feeds :: other != id && feeds[other].title == title {
        return Err(FeedTitleAlreadyInUse(None));
      }
      ReplaceRowPreservesUnique(feeds, id, feeds[id].(title := title));
      feeds := feeds[id := feeds[id].(title := title)];
      return Ok(());
    }

    /** Delete every tag row of the feed, then insert the new ones, in one transaction. */
    method SetFeedTags(id: FeedId, tags: seq<string>) returns (r: Result<()>)
      requires Valid()
      modifies this
      ensures Valid()
      ensures |tags| > 0 && (id !in old(feeds) || !NoDuplicates(tags)) ==>
                r == Err(IntegrityError) && unchanged(this)
      ensures !(|tags| > 0 && (id !in old(feeds) || !NoDuplicates(tags))) ==>
                && r == Ok(())
                && feedTags == (if id in old(feeds) then old(feedTags)[id := TagCodec.Elements(tags)] else old(feedTags))
                && feeds == old(feeds) && entries == old(entries)
                && nextFeedId == old(nextFeedId) && nextEntryId == old(nextEntryId)
    {
      if id !in feeds {
        if |tags| > 0 {
          return Err(IntegrityError);   // the first INSERT breaks the foreign key
        }
        return Ok(());
      }
      if !NoDuplicates(tags) {
        return Err(IntegrityError);
      }
      feedTags := feedTags[id := TagCodec.Elements(tags)];
      return Ok(());
    }

    /** Delete the feed; the foreign keys cascade to its tags and entries. A missing id is a no-op. */
    method DeleteFeed(id: FeedId)
      requires Valid()
      modifies this
      ensures Valid()
      ensures feeds == old(feeds) - {id}
      ensures feedTags == old(feedTags) - {id}
      ensures entries == WithoutFeed(old(entries), id)
      ensures |feeds| == |old(feeds)| - (if id in old(feeds) then 1 else 0)
      ensures |entries| == |old(entries)| - |SelectEntries(old(entries), old(feedTags), Filter([id], []))|
      ensures nextFeedId == old(nextFeedId) && nextEntryId == old(nextEntryId)
    {
      var kept := WithoutFeed(entries, id);
      DeleteCount(entries, feedTags, id);
      WithoutFeedKeepsEntriesValid(entries, feeds.Keys, nextEntryId, id);
      RemoveFeedKeys(feeds, feedTags, id, nextFeedId);
      RemoveRowPreservesUnique(feeds, id);
      feeds := feeds - {id};
      feedTags := feedTags - {id};
      entries := kept;
    }

    /** One `INSERT INTO entries`: the row gets the next rowid; a feed id with no feed row breaks
        the foreign key and the transaction rolls back. */
    method InsertEntry(feedId: FeedId, title: Option<string>, link: Option<string>,
                       epochPublished: Option<Epoch>, epochUpdated: Option<Epoch>, epochDownloaded: Epoch)
      returns (r: Result<()>)
      requires Valid()
      modifies this
      ensures Valid()
      ensures feeds == old(feeds) && feedTags == old(feedTags) && nextFeedId == old(nextFeedId)
      ensures feedId in old(feeds) ==>
                && r == Ok(())
                && entries == old(entries) + [EntryRow(old(nextEntryId), feedId, title, link,
                                                       epochPublished, epochUpdated, epochDownloaded)]
                && nextEntryId == old(nextEntryId) + 1
      ensures feedId !in old(feeds) ==> r == Err(StorageConstraintViolation) && unchanged(this)
    {
      if feedId !in feeds {
        return Err(StorageConstraintViolation);
      }
      var row := EntryRow(nextEntryId, feedId, title, link, epochPublished, epochUpdated, epochDownloaded);
      AppendKeepsEntriesValid(entries, feeds.Keys, nextEntryId, row);
      entries := entries + [row];
      nextEntryId := nextEntryId + 1;
      return Ok(());
    }

    /** Insert the parsed items newest-last, one transaction per item. */
    method StoreEntries(feedId: FeedId, parsed: seq<ParsedEntry>, epochDownloaded: Epoch,
                        timegm: TimeStruct -> Epoch) returns (r: Result<()>)
      requires Valid()
      modifies this
      ensures Valid()
      ensures feeds == old(feeds) && feedTags == old(feedTags) && nextFeedId == old(nextFeedId)
      ensures feedId in old(feeds) ==>
                && r == Ok(())
                && entries == old(entries) + BatchRows(feedId, parsed, epochDownloaded, timegm, old(nextEntryId))
                && nextEntryId == old(nextEntryId) + |parsed|
      ensures feedId !in old(feeds) ==>
                && r == (if |parsed| == 0 then Ok(()) else Err(StorageConstraintViolation))
                && unchanged(this)
    {
      ghost var rows := BatchRows(feedId, parsed, epochDownloaded, timegm, nextEntryId);
      for i := 0 to |parsed|
        invariant Valid()
        invariant feeds == old(feeds) && feedTags == old(feedTags) && nextFeedId == old(nextFeedId)
        invariant entries == old(entries) + rows[..i]
        invariant nextEntryId == old(nextEntryId) + i
        invariant feedId !in feeds ==> i == 0 && unchanged(this)
      {
        var item := parsed[|parsed| - 1 - i];
        var published := EpochOrNone(item.publishedParsed, timegm);
        var updated := EpochOrNone(item.updatedParsed, timegm);
        r := InsertEntry(feedId, item.title, item.link, published, updated, epochDownloaded);
        if r.Err? {
          return;   // raised as StorageConstraintViolationError
        }
        BatchRowAt(feedId, parsed, epochDownloaded, timegm, old(nextEntryId), i);
        assert rows[..i + 1] == rows[..i] + [rows[i]];
      }
      assert rows[..|parsed|] == rows;
      return Ok(());
    }

    method GetEntries(limit: int, offset: int, f: Filter) returns (r: seq<Entry>)
      requires Valid()
      ensures var rows := Page(SelectEntries(entries, feedTags, f), limit, offset);
              |r| == |rows| && forall k | 0 <= k < |r| :: r[k] == ToEntry(rows[k])
      ensures limit >= 0 ==> |r| <= limit
      ensures forall i, j | 0 <= i < j < |r| :: r[i].id > r[j].id
      ensures forall k | 0 <= k < |r| :: r[k].feedId in feeds && Matches(f, feedTags, r[k].feedId)
    {
      var rows := Page(SelectEntries(entries, feedTags, f), limit, offset);
      EntryPageSpec(entries, feeds.Keys, nextEntryId, feedTags, f, limit, offset);
      r := [];
      for i := 0 to |rows|
        invariant |r| == i
        invariant forall k | 0 <= k < i :: r[k] == ToEntry(rows[k])
      {
        r := r + [ToEntry(rows[i])];
      }
    }

    method GetEntryCount(f: Filter) returns (n: nat)
      requires Valid()
      ensures n == |SelectEntries(entries, feedTags, f)|
      ensures IsUnfiltered(f) ==> n == |entries|
    {
      if IsUnfiltered(f) {
        assert f == NoFilter;
        SelectEntriesUnfiltered(entries, feedTags);
        n := |entries|;   // read from the trigger-maintained entry_count table
      } else {
        n := |SelectEntries(entries, feedTags, f)|;
      }
    }
  }
}
