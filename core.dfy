/** The TagRss facade of tagrss.py: fetching a feed and handing it to the store.

    The HTTP request, the clock and the feed parser are outside the model. A `net` function
    gives the download for a source: its status code, the time it was read, and the parsed
    document. */
module Core {
  import opened Storage
  import TagCodec

  /** What the feed parser yields for a document: the feed title, when it has one, and the items. */
  datatype ParsedFeed = ParsedFeed(title: Option<string>, entries: seq<ParsedEntry>)

  /** One download: the HTTP status, the epoch taken right after the response, and the parsed body. */
  datatype Download = Download(statusCode: int, epoch: Epoch, body: ParsedFeed)

  const HttpOk := 200

  /** The download the network gives for source. */
  function Get(net: string -> Download, source: string): Download
  {
    net(source)
  }

  /** __fetch_and_parse_feed: any status other than 200 is a FeedFetchError naming the source and
      the status; otherwise the parsed document and the download time. */
  function FetchAndParse(source: string, d: Download): (r: Result<(ParsedFeed, Epoch)>)
    ensures r.Ok? <==> d.statusCode == HttpOk
    ensures r.Ok? ==> r.value == (d.body, d.epoch)
    ensures r.Err? ==> r.error == FeedFetchError(source, d.statusCode)
  {
    if d.statusCode != HttpOk then Err(FeedFetchError(source, d.statusCode))
    else Ok((d.body, d.epoch))
  }

  /** The title add_feed stores: the document's title, or "" when it has none. */
  function FeedTitle(p: ParsedFeed): (t: string)
    ensures p.title.Some? ==> t == p.title.value
    ensures p.title.None? ==> t == ""
  {
    p.title.GetOr("")
  }

  /** What update_feed reports for a feed whose source gives download d. */
  function UpdateOutcome(source: string, d: Download): (r: Result<()>)
    ensures r.Ok? <==> d.statusCode == HttpOk
    ensures r.Err? ==> r.error == FeedFetchError(source, d.statusCode)
  {
    match FetchAndParse(source, d)
    case Err(e) => Err(e)
    case Ok(_) => Ok(())
  }

  /** The rows update_feed appends for a feed whose source gives download d: the whole parsed batch
      on a 200, nothing otherwise. */
  function UpdateRows(feedId: FeedId, source: string, d: Download, timegm: TimeStruct -> Epoch,
                      firstId: EntryId): seq<EntryRow>
  {
    match FetchAndParse(source, d)
    case Err(_) => []
    case Ok((p, epoch)) => BatchRows(feedId, p.entries, epoch, timegm, firstId)
  }

  /** A successful download appends the parsed batch; a failed one appends nothing. */
  lemma UpdateRowsSpec(feedId: FeedId, source: string, d: Download, timegm: TimeStruct -> Epoch, firstId: EntryId)
    ensures d.statusCode == HttpOk ==>
      UpdateRows(feedId, source, d, timegm, firstId) == BatchRows(feedId, d.body.entries, d.epoch, timegm, firstId)
    ensures d.statusCode != HttpOk ==> UpdateRows(feedId, source, d, timegm, firstId) == []
  {
  }

  class TagRss {
    const storage: Store

    ghost predicate Valid()
      reads this, storage
    {
      storage.Valid()
    }

    constructor ()
      ensures Valid() && fresh(storage)
      ensures storage.feeds == map[] && storage.feedTags == map[] && storage.entries == []
    {
      storage := new Store();
    }

    /** add_feed: fetch first, so a failed download stores nothing; then store the feed row with
        its tags and, once that succeeded, its entries. */
    method AddFeed(source: string, tags: seq<string>, net: string -> Download, timegm: TimeStruct -> Epoch)
      returns (r: Result<FeedId>)
      requires Valid()
      modifies storage
      ensures Valid()
      ensures var d := Get(net, source);
        && (d.statusCode != HttpOk ==>
              r == Err(FeedFetchError(source, d.statusCode)) && unchanged(storage))
        && (d.statusCode == HttpOk && !CanStoreFeed(old(storage.feeds), source, FeedTitle(d.body), tags) ==>
              r == Err(StoreFeedError(old(storage.feeds), source, FeedTitle(d.body), tags)) && unchanged(storage))
        && (d.statusCode == HttpOk && CanStoreFeed(old(storage.feeds), source, FeedTitle(d.body), tags) ==>
              && r.Ok? && r.value !in old(storage.feeds)
              && storage.feeds == old(storage.feeds)[r.value := FeedRow(source, FeedTitle(d.body))]
              && storage.feedTags == old(storage.feedTags)[r.value := TagCodec.Elements(tags)]
              && storage.entries == old(storage.entries)
                   + BatchRows(r.value, d.body.entries, d.epoch, timegm, old(storage.nextEntryId)))
    {
      var fetched := FetchAndParse(source, Get(net, source));
      if fetched.Err? {
        return Err(fetched.error);
      }
      var (parsed, epochDownloaded) := fetched.value;
      var stored := storage.StoreFeed(source, FeedTitle(parsed), tags);
      if stored.Err? {
        return Err(stored.error);
      }
      var _ := storage.StoreEntries(stored.value, parsed.entries, epochDownloaded, timegm);
      return Ok(stored.value);
    }

    /** update_feed: look up the source, fetch it, and store the new batch. */
    method UpdateFeed(id: FeedId, net: string -> Download, timegm: TimeStruct -> Epoch) returns (r: Result<()>)
      requires Valid() && id in storage.feeds
      modifies storage
      ensures Valid()
      ensures storage.feeds == old(storage.feeds) && storage.feedTags == old(storage.feedTags)
      ensures storage.nextFeedId == old(storage.nextFeedId)
      ensures r == UpdateOutcome(old(storage.feeds)[id].source, Get(net, old(storage.feeds)[id].source))
      ensures storage.entries == old(storage.entries)
                + UpdateRows(id, old(storage.feeds)[id].source, Get(net, old(storage.feeds)[id].source),
                             timegm, old(storage.nextEntryId))
      ensures storage.nextEntryId == old(storage.nextEntryId)
                + |UpdateRows(id, old(storage.feeds)[id].source, Get(net, old(storage.feeds)[id].source),
                              timegm, old(storage.nextEntryId))|
    {
      var source := storage.GetFeedSource(id);
      UpdateRowsSpec(id, source, Get(net, source), timegm, storage.nextEntryId);
      var fetched := FetchAndParse(source, Get(net, source));
      if fetched.Err? {
        return Err(fetched.error);
      }
      var (parsed, epochDownloaded) := fetched.value;
      r := StoreFeedEntries(parsed, id, epochDownloaded, timegm);
    }

    /** store_feed_entries: hand a parsed document to the store. */
    method StoreFeedEntries(parsed: ParsedFeed, id: FeedId, epochDownloaded: Epoch, timegm: TimeStruct -> Epoch)
      returns (r: Result<()>)
      requires Valid()
      modifies storage
      ensures Valid()
      ensures storage.feeds == old(storage.feeds) && storage.feedTags == old(storage.feedTags)
      ensures storage.nextFeedId == old(storage.nextFeedId)
      ensures id in old(storage.feeds) ==>
                && r == Ok(())
                && storage.entries == old(storage.entries)
                     + BatchRows(id, parsed.entries, epochDownloaded, timegm, old(storage.nextEntryId))
                && storage.nextEntryId == old(storage.nextEntryId) + |parsed.entries|
      ensures id !in old(storage.feeds) ==>
                && r == (if |parsed.entries| == 0 then Ok(()) else Err(StorageConstraintViolation))
                && unchanged(storage)
    {
      r := storage.StoreEntries(id, parsed.entries, epochDownloaded, timegm);
    }
  }
}
