/** The logic of the web front end in serve.py around the core: the page arithmetic of the
    entry and feed listings, the background pass that updates every feed, and the checks and
    error statuses of the add-feed form. */
module Serve {
  import opened Storage
  import opened Core
  import TagCodec

  const MaxPerPageEntries := 1000
  const DefaultPerPageEntries := 50
  const MaxTags := 100

  // ---------------------------------------------------------------------------
  // Paging in the entry and feed listings.

  /** The page size a listing uses: the requested one, DefaultPerPageEntries when none is
      given, capped at MaxPerPageEntries. */
  function PerPage(requested: Option<int>): (p: int)
    ensures p <= MaxPerPageEntries
    ensures requested == None ==> p == DefaultPerPageEntries
    ensures requested.Some? && requested.value <= MaxPerPageEntries ==> p == requested.value
    ensures requested.Some? && requested.value > MaxPerPageEntries ==> p == MaxPerPageEntries
  {
    Min(MaxPerPageEntries, requested.GetOr(DefaultPerPageEntries))
  }

  /** The first position shown on page pageNum (pages count from 1): page 1 starts at the first
      row, no page from 1 on starts before it, and a page number below 1 gives a negative offset,
      which the query reads as 0 (see Storage.PageStart). */
  function Offset(pageNum: int, perPage: int): (o: int)
    ensures pageNum == 1 ==> o == 0
    ensures pageNum >= 1 && perPage >= 0 ==> o >= 0
    ensures pageNum < 1 && perPage > 0 ==> o < 0
  {
    (pageNum - 1) * perPage
  }

  /** Python's `math.ceil(a / b)` on integers: the least q with q * b >= a when b is positive,
      and the least q with q * b <= a when b is negative. */
  function CeilDiv(a: int, b: int): (q: int)
    requires b != 0
    ensures b > 0 ==> (q - 1) * b < a <= q * b
    ensures b < 0 ==> q * b <= a < (q - 1) * b
    ensures b > 0 && a >= 0 ==> q >= 0
  {
    if b > 0 then
      var q := (a + b - 1) / b;
      assert q * b + (a + b - 1) % b == a + b - 1;
      q
    else
      var d := a / -b;
      assert d * -b + a % -b == a;
      -d
  }

  /** `max(1, math.ceil(count / per_page))`; a page size of 0 raises ZeroDivisionError, which is
      None here. */
  function TotalPages(count: nat, perPage: int): (t: Option<nat>)
    ensures t.None? <==> perPage == 0
    ensures t.Some? ==> t.value >= 1
    ensures perPage > 0 ==> count <= t.value * perPage && (t.value == 1 || (t.value - 1) * perPage < count)
    ensures perPage < 0 ==> t == Some(1)
  {
    if perPage == 0 then None
    else
      var pages := CeilDiv(count, perPage);
      if perPage < 0 then Some(1)
      else if pages < 1 then Some(1)
      else Some(pages)
  }

  /** Multiplying by a positive page size keeps a strict order. */
  lemma MulStrict(x: int, y: int, b: int)
    requires b > 0 && x < y
    ensures x * b < y * b
  {
    assert y * b - x * b == (y - x) * b;
  }

  /** Every position below count is shown on the page p / perPage + 1, and that page exists. */
  lemma EveryPositionOnAPage(count: nat, perPage: int, p: nat)
    requires perPage > 0 && p < count
    ensures var page := p / perPage + 1;
      && 1 <= page <= TotalPages(count, perPage).value
      && Offset(page, perPage) <= p < Offset(page, perPage) + perPage
  {
    var q := p / perPage;
    var t := TotalPages(count, perPage).value;
    assert q * perPage + p % perPage == p;
    assert Offset(q + 1, perPage) == q * perPage;
    assert q * perPage < t * perPage;
    if t <= q {
      if t < q {
        MulStrict(t, q, perPage);
      }
      assert false;
    }
  }

  /** A listing with a positive page size never goes past its last page: the last page starts
      before count, unless the listing is empty and has the one page. */
  lemma LastPageStartsBeforeCount(count: nat, perPage: int)
    requires perPage > 0
    ensures var t := TotalPages(count, perPage).value;
      Offset(t, perPage) < count || (t == 1 && count == 0)
  {
  }

  // ---------------------------------------------------------------------------
  // The background update pass: pages of 100 feeds, one update per feed.

  const BatchSize := 100

  /** Page i of a batched scan starts where page i - 1 stopped. */
  lemma BatchBounds<T>(rows: seq<T>, size: nat, i: nat)
    requires size > 0
    ensures var page := Page(rows, size, size * i);
      && PageStart(|rows|, size * i) == Min(size * i, |rows|)
      && PageStart(|rows|, size * i) + |page| == Min(size * (i + 1), |rows|)
  {
    assert size * (i + 1) == size * i + size;
  }

  /** The ids get_feeds lists with no filter, page after page: stored feeds below n. */
  function AllFeedIds(feeds: map<FeedId, FeedRow>, feedTags: map<FeedId, set<string>>, n: nat)
    : (ids: seq<FeedId>)
    ensures forall k | 0 <= k < |ids| :: ids[k] in feeds && ids[k] < n
  {
    var rows := SelectFeeds(feeds, feedTags, NoFilter, n);
    SelectFeedsSpec(feeds, feedTags, NoFilter, n);
    seq(|rows|, k requires 0 <= k < |rows| => rows[k].id)
  }

  /** The list is in ascending id order, so no feed appears twice. */
  lemma AllFeedIdsAscending(feeds: map<FeedId, FeedRow>, feedTags: map<FeedId, set<string>>, n: nat)
    ensures forall i, j | 0 <= i < j < |AllFeedIds(feeds, feedTags, n)| ::
      AllFeedIds(feeds, feedTags, n)[i] < AllFeedIds(feeds, feedTags, n)[j]
  {
    var rows := SelectFeeds(feeds, feedTags, NoFilter, n);
    SelectFeedsSpec(feeds, feedTags, NoFilter, n);
    var ids := AllFeedIds(feeds, feedTags, n);
    forall i, j | 0 <= i < j < |ids| ensures ids[i] < ids[j] {
      assert ids[i] == rows[i].id && ids[j] == rows[j].id;
    }
  }

  /** No stored feed below n is missing from the list. */
  lemma FeedListed(feeds: map<FeedId, FeedRow>, feedTags: map<FeedId, set<string>>, n: nat, id: FeedId)
    requires id in feeds && id < n
    ensures id in AllFeedIds(feeds, feedTags, n)
  {
    var rows := SelectFeeds(feeds, feedTags, NoFilter, n);
    SelectFeedsSpec(feeds, feedTags, NoFilter, n);
    var i :| 0 <= i < |rows| && rows[i].id == id;
    assert AllFeedIds(feeds, feedTags, n)[i] == id;
  }

  /** One feed the pass visits: its id and the source update_feed reads for it. */
  datatype Job = Job(id: FeedId, source: string)

  /** The jobs of a pass over ids: each listed feed with its stored source. */
  function Jobs(feeds: map<FeedId, FeedRow>, ids: seq<FeedId>): seq<Job>
    requires forall k | 0 <= k < |ids| :: ids[k] in feeds
  {
    seq(|ids|, k requires 0 <= k < |ids| => Job(ids[k], feeds[ids[k]].source))
  }

  /** Every job names a stored feed and carries that feed's source. */
  ghost predicate JobsOf(feeds: map<FeedId, FeedRow>, jobs: seq<Job>)
  {
    forall k | 0 <= k < |jobs| :: jobs[k].id in feeds && jobs[k].source == feeds[jobs[k].id].source
  }

  /** What the pass records for one feed: the id and how update_feed ended. */
  datatype Attempt = Attempt(id: FeedId, outcome: Result<()>)

  function Logged(net: string -> Download, job: Job): Attempt
  {
    Attempt(job.id, UpdateOutcome(job.source, Get(net, job.source)))
  }

  /** The log of a pass over the first n jobs. */
  function PassLog(jobs: seq<Job>, n: nat, net: string -> Download): (log: seq<Attempt>)
    requires n <= |jobs|
    ensures |log| == n
  {
    if n == 0 then [] else PassLog(jobs, n - 1, net) + [Logged(net, jobs[n - 1])]
  }

  /** Logging the attempt of job m extends the log of the first m jobs to that of the first m + 1. */
  lemma PassLogExtend(jobs: seq<Job>, m: nat, net: string -> Download, logBefore: seq<Attempt>, attempt: Attempt)
    requires m < |jobs| && logBefore == PassLog(jobs, m, net) && attempt == Logged(net, jobs[m])
    ensures logBefore + [attempt] == PassLog(jobs, m + 1, net)
  {
  }

  /** The log holds one attempt per job, in list order, whatever the earlier attempts' outcomes:
      a failed update does not end the pass. */
  lemma {:induction false} PassLogSpec(jobs: seq<Job>, n: nat, net: string -> Download)
    requires n <= |jobs|
    ensures forall k | 0 <= k < n :: PassLog(jobs, n, net)[k].id == jobs[k].id
    ensures forall k | 0 <= k < n ::
      PassLog(jobs, n, net)[k].outcome == UpdateOutcome(jobs[k].source, Get(net, jobs[k].source))
  {
    if n > 0 {
      PassLogSpec(jobs, n - 1, net);
    }
  }

  /** The entry rows the pass appends when it updates the first n jobs in turn, starting at entry
      id firstId. */
  function PassRows(jobs: seq<Job>, n: nat, net: string -> Download, timegm: TimeStruct -> Epoch,
                    firstId: EntryId): seq<EntryRow>
    requires n <= |jobs|
  {
    if n == 0 then []
    else
      var earlier := PassRows(jobs, n - 1, net, timegm, firstId);
      var job := jobs[n - 1];
      earlier + UpdateRows(job.id, job.source, Get(net, job.source), timegm, firstId + |earlier|)
  }

  /** A pass over n > 0 jobs appends the rows of job n - 1 to those of the jobs before it. */
  lemma PassRowsLast(jobs: seq<Job>, n: nat, net: string -> Download, timegm: TimeStruct -> Epoch,
                     firstId: EntryId)
    requires 0 < n <= |jobs|
    ensures PassRows(jobs, n, net, timegm, firstId)
         == PassRows(jobs, n - 1, net, timegm, firstId)
            + UpdateRows(jobs[n - 1].id, jobs[n - 1].source, Get(net, jobs[n - 1].source), timegm,
                         firstId + |PassRows(jobs, n - 1, net, timegm, firstId)|)
  {
  }

  /** Every row one update appends belongs to the updated feed, and there is none unless the
      download succeeded. */
  lemma UpdateRowsFrom(id: FeedId, source: string, d: Download, timegm: TimeStruct -> Epoch, start: EntryId)
    ensures forall r | r in UpdateRows(id, source, d, timegm, start) :: r.feedId == id && d.statusCode == HttpOk
  {
    UpdateRowsSpec(id, source, d, timegm, start);
    if d.statusCode == HttpOk {
      BatchRowsOfFeed(id, d.body.entries, d.epoch, timegm, start);
    }
  }

  /** The row came from job j: it belongs to that job's feed, whose download succeeded. */
  ghost predicate FromJob(jobs: seq<Job>, net: string -> Download, row: EntryRow, j: nat)
  {
    j < |jobs| && row.feedId == jobs[j].id && Get(net, jobs[j].source).statusCode == HttpOk
  }

  /** A row of the first n - 1 jobs' rows followed by job n - 1's rows came from one of the
      first n jobs. */
  lemma RowOfExtendedPass(jobs: seq<Job>, n: nat, net: string -> Download, earlier: seq<EntryRow>,
                          added: seq<EntryRow>, r: EntryRow)
    requires 0 < n <= |jobs| && r in earlier + added
    requires forall x | x in earlier :: exists j: nat :: j < n - 1 && FromJob(jobs, net, x, j)
    requires forall x | x in added ::
      x.feedId == jobs[n - 1].id && Get(net, jobs[n - 1].source).statusCode == HttpOk
    ensures exists j: nat :: j < n && FromJob(jobs, net, r, j)
  {
    if r in earlier {
      var j: nat :| j < n - 1 && FromJob(jobs, net, r, j);
    } else {
      assert FromJob(jobs, net, r, n - 1);
    }
  }

  /** Every row a pass over the first n jobs appends came from one of them, and only a job whose
      download succeeded contributes rows. */
  lemma {:induction false} PassRowsFromJobs(jobs: seq<Job>, n: nat, net: string -> Download,
                                            timegm: TimeStruct -> Epoch, firstId: EntryId)
    requires n <= |jobs|
    ensures forall r | r in PassRows(jobs, n, net, timegm, firstId) :: exists j: nat :: j < n && FromJob(jobs, net, r, j)
  {
    if n > 0 {
      var earlier := PassRows(jobs, n - 1, net, timegm, firstId);
      var job := jobs[n - 1];
      var added := UpdateRows(job.id, job.source, Get(net, job.source), timegm, firstId + |earlier|);
      PassRowsFromJobs(jobs, n - 1, net, timegm, firstId);
      UpdateRowsFrom(job.id, job.source, Get(net, job.source), timegm, firstId + |earlier|);
      forall r | r in PassRows(jobs, n, net, timegm, firstId) ensures exists j: nat :: j < n && FromJob(jobs, net, r, j) {
        RowOfExtendedPass(jobs, n, net, earlier, added, r);
      }
    }
  }

  /** Regrouping the rows of the table; kept apart so the lemma below stays cheap. */
  lemma RowsAppendAssociates(a: seq<EntryRow>, b: seq<EntryRow>, c: seq<EntryRow>)
    ensures a + b + c == a + (b + c)
  {
  }

  /** When the table held the rows of the first m updates after entries0 and update m appends its
      own rows, the table holds the rows of the first m + 1 updates. */
  lemma PassRowsExtend(jobs: seq<Job>, m: nat, net: string -> Download, timegm: TimeStruct -> Epoch,
                       firstId: EntryId, done: seq<EntryRow>, entries0: seq<EntryRow>,
                       before: seq<EntryRow>, after: seq<EntryRow>)
    requires m < |jobs| && done == PassRows(jobs, m, net, timegm, firstId)
    requires before == entries0 + done
    requires after == before + UpdateRows(jobs[m].id, jobs[m].source, Get(net, jobs[m].source), timegm,
                                          firstId + |done|)
    ensures after == entries0 + PassRows(jobs, m + 1, net, timegm, firstId)
    ensures |PassRows(jobs, m + 1, net, timegm, firstId)|
         == |done| + |UpdateRows(jobs[m].id, jobs[m].source, Get(net, jobs[m].source), timegm, firstId + |done|)|
  {
    var added := UpdateRows(jobs[m].id, jobs[m].source, Get(net, jobs[m].source), timegm, firstId + |done|);
    PassRowsLast(jobs, m + 1, net, timegm, firstId);
    RowsAppendAssociates(entries0, done, added);
  }

  /** The j-th feed of a page is the job at position start + j of the pass. */
  ghost predicate ListedAt(batch: seq<PartialFeed>, jobs: seq<Job>, start: nat, j: nat)
  {
    j < |batch| && start + j < |jobs| && batch[j].id == jobs[start + j].id
  }

  /** The body of the inner loop of inner_update: update one listed feed and log how it ended; an
      error is logged rather than raised, so the pass goes on. Stated for the job that follows
      the jobs already in the log, whose updates appended their rows after entries0. */
  method UpdateListedFeed(rss: TagRss, id: FeedId, net: string -> Download, timegm: TimeStruct -> Epoch,
                          logBefore: seq<Attempt>, ghost jobs: seq<Job>, ghost entries0: seq<EntryRow>,
                          ghost firstId: EntryId)
    returns (log: seq<Attempt>)
    requires rss.Valid() && JobsOf(rss.storage.feeds, jobs)
    requires |logBefore| < |jobs| && id == jobs[|logBefore|].id
    requires logBefore == PassLog(jobs, |logBefore|, net)
    requires rss.storage.entries == entries0 + PassRows(jobs, |logBefore|, net, timegm, firstId)
    requires rss.storage.nextEntryId == firstId + |PassRows(jobs, |logBefore|, net, timegm, firstId)|
    modifies rss.storage
    ensures rss.Valid()
    ensures rss.storage.feeds == old(rss.storage.feeds) && rss.storage.feedTags == old(rss.storage.feedTags)
    ensures rss.storage.nextFeedId == old(rss.storage.nextFeedId)
    ensures |log| == |logBefore| + 1
    ensures log == PassLog(jobs, |log|, net)
    ensures rss.storage.entries == entries0 + PassRows(jobs, |log|, net, timegm, firstId)
    ensures rss.storage.nextEntryId == firstId + |PassRows(jobs, |log|, net, timegm, firstId)|
  {
    ghost var m := |logBefore|;
    ghost var job := jobs[m];
    ghost var done := PassRows(jobs, m, net, timegm, firstId);
    ghost var added := UpdateRows(job.id, job.source, Get(net, job.source), timegm, firstId + |done|);
    ghost var before := rss.storage.entries;
    assert job.id == id && job.source == rss.storage.feeds[id].source;
    var outcome := rss.UpdateFeed(id, net, timegm);
    assert rss.storage.entries == before + added;
    assert outcome == UpdateOutcome(job.source, Get(net, job.source));
    PassRowsExtend(jobs, m, net, timegm, firstId, done, entries0, before, rss.storage.entries);
    PassLogExtend(jobs, m, net, logBefore, Attempt(id, outcome));
    log := logBefore + [Attempt(id, outcome)];
  }


  /** The inner loop of inner_update: update the feeds of one page in list order, appending an
      attempt per feed to the log of the pass so far. */
  method UpdatePage(rss: TagRss, batch: seq<PartialFeed>, net: string -> Download, timegm: TimeStruct -> Epoch,
                    logBefore: seq<Attempt>, ghost jobs: seq<Job>, ghost entries0: seq<EntryRow>,
                    ghost firstId: EntryId)
    returns (log: seq<Attempt>)
    requires rss.Valid() && JobsOf(rss.storage.feeds, jobs)
    requires |logBefore| + |batch| <= |jobs|
    requires forall j: nat | j < |batch| :: ListedAt(batch, jobs, |logBefore|, j)
    requires logBefore == PassLog(jobs, |logBefore|, net)
    requires rss.storage.entries == entries0 + PassRows(jobs, |logBefore|, net, timegm, firstId)
    requires rss.storage.nextEntryId == firstId + |PassRows(jobs, |logBefore|, net, timegm, firstId)|
    modifies rss.storage
    ensures rss.Valid()
    ensures rss.storage.feeds == old(rss.storage.feeds) && rss.storage.feedTags == old(rss.storage.feedTags)
    ensures rss.storage.nextFeedId == old(rss.storage.nextFeedId)
    ensures |log| == |logBefore| + |batch|
    ensures log == PassLog(jobs, |log|, net)
    ensures rss.storage.entries == entries0 + PassRows(jobs, |log|, net, timegm, firstId)
    ensures rss.storage.nextEntryId == firstId + |PassRows(jobs, |log|, net, timegm, firstId)|
  {
    var store := rss.storage;
    log := logBefore;
    for j := 0 to |batch|
      invariant rss.Valid()
      invariant store.feeds == old(store.feeds) && store.feedTags == old(store.feedTags)
      invariant store.nextFeedId == old(store.nextFeedId)
      invariant |log| == |logBefore| + j
      invariant log == PassLog(jobs, |log|, net)
      invariant store.entries == entries0 + PassRows(jobs, |log|, net, timegm, firstId)
      invariant store.nextEntryId == firstId + |PassRows(jobs, |log|, net, timegm, firstId)|
    {
      assert ListedAt(batch, jobs, |logBefore|, j);
      log := UpdateListedFeed(rss, batch[j].id, net, timegm, log, jobs, entries0, firstId);
    }
  }

  /** The jobs of a pass over every stored feed, in the order the pages list them. */
  function AllJobs(feeds: map<FeedId, FeedRow>, feedTags: map<FeedId, set<string>>, n: nat): seq<Job>
  {
    Jobs(feeds, AllFeedIds(feeds, feedTags, n))
  }

  /** There is a job per listed feed, each with the feed's stored source. */
  lemma AllJobsOf(feeds: map<FeedId, FeedRow>, feedTags: map<FeedId, set<string>>, n: nat)
    ensures |AllJobs(feeds, feedTags, n)| == |SelectFeeds(feeds, feedTags, NoFilter, n)|
    ensures JobsOf(feeds, AllJobs(feeds, feedTags, n))
  {
    var jobs := AllJobs(feeds, feedTags, n);
    var ids := AllFeedIds(feeds, feedTags, n);
    forall k | 0 <= k < |jobs| ensures jobs[k].id in feeds && jobs[k].source == feeds[jobs[k].id].source {
      assert jobs[k] == Job(ids[k], feeds[ids[k]].source);
    }
  }

  /** Page i of the unfiltered listing holds, in order, the jobs from position min(100 * i, total)
      on, and ends where page i + 1 starts. */
  lemma PageOfJobs(feeds: map<FeedId, FeedRow>, feedTags: map<FeedId, set<string>>, n: nat, i: nat,
                   batch: seq<PartialFeed>)
    requires batch == WithTags(Page(SelectFeeds(feeds, feedTags, NoFilter, n), BatchSize, BatchSize * i),
                               feedTags, false)
    ensures Min(BatchSize * i, |AllJobs(feeds, feedTags, n)|) + |batch|
         == Min(BatchSize * (i + 1), |AllJobs(feeds, feedTags, n)|)
    ensures forall j: nat | j < |batch| ::
      ListedAt(batch, AllJobs(feeds, feedTags, n), Min(BatchSize * i, |AllJobs(feeds, feedTags, n)|), j)
  {
    var all := SelectFeeds(feeds, feedTags, NoFilter, n);
    var ids := AllFeedIds(feeds, feedTags, n);
    var jobs := AllJobs(feeds, feedTags, n);
    AllJobsOf(feeds, feedTags, n);
    BatchBounds(all, BatchSize, i);
    var start := Min(BatchSize * i, |all|);
    assert batch == Page(all, BatchSize, BatchSize * i);
    forall j: nat | j < |batch| ensures ListedAt(batch, jobs, start, j) {
      assert batch[j] == all[start + j];
      assert jobs[start + j] == Job(ids[start + j], feeds[ids[start + j]].source);
    }
  }

  /** Some attempt of the log is for feed id. */
  ghost predicate Attempted(log: seq<Attempt>, id: FeedId)
  {
    exists k :: 0 <= k < |log| && log[k].id == id
  }

  /** A complete pass attempts exactly the stored feeds, in ascending id order, so none twice. */
  lemma PassCoversEveryFeed(feeds: map<FeedId, FeedRow>, feedTags: map<FeedId, set<string>>, n: nat,
                            net: string -> Download)
    requires IdsBelow(feeds.Keys, n)
    ensures forall id | id in feeds ::
      Attempted(PassLog(AllJobs(feeds, feedTags, n), |AllJobs(feeds, feedTags, n)|, net), id)
    ensures forall k | 0 <= k < |AllJobs(feeds, feedTags, n)| ::
      PassLog(AllJobs(feeds, feedTags, n), |AllJobs(feeds, feedTags, n)|, net)[k].id in feeds
    ensures forall i, j | 0 <= i < j < |AllJobs(feeds, feedTags, n)| ::
      PassLog(AllJobs(feeds, feedTags, n), |AllJobs(feeds, feedTags, n)|, net)[i].id
        < PassLog(AllJobs(feeds, feedTags, n), |AllJobs(feeds, feedTags, n)|, net)[j].id
  {
    var jobs := AllJobs(feeds, feedTags, n);
    var ids := AllFeedIds(feeds, feedTags, n);
    var log := PassLog(jobs, |jobs|, net);
    PassLogSpec(jobs, |jobs|, net);
    AllFeedIdsAscending(feeds, feedTags, n);
    assert |jobs| == |ids|;
    forall k | 0 <= k < |jobs| ensures log[k].id == ids[k] {
      assert jobs[k] == Job(ids[k], feeds[ids[k]].source);
    }
    forall id | id in feeds ensures Attempted(log, id) {
      FeedListed(feeds, feedTags, n, id);
      var k :| 0 <= k < |ids| && ids[k] == id;
      assert log[k].id == id;
    }
  }

  /** inner_update of update_feeds: page through all feeds 100 at a time and update each one. A
      download that answers with a status other than 200 is logged and the pass goes on, so every
      feed is attempted exactly once. That holds only because `net` always answers with a status
      and no feed is deleted during the pass: a connection failure or timeout, or a lookup of a
      deleted feed's source, raises an error the handler does not catch, and a delete earlier in
      the pass shifts the paging. */
  method UpdateAllFeeds(rss: TagRss, net: string -> Download, timegm: TimeStruct -> Epoch)
    returns (log: seq<Attempt>)
    requires rss.Valid()
    modifies rss.storage
    ensures rss.Valid()
    ensures rss.storage.feeds == old(rss.storage.feeds) && rss.storage.feedTags == old(rss.storage.feedTags)
    ensures |log| == |old(rss.storage.feeds)|
         == |AllJobs(old(rss.storage.feeds), old(rss.storage.feedTags), old(rss.storage.nextFeedId))|
    ensures log == PassLog(AllJobs(old(rss.storage.feeds), old(rss.storage.feedTags), old(rss.storage.nextFeedId)),
                           |log|, net)
    ensures rss.storage.entries
         == old(rss.storage.entries)
            + PassRows(AllJobs(old(rss.storage.feeds), old(rss.storage.feedTags), old(rss.storage.nextFeedId)),
                       |log|, net, timegm, old(rss.storage.nextEntryId))
  {
    var store := rss.storage;
    ghost var jobs := AllJobs(store.feeds, store.feedTags, store.nextFeedId);
    AllJobsOf(store.feeds, store.feedTags, store.nextFeedId);
    ghost var entries0 := store.entries;
    ghost var first := store.nextEntryId;
    var count := store.GetFeedCount(NoFilter);
    var pages := CeilDiv(count, BatchSize);
    log := [];
    var i := 0;
    while i < pages
      invariant 0 <= i <= pages
      invariant rss.Valid()
      invariant store.feeds == old(store.feeds) && store.feedTags == old(store.feedTags)
      invariant store.nextFeedId == old(store.nextFeedId)
      invariant |log| == Min(BatchSize * i, |jobs|)
      invariant log == PassLog(jobs, |log|, net)
      invariant store.entries == entries0 + PassRows(jobs, |log|, net, timegm, first)
      invariant store.nextEntryId == first + |PassRows(jobs, |log|, net, timegm, first)|
    {
      var batch := store.GetFeeds(BatchSize, BatchSize * i, NoFilter, false);
      PageOfJobs(store.feeds, store.feedTags, store.nextFeedId, i, batch);
      log := UpdatePage(rss, batch, net, timegm, log, jobs, entries0, first);
      i := i + 1;
    }
    assert count <= pages * BatchSize;
  }

  // ---------------------------------------------------------------------------
  // The add-feed form.

  /** What the form handler answers: the confirmation page, or an HTTP error status. */
  datatype Response = FeedAdded(id: FeedId) | HttpError(status: int)

  /** The status for an error add_feed raises. The two collisions are the submitter's fault (400).
      The FeedFetchError handler reads an attribute the error class does not define
      (tagrss.py:46-48), so it fails in turn and the framework answers 500; the other storage
      errors are not caught and give 500 as well. */
  function ErrorStatus(e: Error): (status: int)
    ensures status == 400 <==> e.FeedSourceAlreadyExists? || e.FeedTitleAlreadyInUse?
    ensures status != 400 ==> status == 500
  {
    match e
    case FeedSourceAlreadyExists => 400
    case FeedTitleAlreadyInUse(_) => 400
    case _ => 500
  }

  /** A strictly sorted tag list repeats no tag. */
  lemma SortedHasNoDuplicates(tags: seq<string>)
    requires TagCodec.StrictlySorted(tags)
    ensures NoDuplicates(tags)
  {
    forall i, j | 0 <= i < j < |tags| ensures tags[i] != tags[j] {
      TagCodec.LessIrreflexive(tags[i]);
    }
  }

  /** add_feed_effect: parse the tag text, refuse more than MaxTags tags before touching the
      core, then add the feed and turn an error into a status. */
  method AddFeedEffect(rss: TagRss, source: string, tagsText: string,
                       net: string -> Download, timegm: TimeStruct -> Epoch)
    returns (resp: Response)
    requires rss.Valid()
    modifies rss.storage
    ensures rss.Valid()
    ensures |TagCodec.ParsedSet(tagsText)| > MaxTags ==> resp == HttpError(400) && unchanged(rss.storage)
    ensures |TagCodec.ParsedSet(tagsText)| <= MaxTags ==>
      var d := Get(net, source);
      var title := FeedTitle(d.body);
      var taken := SourceTaken(old(rss.storage.feeds), source) || TitleTaken(old(rss.storage.feeds), title);
      && (d.statusCode != HttpOk ==> resp == HttpError(500) && unchanged(rss.storage))
      && (d.statusCode == HttpOk && taken ==> resp == HttpError(400) && unchanged(rss.storage))
      && (d.statusCode == HttpOk && !taken ==>
            && resp.FeedAdded? && resp.id !in old(rss.storage.feeds)
            && rss.storage.feeds == old(rss.storage.feeds)[resp.id := FeedRow(source, title)]
            && rss.storage.feedTags == old(rss.storage.feedTags)[resp.id := TagCodec.ParsedSet(tagsText)])
  {
    var tags := TagCodec.ParseSpaceSeparatedTags(tagsText);
    TagCodec.SortedLength(tags);
    if |tags| > MaxTags {
      return HttpError(400);
    }
    SortedHasNoDuplicates(tags);
    var r := rss.AddFeed(source, tags, net, timegm);
    match r
    case Ok(id) => resp := FeedAdded(id);
    case Err(e) => resp := HttpError(ErrorStatus(e));
  }
}
