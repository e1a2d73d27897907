# tagrss in Dafny

tagrss is a small web RSS/Atom reader: feeds are stored with a set of user tags, the
entries of every feed are downloaded periodically, and the reader lists entries and feeds
page by page, filtered by feed and by tag. This project models its core and proves
properties of the model:

- `storage.dfy` (module `Storage`): `SqliteStorageProvider` of `tagrss.py` as a class
  `Store` whose fields are the three tables (feeds with unique source and title, the tag set
  of each feed, the entry rows in id order) and the next rowid of each table. Each
  provider method is one method; the schema's guarantees are the invariant `Store.Valid`. The
  queries are specification functions (`SelectFeeds`, `SelectEntries`, `Page` for
  `LIMIT … OFFSET …`) with lemmas about order, membership and counts.
- `core.dfy` (module `Core`): the `TagRss` facade: fetching a feed, adding a feed, updating a
  feed's entries. The network is a parameter `net: string -> Download` and
  `calendar.timegm` a parameter `timegm`.
- `tags.dfy` (module `TagCodec`): `parse_space_separated_tags` and `serialise_tags` of
  `serve.py`: the character state machine, a reference reading of the text form (`Lex`),
  the escape function, and the round trip between them.
- `serve.py`'s remaining logic in `serve.dfy` (module `Serve`): page size, offset and page
  count of the listings; the background pass `inner_update`, which pages through all feeds
  100 at a time and updates each one, logging failures and going on; and `add_feed_effect`,
  which refuses more than 100 tags and maps errors to HTTP statuses.
- `dynamic_input.dfy` (module `DynamicInput`): the browser copy of the tag parser and the
  loop of `handleInput` that writes the per-tag input boxes back into the hidden form field.

Assumptions about the database schema, which is not part of this model:
- `source` and `title` are UNIQUE.
- `feed_tags` has the key `(feed_id, tag)`.
- Tags and entries reference their feed with `ON DELETE CASCADE`.
- Rowids start at 1 and are never reused.
- Tables `feed_count` and `entry_count`, maintained by triggers, hold the row counts.

The add-feed form handler (`add_feed_effect`, serve.py:162-206) does not fit the `TagRss`
shown in tagrss.py, and the model makes a choice for each of its two calls:

- The call at serve.py:172-176 passes `custom_title`, which `add_feed` (tagrss.py:410-414)
  does not accept. As written, every submission with at most 100 tags therefore raises
  TypeError before any download and is answered with 500, with no change. The model makes the
  intended call `add_feed(source, tags)` instead.
- The handler for a failed download (serve.py:188-201) reads `e.bad_source`. The
  `FeedFetchError` at tagrss.py:46-48 has no such attribute, so the handler raises
  AttributeError and the answer is 500. The model keeps this literal reading (`Serve.ErrorStatus`),
  although with the `add_feed` API serve.py was written against, a source error (`bad_source` set) would be answered with 400.

## Model

| member | source | states |
|---|---|---|
| Storage.WhereClauseMeansMatches | tagrss.py:154-160 | the assembled WHERE clause holds for a feed iff the feed is in the id list (when one is given) and carries every requested tag (intersection, not union) |
| Storage.PageStart | tagrss.py:165 | OFFSET starts inside the rows: a negative offset reads as 0, one past the end as the end |
| Storage.Page | tagrss.py:165-170 | `LIMIT l OFFSET o` is the contiguous slice from the offset, of length l when that many rows remain, every remaining row when l is negative or too large |
| Storage.SelectFeedsSpec | tagrss.py:161-172 | the feed query lists feeds in strictly ascending id order, every row is a stored feed the filter selects shown as stored, and no selected feed is missing |
| Storage.SelectFeedsCount | tagrss.py:200-225 | the unpaged feed query has exactly one row per matching feed |
| Storage.SelectEntriesMembers | tagrss.py:323-342 | the entry query returns exactly the stored entries whose feed the filter selects |
| Storage.SelectEntriesNewestFirst | tagrss.py:333-335 | over a table in id order the entry query lists entries in strictly decreasing id order (ORDER BY id DESC) |
| Storage.SelectEntriesSpec | tagrss.py:323-342 | the entry query's members and its newest-first order together |
| Storage.SelectEntriesUnfiltered | tagrss.py:363-365 | without a filter the entry query counts every row, as the entry_count table does |
| Storage.EpochOrNone | tagrss.py:284-295 | a missing date (timegm raising TypeError) becomes None and a present one a number |
| Storage.BatchRows | tagrss.py:281-309 | a stored batch has one row per parsed item |
| Storage.BatchRowAt | tagrss.py:281-309 | row k of a batch is item k counted from the end (items are stored in reverse), with id firstId + k |
| Storage.BatchRowsOfFeed | tagrss.py:298-309 | every row of a batch belongs to the batch's feed and carries its download time |
| Storage.BatchRowsShape | tagrss.py:281-309 | per row: consecutive ids, the feed, the download time, the item's title and link, and a None date exactly when the item had none |
| Storage.WithoutFeedSpec | tagrss.py:274-276 | the delete cascade keeps exactly the entries of other feeds, no more rows than before, still in ascending id order |
| Storage.WithoutFeedMembers | tagrss.py:274-276 | the cascade keeps an entry iff it belongs to another feed |
| Storage.WithoutFeedIncreasing | tagrss.py:274-276 | the cascade keeps the surviving entries in ascending id order |
| Storage.DeletedFeedHasNoEntries | tagrss.py:274-276 | after deleting a feed, asking for that feed's entries yields nothing |
| Storage.StoreFeedError | tagrss.py:120-134 | a failing insert reports a taken source first, then a taken title, else the raw integrity error (repeated tag) |
| Storage.ReplaceRowPreservesUnique | tagrss.py:248-264 | changing a feed's source or title to values no other feed has keeps both columns unique |
| Storage.AddRowPreservesUnique | tagrss.py:117-119 | inserting a feed whose source and title are free keeps both columns unique |
| Storage.RemoveRowPreservesUnique | tagrss.py:274-276 | deleting a feed keeps both columns unique |
| Storage.AppendKeepsEntriesValid | tagrss.py:298-309 | inserting an entry of a live feed under the next rowid keeps ids ascending, below the next rowid and attached to live feeds |
| Storage.WithoutFeedKeepsEntriesValid | tagrss.py:274-276 | after the cascade no entry refers to the deleted feed and ids stay ascending |
| Storage.EntryPageSpec | tagrss.py:331-342 | a page of the entry query is newest-first and holds only entries of live feeds the filter selects |
| Storage.FeedPageSpec | tagrss.py:161-172 | a page of the feed query is in ascending id order and holds only stored feeds the filter selects |
| Storage.Store.constructor | tagrss.py:77-87 | a fresh database is empty and satisfies the schema invariant |
| Storage.Store.StoreFeed | tagrss.py:108-143 | on a collision or a repeated tag, the error and no change; otherwise a fresh id with the feed row and its tag set, and the entries untouched |
| Storage.Store.GetFeeds | tagrss.py:145-198 | the page of the feed query: at most limit rows, ascending ids, each a stored matching feed as stored, with its tag set (empty when it has none) exactly when tags are asked for |
| Storage.Store.GetFeedCount | tagrss.py:200-225 | the number of matching feeds; without a filter the number of stored feeds |
| Storage.Store.GetFeedSource | tagrss.py:227-231 | the feed's source, which no other feed has |
| Storage.Store.GetFeedTitle | tagrss.py:233-237 | the feed's title, which no other feed has |
| Storage.Store.GetFeedTags | tagrss.py:239-246 | the stored tags of the feed, and no tags for an id that is not stored |
| Storage.Store.SetFeedSource | tagrss.py:248-255 | a source another feed has is refused with no change; otherwise only that feed's source changes (a missing id changes nothing) |
| Storage.Store.SetFeedTitle | tagrss.py:257-264 | a title another feed has is refused with no change; otherwise only that feed's title changes |
| Storage.Store.SetFeedTags | tagrss.py:266-272 | the tag set is replaced in one transaction; a repeated tag or a missing feed with tags to insert rolls back with no change |
| Storage.DeleteCount | tagrss.py:274-276 | the entries that survive a delete plus those the query for the deleted feed counts make up the whole table, so the entry count drops by exactly the deleted feed's entries |
| Storage.Store.DeleteFeed | tagrss.py:274-276 | the feed row, its tags and exactly its entries are removed, the rest stays; the feed count drops by one for a stored feed and the entry count by exactly that feed's entries |
| Storage.Store.InsertEntry | tagrss.py:296-313 | a row of a live feed is appended under the next rowid; a missing feed is a StorageConstraintViolation with no change |
| Storage.Store.StoreEntries | tagrss.py:278-313 | for a live feed the whole batch is appended with consecutive ids; for a missing one nothing changes, and the error is raised unless there were no items |
| Storage.Store.GetEntries | tagrss.py:315-355 | the page of the entry query without download times: at most limit entries, newest first, all of live feeds the filter selects |
| Storage.Store.GetEntryCount | tagrss.py:357-384 | the number of matching entries; without a filter the number of stored entries |
| Core.FetchAndParse | tagrss.py:395-408 | any status but 200 is a FeedFetchError naming the source and status; on 200 the parsed body and the download time |
| Core.FeedTitle | tagrss.py:416 | the document's title, or "" when it has none |
| Core.UpdateOutcome | tagrss.py:496-499 | an update succeeds iff the download returned 200, and fails with that FeedFetchError otherwise |
| Core.UpdateRowsSpec | tagrss.py:496-506 | an update appends the parsed batch on 200 and nothing otherwise |
| Core.TagRss.constructor | tagrss.py:392-393 | a new instance has an empty, valid store |
| Core.TagRss.AddFeed | tagrss.py:410-421 | a failed download stores nothing; a collision or repeated tag returns the store's error with no change; otherwise the feed, its tag set and its batch of entries are stored |
| Core.TagRss.UpdateFeed | tagrss.py:496-499 | feeds and tags are untouched; the outcome is that of the feed's own source; the entries grow by exactly the rows of that download |
| Core.TagRss.StoreFeedEntries | tagrss.py:501-506 | the store's StoreEntries behaviour, passed through |
| TagCodec.LessIrreflexive | serve.py:61 | Python's string order is irreflexive |
| TagCodec.LessTransitive | serve.py:61 | Python's string order is transitive |
| TagCodec.LessTotal | serve.py:61 | any two different strings are ordered one way |
| TagCodec.LessAsymmetric | serve.py:61 | the order is asymmetric |
| TagCodec.SortedLength | serve.py:61 | a strictly sorted list repeats no tag, so it is as long as its set |
| TagCodec.SortedUnique | serve.py:61 | two strictly sorted lists with the same tags are equal: the sorted form of a set is unique |
| TagCodec.InsertSortedSpec | serve.py:61 | inserting into a sorted list keeps it strictly sorted and adds exactly the new tag |
| TagCodec.SortedList | serve.py:61 | `list(sorted(tags))` is strictly sorted and holds exactly the set's tags |
| TagCodec.ParseSpaceSeparatedTags | serve.py:42-61 | the loop computes the state machine's set of tags and returns it strictly sorted |
| TagCodec.ScanMatchesLex | serve.py:46-60 | the state machine keeps exactly the pieces between unescaped spaces, empty ones included, except an empty last piece |
| TagCodec.ParsedSetByPieces | serve.py:42-60 | the parsed set is the set of kept pieces of the text |
| TagCodec.TrailingBackslashDropped | serve.py:48-51 | a lone backslash at the end of the text is dropped |
| TagCodec.EscapedCharactersAreLiteral | serve.py:47-58 | an escaped backslash or space is kept literally inside the tag |
| TagCodec.LeadingSpaceGivesEmptyTag | serve.py:52-56 | a leading unescaped space adds the empty tag "" |
| TagCodec.EscapePlain | serve.py:69 | a tag without backslashes or spaces is written unchanged |
| TagCodec.EscapeByCharacter | serve.py:69 | the two replace passes never interfere: each character is escaped on its own |
| TagCodec.LexEscaped | serve.py:46-69 | the parser reads an escaped tag back as the tag itself, whatever follows |
| TagCodec.PiecesOfJoined | serve.py:42-70 | the pieces of the serialised text are exactly the list's tags |
| TagCodec.RoundTrip | serve.py:42-70 | parsing the serialised list gives back its set iff the last tag is not "" (or the list is empty, or "" occurs earlier) |
| TagCodec.PlainTagParsed | serve.py:42-61 | a single plain tag parses to itself |
| TagCodec.SerialiseTags | serve.py:64-70 | the loop writes the escaped tags joined by single spaces |
| TagCodec.LastOfSortedNotEmpty | serve.py:61 | in a sorted list other than [""] the last tag is not "" |
| TagCodec.Reparse | serve.py:227-239 | serialising the stored tags and parsing them again returns the same sorted list, except [""] which comes back empty |
| DynamicInput.ParseSpaceSeparatedTags | static/scripts/dynamic_input.js:10-35 | the loop, with the switch's fall-through written out, finds the same set of tags as the server's parser |
| DynamicInput.SerialiseInputs | static/scripts/dynamic_input.js:56-65 | the loop computes the text of the box values: empty boxes skipped, a space before each later box's value |
| DynamicInput.FilledSpec | static/scripts/dynamic_input.js:58-59 | the values written are exactly the non-empty box values |
| DynamicInput.NoneFilledMeansFirstEmpty | static/scripts/dynamic_input.js:58-59 | when nothing is written the first box is empty |
| DynamicInput.SerialisedShape | static/scripts/dynamic_input.js:56-64 | the text is the filled values joined by spaces, preceded by one stray space exactly when the first box is empty and a later one is not |
| DynamicInput.ParsedInputs | static/scripts/dynamic_input.js:56-64 | the server reads back the filled values, plus "" in that leading-gap case |
| DynamicInput.InputsRoundTrip | static/scripts/dynamic_input.js:56-64 | the box values survive the round trip iff there is no leading gap |
| DynamicInput.EmptyFirstBoxAddsEmptyTag | static/scripts/dynamic_input.js:59-62 | boxes "" and "news" are written as " news" and read back as the tags "" and "news" |
| DynamicInput.SerialiseInputsByWritten | static/scripts/dynamic_input.js:56-64 | with the separator decided by the count of values written, the text is the joined filled values and parses back to exactly the non-empty values |
| Serve.PerPage | serve.py:75-78 | the page size is the requested one, 50 when none is given, capped at 1000 |
| Serve.Offset | serve.py:79-80 | page 1 starts at the first row, no page from 1 on starts before it, and a page number below 1 gives a negative offset |
| Serve.CeilDiv | serve.py:285 | `math.ceil(a / b)`: the least multiple bound, for both signs of b |
| Serve.TotalPages | serve.py:144 | at least one page; enough pages for every row and no empty page beyond the first; a page size of 0 is the division error |
| Serve.EveryPositionOnAPage | serve.py:142-145 | every row position is on an existing page, p / per_page + 1 |
| Serve.LastPageStartsBeforeCount | serve.py:142-144 | the last page starts before the row count unless the listing is empty |
| Serve.BatchBounds | serve.py:285-286 | page i of the batched scan starts where page i - 1 stopped |
| Serve.AllFeedIds | serve.py:286 | the unfiltered listing's ids are stored feeds |
| Serve.AllFeedIdsAscending | serve.py:286 | the listing's ids ascend strictly, so no feed appears twice |
| Serve.FeedListed | serve.py:284-286 | every stored feed is in the listing |
| Serve.PassLog | serve.py:287-301 | the log of the first n updates has n attempts |
| Serve.PassLogExtend | serve.py:287-301 | one more logged attempt extends the log of the pass by that job |
| Serve.PassLogSpec | serve.py:287-301 | attempt k is for job k with that job's own outcome, whatever earlier attempts did |
| Serve.UpdateRowsFrom | serve.py:289 | every row an update appends belongs to the updated feed, and only a successful download appends rows |
| Serve.PassRowsFromJobs | serve.py:285-301 | every row the pass appends came from a feed of the pass whose download succeeded |
| Serve.PassRowsExtend | serve.py:288-289 | one more update extends the table by exactly that feed's rows |
| Serve.UpdateListedFeed | serve.py:288-301 | one update: feeds and tags untouched, one attempt logged, the entries extended by that feed's rows, errors logged and not raised |
| Serve.UpdatePage | serve.py:287-301 | a page: one attempt per listed feed in list order, entries extended accordingly |
| Serve.AllJobsOf | serve.py:285-286 | one job per listed feed, with the feed's stored source |
| Serve.PageOfJobs | serve.py:285-286 | page i lists the jobs from min(100 i, total) on and ends where page i + 1 starts |
| Serve.PassCoversEveryFeed | serve.py:281-302 | a complete pass attempts every stored feed, only stored feeds, in ascending id order, so none twice |
| Serve.UpdateAllFeeds | serve.py:281-302 | the pass makes one attempt per stored feed, its log is the pass log over all feeds, feeds and tags are unchanged, and the entries grow by exactly the rows of the successful downloads |
| Serve.ErrorStatus | serve.py:178-201 | a source or title collision gives 400; every other error gives 500 |
| Serve.SortedHasNoDuplicates | serve.py:165 | the parsed tag list repeats no tag, so storing it cannot fail on the tag key |
| Serve.AddFeedEffect | serve.py:163-206 | more than 100 tags gives 400 with no change; a failed download 500 with no change; a collision 400 with no change; otherwise the feed is added with the parsed tag set |

## Left out

- Threads, the connection lock and concurrent access: each provider method is modelled as one atomic step. The source's transactions are finer in two places: `get_feeds` reads the page and the tags in two blocks (tagrss.py:161, 179), so tags can change in between; `store_entries` commits each entry on its own.
- Network, clock and parser: `requests.get`, `time.time` and `feedparser.parse` are the parameter `net`, and `calendar.timegm` is the parameter `timegm`. The Content-Location base and tolerant parsing happen inside the parser.
- Network failures without a status (DNS, connection refused, timeout) are not modelled; `net` always returns a status. In the source, `requests.get` (tagrss.py:396) raises them, and `inner_update` catches only FeedFetchError and StorageConstraintViolationError (serve.py:290-299). Such a failure therefore ends the pass and the update thread (serve.py:304-307). `Serve.UpdateAllFeeds` and `Serve.PassCoversEveryFeed` show every feed attempted once only for failures that come with a status.
- `setup.sql`, the PRAGMA check raising `SqliteMissingForeignKeySupportError`, and `close`: the schema is the assumption stated above.
- Rowid reuse: SQLite without AUTOINCREMENT may reuse the largest id after a delete; the model hands out ids from a counter that never decreases.
- The feed-side tag filter selects `id` from `feed_tags`; the model reads it as the feed id, the same as the entry-side filter.
- The pass-through getters and setters of `TagRss` (tagrss.py:423-494) are the `Store` methods themselves.
- `TagRss.UpdateFeed` requires the id to be stored. For a missing id the source lookup returns no row and Python raises TypeError, which is not modelled.
- A feed deleted while the update pass runs is not modelled. If it is deleted after its page is listed but before `update_feed` looks up its source, `get_feed_source` raises TypeError on the missing row (tagrss.py:227-231, 497). `inner_update` does not catch that, so the pass and the update thread end (serve.py:290-307). If it is deleted during its own download, storing the entries raises `StorageConstraintViolationError`, which is logged. A feed deleted earlier in the pass shifts the OFFSET paging (serve.py:285-286), so the next page skips one feed.
- Serve.UpdateAllFeeds and Serve.PassCoversEveryFeed: every feed is attempted exactly once only when no feed is deleted during the pass and every failure comes with a status.
- The Python float division inside `math.ceil(count / per_page)` is modelled as exact integer ceiling division. They differ only beyond 2^53 rows.
- `int()` parsing of query parameters, the `included_feeds` text, the templates, and the routes (`index`, `list_feeds`, `manage_feed`, `delete_feed`, static files) are left out. Only their page arithmetic and the tag round trip (`TagCodec.Reparse`) are modelled.
- The scheduler loop of `update_feeds` and the log messages are left out. The pass returns its log as a list of attempts.
- Serve.AddFeedEffect: pairs the intended call `add_feed(source, tags)` with the literal failed-download handler. The code as written answers 500 to every submission with at most 100 tags, because `add_feed` rejects `custom_title` (serve.py:175). The custom title is not modelled. `tagrss.Feed` and `FeedDoesNotExistError` (manage_feed, serve.py:220-235) are not modelled either, because tagrss.py does not define them.
- Serve.AddFeedEffect: does not restate which entries are stored; `Core.TagRss.AddFeed` states that.
- Storage.Store.GetFeeds: tags are a set, not the list in row order, because SQLite gives no order for the tag rows.
- Storage.Store.GetFeedTags: returns a set, not the list `get_feed_tags` builds in row order, for the same reason.
- Storage.Store.StoreEntries: commits each entry in its own transaction (tagrss.py:281-313). If a feed is deleted concurrently mid-batch, the rows already stored stay. The sequential model cannot reach that case: for a live feed the whole batch is stored, for a missing one nothing.
- Storage.Store.constructor and Core.TagRss.constructor: model only a new, empty database file. Opening an existing file at `storage_path` (tagrss.py:77-87), as on a restart, starts from its stored state, and that is not modelled.
- DynamicInput.ParseSpaceSeparatedTags: returns the Set before sorting; the `localeCompare` order is not modelled.
- The DOM handling of `dynamic_input.js` is left out: creating and removing input boxes and filling them from the initial value. So is `auto_refresh.js`.

## Findings

| source | as written | input that shows it | evidently intended | confidence | as-written member | corrected member |
|---|---|---|---|---|---|---|
| static/scripts/dynamic_input.js:59-62 | a space is written before a value whenever its box is not the first, even when nothing was written before it | boxes "" and "news" give " news", which the server parses as the tags "" and "news" | a space only between two written values, so the text parses back to exactly the non-empty values | not executed | DynamicInput.EmptyFirstBoxAddsEmptyTag | DynamicInput.SerialiseInputsByWritten |
