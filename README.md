# Social media news aggregator: fetch, store and serve pipeline

This project models the core of a news aggregator in Dafny and proves
properties of the model. The aggregator has two deployments:

- **Local server.** A Flask application. It walks a fixed catalog of RSS feeds (`NEWS_FEEDS`) and fetches every feed. It stores the articles in a SQLite table `articles` whose `link` column is UNIQUE. It serves the table and counts views by row id.
- **AWS.** A fetcher Lambda walks a catalog of the same shape, whose sources and URLs differ, in the same way, and puts every article into the DynamoDB table `NewsArticles`, whose partition key is the link. An API Lambda scans that table, sorts the items by view count and counts views by link.

The modules follow the source:

- `Common` (common.dfy): optional values, Python's substring test and `x or default`, and the outcome of one fetch task as the write loop receives it. It also holds the enumeration of a finite set, used for the unordered reads of both stores.
- `Catalog` (catalog.dfy): the catalog (categories of sources, and the one category `Indian News` of languages of sources) and its walk into one fetch task per feed. Each deployment has its own `NEWS_FEEDS`, with different sources and URLs, but both have this shape and walk it the same way.
- `Feed` (feed.dfy): a parsed feed entry with its optional attributes, and the image policy both fetchers apply. The first media item wins. Otherwise the first link with relation "enclosure" whose type contains "image" wins (section 4.2.7.2 of RFC 4287).
- `LocalServer` (local_server.dfy): the local fetcher, in which one malformed entry empties its feed, and the `Database` class. Its writes are first-write-wins: a duplicate link is skipped, and the count holds only new rows. It also holds the listing and view tracking by id.
- `FetchNewsLambda` (fetch_news_lambda.dfy): the Lambda fetcher, in which malformed entries are skipped and missing fields become "N/A". It holds the `NewsTable` class, whose `put_item` is last-write-wins: a refetch replaces the item and resets its view count to 0. The batch writer's buffering is not modelled (see "Left out"). It also proves lemmas comparing the two fetchers.
- `ApiHandler` (api_handler_lambda.dfy): routing, the CORS response, the stable descending sort by `viewCount`, and view tracking through DynamoDB's update expression.

Both fetchers submit their tasks to a thread pool, then read the results back in submission order. The model runs the tasks in that order. Feed fetching and parsing is a parameter `content` that maps a URL to a `FeedContent`, which is a failure or a list of entries. A failing database or DynamoDB call is a `storeFails` parameter: the handler answers 500 and the stored data stays as it was.

Three behaviours of the code are worth stating:

- **Refetch resets view counts (Lambda).** `put_item` replaces a refetched article whole, so its view count goes back to 0 (`FetchNewsLambda.RunResetsViews`). The local variant keeps the count (`LocalServer.StoreArticlesKeepsRows`).
- **Missing id answers 200 (local).** Local `track_view` answers 200 when no row has the id, because the UPDATE simply matches nothing. The Lambda answers 500 for a link that is not stored, because DynamoDB rejects `viewCount + :val` on an item that does not exist.
- **One malformed entry empties the feed (local).** A local feed with even one entry lacking a link yields no articles at all (`FetchNewsLambda.VariantsDifferOnMalformedEntry`). Only the Lambda fetcher skips just that entry.

## Model

| member | source | states |
|---|---|---|
| Common.ContainsAt | AWS_Server/fetcher-package/fetch_news_lambda.py:62 | The substring test `'image' in t` holds exactly when "image" occurs at some position of `t` |
| Common.WrittenAppend | local_Server_System/local_server.py:133-146 | The write loop visits the articles of the task results in submission order, task after task |
| Common.RaisedContributesNothing | local_Server_System/local_server.py:145-146 | A task whose result raised adds nothing and does not stop the tasks after it from being written |
| Common.ListElements | local_Server_System/local_server.py:158-159 | Reading all stored keys lists each exactly once (distinct, same set, same count) |
| Catalog.CollectDescriptors | local_Server_System/local_server.py:124-131 | The nested walk submits exactly the descriptors of `Flatten(catalog)`, in catalog order |
| Catalog.AppendSources | local_Server_System/local_server.py:127-131 | The innermost loop appends one task per source, in source order, tagged with the category and language, after the tasks already submitted |
| Catalog.FlattenAppend | local_Server_System/local_server.py:124-131 | The walk of two catalogs is the walk of the first followed by the walk of the second |
| Catalog.FlattenLeaves | local_Server_System/local_server.py:124-131 | A descriptor is submitted if and only if it is a leaf of some category (a source of a flat category, or a source under a language of Indian News) |
| Catalog.SourceDescriptorsLeaves | local_Server_System/local_server.py:130-131 | A run of sources submits a descriptor iff it carries the run's category and language (none for a flat category) and names one of the sources |
| Catalog.CategoryLeaves | local_Server_System/local_server.py:125-131 | One category submits exactly its leaves, whichever branch of the walk it takes |
| Catalog.LanguageDescriptorsLeaves | local_Server_System/local_server.py:126-128 | The Indian News walk submits exactly the sources under its languages, each tagged with its language |
| Catalog.FlattenSubCategory | local_Server_System/local_server.py:125-131 | A submitted descriptor has a sub-category exactly when its category is Indian News |
| Catalog.FlattenLength | local_Server_System/local_server.py:124-131 | One task per feed: the number of tasks equals the number of leaves of the catalog |
| Catalog.LanguageDescriptorsLength | local_Server_System/local_server.py:126-128 | The Indian News walk submits one task per source of each language |
| Feed.FirstImageEnclosure | local_Server_System/local_server.py:98-101 | Finds the first link that is an image enclosure, with nothing before it qualifying; none exactly when no link qualifies |
| Feed.FindImageUrl | local_Server_System/local_server.py:94-101 | The image search with its early break: the first media url when media exists, otherwise the href of some image enclosure (the first) |
| LocalServer.FetchSingleFeed | local_Server_System/local_server.py:89-115 | A failed feed gives []; an entry without title or link empties the whole feed; otherwise one tuple per entry with its fields, `published` defaulting to "" |
| LocalServer.InsertOrSkip | local_Server_System/local_server.py:136-144 | Insert succeeds iff the link is not stored; afterwards the link is stored, existing rows are unchanged, the row count grows by exactly the insertion, and the UNIQUE/id invariant is kept |
| LocalServer.StoreArticles | local_Server_System/local_server.py:133-146 | The write loop over all articles keeps the invariant, counts at most one per article, and hands out exactly one id per counted row |
| LocalServer.Database.constructor | local_Server_System/local_server.py:72-84 | On a new database file, init_db gives an empty table whose first id is 1, satisfying the invariant |
| LocalServer.Database.Insert | local_Server_System/local_server.py:138-144 | The INSERT statement changes the table as `InsertOrSkip` does and keeps the invariant |
| LocalServer.Database.UpdateViewCount | local_Server_System/local_server.py:183 | The UPDATE changes the table as `IncrementView` does |
| LocalServer.InsertAll | local_Server_System/local_server.py:136-144 | The inner loop over one task's articles leaves the table and count `StoreArticles` gives for them, keeping the invariant |
| LocalServer.StoreResults | local_Server_System/local_server.py:133-146 | The write loop leaves the table and the count that `StoreArticles` gives for the written articles, keeping the invariant |
| LocalServer.FetchAndStoreNews | local_Server_System/local_server.py:117-150 | Walk, fetch, and write in submission order; the result is `StoreArticles` of all fetched articles |
| LocalServer.FetchAll | local_Server_System/local_server.py:122-135 | One fetch per task, whose results are read back in submission order |
| LocalServer.StoreArticlesAppend | local_Server_System/local_server.py:133-146 | Writing two runs of articles one after the other is writing them all at once; the counts add up |
| LocalServer.StoreArticlesKeepsRows | local_Server_System/local_server.py:136-144 | Rows stored before the run survive with their view counts; new rows have view count 0 and hold a written article |
| LocalServer.FirstWriteWins | local_Server_System/local_server.py:136-144 | First write wins within a run: an article whose link is new and not written earlier gets a row holding exactly it, and no later article with that link replaces it |
| LocalServer.StoreArticlesCount | local_Server_System/local_server.py:142 | The returned count is the number of new rows and at most the number of written articles |
| LocalServer.StoreArticlesCoversLinks | local_Server_System/local_server.py:136-144 | After the write loop every written link is stored |
| LocalServer.StoreArticlesAllTaken | local_Server_System/local_server.py:143-144 | Articles whose links are all stored change nothing and count 0 |
| LocalServer.RefetchAddsNothing | local_Server_System/local_server.py:133-146 | Writing the same articles a second time adds no row and returns 0 |
| LocalServer.IncrementView | local_Server_System/local_server.py:183 | Only the row with that id gains exactly one view; ids, other rows and the next id are unchanged; the invariant is kept |
| LocalServer.ViewsAddUp | local_Server_System/local_server.py:183 | n views of a stored id raise its count by exactly n and change no other row |
| LocalServer.TrackView | local_Server_System/local_server.py:174-188 | A falsy id answers 400 and changes nothing; a database error answers 500 and changes nothing; otherwise one view is added and the answer is 200 |
| LocalServer.GetNews | local_Server_System/local_server.py:154-163 | Every row is listed exactly once, in an order the shuffle leaves open |
| LocalServer.RowsAtListsEachRowOnce | local_Server_System/local_server.py:158-159 | Reading the rows at a complete, duplicate-free list of ids lists every row exactly once |
| FetchNewsLambda.FeedArticles | AWS_Server/fetcher-package/fetch_news_lambda.py:52-76 | At most one item per entry; every item has view count 0, the feed's source and category, and a non-empty sub-category and image field |
| FetchNewsLambda.FetchSingleFeed | AWS_Server/fetcher-package/fetch_news_lambda.py:47-80 | The entry loop with its `continue` gives `FetchResult`: [] for a failed feed, otherwise the items of the well-formed entries |
| FetchNewsLambda.FeedArticlesAppend | AWS_Server/fetcher-package/fetch_news_lambda.py:52-76 | Items keep entry order: two runs of entries give the items of each, concatenated |
| FetchNewsLambda.SkipsMalformedEntry | AWS_Server/fetcher-package/fetch_news_lambda.py:54-55 | An entry without title or link is skipped and the entries around it are unaffected |
| FetchNewsLambda.FeedArticlesMembers | AWS_Server/fetcher-package/fetch_news_lambda.py:52-76 | An item is produced iff it is the item of some entry having both title and link |
| FetchNewsLambda.FeedArticlesWellFormed | AWS_Server/fetcher-package/fetch_news_lambda.py:52-76 | When every entry has title and link, every entry gives exactly its item, in entry order |
| FetchNewsLambda.VariantsAgreeOnWellFormedFeeds | AWS_Server/fetcher-package/fetch_news_lambda.py:67-76 | On well-formed feeds both fetchers give one article per entry in entry order with the same link, title, source and category; they differ only in placeholders: a missing date is "N/A" in the Lambda and "" locally, a falsy language or image is "N/A" in the Lambda; Lambda items start with 0 views |
| FetchNewsLambda.VariantsDifferOnMalformedEntry | AWS_Server/fetcher-package/fetch_news_lambda.py:52-55 | One malformed entry empties the local result but only drops that entry in the Lambda |
| FetchNewsLambda.PutAll | AWS_Server/fetcher-package/fetch_news_lambda.py:105-108 | Putting articles keeps every existing key, stores every written link, and keeps items under their own link |
| FetchNewsLambda.PutAllAppend | AWS_Server/fetcher-package/fetch_news_lambda.py:101-108 | Putting two runs of articles one after the other is putting them all at once |
| FetchNewsLambda.NewsTable.PutItem | AWS_Server/fetcher-package/fetch_news_lambda.py:108 | put_item creates or replaces the whole item under its link |
| FetchNewsLambda.PutArticles | AWS_Server/fetcher-package/fetch_news_lambda.py:104-109 | The inner loop puts each article of one task in order and counts every one of them |
| FetchNewsLambda.StoreResults | AWS_Server/fetcher-package/fetch_news_lambda.py:101-111 | The batch loop leaves `PutAll` of the written articles and counts every article, duplicates included |
| FetchNewsLambda.FetchAll | AWS_Server/fetcher-package/fetch_news_lambda.py:90-98 | One fetch per task, whose results are read back in submission order |
| FetchNewsLambda.LambdaHandler | AWS_Server/fetcher-package/fetch_news_lambda.py:82-117 | Status 200; the table becomes `PutAll` of all fetched articles and the count is their number |
| FetchNewsLambda.PutAllOverlay | AWS_Server/fetcher-package/fetch_news_lambda.py:105-108 | Writing over a table lays the written items over the old ones: written links take new items, others stay |
| FetchNewsLambda.PutAllFromEmpty | AWS_Server/fetcher-package/fetch_news_lambda.py:105-108 | The written keys are exactly the links of the articles, each holding one of them |
| FetchNewsLambda.LastWriteWins | AWS_Server/fetcher-package/fetch_news_lambda.py:106-108 | The item stored under a link is the last article written with that link |
| FetchNewsLambda.PutAllKeepsOthers | AWS_Server/fetcher-package/fetch_news_lambda.py:105-108 | Items whose link no article names are unchanged |
| FetchNewsLambda.PutAllIdempotent | AWS_Server/fetcher-package/fetch_news_lambda.py:105-108 | Writing the same articles twice gives the table writing them once gave |
| FetchNewsLambda.RefetchResetsViews | AWS_Server/fetcher-package/fetch_news_lambda.py:105-108 | Putting articles that have no views leaves every one of their links at view count 0, whatever it held before |
| FetchNewsLambda.FetchedViewsZero | AWS_Server/fetcher-package/fetch_news_lambda.py:75 | Every article a run fetches starts with view count 0 |
| FetchNewsLambda.RunResetsViews | AWS_Server/fetcher-package/fetch_news_lambda.py:75-108 | After a run every fetched link holds view count 0, whatever it held before |
| FetchNewsLambda.ProcessedCountBound | AWS_Server/fetcher-package/fetch_news_lambda.py:109 | The number of items grows by at most the number of articles counted |
| ApiHandler.RouteOf | AWS_Server/API_handler_lambda.py:39-44 | GET /news goes to get_news and POST /track-view to track_view, each iff method and path match |
| ApiHandler.CreateResponse | AWS_Server/API_handler_lambda.py:19-29 | A response carries the given status and body and the three CORS headers, allowing any origin |
| ApiHandler.InsertByViews | AWS_Server/API_handler_lambda.py:57 | The insertion step of the sort adds exactly the one item (as multisets) |
| ApiHandler.SortByViews | AWS_Server/API_handler_lambda.py:57 | The sort is a permutation of the scanned items |
| ApiHandler.InsertByViewsSorted | AWS_Server/API_handler_lambda.py:57 | Inserting into a list sorted by descending views keeps it sorted |
| ApiHandler.SortByViewsSorted | AWS_Server/API_handler_lambda.py:57 | The sorted list is in descending order of `viewCount` (missing counts as 0) |
| ApiHandler.InsertByViewsStable | AWS_Server/API_handler_lambda.py:57 | The inserted item goes after every item with its own view count |
| ApiHandler.SortByViewsStable | AWS_Server/API_handler_lambda.py:57 | Stability: for every count, the items with that count keep their scan order |
| ApiHandler.AddView | AWS_Server/API_handler_lambda.py:73-77 | The update succeeds iff the item exists and has a viewCount; then only that item's count grows by one and its other attributes stay |
| ApiHandler.ViewsAddUp | AWS_Server/API_handler_lambda.py:73-77 | n updates of an item with a count raise it by exactly n and change no other item |
| ApiHandler.ArticleTable.Scan | AWS_Server/API_handler_lambda.py:52-53 | The scan lists every stored item exactly once |
| ApiHandler.ArticleTable.UpdateItem | AWS_Server/API_handler_lambda.py:73-77 | update_item writes what `AddView` gives and reports whether it succeeded; a refused update writes nothing |
| ApiHandler.ListingProperties | AWS_Server/API_handler_lambda.py:52-59 | A listing holds exactly the stored items, sorted by descending views, and is a stable permutation of the scan |
| ApiHandler.GetNews | AWS_Server/API_handler_lambda.py:46-62 | A failing scan answers 500 with its message; otherwise 200 with the items of some complete scan, sorted by views |
| ApiHandler.TrackView | AWS_Server/API_handler_lambda.py:64-81 | An unparseable body answers 500; a missing or empty articleLink answers 400; a failed or refused update answers 500; otherwise one view is added and the answer is 200; only the last changes the table |
| ApiHandler.LambdaHandler | AWS_Server/API_handler_lambda.py:31-44 | Every response carries the three CORS headers; an unknown route answers 404 "Not Found"; listing changes nothing; track-view behaves as `TrackView` |
| ApiHandler.FirstViewAfterRefetch | AWS_Server/fetcher-package/fetch_news_lambda.py:75 | Right after a fetch run every fetched non-empty link can be tracked: a track-view request for it answers 200 and makes its count 1 |

## Left out

- Feed download and parsing (feedparser, the network) are a parameter mapping a URL to a parsed feed or a failure; an exception while fetching makes the whole feed a failure.
- The thread pools: the tasks are run one after another, and their results are read in submission order as the source reads them.
- The SQLite connection, commit and close, and any error other than the UNIQUE violation during an insert. A database error in `track_view` is the `storeFails` parameter.
- The DynamoDB client, its credentials and table configuration. Scan pagination (one Scan returns at most 1 MB) is left out: a scan returns the whole table.
- FetchNewsLambda.StoreResults: the batch writer's buffering is not modelled; each put is applied at once, in order. `table.batch_writer()` (fetch_news_lambda.py:101) is created without `overwrite_by_pkeys`, so two puts of one link in the same 25-item flush make DynamoDB's BatchWriteItem refuse the whole request. So does a put whose link is the empty string: an entry with `link` `''` passes the `hasattr` test at fetch_news_lambda.py:54 and becomes an item keyed by `''` at :68, and DynamoDB refuses an empty partition key. The model stores that item instead (the local variant is unaffected, since SQLite accepts `''`). The program then loses the buffered items, stops that task's remaining articles at the handler at fetch_news_lambda.py:110-111 while the count already includes the buffered ones, and if the final flush on leaving the `with` block fails, lambda_handler raises instead of answering 200. None of this is represented.
- FetchNewsLambda.LastWriteWins: holds for the program only when no batch flush holds two puts of one link or a put with an empty link; otherwise the request is refused, as the line above says.
- FetchNewsLambda.PutAllIdempotent: holds for the program only when no batch flush holds two puts of one link or a put with an empty link.
- FetchNewsLambda.RefetchResetsViews: holds for the program only when no batch flush holds two puts of one link or a put with an empty link; a refused flush leaves the old items and their view counts in place.
- FetchNewsLambda.RunResetsViews: holds for the program only when no batch flush is refused (two puts of one link, or a put with an empty link).
- ApiHandler.FirstViewAfterRefetch: stated for non-empty links only; an item with an empty link is never stored by DynamoDB, and a track-view request with an empty `articleLink` answers 400.
- FetchNewsLambda.LambdaHandler: the response body text (`Successfully processed ... articles.`) is reduced to the count it reports; log lines (`print`) are left out.
- LocalServer.TrackView: `articleId` is a JSON integer or missing. String ids and a request without a JSON body are not modelled, and the JSON error messages are left out.
- LocalServer.GetNews: the `ORDER BY` before the shuffle is discarded by `random.shuffle`. The model promises every row exactly once in an unspecified order, not a uniformly random one.
- `trigger_fetch` (the `/fetch-news` route) wraps `fetch_and_store_news` in 200/500 with a message string. It is left out because the only failure it adds is a database connection error.
- ApiHandler.TrackView: a truthy `articleLink` that is not a string is not modelled, and a body that is null, not JSON or not an object is the single case `Malformed`.
- The JSON encoding of responses (`json.dumps`, the Decimal encoder) is left out. A body is the `Payload` datatype.
- The catalog's concrete sources and URLs are left out. The model covers every catalog in which exactly the category `Indian News` has a language level (`Catalog.WellFormed`), which both deployments' `NEWS_FEEDS` satisfy.
- init_db's DDL is reduced to the constraints the model relies on: AUTOINCREMENT ids from 1, UNIQUE link, viewCount defaulting to 0.
