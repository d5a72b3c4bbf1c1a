/** The AWS deployment's fetcher: a Lambda function that walks a catalog of
    the same shape as the local one (its sources and URLs differ) in the same
    way, fetches every feed and writes each article into the DynamoDB table
    `NewsArticles`, whose partition key is the article link. */
module FetchNewsLambda {
  import opened Common
  import opened Catalog
  import opened Feed
  import LocalServer

  /** The placeholder stored for a missing date, sub-category or image. */
  const NotAvailable: string := "N/A"

  /** The item fetch_single_feed builds for one entry. */
  datatype Article = Article(
    link: string,
    title: string,
    publishedAt: string,
    sourceName: string,
    category: string,
    subCategory: string,
    imageUrl: string,
    viewCount: int)

  /** The item of a well-formed entry: the published date or "N/A", the
      sub-category or "N/A" when it is falsy, the image or "N/A" when it is
      falsy, and a view count of 0. */
  function ArticleOf(d: Descriptor, e: Entry): Article
    requires HasTitleAndLink(e)
  {
    Article(e.link.value, e.title.value,
            if e.published.Some? then e.published.value else NotAvailable,
            d.name, d.category, Or(d.subCategory, NotAvailable), Or(ImageUrl(e), NotAvailable), 0)
  }

  /** The items of a feed's entries in order; an entry without a title or a
      link is skipped and the rest are kept. Every item starts with no views,
      names the feed's source and category, and has a non-empty sub-category
      and image field. */
  function FeedArticles(d: Descriptor, entries: seq<Entry>): (r: seq<Article>)
    ensures |r| <= |entries|
    ensures forall a :: a in r ==>
              && a.viewCount == 0
              && a.sourceName == d.name
              && a.category == d.category
              && a.subCategory != ""
              && a.imageUrl != ""
    decreases |entries|
  {
    if entries == [] then []
    else
      var e := entries[|entries| - 1];
      FeedArticles(d, entries[..|entries| - 1]) + (if HasTitleAndLink(e) then [ArticleOf(d, e)] else [])
  }

  /** What fetch_single_feed returns: a feed that cannot be fetched or
      parsed gives no items. */
  function FetchResult(d: Descriptor, feed: FeedContent): seq<Article>
  {
    match feed
    case FetchFailed => []
    case Parsed(entries) => FeedArticles(d, entries)
  }

  /** fetch_single_feed: the entry loop with its `continue` on entries that
      lack a title or a link. */
  method FetchSingleFeed(d: Descriptor, feed: FeedContent) returns (articles: seq<Article>)
    ensures articles == FetchResult(d, feed)
  {
    if feed.FetchFailed? {
      return [];
    }
    var entries := feed.entries;
    articles := [];
    for i := 0 to |entries|
      invariant articles == FeedArticles(d, entries[..i])
    {
      var entry := entries[i];
      assert entries[..i + 1][..i] == entries[..i];
      if !HasTitleAndLink(entry) {
        assert articles + [] == articles;
        continue;
      }
      var image := FindImageUrl(entry);
      articles := articles + [Article(entry.link.value, entry.title.value,
                                      if entry.published.Some? then entry.published.value else NotAvailable,
                                      d.name, d.category,
                                      Or(d.subCategory, NotAvailable), Or(image, NotAvailable),
                                      0)];
    }
    assert entries[..|entries|] == entries;
  }

  lemma {:induction false} FeedArticlesSnoc(d: Descriptor, entries: seq<Entry>, e: Entry)
    ensures FeedArticles(d, entries + [e])
            == FeedArticles(d, entries) + (if HasTitleAndLink(e) then [ArticleOf(d, e)] else [])
  {
    assert (entries + [e])[..|entries|] == entries;
  }

  /** The items of two runs of entries are the items of each, in order. */
  lemma {:induction false} FeedArticlesAppend(d: Descriptor, e1: seq<Entry>, e2: seq<Entry>)
    ensures FeedArticles(d, e1 + e2) == FeedArticles(d, e1) + FeedArticles(d, e2)
    decreases |e2|
  {
    if e2 == [] {
      assert e1 + e2 == e1;
    } else {
      var init := e2[..|e2| - 1];
      var e := e2[|e2| - 1];
      var last := if HasTitleAndLink(e) then [ArticleOf(d, e)] else [];
      assert e2 == init + [e];
      assert e1 + e2 == (e1 + init) + [e];
      FeedArticlesAppend(d, e1, init);
      FeedArticlesSnoc(d, e1 + init, e);
      FeedArticlesSnoc(d, init, e);
      AppendAssoc(FeedArticles(d, e1), FeedArticles(d, init), last);
    }
  }

  /** A malformed entry is skipped without affecting the entries around it. */
  lemma {:induction false} SkipsMalformedEntry(d: Descriptor, before: seq<Entry>, e: Entry, after: seq<Entry>)
    requires !HasTitleAndLink(e)
    ensures FeedArticles(d, before + [e] + after) == FeedArticles(d, before) + FeedArticles(d, after)
  {
    var single := [e];
    assert single[..0] == [];
    assert FeedArticles(d, single) == [];
    FeedArticlesAppend(d, before, single);
    FeedArticlesAppend(d, before + single, after);
  }

  /** Exactly the well-formed entries become items. */
  lemma {:induction false} FeedArticlesMembers(d: Descriptor, entries: seq<Entry>, a: Article)
    ensures a in FeedArticles(d, entries) <==>
            exists i :: 0 <= i < |entries| && HasTitleAndLink(entries[i]) && a == ArticleOf(d, entries[i])
    decreases |entries|
  {
    if entries != [] {
      var n := |entries| - 1;
      var init := entries[..n];
      var e := entries[n];
      assert entries == init + [e];
      FeedArticlesSnoc(d, init, e);
      FeedArticlesMembers(d, init, a);
      if exists i :: 0 <= i < |init| && HasTitleAndLink(init[i]) && a == ArticleOf(d, init[i]) {
        var i :| 0 <= i < |init| && HasTitleAndLink(init[i]) && a == ArticleOf(d, init[i]);
        assert entries[i] == init[i];
      }
      if exists i :: 0 <= i < |entries| && HasTitleAndLink(entries[i]) && a == ArticleOf(d, entries[i]) {
        var i :| 0 <= i < |entries| && HasTitleAndLink(entries[i]) && a == ArticleOf(d, entries[i]);
        if i < n {
          assert init[i] == entries[i];
        }
      }
    }
  }

  /** When every entry is well formed, every entry gives its item, in order. */
  lemma {:induction false} FeedArticlesWellFormed(d: Descriptor, entries: seq<Entry>)
    requires AllHaveTitleAndLink(entries)
    ensures |FeedArticles(d, entries)| == |entries|
    ensures forall i :: 0 <= i < |entries| ==> FeedArticles(d, entries)[i] == ArticleOf(d, entries[i])
    decreases |entries|
  {
    if entries != [] {
      var n := |entries| - 1;
      var init := entries[..n];
      var e := entries[n];
      assert entries == init + [e];
      assert AllHaveTitleAndLink(init) by {
        forall i | 0 <= i < |init| ensures HasTitleAndLink(init[i]) {
          assert init[i] == entries[i];
        }
      }
      FeedArticlesSnoc(d, init, e);
      FeedArticlesWellFormed(d, init);
      forall i | 0 <= i < n
        ensures FeedArticles(d, entries)[i] == ArticleOf(d, entries[i])
      {
        assert init[i] == entries[i];
      }
    }
  }

  /** When every entry is well formed the two deployments fetch the same
      articles in the same order: same link, title, source and category.
      They differ only in their placeholders: a missing date is "N/A" in the
      Lambda and "" locally, a falsy language or image is "N/A" in the Lambda
      and NULL locally; the Lambda's items also start with 0 views. */
  lemma {:induction false} VariantsAgreeOnWellFormedFeeds(d: Descriptor, entries: seq<Entry>)
    requires AllHaveTitleAndLink(entries)
    ensures |FeedArticles(d, entries)| == |LocalServer.FeedRecords(d, Parsed(entries))| == |entries|
    ensures forall i :: 0 <= i < |entries| ==>
              var a := FeedArticles(d, entries)[i];
              var r := LocalServer.FeedRecords(d, Parsed(entries))[i];
              && a.link == r.link
              && a.title == r.title
              && a.sourceName == r.sourceName
              && a.category == r.category
              && a.subCategory == Or(r.subCategory, NotAvailable)
              && a.imageUrl == Or(r.imageUrl, NotAvailable)
              && a.publishedAt == (if entries[i].published.Some? then r.publishedAt else NotAvailable)
              && a.viewCount == 0
  {
    FeedArticlesWellFormed(d, entries);
    var records := LocalServer.FeedRecords(d, Parsed(entries));
    forall i | 0 <= i < |entries|
      ensures records[i] == LocalServer.Record(d, entries[i])
    {
    }
  }

  /** One malformed entry empties the local result but costs the Lambda
      only that entry. */
  lemma {:induction false} VariantsDifferOnMalformedEntry(d: Descriptor, before: seq<Entry>, e: Entry, after: seq<Entry>)
    requires !HasTitleAndLink(e)
    ensures LocalServer.FeedRecords(d, Parsed(before + [e] + after)) == []
    ensures FetchResult(d, Parsed(before + [e] + after)) == FeedArticles(d, before) + FeedArticles(d, after)
  {
    var entries := before + [e] + after;
    assert entries[|before|] == e;
    SkipsMalformedEntry(d, before, e, after);
  }

  /** The results of all fetch tasks, in submission order. */
  function FetchResults(tasks: seq<Descriptor>, content: string -> FeedContent): seq<TaskResult<Article>>
  {
    seq(|tasks|, i requires 0 <= i < |tasks| => Returned(FetchResult(tasks[i], content(tasks[i].url))))
  }

  /** Every item is stored under its own link. */
  predicate Valid(items: map<string, Article>)
  {
    forall k :: k in items ==> items[k].link == k
  }

  /** put_item for each article in turn: an item with the same link is
      replaced whole, so the last write wins. The result holds every written
      link and every earlier key. */
  function PutAll(items: map<string, Article>, arts: seq<Article>): (r: map<string, Article>)
    ensures Valid(items) ==> Valid(r)
    ensures items.Keys <= r.Keys
    ensures forall a :: a in arts ==> a.link in r
    decreases |arts|
  {
    if arts == [] then items
    else
      var a := arts[|arts| - 1];
      PutAll(items, arts[..|arts| - 1])[a.link := a]
  }

  lemma {:induction false} PutAllSnoc(items: map<string, Article>, arts: seq<Article>, a: Article)
    ensures PutAll(items, arts + [a]) == PutAll(items, arts)[a.link := a]
  {
    assert (arts + [a])[..|arts|] == arts;
  }

  /** Putting articles in two runs is putting them all at once. */
  lemma {:induction false} PutAllAppend(items: map<string, Article>, a: seq<Article>, b: seq<Article>)
    ensures PutAll(items, a + b) == PutAll(PutAll(items, a), b)
    decreases |b|
  {
    if b == [] {
      assert a + b == a;
    } else {
      var init := b[..|b| - 1];
      var x := b[|b| - 1];
      assert b == init + [x];
      assert a + b == (a + init) + [x];
      PutAllAppend(items, a, init);
      PutAllSnoc(items, a + init, x);
      PutAllSnoc(PutAll(items, a), init, x);
    }
  }

  /** The DynamoDB table `NewsArticles`, keyed by link. */
  class NewsTable {
    var items: map<string, Article>

    /** put_item: creates the item or replaces it whole. */
    method PutItem(a: Article)
      modifies this
      ensures items == old(items)[a.link := a]
    {
      items := items[a.link := a];
    }
  }

  /** The inner loop over one task's articles: each is put and counted. */
  method PutArticles(table: NewsTable, arts: seq<Article>) returns (put: nat)
    modifies table
    ensures table.items == PutAll(old(table.items), arts)
    ensures put == |arts|
  {
    put := 0;
    for j := 0 to |arts|
      invariant table.items == PutAll(old(table.items), arts[..j])
      invariant put == j
    {
      assert arts[..j + 1] == arts[..j] + [arts[j]];
      PutAllSnoc(old(table.items), arts[..j], arts[j]);
      table.PutItem(arts[j]);
      put := put + 1;
    }
    assert arts[..|arts|] == arts;
  }

  /** The loop over the task results inside the batch writer: every article
      is put and counted, whether or not its link was already stored. */
  method StoreResults(table: NewsTable, results: seq<TaskResult<Article>>) returns (count: nat)
    modifies table
    ensures table.items == PutAll(old(table.items), Written(results))
    ensures count == |Written(results)|
  {
    count := 0;
    for i := 0 to |results|
      invariant table.items == PutAll(old(table.items), Written(results[..i]))
      invariant count == |Written(results[..i])|
    {
      assert results[..i + 1] == results[..i] + [results[i]];
      WrittenSnoc(results[..i], results[i]);
      if results[i].Returned? {
        var arts := results[i].articles;
        PutAllAppend(old(table.items), Written(results[..i]), arts);
        var put := PutArticles(table, arts);
        count := count + put;
      } else {
        assert Written(results[..i]) + [] == Written(results[..i]);
      }
    }
    assert results[..|results|] == results;
  }

  /** The submission loop: one fetch per task, results kept in submission order. */
  method FetchAll(tasks: seq<Descriptor>, content: string -> FeedContent)
    returns (results: seq<TaskResult<Article>>)
    ensures results == FetchResults(tasks, content)
  {
    results := [];
    for i := 0 to |tasks|
      invariant |results| == i
      invariant forall j :: 0 <= j < i ==> results[j] == Returned(FetchResult(tasks[j], content(tasks[j].url)))
    {
      var articles := FetchSingleFeed(tasks[i], content(tasks[i].url));
      results := results + [Returned(articles)];
    }
  }

  /** What lambda_handler returns: status 200 and the number of articles processed. */
  datatype Outcome = Outcome(statusCode: int, processed: nat)

  /** lambda_handler: walk the catalog, fetch every feed, put every article
      and report how many were put. */
  method LambdaHandler(table: NewsTable, catalog: seq<Category>, content: string -> FeedContent)
    returns (outcome: Outcome)
    requires WellFormed(catalog)
    modifies table
    ensures outcome.statusCode == 200
    ensures table.items == PutAll(old(table.items), Written(FetchResults(Flatten(catalog), content)))
    ensures outcome.processed == |Written(FetchResults(Flatten(catalog), content))|
  {
    var tasks := CollectDescriptors(catalog);
    var results := FetchAll(tasks, content);
    var count := StoreResults(table, results);
    outcome := Outcome(200, count);
  }

  /** Writing articles over a table is laying the items they alone would
      make over the table's own items. */
  lemma {:induction false} PutAllOverlay(items: map<string, Article>, arts: seq<Article>)
    ensures PutAll(items, arts) == items + PutAll(map[], arts)
    decreases |arts|
  {
    if arts != [] {
      var init := arts[..|arts| - 1];
      var a := arts[|arts| - 1];
      PutAllOverlay(items, init);
      var written := PutAll(map[], init);
      assert (items + written)[a.link := a] == items + written[a.link := a];
    }
  }

  /** The items written by articles alone hold exactly their links, each
      with one of the articles. */
  lemma {:induction false} PutAllFromEmpty(arts: seq<Article>)
    ensures PutAll(map[], arts).Keys == set a | a in arts :: a.link
    ensures forall k :: k in PutAll(map[], arts) ==> PutAll(map[], arts)[k] in arts
    decreases |arts|
  {
    if arts != [] {
      var init := arts[..|arts| - 1];
      PutAllFromEmpty(init);
      forall k | k in PutAll(map[], arts) && k != arts[|arts| - 1].link
        ensures PutAll(map[], arts)[k] in arts
      {
        assert PutAll(map[], init)[k] in init;
      }
    }
  }

  /** An article not overwritten by a later one with the same link is the
      item stored under that link. */
  predicate IsLastWrite(arts: seq<Article>, i: int)
  {
    0 <= i < |arts| && forall j :: i < j < |arts| ==> arts[j].link != arts[i].link
  }

  lemma {:induction false} LastWriteWins(items: map<string, Article>, arts: seq<Article>, i: int)
    requires IsLastWrite(arts, i)
    ensures PutAll(items, arts)[arts[i].link] == arts[i]
    decreases |arts|
  {
    var n := |arts| - 1;
    var init := arts[..n];
    assert arts == init + [arts[n]];
    PutAllSnoc(items, init, arts[n]);
    if i < n {
      assert init[i] == arts[i];
      assert IsLastWrite(init, i) by {
        forall j | i < j < n ensures init[j].link != init[i].link {
          assert init[j] == arts[j];
        }
      }
      LastWriteWins(items, init, i);
    }
  }

  /** Keys that no article names keep their items. */
  lemma {:induction false} PutAllKeepsOthers(items: map<string, Article>, arts: seq<Article>, k: string)
    requires k in items
    requires forall a :: a in arts ==> a.link != k
    ensures PutAll(items, arts)[k] == items[k]
    decreases |arts|
  {
    if arts != [] {
      var init := arts[..|arts| - 1];
      PutAllKeepsOthers(items, init, k);
    }
  }

  /** Writing the same articles twice gives the table writing them once gave. */
  lemma {:induction false} PutAllIdempotent(items: map<string, Article>, arts: seq<Article>)
    ensures PutAll(PutAll(items, arts), arts) == PutAll(items, arts)
  {
    var written := PutAll(map[], arts);
    PutAllOverlay(items, arts);
    PutAllOverlay(items + written, arts);
    assert (items + written) + written == items + written;
  }

  /** Refetching an article that is already stored replaces its item with a
      new one whose view count is 0: the views counted so far are lost,
      where the local deployment keeps them. */
  lemma {:induction false} RefetchResetsViews(items: map<string, Article>, arts: seq<Article>)
    requires forall a :: a in arts ==> a.viewCount == 0
    ensures forall a :: a in arts ==> PutAll(items, arts)[a.link].viewCount == 0
  {
    PutAllOverlay(items, arts);
    PutAllFromEmpty(arts);
    forall a | a in arts
      ensures PutAll(items, arts)[a.link].viewCount == 0
    {
      assert a.link in PutAll(map[], arts);
      assert PutAll(map[], arts)[a.link] in arts;
    }
  }

  /** Every article a run fetches starts with no views. */
  lemma {:induction false} FetchedViewsZero(tasks: seq<Descriptor>, content: string -> FeedContent)
    ensures forall a :: a in Written(FetchResults(tasks, content)) ==> a.viewCount == 0
    decreases |tasks|
  {
    if tasks != [] {
      var n := |tasks| - 1;
      var results := FetchResults(tasks, content);
      FetchedViewsZero(tasks[..n], content);
      assert results == FetchResults(tasks[..n], content) + [results[n]];
      WrittenSnoc(FetchResults(tasks[..n], content), results[n]);
      var feed := content(tasks[n].url);
      assert results[n] == Returned(FetchResult(tasks[n], feed));
      if feed.Parsed? {
        assert FetchResult(tasks[n], feed) == FeedArticles(tasks[n], feed.entries);
      }
    }
  }

  /** After a run every fetched link holds view count 0, whatever it held
      before the run. */
  lemma {:induction false} RunResetsViews(items: map<string, Article>, tasks: seq<Descriptor>,
                                          content: string -> FeedContent)
    ensures forall a :: a in Written(FetchResults(tasks, content)) ==>
              PutAll(items, Written(FetchResults(tasks, content)))[a.link].viewCount == 0
  {
    FetchedViewsZero(tasks, content);
    RefetchResetsViews(items, Written(FetchResults(tasks, content)));
  }

  /** The reported count is every article put, so it never falls below the
      number of items the run added. */
  lemma {:induction false} ProcessedCountBound(items: map<string, Article>, arts: seq<Article>)
    ensures |PutAll(items, arts)| <= |items| + |arts|
    decreases |arts|
  {
    if arts != [] {
      ProcessedCountBound(items, arts[..|arts| - 1]);
    }
  }
}
