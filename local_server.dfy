/** The local deployment: a Flask server that fetches every feed of the
    catalog into a SQLite table `articles` whose `link` column is UNIQUE,
    lists the table, and counts views by row id. */
module LocalServer {
  import opened Common
  import opened Catalog
  import opened Feed

  /** The tuple fetch_single_feed builds, in the column order of the INSERT:
      (title, link, publishedAt, sourceName, category, sub_category, imageUrl).
      `None` stands for Python's None, stored as NULL. */
  datatype LocalArticle = LocalArticle(
    title: string,
    link: string,
    publishedAt: string,
    sourceName: string,
    category: string,
    subCategory: Option<string>,
    imageUrl: Option<string>)

  function Record(d: Descriptor, e: Entry): LocalArticle
    requires HasTitleAndLink(e)
  {
    LocalArticle(e.title.value, e.link.value, if e.published.Some? then e.published.value else "",
                 d.name, d.category, d.subCategory, ImageUrl(e))
  }

  /** What fetch_single_feed returns for one feed. Reading `entry.title` or
      `entry.link` of an entry that lacks it raises, and the handler turns
      any exception into [], so one malformed entry empties the whole feed. */
  function FeedRecords(d: Descriptor, feed: FeedContent): seq<LocalArticle>
  {
    match feed
    case FetchFailed => []
    case Parsed(entries) =>
      if AllHaveTitleAndLink(entries)
      then seq(|entries|, i requires 0 <= i < |entries| => Record(d, entries[i]))
      else []
  }

  method FetchSingleFeed(d: Descriptor, feed: FeedContent) returns (articles: seq<LocalArticle>)
    ensures articles == FeedRecords(d, feed)
    ensures feed.FetchFailed? ==> articles == []
    ensures feed.Parsed? && !AllHaveTitleAndLink(feed.entries) ==> articles == []
    ensures feed.Parsed? && AllHaveTitleAndLink(feed.entries) ==>
              |articles| == |feed.entries| &&
              forall i :: 0 <= i < |articles| ==>
                var e := feed.entries[i];
                && articles[i].title == e.title.value
                && articles[i].link == e.link.value
                && articles[i].publishedAt == (if e.published.Some? then e.published.value else "")
                && articles[i].sourceName == d.name
                && articles[i].category == d.category
                && articles[i].subCategory == d.subCategory
                && articles[i].imageUrl == ImageUrl(e)
  {
    if feed.FetchFailed? {
      return [];
    }
    var entries := feed.entries;
    articles := [];
    for i := 0 to |entries|
      invariant forall j :: 0 <= j < i ==> HasTitleAndLink(entries[j])
      invariant |articles| == i
      invariant forall j :: 0 <= j < i ==> articles[j] == Record(d, entries[j])
    {
      var entry := entries[i];
      var image := FindImageUrl(entry);
      if entry.title.None? || entry.link.None? {
        // the attribute access raises; the handler returns []
        return [];
      }
      var published := if entry.published.Some? then entry.published.value else "";
      articles := articles + [LocalArticle(entry.title.value, entry.link.value, published,
                                           d.name, d.category, d.subCategory, image)];
    }
  }

  /** A row of `articles`: the AUTOINCREMENT id, the inserted tuple and the view count. */
  datatype Row = Row(id: int, article: LocalArticle, viewCount: int)

  /** The table's rows by id, and the id the next insert receives. */
  datatype Table = Table(rows: map<int, Row>, nextId: int)

  /** Ids are positive, below the next id and stored in their rows, view
      counts are not negative, and no two rows share a link (UNIQUE). */
  predicate Valid(t: Table)
  {
    && 1 <= t.nextId
    && (forall id :: id in t.rows ==> 1 <= id < t.nextId && t.rows[id].id == id && t.rows[id].viewCount >= 0)
    && (forall i, j :: i in t.rows && j in t.rows && t.rows[i].article.link == t.rows[j].article.link ==> i == j)
  }

  predicate LinkTaken(t: Table, link: string)
  {
    exists id :: id in t.rows && t.rows[id].article.link == link
  }

  datatype Insertion = Insertion(table: Table, inserted: bool)

  /** INSERT into `articles`: a new link gets a row with the next id and
      viewCount 0 (the column default); a link already stored raises
      IntegrityError, which the write loop ignores, so the table is unchanged. */
  function InsertOrSkip(t: Table, a: LocalArticle): (r: Insertion)
    ensures Valid(t) ==> Valid(r.table)
    ensures r.inserted <==> !LinkTaken(t, a.link)
    ensures LinkTaken(r.table, a.link)
    ensures Valid(t) ==> forall id :: id in t.rows ==> id in r.table.rows && r.table.rows[id] == t.rows[id]
    ensures Valid(t) ==> |r.table.rows| == |t.rows| + (if r.inserted then 1 else 0)
  {
    if LinkTaken(t, a.link) then Insertion(t, false)
    else
      var rows := t.rows[t.nextId := Row(t.nextId, a, 0)];
      assert rows[t.nextId].article.link == a.link;
      assert Valid(t) ==> t.nextId !in t.rows;
      Insertion(Table(rows, t.nextId + 1), true)
  }

  datatype Stored = Stored(table: Table, count: nat)

  /** The write loop over the articles of all tasks: each is inserted or
      skipped in turn, and the count grows by one per inserted row. */
  function StoreArticles(t: Table, arts: seq<LocalArticle>): (r: Stored)
    ensures Valid(t) ==> Valid(r.table)
    ensures r.count <= |arts|
    ensures r.table.nextId == t.nextId + r.count
    decreases |arts|
  {
    if arts == [] then Stored(t, 0)
    else
      var before := StoreArticles(t, arts[..|arts| - 1]);
      var ins := InsertOrSkip(before.table, arts[|arts| - 1]);
      Stored(ins.table, if ins.inserted then before.count + 1 else before.count)
  }

  lemma {:induction false} StoreArticlesSnoc(t: Table, arts: seq<LocalArticle>, a: LocalArticle)
    ensures StoreArticles(t, arts + [a])
            == var before := StoreArticles(t, arts);
               var ins := InsertOrSkip(before.table, a);
               Stored(ins.table, if ins.inserted then before.count + 1 else before.count)
  {
    assert (arts + [a])[..|arts|] == arts;
  }

  /** The results of all fetch tasks, in submission order. */
  function FetchResults(tasks: seq<Descriptor>, content: string -> FeedContent): seq<TaskResult<LocalArticle>>
  {
    seq(|tasks|, i requires 0 <= i < |tasks| => Returned(FeedRecords(tasks[i], content(tasks[i].url))))
  }

  /** The SQLite database file, reduced to its `articles` table. */
  class Database {
    var rows: map<int, Row>
    var nextId: int

    function State(): Table
      reads this
    {
      Table(rows, nextId)
    }

    /** An empty `articles` table, as init_db creates it. */
    constructor ()
      ensures State() == Table(map[], 1)
      ensures Valid(State())
    {
      rows := map[];
      nextId := 1;
    }

    /** The INSERT statement of the write loop. */
    method Insert(a: LocalArticle) returns (inserted: bool)
      requires Valid(State())
      modifies this
      ensures Valid(State())
      ensures Insertion(State(), inserted) == InsertOrSkip(old(State()), a)
    {
      if exists id :: id in rows && rows[id].article.link == a.link {
        inserted := false;
      } else {
        rows := rows[nextId := Row(nextId, a, 0)];
        nextId := nextId + 1;
        inserted := true;
      }
    }

    /** `UPDATE articles SET viewCount = viewCount + 1 WHERE id = ?`. */
    method UpdateViewCount(id: int)
      requires Valid(State())
      modifies this
      ensures Valid(State())
      ensures State() == IncrementView(old(State()), id)
    {
      if id in rows {
        rows := rows[id := rows[id].(viewCount := rows[id].viewCount + 1)];
      }
    }
  }

  /** The inner loop over one task's articles: each is inserted or
      skipped, and the result counts the inserted ones. */
  method InsertAll(db: Database, arts: seq<LocalArticle>) returns (added: nat)
    requires Valid(db.State())
    modifies db
    ensures Valid(db.State())
    ensures Stored(db.State(), added) == StoreArticles(old(db.State()), arts)
  {
    added := 0;
    for j := 0 to |arts|
      invariant Valid(db.State())
      invariant Stored(db.State(), added) == StoreArticles(old(db.State()), arts[..j])
    {
      assert arts[..j + 1] == arts[..j] + [arts[j]];
      StoreArticlesSnoc(old(db.State()), arts[..j], arts[j]);
      var inserted := db.Insert(arts[j]);
      if inserted {
        added := added + 1;
      }
    }
    assert arts[..|arts|] == arts;
  }

  /** The loop over the task results: every article is inserted or skipped,
      and a task whose result raised is passed over. */
  method StoreResults(db: Database, results: seq<TaskResult<LocalArticle>>) returns (count: nat)
    requires Valid(db.State())
    modifies db
    ensures Valid(db.State())
    ensures Stored(db.State(), count) == StoreArticles(old(db.State()), Written(results))
  {
    count := 0;
    for i := 0 to |results|
      invariant Valid(db.State())
      invariant Stored(db.State(), count) == StoreArticles(old(db.State()), Written(results[..i]))
    {
      assert results[..i + 1] == results[..i] + [results[i]];
      WrittenSnoc(results[..i], results[i]);
      if results[i].Returned? {
        var arts := results[i].articles;
        ghost var first := StoreArticles(old(db.State()), Written(results[..i]));
        assert first == Stored(db.State(), count);
        var added := InsertAll(db, arts);
        StoreArticlesAppend(old(db.State()), Written(results[..i]), arts);
        assert Stored(db.State(), added) == StoreArticles(first.table, arts);
        count := count + added;
        assert Stored(db.State(), count) == StoreArticles(old(db.State()), Written(results[..i]) + arts);
        assert Written(results[..i + 1]) == Written(results[..i]) + arts;
      } else {
        // the exception is caught and logged; the loop goes on with the next task
        assert Written(results[..i]) + [] == Written(results[..i]);
      }
    }
    assert results[..|results|] == results;
  }

  /** Writing articles in two runs is writing them all at once: the second
      run starts from the table the first left, and the counts add up. */
  lemma {:induction false} StoreArticlesAppend(t: Table, a: seq<LocalArticle>, b: seq<LocalArticle>)
    ensures StoreArticles(t, a + b)
            == var first := StoreArticles(t, a);
               var second := StoreArticles(first.table, b);
               Stored(second.table, first.count + second.count)
    decreases |b|
  {
    if b == [] {
      assert a + b == a;
    } else {
      var init := b[..|b| - 1];
      var x := b[|b| - 1];
      assert b == init + [x];
      assert a + b == (a + init) + [x];
      StoreArticlesAppend(t, a, init);
      StoreArticlesSnoc(t, a + init, x);
      StoreArticlesSnoc(StoreArticles(t, a).table, init, x);
    }
  }

  /** fetch_and_store_news: walk the catalog, fetch every feed, write the
      results in submission order and return the number of new rows. */
  method FetchAndStoreNews(db: Database, catalog: seq<Category>, content: string -> FeedContent)
    returns (count: nat)
    requires WellFormed(catalog)
    requires Valid(db.State())
    modifies db
    ensures Valid(db.State())
    ensures Stored(db.State(), count)
            == StoreArticles(old(db.State()), Written(FetchResults(Flatten(catalog), content)))
  {
    var tasks := CollectDescriptors(catalog);
    var results := FetchAll(tasks, content);
    count := StoreResults(db, results);
  }

  /** The submission loop: one fetch per task, results kept in submission order. */
  method FetchAll(tasks: seq<Descriptor>, content: string -> FeedContent)
    returns (results: seq<TaskResult<LocalArticle>>)
    ensures results == FetchResults(tasks, content)
  {
    results := [];
    for i := 0 to |tasks|
      invariant |results| == i
      invariant forall j :: 0 <= j < i ==> results[j] == Returned(FeedRecords(tasks[j], content(tasks[j].url)))
    {
      var articles := FetchSingleFeed(tasks[i], content(tasks[i].url));
      results := results + [Returned(articles)];
    }
  }

  /** First write wins: the write loop keeps the invariant, leaves every
      existing row (and its view count) as it was, and adds only rows with
      view count 0 holding one of the written articles. */
  lemma {:induction false} StoreArticlesKeepsRows(t: Table, arts: seq<LocalArticle>)
    requires Valid(t)
    ensures Valid(StoreArticles(t, arts).table)
    ensures forall id :: id in t.rows ==>
              id in StoreArticles(t, arts).table.rows && StoreArticles(t, arts).table.rows[id] == t.rows[id]
    ensures forall id :: id in StoreArticles(t, arts).table.rows && id !in t.rows ==>
              StoreArticles(t, arts).table.rows[id].viewCount == 0
              && StoreArticles(t, arts).table.rows[id].article in arts
    decreases |arts|
  {
    if arts != [] {
      var init := arts[..|arts| - 1];
      StoreArticlesKeepsRows(t, init);
      var before := StoreArticles(t, init).table;
      var after := StoreArticles(t, arts).table;
      forall id | id in after.rows && id !in t.rows
        ensures after.rows[id].viewCount == 0 && after.rows[id].article in arts
      {
        if id in before.rows {
          assert after.rows[id] == before.rows[id];
          assert before.rows[id].article in init;
        }
      }
    }
  }

  /** First write wins within a run: an article whose link is not yet
      stored and not written earlier in the run gets a row holding exactly
      it, and later articles with the same link do not replace it. */
  lemma {:induction false} FirstWriteWins(t: Table, arts: seq<LocalArticle>, i: int)
    requires Valid(t)
    requires 0 <= i < |arts|
    requires !LinkTaken(t, arts[i].link)
    requires forall j :: 0 <= j < i ==> arts[j].link != arts[i].link
    ensures exists id :: id in StoreArticles(t, arts).table.rows && StoreArticles(t, arts).table.rows[id].article == arts[i]
    ensures forall id :: (id in StoreArticles(t, arts).table.rows
                          && StoreArticles(t, arts).table.rows[id].article.link == arts[i].link) ==>
                         StoreArticles(t, arts).table.rows[id].article == arts[i]
    decreases |arts|
  {
    var n := |arts| - 1;
    var init := arts[..n];
    var before := StoreArticles(t, init).table;
    var after := StoreArticles(t, arts).table;
    var id0: int;
    if i < n {
      assert init[i] == arts[i];
      forall j | 0 <= j < i ensures init[j].link != init[i].link {
        assert init[j] == arts[j];
      }
      FirstWriteWins(t, init, i);
      id0 :| id0 in before.rows && before.rows[id0].article == arts[i];
    } else {
      StoreArticlesKeepsRows(t, init);
      id0 := before.nextId;
    }
    assert after.rows[id0].article == arts[i];
  }

  /** The returned count is the number of new rows, never more than the
      number of articles fetched. */
  lemma {:induction false} StoreArticlesCount(t: Table, arts: seq<LocalArticle>)
    requires Valid(t)
    ensures StoreArticles(t, arts).count == |StoreArticles(t, arts).table.rows| - |t.rows|
    ensures StoreArticles(t, arts).count <= |arts|
    decreases |arts|
  {
    if arts != [] {
      StoreArticlesCount(t, arts[..|arts| - 1]);
      StoreArticlesKeepsRows(t, arts[..|arts| - 1]);
    }
  }

  /** After the write loop every written link is stored. */
  lemma {:induction false} StoreArticlesCoversLinks(t: Table, arts: seq<LocalArticle>)
    requires Valid(t)
    ensures forall i :: 0 <= i < |arts| ==> LinkTaken(StoreArticles(t, arts).table, arts[i].link)
    decreases |arts|
  {
    if arts != [] {
      var init := arts[..|arts| - 1];
      StoreArticlesCoversLinks(t, init);
      StoreArticlesKeepsRows(t, init);
      var before := StoreArticles(t, init).table;
      var after := StoreArticles(t, arts).table;
      forall i | 0 <= i < |arts| - 1
        ensures LinkTaken(after, arts[i].link)
      {
        assert init[i] == arts[i];
        var id :| id in before.rows && before.rows[id].article.link == arts[i].link;
        assert after.rows[id] == before.rows[id];
      }
    }
  }

  /** Writing articles whose links are all stored changes nothing and counts 0. */
  lemma {:induction false} StoreArticlesAllTaken(t: Table, arts: seq<LocalArticle>)
    requires forall i :: 0 <= i < |arts| ==> LinkTaken(t, arts[i].link)
    ensures StoreArticles(t, arts) == Stored(t, 0)
    decreases |arts|
  {
    if arts != [] {
      var init := arts[..|arts| - 1];
      forall i | 0 <= i < |init| ensures LinkTaken(t, init[i].link) {
        assert init[i] == arts[i];
      }
      StoreArticlesAllTaken(t, init);
    }
  }

  /** Re-running the write loop with the same articles adds no row and
      returns 0: fetching identical feeds twice is idempotent. */
  lemma {:induction false} RefetchAddsNothing(t: Table, arts: seq<LocalArticle>)
    requires Valid(t)
    ensures StoreArticles(StoreArticles(t, arts).table, arts) == Stored(StoreArticles(t, arts).table, 0)
  {
    StoreArticlesCoversLinks(t, arts);
    StoreArticlesAllTaken(StoreArticles(t, arts).table, arts);
  }

  /** The row with this id, if any, gains one view; nothing else changes. */
  function IncrementView(t: Table, id: int): (r: Table)
    ensures Valid(t) ==> Valid(r)
    ensures r.rows.Keys == t.rows.Keys && r.nextId == t.nextId
    ensures forall k :: k in t.rows ==>
              r.rows[k] == if k == id then t.rows[k].(viewCount := t.rows[k].viewCount + 1) else t.rows[k]
  {
    if id in t.rows then Table(t.rows[id := t.rows[id].(viewCount := t.rows[id].viewCount + 1)], t.nextId)
    else t
  }

  function IncrementTimes(t: Table, id: int, n: nat): Table
  {
    if n == 0 then t else IncrementView(IncrementTimes(t, id, n - 1), id)
  }

  /** The UPDATE adds one atomically, so n views of a stored id raise its
      count by exactly n and leave every other row alone. */
  lemma {:induction false} ViewsAddUp(t: Table, id: int, n: nat)
    requires id in t.rows
    ensures IncrementTimes(t, id, n).rows.Keys == t.rows.Keys
    ensures IncrementTimes(t, id, n).rows[id] == t.rows[id].(viewCount := t.rows[id].viewCount + n)
    ensures forall k :: k in t.rows && k != id ==> IncrementTimes(t, id, n).rows[k] == t.rows[k]
  {
    if n > 0 {
      ViewsAddUp(t, id, n - 1);
    }
  }

  /** Python falsiness of the request's articleId: missing, null or 0. */
  predicate Falsy(articleId: Option<int>)
  {
    articleId.None? || articleId.value == 0
  }

  /** track_view: a falsy id is refused with 400; otherwise the UPDATE runs
      and reports 200 whether or not a row has that id; a database error
      reports 500 and commits nothing. */
  method TrackView(db: Database, articleId: Option<int>, storeFails: bool) returns (status: int)
    requires Valid(db.State())
    modifies db
    ensures Valid(db.State())
    ensures Falsy(articleId) ==> status == 400 && db.State() == old(db.State())
    ensures !Falsy(articleId) && storeFails ==> status == 500 && db.State() == old(db.State())
    ensures !Falsy(articleId) && !storeFails ==>
              status == 200 && db.State() == IncrementView(old(db.State()), articleId.value)
  {
    if Falsy(articleId) {
      return 400;
    }
    if storeFails {
      return 500;
    }
    db.UpdateViewCount(articleId.value);
    status := 200;
  }

  /** `articles` lists every row of `rows` exactly once. */
  predicate ListsEachRowOnce(articles: seq<Row>, rows: map<int, Row>)
  {
    && (forall i :: 0 <= i < |articles| ==> articles[i].id in rows && rows[articles[i].id] == articles[i])
    && (forall i, j :: 0 <= i < j < |articles| ==> articles[i].id != articles[j].id)
    && (forall id :: id in rows ==> exists i :: 0 <= i < |articles| && articles[i].id == id)
  }

  /** The rows at the listed ids, in list order. */
  function RowsAt(rows: map<int, Row>, ids: seq<int>): seq<Row>
    requires forall i :: 0 <= i < |ids| ==> ids[i] in rows
  {
    seq(|ids|, i requires 0 <= i < |ids| => rows[ids[i]])
  }

  /** Reading the rows at a listing of all ids, each once, lists every row once. */
  lemma {:induction false} RowsAtListsEachRowOnce(rows: map<int, Row>, ids: seq<int>)
    requires forall id :: id in rows ==> rows[id].id == id
    requires forall i, j :: 0 <= i < j < |ids| ==> ids[i] != ids[j]
    requires forall i :: 0 <= i < |ids| ==> ids[i] in rows
    requires forall id :: id in rows ==> id in ids
    ensures ListsEachRowOnce(RowsAt(rows, ids), rows)
  {
    var articles := RowsAt(rows, ids);
    forall id | id in rows
      ensures exists i :: 0 <= i < |articles| && articles[i].id == id
    {
      var i :| 0 <= i < |ids| && ids[i] == id;
      assert articles[i].id == id;
    }
  }

  /** get_news: every row, each once, in an order the shuffle leaves open. */
  method GetNews(db: Database) returns (articles: seq<Row>)
    requires Valid(db.State())
    ensures ListsEachRowOnce(articles, db.rows)
    ensures |articles| == |db.rows|
  {
    var rows := db.rows;
    var ids := ListElements(rows.Keys);
    articles := RowsAt(rows, ids);
    RowsAtListsEachRowOnce(rows, ids);
  }
}
