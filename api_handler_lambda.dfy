/** The AWS deployment's API: a Lambda function behind API Gateway that
    lists the articles of the DynamoDB table, most viewed first, and counts
    a view of one article by its link. */
module ApiHandler {
  import opened Common
  import FetchNewsLambda

  /** An item as Scan returns it: its link (the partition key), its
      viewCount attribute when present, and its other attributes. */
  datatype Item = Item(link: string, viewCount: Option<int>, attributes: map<string, string>)

  /** The sort key `x.get('viewCount', 0)`. */
  function Views(it: Item): int
  {
    if it.viewCount.Some? then it.viewCount.value else 0
  }

  /** Every item is stored under its own link. */
  predicate Valid(items: map<string, Item>)
  {
    forall k :: k in items ==> items[k].link == k
  }

  /** The JSON bodies the handler sends. */
  datatype Payload = ErrorMessage(error: string) | Articles(items: seq<Item>) | Success

  datatype Response = Response(statusCode: int, headers: map<string, string>, body: Payload)

  const NotFound: string := "Not Found"
  const RetrieveFailed: string := "Could not retrieve news articles."
  const LinkRequired: string := "articleLink is required."
  const UpdateFailed: string := "Could not update view count."

  /** The CORS headers every response carries. */
  const CorsHeaders: map<string, string> := map[
    "Access-Control-Allow-Origin" := "*",
    "Access-Control-Allow-Headers" := "Content-Type",
    "Access-Control-Allow-Methods" := "OPTIONS,POST,GET"]

  /** create_response: the status and body given, with the CORS headers that
      let any origin call GET, POST and OPTIONS. */
  function CreateResponse(statusCode: int, body: Payload): (r: Response)
    ensures r.statusCode == statusCode && r.body == body
    ensures r.headers == CorsHeaders
    ensures "Access-Control-Allow-Origin" in r.headers && r.headers["Access-Control-Allow-Origin"] == "*"
  {
    Response(statusCode, CorsHeaders, body)
  }

  // Routing

  datatype Route = GetNewsRoute | TrackViewRoute | NotFoundRoute

  /** The handler for `event.get('httpMethod')` and `event.get('path')`:
      only GET /news and POST /track-view are served. */
  function RouteOf(httpMethod: Option<string>, path: Option<string>): (r: Route)
    ensures r == GetNewsRoute <==> httpMethod == Some("GET") && path == Some("/news")
    ensures r == TrackViewRoute <==> httpMethod == Some("POST") && path == Some("/track-view")
  {
    if httpMethod == Some("GET") && path == Some("/news") then GetNewsRoute
    else if httpMethod == Some("POST") && path == Some("/track-view") then TrackViewRoute
    else NotFoundRoute
  }

  // Sorting by view count, descending and stable

  predicate SortedByViews(s: seq<Item>)
  {
    forall i, j :: 0 <= i < j < |s| ==> Views(s[i]) >= Views(s[j])
  }

  /** Places `x` after every leading element with at least as many views. */
  function InsertByViews(x: Item, s: seq<Item>): (r: seq<Item>)
    ensures multiset(r) == multiset(s) + multiset{x}
    decreases |s|
  {
    if s == [] then [x]
    else
      assert s == [s[0]] + s[1..];
      if Views(s[0]) >= Views(x) then [s[0]] + InsertByViews(x, s[1..])
      else [x] + s
  }

  /** `articles.sort(key=lambda x: x.get('viewCount', 0), reverse=True)`:
      Python's sort is stable, also in reverse, so the result is the
      insertion of each item, in scan order, after all items placed before
      it with at least as many views. */
  function SortByViews(s: seq<Item>): (r: seq<Item>)
    ensures multiset(r) == multiset(s)
    decreases |s|
  {
    if s == [] then []
    else
      assert s == s[..|s| - 1] + [s[|s| - 1]];
      InsertByViews(s[|s| - 1], SortByViews(s[..|s| - 1]))
  }

  /** An item with at least the views of every item of a sorted sequence
      can lead it. */
  lemma {:induction false} SortedCons(y: Item, r: seq<Item>)
    requires SortedByViews(r) && AllAtMost(r, Views(y))
    ensures SortedByViews([y] + r)
  {
    var yr := [y] + r;
    forall i, j | 0 <= i < j < |yr|
      ensures Views(yr[i]) >= Views(yr[j])
    {
      assert yr[j] == r[j - 1];
      if i > 0 {
        assert yr[i] == r[i - 1];
      }
    }
  }

  lemma {:induction false} SortedTail(s: seq<Item>)
    requires s != [] && SortedByViews(s)
    ensures SortedByViews(s[1..])
    ensures AllAtMost(s, Views(s[0]))
  {
    forall i, j | 0 <= i < j < |s| - 1
      ensures Views(s[1..][i]) >= Views(s[1..][j])
    {
      assert s[1..][i] == s[i + 1] && s[1..][j] == s[j + 1];
    }
  }

  predicate AllAtMost(s: seq<Item>, bound: int)
  {
    forall i :: 0 <= i < |s| ==> Views(s[i]) <= bound
  }

  lemma {:induction false} AllAtMostCons(y: Item, r: seq<Item>, bound: int)
    requires Views(y) <= bound && AllAtMost(r, bound)
    ensures AllAtMost([y] + r, bound)
  {
    var yr := [y] + r;
    forall i | 0 <= i < |yr| ensures Views(yr[i]) <= bound {
      if i > 0 {
        assert yr[i] == r[i - 1];
      }
    }
  }

  lemma {:induction false} AllAtMostTail(s: seq<Item>, bound: int)
    requires s != [] && AllAtMost(s, bound)
    ensures AllAtMost(s[1..], bound)
  {
    forall i | 0 <= i < |s| - 1 ensures Views(s[1..][i]) <= bound {
      assert s[1..][i] == s[i + 1];
    }
  }

  /** Insertion brings in no item with more views than the bound. */
  lemma {:induction false} InsertByViewsBound(x: Item, s: seq<Item>, bound: int)
    requires Views(x) <= bound && AllAtMost(s, bound)
    ensures AllAtMost(InsertByViews(x, s), bound)
    decreases |s|
  {
    if s == [] {
      assert InsertByViews(x, s) == [x] + s;
    } else if Views(s[0]) >= Views(x) {
      AllAtMostTail(s, bound);
      InsertByViewsBound(x, s[1..], bound);
      AllAtMostCons(s[0], InsertByViews(x, s[1..]), bound);
    } else {
      AllAtMostCons(x, s, bound);
    }
  }

  lemma {:induction false} InsertByViewsSorted(x: Item, s: seq<Item>)
    requires SortedByViews(s)
    ensures SortedByViews(InsertByViews(x, s))
    decreases |s|
  {
    if s == [] {
      assert InsertByViews(x, s) == [x];
    } else {
      SortedTail(s);
      if Views(s[0]) >= Views(x) {
        InsertByViewsSorted(x, s[1..]);
        InsertByViewsBound(x, s[1..], Views(s[0]));
        SortedCons(s[0], InsertByViews(x, s[1..]));
      } else {
        SortedCons(x, s);
      }
    }
  }

  /** The listing is ordered by view count, most viewed first. */
  lemma {:induction false} SortByViewsSorted(s: seq<Item>)
    ensures SortedByViews(SortByViews(s))
    decreases |s|
  {
    if s != [] {
      SortByViewsSorted(s[..|s| - 1]);
      InsertByViewsSorted(s[|s| - 1], SortByViews(s[..|s| - 1]));
    }
  }

  /** The items of `s` with exactly `k` views, in their order in `s`. */
  function WithViews(s: seq<Item>, k: int): seq<Item>
    decreases |s|
  {
    if s == [] then []
    else (if Views(s[0]) == k then [s[0]] else []) + WithViews(s[1..], k)
  }

  lemma {:induction false} WithViewsAppend(s: seq<Item>, t: seq<Item>, k: int)
    ensures WithViews(s + t, k) == WithViews(s, k) + WithViews(t, k)
    decreases |s|
  {
    if s == [] {
      assert s + t == t;
    } else {
      var head := if Views(s[0]) == k then [s[0]] else [];
      calc {
        WithViews(s + t, k);
        { assert (s + t)[0] == s[0]; assert (s + t)[1..] == s[1..] + t; }
        head + WithViews(s[1..] + t, k);
        { WithViewsAppend(s[1..], t, k); }
        head + (WithViews(s[1..], k) + WithViews(t, k));
        { AppendAssoc(head, WithViews(s[1..], k), WithViews(t, k)); }
        WithViews(s, k) + WithViews(t, k);
      }
    }
  }

  lemma {:induction false} WithViewsNone(s: seq<Item>, k: int)
    requires forall i :: 0 <= i < |s| ==> Views(s[i]) != k
    ensures WithViews(s, k) == []
    decreases |s|
  {
    if s != [] {
      WithViewsNone(s[1..], k);
    }
  }

  lemma {:induction false} WithViewsCons(y: Item, r: seq<Item>, k: int)
    ensures WithViews([y] + r, k) == (if Views(y) == k then [y] else []) + WithViews(r, k)
  {
    assert ([y] + r)[0] == y;
    assert ([y] + r)[1..] == r;
  }

  /** Inserting into a sorted sequence puts `x` after every item with its
      own view count. */
  lemma {:induction false} InsertByViewsStable(x: Item, s: seq<Item>, k: int)
    requires SortedByViews(s)
    ensures WithViews(InsertByViews(x, s), k) == WithViews(s, k) + (if Views(x) == k then [x] else [])
    decreases |s|
  {
    var tail := if Views(x) == k then [x] else [];
    if s == [] {
      assert InsertByViews(x, s) == [x];
      WithViewsSingle(x, k);
      assert [] + tail == tail;
    } else {
      SortedTail(s);
      var head := if Views(s[0]) == k then [s[0]] else [];
      if Views(s[0]) >= Views(x) {
        calc {
          WithViews(InsertByViews(x, s), k);
          { WithViewsCons(s[0], InsertByViews(x, s[1..]), k); }
          head + WithViews(InsertByViews(x, s[1..]), k);
          { InsertByViewsStable(x, s[1..], k); }
          head + (WithViews(s[1..], k) + tail);
          { AppendAssoc(head, WithViews(s[1..], k), tail); }
          WithViews(s, k) + tail;
        }
      } else {
        WithViewsCons(x, s, k);
        if Views(x) == k {
          WithViewsNone(s, k);
          assert [x] + [] == [] + [x];
        } else {
          assert [] + WithViews(s, k) == WithViews(s, k) + [];
        }
      }
    }
  }

  /** Items with equal view counts keep their scan order: for every count,
      the items with that count appear in the listing as they did in the scan. */
  lemma {:induction false} SortByViewsStable(s: seq<Item>, k: int)
    ensures WithViews(SortByViews(s), k) == WithViews(s, k)
    decreases |s|
  {
    if s != [] {
      var init := s[..|s| - 1];
      var x := s[|s| - 1];
      var sorted := SortByViews(init);
      var tail := if Views(x) == k then [x] else [];
      calc {
        WithViews(SortByViews(s), k);
        WithViews(InsertByViews(x, sorted), k);
        { SortByViewsSorted(init); InsertByViewsStable(x, sorted, k); }
        WithViews(sorted, k) + tail;
        { SortByViewsStable(init, k); }
        WithViews(init, k) + tail;
        { WithViewsAppend(init, [x], k); WithViewsSingle(x, k); }
        WithViews(init + [x], k);
        { assert s == init + [x]; }
        WithViews(s, k);
      }
    }
  }

  lemma {:induction false} WithViewsSingle(x: Item, k: int)
    ensures WithViews([x], k) == if Views(x) == k then [x] else []
  {
    assert [x][1..] == [];
  }

  // The table

  /** `items` as a Scan lists it: every stored item exactly once. */
  predicate ListsEachItemOnce(scanned: seq<Item>, items: map<string, Item>)
  {
    && (forall i :: 0 <= i < |scanned| ==> scanned[i].link in items && items[scanned[i].link] == scanned[i])
    && (forall i, j :: 0 <= i < j < |scanned| ==> scanned[i].link != scanned[j].link)
    && (forall k :: k in items ==> exists i :: 0 <= i < |scanned| && scanned[i].link == k)
  }

  /** `SET viewCount = viewCount + 1` on the item with this key. DynamoDB
      refuses the expression when the item, or its viewCount attribute, does
      not exist, so the update fails and nothing is written. */
  function AddView(items: map<string, Item>, link: string): (r: Option<map<string, Item>>)
    ensures r.Some? <==> link in items && items[link].viewCount.Some?
    ensures r.Some? ==>
              && r.value.Keys == items.Keys
              && r.value[link].viewCount == Some(Views(items[link]) + 1)
              && r.value[link].link == items[link].link
              && r.value[link].attributes == items[link].attributes
              && forall k :: k in items && k != link ==> r.value[k] == items[k]
    ensures r.Some? && Valid(items) ==> Valid(r.value)
  {
    if link in items && items[link].viewCount.Some? then
      var it := items[link];
      Some(items[link := it.(viewCount := Some(it.viewCount.value + 1))])
    else None
  }

  function AddViews(items: map<string, Item>, link: string, n: nat): Option<map<string, Item>>
  {
    if n == 0 then Some(items)
    else
      match AddViews(items, link, n - 1)
      case None => None
      case Some(m) => AddView(m, link)
  }

  /** Each update adds one atomically: n views of a stored item with a view
      count raise it by exactly n and leave every other item alone. */
  lemma {:induction false} ViewsAddUp(items: map<string, Item>, link: string, n: nat)
    requires link in items && items[link].viewCount.Some?
    ensures AddViews(items, link, n).Some?
    ensures AddViews(items, link, n).value.Keys == items.Keys
    ensures AddViews(items, link, n).value[link].viewCount == Some(Views(items[link]) + n)
    ensures forall k :: k in items && k != link ==> AddViews(items, link, n).value[k] == items[k]
  {
    if n > 0 {
      ViewsAddUp(items, link, n - 1);
    }
  }

  /** The DynamoDB table `NewsArticles` as the API sees it. */
  class ArticleTable {
    var items: map<string, Item>

    /** Scan: every item once, in an order the table does not promise. */
    method Scan() returns (scanned: seq<Item>)
      requires Valid(items)
      ensures ListsEachItemOnce(scanned, items)
    {
      var stored := items;
      var links := ListElements(stored.Keys);
      scanned := seq(|links|, i requires 0 <= i < |links| => stored[links[i]]);
      forall k | k in stored
        ensures exists i :: 0 <= i < |scanned| && scanned[i].link == k
      {
        var i :| 0 <= i < |links| && links[i] == k;
        assert scanned[i].link == k;
      }
    }

    /** update_item with `SET viewCount = viewCount + :val`, `:val` = 1. */
    method UpdateItem(link: string) returns (updated: bool)
      requires Valid(items)
      modifies this
      ensures Valid(items)
      ensures updated <==> AddView(old(items), link).Some?
      ensures updated ==> items == AddView(old(items), link).value
      ensures !updated ==> items == old(items)
    {
      var next := AddView(items, link);
      if next.Some? {
        items := next.value;
        updated := true;
      } else {
        updated := false;
      }
    }
  }

  /** A successful listing: the items of some scan, sorted by views. */
  ghost predicate IsNewsListing(r: Response, items: map<string, Item>)
  {
    && r == CreateResponse(200, r.body)
    && r.body.Articles?
    && exists scanned :: ListsEachItemOnce(scanned, items) && r.body.items == SortByViews(scanned)
  }

  /** A listing holds every stored item once, most viewed first, and items
      with equal counts in their scan order. */
  lemma {:induction false} ListingProperties(r: Response, items: map<string, Item>, scanned: seq<Item>)
    requires ListsEachItemOnce(scanned, items)
    requires r.body == Articles(SortByViews(scanned))
    ensures SortedByViews(r.body.items)
    ensures multiset(r.body.items) == multiset(scanned)
    ensures forall it :: it in r.body.items <==> it in items.Values
    ensures forall k :: WithViews(r.body.items, k) == WithViews(scanned, k)
  {
    SortByViewsSorted(scanned);
    forall k ensures WithViews(r.body.items, k) == WithViews(scanned, k) {
      SortByViewsStable(scanned, k);
    }
    forall it
      ensures it in r.body.items <==> it in items.Values
    {
      assert it in r.body.items <==> it in multiset(scanned);
      if it in items.Values {
        var k :| k in items && items[k] == it;
        var i :| 0 <= i < |scanned| && scanned[i].link == k;
        assert scanned[i] == it;
      }
    }
  }

  /** get_news: scan and sort by views; any failure of the scan answers 500. */
  method GetNews(table: ArticleTable, storeFails: bool) returns (r: Response)
    requires Valid(table.items)
    ensures storeFails ==> r == CreateResponse(500, ErrorMessage(RetrieveFailed))
    ensures !storeFails ==> IsNewsListing(r, table.items)
  {
    if storeFails {
      return CreateResponse(500, ErrorMessage(RetrieveFailed));
    }
    var scanned := table.Scan();
    r := CreateResponse(200, Articles(SortByViews(scanned)));
  }

  /** The body of a POST /track-view request: absent (read as '{}'), not a
      JSON object, or an object whose articleLink may be missing. */
  datatype RequestBody = Absent | Malformed | Object(articleLink: Option<string>)

  function ArticleLink(body: RequestBody): Option<string>
  {
    if body.Object? then body.articleLink else None
  }

  /** What track_view answers and what the table then holds: a body that
      does not parse answers 500; a falsy articleLink answers 400; a failed
      call or refused update answers 500; otherwise one view is added and the
      answer is 200. Only the last case changes the table. */
  ghost predicate TrackedView(before: map<string, Item>, after: map<string, Item>,
                        body: RequestBody, storeFails: bool, r: Response)
  {
    if body.Malformed? then r == CreateResponse(500, ErrorMessage(UpdateFailed)) && after == before
    else if !Truthy(ArticleLink(body)) then r == CreateResponse(400, ErrorMessage(LinkRequired)) && after == before
    else if storeFails then r == CreateResponse(500, ErrorMessage(UpdateFailed)) && after == before
    else
      match AddView(before, ArticleLink(body).value)
      case Some(next) => r == CreateResponse(200, Success) && after == next
      case None => r == CreateResponse(500, ErrorMessage(UpdateFailed)) && after == before
  }

  /** track_view. */
  method TrackView(table: ArticleTable, body: RequestBody, storeFails: bool) returns (r: Response)
    requires Valid(table.items)
    modifies table
    ensures Valid(table.items)
    ensures TrackedView(old(table.items), table.items, body, storeFails, r)
  {
    if body.Malformed? {
      return CreateResponse(500, ErrorMessage(UpdateFailed));
    }
    var link := ArticleLink(body);
    if !Truthy(link) {
      return CreateResponse(400, ErrorMessage(LinkRequired));
    }
    if storeFails {
      return CreateResponse(500, ErrorMessage(UpdateFailed));
    }
    var updated := table.UpdateItem(link.value);
    if updated {
      r := CreateResponse(200, Success);
    } else {
      r := CreateResponse(500, ErrorMessage(UpdateFailed));
    }
  }

  datatype Event = Event(httpMethod: Option<string>, path: Option<string>, body: RequestBody)

  /** lambda_handler: dispatch by method and path; anything else is 404.
      Every response carries the CORS headers. */
  method LambdaHandler(table: ArticleTable, event: Event, storeFails: bool) returns (r: Response)
    requires Valid(table.items)
    modifies table
    ensures Valid(table.items)
    ensures r.headers == CorsHeaders
    ensures RouteOf(event.httpMethod, event.path) == NotFoundRoute ==>
              r == CreateResponse(404, ErrorMessage(NotFound)) && table.items == old(table.items)
    ensures RouteOf(event.httpMethod, event.path) == GetNewsRoute ==>
              table.items == old(table.items)
              && (storeFails ==> r == CreateResponse(500, ErrorMessage(RetrieveFailed)))
              && (!storeFails ==> IsNewsListing(r, table.items))
    ensures RouteOf(event.httpMethod, event.path) == TrackViewRoute ==>
              TrackedView(old(table.items), table.items, event.body, storeFails, r)
  {
    var route := RouteOf(event.httpMethod, event.path);
    if route == GetNewsRoute {
      r := GetNews(table, storeFails);
    } else if route == TrackViewRoute {
      r := TrackView(table, event.body, storeFails);
    } else {
      r := CreateResponse(404, ErrorMessage(NotFound));
    }
  }

  // The fetcher's items as the API reads them

  /** The item put_item stores for a fetched article. */
  function ItemOf(a: FetchNewsLambda.Article): Item
  {
    Item(a.link, Some(a.viewCount), map[
      "title" := a.title,
      "publishedAt" := a.publishedAt,
      "sourceName" := a.sourceName,
      "category" := a.category,
      "sub_category" := a.subCategory,
      "imageUrl" := a.imageUrl])
  }

  function AsItems(stored: map<string, FetchNewsLambda.Article>): map<string, Item>
  {
    map k | k in stored :: ItemOf(stored[k])
  }

  /** After a fetch run every fetched non-empty link can be tracked: a
      track-view request for it answers 200 and makes its count 1, whatever
      it had before the run. (An empty link is answered 400.) */
  lemma {:induction false} FirstViewAfterRefetch(stored: map<string, FetchNewsLambda.Article>, arts: seq<FetchNewsLambda.Article>,
                              a: FetchNewsLambda.Article)
    requires forall b :: b in arts ==> b.viewCount == 0
    requires a in arts
    requires a.link != ""
    ensures AddView(AsItems(FetchNewsLambda.PutAll(stored, arts)), a.link).Some?
    ensures AddView(AsItems(FetchNewsLambda.PutAll(stored, arts)), a.link).value[a.link].viewCount == Some(1)
    ensures forall after: map<string, Item>, r: Response :: TrackedView(AsItems(FetchNewsLambda.PutAll(stored, arts)), after, Object(Some(a.link)), false, r)
              ==> r == CreateResponse(200, Success) && a.link in after && after[a.link].viewCount == Some(1)
  {
    FetchNewsLambda.RefetchResetsViews(stored, arts);
  }
}
