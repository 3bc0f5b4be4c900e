/** The pure steps of the article list endpoint: clamping the paging parameters, the cache
    key, the ordering and paging of the rows, the summary of each row, and the weak ETag with
    its conditional response. */
module Listing {

  import opened Wrappers
  import opened Text
  import opened Decimal
  import opened Database
  import Php

  const BaseKey := "articles.index.optimized.v2"
  const Ttl: nat := 60
  const DefaultPerPage := 20
  const MaxPerPage := 50
  const ExcerptLength := 200
  const CacheControl := "public, max-age=300"

  function Max(a: int, b: int): int { if a >= b then a else b }
  function Min(a: int, b: int): int { if a <= b then a else b }

  // ---------------------------------------------------------------- paging parameters

  datatype Params = Params(page: nat, perPage: nat, offset: nat)

  /** `page` and `per_page` after the integer cast, None when absent. */
  function Clamp(page: Option<int>, perPage: Option<int>): (p: Params)
    ensures p.page >= 1 && 1 <= p.perPage <= MaxPerPage && p.offset == (p.page - 1) * p.perPage
    ensures page.None? ==> p.page == 1
    ensures page.Some? && page.value >= 1 ==> p.page == page.value
    ensures page.Some? && page.value < 1 ==> p.page == 1
    ensures perPage.None? ==> p.perPage == DefaultPerPage
    ensures perPage.Some? && 1 <= perPage.value <= MaxPerPage ==> p.perPage == perPage.value
    ensures perPage.Some? && perPage.value < 1 ==> p.perPage == 1
    ensures perPage.Some? && perPage.value > MaxPerPage ==> p.perPage == MaxPerPage
  {
    var pg := Max(1, page.GetOr(1));
    var pp := Max(1, Min(MaxPerPage, perPage.GetOr(DefaultPerPage)));
    Params(pg, pp, (pg - 1) * pp)
  }

  // ---------------------------------------------------------------- cache key

  /** The key a list page is cached under. */
  function ListKey(page: nat, perPage: nat): (k: string)
    ensures IsPrefix(BaseKey, k) && |k| > |BaseKey|
  {
    BaseKey + ":p=" + NatToString(page) + ":pp=" + NatToString(perPage)
  }

  /** Reads the two numbers back out of a list key. */
  function ParseListKey(k: string): Option<(nat, nat)> {
    var head := BaseKey + ":p=";
    if !IsPrefix(head, k) then None else ParseCounts(k[|head|..])
  }

  /** Reads `<page>:pp=<perPage>`. */
  function ParseCounts(rest: string): Option<(nat, nat)> {
    var d1 := LeadingDigits(rest);
    var tail := rest[|d1|..];
    if d1 == [] || !IsPrefix(":pp=", tail) then None
    else
      var d2 := tail[4..];
      if d2 == [] || !AllDigits(d2) then None else Some((StringToNat(d1), StringToNat(d2)))
  }

  lemma ParseCountsInverse(page: nat, perPage: nat)
    ensures ParseCounts(NatToString(page) + (":pp=" + NatToString(perPage))) == Some((page, perPage))
  {
    var d1, d2 := NatToString(page), NatToString(perPage);
    var rest := d1 + (":pp=" + d2);
    LeadingDigitsOf(d1, ":pp=" + d2);
    assert rest[|d1|..] == ":pp=" + d2;
    assert (":pp=" + d2)[4..] == d2;
    ParseRender(page);
    ParseRender(perPage);
  }

  lemma ParseListKeyInverse(page: nat, perPage: nat)
    ensures ParseListKey(ListKey(page, perPage)) == Some((page, perPage))
  {
    var head := BaseKey + ":p=";
    var rest := NatToString(page) + (":pp=" + NatToString(perPage));
    var k := ListKey(page, perPage);
    assert k == head + rest;
    assert k[..|head|] == head && k[|head|..] == rest;
    ParseCountsInverse(page, perPage);
  }

  /** Distinct paging parameters never share a cache entry. */
  lemma ListKeyInjective(p1: nat, pp1: nat, p2: nat, pp2: nat)
    ensures ListKey(p1, pp1) == ListKey(p2, pp2) <==> p1 == p2 && pp1 == pp2
  {
    ParseListKeyInverse(p1, pp1);
    ParseListKeyInverse(p2, pp2);
  }

  /** Whether a cache key is one that the list endpoint writes. */
  predicate IsListKey(k: string) {
    ParseListKey(k).Some?
  }

  /** Every key the list endpoint writes is recognised as a list key, and none is the bare base key. */
  lemma ListKeyShape(page: nat, perPage: nat)
    ensures IsListKey(ListKey(page, perPage))
    ensures ListKey(page, perPage) != BaseKey
    ensures !IsListKey(BaseKey)
  {
    ParseListKeyInverse(page, perPage);
    assert !IsPrefix(BaseKey + ":p=", BaseKey);
  }

  // ---------------------------------------------------------------- ordering

  /** `a >= b` for nullable timestamps in MySQL's order, where NULL sorts below every value. */
  predicate StampAtLeast(a: Option<int>, b: Option<int>) {
    b.None? || (a.Some? && a.value >= b.value)
  }

  /** Under `ORDER BY published_at DESC, created_at DESC` a row stamped (p1, c1) may come
      before one stamped (p2, c2). */
  predicate ListedBefore(p1: Option<int>, c1: Option<int>, p2: Option<int>, c2: Option<int>) {
    (StampAtLeast(p1, p2) && p1 != p2) || (p1 == p2 && StampAtLeast(c1, c2))
  }

  predicate Precedes(x: Article, y: Article) {
    ListedBefore(x.publishedAt, x.createdAt, y.publishedAt, y.createdAt)
  }

  lemma PrecedesTransitive(x: Article, y: Article, z: Article)
    requires Precedes(x, y) && Precedes(y, z)
    ensures Precedes(x, z)
  {
  }

  predicate Sorted(s: seq<Article>) {
    forall i, j :: 0 <= i < j < |s| ==> Precedes(s[i], s[j])
  }

  lemma SortedTail(s: seq<Article>)
    requires Sorted(s) && s != []
    ensures Sorted(s[1..])
  {
    var tail := s[1..];
    forall i, j | 0 <= i < j < |tail| ensures Precedes(tail[i], tail[j]) {
      assert tail[i] == s[i + 1] && tail[j] == s[j + 1];
    }
  }

  /** A row that may precede the head of a sorted sequence may precede all of it. */
  lemma PrecedesAll(x: Article, s: seq<Article>)
    requires Sorted(s) && s != [] && Precedes(x, s[0])
    ensures Sorted([x] + s)
  {
    var r := [x] + s;
    forall i, j | 0 <= i < j < |r| ensures Precedes(r[i], r[j]) {
      if i == 0 {
        if j > 1 { PrecedesTransitive(x, s[0], s[j - 1]); }
      } else {
        assert r[i] == s[i - 1] && r[j] == s[j - 1];
      }
    }
  }

  /** The head of a sorted sequence may precede every row of a permutation of its tail with
      `x` added, when `x` may not precede it. */
  lemma HeadPrecedesInsert(x: Article, s: seq<Article>, t: seq<Article>)
    requires Sorted(s) && s != [] && !Precedes(x, s[0])
    requires Sorted(t) && multiset(t) == multiset(s[1..]) + multiset{x}
    ensures Sorted([s[0]] + t)
  {
    var tail := s[1..];
    forall j | 0 <= j < |t| ensures Precedes(s[0], t[j]) {
      assert t[j] in multiset(t);
      if t[j] != x {
        assert t[j] in multiset(tail);
        var k :| 0 <= k < |tail| && tail[k] == t[j];
        assert s[k + 1] == t[j];
      }
    }
    var r := [s[0]] + t;
    forall i, j | 0 <= i < j < |r| ensures Precedes(r[i], r[j]) {
      if i > 0 { assert r[i] == t[i - 1] && r[j] == t[j - 1]; }
      else { assert r[j] == t[j - 1]; }
    }
  }

  /** Places `x` in front of the first row it may precede. */
  function Insert(x: Article, s: seq<Article>): (r: seq<Article>)
    requires Sorted(s)
    ensures Sorted(r) && multiset(r) == multiset(s) + multiset{x}
  {
    if s == [] then [x]
    else if Precedes(x, s[0]) then
      PrecedesAll(x, s);
      assert s == [s[0]] + s[1..];
      [x] + s
    else
      SortedTail(s);
      var t := Insert(x, s[1..]);
      HeadPrecedesInsert(x, s, t);
      assert s == [s[0]] + s[1..];
      [s[0]] + t
  }

  /** The rows in listing order: a sorted permutation of the table. */
  function SortForListing(s: seq<Article>): (r: seq<Article>)
    ensures Sorted(r) && multiset(r) == multiset(s)
  {
    if s == [] then []
    else
      assert s == [s[0]] + s[1..];
      Insert(s[0], SortForListing(s[1..]))
  }

  // ---------------------------------------------------------------- paging

  /** `skip(offset)->take(limit)`. */
  function Page<T>(s: seq<T>, offset: nat, limit: nat): (r: seq<T>)
    ensures |r| == Min(limit, Max(0, |s| - offset))
    ensures forall i :: 0 <= i < |r| ==> r[i] == s[offset + i]
  {
    s[Min(offset, |s|)..Min(offset + limit, |s|)]
  }

  /** Pages 1 to k, one after the other. */
  function PagesUpTo<T>(s: seq<T>, perPage: nat, k: nat): seq<T> {
    if k == 0 then [] else PagesUpTo(s, perPage, k - 1) + Page(s, (k - 1) * perPage, perPage)
  }

  /** The first k pages together are the first k * perPage rows. */
  lemma {:induction false} PagesConcatenate<T>(s: seq<T>, perPage: nat, k: nat)
    ensures PagesUpTo(s, perPage, k) == s[..Min(k * perPage, |s|)]
  {
    if k > 0 {
      PagesConcatenate(s, perPage, k - 1);
      assert (k - 1) * perPage + perPage == k * perPage;
      var lo, hi := Min((k - 1) * perPage, |s|), Min(k * perPage, |s|);
      assert s[..lo] + s[lo..hi] == s[..hi];
    }
  }

  /** Enough pages cover the whole listing. */
  lemma PagesCoverAll<T>(s: seq<T>, perPage: nat, k: nat)
    requires k * perPage >= |s|
    ensures PagesUpTo(s, perPage, k) == s
  {
    PagesConcatenate(s, perPage, k);
  }

  /** Page number k (from 1) of the listing. */
  function NthPage<T>(s: seq<T>, perPage: nat, k: nat): seq<T>
    requires k >= 1
  {
    Page(s, (k - 1) * perPage, perPage)
  }

  lemma OffsetsApart(perPage: nat, k1: nat, k2: nat)
    requires 1 <= k1 < k2
    ensures (k1 - 1) * perPage + perPage <= (k2 - 1) * perPage
  {
    var d := k2 - k1 - 1;
    assert (k2 - 1) * perPage == ((k1 - 1) + 1 + d) * perPage;
    assert ((k1 - 1) + 1 + d) * perPage == (k1 - 1) * perPage + perPage + d * perPage;
  }

  /** Two different pages of a listing without repeated rows share no row. */
  lemma PagesDisjoint<T>(s: seq<T>, perPage: nat, k1: nat, k2: nat)
    requires forall i, j :: 0 <= i < j < |s| ==> s[i] != s[j]
    requires 1 <= k1 < k2
    ensures forall x :: x in NthPage(s, perPage, k1) ==> x !in NthPage(s, perPage, k2)
  {
    var o1, o2 := (k1 - 1) * perPage, (k2 - 1) * perPage;
    OffsetsApart(perPage, k1, k2);
    var a, b := Page(s, o1, perPage), Page(s, o2, perPage);
    forall x | x in a ensures x !in b {
      var i :| 0 <= i < |a| && a[i] == x;
      forall j | 0 <= j < |b| ensures b[j] != x {
        assert o1 + i < o2 + j;
        assert s[o1 + i] != s[o2 + j];
      }
    }
  }

  // ---------------------------------------------------------------- summaries

  datatype Summary = Summary(
    id: nat,
    title: Option<string>,
    content: string,
    author: Option<string>,
    commentsCount: nat,
    publishedAt: Option<int>,
    createdAt: Option<int>,
    imageUrl: Option<string>)

  /** The listed content: null reads as empty, and text longer than 200 characters is cut to
      its first 200 characters followed by "...". */
  function Excerpt(content: Option<string>): (r: string)
    ensures |r| <= ExcerptLength + 3
    ensures content.None? ==> r == ""
    ensures content.Some? && |content.value| <= ExcerptLength ==> r == content.value
    ensures content.Some? && |content.value| > ExcerptLength ==>
      |r| == ExcerptLength + 3 && r[..ExcerptLength] == content.value[..ExcerptLength] && r[ExcerptLength..] == "..."
  {
    var c := content.GetOr("");
    if |c| > ExcerptLength then c[..ExcerptLength] + "..." else c
  }

  /** `image_path ? Storage::url(image_path) : null`. */
  function ImageUrl(path: Option<string>, url: string -> string): (r: Option<string>)
    ensures r.None? <==> Php.Falsy(path)
    ensures r.Some? ==> r.value == url(path.value)
  {
    if Php.Falsy(path) then None else Some(url(path.value))
  }

  /** `optional($article->author)->name`. */
  function AuthorName(t: Tables, a: Article): Option<string> {
    if a.authorId.Some? && a.authorId.value in t.users then Some(t.users[a.authorId.value]) else None
  }

  /** One listed entry: the row's id, title and stamps, the excerpt, the author's name when the
      author exists, the comment count and the public image URL. */
  function ToSummary(a: Article, t: Tables, url: string -> string): (r: Summary)
    ensures r.id == a.id && r.title == a.title && r.publishedAt == a.publishedAt && r.createdAt == a.createdAt
    ensures r.author.Some? <==> a.authorId.Some? && a.authorId.value in t.users
    ensures r.author.Some? ==> r.author.value == t.users[a.authorId.value]
    ensures r.commentsCount == CommentCount(t.comments, a.id)
    ensures |r.content| <= ExcerptLength + 3
    ensures r.imageUrl.None? <==> Php.Falsy(a.imagePath)
  {
    Summary(a.id, a.title, Excerpt(a.content), AuthorName(t, a), CommentCount(t.comments, a.id),
            a.publishedAt, a.createdAt, ImageUrl(a.imagePath, url))
  }

  function Summaries(s: seq<Article>, t: Tables, url: string -> string): (r: seq<Summary>)
    ensures |r| == |s|
    ensures forall i :: 0 <= i < |s| ==> r[i] == ToSummary(s[i], t, url)
  {
    seq(|s|, i requires 0 <= i < |s| => ToSummary(s[i], t, url))
  }

  /** The cached value for one page: the page of the ordered table, summarised. */
  function ListItems(t: Tables, url: string -> string, p: Params): (r: seq<Summary>)
    ensures |r| <= p.perPage
  {
    Summaries(Page(SortForListing(t.articles), p.offset, p.perPage), t, url)
  }

  /** A page holds min(perPage, max(0, n - offset)) rows. */
  lemma ListItemsLength(t: Tables, url: string -> string, p: Params)
    ensures |ListItems(t, url, p)| == Min(p.perPage, Max(0, |t.articles| - p.offset))
  {
    var sorted := SortForListing(t.articles);
    assert |sorted| == |multiset(sorted)| == |multiset(t.articles)| == |t.articles|;
  }

  /** Entry `i` of a page is the summary of row `offset + i` of the ordered table. */
  lemma ListItemsAt(t: Tables, url: string -> string, p: Params, i: nat)
    requires i < |ListItems(t, url, p)|
    ensures p.offset + i < |SortForListing(t.articles)|
    ensures ListItems(t, url, p)[i] == ToSummary(SortForListing(t.articles)[p.offset + i], t, url)
  {
    var sorted := SortForListing(t.articles);
    var page := Page(sorted, p.offset, p.perPage);
    var r := Summaries(page, t, url);
    assert r == ListItems(t, url, p);
    assert i < |page| == Min(p.perPage, Max(0, |sorted| - p.offset));
    assert page[i] == sorted[p.offset + i];
    assert r[i] == ToSummary(page[i], t, url);
  }

  /** A page lists its rows in non-increasing (published_at, created_at) order. */
  lemma ListItemsOrdered(t: Tables, url: string -> string, p: Params)
    ensures var r := ListItems(t, url, p);
      forall i, j :: 0 <= i < j < |r| ==>
        ListedBefore(r[i].publishedAt, r[i].createdAt, r[j].publishedAt, r[j].createdAt)
  {
    var sorted := SortForListing(t.articles);
    var r := ListItems(t, url, p);
    forall i, j | 0 <= i < j < |r|
      ensures ListedBefore(r[i].publishedAt, r[i].createdAt, r[j].publishedAt, r[j].createdAt)
    {
      ListItemsAt(t, url, p, i);
      ListItemsAt(t, url, p, j);
      assert Precedes(sorted[p.offset + i], sorted[p.offset + j]);
    }
  }

  /** Sorting only reorders: every row it lists is a row of the table. */
  lemma SortedRowsFromTable(s: seq<Article>)
    ensures forall a :: a in SortForListing(s) ==> a in s
  {
    var r := SortForListing(s);
    forall a | a in r ensures a in s {
      assert a in multiset(r);
    }
  }

  /** Every listed summary is the summary of a row of the table. */
  lemma ListItemsFromTable(t: Tables, url: string -> string, p: Params)
    ensures forall x :: x in ListItems(t, url, p) ==> exists a :: a in t.articles && x == ToSummary(a, t, url)
  {
    var sorted := SortForListing(t.articles);
    var r := ListItems(t, url, p);
    SortedRowsFromTable(t.articles);
    forall x | x in r ensures exists a :: a in t.articles && x == ToSummary(a, t, url) {
      var i :| 0 <= i < |r| && r[i] == x;
      ListItemsAt(t, url, p, i);
      assert sorted[p.offset + i] in sorted;
    }
  }

  // ---------------------------------------------------------------- ETag and conditional response

  /** The external functions the endpoint calls: `Storage::url`, `json_encode` with
      JSON_UNESCAPED_SLASHES, and the hex SHA-256 digest. */
  datatype Env = Env(url: string -> string, encode: seq<Summary> -> string, sha256: string -> string)

  /** A weak validator: `W/` followed by the digest in double quotes. */
  function ETag(payload: string, sha256: string -> string): (r: string)
    ensures |r| == |sha256(payload)| + 4
    ensures r[..3] == "W/\"" && r[3..|r| - 1] == sha256(payload) && r[|r| - 1] == '"'
  {
    "W/\"" + sha256(payload) + "\""
  }

  /** Two payloads share an ETag exactly when they share a digest. */
  lemma ETagDeterminesDigest(p1: string, p2: string, sha256: string -> string)
    ensures ETag(p1, sha256) == ETag(p2, sha256) <==> sha256(p1) == sha256(p2)
  {
    var e1, e2 := ETag(p1, sha256), ETag(p2, sha256);
    if e1 == e2 {
      assert e1[3..|e1| - 1] == sha256(p1);
      assert e2[3..|e2| - 1] == sha256(p2);
    }
  }

  datatype Response = Response(status: nat, body: Option<string>, headers: map<string, string>)

  /** 304 without a body when If-None-Match is exactly the ETag, 200 with the payload
      otherwise; both carry the ETag and the Cache-Control header. */
  function ListResponse(payload: string, sha256: string -> string, ifNoneMatch: Option<string>): (r: Response)
    ensures r.headers == map["ETag" := ETag(payload, sha256), "Cache-Control" := CacheControl]
    ensures r.status == 304 <==> ifNoneMatch == Some(ETag(payload, sha256))
    ensures r.status == 304 ==> r.body == None
    ensures r.status != 304 ==> r.status == 200 && r.body == Some(payload)
  {
    var etag := ETag(payload, sha256);
    var headers := map["ETag" := etag, "Cache-Control" := CacheControl];
    if ifNoneMatch == Some(etag) then Response(304, None, headers) else Response(200, Some(payload), headers)
  }

  /** A client that sends back the ETag of an unchanged payload gets 304; one whose payload
      has since changed digest gets the new payload. */
  lemma Revalidation(old_: string, new_: string, sha256: string -> string)
    ensures ListResponse(new_, sha256, Some(ListResponse(old_, sha256, None).headers["ETag"])).status
         == if sha256(old_) == sha256(new_) then 304 else 200
  {
    ETagDeterminesDigest(old_, new_, sha256);
  }
}
