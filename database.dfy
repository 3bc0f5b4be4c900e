/** The rows the backend keeps in its relational tables, and Eloquent's mass assignment. */
module Database {

  import opened Wrappers

  /** An attribute value handed to `create` or `update`. */
  datatype Value = Null | Int(n: int) | Text(s: string) | Time(t: int) | Paths(m: map<string, string>)

  /** An article row. `imageVersions` holds the variant map that the model's `array` cast
      stores as JSON; timestamps are abstract instants. */
  datatype Article = Article(
    id: nat,
    title: Option<string>,
    content: Option<string>,
    authorId: Option<int>,
    imagePath: Option<string>,
    imageVersions: Option<map<string, string>>,
    publishedAt: Option<int>,
    createdAt: Option<int>)

  datatype Comment = Comment(
    id: nat,
    articleId: Option<int>,
    userId: Option<int>,
    content: Option<string>,
    createdAt: Option<int>)

  /** A snapshot of the three tables the listing reads; users map an id to a name. */
  datatype Tables = Tables(articles: seq<Article>, comments: seq<Comment>, users: map<int, string>)

  /** Mass assignment: attributes outside the model's fillable list are silently dropped. */
  function MassAssign(input: map<string, Value>, fillable: set<string>): (r: map<string, Value>)
    ensures r.Keys == input.Keys * fillable
    ensures forall k :: k in r ==> r[k] == input[k]
  {
    map k | k in input && k in fillable :: input[k]
  }

  /** Reading a typed attribute back; a missing key, a null or a value of another kind reads as null. */
  function TextAttr(attrs: map<string, Value>, k: string): Option<string> {
    if k in attrs && attrs[k].Text? then Some(attrs[k].s) else None
  }

  function IntAttr(attrs: map<string, Value>, k: string): Option<int> {
    if k in attrs && attrs[k].Int? then Some(attrs[k].n) else None
  }

  function TimeAttr(attrs: map<string, Value>, k: string): Option<int> {
    if k in attrs && attrs[k].Time? then Some(attrs[k].t) else None
  }

  function PathsAttr(attrs: map<string, Value>, k: string): Option<map<string, string>> {
    if k in attrs && attrs[k].Paths? then Some(attrs[k].m) else None
  }

  /** `findOrFail`: the first row with the given id. */
  function FindArticle(articles: seq<Article>, id: int): (r: Option<Article>)
    ensures r.Some? ==> r.value in articles && r.value.id == id
    ensures r.None? ==> forall a :: a in articles ==> a.id != id
  {
    if articles == [] then None
    else if articles[0].id == id then Some(articles[0])
    else FindArticle(articles[1..], id)
  }

  /** `withCount('comments')`: the number of comments that reference the article. */
  function CommentCount(comments: seq<Comment>, articleId: int): nat {
    if comments == [] then 0
    else (if comments[0].articleId == Some(articleId) then 1 else 0) + CommentCount(comments[1..], articleId)
  }

  /** Adding a comment raises the count of the article it references by one, and no other count. */
  lemma {:induction false} CommentCountAppend(comments: seq<Comment>, c: Comment, articleId: int)
    ensures CommentCount(comments + [c], articleId)
         == CommentCount(comments, articleId) + (if c.articleId == Some(articleId) then 1 else 0)
  {
    if comments != [] {
      assert (comments + [c])[1..] == comments[1..] + [c];
      CommentCountAppend(comments[1..], c, articleId);
    } else {
      assert [c][1..] == [];
    }
  }

  function ArticleId(a: Article): int { a.id }

  function CommentId(c: Comment): int { c.id }

  /** `DELETE ... WHERE id = ?` on a table: every row whose id differs. */
  function DeleteWhereId<T(!new)>(rows: seq<T>, idOf: T -> int, id: int): (r: seq<T>)
    ensures |r| <= |rows|
    ensures forall x :: x in r <==> x in rows && idOf(x) != id
  {
    if rows == [] then []
    else (if idOf(rows[0]) == id then [] else [rows[0]]) + DeleteWhereId(rows[1..], idOf, id)
  }

  /** Deleting works piecewise, so the remaining rows keep their table order. */
  lemma {:induction false} DeleteWhereIdAppend<T(!new)>(s: seq<T>, t: seq<T>, idOf: T -> int, id: int)
    ensures DeleteWhereId(s + t, idOf, id) == DeleteWhereId(s, idOf, id) + DeleteWhereId(t, idOf, id)
  {
    if s == [] {
      assert s + t == t;
    } else {
      assert (s + t)[0] == s[0] && (s + t)[1..] == s[1..] + t;
      DeleteWhereIdAppend(s[1..], t, idOf, id);
    }
  }

  /** The database connection: the tables and their auto-increment counters. */
  class Db {
    var articles: seq<Article>
    var comments: seq<Comment>
    var users: map<int, string>
    var nextArticleId: nat
    var nextCommentId: nat

    constructor (users: map<int, string>)
      ensures this.users == users && articles == [] && comments == []
      ensures nextArticleId == 1 && nextCommentId == 1
    {
      this.users := users;
      articles, comments := [], [];
      nextArticleId, nextCommentId := 1, 1;
    }

    function Snapshot(): Tables
      reads this
    {
      Tables(articles, comments, users)
    }
  }
}
