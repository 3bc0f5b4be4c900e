/** The Article model: its fillable attributes, its casts, and the cache-invalidating closure
    it registers on the created, updated and deleted events. */
module ArticleModel {

  import opened Wrappers
  import opened Database
  import opened CacheStore
  import opened Invalidation

  const Fillable: set<string> := {"title", "content", "author_id", "image_path", "published_at", "image_versions"}

  /** The row `create` inserts: the kept attributes, the next id, `created_at` set to now. */
  function NewRow(id: nat, attrs: map<string, Value>, now: int): (a: Article)
    ensures a.id == id && a.createdAt == Some(now)
  {
    Article(id, TextAttr(attrs, "title"), TextAttr(attrs, "content"), IntAttr(attrs, "author_id"),
            TextAttr(attrs, "image_path"), PathsAttr(attrs, "image_versions"), TimeAttr(attrs, "published_at"), Some(now))
  }

  /** Every row with the given id, with the new title and content where one is given. */
  function SetFields(articles: seq<Article>, id: int, title: Option<string>, content: Option<string>): (r: seq<Article>)
    ensures |r| == |articles|
    ensures forall i :: 0 <= i < |r| && articles[i].id != id ==> r[i] == articles[i]
    ensures forall i :: 0 <= i < |r| && articles[i].id == id ==>
      r[i] == articles[i].(title := if title.Some? then title else articles[i].title,
                           content := if content.Some? then content else articles[i].content)
  {
    if articles == [] then []
    else
      var a := articles[0];
      var a' := if a.id == id then a.(title := if title.Some? then title else a.title,
                                      content := if content.Some? then content else a.content)
                else a;
      [a'] + SetFields(articles[1..], id, title, content)
  }

  /** `Article::create(input)`: insert the row, then fire `created`. */
  method Create<V>(db: Db, cache: Cache<V>, input: map<string, Value>, now: int) returns (a: Article)
    modifies db, cache
    ensures a == NewRow(old(db.nextArticleId), MassAssign(input, Fillable), now)
    ensures db.articles == old(db.articles) + [a]
    ensures db.nextArticleId == old(db.nextArticleId) + 1
    ensures db.comments == old(db.comments) && db.users == old(db.users) && db.nextCommentId == old(db.nextCommentId)
    ensures cache.entries == AfterHook(old(cache.entries), cache.taggable)
  {
    a := NewRow(db.nextArticleId, MassAssign(input, Fillable), now);
    db.articles := db.articles + [a];
    db.nextArticleId := db.nextArticleId + 1;
    RunHook(cache);
  }

  /** `$article->update(fields)` on a loaded row: when some given field differs from the row,
      write and fire `updated`; otherwise Eloquent issues no query and fires nothing. */
  method Update<V>(db: Db, cache: Cache<V>, a: Article, title: Option<string>, content: Option<string>)
    returns (dirty: bool)
    modifies db, cache
    ensures dirty == ((title.Some? && title != a.title) || (content.Some? && content != a.content))
    ensures db.articles == if dirty then SetFields(old(db.articles), a.id, title, content) else old(db.articles)
    ensures cache.entries == if dirty then AfterHook(old(cache.entries), cache.taggable) else old(cache.entries)
    ensures db.comments == old(db.comments) && db.users == old(db.users)
    ensures db.nextArticleId == old(db.nextArticleId) && db.nextCommentId == old(db.nextCommentId)
  {
    dirty := (title.Some? && title != a.title) || (content.Some? && content != a.content);
    if dirty {
      db.articles := SetFields(db.articles, a.id, title, content);
      RunHook(cache);
    }
  }

  /** `$article->delete()`: remove the row, then fire `deleted`. */
  method Delete<V>(db: Db, cache: Cache<V>, a: Article)
    modifies db, cache
    ensures db.articles == DeleteWhereId(old(db.articles), ArticleId, a.id)
    ensures cache.entries == AfterHook(old(cache.entries), cache.taggable)
    ensures db.comments == old(db.comments) && db.users == old(db.users)
    ensures db.nextArticleId == old(db.nextArticleId) && db.nextCommentId == old(db.nextCommentId)
  {
    db.articles := DeleteWhereId(db.articles, ArticleId, a.id);
    RunHook(cache);
  }
}
