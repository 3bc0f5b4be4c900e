/** The Comment model: its fillable attributes and the same cache-invalidating closure,
    registered on the comment's created, updated and deleted events. */
module CommentModel {

  import opened Wrappers
  import opened Database
  import opened CacheStore
  import opened Invalidation

  const Fillable: set<string> := {"article_id", "user_id", "content"}

  function NewRow(id: nat, attrs: map<string, Value>, now: int): (c: Comment)
    ensures c.id == id && c.createdAt == Some(now)
  {
    Comment(id, IntAttr(attrs, "article_id"), IntAttr(attrs, "user_id"), TextAttr(attrs, "content"), Some(now))
  }

  /** Whatever timestamp the caller passes, the stored comment is stamped with the time of creation. */
  lemma CreatedAtIgnored(id: nat, input: map<string, Value>, t: int, now: int)
    ensures NewRow(id, MassAssign(input["created_at" := Time(t)], Fillable), now) == NewRow(id, MassAssign(input - {"created_at"}, Fillable), now)
  {
    var a := MassAssign(input["created_at" := Time(t)], Fillable);
    var b := MassAssign(input - {"created_at"}, Fillable);
    assert a == b;
  }

  function SetContent(comments: seq<Comment>, id: int, content: string): (r: seq<Comment>)
    ensures |r| == |comments|
    ensures forall i :: 0 <= i < |r| ==> r[i] == if comments[i].id == id then comments[i].(content := Some(content)) else comments[i]
  {
    if comments == [] then []
    else [if comments[0].id == id then comments[0].(content := Some(content)) else comments[0]]
         + SetContent(comments[1..], id, content)
  }

  /** `Comment::create(input)`: insert the row, then fire `created`. */
  method Create<V>(db: Db, cache: Cache<V>, input: map<string, Value>, now: int) returns (c: Comment)
    modifies db, cache
    ensures c == NewRow(old(db.nextCommentId), MassAssign(input, Fillable), now)
    ensures db.comments == old(db.comments) + [c]
    ensures db.nextCommentId == old(db.nextCommentId) + 1
    ensures db.articles == old(db.articles) && db.users == old(db.users) && db.nextArticleId == old(db.nextArticleId)
    ensures cache.entries == AfterHook(old(cache.entries), cache.taggable)
  {
    c := NewRow(db.nextCommentId, MassAssign(input, Fillable), now);
    db.comments := db.comments + [c];
    db.nextCommentId := db.nextCommentId + 1;
    RunHook(cache);
  }

  /** `$comment->update(['content' => ...])` on a loaded row, firing `updated` when it changes. */
  method Update<V>(db: Db, cache: Cache<V>, c: Comment, content: string) returns (dirty: bool)
    modifies db, cache
    ensures dirty == (c.content != Some(content))
    ensures db.comments == if dirty then SetContent(old(db.comments), c.id, content) else old(db.comments)
    ensures cache.entries == if dirty then AfterHook(old(cache.entries), cache.taggable) else old(cache.entries)
    ensures db.articles == old(db.articles) && db.users == old(db.users)
    ensures db.nextArticleId == old(db.nextArticleId) && db.nextCommentId == old(db.nextCommentId)
  {
    dirty := c.content != Some(content);
    if dirty {
      db.comments := SetContent(db.comments, c.id, content);
      RunHook(cache);
    }
  }

  /** `$comment->delete()`: remove the row, then fire `deleted`. */
  method Delete<V>(db: Db, cache: Cache<V>, c: Comment)
    modifies db, cache
    ensures db.comments == DeleteWhereId(old(db.comments), CommentId, c.id)
    ensures cache.entries == AfterHook(old(cache.entries), cache.taggable)
    ensures db.articles == old(db.articles) && db.users == old(db.users)
    ensures db.nextArticleId == old(db.nextArticleId) && db.nextCommentId == old(db.nextCommentId)
  {
    db.comments := DeleteWhereId(db.comments, CommentId, c.id);
    RunHook(cache);
  }
}
