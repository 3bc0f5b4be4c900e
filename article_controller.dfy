/** The article endpoints that write or cache: the cached list, store, update and destroy.
    The search endpoint is in module Search. Framework services are parameters: the list's
    `Env`, the disk and its write oracle, the clock `now`, and the random base name of an
    upload. */
module ArticleController {

  import opened Wrappers
  import opened Database
  import opened CacheStore
  import opened Invalidation
  import opened Listing
  import ImageOptimization
  import ArticleModel
  import CommentModel
  import Php
  import Text

  // ---------------------------------------------------------------- list cache bookkeeping

  /** The tags `index` writes its entries under. */
  function ListTags(taggable: bool): set<string> {
    if taggable then {ListTag} else {}
  }

  /** On a taggable store every cached list page carries the list tag. */
  predicate ListsTagged<V>(m: map<string, Entry<V>>, taggable: bool) {
    taggable ==> forall k :: k in m && IsListKey(k) ==> ListTag in m[k].tags
  }

  /** The controller's own invalidation after a write: a tag flush, or forgetting the bare
      base key when the store has no tags. */
  function ListInvalidation<V>(m: map<string, Entry<V>>, taggable: bool): (r: map<string, Entry<V>>)
    ensures taggable ==> forall k :: k in r ==> ListTag !in r[k].tags
    ensures !taggable ==> r.Keys == m.Keys - {BaseKey}
    ensures forall k :: k in r ==> k in m && r[k] == m[k]
  {
    if taggable then WithoutTag(m, ListTag) else m - {BaseKey}
  }

  /** On a store without tags the controller's invalidation keeps every cached page: the key
      it forgets is never one that `index` writes. */
  lemma ForgettingBaseKeyKeepsPages<V>(m: map<string, Entry<V>>)
    ensures forall k :: k in m && IsListKey(k) ==> k in ListInvalidation(m, false) && ListInvalidation(m, false)[k] == m[k]
  {
    ListKeyShape(1, 1);
  }

  /** The model hook, by contrast, leaves no cached page behind. */
  lemma HookClearsPages<V>(m: map<string, Entry<V>>, taggable: bool)
    requires ListsTagged(m, taggable)
    ensures forall k :: k in AfterHook(m, taggable) ==> !IsListKey(k)
    ensures forall k :: k in ListInvalidation(AfterHook(m, taggable), taggable) ==> !IsListKey(k)
  {
  }

  method InvalidateList<V>(cache: Cache<V>)
    modifies cache
    ensures cache.entries == ListInvalidation(old(cache.entries), cache.taggable)
  {
    if cache.taggable {
      cache.FlushTag(ListTag);
    } else {
      cache.Forget(BaseKey);
    }
  }

  // ---------------------------------------------------------------- index

  /** `index`: the page of the ordered table, served from the cache under the page's key when
      present and computed and stored (60 seconds, tagged when the store allows) otherwise;
      then the conditional response on the encoded payload. */
  method Index(db: Db, cache: Cache<seq<Summary>>, env: Env, page: Option<int>, perPage: Option<int>,
               ifNoneMatch: Option<string>)
    returns (resp: Response, items: seq<Summary>, queried: bool)
    modifies cache
    ensures var p := Clamp(page, perPage); var key := ListKey(p.page, p.perPage);
      && queried == (key !in old(cache.entries))
      && (queried ==> items == ListItems(db.Snapshot(), env.url, p)
                      && cache.entries == old(cache.entries)[key := Entry(items, ListTags(cache.taggable), Ttl)])
      && (!queried ==> items == old(cache.entries)[key].value && cache.entries == old(cache.entries))
    ensures resp == ListResponse(env.encode(items), env.sha256, ifNoneMatch)
    ensures ListsTagged(old(cache.entries), cache.taggable) ==> ListsTagged(cache.entries, cache.taggable)
  {
    var p := Clamp(page, perPage);
    var key := ListKey(p.page, p.perPage);
    var t := db.Snapshot();
    var url := env.url;
    items, queried := cache.Remember(key, ListTags(cache.taggable), Ttl, () => ListItems(t, url, p));
    resp := ListResponse(env.encode(items), env.sha256, ifNoneMatch);
  }

  // ---------------------------------------------------------------- request fields and validation

  /** A request field: not sent, sent as null, or sent as a string. */
  datatype Field = Omitted | Nil | Given(s: string)

  /** An uploaded file: its size in bytes, the extension guessed from its content, and the
      extension of the client's file name. */
  datatype Upload = Upload(size: nat, guessedExt: string, clientExt: string)

  datatype StoreRequest = StoreRequest(title: Field, content: Field, authorId: Option<int>, image: Option<Upload>)

  const MaxUploadBytes: nat := 2 * 1024 * 1024
  const MaxImageKilobytes: nat := 2048
  const MaxTitleLength: nat := 255
  /** The extensions the `image` rule accepts, and those the `mimes` list names. */
  const ImageExts: set<string> := {"jpg", "jpeg", "png", "gif", "bmp", "svg", "webp"}
  const MimesExts: set<string> := {"jpeg", "png", "jpg", "gif", "webp"}
  /** Client extensions Laravel's `mimes` check refuses outright unless its list names "php";
      the `image` rule goes through the same check, and neither list names "php". */
  const PhpExts: set<string> := {"php", "php3", "php4", "php5", "php7", "php8", "phtml", "phar"}

  /** The client extension, lower-cased and trimmed, is one of PHP's. */
  predicate PhpClientExt(u: Upload) {
    Php.Trim(Php.Lower(u.clientExt)) in PhpExts
  }

  /** `required` on a string field: present, not null, and not blank after trim(). */
  predicate Required(f: Field) {
    f.Given? && Php.Trim(f.s) != ""
  }

  /** `max:n` on a string field counts characters; it has nothing to check on a missing value. */
  predicate WithinMax(f: Field, n: nat) {
    f.Given? ==> |f.s| <= n
  }

  /** `image|mimes:...|max:2048`: an image type from the list, a client extension that is not
      PHP's, and at most 2048 kilobytes. */
  predicate ImageValid(u: Upload) {
    && !PhpClientExt(u)
    && u.guessedExt in ImageExts && u.guessedExt in MimesExts
    && u.size <= MaxImageKilobytes * 1024
  }

  /** The keys of the validator's error bag. */
  datatype Name = Title | Content | AuthorId | Image

  predicate StoreRuleFails(n: Name, req: StoreRequest, users: map<int, string>) {
    match n
    case Title => !(Required(req.title) && WithinMax(req.title, MaxTitleLength))
    case Content => !Required(req.content)
    case AuthorId => !(req.authorId.Some? && req.authorId.value in users)
    case Image => req.image.Some? && !ImageValid(req.image.value)
  }

  /** The fields whose rules fail for `store`. */
  function StoreErrors(req: StoreRequest, users: map<int, string>): (errors: set<Name>)
    ensures Title in errors <==> !(Required(req.title) && WithinMax(req.title, MaxTitleLength))
    ensures Content in errors <==> !Required(req.content)
    ensures AuthorId in errors <==> !(req.authorId.Some? && req.authorId.value in users)
    ensures Image in errors <==> req.image.Some? && !ImageValid(req.image.value)
  {
    set n: Name | StoreRuleFails(n, req, users)
  }

  /** The size guard runs first and uses the same bound as the `max:2048` rule, so once a file
      passes the guard only its type or a PHP client extension can make the image rule fail. */
  lemma SizeGuardSubsumesMax(u: Upload)
    requires u.size <= MaxUploadBytes
    ensures ImageValid(u) <==> u.guessedExt in MimesExts && !PhpClientExt(u)
  {
    assert MimesExts <= ImageExts;
  }

  /** A PNG whose client name ends in ".php", in any case and with surrounding spaces, is
      refused by the validator even though its content is an allowed image. */
  lemma PhpNamedUploadRefused(req: StoreRequest, users: map<int, string>)
    requires req.image == Some(Upload(1000, "png", " PHP"))
    ensures Image in StoreErrors(req, users)
  {
    assert Php.Lower(" PHP") == " php" by {
      assert Php.LowerChar('P') == 'p' && Php.LowerChar('H') == 'h';
    }
    assert Text.TrimStart(" php", Php.IsTrimSpace) == "php" by {
      assert Php.IsTrimSpace(' ') && " php"[1..] == "php" && !Php.IsTrimSpace('p');
    }
    assert Text.TrimEnd("php", Php.IsTrimSpace) == "php";
  }

  // ---------------------------------------------------------------- store

  datatype StoreOutcome =
    | TooLarge
    | Invalid(errors: set<Name>)
    | UploadFailed(path: string)
    | Created(article: Article, imageUrl: Option<string>, images: Option<map<string, string>>)

  function StoreStatus(o: StoreOutcome): nat {
    match o
    case TooLarge => 413
    case Invalid(_) => 422
    case UploadFailed(_) => 500
    case Created(_, _, _) => 201
  }

  function UrlMap(m: map<string, string>, url: string -> string): (r: map<string, string>)
    ensures r.Keys == m.Keys && forall k :: k in r ==> r[k] == url(m[k])
  {
    map k | k in m :: url(m[k])
  }

  /** The attributes `store` hands to `Article::create`. */
  function CreateInput(req: StoreRequest, versions: Option<map<string, string>>, now: int): map<string, Value>
    requires req.title.Given? && req.content.Given? && req.authorId.Some?
    requires versions.Some? ==> "original" in versions.value
  {
    map["title" := Text(req.title.s), "content" := Text(req.content.s), "author_id" := Int(req.authorId.value),
        "image_path" := (if versions.Some? then Text(versions.value["original"]) else Null),
        "published_at" := Time(now),
        "image_versions" := (if versions.Some? then Paths(versions.value) else Null)]
  }

  /** The row `create` makes of those attributes: all six are fillable and kept. */
  lemma CreatedRow(id: nat, req: StoreRequest, versions: Option<map<string, string>>, now: int)
    requires req.title.Given? && req.content.Given? && req.authorId.Some?
    requires versions.Some? ==> "original" in versions.value
    ensures var a := ArticleModel.NewRow(id, MassAssign(CreateInput(req, versions, now), ArticleModel.Fillable), now);
      && a.id == id && a.title == Some(req.title.s) && a.content == Some(req.content.s)
      && a.authorId == req.authorId && a.publishedAt == Some(now) && a.createdAt == Some(now)
      && a.imagePath == (if versions.Some? then Some(versions.value["original"]) else None)
      && a.imageVersions == versions
  {
    var input := CreateInput(req, versions, now);
    assert input.Keys <= ArticleModel.Fillable;
    assert MassAssign(input, ArticleModel.Fillable) == input;
  }

  /** The image step of `store`: the service's variant map, whose `original` entry is the
      path of the untouched copy, or the path whose write failed. */
  method OptimizeUpload(disk: ImageOptimization.Disk, base: string, clientExt: string,
                        writeOk: (string, ImageOptimization.Blob) -> bool)
    returns (r: Result<map<string, string>, string>)
    modifies disk
    ensures var plan := ImageOptimization.Plan(base, clientExt);
      var n := ImageOptimization.Completed(plan, writeOk);
      && disk.files == ImageOptimization.Apply(old(disk.files), plan[..n])
      && (r.Success? <==> n == |plan|)
      && (r.Success? ==> disk.files == ImageOptimization.Apply(old(disk.files), plan))
      && (r.Success? ==> r.value == ImageOptimization.Results(plan) && "original" in r.value
                         && r.value["original"] == ImageOptimization.OriginalPath(base, clientExt))
      && (r.Failure? ==> n < |plan| && r.error == plan[n].path)
  {
    r := ImageOptimization.Optimize(disk, base, clientExt, writeOk);
    ImageOptimization.OriginalEntry(base, clientExt);
    ghost var plan := ImageOptimization.Plan(base, clientExt);
    assert plan[..|plan|] == plan;
  }

  /** The last step of `store`: create the row (the model hook fires), invalidate the list
      cache, and answer with the row and the public URLs of its image and variants. */
  method Persist(db: Db, cache: Cache<seq<Summary>>, url: string -> string, req: StoreRequest,
                 versions: Option<map<string, string>>, now: int)
    returns (out: StoreOutcome)
    requires req.title.Given? && req.content.Given? && req.authorId.Some?
    requires versions.Some? ==> "original" in versions.value
    modifies db, cache
    ensures out.Created? && db.articles == old(db.articles) + [out.article]
    ensures out.article.id == old(db.nextArticleId) && db.nextArticleId == old(db.nextArticleId) + 1
    ensures out.article.title == Some(req.title.s) && out.article.content == Some(req.content.s)
    ensures out.article.authorId == req.authorId && out.article.publishedAt == Some(now) && out.article.createdAt == Some(now)
    ensures out.article.imagePath == (if versions.Some? then Some(versions.value["original"]) else None)
    ensures out.article.imageVersions == versions
    ensures out.imageUrl == ImageUrl(out.article.imagePath, url)
    ensures out.images == (if versions.Some? then Some(UrlMap(versions.value, url)) else None)
    ensures cache.entries == ListInvalidation(AfterHook(old(cache.entries), cache.taggable), cache.taggable)
    ensures db.comments == old(db.comments) && db.users == old(db.users)
  {
    CreatedRow(db.nextArticleId, req, versions, now);
    var a := ArticleModel.Create(db, cache, CreateInput(req, versions, now), now);
    InvalidateList(cache);
    var images := if versions.Some? then Some(UrlMap(versions.value, url)) else None;
    out := Created(a, ImageUrl(a.imagePath, url), images);
  }

  /** `store`: the size guard (413), then validation (422), then the image service (500); only
      when all three pass is the article created (201), with its image path taken from the
      `original` variant, after which the list cache is invalidated. */
  method Store(db: Db, cache: Cache<seq<Summary>>, disk: ImageOptimization.Disk, url: string -> string,
               req: StoreRequest, base: string, writeOk: (string, ImageOptimization.Blob) -> bool, now: int)
    returns (out: StoreOutcome)
    modifies db, cache, disk
    ensures req.image.Some? && req.image.value.size > MaxUploadBytes ==> out == TooLarge
    ensures out.TooLarge? <==> req.image.Some? && req.image.value.size > MaxUploadBytes
    ensures out.Invalid? ==> StoreErrors(req, old(db.users)) != {}
    ensures !(req.image.Some? && req.image.value.size > MaxUploadBytes) && StoreErrors(req, old(db.users)) == {}
            && (req.image.None? || var plan := ImageOptimization.Plan(base, req.image.value.clientExt);
                                   ImageOptimization.Completed(plan, writeOk) == |plan|)
            ==> out.Created?
    ensures !(req.image.Some? && req.image.value.size > MaxUploadBytes) && StoreErrors(req, old(db.users)) != {}
            ==> out == Invalid(StoreErrors(req, old(db.users)))
    ensures out.TooLarge? || out.Invalid? || req.image.None? ==> disk.files == old(disk.files)
    ensures out.UploadFailed? ==>
      && req.image.Some? && StoreErrors(req, old(db.users)) == {}
      && var plan := ImageOptimization.Plan(base, req.image.value.clientExt);
         var n := ImageOptimization.Completed(plan, writeOk);
         && n < |plan| && out.path == plan[n].path
         && disk.files == ImageOptimization.Apply(old(disk.files), plan[..n])
    ensures !out.Created? ==> db.articles == old(db.articles) && db.nextArticleId == old(db.nextArticleId)
                              && cache.entries == old(cache.entries)
    ensures out.Created? ==>
      && StoreErrors(req, old(db.users)) == {}
      && db.articles == old(db.articles) + [out.article]
      && out.article.id == old(db.nextArticleId)
      && out.article.title == Some(req.title.s) && out.article.content == Some(req.content.s)
      && out.article.authorId == req.authorId
      && out.article.publishedAt == Some(now) && out.article.createdAt == Some(now)
      && (req.image.None? ==> out.article.imagePath == None && out.article.imageVersions == None && out.images == None)
      && (req.image.Some? ==>
            var plan := ImageOptimization.Plan(base, req.image.value.clientExt);
            && ImageOptimization.Completed(plan, writeOk) == |plan|
            && out.article.imageVersions == Some(ImageOptimization.Results(plan))
            && out.article.imagePath == Some(ImageOptimization.OriginalPath(base, req.image.value.clientExt))
            && out.images == Some(UrlMap(ImageOptimization.Results(plan), url))
            && disk.files == ImageOptimization.Apply(old(disk.files), plan))
      && out.imageUrl == ImageUrl(out.article.imagePath, url)
      && cache.entries == ListInvalidation(AfterHook(old(cache.entries), cache.taggable), cache.taggable)
    ensures db.comments == old(db.comments) && db.users == old(db.users)
  {
    if req.image.Some? && req.image.value.size > MaxUploadBytes {
      return TooLarge;
    }
    var errors := StoreErrors(req, db.users);
    if errors != {} {
      return Invalid(errors);
    }

    var versions: Option<map<string, string>> := None;
    if req.image.Some? {
      var r := OptimizeUpload(disk, base, req.image.value.clientExt, writeOk);
      if r.Failure? {
        return UploadFailed(r.error);
      }
      versions := Some(r.value);
    }

    out := Persist(db, cache, url, req, versions, now);
  }

  // ---------------------------------------------------------------- update

  datatype UpdateOutcome = UpdateNotFound | UpdateInvalid(errors: set<Name>) | Updated(article: Article)

  function UpdateStatus(o: UpdateOutcome): nat {
    match o
    case UpdateNotFound => 404
    case UpdateInvalid(_) => 422
    case Updated(_) => 200
  }

  predicate UpdateRuleFails(n: Name, title: Field, content: Field) {
    match n
    case Title => !title.Omitted? && !(Required(title) && WithinMax(title, MaxTitleLength))
    case Content => !content.Omitted? && !Required(content)
    case _ => false
  }

  /** `sometimes|required|max:255` and `sometimes|required`: a field that is sent must pass. */
  function UpdateErrors(title: Field, content: Field): (errors: set<Name>)
    ensures Title in errors <==> !title.Omitted? && !(Required(title) && WithinMax(title, MaxTitleLength))
    ensures Content in errors <==> !content.Omitted? && !Required(content)
    ensures errors <= {Title, Content}
  {
    set n: Name | UpdateRuleFails(n, title, content)
  }

  /** The validated value of a field that passed: present exactly when it was sent. */
  function Validated(f: Field): Option<string> {
    if f.Given? then Some(f.s) else None
  }

  /** `update`: 404 for an unknown id, 422 when a sent field fails, otherwise only the sent
      title and content change; the list cache is invalidated. */
  method Update(db: Db, cache: Cache<seq<Summary>>, id: int, title: Field, content: Field)
    returns (out: UpdateOutcome)
    modifies db, cache
    ensures FindArticle(old(db.articles), id).None? <==> out == UpdateNotFound
    ensures FindArticle(old(db.articles), id).Some? && UpdateErrors(title, content) == {} ==> out.Updated?
    ensures FindArticle(old(db.articles), id).Some? && UpdateErrors(title, content) != {}
            ==> out == UpdateInvalid(UpdateErrors(title, content))
    ensures !out.Updated? ==> db.articles == old(db.articles) && cache.entries == old(cache.entries)
    ensures out.Updated? ==>
      && FindArticle(old(db.articles), id).Some? && UpdateErrors(title, content) == {}
      && var a := FindArticle(old(db.articles), id).value;
         && out.article == a.(title := if title.Given? then Some(title.s) else a.title,
                              content := if content.Given? then Some(content.s) else a.content)
         && db.articles == (if out.article == a then old(db.articles)
                            else ArticleModel.SetFields(old(db.articles), id, Validated(title), Validated(content)))
         && cache.entries == ListInvalidation(if out.article == a then old(cache.entries)
                                              else AfterHook(old(cache.entries), cache.taggable), cache.taggable)
    ensures db.comments == old(db.comments) && db.users == old(db.users) && db.nextArticleId == old(db.nextArticleId)
  {
    var found := FindArticle(db.articles, id);
    if found.None? {
      return UpdateNotFound;
    }
    var errors := UpdateErrors(title, content);
    if errors != {} {
      return UpdateInvalid(errors);
    }
    var a := found.value;
    var dirty := ArticleModel.Update(db, cache, a, Validated(title), Validated(content));
    InvalidateList(cache);
    out := Updated(a.(title := if title.Given? then Some(title.s) else a.title,
                      content := if content.Given? then Some(content.s) else a.content));
  }

  // ---------------------------------------------------------------- destroy

  datatype DestroyOutcome = DestroyNotFound | Destroyed

  /** `destroy`: 404 for an unknown id; otherwise delete the file at `image_path` when it is
      set, delete the row and invalidate the list cache. */
  method Destroy(db: Db, cache: Cache<seq<Summary>>, disk: ImageOptimization.Disk, id: int)
    returns (out: DestroyOutcome)
    modifies db, cache, disk
    ensures FindArticle(old(db.articles), id).None? <==> out == DestroyNotFound
    ensures out == DestroyNotFound ==> db.articles == old(db.articles) && cache.entries == old(cache.entries)
                                       && disk.files == old(disk.files)
    ensures out == Destroyed ==>
      && var a := FindArticle(old(db.articles), id).value;
         && db.articles == DeleteWhereId(old(db.articles), ArticleId, a.id)
         && disk.files == (if Php.Falsy(a.imagePath) then old(disk.files) else old(disk.files) - {a.imagePath.value})
         && cache.entries == ListInvalidation(AfterHook(old(cache.entries), cache.taggable), cache.taggable)
    ensures db.comments == old(db.comments) && db.users == old(db.users)
  {
    var found := FindArticle(db.articles, id);
    if found.None? {
      return DestroyNotFound;
    }
    var a := found.value;
    if !Php.Falsy(a.imagePath) {
      disk.Delete(a.imagePath.value);
    }
    ArticleModel.Delete(db, cache, a);
    InvalidateList(cache);
    out := Destroyed;
  }

  /** Deleting an upload's `image_path` (its `original` variant) leaves the six resized
      variants on the disk. */
  lemma DestroyKeepsVariants(files: map<string, ImageOptimization.Blob>, base: string, clientExt: string)
    requires var plan := ImageOptimization.Plan(base, clientExt);
      forall i :: 0 <= i < |plan| ==> plan[i].path in files
    ensures var plan := ImageOptimization.Plan(base, clientExt);
      var left := files - {ImageOptimization.OriginalPath(base, clientExt)};
      |plan| == 7 && ImageOptimization.OriginalPath(base, clientExt) !in left
      && forall i :: 0 <= i < 6 ==> plan[i].path in left && left[plan[i].path] == files[plan[i].path]
  {
    ImageOptimization.PlanAt(base, clientExt, 0);
    ImageOptimization.PlanPathsDistinct(base, clientExt);
  }

  // ---------------------------------------------------------------- clients of the endpoints

  /** Two list requests with no write between them get the same response, and the second is
      served from the cache. */
  method ListTwice(db: Db, cache: Cache<seq<Summary>>, env: Env, page: Option<int>, perPage: Option<int>,
                   ifNoneMatch: Option<string>)
    returns (r1: Response, r2: Response, queried2: bool)
    modifies cache
    ensures r1 == r2 && !queried2
  {
    var items1, q1, items2;
    r1, items1, q1 := Index(db, cache, env, page, perPage, ifNoneMatch);
    r2, items2, queried2 := Index(db, cache, env, page, perPage, ifNoneMatch);
  }

  /** A client that sends back the ETag it got, with nothing written in between, gets 304. */
  method RevalidateUnchanged(db: Db, cache: Cache<seq<Summary>>, env: Env, page: Option<int>, perPage: Option<int>)
    returns (r1: Response, r2: Response)
    modifies cache
    ensures r1.status == 200 && r2.status == 304 && r2.body == None
  {
    var items1, q1, items2, q2;
    r1, items1, q1 := Index(db, cache, env, page, perPage, None);
    r2, items2, q2 := Index(db, cache, env, page, perPage, Some(r1.headers["ETag"]));
  }

  /** After a successful store, the next list request queries the table again and lists
      what is now in it. */
  method ListAfterStore(db: Db, cache: Cache<seq<Summary>>, disk: ImageOptimization.Disk, env: Env,
                        req: StoreRequest, base: string, writeOk: (string, ImageOptimization.Blob) -> bool, now: int,
                        page: Option<int>, perPage: Option<int>)
    returns (out: StoreOutcome, items: seq<Summary>, queried: bool)
    requires ListsTagged(cache.entries, cache.taggable)
    modifies db, cache, disk
    ensures out.Created? ==> queried && items == ListItems(db.Snapshot(), env.url, Clamp(page, perPage))
    ensures out.Created? ==> out.article in db.articles
  {
    ghost var before := cache.entries;
    out := Store(db, cache, disk, env.url, req, base, writeOk, now);
    if out.Created? {
      HookClearsPages(before, cache.taggable);
      var p := Clamp(page, perPage);
      ListKeyShape(p.page, p.perPage);
    }
    var resp;
    resp, items, queried := Index(db, cache, env, page, perPage, None);
  }
  /** A new comment clears the cached pages through the comment hook, so the next list request
      queries again and its counts include the comment; the stats entry is gone as well. */
  method ListAfterComment(db: Db, cache: Cache<seq<Summary>>, env: Env, input: map<string, Value>, now: int,
                          page: Option<int>, perPage: Option<int>)
    returns (c: Comment, items: seq<Summary>, queried: bool)
    requires ListsTagged(cache.entries, cache.taggable)
    modifies db, cache
    ensures c in db.comments
    ensures queried && items == ListItems(db.Snapshot(), env.url, Clamp(page, perPage))
    ensures StatsKey !in cache.entries
  {
    ghost var before := cache.entries;
    c := CommentModel.Create(db, cache, input, now);
    HookClearsPages(before, cache.taggable);
    var p := Clamp(page, perPage);
    ListKeyShape(p.page, p.perPage);
    var key := ListKey(p.page, p.perPage);
    assert key[1] == BaseKey[1] != StatsKey[1];
    var resp;
    resp, items, queried := Index(db, cache, env, page, perPage, None);
  }
}
