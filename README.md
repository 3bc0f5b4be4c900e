# Blog articles: list cache, write guards, image variants and the React list

This project models the core of a small blog application in Dafny.
Its backend is Laravel and its frontend is React.

The backend part covers the following:

- **The article controller.** This covers:
  - the cached, paginated list with its weak ETag;
  - the accent- and case-sensitive search;
  - the `store`, `update` and `destroy` endpoints, with their guards and cache invalidation.
- **The image service.** It plans and writes seven image variants for every upload.
- **The `Article` and `Comment` models.** This covers their mass-assignable attributes and the lifecycle hooks that clear the cache.

The frontend part covers three React components:

- `OptimizedImage`: it chooses the image variant, builds the `srcset`, fixes the layout box and keeps the blur flag.
- `ArticleCard`: its picture block, its date line and its comment toggle.
- `ArticleList`: it dispatches each fetch, tracks the loading and error flags, filters the list after a delete, and chooses what to render.

Everything outside the program becomes a parameter of the model:

- `Storage::url`, `json_encode` and SHA-256 are the uninterpreted functions of `Listing.Env`.
- The clock is a parameter `now`.
- The random upload name is a parameter `base`.
- The outcome of each image write is an oracle `writeOk`.
- The browser's locale date formatting is a parameter.
- The outcomes of the confirm dialog and of the HTTP calls are arguments.

## Modules

- **The model's state.** Each piece of state the program changes in place is a class:
  - `CacheStore.Cache`: the cache, a map from key to value, tags and TTL;
  - `Database.Db`: the tables;
  - `ImageOptimization.Disk`: the public disk, i.e. the files and the order of writes;
  - `ArticleList.ListState`, `ArticleCard.CardState` and `OptimizedImage.Loader`: the React state cells.
- **Pure steps.** These are functions, with lemmas about them:
  - `Listing`: clamping, the cache key, ordering, paging, summaries and the ETag;
  - `Search`;
  - the variant plan in `ImageOptimization`;
  - the fallback expressions in the three components.
- **Shared value rules:**
  - `Php`: falsiness, `trim`, `strtolower`;
  - `Js`: truthiness, `||`, optional property access, template-literal text, `trim`;
  - `SqlLike`: the LIKE matcher under a binary collation;
  - `Utf8`: the encoder behind byte-level `substr`;
  - `SrcSet`: the `srcset` syntax and a reader for it.
- **Generic helpers:** `Wrappers`, `Text` and `Decimal`.

## Model

| member | source | states |
|---|---|---|
| Listing.Clamp | project/backend/app/Http/Controllers/ArticleController.php:32-35 | page ≥ 1 and 1 ≤ perPage ≤ 50 for every input. Defaults are page 1 and perPage 20. In-range values are kept, out-of-range ones clamped. offset = (page − 1)·perPage |
| Listing.ListKey | project/backend/app/Http/Controllers/ArticleController.php:41 | every list key starts with the bare list key and is longer than it |
| Listing.ParseListKeyInverse | project/backend/app/Http/Controllers/ArticleController.php:41 | the page and perPage can be read back from the key |
| Listing.ListKeyInjective | project/backend/app/Http/Controllers/ArticleController.php:41 | two keys are equal iff their pages and perPages are equal |
| Listing.ListKeyShape | project/backend/app/Http/Controllers/ArticleController.php:41 | every list key has the `:p=..:pp=..` suffix and differs from the bare key, which is not a list key |
| Listing.PrecedesTransitive | project/backend/app/Http/Controllers/ArticleController.php:65-66 | the (published_at desc, created_at desc) order, with NULL last, is transitive |
| Listing.Insert | project/backend/app/Http/Controllers/ArticleController.php:65-66 | inserting into a sorted list keeps it sorted and adds exactly the one row |
| Listing.SortForListing | project/backend/app/Http/Controllers/ArticleController.php:65-66 | the listing order is sorted and a permutation of the table |
| Listing.Page | project/backend/app/Http/Controllers/ArticleController.php:67-68 | a page has length min(limit, max(0, n − offset)) and its i-th row is row offset + i |
| Listing.PagesConcatenate | project/backend/app/Http/Controllers/ArticleController.php:67-68 | the first k pages concatenate to the first min(k·perPage, n) rows |
| Listing.PagesCoverAll | project/backend/app/Http/Controllers/ArticleController.php:67-68 | enough pages concatenate to the whole sorted list |
| Listing.OffsetsApart | project/backend/app/Http/Controllers/ArticleController.php:35 | an earlier page ends at or before the start of a later one |
| Listing.PagesDisjoint | project/backend/app/Http/Controllers/ArticleController.php:67-68 | two different pages of a list without duplicates share no row |
| Listing.Excerpt | project/backend/app/Http/Controllers/ArticleController.php:78-84 | null content becomes "". Content of at most 200 characters is kept. Longer content becomes its first 200 characters plus "..." (203 in all) |
| Listing.ImageUrl | project/backend/app/Http/Controllers/ArticleController.php:89 | image_url is null iff image_path is PHP-falsy, and otherwise the public URL of the path |
| Listing.Summaries | project/backend/app/Http/Controllers/ArticleController.php:77-91 | the mapping keeps the number and order of the rows |
| Listing.ToSummary | project/backend/app/Http/Controllers/ArticleController.php:77-91 | an entry keeps the row's id, title and both stamps. The author is the user's name iff the author exists. It has the row's comment count, an excerpt of at most 203 characters, and an image URL that is null iff image_path is PHP-falsy |
| Listing.ListItems | project/backend/app/Http/Controllers/ArticleController.php:54-91 | the value `index` caches has at most perPage entries. Its length and contents are stated by the four lemmas that follow |
| Listing.ListItemsLength | project/backend/app/Http/Controllers/ArticleController.php:54-69 | the list has min(perPage, max(0, n − offset)) entries |
| Listing.ListItemsAt | project/backend/app/Http/Controllers/ArticleController.php:54-91 | entry i is the summary of sorted row offset + i |
| Listing.ListItemsOrdered | project/backend/app/Http/Controllers/ArticleController.php:65-66 | the listed summaries are non-increasing by (published_at, created_at) |
| Listing.SortedRowsFromTable | project/backend/app/Http/Controllers/ArticleController.php:54-69 | every sorted row is a row of the table |
| Listing.ListItemsFromTable | project/backend/app/Http/Controllers/ArticleController.php:54-91 | every listed entry is the summary of some row of the table |
| Listing.ETag | project/backend/app/Http/Controllers/ArticleController.php:112 | a weak validator: `W/`, then the payload's digest in double quotes |
| Listing.ETagDeterminesDigest | project/backend/app/Http/Controllers/ArticleController.php:111-112 | two payloads share an ETag iff their SHA-256 digests are equal |
| Listing.ListResponse | project/backend/app/Http/Controllers/ArticleController.php:118-134 | 304 with no body exactly when If-None-Match equals the ETag, and 200 with the payload otherwise. Both carry the ETag and Cache-Control |
| Listing.Revalidation | project/backend/app/Http/Controllers/ArticleController.php:111-125 | sending back an ETag gives 304 iff the payload's digest has not changed |
| CacheStore.WithoutTag | project/backend/app/Http/Controllers/ArticleController.php:269 | a tag flush removes exactly the entries with the tag and keeps the others unchanged |
| CacheStore.Cache.constructor | project/backend/app/Http/Controllers/ArticleController.php:42-43 | an empty cache, taggable or not |
| CacheStore.Cache.Remember | project/backend/app/Http/Controllers/ArticleController.php:102-104 | on a hit, the stored value and no change. On a miss, the computed value, stored under the key with the given tags and TTL |
| CacheStore.Cache.Forget | project/backend/app/Http/Controllers/ArticleController.php:271 | removes exactly that key |
| CacheStore.Cache.Flush | project/backend/app/Models/Article.php:39 | empties the cache |
| CacheStore.Cache.FlushTag | project/backend/app/Models/Article.php:36 | removes exactly the entries with the tag, on a taggable store |
| ArticleController.ListInvalidation | project/backend/app/Http/Controllers/ArticleController.php:267-272 | the controller's invalidation either removes every `articles_list` entry or removes only the bare key, and it changes no entry that it keeps |
| ArticleController.InvalidateList | project/backend/app/Http/Controllers/ArticleController.php:267-272 | the cache afterwards is the controller's invalidation of the old cache |
| ArticleController.ForgettingBaseKeyKeepsPages | project/backend/app/Http/Controllers/ArticleController.php:271 | on a store without tags, forgetting the bare key keeps every cached page unchanged |
| ArticleController.HookClearsPages | project/backend/app/Models/Article.php:32-41 | after the model hook no list page is cached, whether or not the controller's invalidation follows |
| ArticleController.Index | project/backend/app/Http/Controllers/ArticleController.php:32-134 | the page's key is queried exactly on a miss, and then the ordered page is listed and stored for 60 s. On a hit the cached value is returned and nothing changes. The response is the conditional one on the encoded items. Pages stay tagged |
| ArticleController.ListTwice | project/backend/tests/Feature/ArticleListCachingTest.php:35-44 | two list requests with no write in between give equal responses, and the second is served from the cache |
| ArticleController.RevalidateUnchanged | project/backend/app/Http/Controllers/ArticleController.php:118-125 | echoing the ETag just received gives 304 with no body |
| ArticleController.StoreErrors | project/backend/app/Http/Controllers/ArticleController.php:227-232 | each field is in the error bag iff its rule fails. The rules are title required and at most 255 characters, content required, author an existing user, and image an allowed type of at most 2048 KB whose client extension, lower-cased and trimmed, is not one of PHP's (php, php3–php8, phtml, phar), which Laravel's `image` and `mimes` rules refuse |
| ArticleController.SizeGuardSubsumesMax | project/backend/app/Http/Controllers/ArticleController.php:214-231 | once the 2 MiB guard passes, the image rule fails only on the type or on a PHP client extension |
| ArticleController.PhpNamedUploadRefused | project/backend/app/Http/Controllers/ArticleController.php:227-232 | a PNG sent as " PHP" gets an `image` error, so `store` answers 422 |
| ArticleController.UrlMap | project/backend/app/Http/Controllers/ArticleController.php:278 | the same keys, each mapped to its public URL |
| ArticleController.CreatedRow | project/backend/app/Http/Controllers/ArticleController.php:257-264 | `create` keeps all six given attributes, and `image_path` is the `original` variant |
| ArticleController.OptimizeUpload | project/backend/app/Http/Controllers/ArticleController.php:244-255 | the disk holds the writes that succeeded. Success iff all seven succeeded, and then the map's `original` is the original's path. Otherwise the path whose write failed |
| ArticleController.Persist | project/backend/app/Http/Controllers/ArticleController.php:257-279 | appends the new row with the next id, the request's fields and `now`. Answers with its image URL and variant URLs. The cache ends as the hook's result followed by the controller's invalidation |
| ArticleController.Store | project/backend/app/Http/Controllers/ArticleController.php:209-280 | 413 exactly when the image exceeds 2 MiB, checked before validation, so an exact 2 MiB passes. Next, 422 with the error bag, and only when that bag is non-empty. Next, 500 with the failing path. In these three cases no row is added and the cache is unchanged. The disk is also unchanged unless the image step started. A request that passes both checks, with all seven writes succeeding or no image, gets 201: the row and cache are as in Persist, all seven variant files are written, and the answer carries the URL of each variant |
| ArticleController.UpdateErrors | project/backend/app/Http/Controllers/ArticleController.php:338-341 | a field is reported iff it was sent and fails `required` (and `max:255` for the title). Only title and content can be reported |
| ArticleController.Update | project/backend/app/Http/Controllers/ArticleController.php:334-354 | 404 exactly when the id is unknown. For a known id, 422 when a sent field fails, and otherwise the update always succeeds. Of the modelled columns, only the sent title and content change, and the table is untouched when nothing differs. The cache then ends as the controller's invalidation, applied after the model hook when the row changed and to the old cache otherwise. Nothing changes on the error paths |
| ArticleController.Destroy | project/backend/app/Http/Controllers/ArticleController.php:359-379 | 404 iff the id is unknown. Otherwise the row is removed, the `image_path` file is deleted when it is set, and the cache is invalidated |
| ArticleController.DestroyKeepsVariants | project/backend/app/Http/Controllers/ArticleController.php:364-366 | deleting `image_path` after an upload leaves the six resized files unchanged on disk |
| ArticleController.ListAfterStore | project/backend/tests/Feature/ArticleListCachingTest.php:47-68 | after a successful store the next list request queries the table again and lists its current contents |
| ArticleController.ListAfterComment | project/backend/app/Models/Comment.php:29-42 | after a comment is created the next list request queries again, and `api.stats` is gone |
| Invalidation.AfterHook | project/backend/app/Models/Article.php:32-41 | `api.stats` is gone. On a taggable store no `articles_list` entry remains and every other entry is kept unchanged. Otherwise the cache is empty |
| Invalidation.RunHook | project/backend/app/Models/Article.php:32-41 | the cache afterwards is the hook's result on the old cache |
| Invalidation.HookIdempotent | project/backend/app/Models/Article.php:32-41 | running the hook twice gives the same cache as running it once |
| Database.MassAssign | project/backend/app/Models/Article.php:19-26 | mass assignment keeps exactly the given attributes that are fillable, with their values. The Article model allows six, the Comment model three (Comment.php:19-23), and neither list names `id` or `created_at` |
| Database.DeleteWhereId | project/backend/app/Http/Controllers/ArticleController.php:368 | the rows left after deleting an article or a comment are exactly those with another id, and no more than before |
| Database.DeleteWhereIdAppend | project/backend/app/Http/Controllers/ArticleController.php:368 | deleting distributes over concatenation, so the remaining rows keep their table order |
| Database.FindArticle | project/backend/app/Http/Controllers/ArticleController.php:336 | `findOrFail` finds a row with the id, or reports that no row has it |
| Database.CommentCountAppend | project/backend/app/Http/Controllers/ArticleController.php:55 | a new comment adds one to its article's `comments_count` and changes no other article's count |
| ArticleModel.NewRow | project/backend/app/Models/Article.php:19-56 | a new row has the next id and `created_at = now`. The casts are modelled as typed attributes |
| ArticleModel.SetFields | project/backend/app/Models/Article.php:19-26 | only the row with the id changes, and of the modelled columns only in title and content |
| ArticleModel.Create | project/backend/app/Models/Article.php:43 | appends the filled row, and then the `created` hook runs |
| ArticleModel.Update | project/backend/app/Models/Article.php:44 | the row changes only when a field actually differs, and only then does the `updated` hook run |
| ArticleModel.Delete | project/backend/app/Models/Article.php:45 | removes the row, and then the `deleted` hook runs |
| CommentModel.NewRow | project/backend/app/Models/Comment.php:19-23 | a new comment has the next id and `created_at = now` |
| CommentModel.CreatedAtIgnored | project/backend/create_comments_auto.php:75-80 | a `created_at` passed to `create` has no effect |
| CommentModel.SetContent | project/backend/app/Models/Comment.php:19-23 | only the content of the comment with the id changes, among the modelled columns |
| CommentModel.Create | project/backend/app/Models/Comment.php:40 | appends the filled comment, and then the `created` hook runs |
| CommentModel.Update | project/backend/app/Models/Comment.php:41 | the comment changes only when its content differs, and only then does the hook run |
| CommentModel.Delete | project/backend/app/Models/Comment.php:42 | removes the comment, and then the `deleted` hook runs |
| Search.Filter | project/backend/app/Http/Controllers/ArticleController.php:190-192 | keeps exactly the articles whose title or content is LIKE `%q%`, and no more rows than the table has |
| Search.FilterAppend | project/backend/app/Http/Controllers/ArticleController.php:190-192 | filtering distributes over concatenation, so the kept rows stay in table order |
| Search.FilterIsSubstring | project/backend/app/Http/Controllers/ArticleController.php:189-191 | for a query without LIKE's special characters `%`, `_` and the escape `\`, a match means title or content contains q exactly, with no case or accent folding |
| SqlLike.LikeContains | project/backend/app/Http/Controllers/ArticleController.php:190-191 | `%q%` matches a text iff q occurs in it, for q without `%`, `_` or the escape `\` |
| Search.SearchAsWritten | project/backend/app/Http/Controllers/ArticleController.php:181-204 | the code as written: a PHP-falsy q, including "0", gives []. Otherwise the answer is an encoding error exactly when the 200-byte cut of some matching row is not UTF-8. If not, hit i holds the id, title and published_at of matching row i with the decoded cut as its content |
| Search.CutBytes | project/backend/app/Http/Controllers/ArticleController.php:198 | the first min(200, size) bytes of the UTF-8 content |
| Search.Cut | project/backend/app/Http/Controllers/ArticleController.php:198 | the corrected cut: the first min(200, length) characters, with no ellipsis |
| Search.HitOf | project/backend/app/Http/Controllers/ArticleController.php:194-201 | a hit has the id, title and published_at of its row, and its cut content |
| Search.Hits | project/backend/app/Http/Controllers/ArticleController.php:194-201 | one hit per row, in order |
| Search.GuardsDifferOnlyOnZero | project/backend/app/Http/Controllers/ArticleController.php:185 | the corrected guard `NoQuery` (q missing or "") short-circuits only where `!$query` does, and the two differ on q = "0" and on nothing else |
| Search.Search | project/backend/app/Http/Controllers/ArticleController.php:181-204 | the corrected endpoint always answers with a list, never an encoding error. It is [] for a missing or empty q, and otherwise the hits of the matching rows, in table order |
| Search.SearchFindsSubstrings | project/backend/app/Http/Controllers/ArticleController.php:183-198 | every hit comes from an article containing q in title or content, and every such article has a hit |
| Search.AsWrittenAgreesOnAscii | project/backend/app/Http/Controllers/ArticleController.php:181-204 | on ASCII content and a query other than "0", the code as written and the corrected one agree |
| Search.ZeroQueryFindsNothing | project/backend/app/Http/Controllers/ArticleController.php:185 | finding 1: q = "0" finds nothing as written, though the corrected endpoint finds the article titled "0" |
| Search.ByteCutBreaksEncoding | project/backend/app/Http/Controllers/ArticleController.php:198-203 | finding 2: 199 ASCII letters followed by "é" make the as-written response fail to encode, while the corrected one returns the full 200 characters |
| Utf8.DecodeEncode | project/backend/app/Http/Controllers/ArticleController.php:198 | decoding the UTF-8 encoding of any text gives the text back |
| Utf8.EndsOnLeadByteIsNotText | project/backend/app/Http/Controllers/ArticleController.php:198-203 | bytes ending in a lead byte are not the encoding of any text |
| ImageOptimization.Disk.Put | project/backend/app/Services/ImageOptimizationService.php:59 | stores the blob at the path and logs the write |
| ImageOptimization.Disk.Delete | project/backend/app/Http/Controllers/ArticleController.php:365 | removes exactly that file |
| ImageOptimization.OriginalExtension | project/backend/app/Services/ImageOptimizationService.php:42 | the lowered client extension, or "jpg" when that is PHP-falsy (empty or "0"). Never falsy |
| ImageOptimization.PlanOrder | project/backend/app/Services/ImageOptimizationService.php:19-44 | there are seven writes in this order: thumbnail jpg and webp, then medium, then large, then the original. Widths are 300/800/1200, quality is 80, and the paths are `articles/{base}_{label}.jpg`/`.webp` and `articles/{base}_orig.{ext}` |
| ImageOptimization.PlanAt | project/backend/app/Services/ImageOptimizationService.php:29-44 | the two writes of size i are at positions 2i and 2i+1, and the original is last |
| ImageOptimization.PlanKeys | project/backend/app/Services/ImageOptimizationService.php:29-44 | the seven writes carry the seven result keys in order |
| ImageOptimization.Plan | project/backend/app/Services/ImageOptimizationService.php:19-44 | the service makes 2·3 + 1 writes, and the last is the copy of the original to `articles/{base}_orig.{ext}` |
| ImageOptimization.Results | project/backend/app/Services/ImageOptimizationService.php:28-44 | a key is in the result map iff some write of the run has it |
| ImageOptimization.ResultsAt | project/backend/app/Services/ImageOptimizationService.php:28-44 | a key's entry is the path of the last write with that key |
| ImageOptimization.ResultKeys | project/backend/app/Services/ImageOptimizationService.php:19-44 | the result map has exactly the keys thumbnail, thumbnail_webp, medium, medium_webp, large, large_webp and original, each mapped to its path |
| ImageOptimization.OriginalEntry | project/backend/app/Services/ImageOptimizationService.php:43-44 | `original` maps to `articles/{base}_orig.{ext}` |
| ImageOptimization.PlanPathsDistinct | project/backend/app/Services/ImageOptimizationService.php:25-43 | the seven paths are pairwise distinct |
| ImageOptimization.Completed | project/backend/app/Services/ImageOptimizationService.php:29-46 | the number of writes that succeed before the first failure |
| ImageOptimization.SaveResized | project/backend/app/Services/ImageOptimizationService.php:49-60 | the resized blob is on disk at the path iff the write succeeds |
| ImageOptimization.StoreOriginal | project/backend/app/Services/ImageOptimizationService.php:43 | the original copy is on disk at the path iff the write succeeds |
| ImageOptimization.SaveSize | project/backend/app/Services/ImageOptimizationService.php:30-38 | one loop pass does the JPEG, then the WebP, and stops at the first failing write |
| ImageOptimization.Optimize | project/backend/app/Services/ImageOptimizationService.php:17-47 | the disk and log hold exactly the writes that succeeded before the first failure, and those files remain. Success iff all seven succeed, with the seven-key map. Otherwise it fails with the failing path |
| SrcSet.ParseRenderInverse | project/frontend/src/components/OptimizedImage.jsx:22 | reading back a rendered `srcset` gives its candidates in order, when no URL holds a space |
| Js.Coalesce | project/frontend/src/components/OptimizedImage.jsx:4 | a chain of JavaScript or-operators is truthy iff some operand is truthy. It is the first truthy operand, or else the last operand |
| OptimizedImage.Jpg | project/frontend/src/components/OptimizedImage.jsx:4 | `images[size]` if truthy, else `large`, else `original`, and truthy iff one of them is |
| OptimizedImage.Webp | project/frontend/src/components/OptimizedImage.jsx:5 | `images[size + "_webp"]` if truthy, else `large_webp` |
| OptimizedImage.Dimensions | project/frontend/src/components/OptimizedImage.jsx:14-15 | 300×169, 800×450 or 1200×675 (the last for any other size). The height is 9/16 of the width, rounded |
| OptimizedImage.SrcSetText | project/frontend/src/components/OptimizedImage.jsx:22 | the template is the `srcset` of thumbnail 300w, medium 800w and large 1200w, each falling back to `jpg` |
| OptimizedImage.SrcSetReadsBack | project/frontend/src/components/OptimizedImage.jsx:22 | a browser reading the attribute finds those three candidates, in that order |
| OptimizedImage.View | project/frontend/src/components/OptimizedImage.jsx:17-31 | the WebP `<source>` appears iff `webp` is truthy. The `<img>` has the `jpg` source, the `srcset`, the layout box, and a blur filter exactly while blurred |
| OptimizedImage.CompleteImagesShowTheirSize | project/frontend/src/components/OptimizedImage.jsx:4-22 | when every stored variant exists, a named size shows its own JPEG and WebP, and the `srcset` lists the three named variants |
| OptimizedImage.Loader.constructor | project/frontend/src/components/OptimizedImage.jsx:6-12 | starts blurred and requests `jpg` |
| OptimizedImage.Loader.Rerender | project/frontend/src/components/OptimizedImage.jsx:8-12 | a new request starts only when `jpg` changed, and the blur is not reset |
| OptimizedImage.Loader.Loaded | project/frontend/src/components/OptimizedImage.jsx:11 | a completed load clears the blur and changes nothing else |
| ArticleCard.JpgMedium | project/frontend/src/components/ArticleCard.jsx:43 | `images.medium` if truthy, else `image_url`. It is truthy whenever the picture block renders |
| ArticleCard.JpgLarge | project/frontend/src/components/ArticleCard.jsx:44 | `images.large` if truthy, else `image_url` |
| ArticleCard.CardWebp | project/frontend/src/components/ArticleCard.jsx:45 | truthy iff `images.medium_webp` is; otherwise null or "" |
| ArticleCard.CardSrcSet | project/frontend/src/components/ArticleCard.jsx:53 | the template is the `srcset` of jpgMedium at 600w and jpgLarge at 1200w |
| ArticleCard.CardSrcSetReadsBack | project/frontend/src/components/ArticleCard.jsx:53 | read back, it gives those two candidates |
| ArticleCard.Picture | project/frontend/src/components/ArticleCard.jsx:41-65 | the block renders iff `images` is an object and `medium` or `image_url` is truthy. The `<source>` appears iff `medium_webp` is truthy |
| ArticleCard.HeaderOf | project/frontend/src/components/ArticleCard.jsx:41-69 | the card renders its picture block and, whenever `images` is an object, an `OptimizedImage` of the medium size |
| ArticleCard.MediumShownTwice | project/frontend/src/components/ArticleCard.jsx:41-69 | an article with a medium variant shows it in both images |
| ArticleCard.StoredVariantsWin | project/frontend/src/components/ArticleCard.jsx:41-53 | with medium and large stored, the card shows them whatever `image_url` holds |
| ArticleCard.FormatDate | project/frontend/src/components/ArticleCard.jsx:24-37 | "N/A" for a falsy date, otherwise the locale rendering |
| ArticleCard.CardState.constructor | project/frontend/src/components/ArticleCard.jsx:7-8 | the comments start closed, and the counter starts at `comments_count` or 0 |
| ArticleCard.CardState.Footer | project/frontend/src/components/ArticleCard.jsx:76-100 | `CommentList` is rendered iff the comments are open. The button says "Masquer" exactly then, and "Afficher" otherwise. It ends with the counter in parentheses |
| ArticleCard.CardState.Toggle | project/frontend/src/components/ArticleCard.jsx:77 | flips `showComments` and keeps the counter |
| ArticleCard.CardState.CountLoaded | project/frontend/src/components/ArticleCard.jsx:15 | the counter becomes the loaded count |
| ArticleCard.ToggleTwice | project/frontend/src/components/ArticleCard.jsx:77 | two clicks restore the card's state |
| ArticleList.Dispatch | project/frontend/src/components/ArticleList.jsx:23-28 | the search endpoint receives the query untrimmed |
| ArticleList.DispatchSearchesIffNonBlank | project/frontend/src/components/ArticleList.jsx:23 | search is called iff the query holds a non-white-space character. Otherwise the list is fetched |
| ArticleList.RemoveId | project/frontend/src/components/ArticleList.jsx:49 | the filter keeps exactly the entries with another id |
| ArticleList.RemoveIdAppend | project/frontend/src/components/ArticleList.jsx:49 | filtering works piecewise, so the kept entries stay in order |
| ArticleList.RemoveIdAbsent | project/frontend/src/components/ArticleList.jsx:49 | filtering an id that no entry has changes nothing |
| ArticleList.RemoveIdIdempotent | project/frontend/src/components/ArticleList.jsx:49 | deleting the same id twice is the same as deleting it once |
| ArticleList.ListState.constructor | project/frontend/src/components/ArticleList.jsx:6-8 | the list starts empty, loading and without an error |
| ArticleList.ListState.CurrentView | project/frontend/src/components/ArticleList.jsx:56-75 | the branches are tried in order: loading, error, empty, list. The list's header count is `articles.length` |
| ArticleList.ListState.BeginFetch | project/frontend/src/components/ArticleList.jsx:18-28 | sets loading, clears the error and picks the endpoint |
| ArticleList.ListState.EndFetch | project/frontend/src/components/ArticleList.jsx:33-39 | on success the list is the data. On failure the fixed message is set. Either way loading ends |
| ArticleList.ListState.HandleDelete | project/frontend/src/components/ArticleList.jsx:42-54 | a declined dialog or a failed call changes nothing. Otherwise the entries with the id are removed |
| ArticleList.Fetch | project/frontend/src/components/ArticleList.jsx:16-40 | after a fetch: not loading; an empty response shows the empty message, a non-empty one the list, and a failure the message |

## Left out

- `show` (ArticleController.php:152-175) is a field projection and is not modelled.
- `uploadImage` (ArticleController.php:285-329) is not modelled either. It has the same 2 MiB guard as `store`. Its validator checks only `image`, and as `required` rather than `nullable`; the field rules of `store` do not apply. It then calls the same service and answers with the URL map.
- Route middleware, authentication, the HTTP layer and the exact JSON bodies of the error responses are not modelled. Outcomes are datatypes with their status codes.
- Timing and logging are not modelled. This covers `microtime`, `X-Response-Time`, `Log::info`, `performance.now`, `loadTime` and `console.*`.
- Real TTL expiry is not modelled. The TTL is stored with each entry, but entries never expire. Concurrent cache fills are not modelled.
- Laravel's tag namespacing is reduced to a tag set per entry.
- Pixel work is not modelled: resizing, aspect ratio, upsizing and JPEG/WebP encoding. A resized file is a `Blob` recording width, quality and format. Each write may fail through the `writeOk` oracle.
- How Laravel guesses a file's type from its content is not modelled. An upload carries its size, the guessed extension and the client extension.
- `hashName` and `makeDirectory` are not modelled. The random base name is a parameter.
- `put` and `storeAs` returning false instead of throwing are not modelled. A failing write is modelled as the exception the controller catches.
- SHA-256, `json_encode` and `Storage::url` are uninterpreted functions. The search response's `EncodingError` stands for `json_encode` failing on bytes that are not UTF-8.
- Database.Article and Database.Comment have no `updated_at` column. Both models keep Eloquent's timestamps, so `create` sets `updated_at` and every update that changes a column sets it again, before the `updated` hook runs. "Only title and content change" in ArticleController.Update, ArticleModel.SetFields and CommentModel.SetContent is said of the modelled columns.
- The timestamp casts and `toJSON` are not modelled: timestamps are integers. The `array` cast of `image_versions` is a typed map attribute.
- Eager loading of the author and database-level cascades are not modelled.
- Search.Search: the rows come in table order, because the query has no ORDER BY.
- Listing.SortForListing: rows with equal stamps keep their table order. The database leaves that order open.
- Listing.Clamp: does not model PHP's `(int)` cast of the query string; `page` and `per_page` arrive as optional integers. A non-numeric string casts to 0, and an over-long number saturates at PHP_INT_MAX. It also does not model 64-bit overflow of `($page - 1) * $perPage`: past PHP_INT_MAX PHP turns the product into a float, which the query builder casts back to an integer for the offset. The model's offset is the unbounded product.
- Search.SearchFindsSubstrings: holds only for queries without LIKE's special characters: the wildcards `%` and `_` and the escape character `\`. For other queries Search.Filter still states the exact LIKE semantics.
- The browser side of the components is not modelled:
  - `toLocaleDateString` is a parameter of ArticleCard.FormatDate.
  - `getComments` is not modelled; its outcome is ArticleCard.CardState.CountLoaded.
  - `window.confirm`, `alert` and the HTTP calls are arguments.
  - `new Image()` loading is the call to OptimizedImage.Loader.Loaded.
  - JSX layout and styling are not modelled.
- The `CommentList` component is not part of this model.
- ArticleList.ListState.HandleDelete filters the list current when the call completes. The source filters the `articles` captured by the render that created the handler, so a fetch that settles during the delete request would be overwritten. The model does not capture that interleaving.
- ArticleList.Fetch runs one fetch to completion. Overlapping fetches, where a stale response lands after a newer one, are not modelled.
- OptimizedImage.Loader.Loaded accepts the load of any earlier request, as the source does: a stale image finishing clears the blur for the current one.
- OptimizedImage.Dimensions uses integer rounding of 9w/16. This equals the floating-point `Math.round` for the three widths used.
- SrcSet.Parse reads a URL up to its first space, so the round trip is stated only for URLs without spaces.

## Findings

| source | as written | input that shows it | evidently intended | confidence | as-written member | corrected member |
|---|---|---|---|---|---|---|
| project/backend/app/Http/Controllers/ArticleController.php:185 | `!$query` treats the string "0" as no query and returns [] | `q = "0"` against an article titled "0" | only a missing or empty query short-circuits. "0" is searched like any other text | not executed | Search.ZeroQueryFindsNothing | Search.Search |
| project/backend/app/Http/Controllers/ArticleController.php:198 | `substr` cuts the content at 200 bytes, which can split a multi-byte UTF-8 character, so `json_encode` fails and the endpoint answers with an error | content of 199 "a" followed by "é", with q = "a" | a cut of 200 characters (`mb_substr`, as `index` does), which always encodes | not executed | Search.ByteCutBreaksEncoding | Search.Search |
