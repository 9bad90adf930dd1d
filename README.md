# News MERN app: the article and comment core in Dafny

This project models the server side of a news site built on Express and
Mongoose, plus the comment section of its React client:

- the `News` schema, with its validators, enumerations, defaults and the
  pre-save hook that derives the slug and refreshes `updatedAt`;
- the reader handlers: `userNewsController.js` covers the public listings,
  the detail page with its view counter, and the like and favorite toggles;
- the administrator handlers: `adminNewsController.js` covers create,
  update, delete, the featured toggle, the admin listing and the dashboard
  statistics;
- the comment handlers: `commentController.js` covers the threaded listing,
  add, edit, delete and the comment like toggle;
- the tree transforms of `Comments.jsx`, which keep the client's two-level
  comment list in step with the server.

Each piece is modelled as follows.

- **The database.** The three collections the handlers touch are the
  `seq` fields of a `Store.Database` object, in insertion order. Fresh
  object ids come from a counter field. The class predicate `Valid()` holds
  the invariants every handler keeps:
  - every stored article satisfies the schema;
  - `likesCount == |likes|`;
  - no user likes an article twice;
  - views are non-negative;
  - a published article has a publication date;
  - ids and slugs are unique;
  - favorites hold no duplicates.
- **Handlers that write.** Each one is a method on the database. It is
  proved against a function on documents (`AfterLike`, `AfterView`,
  `Updated`, `AfterFeatureToggle`, `AfterCommentLike`). The function's
  properties are lemmas.
- **Handlers that only read.** These are functions over the collections.
  - A Mongo query becomes `Filter`, then a sort `SortBy` on a key,
    then `Paginate` or `Top`.
  - `$group` becomes `CategoryCounts`.
- **Outcomes.** A handler returns `Result`: `Ok`, `NotFound` (404),
  `Forbidden` (403), or `Internal(fault)`. `Internal` covers the 500s of
  the catch blocks: a failed validator, a duplicate slug, a negative skip,
  or a missing user document.
- **Inputs from outside.** `Date.now()` is a `now` parameter. The
  authenticated requester is an `Actor`. `parseInt(...)` is an
  `Option<int>`, with `None` for `NaN`. MongoDB `$text` matching is a
  predicate parameter `textMatch`.
- **The client.** `Comments.jsx` becomes functions on a `ViewState` value.
  Each handler's server call is an outcome parameter. The in-place
  `comment.replies = ...` of the delete handler is a method over an
  `array`.

Where the code and its own comments or documentation disagree, the model
follows the code:

- Publishing an archived article stamps `publishedAt` again. The comment
  in `updateNews` says "for the first time", but the check only looks at
  the stored status (`PublishStamps`).
- `findByIdAndUpdate` does not run the `save` hook, so an update never
  changes the slug, even when the title changes. `updatedAt` is set
  explicitly by the patch.
- The schema validators that the route's own checks do not cover end in
  the catch block's 500, not a 400 (`Internal(ValidationFailed)`). On
  create these are the `maxlength` limits of title and summary and the
  status enumeration. On update every schema validator runs there, through
  `runValidators`. A duplicate slug is also a 500 (`Internal(DuplicateKey)`).
- A reply to a reply is not flattened into its top-level thread. The
  listing only fetches the direct replies of top-level comments, so such a
  comment is listed nowhere (`NoReplyToReply`).
- `getFavorites` reports as `total` the length of the user's favorites
  list, which also counts unpublished and deleted articles.

## Model

| member | source | states |
|---|---|---|
| NewsModel.ParseCategory | backend/models/News.js:22-26 | a string is accepted exactly when it names one of the nine categories, and the category got back has that name |
| NewsModel.AllCategoriesComplete | backend/models/News.js:25 | the enumeration lists every category exactly once |
| NewsModel.ParseStatus | backend/models/News.js:40-44 | a status string is accepted exactly when it names draft, published or archived |
| NewsModel.StrippedAlphabet | backend/models/News.js:77-79 | after lower-casing and stripping, a title holds only `a-z`, `0-9` and spaces |
| NewsModel.SlugStemAlphabet | backend/models/News.js:77-80 | the slug stem holds only `[a-z0-9-]` and no whitespace |
| NewsModel.SlugStemCollapsesRuns | backend/models/News.js:80 | each maximal run of whitespace becomes exactly one hyphen, and no two hyphens are adjacent |
| NewsModel.NoAdjacentHyphens | backend/models/News.js:80 | collapsing a hyphen-free string never yields two adjacent hyphens, and keeps its first character or maps it to one hyphen |
| NewsModel.CollapseAlphabet | backend/models/News.js:80 | collapsing yields only hyphens and characters of the input that are not whitespace |
| NewsModel.SlugsDifferByTimestamp | backend/models/News.js:77-80 | the same title saved at two different instants gets two different slugs |
| NewsModel.PreSave | backend/models/News.js:75-84 | the slug is derived again exactly when the title was modified, `updatedAt` becomes `now`, and nothing else changes |
| NewsModel.CreateDocument | backend/models/News.js:3-84 | fails exactly when a validator rejects the fields; otherwise the title and tags are trimmed, defaults are filled, the counters start at zero, both timestamps are `now`, and the slug is derived from the title |
| Text.Trim | backend/models/News.js:7 | the result neither starts nor ends with whitespace |
| Text.TrimSlice | backend/models/News.js:7 | the trim is a slice of the input with only whitespace before and after it |
| Text.TrimFixpoint | backend/models/News.js:7 | a string is its own trim exactly when it neither starts nor ends with whitespace |
| Text.TrimAfterSpace | frontend/src/pages/admin/NewsForm.jsx:41 | the space the join puts after a comma is trimmed away again from a trimmed tag |
| Text.TrimIdempotent | backend/models/News.js:29 | trimming twice is trimming once |
| Text.TrimPadded | backend/controllers/adminNewsController.js:17 | leading whitespace in front of a trimmed string is removed by trim, and the string is kept |
| Text.TrimEach | backend/controllers/adminNewsController.js:17 | one entry per part, each the trim of that part |
| Text.Lower | backend/models/News.js:78 | same length, each ASCII capital lowered and every other character kept |
| Text.Decimal | backend/models/News.js:80 | the decimal spelling of the timestamp is digits only, with two or more digits exactly from 10 on |
| Text.DecimalInjective | backend/models/News.js:80 | different timestamps have different decimal spellings |
| Text.Split | backend/controllers/adminNewsController.js:17 | one part more than there are separators, and no part holds the separator |
| Text.SplitAtFirst | backend/controllers/adminNewsController.js:17 | splitting at the first separator gives the prefix and the split of the rest |
| Text.Utf16Length | backend/models/News.js:8 | the UTF-16 length lies between the code-point length and twice it |
| Engagement.Toggle | backend/controllers/userNewsController.js:184-201 | the list shrinks by one when the element is present and grows by one when it is absent |
| Engagement.ToggleMultiset | backend/controllers/userNewsController.js:184-201 | a toggle removes exactly one occurrence of a present element or adds exactly one of an absent one |
| Engagement.ToggleKeepsOthersInOrder | backend/controllers/userNewsController.js:184-201 | with the toggled element removed, the list is unchanged: other entries keep their order |
| Engagement.ToggleMembership | backend/controllers/userNewsController.js:184-201 | after a toggle the element is present exactly when it was absent, and no other element's membership changes |
| Engagement.TogglePreservesNoDup | backend/controllers/userNewsController.js:184-201 | a duplicate-free list stays duplicate-free |
| Engagement.ToggleTwiceFromAbsent | backend/controllers/userNewsController.js:184-201 | two toggles of an absent element restore the list exactly |
| Engagement.ToggleTwiceFromPresent | backend/controllers/userNewsController.js:184-201 | two toggles of a present element move it to the end and keep the multiset |
| Engagement.WithoutConcat | backend/controllers/userNewsController.js:184-201 | removing every occurrence distributes over concatenation |
| Engagement.WithoutAbsent | backend/controllers/userNewsController.js:184-201 | removing an absent element changes nothing |
| Query.ParamOr | backend/controllers/userNewsController.js:11-12 | a parsed non-zero parameter is used; NaN and 0 fall back to the default |
| Query.CeilDiv | backend/controllers/userNewsController.js:44 | `Math.ceil(total / limit)` brackets the total between the previous and this multiple of the limit, for either sign of the limit |
| Query.Window | backend/controllers/userNewsController.js:37-38 | `skip(skip).limit(limit)` is the slice starting at `skip`, of the capped length |
| Query.Paginate | backend/controllers/userNewsController.js:11-45 | the error exactly for a negative skip; otherwise page and total are reported, `totalPages` is the ceiling, and the data is the window at `(page-1)*limit` with at most `|limit|` entries |
| Query.EveryMatchOnItsPage | backend/controllers/userNewsController.js:11-44 | with a positive limit, the `i`-th sorted match is listed on page `i / limit + 1` at its offset, and that page is within the page count |
| Query.SortedPageComplete | backend/controllers/userNewsController.js:34-44 | every match is listed on some page between 1 and the page count of the matches, whatever `total` is reported |
| Query.Filter | backend/controllers/userNewsController.js:15-32 | the result holds exactly the elements that satisfy the condition |
| Query.FilterAll | backend/controllers/adminNewsController.js:61 | a condition every element satisfies keeps the whole collection |
| Query.SortBy | backend/controllers/userNewsController.js:36 | the result is sorted by the key and is a permutation of the input |
| Query.Top | backend/controllers/userNewsController.js:313-314 | `sort(...).limit(n)` gives the smaller of `n` and the number of matches, sorted, all matching, and no left-out match sorts before a listed one |
| Query.StatusCountsPartition | backend/controllers/adminNewsController.js:227-229 | the three status counts add up to the number of articles |
| Query.Groups | backend/controllers/userNewsController.js:374-378 | each group carries its category's positive number of articles |
| Query.GroupsCover | backend/controllers/userNewsController.js:374-378 | every category that occurs gets a group |
| Query.CategoryCounts | backend/controllers/userNewsController.js:374-380 | the groups are sorted by count, descending |
| Query.CategoryCountsCounts | backend/controllers/userNewsController.js:374-380 | every group's count is the positive number of articles of its category |
| Query.CategoryCountsCover | backend/controllers/userNewsController.js:374-380 | a category has a group exactly when some article belongs to it |
| Query.CategoryCountsNoDup | backend/controllers/userNewsController.js:374-380 | no category is grouped twice |
| Query.CategoryCountsSum | backend/controllers/userNewsController.js:374-380 | the group counts add up to the number of articles |
| Query.SumOverAllCategories | backend/controllers/userNewsController.js:374-380 | the per-category counts over all categories add up to the number of articles |
| Store.Find | backend/controllers/userNewsController.js:61-64 | the first position satisfying the condition, or -1 exactly when none does |
| Store.FindNews | backend/controllers/adminNewsController.js:89 | `findById` on articles: -1 exactly when no article has the id, otherwise an article with it |
| Store.FindUser | backend/controllers/userNewsController.js:233 | `findById` on users: -1 exactly when no user has the id |
| Store.FindComment | backend/controllers/commentController.js:108 | `findById` on comments: -1 exactly when no comment has the id |
| Store.Database.constructor | backend/models/News.js:3-72 | a database of registered users, with no articles and no comments, is valid |
| Store.ReplaceArticle | backend/models/News.js:10-13 | replacing an article by a valid one with the same id and slug keeps ids and slugs unique |
| Store.ReplaceUser | backend/controllers/userNewsController.js:236-251 | replacing a user with the same id and duplicate-free favorites keeps the users valid |
| Store.ReplaceComment | backend/controllers/commentController.js:125-126 | replacing a comment with the same id keeps comment ids unique |
| UserNews.AfterLike | backend/controllers/userNewsController.js:184-209 | after a like the count equals the list length, the user is in `likes` exactly when they were not, the count moved by one, and only `likes`, `likesCount` and `updatedAt` changed |
| UserNews.LikeTwice | backend/controllers/userNewsController.js:184-201 | two likes restore membership and count; from "not liked" the list comes back exactly, from "liked" only the user's position moves to the end |
| UserNews.ToggleLike | backend/controllers/userNewsController.js:173-217 | 404 with nothing changed for an unknown id; otherwise exactly that article becomes its `AfterLike`, and the response tells whether the user now likes it and gives the new count |
| UserNews.ToggleFavorite | backend/controllers/userNewsController.js:222-263 | 404 for an unknown article and 500 for a missing user document, both with nothing changed; otherwise only that user's favorites toggle the article id, and the article is untouched |
| UserNews.AfterView | backend/controllers/userNewsController.js:73-75 | views go up by exactly one, the slug is kept, and `updatedAt` is refreshed |
| UserNews.GetNewsBySlug | backend/controllers/userNewsController.js:59-101 | only a published article with the slug is found (404 otherwise, nothing changed); it is saved with one more view; both flags are false without a viewer; a missing viewer document is a 500 after the view was counted |
| UserNews.SlugFindsOne | backend/models/News.js:10-13 | at most one published article carries a given slug |
| Query.SortedPage | backend/controllers/userNewsController.js:34-45 | an error exactly for a negative skip; otherwise the reported total, page and page count, and the page's data is exactly the `skip`/`limit` window of the matches sorted by the key; it is itself sorted and holds only matches |
| UserNews.GetPublishedNews | backend/controllers/userNewsController.js:9-54 | every listed article is published and passes every given filter; the data is the page's window of all matches newest first; `total` is the number of matches; an error exactly for a negative skip, otherwise `currentPage` is the page and `totalPages` the ceiling of `total / limit` |
| UserNews.PublishedListingComplete | backend/controllers/userNewsController.js:9-54 | every matching article is listed on some page between 1 and `totalPages` |
| UserNews.GetNewsByCategory | backend/controllers/userNewsController.js:135-168 | only published articles of that category; the data is the page's window of all of them newest first; `total` counts them; an error exactly for a negative skip, otherwise `currentPage` is the page and `totalPages` the ceiling; an unknown category lists nothing |
| UserNews.CategoryListingComplete | backend/controllers/userNewsController.js:135-168 | every published article of the category is listed on some page between 1 and `totalPages` |
| UserNews.GetFavorites | backend/controllers/userNewsController.js:268-301 | a 500 for a missing user; otherwise only the user's published favorites, the data being the page's window of all of them newest first, with `total` the length of the favorites list; once the user exists, an error exactly for a negative skip, otherwise `currentPage` is the page and `totalPages` the ceiling |
| UserNews.FavoritesListingComplete | backend/controllers/userNewsController.js:268-301 | every published favorite is listed on some page between 1 and the page count of the published favorites |
| UserNews.FavoritesTotalCountsUnpublished | backend/controllers/userNewsController.js:275-290 | in a valid store, a favorite whose article is missing or unpublished is never listed, and `total` exceeds the number of favorites that any page can list |
| UserNews.GetFeaturedNews | backend/controllers/userNewsController.js:106-130 | exactly `limit` (default 5) featured published articles, or all when fewer, newest first; no left-out one is newer than a listed one |
| UserNews.GetTrendingNews | backend/controllers/userNewsController.js:306-327 | exactly `limit` (default 10) published articles, or all when fewer, by views and then likes, descending; no left-out published article ranks above a listed one |
| UserNews.GetRelatedNews | backend/controllers/userNewsController.js:332-367 | 404 exactly for an unknown id; otherwise five other published articles sharing the category or a tag, or all when fewer, newest first; no related article left out is newer than a listed one |
| UserNews.GetCategories | backend/controllers/userNewsController.js:372-390 | published articles grouped by category, largest first, each category with a published article once, and the counts add up to the number published |
| AdminNews.ParseTags | backend/controllers/adminNewsController.js:17 | one tag per comma plus one, none holding a comma, each trimmed |
| AdminNews.CreateTags | backend/controllers/adminNewsController.js:17 | a falsy tags string gives no tags, otherwise the parsed list |
| AdminNews.ParseAtFirst | backend/controllers/adminNewsController.js:17 | parsing splits off the trimmed text before the first comma |
| AdminNews.TagsRoundTrip | frontend/src/pages/admin/NewsForm.jsx:41 | parsing the form's `tags.join(', ')` gives back a non-empty list of trimmed tags without commas |
| AdminNews.PaddedRoundTrip | backend/controllers/adminNewsController.js:139 | the round trip also holds behind leading whitespace |
| AdminNews.PaddedStep | backend/controllers/adminNewsController.js:139 | one step of the round trip: the first tag, then the rest after the separator |
| AdminNews.JoinStep | frontend/src/pages/admin/NewsForm.jsx:41 | the joined list is the first tag, a comma, and the space-led join of the rest |
| Text.TrimEachFixed | backend/models/News.js:27-30 | trimming tags that are already trimmed, as the schema setter does after the controller, changes nothing |
| AdminNews.CreateFields | backend/controllers/adminNewsController.js:10-23 | the status defaults to draft, the article is featured only for an explicit true, `publishedAt` is `now` exactly for status published, and the tags are parsed |
| AdminNews.CreateDefaults | backend/controllers/adminNewsController.js:20-22 | without status or flag the article is an unfeatured draft with no date |
| AdminNews.CreateNews | backend/controllers/adminNewsController.js:8-37 | a validation failure or a slug already taken is an error with nothing stored; otherwise the document with a fresh id is appended, and it is published exactly when it carries today's date |
| Store.AppendArticle | backend/controllers/adminNewsController.js:12-22 | appending an article with the next id and an unused slug keeps ids and slugs unique under the advanced counter |
| Store.Database.InsertArticle | backend/controllers/adminNewsController.js:12-22 | the article is appended, the counter advances, users and comments are untouched and the store stays valid |
| AdminNews.CreatedInvariant | backend/controllers/adminNewsController.js:12-23 | a created document satisfies the stored-article invariant |
| AdminNews.BuildPatch | backend/controllers/adminNewsController.js:125-145 | the patch always sets `updatedAt`, sets tags only for a truthy string, and sets `publishedAt` exactly when the status becomes published from another status |
| AdminNews.ApplyPatch | backend/controllers/adminNewsController.js:147-151 | fails exactly when a validator rejects the patch; otherwise the slug, likes, views, author and creation date are kept, absent keys keep stored values, and the title and tags are trimmed |
| AdminNews.Updated | backend/controllers/adminNewsController.js:114-163 | an updated valid article stays valid |
| AdminNews.RepublishKeepsDate | backend/controllers/adminNewsController.js:142-145 | saving a published article as published keeps its date |
| AdminNews.PublishStamps | backend/controllers/adminNewsController.js:142-145 | publishing an unpublished article stamps the update time, also after an archive |
| AdminNews.EmptyTagsKept | backend/controllers/adminNewsController.js:138-140 | an empty tags string leaves the stored tags |
| AdminNews.UpdatedTagsParsed | backend/controllers/adminNewsController.js:138-140 | tags set by an update are stored exactly as parsed |
| AdminNews.UpdateNews | backend/controllers/adminNewsController.js:114-163 | 404 for an unknown id and a validation error, both with nothing changed; otherwise the article is replaced in place by its update |
| AdminNews.DeleteNews | backend/controllers/adminNewsController.js:168-191 | 404 for an unknown id; otherwise exactly that article leaves, comments and users are untouched, and no article with the id remains |
| Engagement.RemoveAtKeeps | backend/controllers/adminNewsController.js:168-191 | removing one entry keeps a property of every entry, keeps pairwise-apart entries apart, and leaves only entries apart from the removed one |
| AdminNews.AfterFeatureToggle | backend/controllers/adminNewsController.js:207-208 | the flag is negated and only `updatedAt` changes besides it |
| AdminNews.FeatureToggleTwice | backend/controllers/adminNewsController.js:207-208 | two toggles restore the flag and change only `updatedAt` |
| AdminNews.ToggleFeatured | backend/controllers/adminNewsController.js:196-220 | 404 for an unknown id; otherwise only that article's flag is negated and saved |
| AdminNews.GetNewsById | backend/controllers/adminNewsController.js:87-109 | 404 exactly when no article has the id, otherwise that article, whatever its status |
| AdminNews.GetAllNewsAdmin | backend/controllers/adminNewsController.js:42-82 | articles of any status that pass each given filter; the data is the page's window of all matches newest created first, with `total` the number of matches; an error exactly for a negative skip, otherwise `currentPage` is the page and `totalPages` the ceiling |
| AdminNews.AdminListingComplete | backend/controllers/adminNewsController.js:42-82 | every article that passes the filters is listed on some page between 1 and `totalPages` |
| AdminNews.AdminUnfilteredTotal | backend/controllers/adminNewsController.js:42-61 | with no filter the total counts every article |
| AdminNews.RecentFacts | backend/controllers/adminNewsController.js:250-253 | the recent list holds the five newest articles by creation, or all of them when there are fewer |
| AdminNews.DashboardStats | backend/controllers/adminNewsController.js:225-273 | status counts split the total with archived counted only there; each occurring category has exactly one count, sorted descending, adding up to the total; engagement is the sums, and zero for an empty collection; recent holds the five newest |
| CommentThreads.Replies | backend/controllers/commentController.js:30-32 | exactly the comments whose parent is the id, oldest first |
| Query.SortedMatches | backend/controllers/commentController.js:30-32 | sorting what passes a condition holds exactly the elements that pass it, in key order |
| CommentThreads.WithReplies | backend/controllers/commentController.js:28-38 | each listed comment is paired with its replies |
| CommentThreads.GetComments | backend/controllers/commentController.js:7-54 | only the article's top-level comments, the page's window (default limit 20) of all of them newest first, with `total` counting top-level comments only; each carries exactly its direct replies, oldest first; an error exactly for a negative skip, otherwise `currentPage` is the page and `totalPages` the ceiling |
| CommentThreads.CommentsListingComplete | backend/controllers/commentController.js:7-54 | every top-level comment of the article heads a thread, with all its replies, on some page between 1 and `totalPages` |
| CommentThreads.TopLevel | backend/controllers/commentController.js:13-21 | exactly the comments of the article that have no parent |
| CommentThreads.NewestFirstOrder | backend/controllers/commentController.js:23 | a list sorted on the newest-first key has descending creation times |
| CommentThreads.NoReplyToReply | backend/controllers/commentController.js:30 | a reply to a reply is never listed under the top-level comment |
| CommentThreads.AddComment | backend/controllers/commentController.js:59-101 | 404 with nothing stored for an unknown article or an unresolved parent; otherwise the new comment with a fresh id, no likes and time `now` is appended, with its parent as given |
| Store.AppendComment | backend/controllers/commentController.js:82-87 | appending a comment with the next id keeps comment ids unique under the advanced counter |
| Store.Database.InsertComment | backend/controllers/commentController.js:82-87 | the comment is appended, the counter advances, news and users are untouched and the store stays valid |
| CommentThreads.UpdateComment | backend/controllers/commentController.js:106-140 | 404 for an unknown id; 403 for anyone but the author, administrators included; otherwise only the content changes |
| CommentThreads.DeleteComment | backend/controllers/commentController.js:145-180 | 404 for an unknown id; 403 unless author or administrator; otherwise exactly the comment and its direct replies leave, and deeper replies stay |
| CommentThreads.FilterKeepsValid | backend/controllers/commentController.js:165-168 | removing comments keeps the collection valid |
| Query.FilterKeeps | backend/controllers/commentController.js:165-168 | a property of every element and a relation of every ordered pair both survive filtering |
| CommentThreads.AfterCommentLike | backend/controllers/commentController.js:196-218 | the count equals the list length, the user is present exactly when absent before, and only likes and count change |
| CommentThreads.CommentLikeTwice | backend/controllers/commentController.js:196-211 | two toggles restore membership and count, and restore the comment exactly from "not liked" |
| CommentThreads.ToggleCommentLike | backend/controllers/commentController.js:185-227 | 404 for an unknown id; otherwise only that comment is toggled, and the response gives the new state |
| CommentsView.AppendReply | frontend/src/components/Comments.jsx:45-55 | the top-level list keeps its length, order and comments; only threads with the target id get the reply at the end |
| CommentsView.Submit | frontend/src/components/Comments.jsx:31-66 | a signed-out viewer, blank text or a failed call changes nothing; otherwise the comment is prepended with no replies, or appended as a reply, and the form is cleared |
| CommentsView.StartReply | frontend/src/components/Comments.jsx:199-201 | the Reply button of a top-level comment selects that comment and changes nothing else |
| CommentsView.ReplyAddsCopies | frontend/src/components/Comments.jsx:45-55 | the comments on screen grow by one copy of the reply per thread with the target id |
| CommentsView.MatchingOnce | frontend/src/components/Comments.jsx:48 | with distinct top-level ids, a shown id is matched by exactly one thread |
| CommentsView.ReplyLands | frontend/src/components/Comments.jsx:45-61 | a reply through a Reply button keeps the header count, ends that thread, adds exactly one comment on screen and clears the form |
| CommentsView.TopLevelLands | frontend/src/components/Comments.jsx:57 | a new top-level comment comes first, the rest keeps its order, and the header count rises by one |
| CommentsView.UpdateIn | frontend/src/components/Comments.jsx:79-81 | the replies with the id change and the others stay |
| CommentsView.UpdateWhere | frontend/src/components/Comments.jsx:72-85 | a matching top-level comment changes and keeps its replies; otherwise only the replies with the id change; the shape is kept |
| CommentsView.UpdateTwice | frontend/src/components/Comments.jsx:72-85 | two updates of the same id compose |
| CommentsView.EditIdempotent | frontend/src/components/Comments.jsx:72-85 | saving the same edit twice shows the same list as saving it once |
| CommentsView.LikeLastWins | frontend/src/components/Comments.jsx:123-136 | only the last like response's count is shown |
| CommentsView.Update | frontend/src/components/Comments.jsx:68-92 | a failed call changes nothing; otherwise the edit is applied and the edit box closes |
| CommentsView.Like | frontend/src/components/Comments.jsx:114-140 | a signed-out viewer or a failed call changes nothing; otherwise the matching comment shows the server's count |
| CommentsView.RemoveComment | frontend/src/components/Comments.jsx:100-106 | the list never grows |
| CommentsView.RemoveCharacterized | frontend/src/components/Comments.jsx:100-106 | no comment with the id is left at either level, every other thread stays with its remaining replies, and nothing new appears |
| CommentsView.RemoveIdempotent | frontend/src/components/Comments.jsx:100-106 | deleting twice shows the same list as deleting once |
| CommentsView.RemoveAppendOne | frontend/src/components/Comments.jsx:100-106 | the delete filter works thread by thread |
| CommentsView.Delete | frontend/src/components/Comments.jsx:94-112 | nothing changes unless the dialog is confirmed and the call succeeds |
| CommentsView.DeleteInPlace | frontend/src/components/Comments.jsx:100-106 | the kept threads are the deleted list, and every kept thread object has its replies reassigned in place |
| CommentsView.OwnerGating | frontend/src/components/Comments.jsx:208 | a signed-in viewer sees Edit and Delete exactly on their own comments; a signed-out viewer sees them exactly on comments whose author is not populated |

## Left out

- HTTP plumbing is not modelled: Express, the routes, the JSON envelope and
  the status codes beyond the three outcomes. Authentication, JWT, and the
  upload and validation middleware are left out too; their code is not
  part of this model, and the requester is an `Actor` parameter.
- CreateNews: the create route runs express-validator before the handler
  (`backend/routes/adminRoutes.js:19-24,35`). That check trims title and
  content, and answers 400 for a blank title, a blank content or an unknown
  category. The model's `CreateNews` starts from the fields as the handler
  receives them. It does not trim `content`, and it fails those inputs
  through the schema validators.
- MongoDB `$text` search is a predicate parameter. Its matching belongs to
  the database.
- Time is a parameter. `Date.now()` and the seed scripts' random dates are
  not modelled.
- Concurrency is not modelled. The handlers run one at a time, so the
  read-then-write races of the toggles and the `Promise.all` of
  `getComments` are absent.
- `populate` and `select` projections are left out. They are presentation
  only: list payloads keep the article body, and a client comment's author
  is an optional id.
- `backend/models/Comment.js` and `backend/models/User.js` are not part of
  this model.
  - Comment content has no validators here, so `AddComment` and
    `UpdateComment` never fail on content.
  - A user is reduced to id, role and favorites.
  - Whatever save hooks those models have are left out.
- ApplyPatch: a key the form leaves out is treated as "unchanged". What
  Mongoose does with `undefined` keys in `updateData` belongs to the
  library.
- ApplyPatch and CreateFields: the casts of other value types, such as a
  non-string title or a string `isFeatured`, are not modelled. `isFeatured`
  is an optional boolean. On create, `isFeatured || false` would keep a
  truthy string such as `"false"` and let Mongoose cast it.
- Text.Lower: only ASCII letters are lowered. JavaScript's `toLowerCase`
  also lowers other alphabets, so a title in them can give a different
  slug stem.
- Store.Find: ids are natural numbers. An unparsable object id, a cast
  error and thus a 500, is not modelled.
- CommentsView.Submit: toasts, the loading flag and the fetch on mount are
  left out. The server response is the comment the model receives.
- The rendering of a comment (avatar, name, dates, the edit box) is left
  out; only the Reply and owner-button conditions are modelled.
- The other React pages and components, and the seed scripts, are left
  out. They are rendering, routing and database I/O scripts.
- Sorting ties: MongoDB gives no order among documents with equal keys.
  The model's sort fixes one order among them, and no contract depends on
  which.
- A date absent from an article sorts after every dated one under
  `publishedAt: -1`, as null does.
