/** The reader-facing news handlers: the public listings (published articles only),
    the detail page with its view counter, and the like and favorite toggles. */
module UserNews {

  import opened Common
  import opened Engagement
  import opened NewsModel
  import opened Query
  import opened Store

  /** `sort({ publishedAt: -1 })`: newest first; an article without a date sorts
      as null does, after every dated one. */
  function ByPublishedDesc(a: Article): Key {
    match a.publishedAt
    case Some(t) => Key(-(t as int), 0)
    case None => Key(1, 0)
  }

  /** `sort({ views: -1, likesCount: -1 })`. */
  function ByTrending(a: Article): Key {
    Key(-a.views, -a.likesCount)
  }

  predicate IsPublished(a: Article) {
    a.status == Published
  }

  // ---- likes and favorites ----

  /** The response of a like toggle. */
  datatype LikeState = LikeState(isLiked: bool, likesCount: int)

  /** An article after `toggleLike` by user `u` and its `save()` at time `now`:
      the first occurrence of `u` spliced out of `likes` or `u` pushed, the
      counter reassigned from the list, and `updatedAt` refreshed by the hook. */
  function AfterLike(a: Article, u: UserId, now: Timestamp): (r: Article)
    ensures r.likes == Toggle(a.likes, u) && r.likesCount == |r.likes|
    ensures r == a.(likes := r.likes, likesCount := r.likesCount, updatedAt := now)
    ensures ArticleInvariant(a) ==>
      && ArticleInvariant(r)
      && (u in r.likes <==> u !in a.likes)
      && r.likesCount == if u in a.likes then a.likesCount - 1 else a.likesCount + 1
  {
    var likes := Toggle(a.likes, u);
    var r := PreSave(a.(likes := likes, likesCount := |likes|), false, now);
    if NoDup(a.likes) then
      TogglePreservesNoDup(a.likes, u);
      ToggleMembership(a.likes, u);
      r
    else r
  }

  /** Liking twice restores the membership and the count. From "not liked" the
      list comes back exactly; from "liked" only the user's position moves, to
      the end. Nothing but `likes` and `updatedAt` differs from the start. */
  lemma LikeTwice(a: Article, u: UserId, t1: Timestamp, t2: Timestamp)
    requires ArticleInvariant(a)
    ensures var b := AfterLike(AfterLike(a, u, t1), u, t2);
      && (u in b.likes <==> u in a.likes) && b.likesCount == a.likesCount
      && (u !in a.likes ==> b.likes == a.likes)
      && (u in a.likes ==> b.likes == Without(a.likes, u) + [u])
      && b == a.(likes := b.likes, updatedAt := t2)
  {
    if u in a.likes {
      ToggleTwiceFromPresent(a.likes, u);
    } else {
      ToggleTwiceFromAbsent(a.likes, u);
    }
  }

  /** `toggleLike`: 404 when the id does not resolve, with nothing changed;
      otherwise the article is toggled and saved and the response tells whether
      the user now likes it and the new count. */
  method ToggleLike(db: Database, id: NewsId, actor: Actor, now: Timestamp) returns (r: Result<LikeState>)
    requires db.Valid()
    modifies db
    ensures db.Valid()
    ensures db.users == old(db.users) && db.comments == old(db.comments) && db.nextId == old(db.nextId)
    ensures var i := FindNews(old(db.news), id);
      && (i == -1 ==> r == Err(NotFound) && db.news == old(db.news))
      && (i >= 0 ==>
            var a := AfterLike(old(db.news)[i], actor.id, now);
            && db.news == old(db.news)[i := a]
            && r == Ok(LikeState(actor.id in a.likes, a.likesCount))
            && a.likesCount == |a.likes|)
  {
    var i := FindNews(db.news, id);
    if i == -1 {
      return Err(NotFound);
    }
    var a := db.news[i];
    var likes := a.likes;
    var likeIndex := IndexOf(likes, actor.id);
    if likeIndex > -1 {
      likes := likes[..likeIndex] + likes[likeIndex + 1..];
    } else {
      likes := likes + [actor.id];
    }
    a := a.(likes := likes, likesCount := |likes|);
    a := PreSave(a, false, now);
    assert a == AfterLike(db.news[i], actor.id, now);
    ReplaceArticle(db.news, db.nextId, i, a);
    db.news := db.news[i := a];
    r := Ok(LikeState(likeIndex == -1, a.likesCount));
  }

  /** `toggleFavorite`: 404 for an unknown article; a 500 when the requesting
      user's document is missing (`user.favorites` of null); otherwise only that
      user's `favorites` changes, by one toggle of the article id. */
  method ToggleFavorite(db: Database, id: NewsId, actor: Actor) returns (r: Result<bool>)
    requires db.Valid()
    modifies db
    ensures db.Valid()
    ensures db.news == old(db.news) && db.comments == old(db.comments) && db.nextId == old(db.nextId)
    ensures var i, j := FindNews(old(db.news), id), FindUser(old(db.users), actor.id);
      && (i == -1 ==> r == Err(NotFound) && db.users == old(db.users))
      && (i >= 0 && j == -1 ==> r == Err(Internal(MissingUser)) && db.users == old(db.users))
      && (i >= 0 && j >= 0 ==>
            var u := old(db.users)[j];
            && db.users == old(db.users)[j := u.(favorites := Toggle(u.favorites, id))]
            && r == Ok(id in db.users[j].favorites)
            && (id in db.users[j].favorites <==> id !in u.favorites))
  {
    var i := FindNews(db.news, id);
    if i == -1 {
      return Err(NotFound);
    }
    var j := FindUser(db.users, actor.id);
    if j == -1 {
      return Err(Internal(MissingUser));
    }
    var u := db.users[j];
    var favorites := u.favorites;
    var favoriteIndex := IndexOf(favorites, db.news[i].id);
    if favoriteIndex > -1 {
      favorites := favorites[..favoriteIndex] + favorites[favoriteIndex + 1..];
    } else {
      favorites := favorites + [db.news[i].id];
    }
    assert favorites == Toggle(u.favorites, id);
    TogglePreservesNoDup(u.favorites, id);
    ToggleMembership(u.favorites, id);
    ReplaceUser(db.users, j, u.(favorites := favorites));
    db.users := db.users[j := u.(favorites := favorites)];
    r := Ok(favoriteIndex == -1);
  }

  // ---- the detail page ----

  /** The detail response: the saved document and the two flags of the viewer. */
  datatype ArticleView = ArticleView(article: Article, isLiked: bool, isFavorited: bool)

  /** The document after `views += 1` and `save()`: the title is untouched, so the
      slug is kept; `updatedAt` is refreshed. */
  function AfterView(a: Article, now: Timestamp): (r: Article)
    ensures r.views == a.views + 1 && r.slug == a.slug && r.updatedAt == now
    ensures r == a.(views := r.views, updatedAt := now)
    ensures ArticleInvariant(a) ==> ArticleInvariant(r)
  {
    PreSave(a.(views := a.views + 1), false, now)
  }

  predicate HasPublishedSlug(slug: string, a: Article) {
    a.slug == slug && IsPublished(a)
  }

  /** `getNewsBySlug`: only a published article with that slug is found (404
      otherwise, nothing changed). The found article's view counter goes up by
      one and it is saved before anything else. With no viewer both flags are
      false; with a viewer whose user document is missing the handler fails with
      a 500 after the view was counted. */
  method GetNewsBySlug(db: Database, slug: string, viewer: Option<UserId>, now: Timestamp)
    returns (r: Result<ArticleView>)
    requires db.Valid()
    modifies db
    ensures db.Valid()
    ensures db.users == old(db.users) && db.comments == old(db.comments) && db.nextId == old(db.nextId)
    ensures var i := Find(old(db.news), (a: Article) => HasPublishedSlug(slug, a));
      && (i == -1 ==> r == Err(NotFound) && db.news == old(db.news))
      && (i >= 0 ==>
            var a := AfterView(old(db.news)[i], now);
            && db.news == old(db.news)[i := a]
            && IsPublished(a) && a.slug == slug && a.views == old(db.news)[i].views + 1
            && (viewer.None? ==> r == Ok(ArticleView(a, false, false)))
            && (viewer.Some? ==>
                  var j := FindUser(db.users, viewer.value);
                  && (j == -1 ==> r == Err(Internal(MissingUser)))
                  && (j >= 0 ==>
                        r == Ok(ArticleView(a, viewer.value in a.likes, a.id in db.users[j].favorites)))))
  {
    var i := Find(db.news, (a: Article) => HasPublishedSlug(slug, a));
    if i == -1 {
      return Err(NotFound);
    }
    var a := db.news[i];
    a := a.(views := a.views + 1);
    a := PreSave(a, false, now);
    ReplaceArticle(db.news, db.nextId, i, a);
    db.news := db.news[i := a];
    var isLiked, isFavorited := false, false;
    if viewer.Some? {
      isLiked := viewer.value in a.likes;
      var j := FindUser(db.users, viewer.value);
      if j == -1 {
        return Err(Internal(MissingUser));
      }
      isFavorited := a.id in db.users[j].favorites;
    }
    r := Ok(ArticleView(a, isLiked, isFavorited));
  }

  /** At most one published article carries a given slug, so the detail page is
      determined by the slug alone. */
  lemma SlugFindsOne(s: seq<Article>, next: nat, slug: string, p: nat, q: nat)
    requires NewsValid(s, next) && p < |s| && q < |s|
    requires HasPublishedSlug(slug, s[p]) && HasPublishedSlug(slug, s[q])
    ensures p == q
  {
  }

  // ---- public listings ----

  /** The filter parameters of `GET /api/news`. */
  datatype ListQuery = ListQuery(category: Option<string>, search: Option<string>, tag: Option<string>)

  /** The condition `getPublishedNews` builds: published, plus each filter whose
      parameter is truthy. `$text` search is the database's own matching, given
      here as `textMatch`. */
  predicate ListedBy(q: ListQuery, textMatch: (Article, string) -> bool, a: Article) {
    && IsPublished(a)
    && (Truthy(q.category) ==> CategoryName(a.category) == q.category.value)
    && (Truthy(q.search) ==> textMatch(a, q.search.value))
    && (Truthy(q.tag) ==> q.tag.value in a.tags)
  }

  /** `getPublishedNews`: every listed article is published and passes every given
      filter, newest first; `total` is the number of matches, limit defaults to 10. */
  function GetPublishedNews(news: seq<Article>, q: ListQuery, textMatch: (Article, string) -> bool,
                            page: Option<int>, limit: Option<int>)
    : (r: Result<Page<Article>>)
    ensures r.Ok? ==>
      && r.value.total == |Filter(news, a => ListedBy(q, textMatch, a))|
      && SortedBy(r.value.data, ByPublishedDesc)
      && (forall k :: 0 <= k < |r.value.data| ==>
            r.value.data[k] in news && ListedBy(q, textMatch, r.value.data[k]))
      && IsWindowOf(r.value.data, SortBy(Filter(news, a => ListedBy(q, textMatch, a)), ByPublishedDesc),
                    page, limit, 10)
    ensures r.Err? <==> (ParamOr(page, 1) - 1) * ParamOr(limit, 10) < 0
    ensures r.Err? ==> r.error == Internal(NegativeSkip)
    ensures r.Ok? ==>
      && r.value.currentPage == ParamOr(page, 1)
      && r.value.totalPages == CeilDiv(r.value.total, ParamOr(limit, 10))
  {
    var matches := Filter(news, a => ListedBy(q, textMatch, a));
    SortedPage(matches, ByPublishedDesc, |matches|, page, limit, 10)
  }

  /** Every matching article is listed on some page `p` within `1..totalPages`. */
  lemma PublishedListingComplete(news: seq<Article>, q: ListQuery, textMatch: (Article, string) -> bool,
                                 limit: int, a: Article) returns (p: int)
    requires limit > 0 && a in news && ListedBy(q, textMatch, a)
    ensures 1 <= p <= CeilDiv(|Filter(news, x => ListedBy(q, textMatch, x))|, limit)
    ensures var r := GetPublishedNews(news, q, textMatch, Some(p), Some(limit));
      r.Ok? && a in r.value.data
  {
    var matches := Filter(news, x => ListedBy(q, textMatch, x));
    assert a in matches;
    p := SortedPageComplete(matches, ByPublishedDesc, |matches|, 10, limit, a);
  }

  predicate InCategory(category: string, a: Article) {
    IsPublished(a) && CategoryName(a.category) == category
  }

  /** `getNewsByCategory`: the published articles whose category is the path
      parameter, newest first; an unknown category matches nothing. */
  function GetNewsByCategory(news: seq<Article>, category: string, page: Option<int>, limit: Option<int>)
    : (r: Result<Page<Article>>)
    ensures r.Ok? ==>
      && r.value.total == |Filter(news, a => InCategory(category, a))|
      && SortedBy(r.value.data, ByPublishedDesc)
      && (forall k :: 0 <= k < |r.value.data| ==> r.value.data[k] in news && InCategory(category, r.value.data[k]))
      && IsWindowOf(r.value.data, SortBy(Filter(news, a => InCategory(category, a)), ByPublishedDesc),
                    page, limit, 10)
    ensures (forall c :: CategoryName(c) != category) ==> r.Ok? ==> r.value.total == 0 && r.value.data == []
    ensures r.Err? <==> (ParamOr(page, 1) - 1) * ParamOr(limit, 10) < 0
    ensures r.Err? ==> r.error == Internal(NegativeSkip)
    ensures r.Ok? ==>
      && r.value.currentPage == ParamOr(page, 1)
      && r.value.totalPages == CeilDiv(r.value.total, ParamOr(limit, 10))
  {
    var matches := Filter(news, a => InCategory(category, a));
    SortedPage(matches, ByPublishedDesc, |matches|, page, limit, 10)
  }

  /** Every published article of the category is listed on some page `p` within
      `1..totalPages`. */
  lemma CategoryListingComplete(news: seq<Article>, category: string, limit: int, a: Article) returns (p: int)
    requires limit > 0 && a in news && InCategory(category, a)
    ensures 1 <= p <= CeilDiv(|Filter(news, x => InCategory(category, x))|, limit)
    ensures var r := GetNewsByCategory(news, category, Some(p), Some(limit));
      r.Ok? && a in r.value.data
  {
    var matches := Filter(news, x => InCategory(category, x));
    assert a in matches;
    p := SortedPageComplete(matches, ByPublishedDesc, |matches|, 10, limit, a);
  }

  predicate FavoriteOf(favorites: seq<NewsId>, a: Article) {
    a.id in favorites && IsPublished(a)
  }

  /** `getFavorites`: a 500 when the user's document is missing; otherwise the
      published articles among the user's favorites, newest first. `total` is the
      length of the favorites list, which also counts unpublished and deleted
      articles. */
  function GetFavorites(news: seq<Article>, users: seq<User>, actor: Actor, page: Option<int>, limit: Option<int>)
    : (r: Result<Page<Article>>)
    ensures FindUser(users, actor.id) == -1 ==> r == Err(Internal(MissingUser))
    ensures r.Ok? ==> var u := users[FindUser(users, actor.id)];
      && r.value.total == |u.favorites|
      && SortedBy(r.value.data, ByPublishedDesc)
      && (forall k :: 0 <= k < |r.value.data| ==>
            r.value.data[k] in news && r.value.data[k].id in u.favorites && IsPublished(r.value.data[k]))
      && IsWindowOf(r.value.data, SortBy(Filter(news, a => FavoriteOf(u.favorites, a)), ByPublishedDesc),
                    page, limit, 10)
    ensures FindUser(users, actor.id) != -1 ==> (r.Err? <==> (ParamOr(page, 1) - 1) * ParamOr(limit, 10) < 0)
    ensures FindUser(users, actor.id) != -1 && r.Err? ==> r.error == Internal(NegativeSkip)
    ensures r.Ok? ==>
      && r.value.currentPage == ParamOr(page, 1)
      && r.value.totalPages == CeilDiv(r.value.total, ParamOr(limit, 10))
  {
    var j := FindUser(users, actor.id);
    if j == -1 then Err(Internal(MissingUser))
    else
      var favorites := users[j].favorites;
      SortedPage(Filter(news, a => FavoriteOf(favorites, a)), ByPublishedDesc, |favorites|, page, limit, 10)
  }

  /** Every published favorite of a user whose document exists is listed on some
      page `p` within `1..ceil(n / limit)`, `n` being the number of published
      favorites. */
  lemma FavoritesListingComplete(news: seq<Article>, users: seq<User>, actor: Actor, limit: int, a: Article)
    returns (p: int)
    requires limit > 0 && FindUser(users, actor.id) >= 0 && a in news
    requires FavoriteOf(users[FindUser(users, actor.id)].favorites, a)
    ensures var favorites := users[FindUser(users, actor.id)].favorites;
      1 <= p <= CeilDiv(|Filter(news, x => FavoriteOf(favorites, x))|, limit)
    ensures var r := GetFavorites(news, users, actor, Some(p), Some(limit));
      r.Ok? && a in r.value.data
  {
    var favorites := users[FindUser(users, actor.id)].favorites;
    var matches := Filter(news, x => FavoriteOf(favorites, x));
    assert a in matches;
    p := SortedPageComplete(matches, ByPublishedDesc, |favorites|, 10, limit, a);
  }

  /** The favorites `total` overstates what the pages can show: when one of the
      user's favorites names an article that is missing or not published, no page
      lists that id and fewer articles are listed than `total` counts. */
  lemma FavoritesTotalCountsUnpublished(news: seq<Article>, next: nat, users: seq<User>, actor: Actor,
                                        page: Option<int>, limit: Option<int>, id: NewsId)
    requires NewsValid(news, next) && UsersValid(users)
    requires FindUser(users, actor.id) >= 0 && id in users[FindUser(users, actor.id)].favorites
    requires forall a :: a in news && a.id == id ==> !IsPublished(a)
    ensures var r := GetFavorites(news, users, actor, page, limit);
      r.Ok? ==>
        && (forall k :: 0 <= k < |r.value.data| ==> r.value.data[k].id != id)
        && |Filter(news, a => FavoriteOf(users[FindUser(users, actor.id)].favorites, a))| < r.value.total
  {
    var favorites := users[FindUser(users, actor.id)].favorites;
    var listed := Filter(news, a => FavoriteOf(favorites, a));
    var ids := Map(listed, (a: Article) => a.id);
    FilterKeeps(news, a => FavoriteOf(favorites, a), (a: Article) => true, (a: Article, b: Article) => a.id != b.id);
    forall x | x in ids ensures x in favorites && x != id {
      var k :| 0 <= k < |ids| && ids[k] == x;
      assert listed[k] in news;
    }
    FewerDistinct(ids, favorites, id);
  }

  predicate IsFeaturedPublished(a: Article) {
    IsPublished(a) && a.isFeatured
  }

  /** `getFeaturedNews`: the `limit` (default 5) most recently published featured
      articles, or all of them when there are fewer. */
  function GetFeaturedNews(news: seq<Article>, limit: Option<int>): (r: seq<Article>)
    ensures var n, l := |Filter(news, IsFeaturedPublished)|, Abs(ParamOr(limit, 5));
      |r| == if n < l then n else l
    ensures SortedBy(r, ByPublishedDesc)
    ensures forall k :: 0 <= k < |r| ==> r[k] in news && IsPublished(r[k]) && r[k].isFeatured
    ensures forall k, a :: 0 <= k < |r| && a in news && IsFeaturedPublished(a) && a !in r ==>
      KeyLe(ByPublishedDesc(r[k]), ByPublishedDesc(a))
  {
    Top(news, IsFeaturedPublished, ByPublishedDesc, Abs(ParamOr(limit, 5)))
  }

  /** `getTrendingNews`: the `limit` (default 10) top published articles, or all of
      them when there are fewer, by views descending and then likes descending; no
      published article left out has more views, or as many views and more likes,
      than one listed. */
  function GetTrendingNews(news: seq<Article>, limit: Option<int>): (r: seq<Article>)
    ensures var n, l := |Filter(news, IsPublished)|, Abs(ParamOr(limit, 10));
      |r| == if n < l then n else l
    ensures forall k :: 0 <= k < |r| ==> r[k] in news && IsPublished(r[k])
    ensures forall i, j :: 0 <= i < j < |r| ==>
      r[i].views > r[j].views || (r[i].views == r[j].views && r[i].likesCount >= r[j].likesCount)
    ensures forall k, a :: 0 <= k < |r| && a in news && IsPublished(a) && a !in r ==>
      r[k].views > a.views || (r[k].views == a.views && r[k].likesCount >= a.likesCount)
  {
    var r := Top(news, IsPublished, ByTrending, Abs(ParamOr(limit, 10)));
    forall i, j | 0 <= i < j < |r|
      ensures r[i].views > r[j].views || (r[i].views == r[j].views && r[i].likesCount >= r[j].likesCount)
    {
      assert KeyLe(ByTrending(r[i]), ByTrending(r[j]));
    }
    forall k, a | 0 <= k < |r| && a in news && IsPublished(a) && a !in r
      ensures r[k].views > a.views || (r[k].views == a.views && r[k].likesCount >= a.likesCount)
    {
      assert KeyLe(ByTrending(r[k]), ByTrending(a));
    }
    r
  }

  /** `$or: [{ category }, { tags: { $in: tags } }]`: same category, or a tag in common. */
  predicate RelatedTo(src: Article, a: Article) {
    && a.id != src.id && IsPublished(a)
    && (a.category == src.category || exists t :: t in a.tags && t in src.tags)
  }

  /** `getRelatedNews`: 404 for an unknown id; otherwise the five most recently
      published articles other than the source that share its category or one of
      its tags (all of them when there are fewer), newest first. */
  function GetRelatedNews(news: seq<Article>, id: NewsId): (r: Result<seq<Article>>)
    ensures r.Err? <==> FindNews(news, id) == -1
    ensures r.Err? ==> r.error == NotFound
    ensures r.Ok? ==> var src := news[FindNews(news, id)];
      && (var n := |Related(news, src)|; |r.value| == if n < 5 then n else 5)
      && SortedBy(r.value, ByPublishedDesc)
      && (forall k :: 0 <= k < |r.value| ==>
            var a := r.value[k];
            && a in news && a.id != id && IsPublished(a)
            && (a.category == src.category || exists t :: t in a.tags && t in src.tags))
      && (forall k, a :: 0 <= k < |r.value| && a in news && RelatedTo(src, a) && a !in r.value ==>
            KeyLe(ByPublishedDesc(r.value[k]), ByPublishedDesc(a)))
  {
    var i := FindNews(news, id);
    if i == -1 then Err(NotFound)
    else
      var src := news[i];
      Ok(Top(news, RelatedCondition(src), ByPublishedDesc, 5))
  }

  function RelatedCondition(src: Article): Article -> bool {
    a => RelatedTo(src, a)
  }

  /** Every article related to `src`, in stored order. */
  function Related(news: seq<Article>, src: Article): seq<Article> {
    Filter(news, RelatedCondition(src))
  }

  /** `getCategories`: the published articles grouped by category, largest group
      first; each category with a published article appears once, with its count,
      and the counts add up to the number of published articles. */
  function GetCategories(news: seq<Article>): (r: seq<CategoryCount>)
    ensures forall k :: 0 <= k < |r| ==>
      r[k].count == CountCategory(Filter(news, IsPublished), r[k].category) > 0
    ensures forall i, j :: 0 <= i < j < |r| ==> r[i].count >= r[j].count
    ensures forall c :: CountCategory(Filter(news, IsPublished), c) > 0 <==> c in GroupNames(r)
    ensures NoDup(GroupNames(r))
    ensures SumCounts(r) == |Filter(news, IsPublished)|
  {
    var published := Filter(news, IsPublished);
    CategoryCountsCounts(published);
    CategoryCountsCover(published);
    CategoryCountsNoDup(published);
    CategoryCountsSum(published);
    CategoryCounts(published)
  }
}
