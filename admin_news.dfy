/** The administrator's news handlers: create, update, delete and the featured
    toggle, which change the `news` collection, and the admin listing and the
    dashboard statistics, which only read it. */
module AdminNews {

  import opened Common
  import E = Engagement
  import opened Text
  import opened NewsModel
  import opened Query
  import opened Store

  // ---- tags ----

  /** `tags.split(',').map(tag => tag.trim())`. */
  function ParseTags(tags: string): (r: seq<string>)
    ensures |r| == multiset(tags)[','] + 1
    ensures forall k :: 0 <= k < |r| ==> ',' !in r[k] && Trim(r[k]) == r[k]
  {
    var parts := Split(tags, ',');
    var r := TrimEach(parts);
    assert forall k :: 0 <= k < |r| ==> ',' !in r[k] by {
      forall k | 0 <= k < |r| ensures ',' !in r[k] {
        TrimKeepsOut(parts[k], ',');
      }
    }
    assert forall k :: 0 <= k < |r| ==> Trim(r[k]) == r[k] by {
      forall k | 0 <= k < |r| ensures Trim(r[k]) == r[k] {
        TrimIdempotent(parts[k]);
      }
    }
    r
  }

  /** A character the input lacks is not in its trim either. */
  lemma TrimKeepsOut(s: string, c: char)
    requires c !in s
    ensures c !in Trim(s)
  {
    var a := TrimStart(s);
    forall k | 0 <= k < |a| ensures a[k] != c {
      assert a[k] == s[|s| - |a| + k];
    }
    var b := TrimEnd(a);
    forall k | 0 <= k < |b| ensures b[k] != c {
      assert b[k] == a[k];
    }
    assert Trim(s) == b;
  }

  /** Create's rule: a falsy tags string gives no tags. */
  function CreateTags(tags: Option<string>): (r: seq<string>)
    ensures !Truthy(tags) ==> r == []
    ensures Truthy(tags) ==> r == ParseTags(tags.value)
  {
    if Truthy(tags) then ParseTags(tags.value) else []
  }

  lemma ParseAtFirst(a: string, b: string)
    requires ',' !in a
    ensures ParseTags(a + [','] + b) == [Trim(a)] + ParseTags(b)
  {
    var s := a + [','] + b;
    SplitAtFirst(a, ',', b);
    var parts := Split(b, ',');
    TrimEachCons(a, parts);
    assert ParseTags(s) == TrimEach(Split(s, ','));
    assert ParseTags(b) == TrimEach(parts);
  }

  /** A tag the form can show and get back: no comma, no surrounding whitespace. */
  predicate CleanTag(t: string) {
    ',' !in t && Trim(t) == t
  }

  predicate AllSpace(ws: string) {
    forall k :: 0 <= k < |ws| ==> IsSpace(ws[k])
  }

  /** The form shows a list as `tags.join(', ')`; parsing that string gives the
      list back when it is non-empty and its tags hold no comma and no surrounding
      whitespace. */
  lemma TagsRoundTrip(tags: seq<string>)
    requires |tags| > 0
    requires forall k :: 0 <= k < |tags| ==> ',' !in tags[k] && Trim(tags[k]) == tags[k]
    ensures ParseTags(Join(tags, ", ")) == tags
  {
    assert forall k :: 0 <= k < |tags| ==> CleanTag(tags[k]);
    PaddedRoundTrip("", tags);
    assert "" + Join(tags, ", ") == Join(tags, ", ");
  }

  lemma {:induction false} PaddedRoundTrip(ws: string, tags: seq<string>)
    requires |tags| > 0 && AllSpace(ws)
    requires forall k :: 0 <= k < |tags| ==> CleanTag(tags[k])
    ensures ParseTags(ws + Join(tags, ", ")) == tags
    decreases |tags|
  {
    if |tags| == 1 {
      PaddedSingle(ws, tags[0]);
      assert tags == [tags[0]];
    } else {
      assert AllSpace(" ");
      PaddedRoundTrip(" ", tags[1..]);
      PaddedStep(ws, tags);
    }
  }

  lemma PaddedSingle(ws: string, t: string)
    requires AllSpace(ws) && CleanTag(t)
    ensures ParseTags(ws + Join([t], ", ")) == [t]
  {
    TrimPadded(ws, t);
    NoComma(ws, t);
    SingleTag(ws + t);
  }

  /** One step of the round trip: the first tag, then the rest after ", ". */
  lemma PaddedStep(ws: string, tags: seq<string>)
    requires |tags| > 1 && AllSpace(ws) && CleanTag(tags[0])
    requires ParseTags(" " + Join(tags[1..], ", ")) == tags[1..]
    ensures ParseTags(ws + Join(tags, ", ")) == tags
  {
    var t, j := tags[0], Join(tags[1..], ", ");
    TrimPadded(ws, t);
    NoComma(ws, t);
    JoinStep(ws, tags);
    ParseAtFirst(ws + t, " " + j);
    HeadTail(tags);
  }

  /** The joined list regrouped around its first comma. */
  lemma JoinStep(ws: string, tags: seq<string>)
    requires |tags| > 1
    ensures ws + Join(tags, ", ") == (ws + tags[0]) + [','] + (" " + Join(tags[1..], ", "))
  {
    var t, j := tags[0], Join(tags[1..], ", ");
    assert Join(tags, ", ") == t + ", " + j;
    assert ws + (t + ", " + j) == (ws + t) + [','] + (" " + j);
  }

  lemma NoComma(ws: string, t: string)
    requires AllSpace(ws) && ',' !in t
    ensures ',' !in ws + t
  {
    assert !IsSpace(',');
  }

  lemma SingleTag(s: string)
    requires ',' !in s
    ensures ParseTags(s) == [Trim(s)]
  {
    var parts := Split(s, ',');
    assert parts == [s];
    var r := TrimEach(parts);
    assert |r| == 1 && r[0] == Trim(s);
  }

  // ---- create ----

  /** The request body of create and update; a field the client left out is `None`. */
  datatype NewsForm = NewsForm(
    title: Option<string>,
    content: Option<string>,
    summary: Option<string>,
    category: Option<string>,
    tags: Option<string>,
    image: Option<string>,
    status: Option<string>,
    isFeatured: Option<bool>)

  /** The document fields `createNews` hands to `News.create`. */
  function CreateFields(form: NewsForm, author: UserId, now: Timestamp): (f: NewsFields)
    ensures f.status == if Truthy(form.status) then form.status.value else "draft"
    ensures f.isFeatured <==> form.isFeatured == Some(true)
    ensures f.publishedAt == if form.status == Some("published") then Some(now) else None
    ensures f.tags == CreateTags(form.tags)
    ensures f.author == author
    ensures (f.title, f.content, f.summary, f.category, f.image)
         == (form.title, form.content, form.summary, form.category, form.image)
  {
    NewsFields(
      form.title, form.content, form.summary, form.category, CreateTags(form.tags),
      form.image, author,
      if Truthy(form.status) then form.status.value else "draft",
      form.isFeatured == Some(true),
      if form.status == Some("published") then Some(now) else None)
  }

  /** Without a status the article is a draft with no publication date, and it is
      not featured unless the form says so. */
  lemma CreateDefaults(form: NewsForm, author: UserId, now: Timestamp)
    requires form.status.None? && form.isFeatured.None?
    ensures var f := CreateFields(form, author, now);
      f.status == "draft" && f.publishedAt.None? && !f.isFeatured
  {
  }

  /** `createNews`: the validated document with a fresh id is appended; a
      validation failure, or a slug the unique index already holds, is a 500 with
      nothing stored. A published article is created with its date. */
  method CreateNews(db: Database, actor: Actor, form: NewsForm, now: Timestamp) returns (r: Result<Article>)
    requires db.Valid()
    modifies db
    ensures db.Valid()
    ensures db.users == old(db.users) && db.comments == old(db.comments)
    ensures var d := CreateDocument(old(db.nextId), CreateFields(form, actor.id, now), now);
      && (d.Err? ==> r == d && unchanged(db))
      && (d.Ok? && (exists k :: 0 <= k < |old(db.news)| && old(db.news)[k].slug == d.value.slug) ==>
            r == Err(Internal(DuplicateKey)) && unchanged(db))
      && (d.Ok? && (forall k :: 0 <= k < |old(db.news)| ==> old(db.news)[k].slug != d.value.slug) ==>
            && r == d
            && db.news == old(db.news) + [d.value] && db.nextId == old(db.nextId) + 1
            && (d.value.status == Published <==> d.value.publishedAt == Some(now)))
  {
    var f := CreateFields(form, actor.id, now);
    var d := CreateDocument(db.nextId, f, now);
    if d.Err? {
      return d;
    }
    var a := d.value;
    CreatedInvariant(db.nextId, form, actor.id, now);
    var k := Find(db.news, (b: Article) => b.slug == a.slug);
    if k != -1 {
      assert db.news[k].slug == a.slug;
      return Err(Internal(DuplicateKey));
    }
    assert forall j :: 0 <= j < |db.news| ==> db.news[j].slug != a.slug;
    db.InsertArticle(a);
    r := Ok(a);
  }

  /** A created document satisfies the stored-article invariant: in particular a
      published one carries its date. */
  lemma CreatedInvariant(id: NewsId, form: NewsForm, author: UserId, now: Timestamp)
    requires CreateDocument(id, CreateFields(form, author, now), now).Ok?
    ensures var a := CreateDocument(id, CreateFields(form, author, now), now).value;
      ArticleInvariant(a) && (a.status == Published <==> a.publishedAt == Some(now))
  {
    var f := CreateFields(form, author, now);
    var a := CreateDocument(id, f, now).value;
    assert StatusName(a.status) == f.status;
    assert a.status == Published <==> f.status == "published";
  }

  // ---- update ----

  /** The `updateData` object of `updateNews`. Keys the form left out stay
      `None` (absent), and a `None` key leaves the stored field as it is. */
  datatype Patch = Patch(
    title: Option<string>,
    content: Option<string>,
    summary: Option<string>,
    category: Option<string>,
    image: Option<string>,
    status: Option<string>,
    isFeatured: Option<bool>,
    tags: Option<seq<string>>,
    publishedAt: Option<Timestamp>,
    updatedAt: Timestamp)

  /** The patch always carries `updatedAt`, carries `tags` only for a truthy tags
      string, and carries `publishedAt` only when the incoming status is
      `'published'` and the stored one is not. */
  function BuildPatch(form: NewsForm, stored: Status, now: Timestamp): (p: Patch)
    ensures p.updatedAt == now
    ensures p.tags.Some? <==> Truthy(form.tags)
    ensures p.tags.Some? ==> p.tags.value == ParseTags(form.tags.value)
    ensures p.publishedAt.Some? <==> form.status == Some("published") && stored != Published
    ensures p.publishedAt.Some? ==> p.publishedAt.value == now
    ensures (p.title, p.content, p.summary, p.category, p.image, p.status, p.isFeatured)
         == (form.title, form.content, form.summary, form.category, form.image, form.status, form.isFeatured)
  {
    Patch(
      form.title, form.content, form.summary, form.category, form.image, form.status,
      form.isFeatured,
      if Truthy(form.tags) then Some(ParseTags(form.tags.value)) else None,
      if form.status == Some("published") && stored != Published then Some(now) else None,
      now)
  }

  /** The update validators run on the paths the patch sets (`runValidators`). */
  predicate PatchValid(p: Patch) {
    && (p.title.Some? ==> 0 < Utf16Length(Trim(p.title.value)) <= TitleMaxLength)
    && (p.content.Some? ==> |p.content.value| > 0)
    && (p.summary.Some? ==> Utf16Length(p.summary.value) <= SummaryMaxLength)
    && (p.category.Some? ==> ParseCategory(p.category.value).Some?)
    && (p.status.Some? ==> ParseStatus(p.status.value).Some?)
  }

  function Or<T>(x: Option<T>, d: T): T {
    if x.Some? then x.value else d
  }

  /** `findByIdAndUpdate` with the patch: the save hook does not run, so the slug
      stays; the setters trim the new title and tags; keys the patch lacks keep the
      stored values; likes, views, author and creation date are never touched. */
  function ApplyPatch(a: Article, p: Patch): (r: Result<Article>)
    ensures r.Err? <==> !PatchValid(p)
    ensures r.Err? ==> r.error == Internal(ValidationFailed)
    ensures r.Ok? ==> (r.value.id == a.id && r.value.slug == a.slug && r.value.author == a.author
      && r.value.createdAt == a.createdAt && r.value.likes == a.likes
      && r.value.likesCount == a.likesCount && r.value.views == a.views)
    ensures r.Ok? ==> r.value.updatedAt == p.updatedAt
    ensures r.Ok? ==> r.value.title == (if p.title.Some? then Trim(p.title.value) else a.title)
    ensures r.Ok? ==> r.value.content == Or(p.content, a.content)
    ensures r.Ok? ==> r.value.summary == (if p.summary.Some? then p.summary else a.summary)
    ensures r.Ok? && p.category.Some? ==> CategoryName(r.value.category) == p.category.value
    ensures r.Ok? && p.category.None? ==> r.value.category == a.category
    ensures r.Ok? && p.status.Some? ==> StatusName(r.value.status) == p.status.value
    ensures r.Ok? && p.status.None? ==> r.value.status == a.status
    ensures r.Ok? ==> r.value.image == Or(p.image, a.image)
    ensures r.Ok? ==> r.value.isFeatured == Or(p.isFeatured, a.isFeatured)
    ensures r.Ok? ==> r.value.tags == (if p.tags.Some? then TrimEach(p.tags.value) else a.tags)
    ensures r.Ok? ==> r.value.publishedAt == (if p.publishedAt.Some? then p.publishedAt else a.publishedAt)
  {
    if !PatchValid(p) then Err(Internal(ValidationFailed))
    else
      var category := if p.category.Some? then ParseCategory(p.category.value).value else a.category;
      var status := if p.status.Some? then ParseStatus(p.status.value).value else a.status;
      Ok(a.(
        title := if p.title.Some? then Trim(p.title.value) else a.title,
        content := Or(p.content, a.content),
        summary := if p.summary.Some? then p.summary else a.summary,
        category := category,
        image := Or(p.image, a.image),
        status := status,
        isFeatured := Or(p.isFeatured, a.isFeatured),
        tags := if p.tags.Some? then TrimEach(p.tags.value) else a.tags,
        publishedAt := if p.publishedAt.Some? then p.publishedAt else a.publishedAt,
        updatedAt := p.updatedAt))
  }

  /** The document `updateNews` writes for a form, or the validation error. */
  function Updated(a: Article, form: NewsForm, now: Timestamp): (r: Result<Article>)
    ensures ArticleInvariant(a) && r.Ok? ==> ArticleInvariant(r.value)
  {
    ApplyPatch(a, BuildPatch(form, a.status, now))
  }

  /** Saving an already published article as published again keeps its date. */
  lemma RepublishKeepsDate(a: Article, form: NewsForm, now: Timestamp)
    requires a.status == Published && form.status == Some("published")
    requires Updated(a, form, now).Ok?
    ensures Updated(a, form, now).value.publishedAt == a.publishedAt
  {
  }

  /** Publishing an article that is not published stamps the update's time, also
      when it was published before and then archived. */
  lemma PublishStamps(a: Article, form: NewsForm, now: Timestamp)
    requires a.status != Published && form.status == Some("published")
    requires Updated(a, form, now).Ok?
    ensures Updated(a, form, now).value.publishedAt == Some(now)
    ensures Updated(a, form, now).value.status == Published
  {
  }

  /** An empty tags field leaves the stored tags as they are. */
  lemma EmptyTagsKept(a: Article, form: NewsForm, now: Timestamp)
    requires form.tags == Some("") && Updated(a, form, now).Ok?
    ensures Updated(a, form, now).value.tags == a.tags
  {
  }

  /** Tags set by an update are stored as parsed: the schema's trim changes
      nothing more. */
  lemma UpdatedTagsParsed(a: Article, form: NewsForm, now: Timestamp)
    requires Truthy(form.tags) && Updated(a, form, now).Ok?
    ensures Updated(a, form, now).value.tags == ParseTags(form.tags.value)
  {
    TrimEachFixed(ParseTags(form.tags.value));
  }

  /** `updateNews`: 404 for an unknown id and a 500 for a patch the validators
      reject, both with nothing changed; otherwise the article is replaced by the
      patched document in place. */
  method UpdateNews(db: Database, id: NewsId, form: NewsForm, now: Timestamp) returns (r: Result<Article>)
    requires db.Valid()
    modifies db
    ensures db.Valid()
    ensures db.users == old(db.users) && db.comments == old(db.comments) && db.nextId == old(db.nextId)
    ensures var i := FindNews(old(db.news), id);
      && (i == -1 ==> r == Err(NotFound) && db.news == old(db.news))
      && (i >= 0 ==>
            var u := Updated(old(db.news)[i], form, now);
            && r == u
            && (u.Err? ==> db.news == old(db.news))
            && (u.Ok? ==> db.news == old(db.news)[i := u.value]))
  {
    var i := FindNews(db.news, id);
    if i == -1 {
      return Err(NotFound);
    }
    var patch := BuildPatch(form, db.news[i].status, now);
    r := ApplyPatch(db.news[i], patch);
    if r.Ok? {
      assert r == Updated(db.news[i], form, now);
      ReplaceArticle(db.news, db.nextId, i, r.value);
      db.news := db.news[i := r.value];
    }
  }

  // ---- delete, featured ----

  /** `deleteNews`: 404 for an unknown id, otherwise exactly that article leaves
      the collection; comments and favorites that refer to it stay as they are,
      and deleting it again is a 404. */
  method DeleteNews(db: Database, id: NewsId) returns (r: Result<()>)
    requires db.Valid()
    modifies db
    ensures db.Valid()
    ensures db.users == old(db.users) && db.comments == old(db.comments) && db.nextId == old(db.nextId)
    ensures var i := FindNews(old(db.news), id);
      && (i == -1 ==> r == Err(NotFound) && db.news == old(db.news))
      && (i >= 0 ==> r == Ok(()) && db.news == old(db.news)[..i] + old(db.news)[i + 1..])
    ensures FindNews(db.news, id) == -1
  {
    var i := FindNews(db.news, id);
    if i == -1 {
      return Err(NotFound);
    }
    var s, next := db.news, db.nextId;
    E.RemoveAtKeeps(s, i, (a: Article) => ArticleInvariant(a) && a.id < next,
                    (a: Article, b: Article) => a.id != b.id && a.slug != b.slug);
    var rest := E.RemoveAt(s, i);
    assert forall k :: 0 <= k < |rest| ==> rest[k].id != id;
    db.news := rest;
    r := Ok(());
  }

  /** The document after the featured flag is negated and saved. */
  function AfterFeatureToggle(a: Article, now: Timestamp): (r: Article)
    ensures r.isFeatured == !a.isFeatured
    ensures r == a.(isFeatured := r.isFeatured, updatedAt := now)
  {
    PreSave(a.(isFeatured := !a.isFeatured), false, now)
  }

  /** Toggling twice restores the flag; only `updatedAt` moves. */
  lemma FeatureToggleTwice(a: Article, t1: Timestamp, t2: Timestamp)
    ensures AfterFeatureToggle(AfterFeatureToggle(a, t1), t2) == a.(updatedAt := t2)
  {
  }

  /** `toggleFeatured`: 404 for an unknown id; otherwise only that article's flag
      is negated (and its `updatedAt` refreshed by the save). */
  method ToggleFeatured(db: Database, id: NewsId, now: Timestamp) returns (r: Result<Article>)
    requires db.Valid()
    modifies db
    ensures db.Valid()
    ensures db.users == old(db.users) && db.comments == old(db.comments) && db.nextId == old(db.nextId)
    ensures var i := FindNews(old(db.news), id);
      && (i == -1 ==> r == Err(NotFound) && db.news == old(db.news))
      && (i >= 0 ==>
            var a := AfterFeatureToggle(old(db.news)[i], now);
            r == Ok(a) && db.news == old(db.news)[i := a])
  {
    var i := FindNews(db.news, id);
    if i == -1 {
      return Err(NotFound);
    }
    var a := db.news[i];
    a := a.(isFeatured := !a.isFeatured);
    a := PreSave(a, false, now);
    ReplaceArticle(db.news, db.nextId, i, a);
    db.news := db.news[i := a];
    r := Ok(a);
  }

  // ---- reads ----

  /** `getNewsById`: the article with that id, of any status, or 404. */
  function GetNewsById(news: seq<Article>, id: NewsId): (r: Result<Article>)
    ensures r.Err? <==> forall k :: 0 <= k < |news| ==> news[k].id != id
    ensures r.Err? ==> r.error == NotFound
    ensures r.Ok? ==> r.value in news && r.value.id == id
  {
    var i := FindNews(news, id);
    if i == -1 then Err(NotFound) else Ok(news[i])
  }

  /** `sort({ createdAt: -1 })`. */
  function ByCreatedDesc(a: Article): Key {
    Key(-(a.createdAt as int), 0)
  }

  /** The filter parameters of the admin listing. */
  datatype AdminQuery = AdminQuery(status: Option<string>, category: Option<string>, search: Option<string>)

  predicate AdminListedBy(q: AdminQuery, textMatch: (Article, string) -> bool, a: Article) {
    && (Truthy(q.status) ==> StatusName(a.status) == q.status.value)
    && (Truthy(q.category) ==> CategoryName(a.category) == q.category.value)
    && (Truthy(q.search) ==> textMatch(a, q.search.value))
  }

  /** `getAllNewsAdmin`: articles of every status that pass the given filters,
      newest `createdAt` first, paged with a default limit of 10. */
  function GetAllNewsAdmin(news: seq<Article>, q: AdminQuery, textMatch: (Article, string) -> bool,
                           page: Option<int>, limit: Option<int>)
    : (r: Result<Page<Article>>)
    ensures r.Ok? ==>
      && r.value.total == |Filter(news, a => AdminListedBy(q, textMatch, a))|
      && SortedBy(r.value.data, ByCreatedDesc)
      && (forall k :: 0 <= k < |r.value.data| ==>
            r.value.data[k] in news && AdminListedBy(q, textMatch, r.value.data[k]))
      && IsWindowOf(r.value.data, SortBy(Filter(news, a => AdminListedBy(q, textMatch, a)), ByCreatedDesc),
                    page, limit, 10)
    ensures r.Err? <==> (ParamOr(page, 1) - 1) * ParamOr(limit, 10) < 0
    ensures r.Err? ==> r.error == Internal(NegativeSkip)
    ensures r.Ok? ==>
      && r.value.currentPage == ParamOr(page, 1)
      && r.value.totalPages == CeilDiv(r.value.total, ParamOr(limit, 10))
  {
    var matches := Filter(news, a => AdminListedBy(q, textMatch, a));
    SortedPage(matches, ByCreatedDesc, |matches|, page, limit, 10)
  }

  /** Every article that passes the filters is listed on some page `p` within
      `1..totalPages`. */
  lemma AdminListingComplete(news: seq<Article>, q: AdminQuery, textMatch: (Article, string) -> bool,
                             limit: int, a: Article) returns (p: int)
    requires limit > 0 && a in news && AdminListedBy(q, textMatch, a)
    ensures 1 <= p <= CeilDiv(|Filter(news, x => AdminListedBy(q, textMatch, x))|, limit)
    ensures var r := GetAllNewsAdmin(news, q, textMatch, Some(p), Some(limit));
      r.Ok? && a in r.value.data
  {
    var matches := Filter(news, x => AdminListedBy(q, textMatch, x));
    assert a in matches;
    p := SortedPageComplete(matches, ByCreatedDesc, |matches|, 10, limit, a);
  }

  /** With no filter the admin listing counts every article. */
  lemma AdminUnfilteredTotal(news: seq<Article>, textMatch: (Article, string) -> bool,
                             page: Option<int>, limit: Option<int>)
    ensures var r := GetAllNewsAdmin(news, AdminQuery(None, None, None), textMatch, page, limit);
      r.Ok? ==> r.value.total == |news|
  {
    FilterAll(news, a => AdminListedBy(AdminQuery(None, None, None), textMatch, a));
  }

  // ---- dashboard ----

  datatype Engagement = Engagement(totalViews: int, totalLikes: int)

  datatype Stats = Stats(
    totalNews: nat,
    publishedNews: nat,
    draftNews: nat,
    featuredNews: nat,
    newsByCategory: seq<CategoryCount>,
    engagement: Engagement,
    recentNews: seq<Article>)

  function Anything(a: Article): bool {
    true
  }

  lemma RecentFacts(news: seq<Article>)
    ensures var recent := Top(news, Anything, ByCreatedDesc, 5);
      && |recent| == (if |news| < 5 then |news| else 5)
      && forall k, a :: 0 <= k < |recent| && a in news && a !in recent ==>
           recent[k].createdAt >= a.createdAt
  {
    FilterAll(news, Anything);
    var recent := Top(news, Anything, ByCreatedDesc, 5);
    forall k, a | 0 <= k < |recent| && a in news && a !in recent
      ensures recent[k].createdAt >= a.createdAt
    {
      assert Anything(a);
      assert KeyLe(ByCreatedDesc(recent[k]), ByCreatedDesc(a));
    }
  }

  /** `getDashboardStats`. The status counts split the total with archived
      articles counted only there; featured articles are counted whatever their
      status; each category that occurs has exactly one count, the counts are sorted
      descending and add up to the total;
      the engagement sums fall back to zero on an empty collection, which is what
      the sums are; the recent list is the five newest by `createdAt`. */
  function DashboardStats(news: seq<Article>): (r: Stats)
    ensures r.totalNews == |news|
    ensures r.publishedNews == CountStatus(news, Published) && r.draftNews == CountStatus(news, Draft)
    ensures r.publishedNews + r.draftNews + CountStatus(news, Archived) == r.totalNews
    ensures r.publishedNews + r.draftNews <= r.totalNews
    ensures r.featuredNews == CountFeatured(news)
    ensures SumCounts(r.newsByCategory) == r.totalNews
    ensures forall i, j :: 0 <= i < j < |r.newsByCategory| ==>
      r.newsByCategory[i].count >= r.newsByCategory[j].count
    ensures forall k :: 0 <= k < |r.newsByCategory| ==>
      r.newsByCategory[k].count == CountCategory(news, r.newsByCategory[k].category) > 0
    ensures forall c :: CountCategory(news, c) > 0 <==> c in GroupNames(r.newsByCategory)
    ensures NoDup(GroupNames(r.newsByCategory))
    ensures r.engagement == Engagement(SumViews(news), SumLikes(news))
    ensures news == [] ==> r.engagement == Engagement(0, 0)
    ensures |r.recentNews| == if |news| < 5 then |news| else 5
    ensures SortedBy(r.recentNews, ByCreatedDesc)
    ensures forall k :: 0 <= k < |r.recentNews| ==> r.recentNews[k] in news
    ensures forall k, a :: 0 <= k < |r.recentNews| && a in news && a !in r.recentNews ==>
      r.recentNews[k].createdAt >= a.createdAt
  {
    StatusCountsPartition(news);
    CategoryCountsCounts(news);
    CategoryCountsCover(news);
    CategoryCountsNoDup(news);
    CategoryCountsSum(news);
    var recent := Top(news, Anything, ByCreatedDesc, 5);
    RecentFacts(news);
    Stats(
      |news|, CountStatus(news, Published), CountStatus(news, Draft), CountFeatured(news),
      CategoryCounts(news),
      if news == [] then Engagement(0, 0) else Engagement(SumViews(news), SumLikes(news)),
      recent)
  }
}
