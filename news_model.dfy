/** The `News` schema: field types, enumerations, bounds and defaults, the
    validators Mongoose runs before a write, and the pre-save hook that derives
    the slug from the title and refreshes `updatedAt`. */
module NewsModel {

  import opened Common
  import opened Text

  datatype Category =
    Politics | Business | Technology | Sports | Entertainment | Health | Science | World | Local

  /** The nine values of the `category` enumeration, in schema order. */
  const AllCategories: seq<Category> :=
    [Politics, Business, Technology, Sports, Entertainment, Health, Science, World, Local]

  function CategoryName(c: Category): string {
    match c
    case Politics => "politics"
    case Business => "business"
    case Technology => "technology"
    case Sports => "sports"
    case Entertainment => "entertainment"
    case Health => "health"
    case Science => "science"
    case World => "world"
    case Local => "local"
  }

  /** The enum validator of `category`: a string is accepted exactly when it is the
      name of one of the nine categories. */
  function ParseCategory(s: string): (r: Option<Category>)
    ensures r.Some? ==> CategoryName(r.value) == s
    ensures r.None? ==> forall c :: CategoryName(c) != s
  {
    if s == "politics" then Some(Politics)
    else if s == "business" then Some(Business)
    else if s == "technology" then Some(Technology)
    else if s == "sports" then Some(Sports)
    else if s == "entertainment" then Some(Entertainment)
    else if s == "health" then Some(Health)
    else if s == "science" then Some(Science)
    else if s == "world" then Some(World)
    else if s == "local" then Some(Local)
    else None
  }

  /** The enumeration lists every category exactly once. */
  lemma AllCategoriesComplete()
    ensures forall c :: c in AllCategories
    ensures NoDup(AllCategories)
  {
    forall c ensures c in AllCategories {
      match c
      case Politics => assert AllCategories[0] == c;
      case Business => assert AllCategories[1] == c;
      case Technology => assert AllCategories[2] == c;
      case Sports => assert AllCategories[3] == c;
      case Entertainment => assert AllCategories[4] == c;
      case Health => assert AllCategories[5] == c;
      case Science => assert AllCategories[6] == c;
      case World => assert AllCategories[7] == c;
      case Local => assert AllCategories[8] == c;
    }
  }

  datatype Status = Draft | Published | Archived

  function StatusName(s: Status): string {
    match s
    case Draft => "draft"
    case Published => "published"
    case Archived => "archived"
  }

  /** The enum validator of `status`. */
  function ParseStatus(s: string): (r: Option<Status>)
    ensures r.Some? ==> StatusName(r.value) == s
    ensures r.None? ==> forall t :: StatusName(t) != s
  {
    if s == "draft" then Some(Draft)
    else if s == "published" then Some(Published)
    else if s == "archived" then Some(Archived)
    else None
  }

  const TitleMaxLength := 200
  const SummaryMaxLength := 500

  /** A stored `News` document. `summary` and `publishedAt` have no default and may
      be absent; `likes` is the list of liking users and `likesCount` its derived size. */
  datatype Article = Article(
    id: NewsId,
    title: string,
    slug: string,
    content: string,
    summary: Option<string>,
    category: Category,
    tags: seq<string>,
    image: string,
    author: UserId,
    status: Status,
    likes: seq<UserId>,
    likesCount: int,
    views: int,
    isFeatured: bool,
    publishedAt: Option<Timestamp>,
    createdAt: Timestamp,
    updatedAt: Timestamp)

  /** The validators a save runs: `title` required (a non-empty string) with at most
      200 UTF-16 units, `content` required, `summary` at most 500 units. The enum
      validators of `category` and `status` hold by construction of the datatypes. */
  predicate SchemaValid(a: Article) {
    && 0 < Utf16Length(a.title) <= TitleMaxLength
    && |a.content| > 0
    && (a.summary.Some? ==> Utf16Length(a.summary.value) <= SummaryMaxLength)
  }

  /** The request fields a `News.create` call passes, still uncast. */
  datatype NewsFields = NewsFields(
    title: Option<string>,
    content: Option<string>,
    summary: Option<string>,
    category: Option<string>,
    tags: seq<string>,
    image: Option<string>,
    author: UserId,
    status: string,
    isFeatured: bool,
    publishedAt: Option<Timestamp>)

  /** Casting (`trim` on the title), the validators and the enum checks of a new
      document, with fields present as given and absent ones left to their defaults. */
  predicate FieldsValid(f: NewsFields) {
    && f.title.Some? && 0 < Utf16Length(Trim(f.title.value)) <= TitleMaxLength
    && f.content.Some? && |f.content.value| > 0
    && (f.summary.Some? ==> Utf16Length(f.summary.value) <= SummaryMaxLength)
    && f.category.Some? && ParseCategory(f.category.value).Some?
    && ParseStatus(f.status).Some?
  }

  predicate IsSlugChar(c: char) {
    ('a' <= c <= 'z') || ('0' <= c <= '9') || c == '-'
  }

  /** What `replace(/[^a-zA-Z0-9 ]/g, '')` keeps. */
  predicate IsKept(c: char) {
    ('a' <= c <= 'z') || ('A' <= c <= 'Z') || ('0' <= c <= '9') || c == ' '
  }

  function StripUnsafe(s: string): (r: string)
    ensures forall k :: 0 <= k < |r| ==> IsKept(r[k]) && r[k] in s
  {
    if s == [] then [] else (if IsKept(s[0]) then [s[0]] else []) + StripUnsafe(s[1..])
  }

  /** The title after lower-casing and stripping, before runs of spaces become hyphens. */
  function Stripped(title: string): string {
    StripUnsafe(Lower(title))
  }

  /** The part of the slug before the timestamp suffix. */
  function SlugStem(title: string): string {
    CollapseSpaces(Stripped(title))
  }

  /** The slug the pre-save hook derives from a title at time `now`. */
  function Slug(title: string, now: Timestamp): string {
    SlugStem(title) + "-" + Decimal(now)
  }

  /** Lower-casing comes before stripping, so only lower-case letters, digits and
      spaces survive; spaces are the only whitespace left. */
  lemma StrippedAlphabet(title: string)
    ensures forall k :: 0 <= k < |Stripped(title)| ==>
      var c := Stripped(title)[k];
      (('a' <= c <= 'z') || ('0' <= c <= '9') || c == ' ') && (IsSpace(c) <==> c == ' ')
  {
    var low := Lower(title);
    forall k | 0 <= k < |Stripped(title)|
      ensures var c := Stripped(title)[k]; ('a' <= c <= 'z') || ('0' <= c <= '9') || c == ' '
    {
      var c := Stripped(title)[k];
      assert c in low;
      var j :| 0 <= j < |low| && low[j] == c;
      assert c == LowerChar(title[j]);
    }
  }

  /** Every character `CollapseSpaces` produces is a hyphen or a non-space character
      of its input. */
  lemma {:induction false} CollapseAlphabet(s: string)
    ensures forall k :: 0 <= k < |CollapseSpaces(s)| ==>
      CollapseSpaces(s)[k] == '-' || (!IsSpace(CollapseSpaces(s)[k]) && CollapseSpaces(s)[k] in s)
    decreases |s|
  {
    if s != [] {
      if IsSpace(s[0]) {
        var t := TrimStart(s);
        assert |t| < |s|;
        CollapseAlphabet(t);
        forall c | c in t ensures c in s {
          var j :| 0 <= j < |t| && t[j] == c;
          assert s[|s| - |t| + j] == c;
        }
      } else {
        CollapseAlphabet(s[1..]);
      }
    }
  }

  /** The slug stem holds only `[a-z0-9-]`; in particular it holds no space. */
  lemma SlugStemAlphabet(title: string)
    ensures forall k :: 0 <= k < |SlugStem(title)| ==> IsSlugChar(SlugStem(title)[k])
  {
    StrippedAlphabet(title);
    CollapseAlphabet(Stripped(title));
    var st := Stripped(title);
    forall k | 0 <= k < |SlugStem(title)| ensures IsSlugChar(SlugStem(title)[k]) {
      var c := SlugStem(title)[k];
      if c != '-' {
        var j :| 0 <= j < |st| && st[j] == c;
      }
    }
  }

  /** Each maximal run of spaces in the stripped title becomes exactly one hyphen:
      the stem is the run-wise reference reading of the stripped title, and since
      stripping removed every hyphen, no two hyphens of the stem are adjacent. */
  lemma SlugStemCollapsesRuns(title: string)
    ensures SlugStem(title) == MarkRuns(Stripped(title), false)
    ensures forall k :: 0 <= k < |SlugStem(title)| - 1 ==>
      !(SlugStem(title)[k] == '-' && SlugStem(title)[k + 1] == '-')
  {
    CollapseMarksRuns(Stripped(title));
    StrippedAlphabet(title);
    NoAdjacentHyphens(Stripped(title));
  }

  lemma {:induction false} NoAdjacentHyphens(s: string)
    requires '-' !in s
    ensures forall k :: 0 <= k < |CollapseSpaces(s)| - 1 ==>
      !(CollapseSpaces(s)[k] == '-' && CollapseSpaces(s)[k + 1] == '-')
    ensures s != [] ==> |CollapseSpaces(s)| > 0 && CollapseSpaces(s)[0] == (if IsSpace(s[0]) then '-' else s[0])
    decreases |s|
  {
    if s != [] {
      if IsSpace(s[0]) {
        var t := TrimStart(s);
        assert |t| < |s|;
        assert '-' !in t by {
          forall j | 0 <= j < |t| ensures t[j] != '-' {
            assert t[j] == s[|s| - |t| + j];
          }
        }
        NoAdjacentHyphens(t);
      } else {
        assert '-' !in s[1..];
        NoAdjacentHyphens(s[1..]);
      }
    }
  }

  /** The same title saved at two different instants gets two different slugs. */
  lemma SlugsDifferByTimestamp(title: string, t1: Timestamp, t2: Timestamp)
    requires t1 != t2
    ensures Slug(title, t1) != Slug(title, t2)
  {
    var p := SlugStem(title) + "-";
    assert Slug(title, t1) == p + Decimal(t1) && Slug(title, t2) == p + Decimal(t2);
    if Slug(title, t1) == Slug(title, t2) {
      assert Decimal(t1) == Slug(title, t1)[|p|..];
      assert Decimal(t2) == Slug(title, t2)[|p|..];
      DecimalInjective(t1, t2);
    }
  }

  /** The pre-save hook: the slug is derived again only when the title is among the
      modified paths, and `updatedAt` is refreshed on every save. */
  function PreSave(a: Article, titleModified: bool, now: Timestamp): (r: Article)
    ensures titleModified ==> r.slug == Slug(a.title, now)
    ensures !titleModified ==> r.slug == a.slug
    ensures r.updatedAt == now
    ensures r.(slug := a.slug, updatedAt := a.updatedAt) == a
  {
    var slug := if titleModified then Slug(a.title, now) else a.slug;
    a.(slug := slug, updatedAt := now)
  }

  /** `News.create`: cast the fields (`trim` on the title and on each tag), validate
      them, fill the schema defaults (`image` '', no likes, zero counters, both
      timestamps `now`), then run the pre-save hook, for which a new document's
      title always counts as modified. */
  function CreateDocument(id: NewsId, f: NewsFields, now: Timestamp): (r: Result<Article>)
    ensures r.Err? <==> !FieldsValid(f)
    ensures r.Err? ==> r.error == Internal(ValidationFailed)
    ensures r.Ok? ==> var a := r.value;
      && SchemaValid(a) && a.id == id && a.author == f.author
      && a.title == Trim(f.title.value) && a.slug == Slug(a.title, now)
      && a.content == f.content.value && a.summary == f.summary
      && CategoryName(a.category) == f.category.value && StatusName(a.status) == f.status
      && a.tags == TrimEach(f.tags) && a.image == (if f.image.Some? then f.image.value else "")
      && a.likes == [] && a.likesCount == 0 && a.views == 0
      && a.isFeatured == f.isFeatured && a.publishedAt == f.publishedAt
      && a.createdAt == now && a.updatedAt == now
  {
    if !FieldsValid(f) then Err(Internal(ValidationFailed))
    else
      var doc := Article(
        id, Trim(f.title.value), "", f.content.value, f.summary,
        ParseCategory(f.category.value).value, TrimEach(f.tags),
        if f.image.Some? then f.image.value else "",
        f.author, ParseStatus(f.status).value, [], 0, 0, f.isFeatured,
        f.publishedAt, now, now);
      Ok(PreSave(doc, true, now))
  }
}
