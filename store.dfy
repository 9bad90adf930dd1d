/** The MongoDB database the controllers talk to, held in memory: the `news`,
    `users` and `comments` collections as sequences of documents in insertion
    order, and the source of fresh object ids. */
module Store {

  import opened Common
  import opened NewsModel

  /** The part of a `User` document the controllers read and write. */
  datatype User = User(id: UserId, role: Role, favorites: seq<NewsId>)

  /** A stored `Comment` document; `parent` is `parentComment`, `None` for a
      top-level comment. */
  datatype Comment = Comment(
    id: CommentId,
    news: NewsId,
    user: UserId,
    content: string,
    parent: Option<CommentId>,
    likes: seq<UserId>,
    likesCount: int,
    createdAt: Timestamp)

  /** The position of the first element satisfying `p`, or -1: what `findById` and
      `findOne` resolve to. */
  function Find<T>(s: seq<T>, p: T -> bool): (i: int)
    ensures -1 <= i < |s|
    ensures i == -1 <==> forall k :: 0 <= k < |s| ==> !p(s[k])
    ensures 0 <= i ==> p(s[i]) && forall k :: 0 <= k < i ==> !p(s[k])
  {
    if s == [] then -1
    else if p(s[0]) then 0
    else
      var j := Find(s[1..], p);
      assert forall k :: 1 <= k < |s| ==> s[k] == s[1..][k - 1];
      if j == -1 then -1 else j + 1
  }

  function FindNews(s: seq<Article>, id: NewsId): (i: int)
    ensures -1 <= i < |s|
    ensures i == -1 <==> forall k :: 0 <= k < |s| ==> s[k].id != id
    ensures 0 <= i ==> s[i].id == id
  {
    Find(s, (a: Article) => a.id == id)
  }

  function FindUser(s: seq<User>, id: UserId): (i: int)
    ensures -1 <= i < |s|
    ensures i == -1 <==> forall k :: 0 <= k < |s| ==> s[k].id != id
    ensures 0 <= i ==> s[i].id == id
  {
    Find(s, (u: User) => u.id == id)
  }

  function FindComment(s: seq<Comment>, id: CommentId): (i: int)
    ensures -1 <= i < |s|
    ensures i == -1 <==> forall k :: 0 <= k < |s| ==> s[k].id != id
    ensures 0 <= i ==> s[i].id == id
  {
    Find(s, (c: Comment) => c.id == id)
  }

  /** What every stored article satisfies: the schema validators, `likesCount` in
      step with `likes`, no user liking twice, a non-negative view counter and a
      publication date on every published article. */
  predicate ArticleInvariant(a: Article) {
    && SchemaValid(a)
    && a.likesCount == |a.likes| && NoDup(a.likes)
    && a.views >= 0
    && (a.status == Published ==> a.publishedAt.Some?)
  }

  /** The `news` collection: valid documents with distinct `_id`s below the next
      fresh id, and distinct slugs (the unique index). */
  predicate NewsValid(s: seq<Article>, next: nat) {
    && (forall k :: 0 <= k < |s| ==> ArticleInvariant(s[k]) && s[k].id < next)
    && (forall i, j :: 0 <= i < j < |s| ==> s[i].id != s[j].id && s[i].slug != s[j].slug)
  }

  predicate UsersValid(s: seq<User>) {
    && (forall k :: 0 <= k < |s| ==> NoDup(s[k].favorites))
    && (forall i, j :: 0 <= i < j < |s| ==> s[i].id != s[j].id)
  }

  predicate CommentInvariant(c: Comment) {
    c.likesCount == |c.likes| && NoDup(c.likes)
  }

  predicate CommentsValid(s: seq<Comment>, next: nat) {
    && (forall k :: 0 <= k < |s| ==> CommentInvariant(s[k]) && s[k].id < next)
    && (forall i, j :: 0 <= i < j < |s| ==> s[i].id != s[j].id)
  }

  class Database {
    var news: seq<Article>
    var users: seq<User>
    var comments: seq<Comment>
    /** Every id handed out so far is below `nextId`; new documents take it. */
    var nextId: nat

    predicate Valid()
      reads this
    {
      NewsValid(news, nextId) && UsersValid(users) && CommentsValid(comments, nextId)
    }

    /** A database holding the registered users and no articles or comments. */
    constructor (registered: seq<User>)
      requires UsersValid(registered)
      ensures Valid()
      ensures news == [] && users == registered && comments == [] && nextId == 0
    {
      news := [];
      users := registered;
      comments := [];
      nextId := 0;
    }

    /** Stores a new article under the next id; its slug must be unused. */
    method InsertArticle(a: Article)
      requires Valid() && a.id == nextId && ArticleInvariant(a)
      requires forall k :: 0 <= k < |news| ==> news[k].slug != a.slug
      modifies this
      ensures Valid()
      ensures news == old(news) + [a] && nextId == old(nextId) + 1
      ensures users == old(users) && comments == old(comments)
    {
      AppendArticle(news, nextId, a);
      news := news + [a];
      nextId := nextId + 1;
    }

    /** Stores a new comment under the next id. */
    method InsertComment(c: Comment)
      requires Valid() && c.id == nextId && CommentInvariant(c)
      modifies this
      ensures Valid()
      ensures comments == old(comments) + [c] && nextId == old(nextId) + 1
      ensures users == old(users) && news == old(news)
    {
      AppendComment(comments, nextId, c);
      comments := comments + [c];
      nextId := nextId + 1;
    }
  }

  /** Appending an article with the next id and an unused slug keeps the
      collection valid under the advanced counter. */
  lemma AppendArticle(s: seq<Article>, next: nat, a: Article)
    requires NewsValid(s, next) && a.id == next && ArticleInvariant(a)
    requires forall k :: 0 <= k < |s| ==> s[k].slug != a.slug
    ensures NewsValid(s + [a], next + 1)
  {
    var t := s + [a];
    forall p, q | 0 <= p < q < |t| ensures t[p].id != t[q].id && t[p].slug != t[q].slug {
      assert t[p] == s[p];
      if q < |s| {
        assert t[q] == s[q];
      }
    }
  }

  /** Appending a comment with the next id keeps the collection valid under the
      advanced counter. */
  lemma AppendComment(s: seq<Comment>, next: nat, c: Comment)
    requires CommentsValid(s, next) && c.id == next && CommentInvariant(c)
    ensures CommentsValid(s + [c], next + 1)
  {
    var t := s + [c];
    forall p, q | 0 <= p < q < |t| ensures t[p].id != t[q].id {
      assert t[p] == s[p];
      if q < |s| {
        assert t[q] == s[q];
      }
    }
  }

  /** Replacing one article by a valid one with the same id and slug keeps the
      collection valid. */
  lemma ReplaceArticle(s: seq<Article>, next: nat, i: nat, a: Article)
    requires NewsValid(s, next) && i < |s|
    requires a.id == s[i].id && a.slug == s[i].slug && ArticleInvariant(a)
    ensures NewsValid(s[i := a], next)
  {
    var t := s[i := a];
    forall p, q | 0 <= p < q < |t| ensures t[p].id != t[q].id && t[p].slug != t[q].slug {
      assert t[p].id == s[p].id && t[p].slug == s[p].slug;
      assert t[q].id == s[q].id && t[q].slug == s[q].slug;
    }
  }

  lemma ReplaceUser(s: seq<User>, i: nat, u: User)
    requires UsersValid(s) && i < |s| && u.id == s[i].id && NoDup(u.favorites)
    ensures UsersValid(s[i := u])
  {
    var t := s[i := u];
    forall p, q | 0 <= p < q < |t| ensures t[p].id != t[q].id {
      assert t[p].id == s[p].id && t[q].id == s[q].id;
    }
  }

  lemma ReplaceComment(s: seq<Comment>, next: nat, i: nat, c: Comment)
    requires CommentsValid(s, next) && i < |s| && c.id == s[i].id && CommentInvariant(c)
    ensures CommentsValid(s[i := c], next)
  {
    var t := s[i := c];
    forall p, q | 0 <= p < q < |t| ensures t[p].id != t[q].id {
      assert t[p].id == s[p].id && t[q].id == s[q].id;
    }
  }
}
