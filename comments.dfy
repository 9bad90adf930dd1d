/** The comment handlers: the threaded listing of an article's comments, adding
    a comment or a reply, editing and deleting with their permission checks, and
    the comment like toggle. */
module CommentThreads {

  import opened Common
  import opened Engagement
  import opened NewsModel
  import opened Query
  import opened Store

  /** A listed top-level comment with its direct replies (`{ ...comment, replies }`). */
  datatype Thread = Thread(comment: Comment, replies: seq<Comment>)

  predicate IsTopLevelOf(newsId: NewsId, c: Comment) {
    c.news == newsId && c.parent.None?
  }

  predicate IsReplyTo(id: CommentId, c: Comment) {
    c.parent == Some(id)
  }

  /** `sort({ createdAt: -1 })`. */
  function NewestFirst(c: Comment): Key {
    Key(-(c.createdAt as int), 0)
  }

  /** `sort({ createdAt: 1 })`. */
  function OldestFirst(c: Comment): Key {
    Key(c.createdAt, 0)
  }

  /** `Comment.find({ parentComment: id }).sort({ createdAt: 1 })`: every comment
      whose parent is `id`, of any article, oldest first, all of them. */
  function Replies(comments: seq<Comment>, id: CommentId): (r: seq<Comment>)
    ensures forall x :: x in r <==> x in comments && IsReplyTo(id, x)
    ensures forall i, j :: 0 <= i < j < |r| ==> r[i].createdAt <= r[j].createdAt
  {
    var p := (x: Comment) => IsReplyTo(id, x);
    SortedMatches(comments, p, OldestFirst);
    SortBy(Filter(comments, p), OldestFirst)
  }

  function WithReplies(comments: seq<Comment>, top: seq<Comment>): (r: seq<Thread>)
    ensures |r| == |top|
    ensures forall k :: 0 <= k < |r| ==> r[k] == Thread(top[k], Replies(comments, top[k].id))
  {
    seq(|top|, k requires 0 <= k < |top| => Thread(top[k], Replies(comments, top[k].id)))
  }

  /** The article's top-level comments, in stored order. */
  function TopLevel(comments: seq<Comment>, newsId: NewsId): (r: seq<Comment>)
    ensures forall x :: x in r <==> x in comments && IsTopLevelOf(newsId, x)
  {
    var r := Filter(comments, c => IsTopLevelOf(newsId, c));
    assert forall x :: x in r ==> x in comments && IsTopLevelOf(newsId, x) by {
      forall x | x in r ensures x in comments && IsTopLevelOf(newsId, x) {
        var k :| 0 <= k < |r| && r[k] == x;
      }
    }
    assert forall x :: x in comments && IsTopLevelOf(newsId, x) ==> x in r by {
      forall x | x in comments && IsTopLevelOf(newsId, x) ensures x in r {
        var k :| 0 <= k < |comments| && comments[k] == x;
      }
    }
    r
  }

  /** `getComments`: only the article's top-level comments are listed, newest first
      and paged with a default limit of 20; `total` counts only those. Each comes
      with all of its direct replies, oldest first and not paged. */
  function GetComments(comments: seq<Comment>, newsId: NewsId, page: Option<int>, limit: Option<int>)
    : (r: Result<Page<Thread>>)
    ensures r.Ok? ==>
      && r.value.total == |TopLevel(comments, newsId)|
      && r.value.count == |r.value.data| <= Abs(ParamOr(limit, 20))
      && (forall k :: 0 <= k < |r.value.data| ==>
            var t := r.value.data[k];
            && t.comment in comments && IsTopLevelOf(newsId, t.comment)
            && (forall x :: x in t.replies <==> x in comments && IsReplyTo(t.comment.id, x))
            && t.replies == Replies(comments, t.comment.id))
      && (forall i, j :: 0 <= i < j < |r.value.data| ==>
            r.value.data[i].comment.createdAt >= r.value.data[j].comment.createdAt)
      && IsWindowOf(Heads(r.value.data), SortBy(TopLevel(comments, newsId), NewestFirst), page, limit, 20)
    ensures r.Err? <==> (ParamOr(page, 1) - 1) * ParamOr(limit, 20) < 0
    ensures r.Err? ==> r.error == Internal(NegativeSkip)
    ensures r.Ok? ==>
      && r.value.currentPage == ParamOr(page, 1)
      && r.value.totalPages == CeilDiv(r.value.total, ParamOr(limit, 20))
  {
    var top := TopLevel(comments, newsId);
    var p := SortedPage(top, NewestFirst, |top|, page, limit, 20);
    if p.Err? then Err(p.error)
    else
      var shown := p.value.data;
      NewestFirstOrder(shown);
      assert forall k :: 0 <= k < |shown| ==> shown[k] in top;
      Ok(Page(p.value.count, p.value.total, p.value.totalPages, p.value.currentPage,
              WithReplies(comments, shown)))
  }

  /** The listed top-level comments of a page of threads. */
  function Heads(ts: seq<Thread>): seq<Comment> {
    Map(ts, (t: Thread) => t.comment)
  }

  /** Every top-level comment of the article heads a thread, with all its replies,
      on some page `p` within `1..totalPages`. */
  lemma CommentsListingComplete(comments: seq<Comment>, newsId: NewsId, limit: int, c: Comment) returns (p: int)
    requires limit > 0 && c in comments && IsTopLevelOf(newsId, c)
    ensures 1 <= p <= CeilDiv(|TopLevel(comments, newsId)|, limit)
    ensures var r := GetComments(comments, newsId, Some(p), Some(limit));
      r.Ok? && Thread(c, Replies(comments, c.id)) in r.value.data
  {
    var top := TopLevel(comments, newsId);
    p := SortedPageComplete(top, NewestFirst, |top|, 20, limit, c);
    var shown := SortedPage(top, NewestFirst, |top|, Some(p), Some(limit), 20).value.data;
    var k :| 0 <= k < |shown| && shown[k] == c;
    assert GetComments(comments, newsId, Some(p), Some(limit)).value.data[k] == Thread(c, Replies(comments, c.id));
  }

  lemma NewestFirstOrder(shown: seq<Comment>)
    requires SortedBy(shown, NewestFirst)
    ensures forall i, j :: 0 <= i < j < |shown| ==> shown[i].createdAt >= shown[j].createdAt
  {
    forall i, j | 0 <= i < j < |shown| ensures shown[i].createdAt >= shown[j].createdAt {
      assert KeyLe(NewestFirst(shown[i]), NewestFirst(shown[j]));
    }
  }

  /** A reply to a reply is never listed under the top-level comment: in a store
      with distinct ids its parent is the reply, not the listed comment. */
  lemma NoReplyToReply(comments: seq<Comment>, next: nat, top: Comment, x: Comment, y: Comment)
    requires CommentsValid(comments, next) && top in comments && top.parent.None?
    requires x in Replies(comments, top.id) && y in comments && IsReplyTo(x.id, y)
    ensures y !in Replies(comments, top.id)
  {
    var p :| 0 <= p < |comments| && comments[p] == top;
    var q :| 0 <= q < |comments| && comments[q] == x;
    assert p != q;
  }

  /** `addComment`: 404 when the article is missing, or when a parent id is given
      and does not resolve, with nothing stored. Otherwise the new comment is
      appended with the parent as given; neither the parent's article nor its
      depth is checked. */
  method AddComment(db: Database, newsId: NewsId, actor: Actor, content: string,
                    parentId: Option<CommentId>, now: Timestamp)
    returns (r: Result<Comment>)
    requires db.Valid()
    modifies db
    ensures db.Valid()
    ensures db.news == old(db.news) && db.users == old(db.users)
    ensures FindNews(old(db.news), newsId) == -1 ==> r == Err(NotFound) && unchanged(db)
    ensures FindNews(old(db.news), newsId) >= 0 && parentId.Some? && FindComment(old(db.comments), parentId.value) == -1
      ==> r == Err(NotFound) && unchanged(db)
    ensures r.Ok? <==>
      FindNews(old(db.news), newsId) >= 0 && (parentId.Some? ==> FindComment(old(db.comments), parentId.value) >= 0)
    ensures r.Ok? ==>
      && r.value == Comment(old(db.nextId), newsId, actor.id, content, parentId, [], 0, now)
      && db.comments == old(db.comments) + [r.value]
      && db.nextId == old(db.nextId) + 1
  {
    if FindNews(db.news, newsId) == -1 {
      return Err(NotFound);
    }
    if parentId.Some? && FindComment(db.comments, parentId.value) == -1 {
      return Err(NotFound);
    }
    var c := Comment(db.nextId, newsId, actor.id, content, parentId, [], 0, now);
    db.InsertComment(c);
    r := Ok(c);
  }

  /** `updateComment`: 404 for an unknown id; 403 unless the actor wrote the
      comment, administrators included; otherwise only `content` is replaced. */
  method UpdateComment(db: Database, id: CommentId, actor: Actor, content: string)
    returns (r: Result<Comment>)
    requires db.Valid()
    modifies db
    ensures db.Valid()
    ensures db.news == old(db.news) && db.users == old(db.users) && db.nextId == old(db.nextId)
    ensures var i := FindComment(old(db.comments), id);
      && (i == -1 ==> r == Err(NotFound) && db.comments == old(db.comments))
      && (i >= 0 && old(db.comments)[i].user != actor.id ==>
            r == Err(Forbidden) && db.comments == old(db.comments))
      && (i >= 0 && old(db.comments)[i].user == actor.id ==>
            var c := old(db.comments)[i].(content := content);
            r == Ok(c) && db.comments == old(db.comments)[i := c])
  {
    var i := FindComment(db.comments, id);
    if i == -1 {
      return Err(NotFound);
    }
    var c := db.comments[i];
    if c.user != actor.id {
      return Err(Forbidden);
    }
    c := c.(content := content);
    ReplaceComment(db.comments, db.nextId, i, c);
    db.comments := db.comments[i := c];
    r := Ok(c);
  }

  /** Who may delete: the author, or any administrator. */
  predicate MayDelete(c: Comment, actor: Actor) {
    c.user == actor.id || actor.role == Admin
  }

  /** `deleteComment`: 404 for an unknown id and 403 for anyone but the author or an
      administrator, with nothing removed. Otherwise `deleteMany` removes the
      comments whose parent is this one and `deleteOne` removes the comment
      itself; replies to those replies, and every other comment, stay. */
  method DeleteComment(db: Database, id: CommentId, actor: Actor) returns (r: Result<()>)
    requires db.Valid()
    modifies db
    ensures db.Valid()
    ensures db.news == old(db.news) && db.users == old(db.users) && db.nextId == old(db.nextId)
    ensures var i := FindComment(old(db.comments), id);
      && (i == -1 ==> r == Err(NotFound) && db.comments == old(db.comments))
      && (i >= 0 && !MayDelete(old(db.comments)[i], actor) ==>
            r == Err(Forbidden) && db.comments == old(db.comments))
      && (i >= 0 && MayDelete(old(db.comments)[i], actor) ==>
            && r == Ok(())
            && forall x :: x in db.comments <==> x in old(db.comments) && x.parent != Some(id) && x.id != id)
  {
    var i := FindComment(db.comments, id);
    if i == -1 {
      return Err(NotFound);
    }
    if !MayDelete(db.comments[i], actor) {
      return Err(Forbidden);
    }
    ghost var before := db.comments;
    FilterKeepsValid(db.comments, db.nextId, x => !IsReplyTo(id, x));
    db.comments := Filter(db.comments, x => !IsReplyTo(id, x));
    ghost var middle := db.comments;
    FilterKeepsValid(db.comments, db.nextId, (x: Comment) => x.id != id);
    db.comments := Filter(db.comments, (x: Comment) => x.id != id);
    forall x ensures x in db.comments <==> x in before && x.parent != Some(id) && x.id != id {
      assert x in middle <==> x in before && x.parent != Some(id);
    }
    r := Ok(());
  }

  /** Keeping the comments that pass a condition keeps the collection valid. */
  lemma FilterKeepsValid(s: seq<Comment>, next: nat, p: Comment -> bool)
    requires CommentsValid(s, next)
    ensures CommentsValid(Filter(s, p), next)
  {
    FilterKeeps(s, p, (c: Comment) => CommentInvariant(c) && c.id < next, (a: Comment, b: Comment) => a.id != b.id);
  }

  /** The response of a comment like toggle. */
  datatype CommentLikeState = CommentLikeState(isLiked: bool, likesCount: int)

  /** A comment after a like toggle by `u`. */
  function AfterCommentLike(c: Comment, u: UserId): (r: Comment)
    ensures r.likes == Toggle(c.likes, u) && r.likesCount == |r.likes|
    ensures r == c.(likes := r.likes, likesCount := r.likesCount)
    ensures CommentInvariant(c) ==>
      && CommentInvariant(r)
      && (u in r.likes <==> u !in c.likes)
      && r.likesCount == if u in c.likes then c.likesCount - 1 else c.likesCount + 1
  {
    var likes := Toggle(c.likes, u);
    var r := c.(likes := likes, likesCount := |likes|);
    if NoDup(c.likes) then
      TogglePreservesNoDup(c.likes, u);
      ToggleMembership(c.likes, u);
      r
    else r
  }

  /** Two like toggles restore membership and count; the comment comes back
      exactly when the user had not liked it. */
  lemma CommentLikeTwice(c: Comment, u: UserId)
    requires CommentInvariant(c)
    ensures var b := AfterCommentLike(AfterCommentLike(c, u), u);
      && (u in b.likes <==> u in c.likes) && b.likesCount == c.likesCount
      && (u !in c.likes ==> b == c)
      && multiset(b.likes) == multiset(c.likes)
  {
    if u in c.likes {
      ToggleTwiceFromPresent(c.likes, u);
    } else {
      ToggleTwiceFromAbsent(c.likes, u);
    }
  }

  /** `toggleCommentLike`: 404 for an unknown id; otherwise one toggle and the new
      state in the response. */
  method ToggleCommentLike(db: Database, id: CommentId, actor: Actor) returns (r: Result<CommentLikeState>)
    requires db.Valid()
    modifies db
    ensures db.Valid()
    ensures db.news == old(db.news) && db.users == old(db.users) && db.nextId == old(db.nextId)
    ensures var i := FindComment(old(db.comments), id);
      && (i == -1 ==> r == Err(NotFound) && db.comments == old(db.comments))
      && (i >= 0 ==>
            var c := AfterCommentLike(old(db.comments)[i], actor.id);
            && db.comments == old(db.comments)[i := c]
            && r == Ok(CommentLikeState(actor.id in c.likes, c.likesCount))
            && c.likesCount == |c.likes|)
  {
    var i := FindComment(db.comments, id);
    if i == -1 {
      return Err(NotFound);
    }
    var c := db.comments[i];
    var likes := c.likes;
    var likeIndex := IndexOf(likes, actor.id);
    if likeIndex > -1 {
      likes := likes[..likeIndex] + likes[likeIndex + 1..];
    } else {
      likes := likes + [actor.id];
    }
    c := c.(likes := likes, likesCount := |likes|);
    assert c == AfterCommentLike(db.comments[i], actor.id);
    ReplaceComment(db.comments, db.nextId, i, c);
    db.comments := db.comments[i := c];
    r := Ok(CommentLikeState(likeIndex == -1, c.likesCount));
  }
}
