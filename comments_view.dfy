/** The article page's comment section: the two-level list the component keeps
    in its state, and the changes its handlers make to that list once the server
    has answered. */
module CommentsView {

  import opened Common
  import opened Text
  import opened Query

  /** A comment as the component holds it; `author` is `comment.user?._id`. */
  datatype ViewComment = ViewComment(
    id: CommentId,
    author: Option<UserId>,
    content: string,
    likesCount: int,
    isEdited: bool)

  /** A top-level comment with its `replies`. Replies carry no replies of their
      own, so the list is two levels deep by construction. */
  datatype Thread = Thread(top: ViewComment, replies: seq<ViewComment>)

  /** The component state: `comments`, the text box `newComment`, `replyTo` and
      `editingComment`. */
  datatype ViewState = ViewState(
    comments: seq<Thread>,
    newComment: string,
    replyTo: Option<CommentId>,
    editing: Option<CommentId>)

  /** Every comment on screen, each top-level comment followed by its replies. */
  function AllComments(ts: seq<Thread>): (r: seq<ViewComment>)
    ensures |r| >= |ts|
  {
    if ts == [] then [] else [ts[0].top] + ts[0].replies + AllComments(ts[1..])
  }

  /** The count in the section header, `comments.length`: top-level comments only. */
  function HeaderCount(s: ViewState): nat {
    |s.comments|
  }

  predicate TopIdsDistinct(ts: seq<Thread>) {
    forall i, j :: 0 <= i < j < |ts| ==> ts[i].top.id != ts[j].top.id
  }

  // ---------------------------------------------------------------- submit

  function ReplyInto(t: Thread, id: CommentId, c: ViewComment): Thread {
    if t.top.id == id then t.(replies := t.replies + [c]) else t
  }

  /** The reply branch of `handleSubmit`: the new comment goes at the end of the
      replies of the top-level comment whose id is `replyTo`; the top-level list
      keeps its length, its order and its comments. */
  function AppendReply(ts: seq<Thread>, id: CommentId, c: ViewComment): (r: seq<Thread>)
    ensures |r| == |ts|
    ensures forall k :: 0 <= k < |r| ==> r[k].top == ts[k].top
    ensures forall k :: 0 <= k < |r| ==>
      r[k].replies == if ts[k].top.id == id then ts[k].replies + [c] else ts[k].replies
  {
    if ts == [] then [] else [ReplyInto(ts[0], id, c)] + AppendReply(ts[1..], id, c)
  }

  /** `handleSubmit`: nothing changes for a signed-out viewer, for a text box that
      is blank once trimmed, or when the server call fails (`response` is `None`).
      Otherwise the server's comment is prepended with no replies, or appended to
      the replies of the thread being answered, and the form is cleared. */
  function Submit(s: ViewState, viewer: Option<UserId>, response: Option<ViewComment>): (r: ViewState)
    ensures viewer.None? || Trim(s.newComment) == [] || response.None? ==> r == s
    ensures viewer.Some? && Trim(s.newComment) != [] && response.Some? ==>
      && r.newComment == [] && r.replyTo == None && r.editing == s.editing
      && (s.replyTo.None? ==> r.comments == [Thread(response.value, [])] + s.comments)
      && (s.replyTo.Some? ==> r.comments == AppendReply(s.comments, s.replyTo.value, response.value))
  {
    if viewer.None? || Trim(s.newComment) == [] || response.None? then s
    else
      var c := response.value;
      var comments := if s.replyTo.Some? then AppendReply(s.comments, s.replyTo.value, c)
                      else [Thread(c, [])] + s.comments;
      s.(comments := comments, newComment := [], replyTo := None)
  }

  /** The Reply button, rendered only on top-level comments (`!isReply`): it
      selects the `k`-th top-level comment as the one being answered. */
  function StartReply(s: ViewState, k: nat): (r: ViewState)
    requires k < |s.comments|
    ensures r.replyTo == Some(s.comments[k].top.id)
    ensures r.comments == s.comments && r.newComment == s.newComment && r.editing == s.editing
  {
    s.(replyTo := Some(s.comments[k].top.id))
  }

  /** The number of top-level comments with the given id. */
  function Matching(ts: seq<Thread>, id: CommentId): nat {
    if ts == [] then 0 else (if ts[0].top.id == id then 1 else 0) + Matching(ts[1..], id)
  }

  function Copies(c: ViewComment, n: nat): multiset<ViewComment> {
    if n == 0 then multiset{} else Copies(c, n - 1) + multiset{c}
  }

  /** A reply shows up once under every top-level comment with the target id, and
      nothing else on screen changes. */
  lemma {:induction false} ReplyAddsCopies(ts: seq<Thread>, id: CommentId, c: ViewComment)
    ensures multiset(AllComments(AppendReply(ts, id, c)))
         == multiset(AllComments(ts)) + Copies(c, Matching(ts, id))
  {
    if ts != [] {
      var r := AppendReply(ts, id, c);
      assert r == [ReplyInto(ts[0], id, c)] + AppendReply(ts[1..], id, c);
      assert r[0] == ReplyInto(ts[0], id, c) && r[1..] == AppendReply(ts[1..], id, c);
      AllCommentsCons(r);
      AllCommentsCons(ts);
      ReplyIntoBag(ts[0], id, c);
      ReplyAddsCopies(ts[1..], id, c);
      var added := if ts[0].top.id == id then multiset{c} else multiset{};
      var n := Matching(ts[1..], id);
      var before, after := Copies(c, n), Copies(c, Matching(ts, id));
      if ts[0].top.id == id {
        assert Matching(ts, id) == n + 1;
        assert after == Copies(c, n + 1) == before + added;
      } else {
        assert Matching(ts, id) == n;
        assert after == before + added;
      }
      Regroup(ThreadBag(ts[0]), added, multiset(AllComments(ts[1..])), before);
    }
  }

  /** Multiset union regrouped, kept apart from the thread facts so that the
      solver settles it on its own. */
  lemma Regroup<T>(a: multiset<T>, b: multiset<T>, c: multiset<T>, d: multiset<T>)
    ensures (a + b) + (c + d) == (a + c) + (d + b)
  {
  }

  /** The comments one thread puts on screen. */
  function ThreadBag(t: Thread): multiset<ViewComment> {
    multiset{t.top} + multiset(t.replies)
  }

  lemma AllCommentsCons(ts: seq<Thread>)
    requires ts != []
    ensures multiset(AllComments(ts)) == ThreadBag(ts[0]) + multiset(AllComments(ts[1..]))
  {
  }

  lemma ReplyIntoBag(t: Thread, id: CommentId, c: ViewComment)
    ensures ThreadBag(ReplyInto(t, id, c))
         == ThreadBag(t) + (if t.top.id == id then multiset{c} else multiset{})
  {
  }

  /** With distinct top-level ids, an id found at position `k` is matched once. */
  lemma {:induction false} MatchingOnce(ts: seq<Thread>, k: nat)
    requires k < |ts| && TopIdsDistinct(ts)
    ensures Matching(ts, ts[k].top.id) == 1
  {
    var id := ts[k].top.id;
    var rest := ts[1..];
    assert TopIdsDistinct(rest) by {
      forall i, j | 0 <= i < j < |rest| ensures rest[i].top.id != rest[j].top.id {
        assert rest[i] == ts[i + 1] && rest[j] == ts[j + 1];
      }
    }
    if k == 0 {
      MatchingNone(rest, id);
    } else {
      assert rest[k - 1] == ts[k];
      MatchingOnce(rest, k - 1);
    }
  }

  lemma {:induction false} MatchingNone(ts: seq<Thread>, id: CommentId)
    requires forall k :: 0 <= k < |ts| ==> ts[k].top.id != id
    ensures Matching(ts, id) == 0
  {
    if ts != [] {
      assert forall k :: 0 <= k < |ts[1..]| ==> ts[1..][k] == ts[k + 1];
      MatchingNone(ts[1..], id);
    }
  }

  /** Answering a top-level comment through its Reply button: the header count is
      unchanged, the reply ends that thread, and exactly one comment is added to
      the screen. */
  lemma ReplyLands(s: ViewState, k: nat, viewer: Option<UserId>, c: ViewComment)
    requires k < |s.comments| && TopIdsDistinct(s.comments)
    requires viewer.Some? && Trim(s.newComment) != []
    ensures var after := Submit(StartReply(s, k), viewer, Some(c));
      && HeaderCount(after) == HeaderCount(s)
      && after.comments[k].replies == s.comments[k].replies + [c]
      && multiset(AllComments(after.comments)) == multiset(AllComments(s.comments)) + multiset{c}
      && after.replyTo == None && after.newComment == []
  {
    ReplyAddsCopies(s.comments, s.comments[k].top.id, c);
    MatchingOnce(s.comments, k);
    assert Copies(c, 1) == multiset{c};
  }

  /** A new top-level comment raises the header count by one and is shown first,
      above the previous list, which keeps its order. */
  lemma TopLevelLands(s: ViewState, viewer: Option<UserId>, c: ViewComment)
    requires s.replyTo.None? && viewer.Some? && Trim(s.newComment) != []
    ensures var after := Submit(s, viewer, Some(c));
      && HeaderCount(after) == HeaderCount(s) + 1
      && after.comments[0] == Thread(c, [])
      && after.comments[1..] == s.comments
      && multiset(AllComments(after.comments)) == multiset(AllComments(s.comments)) + multiset{c}
  {
    var after := Submit(s, viewer, Some(c));
    assert after.comments[1..] == s.comments;
    assert AllComments(after.comments) == [c] + AllComments(s.comments);
  }

  // ---------------------------------------------------------- edit and like

  /** The map both `handleUpdate` and `handleLike` apply, with `f` the change to
      one comment: a top-level comment with the id is changed (its replies are
      then left alone); otherwise its replies with the id are changed. */
  function UpdateIn(rs: seq<ViewComment>, id: CommentId, f: ViewComment -> ViewComment): (r: seq<ViewComment>)
    ensures |r| == |rs|
    ensures forall j :: 0 <= j < |r| ==> r[j] == if rs[j].id == id then f(rs[j]) else rs[j]
  {
    seq(|rs|, j requires 0 <= j < |rs| => if rs[j].id == id then f(rs[j]) else rs[j])
  }

  function UpdateThread(t: Thread, id: CommentId, f: ViewComment -> ViewComment): Thread {
    if t.top.id == id then t.(top := f(t.top)) else t.(replies := UpdateIn(t.replies, id, f))
  }

  function UpdateWhere(ts: seq<Thread>, id: CommentId, f: ViewComment -> ViewComment): (r: seq<Thread>)
    ensures |r| == |ts|
    ensures forall k :: 0 <= k < |r| ==>
      && r[k].top == (if ts[k].top.id == id then f(ts[k].top) else ts[k].top)
      && |r[k].replies| == |ts[k].replies|
      && forall j :: 0 <= j < |r[k].replies| ==>
           r[k].replies[j] == if ts[k].top.id != id && ts[k].replies[j].id == id
                              then f(ts[k].replies[j]) else ts[k].replies[j]
  {
    seq(|ts|, k requires 0 <= k < |ts| => UpdateThread(ts[k], id, f))
  }

  /** The change `handleUpdate` makes to the edited comment. */
  function SetContent(content: string): ViewComment -> ViewComment {
    (v: ViewComment) => v.(content := content, isEdited := true)
  }

  /** The change `handleLike` makes: the server's count replaces the shown one. */
  function SetLikes(count: int): ViewComment -> ViewComment {
    (v: ViewComment) => v.(likesCount := count)
  }

  /** Applying `f` and then `g` to the same id is applying their composition, as
      long as `f` keeps the id. */
  lemma UpdateTwice(ts: seq<Thread>, id: CommentId, f: ViewComment -> ViewComment,
                    g: ViewComment -> ViewComment, h: ViewComment -> ViewComment)
    requires forall v :: f(v).id == v.id && g(f(v)) == h(v)
    ensures UpdateWhere(UpdateWhere(ts, id, f), id, g) == UpdateWhere(ts, id, h)
  {
    var once := UpdateWhere(ts, id, f);
    var a, b := UpdateWhere(once, id, g), UpdateWhere(ts, id, h);
    forall k | 0 <= k < |ts| ensures a[k] == b[k] {
      assert a[k].top == b[k].top;
      assert a[k].replies == b[k].replies;
    }
  }

  /** Saving the same edit twice shows the same list as saving it once. */
  lemma EditIdempotent(ts: seq<Thread>, id: CommentId, content: string)
    ensures UpdateWhere(UpdateWhere(ts, id, SetContent(content)), id, SetContent(content))
         == UpdateWhere(ts, id, SetContent(content))
  {
    UpdateTwice(ts, id, SetContent(content), SetContent(content), SetContent(content));
  }

  /** Only the last like response counts. */
  lemma LikeLastWins(ts: seq<Thread>, id: CommentId, first: int, second: int)
    ensures UpdateWhere(UpdateWhere(ts, id, SetLikes(first)), id, SetLikes(second))
         == UpdateWhere(ts, id, SetLikes(second))
  {
    UpdateTwice(ts, id, SetLikes(first), SetLikes(second), SetLikes(second));
  }

  /** `handleUpdate`: on success the comment with the id, at either level, takes
      the new content and is marked edited, and the edit box closes; a failed
      call changes nothing. */
  function Update(s: ViewState, id: CommentId, content: string, ok: bool): (r: ViewState)
    ensures !ok ==> r == s
    ensures ok ==>
      && r.comments == UpdateWhere(s.comments, id, SetContent(content))
      && r.editing == None && r.newComment == s.newComment && r.replyTo == s.replyTo
  {
    if ok then s.(comments := UpdateWhere(s.comments, id, SetContent(content)), editing := None)
    else s
  }

  /** `handleLike`: a signed-out viewer or a failed call changes nothing;
      otherwise the matching comment shows the count the server returned. */
  function Like(s: ViewState, viewer: Option<UserId>, id: CommentId, response: Option<int>): (r: ViewState)
    ensures viewer.None? || response.None? ==> r == s
    ensures viewer.Some? && response.Some? ==>
      r == s.(comments := UpdateWhere(s.comments, id, SetLikes(response.value)))
  {
    if viewer.None? || response.None? then s
    else s.(comments := UpdateWhere(s.comments, id, SetLikes(response.value)))
  }

  // ---------------------------------------------------------------- delete

  function DropReply(rs: seq<ViewComment>, id: CommentId): seq<ViewComment> {
    Filter(rs, (x: ViewComment) => x.id != id)
  }

  /** A thread as the delete filter leaves it. */
  function Pruned(t: Thread, id: CommentId): Thread {
    if t.top.id == id then t else t.(replies := DropReply(t.replies, id))
  }

  /** The list `handleDelete` shows: a top-level comment with the id goes, with its
      replies; from every other thread the replies with the id go. */
  function RemoveComment(ts: seq<Thread>, id: CommentId): (r: seq<Thread>)
    ensures |r| <= |ts|
  {
    if ts == [] then []
    else (if ts[0].top.id == id then [] else [Pruned(ts[0], id)]) + RemoveComment(ts[1..], id)
  }

  /** No comment with the id is left on screen, every other thread stays with
      its remaining replies, and nothing else appears. */
  lemma {:induction false} RemoveCharacterized(ts: seq<Thread>, id: CommentId)
    ensures forall t :: t in RemoveComment(ts, id) ==>
      t.top.id != id && forall x :: x in t.replies ==> x.id != id
    ensures forall t :: t in ts && t.top.id != id ==> Pruned(t, id) in RemoveComment(ts, id)
    ensures forall t :: t in RemoveComment(ts, id) ==> exists u :: u in ts && t == Pruned(u, id)
  {
    if ts != [] {
      var rest := ts[1..];
      RemoveCharacterized(rest, id);
      var head := if ts[0].top.id == id then [] else [Pruned(ts[0], id)];
      var r := RemoveComment(ts, id);
      assert r == head + RemoveComment(rest, id);
      assert forall t :: t in rest ==> t in ts;
      assert forall t :: t in ts ==> t == ts[0] || t in rest;
      if ts[0].top.id != id {
        var p := Pruned(ts[0], id);
        assert forall x :: x in p.replies ==> x.id != id;
      }
    }
  }

  /** Deleting a comment twice shows the same list as deleting it once. */
  lemma {:induction false} RemoveIdempotent(ts: seq<Thread>, id: CommentId)
    ensures RemoveComment(RemoveComment(ts, id), id) == RemoveComment(ts, id)
  {
    if ts != [] {
      var rest := ts[1..];
      RemoveIdempotent(rest, id);
      var r := RemoveComment(ts, id);
      if ts[0].top.id == id {
        assert r == RemoveComment(rest, id);
      } else {
        var p := Pruned(ts[0], id);
        DropReplyTwice(ts[0].replies, id);
        assert Pruned(p, id) == p;
        assert r == [p] + RemoveComment(rest, id);
        assert r[1..] == RemoveComment(rest, id);
      }
    }
  }

  lemma DropReplyTwice(rs: seq<ViewComment>, id: CommentId)
    ensures DropReply(DropReply(rs, id), id) == DropReply(rs, id)
  {
    var d := DropReply(rs, id);
    assert forall x :: x in d ==> x.id != id;
    FilterAll(d, (x: ViewComment) => x.id != id);
  }

  lemma {:induction false} RemoveAppendOne(ts: seq<Thread>, t: Thread, id: CommentId)
    ensures RemoveComment(ts + [t], id)
         == RemoveComment(ts, id) + (if t.top.id == id then [] else [Pruned(t, id)])
  {
    if ts == [] {
      assert ([] + [t])[1..] == [];
    } else {
      var s := ts + [t];
      var head := if ts[0].top.id == id then [] else [Pruned(ts[0], id)];
      var tail := if t.top.id == id then [] else [Pruned(t, id)];
      assert s[0] == ts[0] && s[1..] == ts[1..] + [t];
      assert RemoveComment(s, id) == head + RemoveComment(ts[1..] + [t], id);
      RemoveAppendOne(ts[1..], t, id);
      assert RemoveComment(ts, id) == head + RemoveComment(ts[1..], id);
      assert head + (RemoveComment(ts[1..], id) + tail) == (head + RemoveComment(ts[1..], id)) + tail;
    }
  }

  /** `handleDelete`: nothing changes unless the dialog is confirmed and the
      server call succeeds. */
  function Delete(s: ViewState, id: CommentId, confirmed: bool, ok: bool): (r: ViewState)
    ensures !confirmed || !ok ==> r == s
    ensures confirmed && ok ==> r == s.(comments := RemoveComment(s.comments, id))
  {
    if confirmed && ok then s.(comments := RemoveComment(s.comments, id)) else s
  }

  /** The filter callback of `handleDelete` as it runs: it reassigns the `replies`
      of each kept thread object in place (the objects the previous state also
      holds) and returns the kept threads, which become the new list. */
  method DeleteInPlace(threads: array<Thread>, id: CommentId) returns (kept: seq<Thread>)
    modifies threads
    ensures kept == RemoveComment(old(threads[..]), id)
    ensures forall k :: 0 <= k < threads.Length ==> threads[k] == Pruned(old(threads[k]), id)
  {
    ghost var orig := threads[..];
    kept := [];
    var i := 0;
    while i < threads.Length
      invariant 0 <= i <= threads.Length
      invariant kept == RemoveComment(orig[..i], id)
      invariant forall k :: 0 <= k < i ==> threads[k] == Pruned(orig[k], id)
      invariant forall k :: i <= k < threads.Length ==> threads[k] == orig[k]
    {
      var t := threads[i];
      if t.top.id != id {
        t := t.(replies := DropReply(t.replies, id));
        threads[i] := t;
        kept := kept + [t];
      }
      RemoveAppendOne(orig[..i], orig[i], id);
      assert orig[..i + 1] == orig[..i] + [orig[i]];
      i := i + 1;
    }
    assert orig[..threads.Length] == orig;
  }

  // ---------------------------------------------------------------- gating

  /** The Edit and Delete buttons, `user?._id === comment.user?._id`: optional
      ids compared as they are. */
  predicate ShowsOwnerActions(viewer: Option<UserId>, author: Option<UserId>) {
    viewer == author
  }

  /** A signed-in viewer sees the buttons exactly on their own comments; a
      signed-out viewer sees them exactly on comments whose author is not
      populated, where both sides are `undefined`. */
  lemma OwnerGating(viewer: Option<UserId>, author: Option<UserId>)
    ensures viewer.Some? ==> (ShowsOwnerActions(viewer, author) <==> author.Some? && author.value == viewer.value)
    ensures viewer.None? ==> (ShowsOwnerActions(viewer, author) <==> author.None?)
  {
  }
}
