/** The comment router: addComment and getCommentByPost (src/server/routers/comment.ts). */
module CommentRouter {
  import opened Types
  import opened Store
  import Rows

  /** The parent id as JavaScript tests it: absent and 0 are both falsy. */
  predicate IsReply(parentId: Option<CommentId>) {
    parentId.Some? && parentId.value != 0
  }

  /**
   * Who receives the COMMENT_POST notification of a new comment, if anyone:
   * for a top-level comment the post's author, for a reply the parent comment's
   * author, looked up in the comment table that already holds the new comment.
   */
  function CommentRecipient(postAuthor: UserId, caller: UserId, parentId: Option<CommentId>,
                            comments: map<CommentId, Comment>): (r: Option<UserId>)
    ensures r != Some(caller)
    ensures r.Some? && !IsReply(parentId) ==> r.value == postAuthor
    ensures r.Some? && IsReply(parentId) ==> parentId.value in comments && r.value == comments[parentId.value].author
    ensures r.None? && !IsReply(parentId) ==> postAuthor == caller
    ensures r.None? && IsReply(parentId) ==> parentId.value !in comments || comments[parentId.value].author == caller
  {
    if !IsReply(parentId) then
      if postAuthor != caller then Some(postAuthor) else None
    else if parentId.value in comments && comments[parentId.value].author != caller then
      Some(comments[parentId.value].author)
    else None
  }

  /**
   * addComment. Unknown post: fails and writes nothing. Otherwise the comment is
   * stored as given (no length check, no check that the parent exists or belongs
   * to the same post), then at most one notification is appended, with no
   * de-duplication.
   */
  method AddComment(db: Db, caller: UserId, postId: PostId, content: string, parentId: Option<CommentId>)
    returns (r: Result<Comment>)
    requires db.Valid()
    modifies db
    ensures db.Valid()
    ensures r.Err? <==> postId !in old(db.posts)
    ensures r.Err? ==> r.error == Thrown(PostNotFound) && unchanged(db)
    ensures r.Ok? ==> r.value == Comment(old(db.nextCommentId), postId, caller, content, parentId, old(db.clock))
    ensures r.Ok? ==> r.value.id !in old(db.comments) && db.comments == old(db.comments)[r.value.id := r.value]
    ensures r.Ok? ==>
      var to := CommentRecipient(old(db.posts)[postId].author, caller, parentId, db.comments);
      db.notifications == old(db.notifications) +
        if to.None? then []
        else [Notification(old(db.nextNotificationId), to.value, caller, CommentPost, Some(postId), Some(r.value.id), false, old(db.clock) + 1)]
    ensures |db.notifications| <= |old(db.notifications)| + 1
    ensures unchanged(db`users, db`posts, db`likes, db`follows, db`nextPostId)
  {
    if postId !in db.posts {
      return Err(Thrown(PostNotFound));
    }
    var post := db.posts[postId];
    var comment := db.InsertComment(postId, caller, content, parentId);
    if post.author != caller && !IsReply(parentId) {
      var _ := db.InsertNotification(post.author, caller, CommentPost, Some(postId), Some(comment.id));
    }
    if IsReply(parentId) {
      if parentId.value in db.comments && db.comments[parentId.value].author != caller {
        var parent := db.comments[parentId.value];
        var _ := db.InsertNotification(parent.author, caller, CommentPost, Some(postId), Some(comment.id));
      }
    }
    r := Ok(comment);
  }

  /**
   * A reply notifies the parent's author, and only them: exactly when the
   * parent exists and someone else wrote it. The post's author hears of it
   * only by having written the parent, and a reply to a missing comment
   * notifies nobody.
   */
  lemma ReplyNotifiesParentAuthorOnly(postAuthor: UserId, caller: UserId, parentId: Option<CommentId>,
                                      comments: map<CommentId, Comment>)
    requires IsReply(parentId)
    ensures CommentRecipient(postAuthor, caller, parentId, comments).Some? ==>
      parentId.value in comments && CommentRecipient(postAuthor, caller, parentId, comments) == Some(comments[parentId.value].author)
    ensures parentId.value !in comments ==> CommentRecipient(postAuthor, caller, parentId, comments).None?
    ensures CommentRecipient(postAuthor, caller, parentId, comments) ==
      if parentId.value in comments && comments[parentId.value].author != caller
      then Some(comments[parentId.value].author) else None
  {
  }

  /** A top-level comment notifies the post's author exactly when someone else wrote it. */
  lemma TopLevelNotifiesPostAuthor(postAuthor: UserId, caller: UserId, parentId: Option<CommentId>,
                                   comments: map<CommentId, Comment>)
    requires !IsReply(parentId)
    ensures CommentRecipient(postAuthor, caller, parentId, comments) ==
      if postAuthor != caller then Some(postAuthor) else None
  {
  }

  /** A top-level comment with its direct replies; the store returns replies in no particular order. */
  datatype Thread = Thread(comment: Comment, replies: set<Comment>)

  /** The comments whose parent id is `id`. */
  function Replies(comments: map<CommentId, Comment>, id: CommentId): set<Comment> {
    set c | c in comments.Values && c.parent == Some(id)
  }

  predicate TopLevelOf(postId: PostId, c: Comment) {
    c.post == postId && c.parent.None?
  }

  /** Each comment paired with its direct replies, in the same order. */
  function WithReplies(comments: map<CommentId, Comment>, top: seq<Comment>): (r: seq<Thread>)
    ensures |r| == |top|
    ensures forall i :: 0 <= i < |r| ==> r[i].comment == top[i] && r[i].replies == Replies(comments, top[i].id)
  {
    seq(|top|, i requires 0 <= i < |top| => Thread(top[i], Replies(comments, top[i].id)))
  }

  function TopLevel(postId: PostId): Comment -> bool {
    c => TopLevelOf(postId, c)
  }

  /**
   * getCommentByPost: the comments of the post whose parent is null, newest
   * first, each with its direct replies.
   */
  function GetCommentByPost(comments: map<CommentId, Comment>, next: nat, postId: PostId): (r: seq<Thread>)
    ensures forall i :: 0 <= i < |r| ==>
      r[i].comment in comments.Values && TopLevelOf(postId, r[i].comment)
      && r[i].replies == Replies(comments, r[i].comment.id)
  {
    var top := Rows.NewestFirst(comments, next, TopLevel(postId));
    Rows.NewestFirstRows(comments, next, TopLevel(postId));
    assert forall i :: 0 <= i < |top| ==> top[i] in top;
    WithReplies(comments, top)
  }

  /** The threads are exactly the post's top-level comments, each with its own replies. */
  lemma GetCommentByPostTopLevel(comments: map<CommentId, Comment>, next: nat, postId: PostId)
    requires forall k :: k in comments ==> k < next
    ensures var r := GetCommentByPost(comments, next, postId);
      && (forall i :: 0 <= i < |r| ==>
            r[i].comment in comments.Values && TopLevelOf(postId, r[i].comment)
            && r[i].replies == Replies(comments, r[i].comment.id))
      && (forall k :: k in comments && TopLevelOf(postId, comments[k]) ==>
            exists i :: 0 <= i < |r| && r[i].comment == comments[k])
  {
    var top := Rows.NewestFirst(comments, next, TopLevel(postId));
    var r := GetCommentByPost(comments, next, postId);
    Rows.NewestFirstRows(comments, next, TopLevel(postId));
    assert forall i :: 0 <= i < |r| ==> r[i].comment == top[i] && top[i] in top;
    forall k | k in comments && TopLevelOf(postId, comments[k])
      ensures exists i :: 0 <= i < |r| && r[i].comment == comments[k]
    {
      assert TopLevel(postId)(comments[k]);
      var i := IndexOf(top, comments[k]);
      assert r[i].comment == comments[k];
    }
  }

  /** The threads come newest first. */
  lemma GetCommentByPostNewestFirst(comments: map<CommentId, Comment>, next: nat, postId: PostId)
    requires CommentsKeyed(comments, next)
    ensures var r := GetCommentByPost(comments, next, postId);
      forall i, j :: 0 <= i < j < |r| ==> r[i].comment.createdAt > r[j].comment.createdAt
  {
    Rows.NewestFirstDescending(comments, next, TopLevel(postId), CommentStamp);
  }

  function IndexOf<T(==)>(s: seq<T>, x: T): (i: nat)
    requires x in s
    ensures i < |s| && s[i] == x
  {
    if s[0] == x then 0 else 1 + IndexOf(s[1..], x)
  }
}
