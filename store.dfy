/**
 * The relational store the procedures run against: one object whose fields are
 * the tables, and one method per row-level write the procedures issue.
 * Unique keys are kept as set invariants: a like is a (userId, postId) pair and
 * a follow a (followerId, followingId) pair, so neither can be stored twice.
 */
module Store {
  import opened Types
  import opened NotificationTable
  import Rows

  function PostStamp(p: Post): int { p.createdAt }
  function CommentStamp(c: Comment): int { c.createdAt }

  /** Post rows sit under their own id, below the next id to issue, oldest first. */
  ghost predicate PostsKeyed(posts: map<PostId, Post>, next: nat) {
    && (forall k :: k in posts ==> 1 <= k < next && posts[k].id == k)
    && Rows.StampsFollowKeys(posts, PostStamp)
  }

  ghost predicate CommentsKeyed(comments: map<CommentId, Comment>, next: nat) {
    && (forall k :: k in comments ==> 1 <= k < next && comments[k].id == k)
    && Rows.StampsFollowKeys(comments, CommentStamp)
  }

  class Db {
    var users: map<UserId, User>
    var posts: map<PostId, Post>
    var comments: map<CommentId, Comment>
    var likes: set<(UserId, PostId)>
    var follows: set<(UserId, UserId)>
    var notifications: seq<Notification>
    /** The createdAt stamp the next inserted row receives. */
    var clock: nat
    var nextPostId: nat
    var nextCommentId: nat
    var nextNotificationId: nat

    ghost predicate Valid()
      reads this
    {
      && 1 <= nextPostId && 1 <= nextCommentId
      && (forall u :: u in users ==> users[u].id == u)
      && PostsKeyed(posts, nextPostId)
      && (forall k :: k in posts ==> posts[k].createdAt < clock)
      && CommentsKeyed(comments, nextCommentId)
      && (forall k :: k in comments ==> comments[k].createdAt < clock)
      && Chronological(notifications)
      && (forall i :: 0 <= i < |notifications| ==>
            notifications[i].id < nextNotificationId && notifications[i].createdAt < clock)
    }

    /** An empty store holding the users the authentication provider registered. */
    constructor (registered: map<UserId, User>)
      requires forall u :: u in registered ==> registered[u].id == u
      ensures Valid()
      ensures users == registered && posts == map[] && comments == map[]
      ensures likes == {} && follows == {} && notifications == []
    {
      users := registered;
      posts, comments := map[], map[];
      likes, follows := {}, {};
      notifications := [];
      clock := 0;
      nextPostId, nextCommentId, nextNotificationId := 1, 1, 1;
    }

    /** post.create: a new row under the next post id, stamped now. */
    method InsertPost(author: UserId, content: string, image: Option<string>) returns (p: Post)
      requires Valid()
      modifies this
      ensures Valid()
      ensures p == Post(old(nextPostId), author, content, image, old(clock))
      ensures p.id !in old(posts) && posts == old(posts)[p.id := p]
      ensures nextPostId == old(nextPostId) + 1 && clock == old(clock) + 1
      ensures unchanged(this`users, this`comments, this`likes, this`follows, this`notifications)
      ensures unchanged(this`nextCommentId, this`nextNotificationId)
    {
      p := Post(nextPostId, author, content, image, clock);
      posts := posts[p.id := p];
      nextPostId := nextPostId + 1;
      clock := clock + 1;
    }

    /** comment.create: a new row under the next comment id, stamped now. */
    method InsertComment(post: PostId, author: UserId, content: string, parent: Option<CommentId>) returns (c: Comment)
      requires Valid()
      modifies this
      ensures Valid()
      ensures c == Comment(old(nextCommentId), post, author, content, parent, old(clock))
      ensures c.id !in old(comments) && comments == old(comments)[c.id := c]
      ensures nextCommentId == old(nextCommentId) + 1 && clock == old(clock) + 1
      ensures unchanged(this`users, this`posts, this`likes, this`follows, this`notifications)
      ensures unchanged(this`nextPostId, this`nextNotificationId)
    {
      c := Comment(nextCommentId, post, author, content, parent, clock);
      comments := comments[c.id := c];
      nextCommentId := nextCommentId + 1;
      clock := clock + 1;
    }

    /** notification.create: an unread row appended after every existing one. */
    method InsertNotification(recipient: UserId, actor: UserId, kind: NotificationType,
                              post: Option<PostId>, comment: Option<CommentId>) returns (n: Notification)
      requires Valid()
      modifies this
      ensures Valid()
      ensures n == Notification(old(nextNotificationId), recipient, actor, kind, post, comment, false, old(clock))
      ensures notifications == old(notifications) + [n]
      ensures nextNotificationId == old(nextNotificationId) + 1 && clock == old(clock) + 1
      ensures unchanged(this`users, this`posts, this`comments, this`likes, this`follows)
      ensures unchanged(this`nextPostId, this`nextCommentId)
    {
      n := Notification(nextNotificationId, recipient, actor, kind, post, comment, false, clock);
      notifications := notifications + [n];
      nextNotificationId := nextNotificationId + 1;
      clock := clock + 1;
    }

    /** notification.deleteMany. */
    method DeleteNotifications(w: Where)
      requires Valid()
      modifies this`notifications
      ensures Valid()
      ensures notifications == DeleteWhere(old(notifications), w)
    {
      DeleteWhereChronological(notifications, w);
      DeleteWhereMembers(notifications, w);
      var kept := DeleteWhere(notifications, w);
      forall i | 0 <= i < |kept|
        ensures kept[i].id < nextNotificationId && kept[i].createdAt < clock
      {
        assert kept[i] in notifications;
      }
      notifications := kept;
    }

    /** notification.updateMany / notification.update, both with data { read: true }. */
    method MarkNotificationsRead(sel: Selector)
      requires Valid()
      modifies this`notifications
      ensures Valid()
      ensures notifications == MarkRead(old(notifications), sel)
    {
      MarkReadChronological(notifications, sel);
      notifications := MarkRead(notifications, sel);
    }

    /** user.update on an existing row; a field given as None keeps its old value. */
    method UpdateUser(id: UserId, name: string, location: Option<string>, bio: Option<string>, image: Option<string>)
      requires Valid() && id in users
      modifies this`users
      ensures Valid()
      ensures users == old(users)[id := Updated(old(users)[id], name, location, bio, image)]
    {
      users := users[id := Updated(users[id], name, location, bio, image)];
    }
  }

  /** Prisma leaves a column alone when the value written to it is undefined. */
  function Keep(current: Option<string>, given: Option<string>): Option<string> {
    if given.Some? then given else current
  }

  function Updated(u: User, name: string, location: Option<string>, bio: Option<string>, image: Option<string>): User {
    u.(name := name, location := Keep(u.location, location), bio := Keep(u.bio, bio), image := Keep(u.image, image))
  }
}
