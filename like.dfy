/** The like router: toggleLike and getLikesCount (src/server/routers/like.ts). */
module LikeRouter {
  import opened Types
  import opened NotificationTable
  import opened Store

  /** The deleteMany clause of like.ts: LIKE_POST rows of this post, to its author, by this liker. */
  function LikeNotificationsOf(author: UserId, liker: UserId, postId: PostId): Where {
    Where(author, liker, LikePost, Some(postId))
  }

  /** The like table after a toggle of (caller, postId). */
  function ToggledLikes(likes: set<(UserId, PostId)>, caller: UserId, postId: PostId): set<(UserId, PostId)> {
    if (caller, postId) in likes then likes - {(caller, postId)} else likes + {(caller, postId)}
  }

  /**
   * The notification table after a toggle of (caller, postId) on a post by
   * `author`, where `n` is the row a like would create.
   */
  function ToggledLikeNotifications(likes: set<(UserId, PostId)>, ns: seq<Notification>, author: UserId,
                                    caller: UserId, postId: PostId, n: Notification): seq<Notification>
  {
    var key := LikeNotificationsOf(author, caller, postId);
    if (caller, postId) in likes then DeleteWhere(ns, key)
    else if author == caller then ns
    else DeleteWhere(ns, key) + [n]
  }

  /**
   * toggleLike. Unknown post: fails and writes nothing. Already liked: drops the
   * like and every matching notification. Not liked: adds the like and, unless
   * the caller wrote the post, replaces any matching notification by one fresh row.
   */
  method ToggleLike(db: Db, caller: UserId, postId: PostId) returns (r: Result<bool>)
    requires db.Valid()
    modifies db
    ensures db.Valid()
    ensures r.Err? <==> postId !in old(db.posts)
    ensures r.Err? ==> r.error == Thrown(PostNotFound) && unchanged(db)
    ensures r.Ok? ==> (r.value <==> (caller, postId) !in old(db.likes))
    ensures r.Ok? ==> db.likes == ToggledLikes(old(db.likes), caller, postId)
    ensures r.Ok? ==>
      db.notifications == ToggledLikeNotifications(old(db.likes), old(db.notifications), old(db.posts)[postId].author,
        caller, postId, Notification(old(db.nextNotificationId), old(db.posts)[postId].author, caller, LikePost, Some(postId), None, false, old(db.clock)))
    ensures unchanged(db`users, db`posts, db`comments, db`follows, db`nextPostId, db`nextCommentId)
  {
    if postId !in db.posts {
      return Err(Thrown(PostNotFound));
    }
    var post := db.posts[postId];
    var key := LikeNotificationsOf(post.author, caller, postId);
    if (caller, postId) in db.likes {
      db.likes := db.likes - {(caller, postId)};
      db.DeleteNotifications(key);
      r := Ok(false);
    } else {
      db.likes := db.likes + {(caller, postId)};
      if post.author != caller {
        db.DeleteNotifications(key);
        var n := db.InsertNotification(post.author, caller, LikePost, Some(postId), None);
      }
      r := Ok(true);
    }
  }

  /**
   * After a toggle, the (author, caller, post) clause matches no row if the
   * like was removed, and exactly one if a like of another user's post was
   * added, however many matched before.
   */
  lemma ToggledLikeCounts(likes: set<(UserId, PostId)>, ns: seq<Notification>, author: UserId,
                          caller: UserId, postId: PostId, n: Notification)
    requires n == Notification(n.id, author, caller, LikePost, Some(postId), None, false, n.createdAt)
    ensures var key := LikeNotificationsOf(author, caller, postId);
      var after := ToggledLikeNotifications(likes, ns, author, caller, postId, n);
      && ((caller, postId) in likes ==> CountWhere(after, key) == 0)
      && ((caller, postId) !in likes && author != caller ==> CountWhere(after, key) == 1)
      && ((caller, postId) !in likes && author == caller ==> after == ns)
  {
    var key := LikeNotificationsOf(author, caller, postId);
    var kept := DeleteWhere(ns, key);
    DeleteWhereClears(ns, key);
    CountWhereAppend(kept, n, key);
  }

  /**
   * The like table and the notification table agree: for every user and every
   * existing post, there is one LIKE_POST row from that user to the post's
   * author exactly when the user likes a post written by someone else, and
   * none otherwise. An empty store satisfies it.
   */
  ghost predicate LikeSynced(posts: map<PostId, Post>, likes: set<(UserId, PostId)>, ns: seq<Notification>) {
    forall u: UserId, p: PostId :: p in posts ==>
      CountWhere(ns, LikeNotificationsOf(posts[p].author, u, p)) == if (u, p) in likes && posts[p].author != u then 1 else 0
  }

  /** toggleLike keeps the two tables in agreement, for the toggled pair and for every other. */
  lemma ToggleKeepsLikeSynced(posts: map<PostId, Post>, likes: set<(UserId, PostId)>, ns: seq<Notification>,
                              caller: UserId, postId: PostId, n: Notification)
    requires postId in posts && LikeSynced(posts, likes, ns)
    requires n == Notification(n.id, posts[postId].author, caller, LikePost, Some(postId), None, false, n.createdAt)
    ensures LikeSynced(posts, ToggledLikes(likes, caller, postId),
      ToggledLikeNotifications(likes, ns, posts[postId].author, caller, postId, n))
  {
    var author := posts[postId].author;
    var key := LikeNotificationsOf(author, caller, postId);
    var likes', ns' := ToggledLikes(likes, caller, postId), ToggledLikeNotifications(likes, ns, author, caller, postId, n);
    forall u: UserId, p: PostId | p in posts
      ensures CountWhere(ns', LikeNotificationsOf(posts[p].author, u, p))
        == if (u, p) in likes' && posts[p].author != u then 1 else 0
    {
      var other := LikeNotificationsOf(posts[p].author, u, p);
      if (u, p) == (caller, postId) {
        if (caller, postId) in likes || author != caller {
          var kept := DeleteWhere(ns, key);
          DeleteWhereClears(ns, key);
          if (caller, postId) !in likes {
            CountWhereAppend(kept, n, key);
          }
        }
      } else if (caller, postId) in likes || author != caller {
        DeleteWhereKeepsDisjointCount(ns, key, other);
        if (caller, postId) !in likes {
          CountWhereAppend(DeleteWhere(ns, key), n, other);
        }
      }
    }
  }

  /** Two toggles in a row by the same caller answer opposite values and leave the likes as they were. */
  method ToggleLikeTwice(db: Db, caller: UserId, postId: PostId) returns (first: Result<bool>, second: Result<bool>)
    requires db.Valid()
    modifies db
    ensures db.Valid()
    ensures first.Ok? <==> postId in old(db.posts)
    ensures first.Ok? ==> second.Ok? && second.value == !first.value && db.likes == old(db.likes)
    ensures first == Ok(true) ==>
      CountWhere(db.notifications, LikeNotificationsOf(old(db.posts)[postId].author, caller, postId)) == 0
  {
    first := ToggleLike(db, caller, postId);
    ghost var between := db.notifications;
    second := ToggleLike(db, caller, postId);
    if first.Ok? {
      DeleteWhereClears(between, LikeNotificationsOf(old(db.posts)[postId].author, caller, postId));
    }
  }

  /** The like rows of one post. */
  function LikesOf(likes: set<(UserId, PostId)>, postId: PostId): set<(UserId, PostId)> {
    set l | l in likes && l.1 == postId
  }

  /** getLikesCount: the number of like rows whose postId is the given one; zero exactly when nobody likes the post. */
  function LikesCount(likes: set<(UserId, PostId)>, postId: PostId): (c: nat)
    ensures c == 0 <==> forall u :: (u, postId) !in likes
  {
    NoLikeRows(likes, postId);
    |LikesOf(likes, postId)|
  }

  /** A new like adds one to its post's count and leaves every other post's count alone. */
  lemma LikesCountAfterLike(likes: set<(UserId, PostId)>, user: UserId, liked: PostId, other: PostId)
    requires (user, liked) !in likes
    ensures LikesCount(likes + {(user, liked)}, other) == LikesCount(likes, other) + (if other == liked then 1 else 0)
  {
    if other == liked {
      assert LikesOf(likes + {(user, liked)}, other) == LikesOf(likes, other) + {(user, liked)};
    } else {
      assert LikesOf(likes + {(user, liked)}, other) == LikesOf(likes, other);
    }
  }

  /** Removing a like takes one from its post's count and leaves every other post's count alone. */
  lemma LikesCountAfterUnlike(likes: set<(UserId, PostId)>, user: UserId, liked: PostId, other: PostId)
    requires (user, liked) in likes
    ensures LikesCount(likes - {(user, liked)}, other) == LikesCount(likes, other) - (if other == liked then 1 else 0)
  {
    if other == liked {
      assert LikesOf(likes, other) == LikesOf(likes - {(user, liked)}, other) + {(user, liked)};
    } else {
      assert LikesOf(likes - {(user, liked)}, other) == LikesOf(likes, other);
    }
  }

  /** The post has no like row exactly when no user likes it. */
  lemma NoLikeRows(likes: set<(UserId, PostId)>, postId: PostId)
    ensures LikesOf(likes, postId) == {} <==> forall u :: (u, postId) !in likes
  {
    if LikesOf(likes, postId) != {} {
      var l :| l in LikesOf(likes, postId);
      assert (l.0, postId) in likes;
    }
    if exists u :: (u, postId) in likes {
      var u :| (u, postId) in likes;
      assert (u, postId) in LikesOf(likes, postId);
    }
  }
}
