/**
 * The toggles' bookkeeping stays consistent across every procedure: the like
 * and follow tables agree with the LIKE_POST and FOLLOW_USER rows of the
 * notification table (LikeRouter.LikeSynced, FollowRouter.FollowSynced), and
 * each procedure that writes notifications keeps both agreements.
 */
module Consistency {
  import opened Types
  import opened NotificationTable
  import opened LikeRouter
  import opened FollowRouter

  /** A store with no likes, follows or notifications is in agreement. */
  lemma EmptyStoreSynced(posts: map<PostId, Post>)
    ensures FollowSynced({}, []) && LikeSynced(posts, {}, [])
  {
  }

  /** An appended row of another kind leaves every FOLLOW_USER count as it was. */
  lemma FollowSyncedUnderAppend(follows: set<(UserId, UserId)>, ns: seq<Notification>, n: Notification)
    requires FollowSynced(follows, ns) && n.kind != FollowUser
    ensures FollowSynced(follows, ns + [n])
  {
    forall a: UserId, b: UserId
      ensures CountWhere(ns + [n], FollowNotificationsOf(b, a)) == if (a, b) in follows && a != b then 1 else 0
    {
      CountWhereAppend(ns, n, FollowNotificationsOf(b, a));
    }
  }

  /** toggleLike deletes and appends LIKE_POST rows only, so the follow agreement survives it. */
  lemma FollowSyncedUnderLikeToggle(follows: set<(UserId, UserId)>, likes: set<(UserId, PostId)>, ns: seq<Notification>,
                                    author: UserId, caller: UserId, postId: PostId, n: Notification)
    requires FollowSynced(follows, ns) && n.kind == LikePost
    ensures FollowSynced(follows, ToggledLikeNotifications(likes, ns, author, caller, postId, n))
  {
    var key := LikeNotificationsOf(author, caller, postId);
    forall a: UserId, b: UserId
      ensures CountWhere(DeleteWhere(ns, key), FollowNotificationsOf(b, a)) == CountWhere(ns, FollowNotificationsOf(b, a))
    {
      DeleteWhereKeepsDisjointCount(ns, key, FollowNotificationsOf(b, a));
    }
    if (caller, postId) !in likes && author != caller {
      FollowSyncedUnderAppend(follows, DeleteWhere(ns, key), n);
    }
  }

  /** Marking rows read never changes what a clause counts. */
  lemma FollowSyncedUnderMarkRead(follows: set<(UserId, UserId)>, ns: seq<Notification>, sel: Selector)
    requires FollowSynced(follows, ns)
    ensures FollowSynced(follows, MarkRead(ns, sel))
  {
    forall a: UserId, b: UserId
      ensures CountWhere(MarkRead(ns, sel), FollowNotificationsOf(b, a)) == CountWhere(ns, FollowNotificationsOf(b, a))
    {
      MarkReadKeepsCount(ns, sel, FollowNotificationsOf(b, a));
    }
  }

  /** An appended row of another kind leaves every LIKE_POST count as it was. */
  lemma LikeSyncedUnderAppend(posts: map<PostId, Post>, likes: set<(UserId, PostId)>, ns: seq<Notification>, n: Notification)
    requires LikeSynced(posts, likes, ns) && n.kind != LikePost
    ensures LikeSynced(posts, likes, ns + [n])
  {
    forall u: UserId, p: PostId | p in posts
      ensures CountWhere(ns + [n], LikeNotificationsOf(posts[p].author, u, p))
        == if (u, p) in likes && posts[p].author != u then 1 else 0
    {
      CountWhereAppend(ns, n, LikeNotificationsOf(posts[p].author, u, p));
    }
  }

  /** toggleFollow deletes and appends FOLLOW_USER rows only, so the like agreement survives it. */
  lemma LikeSyncedUnderFollowToggle(posts: map<PostId, Post>, likes: set<(UserId, PostId)>, follows: set<(UserId, UserId)>,
                                    ns: seq<Notification>, caller: UserId, target: UserId, n: Notification)
    requires LikeSynced(posts, likes, ns) && n.kind == FollowUser
    ensures LikeSynced(posts, likes, ToggledNotifications(follows, ns, caller, target, n))
  {
    var key := FollowNotificationsOf(target, caller);
    if (caller, target) in follows {
      forall u: UserId, p: PostId | p in posts
        ensures CountWhere(DeleteWhere(ns, key), LikeNotificationsOf(posts[p].author, u, p))
          == CountWhere(ns, LikeNotificationsOf(posts[p].author, u, p))
      {
        DeleteWhereKeepsDisjointCount(ns, key, LikeNotificationsOf(posts[p].author, u, p));
      }
    } else if target != caller {
      LikeSyncedUnderAppend(posts, likes, ns, n);
    }
  }

  lemma LikeSyncedUnderMarkRead(posts: map<PostId, Post>, likes: set<(UserId, PostId)>, ns: seq<Notification>, sel: Selector)
    requires LikeSynced(posts, likes, ns)
    ensures LikeSynced(posts, likes, MarkRead(ns, sel))
  {
    forall u: UserId, p: PostId | p in posts
      ensures CountWhere(MarkRead(ns, sel), LikeNotificationsOf(posts[p].author, u, p))
        == CountWhere(ns, LikeNotificationsOf(posts[p].author, u, p))
    {
      MarkReadKeepsCount(ns, sel, LikeNotificationsOf(posts[p].author, u, p));
    }
  }

  /** A new post that nobody liked and no row mentions joins the agreement. */
  lemma {:induction false} LikeSyncedUnderNewPost(posts: map<PostId, Post>, likes: set<(UserId, PostId)>, ns: seq<Notification>, p: Post)
    requires LikeSynced(posts, likes, ns) && p.id !in posts
    requires forall u :: (u, p.id) !in likes
    requires forall i :: 0 <= i < |ns| ==> ns[i].post != Some(p.id)
    ensures LikeSynced(posts[p.id := p], likes, ns)
  {
    var posts' := posts[p.id := p];
    forall u: UserId, q: PostId | q in posts'
      ensures CountWhere(ns, LikeNotificationsOf(posts'[q].author, u, q))
        == if (u, q) in likes && posts'[q].author != u then 1 else 0
    {
      if q == p.id {
        forall x | x in ns
          ensures !Matches(x, LikeNotificationsOf(p.author, u, q))
        {
          var i :| 0 <= i < |ns| && ns[i] == x;
        }
      }
    }
  }
}
