/** The follow router: toggleFollow (src/server/routers/follow.ts). */
module FollowRouter {
  import opened Types
  import opened NotificationTable
  import opened Store

  /** The deleteMany clause of follow.ts: FOLLOW_USER rows to the target, by the follower, any post. */
  function FollowNotificationsOf(target: UserId, follower: UserId): Where {
    Where(target, follower, FollowUser, None)
  }

  /**
   * toggleFollow. An existing edge caller -> target is removed together with
   * every matching notification, read or unread. A missing edge is created,
   * even when target is the caller; only for another user is one notification
   * appended, and older matching rows are not deleted first.
   */
  method ToggleFollow(db: Db, caller: UserId, target: UserId) returns (following: bool)
    requires db.Valid()
    modifies db
    ensures db.Valid()
    ensures following <==> (caller, target) !in old(db.follows)
    ensures db.follows == Toggled(old(db.follows), caller, target)
    ensures db.notifications == ToggledNotifications(old(db.follows), old(db.notifications), caller, target,
      Notification(old(db.nextNotificationId), target, caller, FollowUser, None, None, false, old(db.clock)))
    ensures unchanged(db`users, db`posts, db`comments, db`likes, db`nextPostId, db`nextCommentId)
  {
    var key := FollowNotificationsOf(target, caller);
    if (caller, target) in db.follows {
      db.follows := db.follows - {(caller, target)};
      db.DeleteNotifications(key);
      following := false;
    } else {
      db.follows := db.follows + {(caller, target)};
      if target != caller {
        var n := db.InsertNotification(target, caller, FollowUser, None, None);
      }
      following := true;
    }
  }

  /**
   * After a toggle, the (target, caller) clause matches no row if the edge was
   * removed, and one more row than before if an edge to another user was added.
   */
  lemma ToggledFollowCounts(follows: set<(UserId, UserId)>, ns: seq<Notification>, caller: UserId, target: UserId,
                            n: Notification)
    requires n.recipient == target && n.actor == caller && n.kind == FollowUser
    ensures var key := FollowNotificationsOf(target, caller);
      var after := ToggledNotifications(follows, ns, caller, target, n);
      && ((caller, target) in follows ==> CountWhere(after, key) == 0)
      && ((caller, target) !in follows && target != caller ==> CountWhere(after, key) == CountWhere(ns, key) + 1)
      && ((caller, target) !in follows && target == caller ==> after == ns)
  {
    var key := FollowNotificationsOf(target, caller);
    DeleteWhereClears(ns, key);
    CountWhereAppend(ns, n, key);
  }

  /**
   * The follow table and the notification table agree: for every ordered pair
   * of distinct users there is one FOLLOW_USER row exactly when the edge
   * exists, and none otherwise. An empty store satisfies it.
   */
  ghost predicate FollowSynced(follows: set<(UserId, UserId)>, ns: seq<Notification>) {
    forall a: UserId, b: UserId ::
      CountWhere(ns, FollowNotificationsOf(b, a)) == if (a, b) in follows && a != b then 1 else 0
  }

  /** The follow table after a toggle of caller -> target. */
  function Toggled(follows: set<(UserId, UserId)>, caller: UserId, target: UserId): set<(UserId, UserId)> {
    if (caller, target) in follows then follows - {(caller, target)} else follows + {(caller, target)}
  }

  /** The notification table after a toggle of caller -> target that would append `n`. */
  function ToggledNotifications(follows: set<(UserId, UserId)>, ns: seq<Notification>, caller: UserId, target: UserId,
                                n: Notification): seq<Notification>
  {
    if (caller, target) in follows then DeleteWhere(ns, FollowNotificationsOf(target, caller))
    else if target == caller then ns
    else ns + [n]
  }

  /** toggleFollow keeps the two tables in agreement, for the toggled pair and for every other. */
  lemma ToggleKeepsFollowSynced(follows: set<(UserId, UserId)>, ns: seq<Notification>, caller: UserId, target: UserId,
                                n: Notification)
    requires FollowSynced(follows, ns)
    requires n.recipient == target && n.actor == caller && n.kind == FollowUser
    ensures FollowSynced(Toggled(follows, caller, target), ToggledNotifications(follows, ns, caller, target, n))
  {
    var key := FollowNotificationsOf(target, caller);
    var follows', ns' := Toggled(follows, caller, target), ToggledNotifications(follows, ns, caller, target, n);
    forall a: UserId, b: UserId
      ensures CountWhere(ns', FollowNotificationsOf(b, a)) == if (a, b) in follows' && a != b then 1 else 0
    {
      var other := FollowNotificationsOf(b, a);
      if (caller, target) in follows {
        if (a, b) != (caller, target) {
          DeleteWhereKeepsDisjointCount(ns, key, other);
        } else {
          DeleteWhereClears(ns, key);
        }
      } else if target != caller {
        CountWhereAppend(ns, n, other);
      }
    }
  }

  /** Two toggles in a row answer opposite values and leave the follow edges as they were. */
  method ToggleFollowTwice(db: Db, caller: UserId, target: UserId) returns (first: bool, second: bool)
    requires db.Valid()
    modifies db
    ensures db.Valid()
    ensures second == !first && db.follows == old(db.follows)
    ensures first ==> CountWhere(db.notifications, FollowNotificationsOf(target, caller)) == 0
  {
    first := ToggleFollow(db, caller, target);
    ghost var between := db.notifications;
    second := ToggleFollow(db, caller, target);
    DeleteWhereClears(between, FollowNotificationsOf(target, caller));
  }
}
