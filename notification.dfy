/** The notification router: getUnread, markAllAsRead, markAsRead (src/server/routers/notification.ts). */
module NotificationRouter {
  import opened Types
  import opened NotificationTable
  import opened Store
  import Rows

  /** getUnread returns at most this many rows. */
  const UnreadPageSize: nat := 20

  /** The user's unread rows, latest first. */
  function UnreadNewestFirst(ns: seq<Notification>, user: UserId): (r: seq<Notification>)
    ensures |r| <= |ns|
    ensures forall x :: x in r ==> x in ns && x.recipient == user && !x.read
  {
    if ns == [] then []
    else
      var last := ns[|ns| - 1];
      (if last.recipient == user && !last.read then [last] else []) + UnreadNewestFirst(ns[..|ns| - 1], user)
  }

  /** Every unread row of the user is listed. */
  lemma {:induction false} UnreadNewestFirstComplete(ns: seq<Notification>, user: UserId, x: Notification)
    requires x in ns && x.recipient == user && !x.read
    ensures x in UnreadNewestFirst(ns, user)
  {
    var last := ns[|ns| - 1];
    if x != last {
      assert ns == ns[..|ns| - 1] + [last];
      UnreadNewestFirstComplete(ns[..|ns| - 1], user, x);
    }
  }

  function NotificationStamp(n: Notification): int { n.createdAt }

  /** Strictly decreasing createdAt. */
  ghost predicate NewestFirst(s: seq<Notification>) {
    Rows.Descending(s, NotificationStamp)
  }

  /** In a table kept in creation order, the list is strictly newest first. */
  lemma {:induction false} UnreadNewestFirstDescending(ns: seq<Notification>, user: UserId)
    requires Chronological(ns)
    ensures NewestFirst(UnreadNewestFirst(ns, user))
  {
    if ns != [] {
      var front := ns[..|ns| - 1];
      var last := ns[|ns| - 1];
      var tail := UnreadNewestFirst(front, user);
      assert Chronological(front);
      UnreadNewestFirstDescending(front, user);
      if last.recipient == user && !last.read {
        forall x | x in tail
          ensures NotificationStamp(x) < NotificationStamp(last)
        {
          var k :| 0 <= k < |front| && front[k] == x;
          assert ns[k] == x;
        }
        Rows.DescendingCons(last, tail, NotificationStamp);
      }
    }
  }

  /** getUnread: the caller's unread notifications, newest first, at most twenty. */
  function GetUnread(ns: seq<Notification>, caller: UserId): (r: seq<Notification>)
    ensures |r| <= UnreadPageSize
    ensures forall x :: x in r ==> x in ns && x.recipient == caller && !x.read
    ensures var all := UnreadNewestFirst(ns, caller);
      |r| == if |all| < UnreadPageSize then |all| else UnreadPageSize
  {
    var all := UnreadNewestFirst(ns, caller);
    if |all| <= UnreadPageSize then all else all[..UnreadPageSize]
  }

  /**
   * getUnread keeps the newest: in a table in creation order, any unread row
   * of the caller that is left out is older than every row returned.
   */
  lemma GetUnreadKeepsNewest(ns: seq<Notification>, caller: UserId)
    requires Chronological(ns)
    ensures var r := GetUnread(ns, caller);
      && NewestFirst(r)
      && (forall x :: x in ns && x.recipient == caller && !x.read && x !in r ==>
            forall y :: y in r ==> x.createdAt < y.createdAt)
  {
    var all := UnreadNewestFirst(ns, caller);
    var r := GetUnread(ns, caller);
    UnreadNewestFirstDescending(ns, caller);
    forall x | x in ns && x.recipient == caller && !x.read && x !in r
      ensures forall y :: y in r ==> x.createdAt < y.createdAt
    {
      UnreadNewestFirstComplete(ns, caller, x);
      var k :| 0 <= k < |all| && all[k] == x;
      OlderThanPage(all, k);
    }
  }

  /** Past the first page, every row is older than every row of the page. */
  lemma OlderThanPage(all: seq<Notification>, k: nat)
    requires NewestFirst(all) && UnreadPageSize <= k < |all|
    ensures forall y :: y in all[..UnreadPageSize] ==> all[k].createdAt < y.createdAt
  {
    forall y | y in all[..UnreadPageSize]
      ensures all[k].createdAt < y.createdAt
    {
      var m :| 0 <= m < UnreadPageSize && all[..UnreadPageSize][m] == y;
      assert all[m] == y;
      assert NotificationStamp(all[m]) > NotificationStamp(all[k]);
    }
  }

  /** markAllAsRead: every unread row of the caller becomes read. */
  method MarkAllAsRead(db: Db, caller: UserId)
    requires db.Valid()
    modifies db`notifications
    ensures db.Valid()
    ensures db.notifications == MarkRead(old(db.notifications), UnreadOf(caller))
    ensures UnreadNewestFirst(db.notifications, caller) == []
  {
    db.MarkNotificationsRead(UnreadOf(caller));
    MarkAllLeavesNoUnread(old(db.notifications), caller);
  }

  /**
   * markAsRead: the row with that id becomes read, whoever it was sent to; an
   * id that names no row makes the update fail and nothing changes.
   */
  method MarkAsRead(db: Db, notificationId: NotificationId) returns (r: Result<()>)
    requires db.Valid()
    modifies db`notifications
    ensures db.Valid()
    ensures r.Err? <==> forall i :: 0 <= i < |old(db.notifications)| ==> old(db.notifications)[i].id != notificationId
    ensures r.Err? ==> r.error == RecordNotFound && db.notifications == old(db.notifications)
    ensures r.Ok? ==> db.notifications == MarkRead(old(db.notifications), WithId(notificationId))
  {
    if forall i | 0 <= i < |db.notifications| :: db.notifications[i].id != notificationId {
      return Err(RecordNotFound);
    }
    db.MarkNotificationsRead(WithId(notificationId));
    r := Ok(());
  }

  /** After marking all, the user has no unread row left. */
  lemma MarkAllLeavesNoUnread(ns: seq<Notification>, user: UserId)
    ensures UnreadNewestFirst(MarkRead(ns, UnreadOf(user)), user) == []
    ensures GetUnread(MarkRead(ns, UnreadOf(user)), user) == []
  {
    var after := MarkRead(ns, UnreadOf(user));
    forall x | x in after
      ensures !(x.recipient == user && !x.read)
    {
      var i :| 0 <= i < |after| && after[i] == x;
    }
    NothingUnreadEmpty(after, user);
  }

  /** A table with no unread row for the user gives an empty list. */
  lemma {:induction false} NothingUnreadEmpty(ns: seq<Notification>, user: UserId)
    requires forall x :: x in ns ==> !(x.recipient == user && !x.read)
    ensures UnreadNewestFirst(ns, user) == []
  {
    if ns != [] {
      var front := ns[..|ns| - 1];
      assert ns[|ns| - 1] in ns;
      assert forall x :: x in front ==> x in ns;
      NothingUnreadEmpty(front, user);
    }
  }

  /** Marking all for one user leaves every other user's rows as they were. */
  lemma MarkAllKeepsOthers(ns: seq<Notification>, user: UserId)
    ensures |MarkRead(ns, UnreadOf(user))| == |ns|
    ensures forall i :: 0 <= i < |ns| && ns[i].recipient != user ==> MarkRead(ns, UnreadOf(user))[i] == ns[i]
  {
  }

  /** Marking all twice is marking all once. */
  lemma MarkAllIdempotent(ns: seq<Notification>, user: UserId)
    ensures MarkRead(MarkRead(ns, UnreadOf(user)), UnreadOf(user)) == MarkRead(ns, UnreadOf(user))
  {
  }

  /** markAsRead marks the row with that id, whoever its recipient, and only that row. */
  lemma MarkOneIgnoresRecipient(ns: seq<Notification>, id: NotificationId)
    requires Chronological(ns)
    ensures forall i :: 0 <= i < |ns| && ns[i].id == id ==> MarkRead(ns, WithId(id))[i] == ns[i].(read := true)
    ensures forall i :: 0 <= i < |ns| && ns[i].id != id ==> MarkRead(ns, WithId(id))[i] == ns[i]
    ensures forall i, j :: 0 <= i < j < |ns| && ns[i].id == id ==> ns[j].id != id
  {
  }
}
