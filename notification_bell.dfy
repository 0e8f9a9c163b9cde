/** The bell's unread counter and its badge (src/app/_components/notifications/notification-bell.tsx). */
module NotificationBell {
  import opened Types
  import opened NotificationTable
  import NotificationRouter

  /** `notifications.filter(n => !n.read)`. */
  function UnreadOnly(ns: seq<Notification>): (r: seq<Notification>)
    ensures |r| <= |ns|
  {
    if ns == [] then [] else (if ns[0].read then [] else [ns[0]]) + UnreadOnly(ns[1..])
  }

  /** The number of unread rows in the list. */
  function UnreadCount(ns: seq<Notification>): (c: nat)
    ensures c <= |ns|
  {
    |UnreadOnly(ns)|
  }

  /** The count is zero exactly when every row is read, and the list length exactly when none is. */
  lemma {:induction false} UnreadCountExtremes(ns: seq<Notification>)
    ensures UnreadCount(ns) == 0 <==> forall i :: 0 <= i < |ns| ==> ns[i].read
    ensures UnreadCount(ns) == |ns| <==> forall i :: 0 <= i < |ns| ==> !ns[i].read
  {
    if ns != [] {
      UnreadCountExtremes(ns[1..]);
      assert forall i :: 1 <= i < |ns| ==> ns[i] == ns[1..][i - 1];
    }
  }

  /**
   * On a list addressed to one user, the bell counts exactly the rows getUnread
   * draws from. The bell as shipped counts a fixed mock list, not the server's
   * rows; this states what the counter would show if it were given that user's
   * notifications.
   */
  lemma {:induction false} BellMatchesServer(ns: seq<Notification>, user: UserId)
    requires forall i :: 0 <= i < |ns| ==> ns[i].recipient == user
    ensures UnreadCount(ns) == |NotificationRouter.UnreadNewestFirst(ns, user)|
  {
    if ns != [] {
      var front := ns[..|ns| - 1];
      BellMatchesServer(front, user);
      UnreadCountSnoc(front, ns[|ns| - 1]);
      assert front + [ns[|ns| - 1]] == ns;
    }
  }

  /** After markAllAsRead by the list's user, the bell counts nothing. */
  lemma BellClearedByMarkAll(ns: seq<Notification>, user: UserId)
    requires forall i :: 0 <= i < |ns| ==> ns[i].recipient == user
    ensures UnreadCount(MarkRead(ns, UnreadOf(user))) == 0
  {
    UnreadCountExtremes(MarkRead(ns, UnreadOf(user)));
  }

  lemma {:induction false} UnreadCountSnoc(ns: seq<Notification>, n: Notification)
    ensures UnreadCount(ns + [n]) == UnreadCount(ns) + (if n.read then 0 else 1)
  {
    if ns == [] {
      assert [n][1..] == [];
    } else {
      UnreadCountSnoc(ns[1..], n);
      assert (ns + [n])[1..] == ns[1..] + [n];
    }
  }

  /** The badge over the bell: absent, or showing a caption. */
  datatype Badge = Hidden | Shown(caption: string)

  const Overflow: string := "9+"

  /** The count as JSX renders a number: its decimal digit, for the counts 1 to 9 that reach it. */
  function Digit(count: nat): (r: string)
    requires 1 <= count <= 9
    ensures |r| == 1 && '1' <= r[0] <= '9' && r[0] as int - '0' as int == count
  {
    [('0' as int + count) as char]
  }

  function BadgeFor(count: nat): (b: Badge)
    ensures b.Hidden? <==> count == 0
    ensures b.Shown? ==> (b.caption == Overflow <==> count > 9)
    ensures 1 <= count <= 9 ==> b == Shown(Digit(count))
  {
    if count == 0 then Hidden
    else if count > 9 then Shown(Overflow)
    else Shown(Digit(count))
  }

  /** Different counts up to nine give different labels; every larger count shares "9+". */
  lemma BadgeLabels(a: nat, b: nat)
    requires 1 <= a && 1 <= b && a != b
    ensures BadgeFor(a) == BadgeFor(b) <==> a > 9 && b > 9
  {
    if a <= 9 && b <= 9 {
      assert Digit(a)[0] != Digit(b)[0];
    }
  }
}
