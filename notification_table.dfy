/**
 * The notification table as a sequence of rows in creation order, and the
 * effect of the store's bulk operations on it: deleteMany, updateMany, update.
 */
module NotificationTable {
  import opened Types

  /**
   * The `where` clause of a deleteMany on notifications: recipient, actor and
   * type must be equal; `post` None means the clause does not mention postId.
   */
  datatype Where = Where(recipient: UserId, actor: UserId, kind: NotificationType, post: Option<PostId>)

  predicate Matches(n: Notification, w: Where) {
    && n.recipient == w.recipient
    && n.actor == w.actor
    && n.kind == w.kind
    && (w.post.None? || n.post == w.post)
  }

  /** Rows appear in creation order: ids and timestamps both strictly increase. */
  ghost predicate Chronological(ns: seq<Notification>) {
    forall i, j :: 0 <= i < j < |ns| ==> ns[i].id < ns[j].id && ns[i].createdAt < ns[j].createdAt
  }

  /** deleteMany: every row the clause matches is removed, all others are kept in order. */
  function DeleteWhere(ns: seq<Notification>, w: Where): (r: seq<Notification>)
    ensures |r| <= |ns|
  {
    if ns == [] then []
    else (if Matches(ns[0], w) then [] else [ns[0]]) + DeleteWhere(ns[1..], w)
  }

  /** The surviving rows are exactly the rows the clause does not match. */
  lemma {:induction false} DeleteWhereMembers(ns: seq<Notification>, w: Where)
    ensures forall n :: n in DeleteWhere(ns, w) <==> n in ns && !Matches(n, w)
  {
    if ns != [] {
      DeleteWhereMembers(ns[1..], w);
      assert ns == [ns[0]] + ns[1..];
    }
  }

  /** After deleteMany, the clause matches no row. */
  lemma DeleteWhereClears(ns: seq<Notification>, w: Where)
    ensures CountWhere(DeleteWhere(ns, w), w) == 0
  {
    DeleteWhereMembers(ns, w);
  }

  /** The number of rows the clause matches. */
  function CountWhere(ns: seq<Notification>, w: Where): (c: nat)
    ensures c <= |ns|
    ensures c == 0 <==> forall n :: n in ns ==> !Matches(n, w)
  {
    if ns == [] then 0
    else (if Matches(ns[0], w) then 1 else 0) + CountWhere(ns[1..], w)
  }

  lemma {:induction false} CountWhereAppend(ns: seq<Notification>, n: Notification, w: Where)
    ensures CountWhere(ns + [n], w) == CountWhere(ns, w) + (if Matches(n, w) then 1 else 0)
  {
    if ns == [] {
      assert [n][1..] == [];
    } else {
      assert (ns + [n])[1..] == ns[1..] + [n];
      CountWhereAppend(ns[1..], n, w);
    }
  }

  /** Two clauses that no row can satisfy together. */
  predicate Disjoint(w: Where, w': Where) {
    || w.recipient != w'.recipient
    || w.actor != w'.actor
    || w.kind != w'.kind
    || (w.post.Some? && w'.post.Some? && w.post != w'.post)
  }

  /** Deleting by one clause leaves the count of a disjoint clause as it was. */
  lemma {:induction false} DeleteWhereKeepsDisjointCount(ns: seq<Notification>, w: Where, w': Where)
    requires Disjoint(w, w')
    ensures CountWhere(DeleteWhere(ns, w), w') == CountWhere(ns, w')
  {
    if ns != [] {
      DeleteWhereKeepsDisjointCount(ns[1..], w, w');
      var tail := DeleteWhere(ns[1..], w);
      if Matches(ns[0], w) {
        assert !Matches(ns[0], w');
        assert DeleteWhere(ns, w) == tail;
      } else {
        var r := [ns[0]] + tail;
        assert DeleteWhere(ns, w) == r;
        assert r[0] == ns[0] && r[1..] == tail;
      }
    }
  }

  /** deleteMany keeps the surviving rows in creation order. */
  lemma {:induction false} DeleteWhereChronological(ns: seq<Notification>, w: Where)
    requires Chronological(ns)
    ensures Chronological(DeleteWhere(ns, w))
  {
    if ns != [] {
      var tail := DeleteWhere(ns[1..], w);
      DeleteWhereChronological(ns[1..], w);
      DeleteWhereMembers(ns[1..], w);
      if !Matches(ns[0], w) {
        forall x | x in tail
          ensures ns[0].id < x.id && ns[0].createdAt < x.createdAt
        {
          var k :| 0 <= k < |ns[1..]| && ns[1..][k] == x;
          assert ns[k + 1] == x;
        }
        ChronologicalCons(ns[0], tail);
      }
    }
  }

  lemma ChronologicalCons(head: Notification, tail: seq<Notification>)
    requires Chronological(tail)
    requires forall x :: x in tail ==> head.id < x.id && head.createdAt < x.createdAt
    ensures Chronological([head] + tail)
  {
    var r := [head] + tail;
    forall i, j | 0 <= i < j < |r|
      ensures r[i].id < r[j].id && r[i].createdAt < r[j].createdAt
    {
      assert r[j] == tail[j - 1];
      if i > 0 {
        assert r[i] == tail[i - 1];
      }
    }
  }

  /** Which rows an update of `read` touches. */
  datatype Selector =
    | UnreadOf(user: UserId)   // updateMany where { userId: user, read: false }
    | WithId(id: NotificationId) // update where { id }

  predicate Selects(sel: Selector, n: Notification) {
    match sel
    case UnreadOf(u) => n.recipient == u && !n.read
    case WithId(id) => n.id == id
  }

  /** Sets `read` to true on every selected row; no row is added, removed or moved. */
  function MarkRead(ns: seq<Notification>, sel: Selector): (r: seq<Notification>)
    ensures |r| == |ns|
    ensures forall i :: 0 <= i < |ns| && Selects(sel, ns[i]) ==> r[i] == ns[i].(read := true)
    ensures forall i :: 0 <= i < |ns| && !Selects(sel, ns[i]) ==> r[i] == ns[i]
  {
    seq(|ns|, i requires 0 <= i < |ns| => if Selects(sel, ns[i]) then ns[i].(read := true) else ns[i])
  }

  /** Marking only ever changes `read`, and only from false to true. */
  lemma MarkReadOnlyRaisesRead(ns: seq<Notification>, sel: Selector)
    ensures |MarkRead(ns, sel)| == |ns|
    ensures forall i :: 0 <= i < |ns| ==>
      MarkRead(ns, sel)[i] == ns[i].(read := MarkRead(ns, sel)[i].read) && (ns[i].read ==> MarkRead(ns, sel)[i].read)
  {
  }

  lemma MarkReadChronological(ns: seq<Notification>, sel: Selector)
    requires Chronological(ns)
    ensures Chronological(MarkRead(ns, sel))
  {
  }

  /** Deleting by clause ignores `read`, so marking never changes what a clause counts. */
  lemma {:induction false} MarkReadKeepsCount(ns: seq<Notification>, sel: Selector, w: Where)
    ensures CountWhere(MarkRead(ns, sel), w) == CountWhere(ns, w)
  {
    if ns != [] {
      MarkReadKeepsCount(ns[1..], sel, w);
      assert MarkRead(ns, sel)[1..] == MarkRead(ns[1..], sel);
    }
  }
}
