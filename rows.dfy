/**
 * Ordered reads of a table whose rows are keyed by auto-incremented ids.
 * Ids are handed out in creation order, so "orderBy createdAt desc" is a scan
 * from the highest id issued so far down to the lowest.
 */
module Rows {

  /** The rows with keys below n that `keep` accepts, highest key first. */
  function NewestFirst<T>(rows: map<nat, T>, n: nat, keep: T -> bool): (r: seq<T>)
    ensures |r| <= n
    decreases n
  {
    if n == 0 then []
    else (if n - 1 in rows && keep(rows[n - 1]) then [rows[n - 1]] else []) + NewestFirst(rows, n - 1, keep)
  }

  /** A row is scanned exactly when `keep` accepts it and it sits under a key below n. */
  lemma {:induction false} NewestFirstMembers<T>(rows: map<nat, T>, n: nat, keep: T -> bool, x: T)
    ensures x in NewestFirst(rows, n, keep) <==> keep(x) && exists k :: 0 <= k < n && k in rows && rows[k] == x
  {
    if n > 0 {
      NewestFirstMembers(rows, n - 1, keep, x);
      if x in NewestFirst(rows, n, keep) && !(n - 1 in rows && x == rows[n - 1]) {
        assert x in NewestFirst(rows, n - 1, keep);
      }
      if keep(x) && n - 1 in rows && rows[n - 1] == x {
        assert NewestFirst(rows, n, keep)[0] == x;
      }
    }
  }

  /** Every scanned row is a row of the table, and every accepted row below n is scanned. */
  lemma NewestFirstRows<T>(rows: map<nat, T>, n: nat, keep: T -> bool)
    ensures forall x :: x in NewestFirst(rows, n, keep) ==> x in rows.Values && keep(x)
    ensures forall k :: k in rows && k < n && keep(rows[k]) ==> rows[k] in NewestFirst(rows, n, keep)
  {
    forall x | x in NewestFirst(rows, n, keep)
      ensures x in rows.Values && keep(x)
    {
      NewestFirstMembers(rows, n, keep, x);
      var k :| 0 <= k < n && k in rows && rows[k] == x;
    }
    forall k | k in rows && k < n && keep(rows[k])
      ensures rows[k] in NewestFirst(rows, n, keep)
    {
      NewestFirstMembers(rows, n, keep, rows[k]);
    }
  }

  /** Strictly decreasing in `stamp`: newest first, and no row twice. */
  ghost predicate Descending<T>(s: seq<T>, stamp: T -> int) {
    forall i, j :: 0 <= i < j < |s| ==> stamp(s[i]) > stamp(s[j])
  }

  /** Stamps grow with the key: a row created later has a larger id. */
  ghost predicate StampsFollowKeys<T>(rows: map<nat, T>, stamp: T -> int) {
    forall a, b :: a in rows && b in rows && a < b ==> stamp(rows[a]) < stamp(rows[b])
  }

  /** When stamps grow with keys, the scan is newest first. */
  lemma {:induction false} NewestFirstDescending<T>(rows: map<nat, T>, n: nat, keep: T -> bool, stamp: T -> int)
    requires StampsFollowKeys(rows, stamp)
    ensures Descending(NewestFirst(rows, n, keep), stamp)
  {
    if n > 0 {
      var tail := NewestFirst(rows, n - 1, keep);
      NewestFirstDescending(rows, n - 1, keep, stamp);
      if n - 1 in rows && keep(rows[n - 1]) {
        forall x | x in tail
          ensures stamp(x) < stamp(rows[n - 1])
        {
          NewestFirstMembers(rows, n - 1, keep, x);
          var k :| 0 <= k < n - 1 && k in rows && rows[k] == x;
        }
        DescendingCons(rows[n - 1], tail, stamp);
      }
    }
  }

  lemma DescendingCons<T>(head: T, tail: seq<T>, stamp: T -> int)
    requires Descending(tail, stamp)
    requires forall x :: x in tail ==> stamp(x) < stamp(head)
    ensures Descending([head] + tail, stamp)
  {
    var r := [head] + tail;
    forall i, j | 0 <= i < j < |r|
      ensures stamp(r[i]) > stamp(r[j])
    {
      assert r[j] == tail[j - 1];
      if i > 0 {
        assert r[i] == tail[i - 1];
      }
    }
  }

  /** The keys below n whose rows `keep` accepts. */
  ghost function KeysBelow<T>(rows: map<nat, T>, n: nat, keep: T -> bool): set<nat> {
    set k | k in rows && k < n && keep(rows[k])
  }

  /** The scan returns one row per accepted key. */
  lemma {:induction false} NewestFirstCount<T>(rows: map<nat, T>, n: nat, keep: T -> bool)
    ensures |NewestFirst(rows, n, keep)| == |KeysBelow(rows, n, keep)|
  {
    if n == 0 {
      assert KeysBelow(rows, 0, keep) == {};
    } else {
      NewestFirstCount(rows, n - 1, keep);
      if n - 1 in rows && keep(rows[n - 1]) {
        assert KeysBelow(rows, n, keep) == KeysBelow(rows, n - 1, keep) + {n - 1};
      } else {
        assert KeysBelow(rows, n, keep) == KeysBelow(rows, n - 1, keep);
      }
    }
  }

  /** Scanning past the highest key adds nothing. */
  lemma KeysBelowAll<T>(rows: map<nat, T>, n: nat, keep: T -> bool)
    requires forall k :: k in rows ==> k < n
    ensures KeysBelow(rows, n, keep) == set k | k in rows && keep(rows[k])
  {
  }
}
