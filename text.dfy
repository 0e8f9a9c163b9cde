/**
 * String helpers: case mapping of the ASCII letters A-Z and a-z only,
 * substring search, and JavaScript's UTF-16 length.
 */
module Text {

  function UpperChar(c: char): char {
    if 'a' <= c <= 'z' then (c as int - 32) as char else c
  }

  function LowerChar(c: char): char {
    if 'A' <= c <= 'Z' then (c as int + 32) as char else c
  }

  /** Upper-casing leaves no lower-case letter and changes no letter, only its case. */
  function Upper(s: string): (r: string)
    ensures |r| == |s| && forall i :: 0 <= i < |s| ==> r[i] == UpperChar(s[i])
    ensures forall i :: 0 <= i < |r| ==> !('a' <= r[i] <= 'z')
    ensures Lower(r) == Lower(s)
  {
    seq(|s|, i requires 0 <= i < |s| => UpperChar(s[i]))
  }

  /** Lower-casing leaves no upper-case letter and changes no letter, only its case. */
  function Lower(s: string): (r: string)
    ensures |r| == |s| && forall i :: 0 <= i < |s| ==> r[i] == LowerChar(s[i])
    ensures forall i :: 0 <= i < |r| ==> !('A' <= r[i] <= 'Z')
  {
    seq(|s|, i requires 0 <= i < |s| => LowerChar(s[i]))
  }

  /** Case mapping never changes a character's letter, only its case. */
  lemma CaseRoundTrip(c: char)
    ensures LowerChar(UpperChar(c)) == LowerChar(c)
    ensures UpperChar(UpperChar(c)) == UpperChar(c)
    ensures 'a' <= c <= 'z' ==> 'A' <= UpperChar(c) <= 'Z'
  {
  }

  /** A character JavaScript stores in one UTF-16 code unit: one of the Basic Multilingual Plane. */
  predicate InBasicPlane(c: char) {
    c as int <= 0xFFFF
  }

  /**
   * JavaScript's `length`: the number of UTF-16 code units, one per character
   * of the Basic Multilingual Plane and two (a surrogate pair) per other character.
   */
  function Utf16Length(s: string): (n: nat)
    ensures |s| <= n <= 2 * |s|
    ensures n == |s| <==> forall i :: 0 <= i < |s| ==> InBasicPlane(s[i])
    ensures n == 2 * |s| <==> forall i :: 0 <= i < |s| ==> !InBasicPlane(s[i])
  {
    if s == [] then 0
    else
      assert forall i :: 1 <= i < |s| ==> s[i] == s[1..][i - 1];
      (if InBasicPlane(s[0]) then 1 else 2) + Utf16Length(s[1..])
  }

  /** Code units add up over concatenation. */
  lemma {:induction false} Utf16LengthAppend(a: string, b: string)
    ensures Utf16Length(a + b) == Utf16Length(a) + Utf16Length(b)
  {
    if a == [] {
      assert a + b == b;
    } else {
      assert (a + b)[0] == a[0] && (a + b)[1..] == a[1..] + b;
      Utf16LengthAppend(a[1..], b);
    }
  }

  /** `s` holds `q` at position `at`. */
  predicate OccursAt(s: string, q: string, at: nat) {
    at + |q| <= |s| && s[at..at + |q|] == q
  }

  predicate Contains(s: string, q: string) {
    exists at :: 0 <= at <= |s| - |q| && OccursAt(s, q, at)
  }

  /** Substring search ignoring ASCII case, as a case-insensitive `contains` filter does. */
  predicate ContainsIgnoringCase(s: string, q: string) {
    Contains(Lower(s), Lower(q))
  }

  /** A case-insensitive match is preserved when the query's case changes. */
  lemma ContainsIgnoresQueryCase(s: string, q: string)
    ensures ContainsIgnoringCase(s, q) <==> ContainsIgnoringCase(s, Upper(q))
  {
  }

  /** A query found exactly, case and all, is found ignoring case. */
  lemma {:induction false} ExactMatchFound(s: string, q: string, at: nat)
    requires OccursAt(s, q, at)
    ensures ContainsIgnoringCase(s, q)
  {
    var ls, lq := Lower(s), Lower(q);
    assert ls[at..at + |q|] == lq by {
      forall i | 0 <= i < |q|
        ensures ls[at..at + |q|][i] == lq[i]
      {
        assert s[at + i] == q[i];
      }
    }
    assert OccursAt(ls, lq, at);
  }
}
