/** The header's avatar fallback: getInitials (src/app/_components/header-client.tsx). */
module HeaderClient {
  import opened Types
  import opened Text

  /** `s.split(" ")`: the pieces between spaces, empty ones included; never an empty list. */
  function Split(s: string): (r: seq<string>)
    ensures |r| >= 1
    decreases |s|
  {
    if s == [] then [""]
    else
      var rest := Split(s[1..]);
      if s[0] == ' ' then [""] + rest else [[s[0]] + rest[0]] + rest[1..]
  }

  /** `pieces.join(" ")`. */
  function Join(pieces: seq<string>): string
    requires |pieces| >= 1
  {
    if |pieces| == 1 then pieces[0] else pieces[0] + " " + Join(pieces[1..])
  }

  /** Splitting then joining on the same separator gives back the string, and no piece holds a space. */
  lemma {:induction false} JoinSplit(s: string)
    ensures Join(Split(s)) == s
    ensures forall i :: 0 <= i < |Split(s)| ==> NoSpace(Split(s)[i])
    decreases |s|
  {
    if s != [] {
      var rest := Split(s[1..]);
      JoinSplit(s[1..]);
      if s[0] == ' ' {
        assert Split(s)[1..] == rest;
        assert Split(s)[0] == "";
      } else {
        var r := Split(s);
        assert r[1..] == rest[1..];
        if |rest| == 1 {
          assert Join(r) == r[0];
        } else {
          assert Join(rest) == rest[0] + " " + Join(rest[1..]);
          assert Join(r) == r[0] + " " + Join(rest[1..]);
        }
        forall i | 0 <= i < |r|
          ensures NoSpace(r[i])
        {
          if i > 0 {
            assert r[i] == rest[i];
          }
        }
      }
    }
  }

  predicate NoSpace(s: string) {
    forall i :: 0 <= i < |s| ==> s[i] != ' '
  }

  /** `piece.charAt(0).toUpperCase()`: empty for an empty piece. */
  function FirstUpper(piece: string): (r: string)
    ensures |r| <= 1 && (|r| == 1 <==> piece != "")
  {
    if piece == "" then "" else [UpperChar(piece[0])]
  }

  /** `pieces.map(FirstUpper).join("")`. */
  function Firsts(pieces: seq<string>): (r: string)
    ensures |r| <= |pieces|
  {
    if pieces == [] then "" else FirstUpper(pieces[0]) + Firsts(pieces[1..])
  }

  /** getInitials: "U" for a missing or empty name, else the first two initials. */
  function GetInitials(name: Option<string>): (r: string)
    ensures |r| <= 2
    ensures name.None? || name.value == "" ==> r == "U"
  {
    if name.None? || name.value == "" then "U"
    else
      var initials := Firsts(Split(name.value));
      if |initials| <= 2 then initials else initials[..2]
  }

  /** A name without spaces gives exactly its first letter, uppercased. */
  lemma {:induction false} OneWord(w: string)
    requires w != "" && NoSpace(w)
    ensures GetInitials(Some(w)) == [UpperChar(w[0])]
  {
    SplitNoSpace(w);
  }

  lemma {:induction false} SplitNoSpace(w: string)
    requires NoSpace(w)
    ensures Split(w) == [w]
    decreases |w|
  {
    if w != [] {
      SplitNoSpace(w[1..]);
      assert w[0] != ' ';
      assert [w[0]] + w[1..] == w;
    }
  }

  /** A space-free first word splits off as the first piece. */
  lemma {:induction false} SplitPrefix(a: string, t: string)
    requires NoSpace(a)
    ensures Split(a + " " + t) == [a] + Split(t)
    decreases |a|
  {
    var s := a + " " + t;
    if a == [] {
      assert s[0] == ' ' && s[1..] == t;
    } else {
      assert s[0] == a[0] && s[1..] == a[1..] + " " + t;
      SplitPrefix(a[1..], t);
      assert [a[0]] + a[1..] == a;
    }
  }

  /** A name of two words gives the first letter of each, uppercased. */
  lemma TwoWords(a: string, b: string)
    requires a != "" && b != "" && NoSpace(a) && NoSpace(b)
    ensures GetInitials(Some(a + " " + b)) == [UpperChar(a[0]), UpperChar(b[0])]
  {
    SplitPrefix(a, b);
    SplitNoSpace(b);
    var pieces := Split(a + " " + b);
    assert pieces == [a, b];
    assert pieces[1..] == [b] && pieces[1..][1..] == [];
    assert Firsts(pieces) == [UpperChar(a[0])] + ([UpperChar(b[0])] + "");
  }

  /** A non-empty name made only of spaces gives the empty string. */
  lemma {:induction false} OnlySpaces(s: string)
    requires forall i :: 0 <= i < |s| ==> s[i] == ' '
    ensures forall i :: 0 <= i < |Split(s)| ==> Split(s)[i] == ""
    ensures Firsts(Split(s)) == ""
    ensures s != "" ==> GetInitials(Some(s)) == ""
    decreases |s|
  {
    if s != [] {
      OnlySpaces(s[1..]);
      assert Split(s) == [""] + Split(s[1..]);
    }
  }
}
