/** Splitting a string at a separator and joining pieces again. */
module StringPieces {

  /** The first position of `c` from `from` on, or the length of the string (npos). */
  function Find(s: string, c: char, from: nat): (i: nat)
    requires from <= |s|
    ensures from <= i <= |s| && (i < |s| ==> s[i] == c) && forall j :: from <= j < i ==> s[j] != c
    decreases |s| - from
  {
    if from == |s| || s[from] == c then from else Find(s, c, from + 1)
  }

  /** All pieces between the separators, empty ones included; there is always at least one. */
  function Pieces(s: string, sep: char): (pieces: seq<string>)
    ensures pieces != []
    decreases |s|
  {
    var i := Find(s, sep, 0);
    if i == |s| then [s] else [s[..i]] + Pieces(s[i + 1..], sep)
  }

  function Join(pieces: seq<string>, sep: char): string {
    if pieces == [] then ""
    else if |pieces| == 1 then pieces[0]
    else pieces[0] + [sep] + Join(pieces[1..], sep)
  }

  ghost predicate Without(pieces: seq<string>, sep: char) {
    forall i :: 0 <= i < |pieces| ==> sep !in pieces[i]
  }

  lemma FindSplit(a: string, sep: char, rest: string)
    requires sep !in a
    ensures Find(a + [sep] + rest, sep, 0) == |a|
  {
    var s := a + [sep] + rest;
    assert s[|a|] == sep && forall j :: 0 <= j < |a| ==> s[j] == a[j];
  }

  lemma FindNone(a: string, sep: char)
    requires sep !in a
    ensures Find(a, sep, 0) == |a|
  {
    assert forall j :: 0 <= j < |a| ==> a[j] in a;
  }

  /** The first piece and the others. */
  lemma PiecesCons(a: string, sep: char, rest: string)
    requires sep !in a
    ensures Pieces(a + [sep] + rest, sep) == [a] + Pieces(rest, sep) && Pieces(a, sep) == [a]
  {
    var s := a + [sep] + rest;
    FindSplit(a, sep, rest);
    FindNone(a, sep);
    assert s[..|a|] == a && s[|a| + 1..] == rest;
  }

  /** Splitting undoes joining. */
  lemma {:induction false} PiecesOfJoin(pieces: seq<string>, sep: char)
    requires pieces != [] && Without(pieces, sep)
    ensures Pieces(Join(pieces, sep), sep) == pieces
  {
    if |pieces| == 1 {
      PiecesCons(pieces[0], sep, "");
    } else {
      PiecesOfJoin(pieces[1..], sep);
      PiecesCons(pieces[0], sep, Join(pieces[1..], sep));
      assert [pieces[0]] + pieces[1..] == pieces;
    }
  }

  lemma {:induction false} PiecesWithout(s: string, sep: char)
    ensures Without(Pieces(s, sep), sep)
    decreases |s|
  {
    var i := Find(s, sep, 0);
    assert forall j :: 0 <= j < i ==> s[..i][j] == s[j];
    if i == |s| {
      assert s[..i] == s;
    } else {
      PiecesWithout(s[i + 1..], sep);
    }
  }

  lemma {:induction false} JoinSnoc(pieces: seq<string>, last: string, sep: char)
    ensures Join(pieces + [last], sep) == if pieces == [] then last else Join(pieces, sep) + [sep] + last
  {
    var all := pieces + [last];
    if |pieces| == 1 {
      assert all[1..] == [last];
    } else if |pieces| > 1 {
      JoinSnoc(pieces[1..], last, sep);
      assert all[1..] == pieces[1..] + [last];
      assert pieces[0] + [sep] + (Join(pieces[1..], sep) + [sep] + last) == pieces[0] + [sep] + Join(pieces[1..], sep) + [sep] + last;
    }
  }

  /** The pieces that are not empty. */
  function NonEmpty(pieces: seq<string>): (r: seq<string>)
    ensures forall i :: 0 <= i < |r| ==> r[i] != "" && r[i] in pieces
  {
    if pieces == [] then []
    else (if pieces[0] == "" then [] else [pieces[0]]) + NonEmpty(pieces[1..])
  }

  lemma {:induction false} NonEmptyAll(pieces: seq<string>)
    requires forall i :: 0 <= i < |pieces| ==> pieces[i] != ""
    ensures NonEmpty(pieces) == pieces
  {
    if pieces != [] {
      NonEmptyAll(pieces[1..]);
      assert [pieces[0]] + pieces[1..] == pieces;
    }
  }

  /** Leaving out empty pieces works piece by piece. */
  lemma {:induction false} NonEmptyConcat(a: seq<string>, b: seq<string>)
    ensures NonEmpty(a + b) == NonEmpty(a) + NonEmpty(b)
    ensures forall x :: NonEmpty([x]) == if x == "" then [] else [x]
  {
    if a == [] {
      assert a + b == b;
    } else {
      assert (a + b)[1..] == a[1..] + b;
      NonEmptyConcat(a[1..], b);
    }
  }
}
