/**
 * Java's `String.split(regex)` for a regex that is a single literal character (such as ":"),
 * with the default limit 0: the string is cut at every occurrence of the separator, trailing
 * empty strings are removed, and a string without any occurrence yields itself as the only part.
 */
module JavaSplit {

  /** The pieces of `s` between occurrences of `sep`, empty pieces included. */
  function Pieces(s: string, sep: char): (parts: seq<string>)
    ensures |parts| >= 1
    decreases |s|
  {
    if s == [] then [[]]
    else
      var rest := Pieces(s[1..], sep);
      if s[0] == sep then [[]] + rest
      else [[s[0]] + rest[0]] + rest[1..]
  }

  /** The parts glued back together with `sep` between neighbours. */
  function Join(parts: seq<string>, sep: char): string
  {
    if |parts| == 0 then []
    else if |parts| == 1 then parts[0]
    else parts[0] + [sep] + Join(parts[1..], sep)
  }

  /** `parts` with its trailing empty strings removed. */
  function DropTrailingEmpty(parts: seq<string>): (kept: seq<string>)
    ensures |kept| <= |parts| && kept == parts[..|kept|]
    ensures forall i :: |kept| <= i < |parts| ==> parts[i] == []
    ensures kept == [] || kept[|kept| - 1] != []
  {
    if |parts| > 0 && parts[|parts| - 1] == [] then DropTrailingEmpty(parts[..|parts| - 1])
    else parts
  }

  /**
   * `s.split(sep)` with limit 0: no part contains the separator; a string without the separator
   * is its own single part; otherwise the last part kept, if any, is non-empty.
   */
  function Split(s: string, sep: char): (parts: seq<string>)
    ensures forall i :: 0 <= i < |parts| ==> sep !in parts[i]
    ensures sep !in s ==> parts == [s]
    ensures sep in s ==> parts == [] || parts[|parts| - 1] != []
  {
    if sep !in s then [s]
    else
      PiecesSeparatorFree(s, sep);
      DropTrailingEmpty(Pieces(s, sep))
  }

  /** No piece contains the separator. */
  lemma {:induction false} PiecesSeparatorFree(s: string, sep: char)
    ensures forall p :: p in Pieces(s, sep) ==> sep !in p
    decreases |s|
  {
    if s != [] {
      PiecesSeparatorFree(s[1..], sep);
    }
  }

  /** Joining the pieces gives back the original string. */
  lemma {:induction false} JoinPieces(s: string, sep: char)
    ensures Join(Pieces(s, sep), sep) == s
    decreases |s|
  {
    if s != [] {
      var rest := Pieces(s[1..], sep);
      JoinPieces(s[1..], sep);
      if s[0] == sep {
        assert ([[]] + rest)[1..] == rest;
      } else if |rest| > 1 {
        var parts := [[s[0]] + rest[0]] + rest[1..];
        assert parts[1..] == rest[1..];
        assert Join(rest, sep) == rest[0] + [sep] + Join(rest[1..], sep);
      }
    }
  }

  /** A separator-free prefix merges into the first piece of what follows it. */
  lemma {:induction false} PiecesOfPrefixed(x: string, y: string, sep: char)
    requires sep !in x
    ensures Pieces(x + y, sep) == [x + Pieces(y, sep)[0]] + Pieces(y, sep)[1..]
    decreases |x|
  {
    if x != [] {
      assert x[0] in x;
      assert (x + y)[0] == x[0] && (x + y)[1..] == x[1..] + y;
      PiecesOfPrefixed(x[1..], y, sep);
      var rest := Pieces(x[1..] + y, sep);
      assert rest[1..] == Pieces(y, sep)[1..];
      assert [x[0]] + (x[1..] + Pieces(y, sep)[0]) == x + Pieces(y, sep)[0];
    } else {
      var ps := Pieces(y, sep);
      assert x + y == y && x + ps[0] == ps[0];
      assert ps == [ps[0]] + ps[1..];
    }
  }

  /** Cutting a string built by `Join` from separator-free parts yields those parts again. */
  lemma {:induction false} PiecesOfJoin(parts: seq<string>, sep: char)
    requires |parts| >= 1
    requires forall p :: p in parts ==> sep !in p
    ensures Pieces(Join(parts, sep), sep) == parts
    decreases |parts|
  {
    if |parts| == 1 {
      PiecesOfPrefixed(parts[0], [], sep);
      assert parts[0] + [] == parts[0];
    } else {
      var tail := Join(parts[1..], sep);
      PiecesOfJoin(parts[1..], sep);
      assert Pieces([sep] + tail, sep) == [[]] + parts[1..] by {
        assert ([sep] + tail)[1..] == tail;
      }
      PiecesOfPrefixed(parts[0], [sep] + tail, sep);
      assert parts[0] + [sep] + tail == parts[0] + ([sep] + tail);
      assert parts[0] + [] == parts[0];
    }
  }

  /**
   * What `Split` keeps: the pieces up to the last non-empty one, so exactly the trailing
   * empty pieces are dropped; a string without the separator is its own single part.
   */
  lemma SplitKeepsLeadingPieces(s: string, sep: char)
    ensures var parts, pieces := Split(s, sep), Pieces(s, sep);
      |parts| <= |pieces| && parts == pieces[..|parts|] &&
      (forall i :: |parts| <= i < |pieces| ==> pieces[i] == []) &&
      (sep !in s ==> parts == [s])
  {
    if sep !in s {
      PiecesOfJoin([s], sep);
      assert Pieces(s, sep) == [s];
    } else {
      assert Split(s, sep) == DropTrailingEmpty(Pieces(s, sep));
    }
  }

  /**
   * Split yields exactly three parts iff the string has at least three pieces, the third is
   * non-empty, and every piece after it is empty; empty first or second pieces are kept.
   */
  lemma SplitHasThreeParts(s: string, sep: char)
    ensures var pieces := Pieces(s, sep);
      |Split(s, sep)| == 3 <==>
        (|pieces| >= 3 && pieces[2] != [] && forall i :: 3 <= i < |pieces| ==> pieces[i] == [])
  {
    var pieces := Pieces(s, sep);
    SplitKeepsLeadingPieces(s, sep);
    if sep in s {
      assert Split(s, sep) == DropTrailingEmpty(pieces);
    }
  }
}
