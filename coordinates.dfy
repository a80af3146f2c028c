/**
 * The two ways the Gradle readers turn a dependency into a (groupId, artifactId, version)
 * coordinate: the legacy reader copies three fields verbatim, the current reader cuts the
 * `dependency` field at ':' and insists on exactly three parts.
 */
module Coordinates {
  import opened Wrappers
  import opened Inventory
  import opened JavaSplit

  /** The coordinate set on a component; `None` is a Java `null`. */
  datatype Coordinate = Coordinate(groupId: Option<string>, artifactId: Option<string>, version: Option<string>)

  /** The resolution strategy: legacy `gradle` (verbatim) or current `gradle2` (split into three). */
  datatype Resolution = Verbatim | SplitIntoThree

  const MALFORMED_PREFIX: string := "Could not extract groupId, artifactId and version from dependency info: '"

  /**
   * `dependency.split(":")` followed by the arity check of the current reader: a rejection
   * quotes the raw string; an accepted string gives three ':'-free parts, the version non-empty.
   */
  function SplitCoordinate(dependency: string): (r: Result<Coordinate, Failure>)
    ensures r.Failure? ==> r.error == MalformedCoordinate(MALFORMED_PREFIX + dependency + "'")
    ensures r.Success? ==>
      r.value.groupId.Some? && r.value.artifactId.Some? && r.value.version.Some? &&
      ':' !in r.value.groupId.value && ':' !in r.value.artifactId.value &&
      ':' !in r.value.version.value && r.value.version.value != []
  {
    var parts := Split(dependency, ':');
    if |parts| != 3 then Failure(MalformedCoordinate(MALFORMED_PREFIX + dependency + "'"))
    else Success(Coordinate(Some(parts[0]), Some(parts[1]), Some(parts[2])))
  }

  /**
   * The coordinate of `d` under strategy `res`. Only the split strategy can fail, with a null
   * dereference exactly when `dependency` is absent; the legacy strategy hands `dependency` on
   * whole as the artifactId; a split coordinate always has a non-empty version.
   */
  function Resolve(res: Resolution, d: Dependency): (r: Result<Coordinate, Failure>)
    ensures r.Failure? ==> res.SplitIntoThree?
    ensures r.Failure? ==> (r.error == NullDependency <==> d.dependency.None?)
    ensures res.Verbatim? ==> r.Success? && r.value.artifactId == d.dependency
    ensures res.SplitIntoThree? && r.Success? ==>
      d.dependency.Some? && r.value.version.Some? && r.value.version.value != []
  {
    match res
    case Verbatim => Success(Coordinate(d.project, d.dependency, d.version))
    case SplitIntoThree =>
      if d.dependency.None? then Failure(NullDependency) else SplitCoordinate(d.dependency.value)
  }

  /**
   * The legacy strategy never fails and never looks inside `dependency`: even a colon-separated
   * `dependency` becomes the artifactId as a whole.
   */
  lemma VerbatimNeverSplits(d: Dependency)
    ensures Resolve(Verbatim, d).Success?
    ensures var c := Resolve(Verbatim, d).value;
      c.groupId == d.project && c.artifactId == d.dependency && c.version == d.version
  {
  }

  /** The split strategy fails on an absent `dependency` and otherwise is `SplitCoordinate`. */
  lemma SplitNeedsDependency(d: Dependency)
    ensures d.dependency.None? ==> Resolve(SplitIntoThree, d) == Failure(NullDependency)
    ensures d.dependency.Some? ==> Resolve(SplitIntoThree, d) == SplitCoordinate(d.dependency.value)
  {
  }

  /**
   * The arity check accepts exactly the strings whose ':'-pieces are at least three, the third
   * non-empty and all later ones empty; on rejection the error quotes the raw string.
   */
  lemma SplitCoordinateAccepts(s: string)
    ensures var pieces := Pieces(s, ':');
      SplitCoordinate(s).Success? <==>
        (|pieces| >= 3 && pieces[2] != [] && forall i :: 3 <= i < |pieces| ==> pieces[i] == [])
    ensures SplitCoordinate(s).Failure? ==>
      SplitCoordinate(s).error == MalformedCoordinate(MALFORMED_PREFIX + s + "'")
  {
    SplitHasThreeParts(s, ':');
  }

  /**
   * On acceptance the three parts are the first three ':'-pieces of the string: free of ':',
   * the version non-empty, and the string is "g:a:v" followed by nothing but ':'.
   */
  lemma SplitCoordinateSound(s: string)
    requires SplitCoordinate(s).Success?
    ensures var c := SplitCoordinate(s).value;
      c.groupId.Some? && c.artifactId.Some? && c.version.Some? &&
      var g, a, v := c.groupId.value, c.artifactId.value, c.version.value;
      ':' !in g && ':' !in a && ':' !in v && v != [] &&
      |g| + |a| + |v| + 2 <= |s| &&
      s[..|g| + |a| + |v| + 2] == g + ":" + a + ":" + v &&
      forall i :: |g| + |a| + |v| + 2 <= i < |s| ==> s[i] == ':'
  {
    var pieces := Pieces(s, ':');
    SplitKeepsLeadingPieces(s, ':');
    SplitHasThreeParts(s, ':');
    PiecesSeparatorFree(s, ':');
    JoinPieces(s, ':');
    var g, a, v := pieces[0], pieces[1], pieces[2];
    assert g in pieces && a in pieces && v in pieces;
    JoinWithEmptyTail(pieces);
  }

  /** Joining `[g, a, v]` followed by empty pieces is "g:a:v" followed by one ':' per empty piece. */
  lemma {:induction false} JoinWithEmptyTail(pieces: seq<string>)
    requires |pieces| >= 3 && forall i :: 3 <= i < |pieces| ==> pieces[i] == []
    ensures var head := pieces[0] + ":" + pieces[1] + ":" + pieces[2];
      var joined := Join(pieces, ':');
      |head| <= |joined| && joined[..|head|] == head &&
      forall i :: |head| <= i < |joined| ==> joined[i] == ':'
    decreases |pieces|
  {
    var head := pieces[0] + ":" + pieces[1] + ":" + pieces[2];
    if |pieces| == 3 {
      assert Join(pieces[2..], ':') == pieces[2];
      assert Join(pieces[1..], ':') == pieces[1] + ":" + pieces[2] by {
        assert pieces[1..][1..] == pieces[2..];
      }
      assert Join(pieces, ':') == head;
    } else {
      var shorter := pieces[..|pieces| - 1];
      JoinWithEmptyTail(shorter);
      JoinAppendEmpty(shorter);
      assert shorter + [[]] == pieces;
    }
  }

  /** Appending an empty piece appends one separator. */
  lemma {:induction false} JoinAppendEmpty(parts: seq<string>)
    requires |parts| >= 1
    ensures Join(parts + [[]], ':') == Join(parts, ':') + ":"
    decreases |parts|
  {
    if |parts| == 1 {
      assert (parts + [[]])[1..] == [[]];
    } else {
      assert (parts + [[]])[1..] == parts[1..] + [[]];
      JoinAppendEmpty(parts[1..]);
    }
  }

  /**
   * Round trip: "g:a:v" built from ':'-free parts with a non-empty version resolves to
   * (g, a, v), and so does the same string with trailing ':' appended.
   */
  lemma ResolvesJoined(g: string, a: string, v: string, trailing: nat)
    requires ':' !in g && ':' !in a && ':' !in v && v != []
    ensures SplitCoordinate(g + ":" + a + ":" + v + seq(trailing, _ => ':'))
      == Success(Coordinate(Some(g), Some(a), Some(v)))
  {
    var parts := [g, a, v] + seq(trailing, _ => []);
    var s := g + ":" + a + ":" + v + seq(trailing, _ => ':');
    assert forall p :: p in parts ==> ':' !in p;
    JoinEmptyTailExact(g, a, v, trailing);
    PiecesOfJoin(parts, ':');
    SplitHasThreeParts(s, ':');
    SplitKeepsLeadingPieces(s, ':');
    var split := Split(s, ':');
    assert split == parts[..3] == [g, a, v];
  }

  /** The string `ResolvesJoined` starts from is the join of its pieces. */
  lemma {:induction false} JoinEmptyTailExact(g: string, a: string, v: string, trailing: nat)
    ensures Join([g, a, v] + seq(trailing, _ => []), ':') == g + ":" + a + ":" + v + seq(trailing, _ => ':')
    decreases trailing
  {
    var parts := [g, a, v] + seq(trailing, _ => []);
    if trailing == 0 {
      assert parts == [g, a, v];
      assert Join([g, a, v][2..], ':') == v;
      assert Join([g, a, v][1..], ':') == a + ":" + v by {
        assert [g, a, v][1..][1..] == [g, a, v][2..];
      }
    } else {
      JoinEmptyTailExact(g, a, v, trailing - 1);
      assert parts == ([g, a, v] + seq(trailing - 1, _ => [])) + [[]];
      JoinAppendEmpty([g, a, v] + seq(trailing - 1, _ => []));
      assert seq(trailing, _ => ':') == seq(trailing - 1, _ => ':') + ":";
    }
  }

  /** A well-formed coordinate string resolves to its three parts. */
  lemma AcceptedExample()
    ensures SplitCoordinate("com.acme:widget:1.2.3")
      == Success(Coordinate(Some("com.acme"), Some("widget"), Some("1.2.3")))
  {
    ResolvesJoined("com.acme", "widget", "1.2.3", 0);
    assert "com.acme" + ":" + "widget" + ":" + "1.2.3" + seq(0, _ => ':') == "com.acme:widget:1.2.3";
  }

  /** A trailing ':' is dropped by the split, so the string still has three parts. */
  lemma TrailingColonAccepted()
    ensures SplitCoordinate("g:a:v:") == Success(Coordinate(Some("g"), Some("a"), Some("v")))
  {
    ResolvesJoined("g", "a", "v", 1);
    assert "g" + ":" + "a" + ":" + "v" + seq(1, _ => ':') == "g:a:v:";
  }

  /** Empty leading and middle parts pass the arity check. */
  lemma EmptyPartExamples()
    ensures SplitCoordinate(":a:v") == Success(Coordinate(Some(""), Some("a"), Some("v")))
    ensures SplitCoordinate("g::v") == Success(Coordinate(Some("g"), Some(""), Some("v")))
  {
    ResolvesJoined("", "a", "v", 0);
    assert "" + ":" + "a" + ":" + "v" + seq(0, _ => ':') == ":a:v";
    ResolvesJoined("g", "", "v", 0);
    assert "g" + ":" + "" + ":" + "v" + seq(0, _ => ':') == "g::v";
  }

  /** Two parts are rejected, and the error quotes the string. */
  lemma TwoPartsRejected()
    ensures SplitCoordinate("bad:format") == Failure(MalformedCoordinate(MALFORMED_PREFIX + "bad:format" + "'"))
  {
    var parts := ["bad", "format"];
    PiecesOfJoin(parts, ':');
    assert Join(parts, ':') == "bad:format" by {
      assert parts[1..] == ["format"];
    }
    SplitCoordinateAccepts("bad:format");
  }

  /** An empty third part is dropped by the split, so the arity check rejects it. */
  lemma EmptyVersionRejected()
    ensures SplitCoordinate("g:a:").Failure?
  {
    var parts := ["g", "a", ""];
    PiecesOfJoin(parts, ':');
    assert Join(parts, ':') == "g:a:" by {
      assert parts[1..] == ["a", ""] && parts[1..][1..] == [""];
    }
    SplitCoordinateAccepts("g:a:");
  }

  /** Four non-empty parts are rejected. */
  lemma FourPartsRejected()
    ensures SplitCoordinate("g:a:v:x").Failure?
  {
    var parts := ["g", "a", "v", "x"];
    PiecesOfJoin(parts, ':');
    assert Join(parts, ':') == "g:a:v:x" by {
      assert parts[1..] == ["a", "v", "x"];
      assert parts[1..][1..] == ["v", "x"] && parts[1..][1..][1..] == ["x"];
    }
    SplitCoordinateAccepts("g:a:v:x");
  }
}
