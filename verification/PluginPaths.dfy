/** Plugin path lists: the lenient reader used for the environment, the strict one used for the config file. */
module PluginPaths {
  import opened Prelude
  import opened Text

  function NonEmpty(parts: seq<string>): seq<string> {
    Filter(parts, p => p != "")
  }

  function Lenient(raw: string, separator: string): seq<string> {
    if Trim(raw) == "" then [] else NonEmpty(TrimAll(SplitStr(raw, separator)))
  }

  function Segments(raw: string): (r: seq<string>)
    ensures r != []
  {
    TrimAll(Split(raw, ';'))
  }

  // What strict reading promises: nothing for blank input, every segment when none is empty,
  // otherwise the one-based position of the first empty segment.
  ghost predicate StrictResult(raw: string, r: Result<seq<string>, nat>) {
    if AllWhitespace(raw) then r == Ok([])
    else
      match r
      case Ok(paths) => paths == Segments(raw) && "" !in paths
      case Err(position) => IsFirstEmpty(Segments(raw), position - 1)
  }

  predicate IsFirstEmpty(segments: seq<string>, i: int) {
    0 <= i < |segments| && segments[i] == "" && forall j :: 0 <= j < i ==> segments[j] != ""
  }

  method ParseStrict(raw: string) returns (r: Result<seq<string>, nat>)
    ensures StrictResult(raw, r)
    ensures r == Strict(raw)
  {
    BlankTrimsToEmpty(raw);
    if Trim(raw) == "" {
      return Ok([]);
    }
    var paths := [];
    var entries := Split(raw, ';');
    for index := 0 to |entries|
      invariant paths == Segments(raw)[..index] && "" !in paths
    {
      var entry := Trim(entries[index]);
      if entry == "" {
        StrictUnique(raw, Err(index + 1));
        return Err(index + 1);
      }
      paths := paths + [entry];
    }
    StrictUnique(raw, Ok(paths));
    return Ok(paths);
  }

  // The same result as a function of the text.
  function Strict(raw: string): Result<seq<string>, nat> {
    var segments := Segments(raw);
    if Trim(raw) == "" then Ok([])
    else if "" in segments then Err(FirstEmpty(segments) + 1)
    else Ok(segments)
  }

  function FirstEmpty(segments: seq<string>): (i: nat)
    requires "" in segments
    ensures IsFirstEmpty(segments, i)
  {
    if segments[0] == "" then 0 else
      assert segments == [segments[0]] + segments[1..];
      1 + FirstEmpty(segments[1..])
  }

  lemma StrictUnique(raw: string, r: Result<seq<string>, nat>)
    ensures StrictResult(raw, r) <==> r == Strict(raw)
  {
    BlankTrimsToEmpty(raw);
    var segments := Segments(raw);
    if "" in segments {
      assert IsFirstEmpty(segments, FirstEmpty(segments));
    }
  }

  // Non-blank text is rejected exactly when a piece of it is blank, at the first such piece, counted from one.
  lemma StrictRejects(raw: string, position: nat)
    requires !AllWhitespace(raw)
    ensures Strict(raw).Err? <==> exists piece :: piece in Split(raw, ';') && AllWhitespace(piece)
    ensures
      var pieces := Split(raw, ';');
      Strict(raw) == Err(position) <==>
        && 1 <= position <= |pieces| && AllWhitespace(pieces[position - 1])
        && forall j :: 0 <= j < position - 1 ==> !AllWhitespace(pieces[j])
  {
    var pieces := Split(raw, ';');
    StrictUnique(raw, Err(position));
    BlankTrimsToEmpty(raw);
    BlankSegments(pieces);
    forall j | 0 <= j < |pieces| ensures Segments(raw)[j] == "" <==> AllWhitespace(pieces[j]) {
      BlankTrimsToEmpty(pieces[j]);
    }
  }

  lemma BlankSegments(pieces: seq<string>)
    ensures "" in TrimAll(pieces) <==> exists piece :: piece in pieces && AllWhitespace(piece)
  {
    if "" in TrimAll(pieces) {
      var i :| 0 <= i < |pieces| && TrimAll(pieces)[i] == "";
      BlankTrimsToEmpty(pieces[i]);
      assert pieces[i] in pieces;
    }
    if piece :| piece in pieces && AllWhitespace(piece) {
      BlankTrimsToEmpty(piece);
      var i :| 0 <= i < |pieces| && pieces[i] == piece;
      assert TrimAll(pieces)[i] == "";
    }
  }

  // Where the strict reader accepts, the lenient one reads the same.
  lemma StrictAgreesWithLenient(raw: string)
    requires Strict(raw).Ok?
    ensures Strict(raw).value == Lenient(raw, ";")
  {
    SplitStrOfChar(raw, ';');
    if Trim(raw) != "" {
      FilterAll(Segments(raw), p => p != "");
    }
  }

  ghost predicate CleanPath(path: string) {
    path != "" && IsTrimmed(path) && ';' !in path
  }

  // Joining clean paths with ';' is undone by reading them strictly.
  lemma StrictInvertsJoin(paths: seq<string>)
    requires forall p :: p in paths ==> CleanPath(p)
    ensures Strict(Join(paths, ';')) == Ok(paths)
  {
    var raw := Join(paths, ';');
    if paths == [] {
      TrimOfTrimmed("");
    } else {
      SplitJoin(paths, ';');
      forall i | 0 <= i < |paths| ensures Segments(raw)[i] == paths[i] {
        assert paths[i] in paths;
        TrimOfTrimmed(paths[i]);
      }
      assert Segments(raw) == paths;
      assert paths[0] in paths;
      JoinNotBlank(paths, ';');
      BlankTrimsToEmpty(raw);
    }
  }

  // The pieces of raw between its separators, each a path with blanks around it.
  ghost predicate ListsPaths(raw: string, pieces: seq<string>, paths: seq<string>) {
    && pieces != [] && |pieces| == |paths| && raw == Join(pieces, ';')
    && forall i :: 0 <= i < |pieces| ==> ';' !in pieces[i] && Trim(pieces[i]) == paths[i] && paths[i] != ""
  }

  // The grammar of an accepted list: blank for no paths, or paths with blanks around them, separated by ';'.
  lemma AcceptedLists(raw: string, paths: seq<string>)
    ensures Strict(raw) == Ok(paths) <==>
              (AllWhitespace(raw) && paths == []) || exists pieces :: ListsPaths(raw, pieces, paths)
  {
    BlankTrimsToEmpty(raw);
    if Strict(raw) == Ok(paths) && !AllWhitespace(raw) {
      var pieces := Split(raw, ';');
      SplitPieces(raw, ';');
      JoinSplit(raw, ';');
      assert forall i :: 0 <= i < |pieces| ==> pieces[i] in pieces && paths[i] in paths;
      assert ListsPaths(raw, pieces, paths);
    }
    forall pieces | ListsPaths(raw, pieces, paths) ensures Strict(raw) == Ok(paths) {
      SplitJoin(pieces, ';');
      assert Segments(raw) == paths;
      assert "" !in paths;
      if AllWhitespace(raw) {
        PiecesOfBlank(raw, ";");
        SplitStrOfChar(raw, ';');
        assert pieces[0] in pieces;
        BlankTrimsToEmpty(pieces[0]);
      }
    }
  }

  // Every accepted list is one of clean paths, so that joining and reading again gives it back.
  lemma StrictYieldsCleanPaths(raw: string)
    requires Strict(raw).Ok?
    ensures forall p :: p in Strict(raw).value ==> CleanPath(p)
    ensures Strict(Join(Strict(raw).value, ';')) == Strict(raw)
  {
    var pieces, paths := Split(raw, ';'), Strict(raw).value;
    SplitPieces(raw, ';');
    forall p | p in paths ensures CleanPath(p) {
      var i :| 0 <= i < |pieces| && p == Trim(pieces[i]);
      assert pieces[i] in pieces;
      var pre, post := TrimSpec(pieces[i]);
      assert forall c :: c in p ==> c in pre + p + post;
    }
    StrictInvertsJoin(paths);
  }

  lemma JoinNotBlank(paths: seq<string>, c: char)
    requires paths != [] && paths[0] != "" && IsTrimmed(paths[0])
    ensures !AllWhitespace(Join(paths, c))
  {
    assert Join(paths, c)[0] == paths[0][0];
  }

  // The blank test before splitting changes nothing, whatever the separator.
  lemma BlankTestIsRedundant(raw: string, separator: string)
    ensures Lenient(raw, separator) == NonEmpty(TrimAll(SplitStr(raw, separator)))
  {
    BlankTrimsToEmpty(raw);
    if Trim(raw) == "" {
      var pieces := SplitStr(raw, separator);
      PiecesOfBlank(raw, separator);
      forall p | p in TrimAll(pieces) ensures p == "" {
        var i :| 0 <= i < |pieces| && p == Trim(pieces[i]);
        assert pieces[i] in pieces;
        BlankTrimsToEmpty(pieces[i]);
      }
      FilterNone(TrimAll(pieces), p => p != "");
    }
  }

  lemma {:induction false} PiecesOfBlank(s: string, sep: string)
    requires AllWhitespace(s)
    ensures forall p :: p in SplitStr(s, sep) ==> AllWhitespace(p)
  {
    if sep == "" || s == "" {
    } else {
      if sep <= s {
        PiecesOfBlank(s[|sep|..], sep);
      } else {
        PiecesOfBlank(s[1..], sep);
        assert SplitAt(s[1..], sep)[0] in SplitAt(s[1..], sep);
      }
    }
  }

  // Reading two lists joined by ';' leniently is reading both.
  lemma LenientConcat(a: string, b: string)
    ensures Lenient(a + ";" + b, ";") == Lenient(a, ";") + Lenient(b, ";")
  {
    BlankTestIsRedundant(a + ";" + b, ";");
    BlankTestIsRedundant(a, ";");
    BlankTestIsRedundant(b, ";");
    SplitStrOfChar(a + ";" + b, ';');
    SplitStrOfChar(a, ';');
    SplitStrOfChar(b, ';');
    SplitAppend(a, b, ';');
    assert a + ";" + b == a + [';'] + b;
    NonEmptyAppend(Split(a, ';'), Split(b, ';'));
  }

  lemma NonEmptyAppend(s: seq<string>, t: seq<string>)
    ensures NonEmpty(TrimAll(s + t)) == NonEmpty(TrimAll(s)) + NonEmpty(TrimAll(t))
  {
    assert TrimAll(s + t) == TrimAll(s) + TrimAll(t);
    FilterAppend(TrimAll(s), TrimAll(t), p => p != "");
  }

  // What the lenient reader makes of one piece.
  lemma PiecePaths(piece: string)
    ensures NonEmpty(TrimAll([piece])) == if AllWhitespace(piece) then [] else [Trim(piece)]
  {
    BlankTrimsToEmpty(piece);
    var trimmed := Trim(piece);
    FilterCons(trimmed, [], p => p != "");
    assert TrimAll([piece]) == [trimmed] && [trimmed] + [] == [trimmed];
  }

  // Any separator: the text before its first occurrence gives a path, unless it is blank, and the rest is read alike.
  lemma LenientAtFirst(a: string, separator: string, b: string)
    requires separator != "" && FirstAfter(a, separator)
    ensures Lenient(a + separator + b, separator)
         == (if AllWhitespace(a) then [] else [Trim(a)]) + Lenient(b, separator)
  {
    BlankTestIsRedundant(a + separator + b, separator);
    BlankTestIsRedundant(b, separator);
    SplitStrAtFirst(a, separator, b);
    NonEmptyAppend([a], SplitStr(b, separator));
    PiecePaths(a);
  }

  lemma LenientWithout(raw: string, separator: string)
    requires separator != "" && Lacks(raw, separator)
    ensures Lenient(raw, separator) == if AllWhitespace(raw) then [] else [Trim(raw)]
  {
    BlankTestIsRedundant(raw, separator);
    SplitStrWithout(raw, separator);
    PiecePaths(raw);
  }
}
