/** Character-level string operations, with the edge cases of Rust's `str` methods. */
module Text {
  import opened Prelude

  // Unicode White_Space, which is what `char::is_whitespace` tests.
  predicate IsWhitespace(c: char) {
    || '\t' <= c <= '\r'
    || c == ' '
    || c == '\U{85}'
    || c == '\U{A0}'
    || c == '\U{1680}'
    || '\U{2000}' <= c <= '\U{200A}'
    || c == '\U{2028}'
    || c == '\U{2029}'
    || c == '\U{202F}'
    || c == '\U{205F}'
    || c == '\U{3000}'
  }

  // The same as the list of the code points with that property.
  lemma WhitespaceCodePoints(c: char)
    ensures IsWhitespace(c) <==>
              || c as int in {0x9, 0xA, 0xB, 0xC, 0xD, 0x20, 0x85, 0xA0, 0x1680, 0x2028, 0x2029, 0x202F, 0x205F, 0x3000}
              || 0x2000 <= c as int <= 0x200A
  {
  }

  predicate AllWhitespace(s: string) {
    forall i :: 0 <= i < |s| ==> IsWhitespace(s[i])
  }

  // No whitespace at either end.
  predicate IsTrimmed(s: string) {
    s == "" || (!IsWhitespace(s[0]) && !IsWhitespace(s[|s| - 1]))
  }

  function TrimStart(s: string): string {
    if s != "" && IsWhitespace(s[0]) then TrimStart(s[1..]) else s
  }

  function TrimEnd(s: string): string {
    if s != "" && IsWhitespace(s[|s| - 1]) then TrimEnd(s[..|s| - 1]) else s
  }

  function Trim(s: string): string {
    TrimEnd(TrimStart(s))
  }

  function TrimAll(parts: seq<string>): (r: seq<string>)
    ensures |r| == |parts|
  {
    seq(|parts|, i requires 0 <= i < |parts| => Trim(parts[i]))
  }

  // The pieces between the occurrences of c; one piece when there are none.
  function Split(s: string, c: char): (parts: seq<string>)
    ensures parts != []
  {
    if s == "" then [""]
    else
      var rest := Split(s[1..], c);
      if s[0] == c then [""] + rest else [[s[0]] + rest[0]] + rest[1..]
  }

  function Join(parts: seq<string>, c: char): string {
    if parts == [] then ""
    else if |parts| == 1 then parts[0]
    else parts[0] + [c] + Join(parts[1..], c)
  }

  // Split at leftmost non-overlapping matches; the empty separator matches around every character.
  function SplitStr(s: string, sep: string): seq<string> {
    if sep == "" then [""] + seq(|s|, i requires 0 <= i < |s| => [s[i]]) + [""]
    else SplitAt(s, sep)
  }

  function SplitAt(s: string, sep: string): (parts: seq<string>)
    requires sep != ""
    ensures parts != []
  {
    if s == "" then [""]
    else if sep <= s then [""] + SplitAt(s[|sep|..], sep)
    else
      var rest := SplitAt(s[1..], sep);
      [[s[0]] + rest[0]] + rest[1..]
  }

  // Split at the first c.
  function SplitOnce(s: string, c: char): (r: Option<(string, string)>)
    ensures r.None? <==> c !in s
    ensures r.Some? ==> s == r.value.0 + [c] + r.value.1 && c !in r.value.0
  {
    if s == "" then None
    else if s[0] == c then Some(("", s[1..]))
    else
      match SplitOnce(s[1..], c)
      case None => None
      case Some(p) => Some(([s[0]] + p.0, p.1))
  }

  // Split at the last c.
  function RSplitOnce(s: string, c: char): (r: Option<(string, string)>)
    ensures r.None? <==> c !in s
    ensures r.Some? ==> s == r.value.0 + [c] + r.value.1 && c !in r.value.1
  {
    if s == "" then None
    else if s[|s| - 1] == c then Some((s[..|s| - 1], ""))
    else
      match RSplitOnce(s[..|s| - 1], c)
      case None => None
      case Some(p) => Some((p.0, p.1 + [s[|s| - 1]]))
  }

  function StripCr(s: string): string {
    if s != "" && s[|s| - 1] == '\r' then s[..|s| - 1] else s
  }

  // Each terminated line without "\n" or "\r\n", then an unterminated rest as it stands.
  function Lines(s: string): seq<string> {
    LinesOf(Split(s, '\n'))
  }

  // The lines that pieces stand for, the last of them unterminated.
  function LinesOf(parts: seq<string>): seq<string>
    requires parts != []
  {
    var n := |parts| - 1;
    StripCrs(parts[..n]) + if parts[n] == "" then [] else [parts[n]]
  }

  function StripCrs(parts: seq<string>): seq<string> {
    seq(|parts|, i requires 0 <= i < |parts| => StripCr(parts[i]))
  }

  // ---------------------------------------------------------------- trimming

  lemma {:induction false} TrimStartIsSuffix(s: string)
    ensures |TrimStart(s)| <= |s|
    ensures TrimStart(s) == s[|s| - |TrimStart(s)|..]
    ensures AllWhitespace(s[..|s| - |TrimStart(s)|])
    ensures TrimStart(s) == "" || !IsWhitespace(TrimStart(s)[0])
  {
    if s == "" || !IsWhitespace(s[0]) {
    } else {
      TrimStartIsSuffix(s[1..]);
    }
  }

  lemma {:induction false} TrimEndIsPrefix(s: string)
    ensures |TrimEnd(s)| <= |s|
    ensures TrimEnd(s) == s[..|TrimEnd(s)|]
    ensures AllWhitespace(s[|TrimEnd(s)|..])
    ensures TrimEnd(s) == "" || !IsWhitespace(TrimEnd(s)[|TrimEnd(s)| - 1])
  {
    if s == "" || !IsWhitespace(s[|s| - 1]) {
    } else {
      TrimEndIsPrefix(s[..|s| - 1]);
      assert s[|TrimEnd(s)|..] == s[..|s| - 1][|TrimEnd(s)|..] + [s[|s| - 1]];
    }
  }

  lemma {:induction false} TrimStartSkips(pre: string, s: string)
    requires AllWhitespace(pre)
    ensures TrimStart(pre + s) == TrimStart(s)
  {
    if pre == "" {
      assert pre + s == s;
    } else {
      assert (pre + s)[1..] == pre[1..] + s;
      TrimStartSkips(pre[1..], s);
    }
  }

  lemma {:induction false} TrimEndSkips(s: string, post: string)
    requires AllWhitespace(post)
    ensures TrimEnd(s + post) == TrimEnd(s)
  {
    if post == "" {
      assert s + post == s;
    } else {
      var n := |s + post| - 1;
      assert (s + post)[..n] == s + post[..|post| - 1];
      TrimEndSkips(s, post[..|post| - 1]);
    }
  }

  // Trim finds the one way to write s as blank + trimmed + blank.
  lemma TrimUnique(pre: string, mid: string, post: string)
    requires AllWhitespace(pre) && AllWhitespace(post) && IsTrimmed(mid)
    ensures Trim(pre + mid + post) == mid
  {
    assert pre + mid + post == pre + (mid + post);
    TrimStartSkips(pre, mid + post);
    if mid == "" {
      assert mid + post == post;
      TrimStartIsSuffix(post);
      var t := TrimStart(post);
      assert AllWhitespace(t);
      assert t == "";
    } else {
      assert TrimStart(mid + post) == mid + post;
      TrimEndSkips(mid, post);
    }
  }

  lemma TrimSpec(s: string) returns (pre: string, post: string)
    ensures s == pre + Trim(s) + post
    ensures AllWhitespace(pre) && AllWhitespace(post) && IsTrimmed(Trim(s))
  {
    TrimStartIsSuffix(s);
    var t := TrimStart(s);
    TrimEndIsPrefix(t);
    pre, post := s[..|s| - |t|], t[|Trim(s)|..];
    assert t == Trim(s) + post;
    assert s == pre + t == pre + Trim(s) + post;
    assert Trim(s) != "" ==> Trim(s)[0] == t[0];
  }

  lemma TrimIdempotent(s: string)
    ensures IsTrimmed(Trim(s)) && Trim(Trim(s)) == Trim(s)
  {
    var pre, post := TrimSpec(s);
    TrimUnique("", Trim(s), "");
    assert "" + Trim(s) + "" == Trim(s);
  }

  lemma TrimOfTrimmed(s: string)
    requires IsTrimmed(s)
    ensures Trim(s) == s
  {
    TrimUnique("", s, "");
    assert "" + s + "" == s;
  }

  lemma BlankTrimsToEmpty(s: string)
    ensures Trim(s) == "" <==> AllWhitespace(s)
  {
    var pre, post := TrimSpec(s);
    if Trim(s) == "" {
      assert s == pre + post;
    } else {
      assert s[|pre|] == Trim(s)[0];
    }
  }

  // ---------------------------------------------------------------- splitting

  lemma {:induction false} SplitAppend(a: string, b: string, c: char)
    ensures Split(a + [c] + b, c) == Split(a, c) + Split(b, c)
  {
    if a == "" {
      assert (a + [c] + b)[1..] == b;
    } else {
      assert (a + [c] + b)[1..] == a[1..] + [c] + b;
      SplitAppend(a[1..], b, c);
    }
  }

  lemma {:induction false} SplitWithout(s: string, c: char)
    requires c !in s
    ensures Split(s, c) == [s]
  {
    if s == "" {
    } else {
      SplitWithout(s[1..], c);
      assert [s[0]] + s[1..] == s;
    }
  }

  lemma {:induction false} SplitPieces(s: string, c: char)
    ensures forall p :: p in Split(s, c) ==> c !in p
  {
    if s == "" {
    } else {
      SplitPieces(s[1..], c);
      var rest := Split(s[1..], c);
      assert forall p :: p in Split(s, c) ==> p == "" || p in rest || p == [s[0]] + rest[0];
    }
  }

  lemma {:induction false} JoinSplit(s: string, c: char)
    ensures Join(Split(s, c), c) == s
  {
    if s == "" {
    } else {
      JoinSplit(s[1..], c);
      var rest := Split(s[1..], c);
      if s[0] == c {
        assert Split(s, c)[1..] == rest;
      } else {
        assert Split(s, c)[1..] == rest[1..];
      }
    }
  }

  lemma {:induction false} JoinAppend(a: seq<string>, b: seq<string>, c: char)
    requires a != [] && b != []
    ensures Join(a + b, c) == Join(a, c) + [c] + Join(b, c)
  {
    assert (a + b)[1..] == a[1..] + b;
    if |a| == 1 {
      assert a[1..] + b == b;
    } else {
      JoinAppend(a[1..], b, c);
      var rest, tail := Join(a[1..], c), [c] + Join(b, c);
      ConcatAssociates(rest, [c], Join(b, c));
      ConcatAssociates(a[0] + [c], rest, tail);
      ConcatAssociates(a[0] + [c] + rest, [c], Join(b, c));
    }
  }

  lemma {:induction false} SplitJoin(parts: seq<string>, c: char)
    requires parts != [] && forall p :: p in parts ==> c !in p
    ensures Split(Join(parts, c), c) == parts
  {
    if |parts| == 1 {
      SplitWithout(parts[0], c);
    } else {
      assert parts[0] in parts && forall p :: p in parts[1..] ==> p in parts;
      SplitJoin(parts[1..], c);
      SplitAppend(parts[0], Join(parts[1..], c), c);
      SplitWithout(parts[0], c);
      assert parts == [parts[0]] + parts[1..];
    }
  }

  // Splitting at a one-character string is splitting at the character.
  lemma {:induction false} SplitStrOfChar(s: string, c: char)
    ensures SplitStr(s, [c]) == Split(s, c)
  {
    if s == "" {
    } else {
      SplitStrOfChar(s[1..], c);
      assert [c] <= s <==> s[0] == c;
    }
  }

  lemma {:induction false} SplitOnceAt(a: string, b: string, c: char)
    requires c !in a
    ensures SplitOnce(a + [c] + b, c) == Some((a, b))
  {
    var s := a + [c] + b;
    if a == "" {
      assert s[1..] == b;
    } else {
      assert s[1..] == a[1..] + [c] + b;
      SplitOnceAt(a[1..], b, c);
      assert [a[0]] + a[1..] == a;
    }
  }

  lemma {:induction false} RSplitOnceAt(a: string, b: string, c: char)
    requires c !in b
    ensures RSplitOnce(a + [c] + b, c) == Some((a, b))
  {
    var s := a + [c] + b;
    if b == "" {
      assert s[..|s| - 1] == a;
    } else {
      assert s[..|s| - 1] == a + [c] + b[..|b| - 1];
      RSplitOnceAt(a, b[..|b| - 1], c);
      assert b[..|b| - 1] + [b[|b| - 1]] == b;
    }
  }

  lemma LinesOfAppend(a: seq<string>, b: seq<string>)
    requires b != []
    ensures LinesOf(a + b) == StripCrs(a) + LinesOf(b)
  {
    assert (a + b)[..|a + b| - 1] == a + b[..|b| - 1];
    assert StripCrs(a + b[..|b| - 1]) == StripCrs(a) + StripCrs(b[..|b| - 1]);
  }

  // A newline-terminated line in front of any text is the first line.
  lemma LinesCons(line: string, rest: string)
    requires '\n' !in line
    ensures Lines(line + "\n" + rest) == [StripCr(line)] + Lines(rest)
  {
    SplitAppend(line, rest, '\n');
    SplitWithout(line, '\n');
    LinesOfAppend([line], Split(rest, '\n'));
  }

  // Text after a newline contributes its lines after those before it.
  lemma LinesAppend(a: string, b: string)
    ensures Lines(a + "\n" + b) == Lines(a + "\n") + Lines(b)
  {
    SplitAppend(a, b, '\n');
    SplitAppend(a, "", '\n');
    assert a + "\n" + "" == a + "\n";
    LinesOfAppend(Split(a, '\n'), Split(b, '\n'));
    LinesOfAppend(Split(a, '\n'), [""]);
  }

  // A text without a newline is a line of its own, its carriage return included.
  lemma LinesUnterminated(line: string)
    requires '\n' !in line && line != ""
    ensures Lines(line) == [line]
  {
    SplitWithout(line, '\n');
  }

  // A last line that no newline ends is a line all the same.
  lemma LinesLast(a: string, line: string)
    requires '\n' !in line && line != ""
    ensures Lines(a + "\n" + line) == Lines(a + "\n") + [line]
  {
    LinesAppend(a, line);
    LinesUnterminated(line);
  }

  // The last line of a text, blank if a newline ends it, and what another newline does to it.
  lemma LastLine(s: string) returns (head: seq<string>, last: string)
    ensures Lines(s + "\n") == head + [StripCr(last)]
    ensures Lines(s) == if last == "" then head else head + [last]
  {
    var pieces := Split(s, '\n');
    var front := pieces[..|pieces| - 1];
    head, last := StripCrs(front), pieces[|pieces| - 1];
    SplitAppend(s, "", '\n');
    assert s + ['\n'] + "" == s + "\n";
    LinesOfSnoc(pieces);
  }

  lemma LinesOfSnoc(pieces: seq<string>)
    requires pieces != []
    ensures LinesOf(pieces + [""]) == StripCrs(pieces[..|pieces| - 1]) + [StripCr(pieces[|pieces| - 1])]
  {
    assert (pieces + [""])[..|pieces|] == pieces;
    assert pieces == pieces[..|pieces| - 1] + [pieces[|pieces| - 1]];
  }

  // Both line endings are taken off.
  lemma LineEndings(line: string, rest: string)
    requires '\n' !in line
    ensures Lines(line + "\r\n" + rest) == [line] + Lines(rest)
    ensures line == "" || line[|line| - 1] != '\r' ==> Lines(line + "\n" + rest) == [line] + Lines(rest)
  {
    assert line + "\r\n" + rest == (line + "\r") + "\n" + rest;
    LinesCons(line + "\r", rest);
    assert (line + "\r")[..|line|] == line;
    LinesCons(line, rest);
  }

  // sep does not occur in s.
  ghost predicate Lacks(s: string, sep: string) {
    forall i :: 0 <= i <= |s| ==> !(sep <= s[i..])
  }

  // sep occurs in a + sep first after a.
  ghost predicate FirstAfter(a: string, sep: string) {
    forall i :: 0 <= i < |a| ==> !(sep <= (a + sep)[i..])
  }

  lemma {:induction false} SplitStrWithout(s: string, sep: string)
    requires sep != "" && Lacks(s, sep)
    ensures SplitStr(s, sep) == [s]
  {
    assert s[0..] == s;
    if s == "" {
    } else {
      forall i | 0 <= i <= |s[1..]| ensures !(sep <= s[1..][i..]) {
        assert s[1..][i..] == s[i + 1..];
      }
      SplitStrWithout(s[1..], sep);
      assert [s[0]] + s[1..] == s;
    }
  }

  // The text before the first separator is the first piece; the rest is split alike.
  lemma {:induction false} SplitStrAtFirst(a: string, sep: string, b: string)
    requires sep != "" && FirstAfter(a, sep)
    ensures SplitStr(a + sep + b, sep) == [a] + SplitStr(b, sep)
  {
    var s := a + sep + b;
    if a == "" {
      assert s == sep + b && s[|sep|..] == b;
    } else {
      assert (a + sep)[0..] == a + sep;
      assert s[1..] == a[1..] + sep + b;
      assert s[..|sep|] == (a + sep)[..|sep|];
      assert !(sep <= s);
      forall i | 0 <= i < |a[1..]| ensures !(sep <= (a[1..] + sep)[i..]) {
        assert (a[1..] + sep)[i..] == (a + sep)[i + 1..];
      }
      SplitStrAtFirst(a[1..], sep, b);
      assert [a[0]] + a[1..] == a;
    }
  }

  // The empty separator leaves an empty piece at either end and every character between them.
  lemma SplitStrByNothing(s: string, i: nat)
    requires i <= |s| + 1
    ensures |SplitStr(s, "")| == |s| + 2
    ensures SplitStr(s, "")[i] == if 1 <= i <= |s| then [s[i - 1]] else ""
  {
  }
}
