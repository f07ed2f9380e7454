/** What the strict config file promises: order does not matter, comments do not matter, rendering is undone. */
module RuntimeConfigProperties {
  import opened Prelude
  import opened Text
  import opened RuntimeConfig
  import PluginPaths

  // The result of ParseConfigFile as a function of the lines.
  ghost function Read(lines: seq<Line>, isAddr: AddrReader): Result<Overrides, ConfigError> {
    if lines == [] then Ok(Overrides(None, None))
    else
      match Read(lines[..|lines| - 1], isAddr)
      case Err(error) => Err(error)
      case Ok(o) => Next(o, lines[|lines| - 1], isAddr)
  }

  lemma ReadSnoc(before: seq<Line>, line: Line, isAddr: AddrReader)
    ensures
      var r := Read(before, isAddr);
      Read(before + [line], isAddr) == if r.Ok? then Next(r.value, line, isAddr) else r
  {
    var lines := before + [line];
    assert lines[..|lines| - 1] == before;
  }

  lemma {:induction false} ReadCorrect(lines: seq<Line>, isAddr: AddrReader)
    ensures ParseResult(lines, isAddr, Read(lines, isAddr))
  {
    if lines == [] {
    } else {
      var n := |lines| - 1;
      ReadCorrect(lines[..n], isAddr);
      assert lines == lines[..n] + [lines[n]];
      match Read(lines[..n], isAddr)
      case Err(error) => ErrorStays(lines[..n], [lines[n]], isAddr, error);
      case Ok(o) =>
        LineDecides(lines, n, isAddr, o);
        assert lines[..n + 1] == lines;
    }
  }

  ghost function Parse(content: string, isAddr: AddrReader): Result<Overrides, ConfigError> {
    Read(ClassifyAll(Lines(content)), isAddr)
  }

  lemma ErrorStays(lines: seq<Line>, more: seq<Line>, isAddr: AddrReader, error: ConfigError)
    requires ParseResult(lines, isAddr, Err(error))
    ensures ParseResult(lines + more, isAddr, Err(error))
  {
    var i :| OffendsFirst(lines, isAddr, i, error);
    assert (lines + more)[..i] == lines[..i] && (lines + more)[i] == lines[i];
    assert OffendsFirst(lines + more, isAddr, i, error);
  }

  // A prefix of accepted lines is accepted.
  lemma AcceptedPrefix(a: seq<Line>, b: seq<Line>, isAddr: AddrReader)
    requires Accepted(a + b, isAddr)
    ensures Accepted(a, isAddr)
  {
    FilterAppend(a, b, (l: Line) => l.Addr?);
    FilterAppend(a, b, (l: Line) => l.Paths?);
    forall i | 0 <= i < |a| ensures WellFormed(a[i], isAddr) {
      assert (a + b)[i] == a[i];
    }
  }

  lemma OffendingPrefixRejected(lines: seq<Line>, isAddr: AddrReader, i: nat)
    requires i < |lines| && Accepted(lines[..i], isAddr) && Offence(lines[..i], lines[i], isAddr).Some?
    ensures forall k :: i < k <= |lines| ==> !Accepted(lines[..k], isAddr)
  {
    var before, line := lines[..i], lines[i];
    AppendAccepted(before, line, isAddr);
    forall k | i < k <= |lines| ensures !Accepted(lines[..k], isAddr) {
      assert lines[..k] == (before + [line]) + lines[i + 1..k];
      PrefixOfRejected(before + [line], lines[i + 1..k], isAddr);
    }
  }

  lemma PrefixOfRejected(a: seq<Line>, b: seq<Line>, isAddr: AddrReader)
    requires !Accepted(a, isAddr)
    ensures !Accepted(a + b, isAddr)
  {
    if Accepted(a + b, isAddr) {
      AcceptedPrefix(a, b, isAddr);
    }
  }

  // The lines determine the result, error included.
  lemma ResultDetermined(lines: seq<Line>, isAddr: AddrReader, r: Result<Overrides, ConfigError>)
    requires ParseResult(lines, isAddr, r)
    ensures r == Read(lines, isAddr)
    ensures r.Ok? <==> Accepted(lines, isAddr)
  {
    assert lines[..|lines|] == lines;
    ReadCorrect(lines, isAddr);
    var s := Read(lines, isAddr);
    if r.Err? {
      var i :| OffendsFirst(lines, isAddr, i, r.error);
      OffendingPrefixRejected(lines, isAddr, i);
      var j :| OffendsFirst(lines, isAddr, j, s.error);
      OffendingPrefixRejected(lines, isAddr, j);
      assert i == j;
    } else {
      if s.Err? {
        var j :| OffendsFirst(lines, isAddr, j, s.error);
        OffendingPrefixRejected(lines, isAddr, j);
      }
      OverridesDetermined(lines, lines, r.value, s.value);
    }
  }

  lemma OverridesDetermined(a: seq<Line>, b: seq<Line>, o: Overrides, p: Overrides)
    requires forall line :: line in a <==> line in b
    requires ReadsAs(a, o) && ReadsAs(b, p)
    ensures o == p
  {
    if o.httpListenAddr.Some? {
      var line :| line in a && line.Addr?;
      assert line in b;
    }
    if o.pluginPaths.Some? {
      var line :| line in a && line.Paths?;
      assert line in b;
    }
  }

  // A file is accepted exactly when every line is well formed and no key occurs twice.
  lemma AcceptedIff(content: string, isAddr: AddrReader)
    ensures Parse(content, isAddr).Ok? <==> Accepted(ClassifyAll(Lines(content)), isAddr)
  {
    ReadCorrect(ClassifyAll(Lines(content)), isAddr);
    ResultDetermined(ClassifyAll(Lines(content)), isAddr, Parse(content, isAddr));
  }

  // Reordering lines changes neither acceptance nor the overrides.
  lemma OrderIrrelevant(a: string, b: string, isAddr: AddrReader)
    requires multiset(Lines(a)) == multiset(Lines(b))
    ensures Parse(a, isAddr).Ok? <==> Parse(b, isAddr).Ok?
    ensures Parse(a, isAddr).Ok? ==> Parse(a, isAddr) == Parse(b, isAddr)
  {
    var s, t := ClassifyAll(Lines(a)), ClassifyAll(Lines(b));
    ClassifyPermuted(Lines(a), Lines(b));
    AcceptedPermuted(s, t, isAddr);
    AcceptedIff(a, isAddr);
    AcceptedIff(b, isAddr);
    ReadCorrect(s, isAddr);
    ReadCorrect(t, isAddr);
    if Parse(a, isAddr).Ok? {
      assert forall line :: line in s <==> line in multiset(s);
      assert forall line :: line in t <==> line in multiset(t);
      OverridesDetermined(s, t, Parse(a, isAddr).value, Parse(b, isAddr).value);
    }
  }

  lemma AcceptedPermuted(s: seq<Line>, t: seq<Line>, isAddr: AddrReader)
    requires multiset(s) == multiset(t)
    ensures Accepted(s, isAddr) <==> Accepted(t, isAddr)
  {
    FilterPermuted(s, t, (l: Line) => l.Addr?);
    FilterPermuted(s, t, (l: Line) => l.Paths?);
    WellFormedMembers(s, isAddr);
    WellFormedMembers(t, isAddr);
    assert forall line :: line in s <==> line in multiset(s);
    assert forall line :: line in t <==> line in multiset(t);
  }

  lemma WellFormedMembers(lines: seq<Line>, isAddr: AddrReader)
    ensures (forall i :: 0 <= i < |lines| ==> WellFormed(lines[i], isAddr))
       <==> (forall line :: line in lines ==> WellFormed(line, isAddr))
  {
  }

  lemma ClassifyAppend(s: seq<string>, t: seq<string>)
    ensures ClassifyAll(s + t) == ClassifyAll(s) + ClassifyAll(t)
  {
  }

  lemma {:induction false} ClassifyPermuted(s: seq<string>, t: seq<string>)
    requires multiset(s) == multiset(t)
    ensures multiset(ClassifyAll(s)) == multiset(ClassifyAll(t))
  {
    assert |s| == |multiset(s)| == |t|;
    if s == [] {
    } else {
      var i := MatchingElement(s, t);
      ClassifyPermuted(s[1..], t[..i] + t[i + 1..]);
      ClassifyInsert([], s[0], s[1..]);
      assert [] + ([s[0]] + s[1..]) == s && [] + s[1..] == s[1..];
      ClassifyInsert(t[..i], s[0], t[i + 1..]);
    }
  }

  lemma ClassifyInsert(a: seq<string>, x: string, b: seq<string>)
    ensures multiset(ClassifyAll(a + ([x] + b))) == multiset{Classify(x)} + multiset(ClassifyAll(a + b))
  {
    ClassifyAppend(a, [x] + b);
    ClassifyAppend([x], b);
    ClassifyAppend(a, b);
    assert ClassifyAll([x]) == [Classify(x)];
  }

  lemma SameAfter(s: seq<Line>, t: seq<Line>, line: Line, isAddr: AddrReader)
    requires Read(s, isAddr) == Read(t, isAddr)
    ensures Read(s + [line], isAddr) == Read(t + [line], isAddr)
  {
    ReadSnoc(s, line, isAddr);
    ReadSnoc(t, line, isAddr);
  }

  lemma InsertedBefore(a: seq<Line>, x: Line, front: seq<Line>, last: Line)
    ensures a + ([x] + (front + [last])) == (a + ([x] + front)) + [last]
    ensures a + (front + [last]) == (a + front) + [last]
  {
  }

  lemma SkipAtEnd(a: seq<Line>, isAddr: AddrReader)
    ensures Read(a + ([Skip] + []), isAddr) == Read(a + [], isAddr)
  {
    ReadSnoc(a, Skip, isAddr);
    assert a + ([Skip] + []) == a + [Skip];
    assert a + [] == a;
  }

  // A blank or comment line anywhere changes nothing, not even the error reported.
  lemma {:induction false} SkipIgnored(a: seq<Line>, b: seq<Line>, isAddr: AddrReader)
    ensures Read(a + ([Skip] + b), isAddr) == Read(a + b, isAddr)
    decreases |b|
  {
    if |b| == 0 {
      assert b == [];
      SkipAtEnd(a, isAddr);
    } else {
      var front, last := b[..|b| - 1], b[|b| - 1];
      assert b == front + [last];
      SkipIgnored(a, front, isAddr);
      SameAfter(a + ([Skip] + front), a + front, last, isAddr);
      InsertedBefore(a, Skip, front, last);
    }
  }

  // The file may begin with the comment, or have any text before it.
  lemma CommentsIgnored(a: string, comment: string, b: string, isAddr: AddrReader)
    requires '\n' !in comment && IsIgnored(Trim(comment))
    ensures Parse(comment + "\n" + b, isAddr) == Parse(b, isAddr)
    ensures Parse(a + "\n" + (comment + "\n" + b), isAddr) == Parse(a + "\n" + b, isAddr)
  {
    CommentClassified(comment, b);
    var rest := ClassifyAll(Lines(b));
    SkipIgnored([], rest, isAddr);
    assert [] + rest == rest && [] + ([Skip] + rest) == [Skip] + rest;
    LinesAppend(a, comment + "\n" + b);
    LinesAppend(a, b);
    ClassifyAppend(Lines(a + "\n"), Lines(comment + "\n" + b));
    ClassifyAppend(Lines(a + "\n"), Lines(b));
    SkipIgnored(ClassifyAll(Lines(a + "\n")), rest, isAddr);
  }

  lemma CommentClassified(comment: string, b: string)
    requires '\n' !in comment && IsIgnored(Trim(comment))
    ensures ClassifyAll(Lines(comment + "\n" + b)) == [Skip] + ClassifyAll(Lines(b))
  {
    LinesCons(comment, b);
    StripCrTrims(comment);
    ClassifyAppend([StripCr(comment)], Lines(b));
    assert ClassifyAll([StripCr(comment)]) == [Skip];
  }

  // A newline after the last line, or its absence, changes nothing.
  lemma FinalNewlineIrrelevant(s: string, isAddr: AddrReader)
    ensures Parse(s + "\n", isAddr) == Parse(s, isAddr)
  {
    var head, last := LastLine(s);
    ClassifySnoc(head, StripCr(last));
    ClassifyStripped(last);
    if last == "" {
      BlankLast(ClassifyAll(head), isAddr);
    } else {
      ClassifySnoc(head, last);
    }
  }

  lemma ClassifySnoc(head: seq<string>, last: string)
    ensures ClassifyAll(head + [last]) == ClassifyAll(head) + [Classify(last)]
  {
    ClassifyAppend(head, [last]);
    assert ClassifyAll([last]) == [Classify(last)];
  }

  lemma ClassifyStripped(line: string)
    ensures Classify(StripCr(line)) == Classify(line)
  {
    StripCrTrims(line);
  }

  lemma BlankLast(lines: seq<Line>, isAddr: AddrReader)
    ensures Read(lines + [Classify("")], isAddr) == Read(lines, isAddr)
  {
    TrimOfTrimmed("");
    ReadSnoc(lines, Skip, isAddr);
  }

  // The first text to offend decides the error.
  lemma EarlierErrorWins(a: string, b: string, isAddr: AddrReader)
    requires Parse(a + "\n", isAddr).Err?
    ensures Parse(a + "\n" + b, isAddr) == Parse(a + "\n", isAddr)
  {
    var s, t := ClassifyAll(Lines(a + "\n")), ClassifyAll(Lines(b));
    LinesAppend(a, b);
    ClassifyAppend(Lines(a + "\n"), Lines(b));
    ReadCorrect(s, isAddr);
    ErrorStays(s, t, isAddr, Read(s, isAddr).error);
    ResultDetermined(s + t, isAddr, Read(s, isAddr));
  }

  // What one more line makes of a file accepted so far: a key that was given before is refused whatever its value;
  // otherwise the value decides.
  lemma OneMoreLine(a: string, line: string, o: Overrides, isAddr: AddrReader)
    requires '\n' !in line && Parse(a + "\n", isAddr) == Ok(o)
    ensures
      var r := Parse(a + "\n" + line, isAddr);
      match Classify(line)
      case Skip => r == Ok(o)
      case Malformed(error) => r == Err(error)
      case Addr(value) =>
        r == (if o.httpListenAddr.Some? then Err(Duplicate("http_listen_addr"))
              else if isAddr(value) then Ok(Overrides(Some(value), o.pluginPaths))
              else Err(InvalidAddr(value)))
      case Paths(raw) =>
        match (o.pluginPaths, PluginPaths.Strict(raw))
        case (Some(_), _) => r == Err(Duplicate("plugin_paths"))
        case (None, Ok(paths)) => r == Ok(Overrides(o.httpListenAddr, Some(paths)))
        case (None, Err(position)) => r == Err(EmptyPathEntry(position))
  {
    var before := ClassifyAll(Lines(a + "\n"));
    if line == "" {
      assert a + "\n" + line == a + "\n";
      TrimOfTrimmed("");
    } else {
      LinesLast(a, line);
      ClassifySnoc(Lines(a + "\n"), line);
      ReadSnoc(before, Classify(line), isAddr);
    }
  }

  lemma StripCrTrims(s: string)
    ensures Trim(StripCr(s)) == Trim(s)
  {
    if StripCr(s) != s {
      var t := StripCr(s);
      var pre, post := TrimSpec(t);
      assert s == t + "\r";
      assert s == pre + Trim(t) + (post + "\r");
      assert forall i :: 0 <= i < |post + "\r"| ==> IsWhitespace((post + "\r")[i]);
      TrimUnique(pre, Trim(t), post + "\r");
    }
  }

  // ------------------------------------------------------------ round trip

  // key = "value", with any blanks around the key and the value.
  function Assignment(pads: (string, string, string, string), key: string, value: string): string {
    pads.0 + key + pads.1 + "=" + pads.2 + ("\"" + value + "\"") + pads.3
  }

  ghost predicate Blanks(pads: (string, string, string, string)) {
    AllWhitespace(pads.0) && AllWhitespace(pads.1) && AllWhitespace(pads.2) && AllWhitespace(pads.3)
  }

  // Values may hold '=', '#', quotes and blanks: only the first '=' and the outermost quotes count.
  lemma ClassifyAssignment(pads: (string, string, string, string), key: string, value: string)
    requires Blanks(pads) && (key == ADDR_KEY || key == PATHS_KEY)
    ensures Classify(Assignment(pads, key, value)) == if key == ADDR_KEY then Addr(value) else Paths(value)
  {
    var quoted := "\"" + value + "\"";
    var line := (key + pads.1) + ['='] + (pads.2 + quoted);
    TrimmedAssignment(pads, key, quoted);
    assert Trim(Assignment(pads, key, value)) == line by {
      assert key + pads.1 + "=" + pads.2 + quoted == line;
    }
    SplitOnceAt(key + pads.1, pads.2 + quoted, '=');
    assert "" + key + pads.1 == key + pads.1;
    TrimUnique("", key, pads.1);
    assert pads.2 + quoted + "" == pads.2 + quoted;
    TrimUnique(pads.2, quoted, "");
    assert ParseValue(quoted) == Ok(value);
    assert line[0] == key[0] && !IsIgnored(line);
  }

  lemma TrimmedAssignment(pads: (string, string, string, string), key: string, quoted: string)
    requires Blanks(pads) && (key == ADDR_KEY || key == PATHS_KEY)
    requires |quoted| >= 2 && quoted[|quoted| - 1] == '"'
    ensures Trim(pads.0 + key + pads.1 + "=" + pads.2 + quoted + pads.3)
         == (key + pads.1) + ['='] + (pads.2 + quoted)
    ensures '=' !in key + pads.1
  {
    var line := (key + pads.1) + ['='] + (pads.2 + quoted);
    assert pads.0 + key + pads.1 + "=" + pads.2 + quoted + pads.3 == pads.0 + line + pads.3;
    assert line[0] == key[0] && line[|line| - 1] == '"';
    TrimUnique(pads.0, line, pads.3);
    assert !IsWhitespace('=');
  }

  // The line that assigns value to key; the parser knows two keys.
  function Assigns(key: string, value: string): Line
    requires key == ADDR_KEY || key == PATHS_KEY
  {
    if key == ADDR_KEY then Addr(value) else Paths(value)
  }

  lemma AssignmentRead(raw: string, key: string, value: string) returns (pads: (string, string, string, string))
    requires (key == ADDR_KEY || key == PATHS_KEY) && Classify(raw) == Assigns(key, value)
    ensures Blanks(pads) && raw == Assignment(pads, key, value)
  {
    var line := Trim(raw);
    var parts := SplitOnce(line, '=').value;
    var quoted := "\"" + value + "\"";
    QuotedInside(Trim(parts.1), value);
    var pre, post := TrimSpec(raw);
    var p0, p1 := TrimSpec(parts.0);
    var p2, p3 := TrimSpec(parts.1);
    pads := (pre + p0, p1, p2, p3 + post);
    AppendBlank(pre, p0);
    AppendBlank(p3, post);
    assert parts.0 == p0 + key + p1 && parts.1 == p2 + quoted + p3;
    assert raw == pre + ((p0 + key + p1) + "=" + (p2 + quoted + p3)) + post;
    Regroup(pre, p0, key, p1, p2, quoted, p3, post);
  }

  lemma QuotedInside(quoted: string, value: string)
    requires ParseValue(quoted) == Ok(value)
    ensures quoted == "\"" + value + "\""
  {
    var inside :| quoted == "\"" + inside + "\"";
    assert ParseValue(quoted) == Ok(inside);
  }

  lemma AppendBlank(a: string, b: string)
    requires AllWhitespace(a) && AllWhitespace(b)
    ensures AllWhitespace(a + b)
  {
  }

  lemma Regroup(a: string, b: string, c: string, d: string, e: string, f: string, g: string, h: string)
    ensures a + ((b + c + d) + "=" + (e + f + g)) + h == (a + b) + c + d + "=" + e + f + (g + h)
  {
  }

  // The grammar of the file: a line assigns value to a known key exactly when it is that assignment with blanks
  // around key and value; it is skipped exactly when it is blank or its first visible character is '#'.
  lemma AssignmentGrammar(raw: string, key: string, value: string)
    requires key == ADDR_KEY || key == PATHS_KEY
    ensures Classify(raw) == Assigns(key, value) <==> exists pads :: Blanks(pads) && raw == Assignment(pads, key, value)
  {
    if Classify(raw) == Assigns(key, value) {
      var pads := AssignmentRead(raw, key, value);
    }
    forall pads | Blanks(pads) && raw == Assignment(pads, key, value) ensures Classify(raw) == Assigns(key, value) {
      ClassifyAssignment(pads, key, value);
    }
  }

  lemma SkipGrammar(raw: string)
    ensures Classify(raw) == Skip
       <==> AllWhitespace(raw) || exists pre, rest :: AllWhitespace(pre) && raw == pre + ("#" + rest)
  {
    var pre, post := TrimSpec(raw);
    var line := Trim(raw);
    BlankTrimsToEmpty(raw);
    if line != "" && line[0] == '#' {
      assert raw == pre + ("#" + (line[1..] + post));
    }
    forall pre, rest | AllWhitespace(pre) && raw == pre + ("#" + rest) ensures Classify(raw) == Skip {
      CommentTrimmed(pre, rest);
    }
  }

  // A refused line, and why: no '=', else a value without quotes, else an unknown key.
  lemma MalformedGrammar(raw: string, error: ConfigError)
    ensures Classify(raw) == Malformed(error) <==>
              && !AllWhitespace(raw) && !("#" <= Trim(raw))
              && match error
                 case InvalidLine(line) => line == Trim(raw) && '=' !in raw
                 case UnquotedValue(input) =>
                   && (forall value :: input != "\"" + value + "\"")
                   && exists key, rest :: '=' !in key && Trim(raw) == key + "=" + rest && input == Trim(rest)
                 case UnknownKey(name) =>
                   && name != "http_listen_addr" && name != "plugin_paths"
                   && exists key, rest, value :: '=' !in key && Trim(raw) == key + "=" + rest && name == Trim(key) &&
                                                 Trim(rest) == "\"" + value + "\""
                 case _ => false
  {
    var line := Trim(raw);
    BlankTrimsToEmpty(raw);
    TrimmedKeeps(raw, '=');
    assert "#" <= line <==> line != "" && line[0] == '#';
    forall key, rest | '=' !in key && line == key + "=" + rest ensures SplitOnce(line, '=') == Some((key, rest)) {
      SplitOnceAt(key, rest, '=');
    }
    var split := SplitOnce(line, '=');
    if split.Some? {
      assert line == split.value.0 + "=" + split.value.1;
      var quoted := Trim(split.value.1);
      if ParseValue(quoted).Ok? {
        QuotedInside(quoted, ParseValue(quoted).value);
      }
    }
  }

  lemma TrimmedKeeps(s: string, c: char)
    requires !IsWhitespace(c)
    ensures c in Trim(s) <==> c in s
  {
    var pre, post := TrimSpec(s);
    assert c !in pre && c !in post;
    assert forall d :: d in pre + Trim(s) + post <==> d in pre || d in Trim(s) || d in post;
  }

  // The known keys.
  lemma KnownKeys(value: string)
    ensures Classify("http_listen_addr" + "=" + ("\"" + value + "\"")) == Addr(value)
    ensures Classify("plugin_paths" + "=" + ("\"" + value + "\"")) == Paths(value)
  {
    PlainAssignment(ADDR_KEY, value);
    PlainAssignment(PATHS_KEY, value);
  }

  lemma PlainAssignment(key: string, value: string)
    requires key == ADDR_KEY || key == PATHS_KEY
    ensures Classify(key + "=" + ("\"" + value + "\"")) == Assigns(key, value)
  {
    ClassifyAssignment(("", "", "", ""), key, value);
    WithoutBlanks(key, "\"" + value + "\"");
  }

  lemma WithoutBlanks(key: string, quoted: string)
    ensures "" + key + "" + "=" + "" + quoted + "" == key + "=" + quoted
  {
    assert "" + key + "" == key;
    assert key + "=" + "" == key + "=";
  }

  lemma CommentTrimmed(pre: string, rest: string)
    requires AllWhitespace(pre)
    ensures IsIgnored(Trim(pre + ("#" + rest)))
  {
    var lead, post := TrimSpec("#" + rest);
    var mid := Trim("#" + rest);
    assert (lead + mid + post)[0] == '#' && !IsWhitespace('#');
    assert lead == "";
    AppendBlank(pre, lead);
    assert pre + ("#" + rest) == pre + mid + post;
    TrimUnique(pre, mid, post);
    if mid != "" {
      assert mid[0] == ("#" + rest)[0];
    }
  }

  function RenderLine(key: string, value: string): string {
    Assignment(("", " ", " ", ""), key, value)
  }

  function Render(o: Overrides): string {
    (match o.httpListenAddr case None => "" case Some(addr) => RenderLine(ADDR_KEY, addr) + "\n") +
    (match o.pluginPaths case None => "" case Some(paths) => RenderLine(PATHS_KEY, Join(paths, ';')) + "\n")
  }

  ghost predicate Renderable(o: Overrides, isAddr: AddrReader) {
    && (o.httpListenAddr.Some? ==> isAddr(o.httpListenAddr.value) && '\n' !in o.httpListenAddr.value)
    && (o.pluginPaths.Some? ==>
          forall path :: path in o.pluginPaths.value ==> PluginPaths.CleanPath(path) && '\n' !in path)
  }

  lemma {:induction false} JoinWithoutNewline(paths: seq<string>)
    requires forall path :: path in paths ==> '\n' !in path
    ensures '\n' !in Join(paths, ';')
  {
    if paths == [] {
    } else {
      assert paths[0] in paths;
      JoinWithoutNewline(paths[1..]);
    }
  }

  lemma RenderedLine(key: string, value: string, rest: string)
    requires (key == ADDR_KEY || key == PATHS_KEY) && '\n' !in value
    ensures ClassifyAll(Lines(RenderLine(key, value) + "\n" + rest))
         == [if key == ADDR_KEY then Addr(value) else Paths(value)] + ClassifyAll(Lines(rest))
  {
    var line := RenderLine(key, value);
    RenderLineShape(key, value);
    LinesCons(line, rest);
    ClassifyAssignment(("", " ", " ", ""), key, value);
    ClassifyAppend([line], Lines(rest));
    assert ClassifyAll([line]) == [Classify(line)];
  }

  lemma RenderLineShape(key: string, value: string)
    requires (key == ADDR_KEY || key == PATHS_KEY) && '\n' !in value
    ensures '\n' !in RenderLine(key, value) && StripCr(RenderLine(key, value)) == RenderLine(key, value)
  {
    var front := "" + key + " " + "=" + " " + "\"" + value;
    assert RenderLine(key, value) == front + "\"";
  }

  function RenderedLines(o: Overrides): seq<Line> {
    (match o.httpListenAddr case None => [] case Some(addr) => [Addr(addr)]) +
    (match o.pluginPaths case None => [] case Some(paths) => [Paths(Join(paths, ';'))])
  }

  lemma ClassifyRendered(o: Overrides, isAddr: AddrReader)
    requires Renderable(o, isAddr)
    ensures ClassifyAll(Lines(Render(o))) == RenderedLines(o)
  {
    var paths := Render(o.(httpListenAddr := None));
    assert ClassifyAll(Lines("")) == [];
    if o.pluginPaths.Some? {
      JoinWithoutNewline(o.pluginPaths.value);
      RenderedLine(PATHS_KEY, Join(o.pluginPaths.value, ';'), "");
      assert paths == RenderLine(PATHS_KEY, Join(o.pluginPaths.value, ';')) + "\n" + "";
    } else {
      assert paths == "";
    }
    if o.httpListenAddr.Some? {
      RenderedLine(ADDR_KEY, o.httpListenAddr.value, paths);
      assert Render(o) == RenderLine(ADDR_KEY, o.httpListenAddr.value) + "\n" + paths;
    } else {
      assert Render(o) == paths;
    }
  }

  // Reading rendered overrides gives them back.
  lemma RenderThenParse(o: Overrides, isAddr: AddrReader)
    requires Renderable(o, isAddr)
    ensures Parse(Render(o), isAddr) == Ok(o)
  {
    ClassifyRendered(o, isAddr);
    if o.pluginPaths.Some? {
      PluginPaths.StrictInvertsJoin(o.pluginPaths.value);
    }
    RenderedLinesAccepted(o, isAddr);
    ResultDetermined(RenderedLines(o), isAddr, Ok(o));
  }

  lemma RenderedLinesAccepted(o: Overrides, isAddr: AddrReader)
    requires o.httpListenAddr.Some? ==> isAddr(o.httpListenAddr.value)
    requires o.pluginPaths.Some? ==> PluginPaths.Strict(Join(o.pluginPaths.value, ';')) == Ok(o.pluginPaths.value)
    ensures Accepted(RenderedLines(o), isAddr) && ReadsAs(RenderedLines(o), o)
  {
    var none := Overrides(None, None);
    assert Accepted([], isAddr) && ReadsAs([], none);
    var addr := RenderedLines(o.(pluginPaths := None));
    var withAddr := none.(httpListenAddr := o.httpListenAddr);
    if o.httpListenAddr.Some? {
      AddRendered([], none, Addr(o.httpListenAddr.value), isAddr);
      assert addr == [] + [Addr(o.httpListenAddr.value)];
    }
    assert Accepted(addr, isAddr) && ReadsAs(addr, withAddr);
    if o.pluginPaths.Some? {
      AddRendered(addr, withAddr, Paths(Join(o.pluginPaths.value, ';')), isAddr);
      assert RenderedLines(o) == addr + [Paths(Join(o.pluginPaths.value, ';'))];
    } else {
      assert RenderedLines(o) == addr;
    }
  }

  lemma AddRendered(before: seq<Line>, o: Overrides, line: Line, isAddr: AddrReader)
    requires Accepted(before, isAddr) && ReadsAs(before, o) && Next(o, line, isAddr).Ok?
    ensures Accepted(before + [line], isAddr) && ReadsAs(before + [line], Next(o, line, isAddr).value)
  {
    NextOrOffence(before, line, isAddr, o);
    AppendAccepted(before, line, isAddr);
    AppendReads(before, line, isAddr, o);
  }
}
