/** The strict key/value config file. */
module RuntimeConfig {
  import opened Prelude
  import opened Text
  import PluginPaths

  const ADDR_KEY := "http_listen_addr"
  const PATHS_KEY := "plugin_paths"

  datatype Overrides = Overrides(httpListenAddr: Option<string>, pluginPaths: Option<seq<string>>)

  datatype ConfigError =
    | InvalidLine(line: string)
    | UnquotedValue(input: string)
    | Duplicate(key: string)
    | InvalidAddr(value: string)
    | EmptyPathEntry(position: nat)
    | UnknownKey(key: string)

  // What one line says, before any other line is considered.
  datatype Line =
    | Skip
    | Addr(value: string)
    | Paths(raw: string)
    | Malformed(error: ConfigError)

  // Whether text is a socket address; the reader itself belongs to the standard library.
  type AddrReader = string -> bool

  // The inside of a double-quoted value; a lone quote is not a quoted value.
  function ParseValue(input: string): (r: Result<string, ConfigError>)
    ensures r.Ok? <==> exists value :: input == "\"" + value + "\""
    ensures forall value :: input == "\"" + value + "\"" ==> r == Ok(value)
  {
    if |input| >= 2 && input[0] == '"' && input[|input| - 1] == '"' then
      var value := input[1..|input| - 1];
      assert input == "\"" + value + "\"";
      Ok(value)
    else Err(UnquotedValue(input))
  }

  // A trimmed line that is blank or a comment.
  predicate IsIgnored(line: string) {
    line == "" || line[0] == '#'
  }

  function Classify(rawLine: string): Line {
    var line := Trim(rawLine);
    if IsIgnored(line) then Skip
    else
      match SplitOnce(line, '=')
      case None => Malformed(InvalidLine(line))
      case Some(parts) =>
        match ParseValue(Trim(parts.1))
        case Err(error) => Malformed(error)
        case Ok(value) =>
          var key := Trim(parts.0);
          if key == ADDR_KEY then Addr(value)
          else if key == PATHS_KEY then Paths(value)
          else Malformed(UnknownKey(key))
  }

  function ClassifyAll(rawLines: seq<string>): (lines: seq<Line>)
    ensures |lines| == |rawLines|
  {
    seq(|rawLines|, i requires 0 <= i < |rawLines| => Classify(rawLines[i]))
  }

  predicate WellFormed(line: Line, isAddr: AddrReader) {
    match line
    case Skip => true
    case Addr(value) => isAddr(value)
    case Paths(raw) => PluginPaths.Strict(raw).Ok?
    case Malformed(_) => false
  }

  function Addrs(lines: seq<Line>): seq<Line> {
    Filter(lines, (line: Line) => line.Addr?)
  }

  function PathLists(lines: seq<Line>): seq<Line> {
    Filter(lines, (line: Line) => line.Paths?)
  }

  // Every line is well formed and no key occurs twice.
  predicate Accepted(lines: seq<Line>, isAddr: AddrReader) {
    && (forall i :: 0 <= i < |lines| ==> WellFormed(lines[i], isAddr))
    && |Addrs(lines)| <= 1
    && |PathLists(lines)| <= 1
  }

  // o takes its values from the lines: absent where no line has the key.
  ghost predicate ReadsAs(lines: seq<Line>, o: Overrides) {
    && (o.httpListenAddr.None? <==> forall line :: line in lines ==> !line.Addr?)
    && (o.pluginPaths.None? <==> forall line :: line in lines ==> !line.Paths?)
    && (forall line :: line in lines && line.Addr? ==> o.httpListenAddr == Some(line.value))
    && (forall line :: line in lines && line.Paths? ==>
          PluginPaths.Strict(line.raw).Ok? && o.pluginPaths == Some(PluginPaths.Strict(line.raw).value))
  }

  // What is wrong with a line that follows accepted lines, if anything: a repeated key before a bad value.
  function Offence(before: seq<Line>, line: Line, isAddr: AddrReader): Option<ConfigError> {
    match line
    case Skip => None
    case Malformed(error) => Some(error)
    case Addr(value) =>
      if Addrs(before) != [] then Some(Duplicate(ADDR_KEY))
      else if !isAddr(value) then Some(InvalidAddr(value))
      else None
    case Paths(raw) =>
      if PathLists(before) != [] then Some(Duplicate(PATHS_KEY))
      else
        match PluginPaths.Strict(raw)
        case Ok(_) => None
        case Err(position) => Some(EmptyPathEntry(position))
  }

  // The effect of one more line on the overrides read so far.
  function Next(o: Overrides, line: Line, isAddr: AddrReader): Result<Overrides, ConfigError> {
    match line
    case Skip => Ok(o)
    case Malformed(error) => Err(error)
    case Addr(value) =>
      if o.httpListenAddr.Some? then Err(Duplicate(ADDR_KEY))
      else if !isAddr(value) then Err(InvalidAddr(value))
      else Ok(o.(httpListenAddr := Some(value)))
    case Paths(raw) =>
      if o.pluginPaths.Some? then Err(Duplicate(PATHS_KEY))
      else
        match PluginPaths.Strict(raw)
        case Ok(paths) => Ok(o.(pluginPaths := Some(paths)))
        case Err(position) => Err(EmptyPathEntry(position))
  }

  // Line i is the first to offend, with error.
  ghost predicate OffendsFirst(lines: seq<Line>, isAddr: AddrReader, i: int, error: ConfigError) {
    && 0 <= i < |lines|
    && Accepted(lines[..i], isAddr)
    && Offence(lines[..i], lines[i], isAddr) == Some(error)
  }

  // r is what reading the lines gives: their overrides, or the offence of the first offending line.
  ghost predicate ParseResult(lines: seq<Line>, isAddr: AddrReader, r: Result<Overrides, ConfigError>) {
    match r
    case Ok(o) => Accepted(lines, isAddr) && ReadsAs(lines, o)
    case Err(error) =>
      exists i :: OffendsFirst(lines, isAddr, i, error)
  }

  // The body of the loop over the lines.
  method ParseLine(rawLine: string, overrides: Overrides, isAddr: AddrReader)
    returns (r: Result<Overrides, ConfigError>)
    ensures r == Next(overrides, Classify(rawLine), isAddr)
  {
    var line := Trim(rawLine);
    if IsIgnored(line) {
      return Ok(overrides);
    }
    var parts := SplitOnce(line, '=');
    if parts.None? {
      return Err(InvalidLine(line));
    }
    var key := Trim(parts.value.0);
    var value := ParseValue(Trim(parts.value.1));
    if value.Err? {
      return Err(value.error);
    }
    if key == ADDR_KEY {
      if overrides.httpListenAddr.Some? {
        return Err(Duplicate(ADDR_KEY));
      }
      if !isAddr(value.value) {
        return Err(InvalidAddr(value.value));
      }
      return Ok(overrides.(httpListenAddr := Some(value.value)));
    } else if key == PATHS_KEY {
      if overrides.pluginPaths.Some? {
        return Err(Duplicate(PATHS_KEY));
      }
      var paths := PluginPaths.ParseStrict(value.value);
      if paths.Err? {
        return Err(EmptyPathEntry(paths.error));
      }
      return Ok(overrides.(pluginPaths := Some(paths.value)));
    } else {
      return Err(UnknownKey(key));
    }
  }

  method ParseConfigFile(content: string, isAddr: AddrReader) returns (r: Result<Overrides, ConfigError>)
    ensures ParseResult(ClassifyAll(Lines(content)), isAddr, r)
  {
    var rawLines := Lines(content);
    ghost var lines := ClassifyAll(rawLines);
    var overrides := Overrides(None, None);
    for i := 0 to |rawLines|
      invariant Accepted(lines[..i], isAddr) && ReadsAs(lines[..i], overrides)
    {
      LineDecides(lines, i, isAddr, overrides);
      assert lines[i] == Classify(rawLines[i]);
      var next := ParseLine(rawLines[i], overrides, isAddr);
      if next.Err? {
        return Err(next.error);
      }
      overrides := next.value;
    }
    assert lines[..|lines|] == lines;
    return Ok(overrides);
  }

  // After accepted lines, one more either keeps them accepted and adds its value, or is the first to offend.
  lemma LineDecides(lines: seq<Line>, i: nat, isAddr: AddrReader, o: Overrides)
    requires i < |lines| && Accepted(lines[..i], isAddr) && ReadsAs(lines[..i], o)
    ensures
      var next := Next(o, lines[i], isAddr);
      if next.Ok? then Accepted(lines[..i + 1], isAddr) && ReadsAs(lines[..i + 1], next.value)
      else ParseResult(lines, isAddr, next)
  {
    var before, line := lines[..i], lines[i];
    assert lines[..i + 1] == before + [line];
    AppendAccepted(before, line, isAddr);
    NextOrOffence(before, line, isAddr, o);
    if Next(o, line, isAddr).Ok? {
      AppendReads(before, line, isAddr, o);
    } else {
      assert OffendsFirst(lines, isAddr, i, Next(o, line, isAddr).error);
    }
  }

  lemma NextOrOffence(before: seq<Line>, line: Line, isAddr: AddrReader, o: Overrides)
    requires ReadsAs(before, o)
    ensures Offence(before, line, isAddr)
         == if Next(o, line, isAddr).Ok? then None else Some(Next(o, line, isAddr).error)
  {
    AddrsMembers(before);
  }

  lemma AppendAccepted(before: seq<Line>, line: Line, isAddr: AddrReader)
    requires Accepted(before, isAddr)
    ensures Accepted(before + [line], isAddr) <==> Offence(before, line, isAddr).None?
  {
    var lines := before + [line];
    FilterInsert(before, line, [], (l: Line) => l.Addr?);
    FilterInsert(before, line, [], (l: Line) => l.Paths?);
    assert [line] + [] == [line] && before + [] == before;
    assert lines[|before|] == line;
    assert forall i :: 0 <= i < |before| ==> lines[i] == before[i];
  }

  lemma AppendReads(before: seq<Line>, line: Line, isAddr: AddrReader, o: Overrides)
    requires ReadsAs(before, o) && Next(o, line, isAddr).Ok?
    ensures ReadsAs(before + [line], Next(o, line, isAddr).value)
  {
    var lines := before + [line];
    assert forall l :: l in lines <==> l in before || l == line;
  }

  lemma AddrsMembers(lines: seq<Line>)
    ensures Addrs(lines) == [] <==> forall line :: line in lines ==> !line.Addr?
    ensures PathLists(lines) == [] <==> forall line :: line in lines ==> !line.Paths?
  {
    forall line ensures line in Addrs(lines) <==> line in lines && line.Addr? {
      FilterMember(lines, (l: Line) => l.Addr?, line);
    }
    forall line ensures line in PathLists(lines) <==> line in lines && line.Paths? {
      FilterMember(lines, (l: Line) => l.Paths?, line);
    }
    if Addrs(lines) != [] {
      assert Addrs(lines)[0] in Addrs(lines);
    }
    if PathLists(lines) != [] {
      assert PathLists(lines)[0] in PathLists(lines);
    }
  }
}
