/** `SemVer::from_string`: three dotted components, read lazily; None stands for the panic of `unwrap`. */
module Versions {
  import opened Prelude
  import opened Text
  import opened Decimal

  datatype SemVer = SemVer(major: u8, minor: u8, patch: u8)

  const MAX_COMPONENT: nat := 0xFF

  function Component(parts: seq<string>, i: nat): Option<nat> {
    if i < |parts| then ParseUnsigned(parts[i], MAX_COMPONENT) else None
  }

  function FromString(input: string): Option<SemVer> {
    var parts := Split(input, '.');
    match (Component(parts, 0), Component(parts, 1), Component(parts, 2))
    case (Some(major), Some(minor), Some(patch)) => Some(SemVer(major, minor, patch))
    case _ => None
  }

  function Show(v: SemVer): string {
    Print(v.major) + "." + Print(v.minor) + "." + Print(v.patch)
  }

  // The text of v with signs and leading zeros in its components.
  function PaddedShow(v: SemVer, a: Padding, b: Padding, c: Padding): string {
    Padded(v.major, a) + "." + Padded(v.minor, b) + "." + Padded(v.patch, c)
  }

  lemma PaddedShowParses(v: SemVer, a: Padding, b: Padding, c: Padding)
    ensures FromString(PaddedShow(v, a, b, c)) == Some(v) && |Split(PaddedShow(v, a, b, c), '.')| == 3
  {
    var parts := [Padded(v.major, a), Padded(v.minor, b), Padded(v.patch, c)];
    PaddedLacks(v.major, a, '.');
    PaddedLacks(v.minor, b, '.');
    PaddedLacks(v.patch, c, '.');
    JoinOfThree(parts[0], parts[1], parts[2]);
    assert PaddedShow(v, a, b, c) == Join(parts, '.');
    SplitJoin(parts, '.');
    PaddedPrintAccepted(v.major, a, MAX_COMPONENT);
    PaddedPrintAccepted(v.minor, b, MAX_COMPONENT);
    PaddedPrintAccepted(v.patch, c, MAX_COMPONENT);
  }

  lemma JoinOfThree(a: string, b: string, c: string)
    ensures Join([a, b, c], '.') == a + "." + b + "." + c
  {
    JoinAppend([a], [b], '.');
    JoinAppend([a, b], [c], '.');
    assert [a] + [b] == [a, b] && [a, b] + [c] == [a, b, c];
  }

  lemma ShowThenParse(v: SemVer)
    ensures FromString(Show(v)) == Some(v)
  {
    var none := Padding(false, 0);
    PaddedShowParses(v, none, none, none);
    assert Padded(v.major, none) == Print(v.major);
    assert Padded(v.minor, none) == Print(v.minor);
    assert Padded(v.patch, none) == Print(v.patch);
  }

  // Whatever follows the third component, even text that is no number, is never looked at.
  lemma {:induction false} RestIsIgnored(input: string, rest: string)
    requires |Split(input, '.')| >= 3
    ensures FromString(input + "." + rest) == FromString(input)
  {
    SplitAppend(input, rest, '.');
  }

  // input is the text of v, perhaps with more components.
  predicate StartsWith(input: string, v: SemVer, a: Padding, b: Padding, c: Padding) {
    PaddedShow(v, a, b, c) == input || PaddedShow(v, a, b, c) + "." <= input
  }

  lemma AcceptedStarts(input: string) returns (a: Padding, b: Padding, c: Padding)
    requires FromString(input).Some?
    ensures StartsWith(input, FromString(input).value, a, b, c)
  {
    var parts := Split(input, '.');
    a := AcceptedIsPaddedPrint(parts[0], MAX_COMPONENT);
    b := AcceptedIsPaddedPrint(parts[1], MAX_COMPONENT);
    c := AcceptedIsPaddedPrint(parts[2], MAX_COMPONENT);
    FirstThree(input);
  }

  lemma FirstThree(input: string)
    requires |Split(input, '.')| >= 3
    ensures
      var parts := Split(input, '.');
      var first := parts[0] + "." + parts[1] + "." + parts[2];
      input == first || first + "." <= input
  {
    var parts := Split(input, '.');
    JoinSplit(input, '.');
    JoinOfThree(parts[0], parts[1], parts[2]);
    assert parts[..3] == [parts[0], parts[1], parts[2]];
    if |parts| == 3 {
      assert parts[..3] == parts;
    } else {
      assert parts[..3] + parts[3..] == parts;
      JoinAppend(parts[..3], parts[3..], '.');
    }
  }

  lemma StartsAccepted(input: string, v: SemVer, a: Padding, b: Padding, c: Padding)
    requires StartsWith(input, v, a, b, c)
    ensures FromString(input) == Some(v)
  {
    var shown := PaddedShow(v, a, b, c);
    PaddedShowParses(v, a, b, c);
    if input != shown {
      var rest := input[|shown| + 1..];
      assert input == shown + "." + rest;
      RestIsIgnored(shown, rest);
    }
  }

  // A text reads as v exactly when its first three components are v's numbers, up to signs and leading zeros;
  // any other text panics.
  lemma AcceptedVersions(input: string, v: SemVer)
    ensures FromString(input) == Some(v) <==> exists a, b, c :: StartsWith(input, v, a, b, c)
  {
    if FromString(input) == Some(v) {
      var a, b, c := AcceptedStarts(input);
    }
    forall a, b, c | StartsWith(input, v, a, b, c) ensures FromString(input) == Some(v) {
      StartsAccepted(input, v, a, b, c);
    }
  }
}
