/** The formatting half of the Go tool (main.go): `formatVersion`, which
    fills a format string with the parts of a version and tidies the
    separators, and `convertTimeFormat`, which turns a human-readable
    timestamp pattern into a Go time layout. */
module VersionFormat {
  import opened Wrappers
  import opened GoStrings

  /** `VersionInfo`: every part is kept as text. */
  datatype VersionInfo = VersionInfo(
    Major: string, Minor: string, Patch: string,
    Prerelease: string, Commits: string, Timestamp: string, Metadata: string)

  /** What `{version+}` stands for. */
  const FullVersion: string := "{version}-{prerelease}-{commits}-{timestamp}+{metadata}"

  /** What `{version}` stands for. */
  function BaseVersion(info: VersionInfo): string
  {
    info.Major + "." + info.Minor + "." + info.Patch
  }

  /** The format after `{version+}` is expanded and every placeholder is
      replaced, in the order the tool replaces them. */
  function Substituted(info: VersionInfo, format: string): (r: string)
    ensures '{' !in format ==> r == format
  {
    ReplaceAllUntouched(format, "{version+}", FullVersion);
    Placeholders(info, ReplaceAll(format, "{version+}", FullVersion))
  }

  /** The eight placeholder replacements, in the order the tool makes
      them. */
  function Placeholders(info: VersionInfo, text: string): (r: string)
    ensures '{' !in text ==> r == text
  {
    ReplaceAllUntouched(text, "{major}", info.Major);
    ReplaceAllUntouched(text, "{minor}", info.Minor);
    ReplaceAllUntouched(text, "{patch}", info.Patch);
    ReplaceAllUntouched(text, "{version}", BaseVersion(info));
    ReplaceAllUntouched(text, "{prerelease}", info.Prerelease);
    ReplaceAllUntouched(text, "{commits}", info.Commits);
    ReplaceAllUntouched(text, "{timestamp}", info.Timestamp);
    ReplaceAllUntouched(text, "{metadata}", info.Metadata);
    var r := ReplaceAll(text, "{major}", info.Major);
    var r := ReplaceAll(r, "{minor}", info.Minor);
    var r := ReplaceAll(r, "{patch}", info.Patch);
    var r := ReplaceAll(r, "{version}", BaseVersion(info));
    var r := ReplaceAll(r, "{prerelease}", info.Prerelease);
    var r := ReplaceAll(r, "{commits}", info.Commits);
    var r := ReplaceAll(r, "{timestamp}", info.Timestamp);
    ReplaceAll(r, "{metadata}", info.Metadata)
  }

  predicate IsSeparator(c: char) { c == '-' || c == '+' }

  /** No two separators stand side by side. */
  predicate NoAdjacentSeparators(s: string)
  {
    forall i :: 0 <= i < |s| - 1 ==> !(IsSeparator(s[i]) && IsSeparator(s[i + 1]))
  }

  predicate NoTrailingSeparator(s: string)
  {
    |s| > 0 ==> !IsSeparator(s[|s| - 1])
  }

  /** One pass of the clean-up loop. */
  function CollapsePass(s: string): string
  {
    var r := ReplaceAll(s, "--", "-");
    var r := ReplaceAll(r, "++", "+");
    var r := ReplaceAll(r, "-+", "+");
    ReplaceAll(r, "+-", "-")
  }

  /** A pass never lengthens the text, and a pass that changes it
      shortens it: this is why the clean-up loop stops. */
  lemma CollapsePassShrinks(s: string)
    ensures |CollapsePass(s)| <= |s|
    ensures CollapsePass(s) != s ==> |CollapsePass(s)| < |s|
  {
    var r1 := ReplaceAll(s, "--", "-");
    var r2 := ReplaceAll(r1, "++", "+");
    var r3 := ReplaceAll(r2, "-+", "+");
    var r4 := ReplaceAll(r3, "+-", "-");
    ReplaceAllShrinks(s, "--", "-");
    ReplaceAllShrinks(r1, "++", "+");
    ReplaceAllShrinks(r2, "-+", "+");
    ReplaceAllShrinks(r3, "+-", "-");
    if |r4| == |s| {
      ReplaceAllAbsent(s, "--", "-");
      ReplaceAllAbsent(r1, "++", "+");
      ReplaceAllAbsent(r2, "-+", "+");
      ReplaceAllAbsent(r3, "+-", "-");
    }
  }

  /** A text that a pass leaves alone has no two adjacent separators. */
  lemma FixpointHasNoAdjacentSeparators(s: string)
    requires CollapsePass(s) == s
    ensures NoAdjacentSeparators(s)
  {
    var r1 := ReplaceAll(s, "--", "-");
    var r2 := ReplaceAll(r1, "++", "+");
    var r3 := ReplaceAll(r2, "-+", "+");
    ReplaceAllShrinks(s, "--", "-");
    ReplaceAllShrinks(r1, "++", "+");
    ReplaceAllShrinks(r2, "-+", "+");
    ReplaceAllShrinks(r3, "+-", "-");
    assert !Occurs(s, "--");
    ReplaceAllAbsent(s, "--", "-");
    assert !Occurs(s, "++");
    ReplaceAllAbsent(s, "++", "+");
    assert !Occurs(s, "-+");
    ReplaceAllAbsent(s, "-+", "+");
    assert !Occurs(s, "+-");
    forall i | 0 <= i < |s| - 1
      ensures !(IsSeparator(s[i]) && IsSeparator(s[i + 1]))
    {
      if IsSeparator(s[i]) && IsSeparator(s[i + 1]) {
        assert s[i..i + 2] == [s[i], s[i + 1]];
        assert OccursAt(s, [s[i], s[i + 1]], i);
      }
    }
  }

  /** The clean-up loop as a recursive function: passes until nothing
      changes. */
  function Cleanup(s: string): (r: string)
    ensures CollapsePass(r) == r
    decreases |s|
  {
    var next := CollapsePass(s);
    if next == s then s
    else
      CollapsePassShrinks(s);
      Cleanup(next)
  }

  /** The reference meaning of the clean-up: every run of separators
      shrinks to its last character. */
  function Squeeze(s: string): string
    decreases |s|
  {
    if |s| == 0 then ""
    else if IsSeparator(s[0]) && |s| > 1 && IsSeparator(s[1]) then Squeeze(s[1..])
    else [s[0]] + Squeeze(s[1..])
  }

  predicate StartsWithSeparator(s: string) { |s| > 0 && IsSeparator(s[0]) }

  lemma SqueezeCons(c: char, t: string)
    ensures Squeeze([c] + t) == if IsSeparator(c) && StartsWithSeparator(t) then Squeeze(t) else [c] + Squeeze(t)
  {
    assert ([c] + t)[1..] == t;
  }

  /** Replacing a pair of separators by its second one does not change
      what the text squeezes to. */
  lemma {:induction false} SqueezeReplacePair(s: string, x: char, y: char)
    requires IsSeparator(x) && IsSeparator(y)
    ensures Squeeze(ReplaceAll(s, [x, y], [y])) == Squeeze(s)
    ensures StartsWithSeparator(ReplaceAll(s, [x, y], [y])) == StartsWithSeparator(s)
    decreases |s|
  {
    if |s| >= 2 {
      var r := ReplaceAll(s, [x, y], [y]);
      if HasPrefix(s, [x, y]) {
        var t := s[2..];
        var rt := ReplaceAll(t, [x, y], [y]);
        SqueezeReplacePair(t, x, y);
        assert r == [y] + rt;
        assert s == [x] + ([y] + t);
        SqueezeCons(y, rt);
        SqueezeCons(y, t);
        SqueezeCons(x, [y] + t);
      } else {
        var rt := ReplaceAll(s[1..], [x, y], [y]);
        SqueezeReplacePair(s[1..], x, y);
        assert r == [s[0]] + rt;
        assert [s[0]] + s[1..] == s;
        SqueezeCons(s[0], rt);
        SqueezeCons(s[0], s[1..]);
      }
    }
  }

  lemma SqueezePass(s: string)
    ensures Squeeze(CollapsePass(s)) == Squeeze(s)
  {
    var r1 := ReplaceAll(s, "--", "-");
    var r2 := ReplaceAll(r1, "++", "+");
    var r3 := ReplaceAll(r2, "-+", "+");
    SqueezeReplacePair(s, '-', '-');
    SqueezeReplacePair(r1, '+', '+');
    SqueezeReplacePair(r2, '-', '+');
    SqueezeReplacePair(r3, '+', '-');
  }

  lemma {:induction false} SqueezeIdentity(s: string)
    requires NoAdjacentSeparators(s)
    ensures Squeeze(s) == s
    decreases |s|
  {
    if |s| > 0 {
      SqueezeIdentity(s[1..]);
      assert [s[0]] + s[1..] == s;
    }
  }

  /** The clean-up loop collapses every run of separators to its last
      character, and nothing else. */
  lemma {:induction false} CleanupSqueezes(s: string)
    ensures Cleanup(s) == Squeeze(s)
    decreases |s|
  {
    var next := CollapsePass(s);
    if next == s {
      FixpointHasNoAdjacentSeparators(s);
      SqueezeIdentity(s);
    } else {
      CollapsePassShrinks(s);
      CleanupSqueezes(next);
      SqueezePass(s);
    }
  }

  /** The whole of `formatVersion` as a function of its inputs. */
  function Formatted(info: VersionInfo, format: string): (r: string)
    ensures NoAdjacentSeparators(r) && NoTrailingSeparator(r)
  {
    var cleaned := Cleanup(Substituted(info, format));
    FixpointHasNoAdjacentSeparators(cleaned);
    TrimmedIsTidy(cleaned);
    TrimRight(cleaned, "-+")
  }

  /** Dropping separators from the end keeps separators apart and leaves
      none at the end. */
  lemma TrimmedIsTidy(s: string)
    requires NoAdjacentSeparators(s)
    ensures NoAdjacentSeparators(TrimRight(s, "-+")) && NoTrailingSeparator(TrimRight(s, "-+"))
  {
    var r := TrimRight(s, "-+");
    forall i | 0 <= i < |r| - 1
      ensures !(IsSeparator(r[i]) && IsSeparator(r[i + 1]))
    {
      assert r[i] == s[i] && r[i + 1] == s[i + 1];
    }
  }

  /** `formatVersion(info, format)`. */
  method FormatVersion(info: VersionInfo, format: string) returns (result: string)
    ensures result == Formatted(info, format)
    ensures NoAdjacentSeparators(result)
    ensures |result| > 0 ==> !IsSeparator(result[|result| - 1])
  {
    // {version+} becomes its five-part template before anything else
    var expanded := ReplaceAll(format, "{version+}", FullVersion);

    var baseVersion := info.Major + "." + info.Minor + "." + info.Patch;

    // then each placeholder, in a fixed order
    result := expanded;
    result := ReplaceAll(result, "{major}", info.Major);
    result := ReplaceAll(result, "{minor}", info.Minor);
    result := ReplaceAll(result, "{patch}", info.Patch);
    result := ReplaceAll(result, "{version}", baseVersion);
    result := ReplaceAll(result, "{prerelease}", info.Prerelease);
    result := ReplaceAll(result, "{commits}", info.Commits);
    result := ReplaceAll(result, "{timestamp}", info.Timestamp);
    result := ReplaceAll(result, "{metadata}", info.Metadata);
    ghost var substituted := result;

    // separator runs left by empty parts are collapsed until stable
    while true
      invariant Cleanup(result) == Cleanup(substituted)
      decreases |result|
    {
      var prev := result;
      result := ReplaceAll(result, "--", "-");
      result := ReplaceAll(result, "++", "+");
      result := ReplaceAll(result, "-+", "+");
      result := ReplaceAll(result, "+-", "-");
      if result == prev {
        break;
      }
      CollapsePassShrinks(prev);
    }
    FixpointHasNoAdjacentSeparators(result);

    // and separators at the end dropped
    result := TrimRight(result, "-+");
  }

  // ----- What the substitution means -----------------------------------

  /** A format string seen as text and placeholders. */
  datatype Segment = Literal(text: string) | Placeholder(name: string)

  function Token(name: string): string { "{" + name + "}" }

  function Show(segment: Segment): string
  {
    match segment
    case Literal(text) => text
    case Placeholder(name) => Token(name)
  }

  function Join(segments: seq<Segment>): string
    decreases |segments|
  {
    if |segments| == 0 then "" else Show(segments[0]) + Join(segments[1..])
  }

  predicate BraceFree(s: string) { '{' !in s && '}' !in s }

  /** Literal text opens no brace, and placeholder names hold none, so the
      tokens in the joined text are exactly the placeholders. */
  predicate WellFormedTemplate(segments: seq<Segment>)
  {
    forall k :: 0 <= k < |segments| ==>
      match segments[k]
      case Literal(text) => '{' !in text
      case Placeholder(name) => BraceFree(name)
  }

  /** Every `Placeholder(name)` replaced by the segments `filler`. */
  function Fill(segments: seq<Segment>, name: string, filler: seq<Segment>): seq<Segment>
    decreases |segments|
  {
    if |segments| == 0 then []
    else (if segments[0] == Placeholder(name) then filler else [segments[0]]) + Fill(segments[1..], name, filler)
  }

  /** Every `Placeholder(name)` replaced by the text `value`. */
  function Bind(segments: seq<Segment>, name: string, value: string): seq<Segment>
  {
    seq(|segments|, k requires 0 <= k < |segments| =>
      if segments[k] == Placeholder(name) then Literal(value) else segments[k])
  }

  lemma {:induction false} JoinAppend(a: seq<Segment>, b: seq<Segment>)
    ensures Join(a + b) == Join(a) + Join(b)
    decreases |a|
  {
    if |a| > 0 {
      assert (a + b)[0] == a[0];
      assert (a + b)[1..] == a[1..] + b;
      JoinAppend(a[1..], b);
    } else {
      assert a + b == b;
    }
  }

  lemma {:induction false} FillSingle(segments: seq<Segment>, name: string, value: string)
    ensures Fill(segments, name, [Literal(value)]) == Bind(segments, name, value)
    decreases |segments|
  {
    if |segments| > 0 {
      FillSingle(segments[1..], name, value);
      assert Bind(segments, name, value) == [Bind(segments, name, value)[0]] + Bind(segments[1..], name, value);
    }
  }

  lemma {:induction false} FillWellFormed(segments: seq<Segment>, name: string, filler: seq<Segment>)
    requires WellFormedTemplate(segments) && WellFormedTemplate(filler)
    ensures WellFormedTemplate(Fill(segments, name, filler))
    decreases |segments|
  {
    if |segments| > 0 {
      assert WellFormedTemplate(segments[1..]) by {
        forall k | 0 <= k < |segments| - 1 ensures segments[1..][k] == segments[k + 1] { }
      }
      FillWellFormed(segments[1..], name, filler);
      var head := if segments[0] == Placeholder(name) then filler else [segments[0]];
      var tail := Fill(segments[1..], name, filler);
      forall k | 0 <= k < |head + tail|
        ensures match (head + tail)[k]
          case Literal(text) => '{' !in text
          case Placeholder(n) => BraceFree(n)
      {
        if k >= |head| { assert (head + tail)[k] == tail[k - |head|]; }
      }
    }
  }

  /** The closing brace fixes where a token ends, so a token can only start
      with a token of the same name. */
  lemma TokenPrefix(n: string, name: string, rest: string)
    requires BraceFree(n) && BraceFree(name) && HasPrefix(Token(n) + rest, Token(name))
    ensures n == name
  {
    var s := Token(n) + rest;
    var t := Token(name);
    assert s[..|t|] == t;
    assert s[|n| + 1] == '}';
    assert t[|name| + 1] == '}';
    assert forall i :: 1 <= i <= |name| ==> t[i] == name[i - 1];
    assert forall i :: 1 <= i <= |n| ==> s[i] == n[i - 1];
    assert |n| + 1 < |t| ==> t[|n| + 1] == s[|n| + 1];
    assert |name| + 1 < |s| && |name| + 1 < |t| ==> t[|name| + 1] == s[|name| + 1];
    assert |n| == |name|;
    forall i | 0 <= i < |n| ensures n[i] == name[i]
    {
      assert s[i + 1] == t[i + 1];
    }
  }

  lemma ReplaceTokenFront(n: string, name: string, rest: string, filler: string)
    requires BraceFree(n) && BraceFree(name)
    ensures ReplaceAll(Token(n) + rest, Token(name), filler)
         == (if n == name then filler else Token(n)) + ReplaceAll(rest, Token(name), filler)
  {
    if n == name {
      ReplaceAllFront(Token(name), rest, filler);
    } else {
      ReplaceTokenSkip(n, name, rest, filler);
    }
  }

  lemma ReplaceTokenSkip(n: string, name: string, rest: string, filler: string)
    requires BraceFree(n) && BraceFree(name) && n != name
    ensures ReplaceAll(Token(n) + rest, Token(name), filler) == Token(n) + ReplaceAll(rest, Token(name), filler)
  {
    var s := Token(n) + rest;
    var t := Token(name);
    var tail := n + "}";
    var replaced := ReplaceAll(rest, t, filler);
    assert ReplaceAll(tail + rest, t, filler) == tail + replaced by {
      ReplaceAllSkips(tail, rest, t, filler);
    }
    if |s| < |t| {
      assert replaced == rest;
    } else {
      assert !HasPrefix(s, t) by {
        if HasPrefix(s, t) {
          TokenPrefix(n, name, rest);
        }
      }
      assert s[1..] == tail + rest;
      assert Token(n) + replaced == [s[0]] + (tail + replaced);
    }
  }

  /** Replacing a token in the joined text is filling the placeholder. */
  lemma {:induction false} ReplaceAllFills(segments: seq<Segment>, name: string, filler: seq<Segment>)
    requires WellFormedTemplate(segments) && BraceFree(name)
    ensures ReplaceAll(Join(segments), Token(name), Join(filler)) == Join(Fill(segments, name, filler))
    decreases |segments|
  {
    if |segments| > 0 {
      var rest := segments[1..];
      assert WellFormedTemplate(rest) by {
        forall k | 0 <= k < |rest| ensures rest[k] == segments[k + 1] { }
      }
      ReplaceAllFills(rest, name, filler);
      var head := if segments[0] == Placeholder(name) then filler else [segments[0]];
      JoinAppend(head, Fill(rest, name, filler));
      match segments[0]
      case Literal(text) =>
        ReplaceAllSkips(text, Join(rest), Token(name), Join(filler));
        assert Join([segments[0]]) == text;
      case Placeholder(n) =>
        ReplaceTokenFront(n, name, Join(rest), Join(filler));
        assert Join([segments[0]]) == Token(n);
    }
  }

  /** `{version+}` as segments. */
  const FullTemplate: seq<Segment> := [
    Placeholder("version"), Literal("-"), Placeholder("prerelease"), Literal("-"),
    Placeholder("commits"), Literal("-"), Placeholder("timestamp"), Literal("+"),
    Placeholder("metadata")]

  lemma JoinCons(head: Segment, rest: seq<Segment>)
    ensures Join([head] + rest) == Show(head) + Join(rest)
  {
    assert ([head] + rest)[1..] == rest;
  }

  lemma FullTemplateWellFormed()
    ensures WellFormedTemplate(FullTemplate)
  {
    TemplateNamesBraceFree();
    forall k | 0 <= k < |FullTemplate|
      ensures match FullTemplate[k]
              case Literal(text) => '{' !in text
              case Placeholder(name) => BraceFree(name)
    {
    }
  }

  lemma TemplateNamesBraceFree()
    ensures BraceFree("version") && BraceFree("prerelease") && BraceFree("commits")
    ensures BraceFree("timestamp") && BraceFree("metadata")
  {
  }


  lemma JoinThree(a: Segment, b: Segment, c: Segment)
    ensures Join([a, b, c]) == Show(a) + Show(b) + Show(c)
  {
    assert [a, b, c] == [a] + [b, c];
    JoinCons(a, [b, c]);
    JoinPair(b, c);
  }

  lemma JoinFour(a: Segment, b: Segment, c: Segment, d: Segment)
    ensures Join([a, b, c, d]) == Show(a) + Show(b) + Show(c) + Show(d)
  {
    assert [a, b, c, d] == [a] + [b, c, d];
    JoinCons(a, [b, c, d]);
    JoinThree(b, c, d);
  }

  lemma TemplateTailText()
    ensures Join([Placeholder("timestamp"), Literal("+"), Placeholder("metadata")]) == "{timestamp}+{metadata}"
  {
    JoinThree(Placeholder("timestamp"), Literal("+"), Placeholder("metadata"));
    TailTokens();
  }

  lemma TailTokens()
    ensures Token("timestamp") + "+" + Token("metadata") == "{timestamp}+{metadata}"
  {
    assert Token("timestamp") == "{timestamp}";
    assert Token("metadata") == "{metadata}";
  }

  lemma TemplateMiddleText()
    ensures Join([Placeholder("prerelease"), Literal("-"), Placeholder("commits"), Literal("-")]) == "{prerelease}-{commits}-"
  {
    JoinFour(Placeholder("prerelease"), Literal("-"), Placeholder("commits"), Literal("-"));
    MiddleTokens();
  }

  lemma MiddleTokens()
    ensures Token("prerelease") + "-" + Token("commits") + "-" == "{prerelease}-{commits}-"
  {
    assert Token("prerelease") == "{prerelease}";
    assert Token("commits") == "{commits}";
  }

  lemma TemplateHeadText()
    ensures Join([Placeholder("version"), Literal("-")]) == "{version}-"
  {
    JoinPair(Placeholder("version"), Literal("-"));
    assert Token("version") == "{version}";
  }

  lemma FullTemplateText()
    ensures Join(FullTemplate) == FullVersion
  {
    var head := [Placeholder("version"), Literal("-")];
    var middle := [Placeholder("prerelease"), Literal("-"), Placeholder("commits"), Literal("-")];
    var tail := [Placeholder("timestamp"), Literal("+"), Placeholder("metadata")];
    assert FullTemplate == head + middle + tail;
    JoinAppend(head + middle, tail);
    JoinAppend(head, middle);
    TemplateHeadText();
    TemplateMiddleText();
    TemplateTailText();
    FullVersionFront();
    FullVersionPieces();
  }

  lemma FullVersionPieces()
    ensures "{version}-{prerelease}-{commits}-" + "{timestamp}+{metadata}" == FullVersion
  {
  }

  lemma FullVersionFront()
    ensures "{version}-" + "{prerelease}-{commits}-" == "{version}-{prerelease}-{commits}-"
  {
  }

  /** The value a placeholder name stands for, if any. */
  function Lookup(info: VersionInfo, name: string): Option<string>
  {
    if name == "major" then Some(info.Major)
    else if name == "minor" then Some(info.Minor)
    else if name == "patch" then Some(info.Patch)
    else if name == "version" then Some(BaseVersion(info))
    else if name == "prerelease" then Some(info.Prerelease)
    else if name == "commits" then Some(info.Commits)
    else if name == "timestamp" then Some(info.Timestamp)
    else if name == "metadata" then Some(info.Metadata)
    else None
  }

  /** Every known placeholder replaced by its value at once; unknown ones
      are left as they are. */
  function Resolve(segments: seq<Segment>, info: VersionInfo): seq<Segment>
  {
    seq(|segments|, k requires 0 <= k < |segments| =>
      match segments[k]
      case Placeholder(name) => (if Lookup(info, name).Some? then Literal(Lookup(info, name).value) else segments[k])
      case Literal(_) => segments[k])
  }

  predicate OpensNoBrace(info: VersionInfo)
  {
    '{' !in info.Major && '{' !in info.Minor && '{' !in info.Patch && '{' !in info.Prerelease
    && '{' !in info.Commits && '{' !in info.Timestamp && '{' !in info.Metadata
  }

  lemma BindStep(segments: seq<Segment>, name: string, value: string)
    requires WellFormedTemplate(segments) && BraceFree(name) && '{' !in value
    ensures ReplaceAll(Join(segments), Token(name), value) == Join(Bind(segments, name, value))
    ensures WellFormedTemplate(Bind(segments, name, value))
  {
    ReplaceAllFills(segments, name, [Literal(value)]);
    FillSingle(segments, name, value);
    assert Join([Literal(value)]) == value;
  }

  /** When no value opens a brace, the sequence of replacements in
      `formatVersion` fills every placeholder of the format at once, as if
      `{version+}` were first spelled out: a value never produces a
      placeholder for a later step. */
  lemma SubstitutionResolves(info: VersionInfo, segments: seq<Segment>)
    requires WellFormedTemplate(segments) && OpensNoBrace(info)
    ensures Substituted(info, Join(segments)) == Join(Resolve(Fill(segments, "version+", FullTemplate), info))
  {
    ExpandStep(segments);
    BindsResolve(info, Fill(segments, "version+", FullTemplate));
  }

  lemma VersionPlusToken()
    ensures Token("version+") == "{version+}" && BraceFree("version+")
  {
  }

  lemma ExpandStep(segments: seq<Segment>)
    requires WellFormedTemplate(segments)
    ensures ReplaceAll(Join(segments), "{version+}", FullVersion) == Join(Fill(segments, "version+", FullTemplate))
    ensures WellFormedTemplate(Fill(segments, "version+", FullTemplate))
  {
    VersionPlusToken();
    FullTemplateText();
    FullTemplateWellFormed();
    ReplaceAllFills(segments, "version+", FullTemplate);
    FillWellFormed(segments, "version+", FullTemplate);
  }

  lemma BindsResolve(info: VersionInfo, e: seq<Segment>)
    requires WellFormedTemplate(e) && OpensNoBrace(info)
    ensures Placeholders(info, Join(e)) == Join(Resolve(e, info))
  {
    FirstFourBinds(info, e);
    var s4 := Bind(Bind(Bind(Bind(e, "major", info.Major), "minor", info.Minor),
                "patch", info.Patch), "version", BaseVersion(info));
    LastFourBinds(info, s4);
    BindChain(e, info);
  }

  lemma FirstTokens()
    ensures Token("major") == "{major}" && Token("minor") == "{minor}"
    ensures Token("patch") == "{patch}" && Token("version") == "{version}"
    ensures BraceFree("major") && BraceFree("minor") && BraceFree("patch") && BraceFree("version")
  {
  }

  lemma LastTokens()
    ensures Token("prerelease") == "{prerelease}" && Token("commits") == "{commits}"
    ensures Token("timestamp") == "{timestamp}" && Token("metadata") == "{metadata}"
    ensures BraceFree("prerelease") && BraceFree("commits") && BraceFree("timestamp") && BraceFree("metadata")
  {
  }

  lemma FirstFourBinds(info: VersionInfo, e: seq<Segment>)
    requires WellFormedTemplate(e) && OpensNoBrace(info)
    ensures ReplaceAll(ReplaceAll(ReplaceAll(ReplaceAll(Join(e),
              "{major}", info.Major), "{minor}", info.Minor), "{patch}", info.Patch), "{version}", BaseVersion(info))
         == Join(Bind(Bind(Bind(Bind(e, "major", info.Major), "minor", info.Minor),
              "patch", info.Patch), "version", BaseVersion(info)))
    ensures WellFormedTemplate(Bind(Bind(Bind(Bind(e, "major", info.Major), "minor", info.Minor),
              "patch", info.Patch), "version", BaseVersion(info)))
  {
    FirstTokens();
    BindPair(e, "major", info.Major, "minor", info.Minor);
    var s2 := Bind(Bind(e, "major", info.Major), "minor", info.Minor);
    BindPair(s2, "patch", info.Patch, "version", BaseVersion(info));
  }

  lemma LastFourBinds(info: VersionInfo, e: seq<Segment>)
    requires WellFormedTemplate(e) && OpensNoBrace(info)
    ensures ReplaceAll(ReplaceAll(ReplaceAll(ReplaceAll(Join(e),
              "{prerelease}", info.Prerelease), "{commits}", info.Commits), "{timestamp}", info.Timestamp),
              "{metadata}", info.Metadata)
         == Join(Bind(Bind(Bind(Bind(e, "prerelease", info.Prerelease), "commits", info.Commits),
              "timestamp", info.Timestamp), "metadata", info.Metadata))
  {
    LastTokens();
    BindPair(e, "prerelease", info.Prerelease, "commits", info.Commits);
    var s2 := Bind(Bind(e, "prerelease", info.Prerelease), "commits", info.Commits);
    BindPair(s2, "timestamp", info.Timestamp, "metadata", info.Metadata);
  }

  lemma BindPair(segments: seq<Segment>, name1: string, value1: string, name2: string, value2: string)
    requires WellFormedTemplate(segments) && BraceFree(name1) && BraceFree(name2)
    requires '{' !in value1 && '{' !in value2
    ensures ReplaceAll(ReplaceAll(Join(segments), Token(name1), value1), Token(name2), value2)
         == Join(Bind(Bind(segments, name1, value1), name2, value2))
    ensures WellFormedTemplate(Bind(Bind(segments, name1, value1), name2, value2))
  {
    BindStep(segments, name1, value1);
    BindStep(Bind(segments, name1, value1), name2, value2);
  }

  /** The eight replacements, one after the other, resolve each
      placeholder independently. */
  lemma BindChain(e: seq<Segment>, info: VersionInfo)
    ensures Bind(Bind(Bind(Bind(Bind(Bind(Bind(Bind(e,
              "major", info.Major), "minor", info.Minor), "patch", info.Patch),
              "version", BaseVersion(info)), "prerelease", info.Prerelease),
              "commits", info.Commits), "timestamp", info.Timestamp), "metadata", info.Metadata)
         == Resolve(e, info)
  {
  }

  // ----- What the clean-up means for {version+} ------------------------

  predicate NoSeparator(s: string) { '-' !in s && '+' !in s }

  /** A value that neither opens a placeholder nor holds a separator. */
  predicate Plain(s: string) { BraceFree(s) && NoSeparator(s) }

  predicate PlainInfo(info: VersionInfo)
  {
    Plain(info.Major) && Plain(info.Minor) && Plain(info.Patch) && Plain(info.Prerelease)
    && Plain(info.Commits) && Plain(info.Timestamp) && Plain(info.Metadata)
  }

  /** Separators only between two other characters: none at either end
      and no two side by side, as in a stamp `2025-12-05`. */
  predicate InnerSeparators(s: string)
  {
    NoAdjacentSeparators(s) && NoTrailingSeparator(s) && (|s| > 0 ==> !IsSeparator(s[0]))
  }

  /** A value of an optional part: it opens no placeholder, and its
      separators are inner ones. */
  predicate PartValue(s: string) { '{' !in s && InnerSeparators(s) }

  /** Plain numbers, and optional parts that may carry inner separators. */
  predicate PartsInfo(info: VersionInfo)
  {
    Plain(info.Major) && Plain(info.Minor) && Plain(info.Patch) && PartValue(info.Prerelease)
    && PartValue(info.Commits) && PartValue(info.Timestamp) && PartValue(info.Metadata)
  }

  lemma PlainIsPartValue(s: string)
    requires Plain(s)
    ensures PartValue(s)
  {
    NoSeparatorTidy(s);
    if |s| > 0 {
      assert s[0] in s;
    }
  }

  /** `value` after its separator, or nothing when the value is empty. */
  function Optional(separator: char, value: string): string
  {
    if value == "" then "" else [separator] + value
  }

  /** A value together with the separator written before it. */
  datatype Part = Part(separator: char, value: string)

  predicate TidyParts(parts: seq<Part>)
  {
    forall k :: 0 <= k < |parts| ==> IsSeparator(parts[k].separator) && InnerSeparators(parts[k].value)
  }

  /** Every part written out, empty or not. */
  function Attached(parts: seq<Part>): string
    decreases |parts|
  {
    if |parts| == 0 then "" else [parts[0].separator] + parts[0].value + Attached(parts[1..])
  }

  /** Only the non-empty parts written out. */
  function Kept(parts: seq<Part>): string
    decreases |parts|
  {
    if |parts| == 0 then "" else Optional(parts[0].separator, parts[0].value) + Kept(parts[1..])
  }

  /** The separator left over at the end when the last part is empty. */
  function Trail(parts: seq<Part>): string
  {
    if |parts| > 0 && parts[|parts| - 1].value == "" then [parts[|parts| - 1].separator] else ""
  }

  lemma SqueezePlain(v: string, t: string)
    requires NoSeparator(v)
    ensures Squeeze(v + t) == v + Squeeze(t)
  {
    NoSeparatorTidy(v);
    SqueezeInner(v, t);
  }

  /** Text whose separators stand alone and that does not end in one is
      left as it is by squeezing. */
  lemma {:induction false} SqueezeInner(v: string, t: string)
    requires NoAdjacentSeparators(v) && NoTrailingSeparator(v)
    ensures Squeeze(v + t) == v + Squeeze(t)
    decreases |v|
  {
    if |v| > 0 {
      var w := v[1..];
      assert NoAdjacentSeparators(w) && NoTrailingSeparator(w) by {
        InnerTail(v);
      }
      assert Squeeze(w + t) == w + Squeeze(t) by {
        SqueezeInner(w, t);
      }
      assert !(IsSeparator(v[0]) && StartsWithSeparator(w + t)) by {
        if IsSeparator(v[0]) {
          assert |v| > 1 && !IsSeparator(v[1]);
          assert (w + t)[0] == v[1];
        }
      }
      assert v + t == [v[0]] + (w + t);
      SqueezeCons(v[0], w + t);
      assert v == [v[0]] + w;
    } else {
      assert v + t == t;
    }
  }

  lemma InnerTail(v: string)
    requires |v| > 0 && NoAdjacentSeparators(v) && NoTrailingSeparator(v)
    ensures NoAdjacentSeparators(v[1..]) && NoTrailingSeparator(v[1..])
  {
    var w := v[1..];
    forall i | 0 <= i < |w| - 1
      ensures !(IsSeparator(w[i]) && IsSeparator(w[i + 1]))
    {
      assert w[i] == v[i + 1] && w[i + 1] == v[i + 2];
    }
  }

  /** A separator before a non-empty value with inner separators survives
      squeezing. */
  lemma SqueezeBeforeValue(separator: char, v: string, t: string)
    requires |v| > 0 && InnerSeparators(v)
    ensures Squeeze([separator] + v + t) == [separator] + v + Squeeze(t)
  {
    assert [separator] + v + t == [separator] + (v + t);
    assert !StartsWithSeparator(v + t) by {
      assert (v + t)[0] == v[0];
    }
    SqueezeCons(separator, v + t);
    assert Squeeze(v + t) == v + Squeeze(t) by {
      SqueezeInner(v, t);
    }
  }

  /** Squeezing the written-out parts keeps the non-empty ones, each with
      its own separator, plus one separator when the text ends in empty
      parts. */
  lemma {:induction false} SqueezeParts(parts: seq<Part>)
    requires TidyParts(parts)
    ensures Squeeze(Attached(parts)) == Kept(parts) + Trail(parts)
    decreases |parts|
  {
    if |parts| > 0 {
      var rest := parts[1..];
      assert TidyParts(rest) by {
        forall k | 0 <= k < |rest| ensures rest[k] == parts[k + 1] { }
      }
      SqueezeParts(rest);
      if parts[0].value != "" {
        SqueezeValueHead(parts);
      } else {
        SqueezeEmptyHead(parts);
      }
    }
  }

  /** The step of `SqueezeParts` for a first part with a value. */
  lemma SqueezeValueHead(parts: seq<Part>)
    requires |parts| > 0 && TidyParts(parts) && parts[0].value != ""
    requires Squeeze(Attached(parts[1..])) == Kept(parts[1..]) + Trail(parts[1..])
    ensures Squeeze(Attached(parts)) == Kept(parts) + Trail(parts)
  {
    var p := parts[0];
    var rest := parts[1..];
    var h := [p.separator] + p.value;
    assert InnerSeparators(p.value);
    SqueezeBeforeValue(p.separator, p.value, Attached(rest));
    TrailAfterValue(parts);
    Associative(h, Kept(rest), Trail(rest));
  }

  lemma TrailAfterValue(parts: seq<Part>)
    requires |parts| > 0 && parts[0].value != ""
    ensures Trail(parts) == Trail(parts[1..])
  {
    if |parts| > 1 {
      assert parts[|parts| - 1] == parts[1..][|parts| - 2];
    }
  }

  lemma Associative(a: string, b: string, c: string)
    ensures a + (b + c) == a + b + c
  {
  }

  /** The step of `SqueezeParts` for an empty first part. */
  lemma SqueezeEmptyHead(parts: seq<Part>)
    requires |parts| > 0 && TidyParts(parts) && parts[0].value == ""
    requires Squeeze(Attached(parts[1..])) == Kept(parts[1..]) + Trail(parts[1..])
    ensures Squeeze(Attached(parts)) == Kept(parts) + Trail(parts)
  {
    var p := parts[0];
    var rest := parts[1..];
    var a := Attached(rest);
    assert IsSeparator(p.separator);
    assert Attached(parts) == [p.separator] + a;
    assert Kept(parts) == Kept(rest);
    SqueezeCons(p.separator, a);
    if |rest| > 0 {
      assert parts[|parts| - 1] == rest[|rest| - 1];
      assert a == [rest[0].separator] + rest[0].value + Attached(rest[1..]);
      assert IsSeparator(rest[0].separator);
    } else {
      assert a == "" && Kept(rest) == "";
    }
  }

  lemma {:induction false} KeptEnd(parts: seq<Part>)
    requires TidyParts(parts)
    ensures |Kept(parts)| > 0 ==> !IsSeparator(Kept(parts)[|Kept(parts)| - 1])
    decreases |parts|
  {
    if |parts| > 0 {
      var rest := parts[1..];
      assert TidyParts(rest) by {
        forall k | 0 <= k < |rest| ensures rest[k] == parts[k + 1] { }
      }
      KeptEnd(rest);
      var v := parts[0].value;
      if |Kept(rest)| == 0 && v != "" {
        assert Kept(parts) == [parts[0].separator] + v;
        assert InnerSeparators(v);
      }
    }
  }

  lemma {:induction false} TrimRightKeeps(s: string, cutset: string)
    requires |s| > 0 && s[|s| - 1] !in cutset
    ensures TrimRight(s, cutset) == s
  {
  }

  lemma TrimRightDrops(s: string, c: char, cutset: string)
    requires c in cutset
    ensures TrimRight(s + [c], cutset) == TrimRight(s, cutset)
  {
    assert (s + [c])[..|s + [c]| - 1] == s;
  }

  /** The optional parts of `{version+}`. */
  function FullVersionParts(info: VersionInfo): seq<Part>
  {
    [Part('-', info.Prerelease), Part('-', info.Commits), Part('-', info.Timestamp), Part('+', info.Metadata)]
  }

  lemma ResolveFullTemplate(info: VersionInfo)
    ensures Resolve(FullTemplate, info) == [
      Literal(BaseVersion(info)), Literal("-"), Literal(info.Prerelease), Literal("-"),
      Literal(info.Commits), Literal("-"), Literal(info.Timestamp), Literal("+"), Literal(info.Metadata)]
  {
  }

  lemma JoinLiterals(a: string, b: string, rest: seq<Segment>)
    ensures Join([Literal(a), Literal(b)] + rest) == a + b + Join(rest)
  {
    assert [Literal(a), Literal(b)] + rest == [Literal(a)] + ([Literal(b)] + rest);
    JoinCons(Literal(a), [Literal(b)] + rest);
    JoinCons(Literal(b), rest);
  }

  lemma VersionPlusSegments()
    ensures Join([Placeholder("version+")]) == "{version+}"
    ensures WellFormedTemplate([Placeholder("version+")])
    ensures Fill([Placeholder("version+")], "version+", FullTemplate) == FullTemplate
  {
    var segments := [Placeholder("version+")];
    assert segments == [Placeholder("version+")] + [];
    JoinCons(Placeholder("version+"), []);
    assert Token("version+") == "{version+}";
    assert Fill(segments[1..], "version+", FullTemplate) == [];
  }

  /** The text of every part of `{version+}`, each after its separator. */
  function FullVersionText(info: VersionInfo): string
  {
    "-" + info.Prerelease + "-" + info.Commits + "-" + info.Timestamp + "+" + info.Metadata
  }

  lemma AttachedFull(info: VersionInfo)
    ensures Attached(FullVersionParts(info)) == FullVersionText(info)
  {
    var parts := FullVersionParts(info);
    assert Attached(parts[3..]) == "+" + info.Metadata by {
      assert parts[3..][1..] == [];
    }
    assert Attached(parts[2..]) == "-" + info.Timestamp + ("+" + info.Metadata) by {
      assert parts[2..][1..] == parts[3..];
    }
    assert Attached(parts[1..]) == "-" + info.Commits + ("-" + info.Timestamp + ("+" + info.Metadata)) by {
      assert parts[1..][1..] == parts[2..];
    }
  }

  lemma JoinFourLiterals(a: string, b: string, c: string, d: string, rest: seq<Segment>)
    ensures Join([Literal(a), Literal(b), Literal(c), Literal(d)] + rest) == a + b + c + d + Join(rest)
  {
    assert [Literal(a), Literal(b), Literal(c), Literal(d)] + rest
        == [Literal(a), Literal(b)] + ([Literal(c), Literal(d)] + rest);
    JoinLiterals(a, b, [Literal(c), Literal(d)] + rest);
    JoinLiterals(c, d, rest);
  }

  lemma JoinFullDisplay(info: VersionInfo)
    ensures Join([
      Literal(BaseVersion(info)), Literal("-"), Literal(info.Prerelease), Literal("-"),
      Literal(info.Commits), Literal("-"), Literal(info.Timestamp), Literal("+"), Literal(info.Metadata)])
      == BaseVersion(info) + FullVersionText(info)
  {
    var m := [Literal(info.Metadata)];
    var back := [Literal(info.Commits), Literal("-"), Literal(info.Timestamp), Literal("+")] + m;
    var display := [
      Literal(BaseVersion(info)), Literal("-"), Literal(info.Prerelease), Literal("-"),
      Literal(info.Commits), Literal("-"), Literal(info.Timestamp), Literal("+"), Literal(info.Metadata)];
    assert Join(back) == info.Commits + "-" + info.Timestamp + "+" + info.Metadata by {
      JoinCons(Literal(info.Metadata), []);
      assert m == [Literal(info.Metadata)] + [];
      JoinFourLiterals(info.Commits, "-", info.Timestamp, "+", m);
    }
    assert Join(display) == BaseVersion(info) + "-" + info.Prerelease + "-" + Join(back) by {
      assert display == [Literal(BaseVersion(info)), Literal("-"), Literal(info.Prerelease), Literal("-")] + back;
      JoinFourLiterals(BaseVersion(info), "-", info.Prerelease, "-", back);
    }
  }

  lemma JoinResolvedFull(info: VersionInfo)
    ensures Join(Resolve(FullTemplate, info)) == BaseVersion(info) + FullVersionText(info)
  {
    ResolveFullTemplate(info);
    JoinFullDisplay(info);
  }

  /** `{version+}` becomes the base version followed by every optional
      part, each after its separator. */
  lemma FullVersionSubstituted(info: VersionInfo, format: string)
    requires OpensNoBrace(info) && format == "{version+}"
    ensures Substituted(info, format) == BaseVersion(info) + Attached(FullVersionParts(info))
  {
    VersionPlusSegments();
    SubstitutionResolves(info, [Placeholder("version+")]);
    JoinResolvedFull(info);
    AttachedFull(info);
  }

  /** With plain values, `{version+}` gives the base version followed only
      by the parts that are not empty: the help's
      `1.2.3-beta1-5-20251205143022+build` when all are present, plain
      `1.2.3` when none is. */
  lemma FormatFullVersion(info: VersionInfo, format: string)
    requires PartsInfo(info) && format == "{version+}"
    ensures Formatted(info, format)
         == BaseVersion(info) + Optional('-', info.Prerelease) + Optional('-', info.Commits)
            + Optional('-', info.Timestamp) + Optional('+', info.Metadata)
  {
    FullVersionTrimmed(info, format);
    KeptFull(info);
    Regroup(BaseVersion(info), Optional('-', info.Prerelease), Optional('-', info.Commits),
      Optional('-', info.Timestamp), Optional('+', info.Metadata));
  }

  lemma FullVersionTrimmed(info: VersionInfo, format: string)
    requires PartsInfo(info) && format == "{version+}"
    ensures Formatted(info, format) == BaseVersion(info) + Kept(FullVersionParts(info))
  {
    var parts := FullVersionParts(info);
    assert TidyParts(parts) by {
      FullVersionPartsTidy(info);
    }
    assert Cleanup(Substituted(info, format)) == BaseVersion(info) + (Kept(parts) + Trail(parts)) by {
      FullVersionCleaned(info, format);
    }
    BaseVersionPlain(info);
    FormatFromBase(info, format, BaseVersion(info), parts);
  }

  /** The help's `v{version+}` example: `v` before what `{version+}`
      prints. */
  lemma FormatPrefixedFullVersion(info: VersionInfo, format: string)
    requires PartsInfo(info) && format == "v{version+}"
    ensures Formatted(info, format) == "v" + Formatted(info, "{version+}")
  {
    var segments := [Literal("v"), Placeholder("version+")];
    PrefixedFullTemplate(segments, format);
    PrefixedFullFormatted(info, segments, "{version+}");
  }

  lemma PrefixedFullFormatted(info: VersionInfo, segments: seq<Segment>, plus: string)
    requires PartsInfo(info) && segments == [Literal("v"), Placeholder("version+")]
    requires plus == "{version+}"
    ensures Formatted(info, Join(segments)) == "v" + Formatted(info, plus)
  {
    PrefixedFullTrimmed(info, segments);
    FullVersionTrimmed(info, plus);
  }

  lemma PrefixedFullTrimmed(info: VersionInfo, segments: seq<Segment>)
    requires PartsInfo(info) && segments == [Literal("v"), Placeholder("version+")]
    ensures Formatted(info, Join(segments)) == "v" + (BaseVersion(info) + Kept(FullVersionParts(info)))
  {
    var parts := FullVersionParts(info);
    var base := "v" + BaseVersion(info);
    assert TidyParts(parts) by {
      FullVersionPartsTidy(info);
    }
    assert NoSeparator(base) by {
      BaseVersionPlain(info);
    }
    assert Cleanup(Substituted(info, Join(segments))) == base + (Kept(parts) + Trail(parts)) by {
      PrefixedFullSubstituted(info, segments);
      CleanupAttached(base, parts);
    }
    assert Formatted(info, Join(segments)) == base + Kept(parts) by {
      FormatFromBase(info, Join(segments), base, parts);
    }
    Associate("v", BaseVersion(info), Kept(parts));
  }

  lemma Associate(a: string, b: string, c: string)
    ensures a + b + c == a + (b + c)
  {
  }

  /** `v{version+}` becomes `v`, the base version, and every optional part
      after its separator. */
  lemma PrefixedFullSubstituted(info: VersionInfo, segments: seq<Segment>)
    requires OpensNoBrace(info) && segments == [Literal("v"), Placeholder("version+")]
    ensures Substituted(info, Join(segments)) == "v" + BaseVersion(info) + Attached(FullVersionParts(info))
  {
    PrefixedFullSegments(segments);
    SubstitutionResolves(info, segments);
    assert Join(Resolve([Literal("v")] + FullTemplate, info)) == "v" + Join(Resolve(FullTemplate, info)) by {
      ResolveLiteralHead("v", FullTemplate, info);
    }
    JoinResolvedFull(info);
    AttachedFull(info);
  }

  lemma PrefixedFullSegments(segments: seq<Segment>)
    requires segments == [Literal("v"), Placeholder("version+")]
    ensures WellFormedTemplate(segments)
    ensures Fill(segments, "version+", FullTemplate) == [Literal("v")] + FullTemplate
  {
    VersionPlusToken();
    assert segments[1..] == [Placeholder("version+")];
    VersionPlusSegments();
  }

  lemma PrefixedFullTemplate(segments: seq<Segment>, format: string)
    requires segments == [Literal("v"), Placeholder("version+")] && format == "v{version+}"
    ensures Join(segments) == format
  {
    JoinPair(Literal("v"), Placeholder("version+"));
    VersionPlusToken();
  }

  lemma ResolveLiteralHead(text: string, rest: seq<Segment>, info: VersionInfo)
    ensures Join(Resolve([Literal(text)] + rest, info)) == text + Join(Resolve(rest, info))
  {
    assert Resolve([Literal(text)] + rest, info) == [Literal(text)] + Resolve(rest, info);
    JoinCons(Literal(text), Resolve(rest, info));
  }

  lemma FullVersionPartsTidy(info: VersionInfo)
    requires PartsInfo(info)
    ensures TidyParts(FullVersionParts(info))
  {
  }

  /** With no prerelease, commits, timestamp or metadata, the default
      format prints exactly `Major.Minor.Patch`. */
  lemma FormatCoreOnly(info: VersionInfo, format: string)
    requires Plain(info.Major) && Plain(info.Minor) && Plain(info.Patch)
    requires info.Prerelease == info.Commits == info.Timestamp == info.Metadata == ""
    requires format == "{version+}"
    ensures Formatted(info, format) == info.Major + "." + info.Minor + "." + info.Patch
  {
    assert PartsInfo(info) by {
      NothingIsPartValue();
    }
    FormatFullVersion(info, format);
    NoOptionalParts(BaseVersion(info));
  }

  lemma NothingIsPartValue()
    ensures PartValue("")
  {
  }

  lemma NoOptionalParts(base: string)
    ensures base + Optional('-', "") + Optional('-', "") + Optional('-', "") + Optional('+', "") == base
  {
    assert base + "" + "" + "" + "" == base;
  }

  /** Once the clean-up leaves a plain base, the kept parts and a
      trailing separator, trimming leaves the base and the kept parts. */
  lemma FormatFromBase(info: VersionInfo, format: string, base: string, parts: seq<Part>)
    requires |base| > 0 && NoSeparator(base) && TidyParts(parts)
    requires Cleanup(Substituted(info, format)) == base + (Kept(parts) + Trail(parts))
    ensures Formatted(info, format) == base + Kept(parts)
  {
    TrimAfterKept(base, parts);
  }

  lemma FullVersionCleaned(info: VersionInfo, format: string)
    requires PartsInfo(info) && format == "{version+}"
    ensures Cleanup(Substituted(info, format))
         == BaseVersion(info) + (Kept(FullVersionParts(info)) + Trail(FullVersionParts(info)))
  {
    var base := BaseVersion(info);
    var parts := FullVersionParts(info);
    assert Substituted(info, format) == base + Attached(parts) by {
      FullVersionSubstituted(info, format);
    }
    assert NoSeparator(base) by {
      BaseVersionPlain(info);
    }
    assert TidyParts(parts) by {
      FullVersionPartsTidy(info);
    }
    CleanupAttached(base, parts);
  }

  /** The clean-up of a plain base followed by parts. */
  lemma CleanupAttached(base: string, parts: seq<Part>)
    requires NoSeparator(base) && TidyParts(parts)
    ensures Cleanup(base + Attached(parts)) == base + (Kept(parts) + Trail(parts))
  {
    CleanupSqueezes(base + Attached(parts));
    SqueezePlain(base, Attached(parts));
    SqueezeParts(parts);
  }


  /** Trimming drops the left-over separator and nothing else. */
  lemma TrimAfterKept(base: string, parts: seq<Part>)
    requires |base| > 0 && NoSeparator(base) && TidyParts(parts)
    ensures TrimRight(base + (Kept(parts) + Trail(parts)), "-+") == base + Kept(parts)
  {
    KeptEnd(parts);
    TrimLeftover(base, Kept(parts), Trail(parts));
  }

  lemma TrimLeftover(base: string, kept: string, trail: string)
    requires |base| > 0 && NoSeparator(base)
    requires |kept| > 0 ==> !IsSeparator(kept[|kept| - 1])
    requires trail == "" || (|trail| == 1 && IsSeparator(trail[0]))
    ensures TrimRight(base + (kept + trail), "-+") == base + kept
  {
    var s := base + kept;
    assert s[|s| - 1] !in "-+" by {
      if |kept| == 0 {
        assert s[|s| - 1] == base[|base| - 1] && base[|base| - 1] in base;
      } else {
        assert s[|s| - 1] == kept[|kept| - 1];
      }
    }
    TrimRightKeeps(s, "-+");
    if trail != "" {
      assert base + (kept + trail) == s + [trail[0]];
      TrimRightDrops(s, trail[0], "-+");
    } else {
      assert base + (kept + trail) == s;
    }
  }

  lemma Regroup(a: string, b: string, c: string, d: string, e: string)
    ensures a + (b + c + d + e) == a + b + c + d + e
  {
  }

  lemma KeptFull(info: VersionInfo)
    ensures Kept(FullVersionParts(info))
         == Optional('-', info.Prerelease) + Optional('-', info.Commits)
            + Optional('-', info.Timestamp) + Optional('+', info.Metadata)
  {
    var parts := FullVersionParts(info);
    assert Kept(parts[3..]) == Optional('+', info.Metadata) by {
      assert parts[3..][1..] == [];
    }
    assert Kept(parts[2..]) == Optional('-', info.Timestamp) + Kept(parts[3..]) by {
      assert parts[2..][1..] == parts[3..];
    }
    assert Kept(parts[1..]) == Optional('-', info.Commits) + Kept(parts[2..]) by {
      assert parts[1..][1..] == parts[2..];
    }
  }

  /** A format whose filled-in text has no separators to tidy comes out
      exactly as filled in. */
  lemma FormatTemplate(info: VersionInfo, segments: seq<Segment>, text: string)
    requires WellFormedTemplate(segments) && OpensNoBrace(info)
    requires Fill(segments, "version+", FullTemplate) == segments
    requires Join(Resolve(segments, info)) == text
    requires NoAdjacentSeparators(text) && (|text| > 0 ==> !IsSeparator(text[|text| - 1]))
    ensures Formatted(info, Join(segments)) == text
  {
    SubstitutionResolves(info, segments);
    CleanupSqueezes(text);
    SqueezeIdentity(text);
    if |text| > 0 {
      TrimRightKeeps(text, "-+");
    }
  }

  /** Filling a placeholder the segments do not hold changes nothing. */
  lemma {:induction false} FillAbsent(segments: seq<Segment>, name: string, filler: seq<Segment>)
    requires Placeholder(name) !in segments
    ensures Fill(segments, name, filler) == segments
    decreases |segments|
  {
    if |segments| > 0 {
      assert segments[0] in segments;
      assert forall x :: x in segments[1..] ==> x in segments;
      FillAbsent(segments[1..], name, filler);
      assert [segments[0]] + segments[1..] == segments;
    }
  }

  lemma JoinPair(a: Segment, b: Segment)
    ensures Join([a, b]) == Show(a) + Show(b)
  {
    assert [a, b] == [a] + [b];
    JoinCons(a, [b]);
    assert [b] == [b] + [];
    JoinCons(b, []);
  }

  /** Values without braces open no placeholder. */
  lemma PlainOpensNoBrace(info: VersionInfo)
    requires PlainInfo(info)
    ensures OpensNoBrace(info)
  {
  }

  /** A format of literal text and placeholders other than `{version+}`. */
  predicate SimpleTemplate(segments: seq<Segment>)
  {
    WellFormedTemplate(segments) && Placeholder("version+") !in segments
  }

  /** The shape `FormatTemplate` needs, from `SimpleTemplate`. */
  lemma FormatSimple(info: VersionInfo, segments: seq<Segment>, text: string)
    requires SimpleTemplate(segments) && PlainInfo(info)
    requires Join(Resolve(segments, info)) == text
    requires NoAdjacentSeparators(text) && (|text| > 0 ==> !IsSeparator(text[|text| - 1]))
    ensures Formatted(info, Join(segments)) == text
  {
    FillAbsent(segments, "version+", FullTemplate);
    PlainOpensNoBrace(info);
    FormatTemplate(info, segments, text);
  }

  /** Text with no separator at all needs no tidying. */
  lemma NoSeparatorTidy(text: string)
    requires NoSeparator(text)
    ensures NoAdjacentSeparators(text) && (|text| > 0 ==> !IsSeparator(text[|text| - 1]))
  {
    if |text| > 0 {
      assert text[|text| - 1] in text;
    }
    forall i | 0 <= i < |text| - 1
      ensures !IsSeparator(text[i])
    {
      assert text[i] in text;
    }
  }

  lemma BaseVersionPlain(info: VersionInfo)
    requires Plain(info.Major) && Plain(info.Minor) && Plain(info.Patch)
    ensures NoSeparator(BaseVersion(info))
  {
  }

  /** The help's `v{version}` example: `v1.2.3`. */
  lemma FormatPrefixedVersion(info: VersionInfo, format: string)
    requires PlainInfo(info) && format == "v{version}"
    ensures Formatted(info, format) == "v" + BaseVersion(info)
  {
    var segments := [Literal("v"), Placeholder("version")];
    var text := "v" + BaseVersion(info);
    PrefixedTemplate(segments, format);
    assert Join(Resolve(segments, info)) == text by {
      PrefixedResolved(info, segments);
    }
    assert NoSeparator(text) by {
      BaseVersionPlain(info);
    }
    NoSeparatorTidy(text);
    FormatSimple(info, segments, text);
  }

  lemma PrefixedTemplate(segments: seq<Segment>, format: string)
    requires segments == [Literal("v"), Placeholder("version")] && format == "v{version}"
    ensures SimpleTemplate(segments) && Join(segments) == format
  {
    PrefixedSimple(segments);
    PrefixedText(segments, format);
  }

  lemma PrefixedSimple(segments: seq<Segment>)
    requires segments == [Literal("v"), Placeholder("version")]
    ensures SimpleTemplate(segments)
  {
  }

  lemma PrefixedText(segments: seq<Segment>, format: string)
    requires segments == [Literal("v"), Placeholder("version")] && format == "v{version}"
    ensures Join(segments) == format
  {
    JoinPair(Literal("v"), Placeholder("version"));
    assert Token("version") == "{version}";
  }


  lemma PrefixedResolved(info: VersionInfo, segments: seq<Segment>)
    requires segments == [Literal("v"), Placeholder("version")]
    ensures Join(Resolve(segments, info)) == "v" + BaseVersion(info)
  {
    assert Resolve(segments, info) == [Literal("v"), Literal(BaseVersion(info))];
    JoinPair(Literal("v"), Literal(BaseVersion(info)));
  }

  /** The help's `{version}-SNAPSHOT` example: `1.2.3-SNAPSHOT`. */
  lemma FormatSnapshot(info: VersionInfo, format: string)
    requires PlainInfo(info) && format == "{version}-SNAPSHOT"
    ensures Formatted(info, format) == BaseVersion(info) + "-SNAPSHOT"
  {
    var segments := [Placeholder("version"), Literal("-SNAPSHOT")];
    var base := BaseVersion(info);
    var text := base + "-SNAPSHOT";
    SnapshotTemplate(segments, format);
    assert Join(Resolve(segments, info)) == text by {
      SnapshotResolved(info, segments);
    }
    assert NoSeparator(base) by {
      BaseVersionPlain(info);
    }
    SnapshotTidy(base, text);
    FormatSimple(info, segments, text);
  }

  lemma SnapshotTemplate(segments: seq<Segment>, format: string)
    requires segments == [Placeholder("version"), Literal("-SNAPSHOT")] && format == "{version}-SNAPSHOT"
    ensures SimpleTemplate(segments) && Join(segments) == format
  {
    SnapshotSimple(segments);
    SnapshotText(segments, format);
  }

  lemma SnapshotSimple(segments: seq<Segment>)
    requires segments == [Placeholder("version"), Literal("-SNAPSHOT")]
    ensures SimpleTemplate(segments)
  {
  }

  lemma SnapshotText(segments: seq<Segment>, format: string)
    requires segments == [Placeholder("version"), Literal("-SNAPSHOT")] && format == "{version}-SNAPSHOT"
    ensures Join(segments) == format
  {
    JoinPair(Placeholder("version"), Literal("-SNAPSHOT"));
    assert Token("version") == "{version}";
  }


  lemma SnapshotResolved(info: VersionInfo, segments: seq<Segment>)
    requires segments == [Placeholder("version"), Literal("-SNAPSHOT")]
    ensures Join(Resolve(segments, info)) == BaseVersion(info) + "-SNAPSHOT"
  {
    assert Resolve(segments, info) == [Literal(BaseVersion(info)), Literal("-SNAPSHOT")];
    JoinPair(Literal(BaseVersion(info)), Literal("-SNAPSHOT"));
  }

  lemma SnapshotTidy(base: string, text: string)
    requires NoSeparator(base) && text == base + "-SNAPSHOT"
    ensures NoAdjacentSeparators(text) && !IsSeparator(text[|text| - 1])
  {
    forall i | 0 <= i < |text| - 1
      ensures !(IsSeparator(text[i]) && IsSeparator(text[i + 1]))
    {
      if i < |base| {
        assert text[i] == base[i] && base[i] in base;
      } else {
        assert text[i + 1] == "-SNAPSHOT"[i + 1 - |base|];
      }
    }
    assert text[|text| - 1] == 'T';
  }

  /** The help's `{major}.{minor}` example: `1.2`. */
  lemma FormatMajorMinor(info: VersionInfo, format: string)
    requires PlainInfo(info) && format == "{major}.{minor}"
    ensures Formatted(info, format) == info.Major + "." + info.Minor
  {
    var segments := [Placeholder("major"), Literal("."), Placeholder("minor")];
    var text := info.Major + "." + info.Minor;
    MajorMinorTemplate(segments, format);
    assert Join(Resolve(segments, info)) == text by {
      MajorMinorResolved(info, segments);
    }
    assert NoSeparator(text);
    NoSeparatorTidy(text);
    FormatSimple(info, segments, text);
  }

  lemma MajorMinorTemplate(segments: seq<Segment>, format: string)
    requires segments == [Placeholder("major"), Literal("."), Placeholder("minor")] && format == "{major}.{minor}"
    ensures SimpleTemplate(segments) && Join(segments) == format
  {
    MajorMinorSimple(segments);
    MajorMinorText(segments, format);
  }

  lemma MajorMinorSimple(segments: seq<Segment>)
    requires segments == [Placeholder("major"), Literal("."), Placeholder("minor")]
    ensures SimpleTemplate(segments)
  {
  }

  lemma MajorMinorText(segments: seq<Segment>, format: string)
    requires segments == [Placeholder("major"), Literal("."), Placeholder("minor")] && format == "{major}.{minor}"
    ensures Join(segments) == format
  {
    JoinThree(Placeholder("major"), Literal("."), Placeholder("minor"));
    assert Token("major") == "{major}" && Token("minor") == "{minor}";
  }


  lemma MajorMinorResolved(info: VersionInfo, segments: seq<Segment>)
    requires segments == [Placeholder("major"), Literal("."), Placeholder("minor")]
    ensures Join(Resolve(segments, info)) == info.Major + "." + info.Minor
  {
    assert Resolve(segments, info) == [Literal(info.Major), Literal("."), Literal(info.Minor)];
    JoinThree(Literal(info.Major), Literal("."), Literal(info.Minor));
  }

  // ----- convertTimeFormat ---------------------------------------------

  /** The pairs `convertTimeFormat` hands to `strings.NewReplacer`, in
      argument order: each human-readable field becomes the field of Go's
      reference time. */
  const TimeLayoutPairs: seq<Pair> := [
    Pair("YYYY", "2006"), Pair("YY", "06"), Pair("MM", "01"), Pair("dd", "02"),
    Pair("HH", "15"), Pair("mm", "04"), Pair("ss", "05")]

  /** The letters the human-readable fields are written with. */
  const LayoutLetters: set<char> := {'Y', 'M', 'd', 'H', 'm', 's'}

  lemma TimeLayoutPairsShape()
    ensures NonEmptyTargets(TimeLayoutPairs) && LengthPreserving(TimeLayoutPairs)
    ensures TargetsWithin(TimeLayoutPairs, LayoutLetters)
  {
  }

  /** `convertTimeFormat(format)`: the Go layout is exactly as long as the
      pattern, since every field is replaced by one of its own length. */
  function ConvertTimeFormat(format: string): (r: string)
    ensures |r| == |format|
  {
    TimeLayoutPairsShape();
    Replace(TimeLayoutPairs, format)
  }

  /** The layout is exactly as long as the pattern, and every character
      that is not a field letter keeps its place. */
  lemma ConvertTimeFormatKeeps(format: string, i: nat)
    requires i < |format| && format[i] !in LayoutLetters
    ensures |ConvertTimeFormat(format)| == |format|
    ensures ConvertTimeFormat(format)[i] == format[i]
  {
    TimeLayoutPairsShape();
    ReplaceKeeps(TimeLayoutPairs, LayoutLetters, format, i);
  }

  /** A field at the front of the pattern becomes its Go field: `YYYY`
      wins over `YY` because it comes first. */
  lemma ConvertField(k: nat, rest: string)
    requires k < |TimeLayoutPairs| && (k == 1 ==> !HasPrefix(rest, "YY"))
    ensures ConvertTimeFormat(TimeLayoutPairs[k].target + rest)
         == TimeLayoutPairs[k].replacement + ConvertTimeFormat(rest)
  {
    TimeLayoutPairsShape();
    var s := TimeLayoutPairs[k].target + rest;
    assert HasPrefix(s, TimeLayoutPairs[k].target) by {
      assert s[..|TimeLayoutPairs[k].target|] == TimeLayoutPairs[k].target;
    }
    forall j | 0 <= j < k
      ensures !HasPrefix(s, TimeLayoutPairs[j].target)
    {
      if k == 1 {
        assert |s| >= 4 ==> s[2..4] == rest[..2];
      } else {
        assert s[0] == TimeLayoutPairs[k].target[0];
      }
    }
    FirstMatchAt(TimeLayoutPairs, s, k);
    ReplaceFront(TimeLayoutPairs, k, rest);
  }

  /** All six fields of the default pattern, in its order. */
  lemma ConvertAllFields(rest: string)
    ensures ConvertTimeFormat("YYYY" + ("MM" + ("dd" + ("HH" + ("mm" + ("ss" + rest))))))
         == "2006" + ("01" + ("02" + ("15" + ("04" + ("05" + ConvertTimeFormat(rest))))))
  {
    ConvertField(6, rest);
    ConvertField(5, "ss" + rest);
    ConvertField(4, "mm" + ("ss" + rest));
    ConvertField(3, "HH" + ("mm" + ("ss" + rest)));
    ConvertField(2, "dd" + ("HH" + ("mm" + ("ss" + rest))));
    ConvertField(0, "MM" + ("dd" + ("HH" + ("mm" + ("ss" + rest)))));
  }

  lemma DefaultPatternPieces()
    ensures "YYYY" + ("MM" + ("dd" + ("HH" + ("mm" + ("ss" + ""))))) == "YYYYMMddHHmmss"
  {
  }

  lemma DefaultLayoutPieces()
    ensures "2006" + ("01" + ("02" + ("15" + ("04" + ("05" + ""))))) == "20060102150405"
  {
  }

  /** The default pattern gives Go's layout `20060102150405`. */
  lemma ConvertDefaultTimestamp(format: string)
    requires format == "YYYYMMddHHmmss"
    ensures ConvertTimeFormat(format) == "20060102150405"
  {
    DefaultPatternPieces();
    DefaultLayoutPieces();
    var empty := "";
    assert ConvertTimeFormat(empty) == empty;
    ConvertAllFields(empty);
  }
}
