/** The half of the Go tool (main.go) that turns what `git describe`
    printed, or the configured default, into a `VersionInfo`, and then
    into the printed version. */
module DescribeDecoding {
  import opened Wrappers
  import opened JavaLang
  import opened GoStrings
  import opened VersionFormat

  predicate IsLetter(c: char) { 'a' <= c <= 'z' || 'A' <= c <= 'Z' }

  /** The character classes the two regular expressions use: `\d`,
      `[a-zA-Z0-9.]` and `[0-9a-f]`, all ASCII as in Go's RE2. */
  datatype CharClass = Digits | PrereleaseChars | HexDigits

  predicate InClass(c: char, k: CharClass)
  {
    match k
    case Digits => IsDigit(c)
    case PrereleaseChars => IsLetter(c) || IsDigit(c) || c == '.'
    case HexDigits => IsDigit(c) || 'a' <= c <= 'f'
  }

  predicate AllIn(s: string, k: CharClass)
  {
    forall i :: 0 <= i < |s| ==> InClass(s[i], k)
  }

  /** The length of the longest prefix of `s` within class `k`: what a
      greedy `[...]*` consumes. */
  function Span(s: string, k: CharClass): (n: nat)
    ensures n <= |s| && AllIn(s[..n], k)
    ensures n < |s| ==> !InClass(s[n], k)
    decreases |s|
  {
    if |s| > 0 && InClass(s[0], k) then
      var n := 1 + Span(s[1..], k);
      assert s[..n] == [s[0]] + s[1..][..n - 1];
      n
    else 0
  }

  /** A class-`k` run followed by a character outside `k` spans exactly
      the run. */
  lemma {:induction false} SpanOf(a: string, b: string, k: CharClass)
    requires AllIn(a, k) && (|b| > 0 ==> !InClass(b[0], k))
    ensures Span(a + b, k) == |a|
    decreases |a|
  {
    if |a| > 0 {
      assert (a + b)[1..] == a[1..] + b;
      SpanOf(a[1..], b, k);
    } else {
      assert a + b == b;
    }
  }

  /** A `(\d+)` group: the digits and what follows them. */
  datatype Split = Split(group: string, rest: string)

  function MatchNumber(s: string): Option<Split>
  {
    var n := Span(s, Digits);
    if n == 0 then None else Some(Split(s[..n], s[n..]))
  }

  predicate IsNumber(d: string) { |d| > 0 && AllDigits(d) }

  /** `rest` cannot continue a run of digits. */
  predicate EndsNumber(rest: string) { |rest| > 0 ==> !IsDigit(rest[0]) }

  lemma NumberSound(s: string)
    requires MatchNumber(s).Some?
    ensures IsNumber(MatchNumber(s).value.group) && EndsNumber(MatchNumber(s).value.rest)
    ensures s == MatchNumber(s).value.group + MatchNumber(s).value.rest
  {
    var n := Span(s, Digits);
    assert s == s[..n] + s[n..];
    assert s[n..] != [] ==> s[n..][0] == s[n];
  }

  lemma NumberComplete(d: string, rest: string)
    requires IsNumber(d) && EndsNumber(rest)
    ensures MatchNumber(d + rest) == Some(Split(d, rest))
  {
    SpanOf(d, rest, Digits);
    assert (d + rest)[..|d|] == d;
    assert (d + rest)[|d|..] == rest;
  }

  /** `(\d+)\.(\d+)\.(\d+)` at the front and what follows it. */
  datatype Core = Core(major: string, minor: string, patch: string, rest: string)

  function MatchCore(s: string): Option<Core>
  {
    match MatchNumber(s)
    case None => None
    case Some(first) =>
      if |first.rest| == 0 || first.rest[0] != '.' then None
      else match MatchNumber(first.rest[1..])
        case None => None
        case Some(second) =>
          if |second.rest| == 0 || second.rest[0] != '.' then None
          else match MatchNumber(second.rest[1..])
            case None => None
            case Some(third) => Some(Core(first.group, second.group, third.group, third.rest))
  }

  function RenderCore(c: Core): string
  {
    c.major + "." + c.minor + "." + c.patch + c.rest
  }

  predicate WellFormedCore(c: Core)
  {
    IsNumber(c.major) && IsNumber(c.minor) && IsNumber(c.patch) && EndsNumber(c.rest)
  }

  /** One `(\d+)` group followed by a `.`. */
  lemma NumberDotSound(s: string)
    requires MatchNumber(s).Some?
    requires |MatchNumber(s).value.rest| > 0 && MatchNumber(s).value.rest[0] == '.'
    ensures s == MatchNumber(s).value.group + "." + MatchNumber(s).value.rest[1..]
  {
    NumberSound(s);
    var r := MatchNumber(s).value.rest;
    assert r == "." + r[1..];
  }

  lemma CoreSound(s: string)
    requires MatchCore(s).Some?
    ensures WellFormedCore(MatchCore(s).value) && RenderCore(MatchCore(s).value) == s
  {
    var first := MatchNumber(s).value;
    var s2 := first.rest[1..];
    var second := MatchNumber(s2).value;
    var s3 := second.rest[1..];
    var third := MatchNumber(s3).value;
    var core := Core(first.group, second.group, third.group, third.rest);
    assert MatchCore(s).value == core;
    assert IsNumber(first.group) && s == first.group + "." + s2 by { NumberDotSound(s); NumberSound(s); }
    assert IsNumber(second.group) && s2 == second.group + "." + s3 by { NumberDotSound(s2); NumberSound(s2); }
    assert IsNumber(third.group) && EndsNumber(third.rest) && s3 == third.group + third.rest by { NumberSound(s3); }
    assert WellFormedCore(core);
    CoreText(first.group, second.group, third.group, third.rest);
  }

  lemma CoreText(a: string, b: string, c: string, d: string)
    ensures RenderCore(Core(a, b, c, d)) == a + "." + (b + "." + (c + d))
  {
  }

  lemma CoreComplete(c: Core)
    requires WellFormedCore(c)
    ensures MatchCore(RenderCore(c)) == Some(c)
  {
    var tail2 := c.patch + c.rest;
    var tail1 := c.minor + "." + tail2;
    CoreText(c.major, c.minor, c.patch, c.rest);
    NumberDotComplete(c.major, tail1);
    NumberDotComplete(c.minor, tail2);
    NumberComplete(c.patch, c.rest);
  }

  /** A `(\d+)` group followed by a `.`. */
  lemma NumberDotComplete(d: string, rest: string)
    requires IsNumber(d)
    ensures MatchNumber(d + "." + rest) == Some(Split(d, "." + rest))
    ensures ("." + rest)[0] == '.' && ("." + rest)[1..] == rest
  {
    assert d + "." + rest == d + ("." + rest);
    NumberComplete(d, "." + rest);
  }


  /** `(-(\d+)-g([0-9a-f]+))?$`: the commit count and abbreviated hash,
      both empty when the group is absent. */
  datatype Commits = Commits(count: string, hash: string)

  function MatchCommits(t: string): Option<Commits>
  {
    if |t| == 0 then Some(Commits("", ""))
    else if t[0] != '-' then None
    else match MatchNumber(t[1..])
      case None => None
      case Some(n) =>
        if |n.rest| > 2 && n.rest[0] == '-' && n.rest[1] == 'g' && AllIn(n.rest[2..], HexDigits)
        then Some(Commits(n.group, n.rest[2..]))
        else None
  }

  function RenderCommits(c: Commits): string
  {
    if c.count == "" then "" else "-" + c.count + "-g" + c.hash
  }

  predicate WellFormedCommits(c: Commits)
  {
    (c.count == "" && c.hash == "") || (IsNumber(c.count) && |c.hash| > 0 && AllIn(c.hash, HexDigits))
  }

  lemma CommitsSound(t: string)
    requires MatchCommits(t).Some?
    ensures WellFormedCommits(MatchCommits(t).value) && RenderCommits(MatchCommits(t).value) == t
  {
    if |t| > 0 {
      var n := MatchNumber(t[1..]).value;
      var hash := n.rest[2..];
      assert MatchCommits(t).value == Commits(n.group, hash);
      assert IsNumber(n.group) && t[1..] == n.group + n.rest by {
        NumberSound(t[1..]);
      }
      assert n.rest == "-g" + hash;
      assert RenderCommits(Commits(n.group, hash)) == t by {
        assert t == "-" + (n.group + ("-g" + hash));
      }
    }
  }

  lemma CommitsComplete(c: Commits)
    requires WellFormedCommits(c)
    ensures MatchCommits(RenderCommits(c)) == Some(c)
  {
    if c.count != "" {
      var t := RenderCommits(c);
      assert t == "-" + (c.count + ("-g" + c.hash));
      assert t[1..] == c.count + ("-g" + c.hash);
      NumberComplete(c.count, "-g" + c.hash);
      assert ("-g" + c.hash)[2..] == c.hash;
    }
  }

  /** `(-([a-zA-Z][a-zA-Z0-9.]*))?` followed by the commits group. */
  datatype Suffix = Suffix(prerelease: string, commits: Commits)

  function MatchSuffix(t: string): Option<Suffix>
  {
    if |t| >= 2 && t[0] == '-' && IsLetter(t[1]) then
      var n := 1 + Span(t[2..], PrereleaseChars);
      match MatchCommits(t[1 + n..])
      case Some(c) => Some(Suffix(t[1..1 + n], c))
      case None => None
    else
      match MatchCommits(t)
      case Some(c) => Some(Suffix("", c))
      case None => None
  }

  function RenderSuffix(x: Suffix): string
  {
    (if x.prerelease == "" then "" else "-" + x.prerelease) + RenderCommits(x.commits)
  }

  predicate IsPrerelease(p: string) { |p| > 0 && IsLetter(p[0]) && AllIn(p, PrereleaseChars) }

  predicate WellFormedSuffix(x: Suffix)
  {
    (x.prerelease == "" || IsPrerelease(x.prerelease)) && WellFormedCommits(x.commits)
  }

  lemma SuffixSound(t: string)
    requires MatchSuffix(t).Some?
    ensures WellFormedSuffix(MatchSuffix(t).value) && RenderSuffix(MatchSuffix(t).value) == t
  {
    if |t| >= 2 && t[0] == '-' && IsLetter(t[1]) {
      PrereleaseSound(t);
    } else {
      CommitsSound(t);
    }
  }

  /** The prerelease branch of `SuffixSound`. */
  lemma PrereleaseSound(t: string)
    requires |t| >= 2 && t[0] == '-' && IsLetter(t[1])
    requires MatchCommits(t[2 + Span(t[2..], PrereleaseChars)..]).Some?
    ensures var n := 1 + Span(t[2..], PrereleaseChars);
            var x := Suffix(t[1..1 + n], MatchCommits(t[1 + n..]).value);
            WellFormedSuffix(x) && RenderSuffix(x) == t
  {
    var m := Span(t[2..], PrereleaseChars);
    PrereleaseSplit(t, m);
    CommitsSound(t[2 + m..]);
  }

  lemma PrereleaseSplit(t: string, m: nat)
    requires |t| >= 2 + m && t[0] == '-' && IsLetter(t[1])
    requires AllIn(t[2..][..m], PrereleaseChars)
    ensures IsPrerelease(t[1..2 + m]) && t == "-" + t[1..2 + m] + t[2 + m..]
  {
    var p := t[1..2 + m];
    assert p == [t[1]] + t[2..][..m];
    assert t == t[..1] + p + t[2 + m..];
  }

  lemma SuffixComplete(x: Suffix)
    requires WellFormedSuffix(x)
    ensures MatchSuffix(RenderSuffix(x)) == Some(x)
  {
    CommitsComplete(x.commits);
    if x.prerelease != "" {
      PrereleaseSuffixComplete(x.prerelease, x.commits);
    } else {
      assert RenderSuffix(x) == RenderCommits(x.commits);
    }
  }

  lemma PrereleaseSuffixComplete(p: string, c: Commits)
    requires IsPrerelease(p) && WellFormedCommits(c)
    requires MatchCommits(RenderCommits(c)) == Some(c)
    ensures MatchSuffix(RenderSuffix(Suffix(p, c))) == Some(Suffix(p, c))
  {
    assert RenderSuffix(Suffix(p, c)) == "-" + p + RenderCommits(c);
    PrereleaseComplete(p, RenderCommits(c));
  }


  /** The prerelease group reads exactly the prerelease. */
  lemma PrereleaseComplete(p: string, c: string)
    requires IsPrerelease(p) && (|c| > 0 ==> c[0] == '-')
    ensures var t := "-" + p + c;
            |t| >= 2 && t[0] == '-' && IsLetter(t[1])
            && 1 + Span(t[2..], PrereleaseChars) == |p|
            && t[1..1 + |p|] == p && t[1 + |p|..] == c
  {
    var t := "-" + p + c;
    assert t[2..] == p[1..] + c;
    assert AllIn(p[1..], PrereleaseChars);
    SpanOf(p[1..], c, PrereleaseChars);
    assert t[1..1 + |p|] == p;
    assert t[1 + |p|..] == c;
  }


  /** A match of the describe pattern: submatches 1, 2, 3, 5, 7 and 8. */
  datatype Describe = Describe(major: string, minor: string, patch: string,
                               prerelease: string, commits: string, hash: string)

  /** The describe pattern
      `^v(\d+)\.(\d+)\.(\d+)(-([a-zA-Z][a-zA-Z0-9.]*))?(-(\d+)-g([0-9a-f]+))?$`
      as a matcher: classes are disjoint from the separators after them,
      so the greedy reading is the only one. Everything it accepts is in
      the pattern's language, with the groups it reports. */
  function MatchDescribe(s: string): (r: Option<Describe>)
    ensures r.Some? ==> WellFormed(r.value) && Render(r.value) == s
  {
    if |s| == 0 || s[0] != 'v' then None
    else match MatchCore(s[1..])
      case None => None
      case Some(core) =>
        match MatchSuffix(core.rest)
        case None => None
        case Some(x) =>
          MatchedParts(s, core, x);
          Some(Describe(core.major, core.minor, core.patch,
                        x.prerelease, x.commits.count, x.commits.hash))
  }

  lemma MatchedParts(s: string, core: Core, x: Suffix)
    requires |s| > 0 && s[0] == 'v'
    requires MatchCore(s[1..]) == Some(core) && MatchSuffix(core.rest) == Some(x)
    ensures var d := Describe(core.major, core.minor, core.patch,
                              x.prerelease, x.commits.count, x.commits.hash);
            WellFormed(d) && Render(d) == s
  {
    var d := Describe(core.major, core.minor, core.patch, x.prerelease, x.commits.count, x.commits.hash);
    assert WellFormedCore(core) && RenderCore(core) == s[1..] by { CoreSound(s[1..]); }
    assert WellFormedSuffix(x) && RenderSuffix(x) == core.rest by { SuffixSound(core.rest); }
    RenderParts(d);
    assert s == "v" + s[1..];
  }

  /** The text a match stands for: `v0.1.0`, `v0.1.0-beta1`,
      `v0.1.0-5-g1a2b3c4` or `v0.1.0-beta1-5-g1a2b3c4`. */
  function Render(d: Describe): string
  {
    "v" + d.major + "." + d.minor + "." + d.patch
      + RenderSuffix(Suffix(d.prerelease, Commits(d.commits, d.hash)))
  }

  predicate WellFormed(d: Describe)
  {
    IsNumber(d.major) && IsNumber(d.minor) && IsNumber(d.patch)
    && WellFormedSuffix(Suffix(d.prerelease, Commits(d.commits, d.hash)))
  }

  /** A match is "v", then the core numbers, then the suffix. */
  lemma RenderParts(d: Describe)
    ensures Render(d) == "v" + RenderCore(Core(d.major, d.minor, d.patch,
                                     RenderSuffix(Suffix(d.prerelease, Commits(d.commits, d.hash)))))
  {
  }

  /** Everything in the language is accepted with its groups. */
  lemma DescribeComplete(d: Describe)
    requires WellFormed(d)
    ensures MatchDescribe(Render(d)) == Some(d)
  {
    var x := Suffix(d.prerelease, Commits(d.commits, d.hash));
    var core := Core(d.major, d.minor, d.patch, RenderSuffix(x));
    assert EndsNumber(RenderSuffix(x)) by { SuffixStart(x); }
    assert MatchCore(RenderCore(core)) == Some(core) by { CoreComplete(core); }
    assert MatchSuffix(RenderSuffix(x)) == Some(x) by { SuffixComplete(x); }
    RenderParts(d);
    assert Render(d)[1..] == RenderCore(core);
  }

  /** A suffix is empty or starts with `-`. */
  lemma SuffixStart(x: Suffix)
    ensures |RenderSuffix(x)| > 0 ==> RenderSuffix(x)[0] == '-'
  {
  }

  /** The default pattern `^(\d+)\.(\d+)\.(\d+)$`: what it accepts is three
      digit groups joined by dots. */
  function MatchDefault(s: string): (r: Option<Core>)
    ensures r.Some? ==> WellFormedCore(r.value) && r.value.rest == "" && RenderCore(r.value) == s
  {
    match MatchCore(s)
    case Some(core) =>
      CoreSound(s);
      if core.rest == "" then Some(core) else None
    case None => None
  }

  lemma DefaultComplete(major: string, minor: string, patch: string)
    requires IsNumber(major) && IsNumber(minor) && IsNumber(patch)
    ensures MatchDefault(major + "." + minor + "." + patch) == Some(Core(major, minor, patch, ""))
  {
    CoreComplete(Core(major, minor, patch, ""));
    assert RenderCore(Core(major, minor, patch, "")) == major + "." + minor + "." + patch;
  }

  /** The version parts `getVersion` takes from the describe text, or from
      the default when the text does not match; the timestamp is left
      empty. */
  function DecodeVersionInfo(gitDescribe: string, defaultVersion: string, metadata: string): (info: VersionInfo)
    ensures info.Metadata == metadata && info.Timestamp == ""
  {
    match MatchDescribe(gitDescribe)
    case Some(d) => VersionInfo(d.major, d.minor, d.patch, d.prerelease, d.commits, "", metadata)
    case None =>
      match MatchDefault(defaultVersion)
      case Some(core) => VersionInfo(core.major, core.minor, core.patch, "", "", "", metadata)
      case None => VersionInfo(defaultVersion, "", "", "", "", "", metadata)
  }

  /** A describe text that matches gives its parts, all but the hash. */
  lemma DecodeDescribed(d: Describe, defaultVersion: string, metadata: string)
    requires WellFormed(d)
    ensures DecodeVersionInfo(Render(d), defaultVersion, metadata)
         == VersionInfo(d.major, d.minor, d.patch, d.prerelease, d.commits, "", metadata)
  {
    DescribeComplete(d);
  }

  /** A text that does not match falls back to the default, which is
      split into three parts when it has the form `X.Y.Z`. */
  lemma DecodeDefault(gitDescribe: string, major: string, minor: string, patch: string, metadata: string)
    requires MatchDescribe(gitDescribe).None?
    requires IsNumber(major) && IsNumber(minor) && IsNumber(patch)
    ensures DecodeVersionInfo(gitDescribe, major + "." + minor + "." + patch, metadata)
         == VersionInfo(major, minor, patch, "", "", "", metadata)
  {
    DefaultComplete(major, minor, patch);
  }

  /** Neither pattern matches, whatever git printed: the default becomes
      the major part, with every other part empty. */
  lemma DecodeFallback(gitDescribe: string, defaultVersion: string, metadata: string)
    requires MatchDescribe(gitDescribe).None? && MatchDefault(defaultVersion).None?
    ensures DecodeVersionInfo(gitDescribe, defaultVersion, metadata)
         == VersionInfo(defaultVersion, "", "", "", "", "", metadata)
  {
  }

  /** The text decoded by `getVersion`: what git printed, without the
      surrounding white space, or `v` and the default when git failed. */
  function DescribeText(describeOutput: Option<string>, defaultVersion: string): string
  {
    if describeOutput.None? then "v" + defaultVersion else TrimSpace(describeOutput.value)
  }

  /** `getVersion`, with git and the clock as inputs: `describeOutput` is
      what `git describe` printed (`None` when it failed), `stamp` the
      current time in the converted layout when the working tree has
      uncommitted changes (`None` when it is clean or `git status`
      failed). */
  function GetVersion(describeOutput: Option<string>, stamp: Option<string>, metadata: string,
                      defaultVersion: string, format: string): (version: string)
    ensures NoAdjacentSeparators(version) && NoTrailingSeparator(version)
  {
    var info := DecodeVersionInfo(DescribeText(describeOutput, defaultVersion), defaultVersion, metadata);
    var info := if stamp.Some? then info.(Timestamp := stamp.value) else info;
    Formatted(info, format)
  }

  // ----- From the describe text to the printed version ------------------

  function StampText(stamp: Option<string>): string
  {
    if stamp.Some? then stamp.value else ""
  }

  /** Text made of one class's characters needs no clean-up and opens no
      placeholder. */
  lemma ClassIsPlain(s: string, k: CharClass)
    requires AllIn(s, k)
    ensures Plain(s)
  {
    forall c | c in s
      ensures c != '{' && c != '}' && c != '-' && c != '+'
    {
      var i :| 0 <= i < |s| && s[i] == c;
      assert InClass(s[i], k);
    }
  }

  /** The parts of a match, with a stamp and metadata whose separators
      are inner ones, make version parts that clean-up leaves alone. */
  lemma WellFormedParts(d: Describe, timestamp: string, metadata: string)
    requires WellFormed(d) && PartValue(timestamp) && PartValue(metadata)
    ensures PartsInfo(VersionInfo(d.major, d.minor, d.patch, d.prerelease, d.commits, timestamp, metadata))
  {
    ClassIsPlain(d.major, Digits);
    ClassIsPlain(d.minor, Digits);
    ClassIsPlain(d.patch, Digits);
    ClassIsPlain(d.prerelease, PrereleaseChars);
    ClassIsPlain(d.commits, Digits);
    PlainIsPartValue(d.prerelease);
    PlainIsPartValue(d.commits);
  }


  lemma LastChar(a: string, b: string)
    requires |b| > 0
    ensures |a + b| > 0 && (a + b)[|a + b| - 1] == b[|b| - 1]
  {
  }

  lemma ClassNotSpace(s: string, k: CharClass)
    requires |s| > 0 && AllIn(s, k)
    ensures s[|s| - 1] !in AsciiSpace
  {
    assert InClass(s[|s| - 1], k);
  }

  /** A non-empty suffix ends in a prerelease character or a hex digit. */
  lemma SuffixEnds(x: Suffix)
    requires WellFormedSuffix(x) && RenderSuffix(x) != ""
    ensures RenderSuffix(x)[|RenderSuffix(x)| - 1] !in AsciiSpace
  {
    var front := if x.prerelease == "" then "" else "-" + x.prerelease;
    var c := RenderCommits(x.commits);
    assert RenderSuffix(x) == front + c;
    if c != "" {
      assert c == "-" + x.commits.count + "-g" + x.commits.hash;
      LastChar("-" + x.commits.count + "-g", x.commits.hash);
      ClassNotSpace(x.commits.hash, HexDigits);
      LastChar(front, c);
    } else {
      assert RenderSuffix(x) == "-" + x.prerelease;
      LastChar("-", x.prerelease);
      ClassNotSpace(x.prerelease, PrereleaseChars);
    }
  }

  /** A match starts with `v` and ends in a digit, a prerelease character
      or a hex digit: never in white space. */
  lemma RenderEnds(d: Describe)
    requires WellFormed(d)
    ensures |Render(d)| > 0 && Render(d)[0] == 'v'
    ensures Render(d)[|Render(d)| - 1] !in AsciiSpace
  {
    var core := "v" + d.major + "." + d.minor + ".";
    var x := Suffix(d.prerelease, Commits(d.commits, d.hash));
    var suffix := RenderSuffix(x);
    assert Render(d) == (core + d.patch) + suffix;
    if suffix != "" {
      SuffixEnds(x);
      LastChar(core + d.patch, suffix);
    } else {
      assert Render(d) == core + d.patch;
      LastChar(core, d.patch);
      ClassNotSpace(d.patch, Digits);
    }
  }


  /** A describe text that matches, with any white space around it, gives
      every part but the hash to the formatter, with the stamp when the
      tree was dirty. */
  lemma DescribedVersion(d: Describe, before: string, after: string, stamp: Option<string>,
                         metadata: string, defaultVersion: string, format: string)
    requires WellFormed(d) && OnlyOf(before, AsciiSpace) && OnlyOf(after, AsciiSpace)
    ensures GetVersion(Some(before + Render(d) + after), stamp, metadata, defaultVersion, format)
         == Formatted(VersionInfo(d.major, d.minor, d.patch, d.prerelease, d.commits,
                                  StampText(stamp), metadata), format)
  {
    RenderEnds(d);
    TrimSpaceStrips(before, Render(d), after);
    DescribeComplete(d);
  }

  /** With `{version+}`, a tag `vX.Y.Z[-pre][-N-gHASH]` prints as
      `X.Y.Z`, then `-pre`, `-N`, `-stamp` and `+metadata`, each only
      when present. */
  lemma DescribedFullVersion(d: Describe, before: string, after: string, stamp: Option<string>,
                             metadata: string, defaultVersion: string, format: string)
    requires WellFormed(d) && OnlyOf(before, AsciiSpace) && OnlyOf(after, AsciiSpace)
    requires PartValue(StampText(stamp)) && PartValue(metadata)
    requires format == "{version+}"
    ensures GetVersion(Some(before + Render(d) + after), stamp, metadata, defaultVersion, format)
         == d.major + "." + d.minor + "." + d.patch + Optional('-', d.prerelease)
            + Optional('-', d.commits) + Optional('-', StampText(stamp)) + Optional('+', metadata)
  {
    var info := VersionInfo(d.major, d.minor, d.patch, d.prerelease, d.commits, StampText(stamp), metadata);
    DescribedVersion(d, before, after, stamp, metadata, defaultVersion, format);
    WellFormedParts(d, StampText(stamp), metadata);
    FormatFullVersion(info, format);
  }

  /** When git fails and the default is `X.Y.Z`, `{version+}` prints the
      default, then the stamp and the metadata when present. */
  lemma UntaggedVersion(major: string, minor: string, patch: string, stamp: Option<string>,
                        metadata: string, defaultVersion: string, format: string)
    requires IsNumber(major) && IsNumber(minor) && IsNumber(patch)
    requires defaultVersion == major + "." + minor + "." + patch
    requires PartValue(StampText(stamp)) && PartValue(metadata) && format == "{version+}"
    ensures GetVersion(None, stamp, metadata, defaultVersion, format)
         == defaultVersion + Optional('-', StampText(stamp)) + Optional('+', metadata)
  {
    var d := Describe(major, minor, patch, "", "", "");
    assert Render(d) == "v" + defaultVersion by {
      assert RenderSuffix(Suffix("", Commits("", ""))) == "";
    }
    var text := GetVersion(Some(Render(d)), stamp, metadata, defaultVersion, format);
    assert text == defaultVersion + Optional('-', "") + Optional('-', "")
                   + Optional('-', StampText(stamp)) + Optional('+', metadata) by {
      Unpadded(Render(d));
      DescribedFullVersion(d, "", "", stamp, metadata, defaultVersion, format);
    }
    assert text == defaultVersion + Optional('-', StampText(stamp)) + Optional('+', metadata) by {
      DropEmpty(defaultVersion, Optional('-', StampText(stamp)), Optional('+', metadata));
    }
    assert GetVersion(None, stamp, metadata, defaultVersion, format) == text by {
      FailedDescribe(d, stamp, metadata, defaultVersion, format);
    }
  }

  lemma Unpadded(s: string)
    ensures OnlyOf("", AsciiSpace) && "" + s + "" == s
  {
  }

  lemma DropEmpty(a: string, b: string, c: string)
    ensures a + Optional('-', "") + Optional('-', "") + b + c == a + b + c
  {
    assert a + [] + [] == a;
  }

  /** A failed `git describe` reads the same as the describe text `v`
      followed by the default. */
  lemma FailedDescribe(d: Describe, stamp: Option<string>, metadata: string,
                       defaultVersion: string, format: string)
    requires WellFormed(d) && Render(d) == "v" + defaultVersion
    ensures GetVersion(None, stamp, metadata, defaultVersion, format)
         == GetVersion(Some(Render(d)), stamp, metadata, defaultVersion, format)
  {
    RenderEnds(d);
    TrimSpaceKeeps(Render(d));
  }

  /** When git fails, a default that reads as a describe text once `v` is
      put before it is decoded by the describe pattern, before the default
      pattern is tried. */
  lemma DescribeLikeDefault(d: Describe, stamp: Option<string>, metadata: string,
                            defaultVersion: string, format: string)
    requires WellFormed(d) && Render(d) == "v" + defaultVersion
    ensures GetVersion(None, stamp, metadata, defaultVersion, format)
         == Formatted(VersionInfo(d.major, d.minor, d.patch, d.prerelease, d.commits,
                                  StampText(stamp), metadata), format)
  {
    FailedDescribe(d, stamp, metadata, defaultVersion, format);
    Unpadded(Render(d));
    DescribedVersion(d, "", "", stamp, metadata, defaultVersion, format);
  }

  /** The default `1.2.3-rc1` is not `X.Y.Z`, yet it gives 1, 2, 3 and the
      prerelease `rc1`. */
  lemma PrereleaseDefaultExample(stamp: Option<string>, metadata: string, format: string)
    ensures GetVersion(None, stamp, metadata, "1.2.3-rc1", format)
         == Formatted(VersionInfo("1", "2", "3", "rc1", "", StampText(stamp), metadata), format)
  {
    var d := Describe("1", "2", "3", "rc1", "", "");
    assert WellFormed(d);
    assert Render(d) == "v" + "1.2.3-rc1" by {
      assert RenderSuffix(Suffix("rc1", Commits("", ""))) == "-rc1";
      assert "v" + "1" + "." + "2" + "." + "3" + "-rc1" == "v" + "1.2.3-rc1";
    }
    DescribeLikeDefault(d, stamp, metadata, "1.2.3-rc1", format);
  }

  /** A default that is not `X.Y.Z`, with a decoded text that is not a
      describe text either, becomes the major part with empty minor and
      patch, so `{version+}` prints it followed by two dots. */
  lemma NonStandardDefault(describeOutput: Option<string>, stamp: Option<string>, metadata: string,
                           defaultVersion: string, format: string)
    requires MatchDescribe(DescribeText(describeOutput, defaultVersion)).None?
    requires MatchDefault(defaultVersion).None?
    requires Plain(defaultVersion) && PartValue(StampText(stamp)) && PartValue(metadata)
    requires format == "{version+}"
    ensures GetVersion(describeOutput, stamp, metadata, defaultVersion, format)
         == defaultVersion + ".." + Optional('-', StampText(stamp)) + Optional('+', metadata)
  {
    var info := VersionInfo(defaultVersion, "", "", "", "", StampText(stamp), metadata);
    FallbackVersion(describeOutput, stamp, metadata, defaultVersion, format);
    FallbackParts(defaultVersion, StampText(stamp), metadata);
    FormatFullVersion(info, format);
    DropEmpty(BaseVersion(info), Optional('-', StampText(stamp)), Optional('+', metadata));
    TwoDots(defaultVersion);
  }

  lemma FallbackParts(major: string, timestamp: string, metadata: string)
    requires Plain(major) && PartValue(timestamp) && PartValue(metadata)
    ensures PartsInfo(VersionInfo(major, "", "", "", "", timestamp, metadata))
  {
    NothingIsPartValue();
  }

  lemma TwoDots(major: string)
    ensures BaseVersion(VersionInfo(major, "", "", "", "", "", "")) == major + ".."
  {
    assert major + "." + "" + "." + "" == major + ("." + ".");
  }

  /** Neither pattern matches the decoded text and the default, whether
      git succeeded or not: the default is the major part. */
  lemma FallbackVersion(describeOutput: Option<string>, stamp: Option<string>, metadata: string,
                        defaultVersion: string, format: string)
    requires MatchDescribe(DescribeText(describeOutput, defaultVersion)).None?
    requires MatchDefault(defaultVersion).None?
    ensures GetVersion(describeOutput, stamp, metadata, defaultVersion, format)
         == Formatted(VersionInfo(defaultVersion, "", "", "", "", StampText(stamp), metadata), format)
  {
    DecodeFallback(DescribeText(describeOutput, defaultVersion), defaultVersion, metadata);
  }


  /** `v1.2.3` yields 1, 2 and 3 with nothing else. */
  lemma PlainDescribeExample(s: string)
    requires s == "v1.2.3"
    ensures MatchDescribe(s) == Some(Describe("1", "2", "3", "", "", ""))
  {
    var d := Describe("1", "2", "3", "", "", "");
    assert WellFormed(d);
    assert Render(d) == s by {
      assert RenderSuffix(Suffix("", Commits("", ""))) == "";
      assert "v" + "1" + "." + "2" + "." + "3" + "" == s;
    }
    DescribeComplete(d);
  }

  /** The fullest describe text the tool expects, `v0.1.0-beta1-5-g1a2b3c4`,
      yields 0, 1, 0, `beta1`, 5 and the hash. */
  lemma DescribeExample(s: string)
    requires s == "v0.1.0-beta1-5-g1a2b3c4"
    ensures MatchDescribe(s) == Some(Describe("0", "1", "0", "beta1", "5", "1a2b3c4"))
  {
    var d := Describe("0", "1", "0", "beta1", "5", "1a2b3c4");
    assert WellFormed(d);
    assert Render(d) == s by { ExampleText(d, s); }
    DescribeComplete(d);
  }

  lemma ExampleText(d: Describe, s: string)
    requires d == Describe("0", "1", "0", "beta1", "5", "1a2b3c4")
    requires s == "v0.1.0-beta1-5-g1a2b3c4"
    ensures Render(d) == s
  {
    assert "v" + d.major + "." + d.minor + "." + d.patch == "v0.1.0" by { ExampleCore(d); }
    assert RenderSuffix(Suffix(d.prerelease, Commits(d.commits, d.hash))) == "-beta1-5-g1a2b3c4" by {
      ExampleSuffix(d);
    }
    ExampleJoin(s);
  }

  lemma ExampleCore(d: Describe)
    requires d == Describe("0", "1", "0", "beta1", "5", "1a2b3c4")
    ensures "v" + d.major + "." + d.minor + "." + d.patch == "v0.1.0"
  {
  }

  lemma ExampleSuffix(d: Describe)
    requires d == Describe("0", "1", "0", "beta1", "5", "1a2b3c4")
    ensures RenderSuffix(Suffix(d.prerelease, Commits(d.commits, d.hash))) == "-beta1-5-g1a2b3c4"
  {
    assert RenderCommits(Commits(d.commits, d.hash)) == "-5-g1a2b3c4";
  }

  lemma ExampleJoin(s: string)
    requires s == "v0.1.0-beta1-5-g1a2b3c4"
    ensures "v0.1.0" + "-beta1-5-g1a2b3c4" == s
  {
  }

}
