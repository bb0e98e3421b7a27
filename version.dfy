/** `vermouth.Version`: a version number made of three Java `int`s,
    compared field by field, rendered as `major.minor.patch` and parsed
    forgivingly from text. */
module Versions {
  import opened Wrappers
  import opened JavaLang

  datatype Version = Version(major: int32, minor: int32, patch: int32)

  /** What `new Version()` holds: every field starts at 0. */
  const Initial: Version := Version(0, 0, 0)

  /** The order the comparison implements, stated independently of it:
      `a` comes strictly before `b` when the first field in which they
      differ is smaller in `a`. */
  ghost predicate Precedes(a: Version, b: Version)
  {
    || a.major < b.major
    || (a.major == b.major && a.minor < b.minor)
    || (a.major == b.major && a.minor == b.minor && a.patch < b.patch)
  }

  /** `compare(Version)`: -1, 0 or 1 as `v` comes before, equals or comes
      after `other`. */
  function Compare(v: Version, other: Version): (r: int)
    ensures r == -1 || r == 0 || r == 1
    ensures r == 0 <==> v == other
    ensures r == -1 <==> Precedes(v, other)
    ensures r == 1 <==> Precedes(other, v)
  {
    if v.major != other.major then (if v.major > other.major then 1 else -1)
    else if v.minor != other.minor then (if v.minor > other.minor then 1 else -1)
    else if v.patch != other.patch then (if v.patch > other.patch then 1 else -1)
    else 0
  }

  /** `compare(String)`: the text is parsed first. */
  function CompareString(v: Version, text: string): (r: int)
    ensures r == 0 <==> v == Parse(text)
    ensures r == -1 <==> Precedes(v, Parse(text))
    ensures r == 1 <==> Precedes(Parse(text), v)
  {
    Compare(v, Parse(text))
  }

  /** `equals(Version)`. */
  function Equals(v: Version, other: Version): (r: bool)
    ensures r <==> v.major == other.major && v.minor == other.minor && v.patch == other.patch
  {
    Compare(v, other) == 0
  }

  /** `equals(String)`: equality with the parsed text, not with the text
      itself. */
  function EqualsString(v: Version, text: string): (r: bool)
    ensures r <==> v == Parse(text)
  {
    CompareString(v, text) == 0
  }

  /** The run-time classes `equals(Object)` can be handed. */
  datatype JavaObject =
    | VersionObject(version: Version)
    | StringObject(text: string)
    | BoxedInteger(value: int32)
    | OtherObject

  /** `equals(Object)`: only a `Version` instance can be equal; a `String`
      passed as an `Object` is not parsed. */
  function EqualsObject(v: Version, obj: JavaObject): (r: bool)
    ensures r <==> obj.VersionObject? && obj.version == v
  {
    if obj.VersionObject? then Equals(v, obj.version) else false
  }

  /** `isGreater(Version)`. */
  function IsGreater(v: Version, other: Version): (r: bool)
    ensures r <==> Precedes(other, v)
  {
    Compare(v, other) == 1
  }

  /** `isGreater(String)`. */
  function IsGreaterString(v: Version, text: string): (r: bool)
    ensures r <==> Precedes(Parse(text), v)
  {
    IsGreater(v, Parse(text))
  }

  /** `isLesser(Version)`. */
  function IsLesser(v: Version, other: Version): (r: bool)
    ensures r <==> Precedes(v, other)
  {
    Compare(v, other) == -1
  }

  /** `isLesser(String)`. */
  function IsLesserString(v: Version, text: string): (r: bool)
    ensures r <==> Precedes(v, Parse(text))
  {
    IsLesser(v, Parse(text))
  }

  /** `toString()`: `parse` reads it back as the same version, for every
      triple of `int`s, negative ones included. */
  function ToString(v: Version): (r: string)
    ensures Parse(r) == v
  {
    ParseRenderedNumbers(v.major, v.minor, v.patch);
    IntToString(v.major) + "." + IntToString(v.minor) + "." + IntToString(v.patch)
  }

  /** `integer(value, defaultValue)`: `Integer.parseInt`, or the default
      when it throws. */
  function Integer(value: string, defaultValue: int32): (r: int32)
    ensures value == "" ==> r == defaultValue
    ensures |value| > 0 && AllDigits(value) && DigitsValue(value) <= MaxInt32 ==> r == DigitsValue(value)
    ensures ParseInt(value).None? ==> r == defaultValue
  {
    match ParseInt(value)
    case Some(n) => n
    case None => defaultValue
  }

  /** `parse(String)`: split on `.`; each of the first three tokens that
      exists is read with `integer(token, 0)`, the rest are ignored. A
      text without a `.` is a lone major number. */
  function Parse(text: string): (v: Version)
    ensures '.' !in text ==> v == Version(Integer(text, 0), 0, 0)
  {
    var tokens := Split(text, '.');
    var major := if |tokens| > 0 then Integer(tokens[0], 0) else Initial.major;
    var minor := if |tokens| > 1 then Integer(tokens[1], 0) else Initial.minor;
    var patch := if |tokens| > 2 then Integer(tokens[2], 0) else Initial.patch;
    Version(major, minor, patch)
  }

  /** The `k`-th `.`-separated field of `text`, read as `parse` reads it;
      a field that is not there reads as 0. */
  function Field(text: string, k: nat): int32
  {
    var pieces := Pieces(text, '.');
    Integer(if k < |pieces| then pieces[k] else "", 0)
  }

  /** `parse` never fails, and each field depends only on its own
      `.`-separated field of the text: dropping trailing empty tokens
      makes no difference, since an empty token reads as 0 anyway. */
  lemma ParseByFields(text: string)
    ensures Parse(text) == Version(Field(text, 0), Field(text, 1), Field(text, 2))
  {
  }

  /** Missing tokens leave the default 0. */
  lemma ParseMissingFields(a: string, b: string)
    requires '.' !in a && '.' !in b
    ensures Parse(a) == Version(Integer(a, 0), 0, 0)
    ensures Parse(a + "." + b) == Version(Integer(a, 0), Integer(b, 0), 0)
  {
    ParseByFields(a + "." + b);
    PiecesCons(a, '.', b);
  }

  /** Text without usable tokens (empty, or only separators) gives what
      the default constructor gives. */
  lemma ParseDefaults()
    ensures Parse("") == Initial
    ensures Parse(".") == Initial
    ensures Parse("..") == Initial
  {
    assert Pieces("", '.') == [""];
    assert Pieces(".", '.') == ["", ""];
    assert Pieces("..", '.') == ["", "", ""];
  }

  /** Parsing reads the first three fields, whatever follows them. */
  lemma ParseFirstThree(text: string, a: string, b: string, c: string)
    requires |Pieces(text, '.')| >= 3
    requires Pieces(text, '.')[0] == a && Pieces(text, '.')[1] == b && Pieces(text, '.')[2] == c
    ensures Parse(text) == Version(Integer(a, 0), Integer(b, 0), Integer(c, 0))
  {
    ParseByFields(text);
  }

  /** The first three fields of `a.b.c` followed by anything are `a`, `b`
      and the first piece of `c` followed by that rest. */
  lemma {:induction false} PiecesOfDotted(a: string, b: string, c: string, rest: string)
    requires '.' !in a && '.' !in b && '.' !in c
    ensures var pieces := Pieces(a + "." + b + "." + c + rest, '.');
      |pieces| >= 3 && pieces[0] == a && pieces[1] == b && pieces[2] == c + Pieces(rest, '.')[0]
  {
    var tail := c + rest;
    PiecesCons(b, '.', tail);
    assert b + "." + tail == b + ['.'] + tail;
    PiecesCons(a, '.', b + "." + tail);
    assert a + "." + b + "." + c + rest == a + ['.'] + (b + "." + tail);
    FirstPieceAppend(c, '.', rest);
  }

  /** Tokens after the third are ignored. */
  lemma ParseIgnoresExtraTokens(a: string, b: string, c: string, rest: string)
    requires '.' !in a && '.' !in b && '.' !in c
    ensures Parse(a + "." + b + "." + c + "." + rest) == Version(Integer(a, 0), Integer(b, 0), Integer(c, 0))
  {
    var text := a + "." + b + "." + c + "." + rest;
    PiecesOfDotted(a, b, c, "." + rest);
    assert text == a + "." + b + "." + c + ("." + rest);
    assert Pieces("." + rest, '.')[0] == "";
    assert c + "" == c;
    ParseFirstThree(text, a, b, c);
  }

  /** Three `.`-free tokens joined by dots are read one by one. */
  lemma ParseDotted(a: string, b: string, c: string)
    requires '.' !in a && '.' !in b && '.' !in c
    ensures Parse(a + "." + b + "." + c) == Version(Integer(a, 0), Integer(b, 0), Integer(c, 0))
  {
    PiecesOfDotted(a, b, c, "");
    assert a + "." + b + "." + c + "" == a + "." + b + "." + c;
    assert c + Pieces("", '.')[0] == c;
    ParseFirstThree(a + "." + b + "." + c, a, b, c);
  }

  /** The renderings of three `int`s contain no `.`, so they read back. */
  lemma ParseRenderedNumbers(x: int32, y: int32, z: int32)
    ensures Parse(IntToString(x) + "." + IntToString(y) + "." + IntToString(z)) == Version(x, y, z)
  {
    var a, b, c := IntToString(x), IntToString(y), IntToString(z);
    assert '.' !in a && '.' !in b && '.' !in c by {
      assert !IsDigit('.');
    }
    ParseDotted(a, b, c);
    ParseIntToString(x);
    ParseIntToString(y);
    ParseIntToString(z);
  }

  /** A token beyond the `int` range reads as 0, like any other token
      `Integer.parseInt` rejects. */
  lemma ParseOverflow(digits: string, b: string, c: string)
    requires |digits| > 0 && AllDigits(digits) && DigitsValue(digits) > MaxInt32
    requires '.' !in b && '.' !in c
    ensures Parse(digits + "." + b + "." + c) == Version(0, Integer(b, 0), Integer(c, 0))
  {
    assert '.' !in digits by {
      assert !IsDigit('.');
    }
    ParseIntOverflow(digits);
    ParseDotted(digits, b, c);
  }

  /** `compare` is antisymmetric. */
  lemma CompareAntisymmetric(a: Version, b: Version)
    ensures Compare(a, b) == -Compare(b, a)
  {
  }

  /** The order is transitive, strictly and non-strictly. */
  lemma CompareTransitive(a: Version, b: Version, c: Version)
    ensures Compare(a, b) <= 0 && Compare(b, c) <= 0 ==> Compare(a, c) <= 0
    ensures Compare(a, b) == -1 && Compare(b, c) == -1 ==> Compare(a, c) == -1
  {
  }

  /** The first differing field decides. */
  lemma CompareLexicographic(a: Version, b: Version)
    ensures a.major != b.major ==> (Compare(a, b) == 1 <==> a.major > b.major)
    ensures a.major == b.major && a.minor != b.minor ==> (Compare(a, b) == 1 <==> a.minor > b.minor)
    ensures a.major == b.major && a.minor == b.minor ==> Compare(a, b) == Compare(Version(0, 0, a.patch), Version(0, 0, b.patch))
  {
  }

  /** For any pair exactly one of `isGreater`, `isLesser` and `equals`
      holds. */
  lemma Trichotomy(a: Version, b: Version)
    ensures IsGreater(a, b) || IsLesser(a, b) || Equals(a, b)
    ensures !(IsGreater(a, b) && IsLesser(a, b))
    ensures !(IsGreater(a, b) && Equals(a, b))
    ensures !(IsLesser(a, b) && Equals(a, b))
  {
  }

  /** The `String` overloads parse and then delegate. */
  lemma StringOverloadsDelegate(v: Version, text: string)
    ensures CompareString(v, text) == Compare(v, Parse(text))
    ensures EqualsString(v, text) == Equals(v, Parse(text))
    ensures IsGreaterString(v, text) == IsGreater(v, Parse(text))
    ensures IsLesserString(v, text) == IsLesser(v, Parse(text))
  {
  }

  /** `equals(String)` compares parsed values: text that differs from
      `toString()` can still be equal, for instance when it carries a
      fourth token. */
  lemma EqualsStringIsNotTextual(v: Version, extra: string)
    ensures EqualsString(v, ToString(v) + "." + extra)
    ensures ToString(v) != ToString(v) + "." + extra
  {
    var a, b, c := IntToString(v.major), IntToString(v.minor), IntToString(v.patch);
    assert '.' !in a && '.' !in b && '.' !in c by {
      assert !IsDigit('.');
    }
    ParseIgnoresExtraTokens(a, b, c, extra);
    ParseIntToString(v.major);
    ParseIntToString(v.minor);
    ParseIntToString(v.patch);
    assert |ToString(v) + "." + extra| > |ToString(v)|;
  }

  /** A qualifier or metadata glued to the patch number spoils the patch
      token, which then reads as 0: `"2.22.42-beta1"` parses as 2.22.0. */
  lemma SuffixSpoilsPatch(a: string, b: string, c: string, marker: char, suffix: string)
    requires '.' !in a && '.' !in b && '.' !in c
    requires |c| > 0 && marker != '.' && !IsDigit(marker)
    ensures Parse(a + "." + b + "." + c + [marker] + suffix) == Version(Integer(a, 0), Integer(b, 0), 0)
  {
    var text := a + "." + b + "." + c + [marker] + suffix;
    PiecesOfDotted(a, b, c, [marker] + suffix);
    assert text == a + "." + b + "." + c + ([marker] + suffix);
    var token := c + Pieces([marker] + suffix, '.')[0];
    FirstPieceStart([marker] + suffix, '.');
    assert token[|c|] == marker;
    ParseIntRejects(token, |c|);
    ParseFirstThree(text, a, b, token);
  }

  lemma SmallRenderings()
    ensures IntToString(0) == "0" && IntToString(1) == "1" && IntToString(10) == "10"
    ensures IntToString(11) == "11" && IntToString(12) == "12" && IntToString(100) == "100"
    ensures IntToString(500) == "500" && IntToString(501) == "501" && IntToString(1200) == "1200"
  {
    assert NatToString(0) == "0" && NatToString(1) == "1" && NatToString(5) == "5";
    assert NatToString(10) == NatToString(1) + "0";
    assert NatToString(11) == NatToString(1) + "1";
    assert NatToString(12) == NatToString(1) + "2";
    assert NatToString(50) == NatToString(5) + "0";
    assert NatToString(100) == NatToString(10) + "0";
    assert NatToString(120) == NatToString(12) + "0";
    assert NatToString(500) == NatToString(50) + "0";
    assert NatToString(501) == NatToString(50) + "1";
    assert NatToString(1200) == NatToString(120) + "0";
  }

  /** The small numbers of the examples read as themselves. */
  lemma SmallTokens()
    ensures Integer("0", 0) == 0 && Integer("1", 0) == 1 && Integer("10", 0) == 10
    ensures Integer("11", 0) == 11 && Integer("12", 0) == 12 && Integer("100", 0) == 100
    ensures Integer("500", 0) == 500 && Integer("501", 0) == 501 && Integer("1200", 0) == 1200
  {
    SmallRenderings();
    ParseIntToString(0);
    ParseIntToString(1);
    ParseIntToString(10);
    ParseIntToString(11);
    ParseIntToString(12);
    ParseIntToString(100);
    ParseIntToString(500);
    ParseIntToString(501);
    ParseIntToString(1200);
  }

  /** `parse("0.0.0")` is the default version. */
  lemma ParseDefaultsZero()
    ensures Parse("0.0.0") == Initial
  {
    SmallRenderings();
    ParseRendering(Initial, "0.0.0");
  }

  /** `parse("1.11.100")` gives 1, 11, 100. */
  lemma ParseExample()
    ensures Parse("1.11.100") == Version(1, 11, 100)
  {
    assert "1.11.100" == "1" + "." + "11" + "." + "100";
    ParseDotted("1", "11", "100");
    SmallTokens();
  }

  lemma ParseExampleLowerPatch()
    ensures Parse("1.10.500") == Version(1, 10, 500)
  {
    assert "1.10.500" == "1" + "." + "10" + "." + "500";
    ParseDotted("1", "10", "500");
    SmallTokens();
  }

  lemma ParseExampleLowerPatchNext()
    ensures Parse("1.10.501") == Version(1, 10, 501)
  {
    assert "1.10.501" == "1" + "." + "10" + "." + "501";
    ParseDotted("1", "10", "501");
    SmallTokens();
  }

  lemma ParseExampleHigherMinor()
    ensures Parse("1.12.0") == Version(1, 12, 0)
  {
    assert "1.12.0" == "1" + "." + "12" + "." + "0";
    ParseDotted("1", "12", "0");
    SmallTokens();
  }

  lemma ParseExampleHigherMajor()
    ensures Parse("12.12.1200") == Version(12, 12, 1200)
  {
    assert "12.12.1200" == "12" + "." + "12" + "." + "1200";
    ParseDotted("12", "12", "1200");
    SmallTokens();
  }

  lemma ParseRendering(v: Version, text: string)
    requires ToString(v) == text
    ensures Parse(text) == v
  {
  }

  /** The assertions of the simple-version test, for `1.11.100`. */
  lemma SimpleVersionExamples(v: Version)
    requires v == Parse("1.11.100")
    ensures IsGreaterString(v, "1.10.500")
    ensures IsGreater(v, Parse("1.10.501"))
    ensures IsLesserString(v, "1.12.0")
    ensures IsLesser(v, Parse("12.12.1200"))
    ensures EqualsObject(v, VersionObject(v))
    ensures Equals(v, Version(1, 11, 100))
    ensures EqualsString(v, "1.11.100")
    ensures !EqualsObject(v, BoxedInteger(10))
  {
    ParseExample();
    ParseExampleLowerPatch();
    ParseExampleLowerPatchNext();
    ParseExampleHigherMinor();
    ParseExampleHigherMajor();
  }
}
