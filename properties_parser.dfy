/** `vermouth.properties.Parser`, from a properties table to a version:
    the fields are looked up (bare key first, then the `version.`-prefixed
    key), assembled into `M.m.p[-q][+meta]` and handed to
    `Version.parse`. */
module PropertiesParser {
  import JavaLang
  import opened JavaProperties
  import Versions

  /** `get(properties, property, defaultValue)`: the bare key wins, then
      the `version.`-prefixed key, then the default. */
  function Get(properties: map<string, string>, property: string, defaultValue: string): (r: string)
    ensures property in properties ==> r == properties[property]
    ensures property !in properties && "version." + property in properties ==> r == properties["version." + property]
    ensures property !in properties && "version." + property !in properties ==> r == defaultValue
  {
    GetProperty(properties, property, GetProperty(properties, "version." + property, defaultValue))
  }

  /** `valid(value, prefix)`: the prefixed value when there is one, else
      nothing. The value is never null here: every lookup above has a
      non-null default. */
  function Valid(value: string, prefix: string): (r: string)
    ensures value == "" ==> r == ""
    ensures value != "" ==> r == prefix + value && |r| == |prefix| + |value|
  {
    if value != "" then prefix + value else ""
  }

  /** The qualifier lookup order, written out as a chain of cases. */
  ghost function QualifierLookup(properties: map<string, string>): string
  {
    if "qualifier" in properties then properties["qualifier"]
    else if "version.qualifier" in properties then properties["version.qualifier"]
    else if "prerelease" in properties then properties["prerelease"]
    else if "version.prerelease" in properties then properties["version.prerelease"]
    else ""
  }

  /** The qualifier is looked up as `qualifier`, `version.qualifier`,
      `prerelease`, `version.prerelease`, in that order, then `""`. */
  lemma QualifierLookupOrder(properties: map<string, string>)
    ensures Get(properties, "qualifier", Get(properties, "prerelease", "")) == QualifierLookup(properties)
  {
    assert "version." + "qualifier" == "version.qualifier";
    assert "version." + "prerelease" == "version.prerelease";
  }

  /** The text `parse(Properties)` hands to `Version.parse`. */
  function Text(properties: map<string, string>): (r: string)
    ensures r == Get(properties, "major", "0") + "." + Get(properties, "minor", "0") + "." + Get(properties, "patch", "0")
                 + (if QualifierLookup(properties) != "" then "-" + QualifierLookup(properties) else "")
                 + (if Get(properties, "metadata", "") != "" then "+" + Get(properties, "metadata", "") else "")
  {
    QualifierLookupOrder(properties);
    Get(properties, "major", "0") + "." +
    Get(properties, "minor", "0") + "." +
    Get(properties, "patch", "0") +
    Valid(Get(properties, "qualifier", Get(properties, "prerelease", "")), "-") +
    Valid(Get(properties, "metadata", ""), "+")
  }

  /** `parse(Properties)`. With `.`-free number values, the numbers are
      read one by one when there is no qualifier and no metadata; a
      qualifier or metadata is glued to a non-empty patch value, which
      then reads as 0. */
  function Parse(properties: map<string, string>): (v: Versions.Version)
    ensures var a, b, c := Get(properties, "major", "0"), Get(properties, "minor", "0"), Get(properties, "patch", "0");
      '.' !in a && '.' !in b && '.' !in c && QualifierLookup(properties) == "" && Get(properties, "metadata", "") == "" ==>
        v == Versions.Version(Versions.Integer(a, 0), Versions.Integer(b, 0), Versions.Integer(c, 0))
    ensures var a, b, c := Get(properties, "major", "0"), Get(properties, "minor", "0"), Get(properties, "patch", "0");
      '.' !in a && '.' !in b && '.' !in c && |c| > 0 && (QualifierLookup(properties) != "" || Get(properties, "metadata", "") != "") ==>
        v == Versions.Version(Versions.Integer(a, 0), Versions.Integer(b, 0), 0)
  {
    AssembledFields(properties);
    Versions.Parse(Text(properties))
  }

  /** How `Version.parse` reads the assembled text. */
  lemma AssembledFields(properties: map<string, string>)
    ensures var a, b, c := Get(properties, "major", "0"), Get(properties, "minor", "0"), Get(properties, "patch", "0");
      '.' !in a && '.' !in b && '.' !in c && QualifierLookup(properties) == "" && Get(properties, "metadata", "") == "" ==>
        Versions.Parse(Text(properties)) == Versions.Version(Versions.Integer(a, 0), Versions.Integer(b, 0), Versions.Integer(c, 0))
    ensures var a, b, c := Get(properties, "major", "0"), Get(properties, "minor", "0"), Get(properties, "patch", "0");
      '.' !in a && '.' !in b && '.' !in c && |c| > 0 && (QualifierLookup(properties) != "" || Get(properties, "metadata", "") != "") ==>
        Versions.Parse(Text(properties)) == Versions.Version(Versions.Integer(a, 0), Versions.Integer(b, 0), 0)
  {
    var a, b, c := Get(properties, "major", "0"), Get(properties, "minor", "0"), Get(properties, "patch", "0");
    var q, m := QualifierLookup(properties), Get(properties, "metadata", "");
    if '.' !in a && '.' !in b && '.' !in c {
      if q == "" && m == "" {
        ReadPlain(a, b, c, q, m);
      } else if |c| > 0 && q != "" {
        ReadQualified(a, b, c, q, m);
      } else if |c| > 0 {
        ReadMetadata(a, b, c, q, m);
      }
    }
  }

  lemma ReadPlain(a: string, b: string, c: string, q: string, m: string)
    requires '.' !in a && '.' !in b && '.' !in c && q == "" && m == ""
    ensures Versions.Parse(a + "." + b + "." + c + (if q != "" then "-" + q else "") + (if m != "" then "+" + m else ""))
         == Versions.Version(Versions.Integer(a, 0), Versions.Integer(b, 0), Versions.Integer(c, 0))
  {
    assert a + "." + b + "." + c + "" + "" == a + "." + b + "." + c;
    Versions.ParseDotted(a, b, c);
  }

  lemma ReadQualified(a: string, b: string, c: string, q: string, m: string)
    requires '.' !in a && '.' !in b && '.' !in c && |c| > 0 && q != ""
    ensures Versions.Parse(a + "." + b + "." + c + (if q != "" then "-" + q else "") + (if m != "" then "+" + m else ""))
         == Versions.Version(Versions.Integer(a, 0), Versions.Integer(b, 0), 0)
  {
    var tail := if m != "" then "+" + m else "";
    assert a + "." + b + "." + c + ("-" + q) + tail == a + "." + b + "." + c + ['-'] + (q + tail);
    Versions.SuffixSpoilsPatch(a, b, c, '-', q + tail);
  }

  lemma ReadMetadata(a: string, b: string, c: string, q: string, m: string)
    requires '.' !in a && '.' !in b && '.' !in c && |c| > 0 && q == "" && m != ""
    ensures Versions.Parse(a + "." + b + "." + c + (if q != "" then "-" + q else "") + (if m != "" then "+" + m else ""))
         == Versions.Version(Versions.Integer(a, 0), Versions.Integer(b, 0), 0)
  {
    assert a + "." + b + "." + c + "" + ("+" + m) == a + "." + b + "." + c + ['+'] + m;
    Versions.SuffixSpoilsPatch(a, b, c, '+', m);
  }

  /** An empty table assembles `0.0.0`, which parses as the default
      version. */
  lemma EmptyTable()
    ensures Text(map[]) == "0.0.0"
    ensures Parse(map[]) == Versions.Initial
  {
    Versions.ParseDefaultsZero();
  }

  /** The prefixed keys the parser looks up. */
  lemma PrefixedKeys()
    ensures "version." + "major" == "version.major" && "version." + "minor" == "version.minor"
    ensures "version." + "patch" == "version.patch" && "version." + "metadata" == "version.metadata"
  {
  }

  /** Each missing numeric key defaults to `"0"` on its own, and a bare
      key wins over a prefixed one. */
  lemma LoadBareMajor()
    ensures Text(map["major" := "1"]) == "1.0.0"
  {
    PrefixedKeys();
  }

  lemma LoadPrefixedMajor()
    ensures Text(map["version.major" := "2"]) == "2.0.0"
  {
    PrefixedKeys();
  }

  lemma LoadBareWins()
    ensures Text(map["major" := "1", "version.major" := "2"]) == "1.0.0"
  {
    PrefixedKeys();
  }

  lemma LoadMixedKeys()
    ensures Text(map["version.major" := "2", "minor" := "20"]) == "2.20.0"
  {
    PrefixedKeys();
  }

  /** With a qualifier such as `beta1` the assembled text is
      `2.22.42-beta1`. */
  lemma QualifiedLoadExample(properties: map<string, string>, qualifier: string)
    requires qualifier != ""
    requires properties == map["version.major" := "2", "version.minor" := "22", "version.patch" := "42", "qualifier" := qualifier]
    ensures Text(properties) == "2" + "." + "22" + "." + "42" + "-" + qualifier
  {
    PrefixedKeys();
  }

  /** ... and `Version.parse` turns its patch token `42-beta1` into 0,
      so the table reads as 2.22.0. */
  lemma QualifiedLoadParses(properties: map<string, string>, qualifier: string)
    requires Text(properties) == "2" + "." + "22" + "." + "42" + "-" + qualifier
    ensures Parse(properties) == Versions.Version(2, 22, 0)
  {
    QualifiedTextParses("2" + "." + "22" + "." + "42" + "-" + qualifier, qualifier);
  }

  lemma QualifiedTextParses(text: string, qualifier: string)
    requires text == "2" + "." + "22" + "." + "42" + "-" + qualifier
    ensures Versions.Parse(text) == Versions.Version(2, 22, 0)
  {
    SpoiledPatch(text, qualifier);
    SmallIntegers();
  }

  lemma SpoiledPatch(text: string, qualifier: string)
    requires text == "2" + "." + "22" + "." + "42" + "-" + qualifier
    ensures Versions.Parse(text) == Versions.Version(Versions.Integer("2", 0), Versions.Integer("22", 0), 0)
  {
    Versions.SuffixSpoilsPatch("2", "22", "42", '-', qualifier);
  }

  lemma SmallIntegers()
    ensures Versions.Integer("2", 0) == 2 && Versions.Integer("22", 0) == 22
  {
    assert JavaLang.DigitsValue("2") == 2;
    assert JavaLang.DigitsValue("22") == 22;
  }


}
