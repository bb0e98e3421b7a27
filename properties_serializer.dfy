/** `vermouth.properties.Serializer.properties(version)`: builds a fresh
    properties table from a version's five fields. */
module PropertiesSerializer {
  import opened JavaLang
  import opened JavaProperties
  import Versions
  import PropertiesParser

  /** The five fields the serializer reads through `getMajor()`,
      `getMinor()`, `getPatch()`, `getQualifier()` and `getMetadata()`. */
  datatype QualifiedVersion = QualifiedVersion(major: int32, minor: int32, patch: int32, qualifier: string, metadata: string)

  /** The keys the serializer may write. */
  const SerializedKeys: set<string> := {"major", "minor", "patch", "metadata", "qualifier", "prerelease"}

  /** `entries` is what `properties(v)` produces: the three numbers in
      decimal, `metadata` exactly when there is metadata, `qualifier` and
      `prerelease` exactly when there is a qualifier, and nothing else. */
  ghost predicate IsSerialization(entries: map<string, string>, v: QualifiedVersion)
  {
    && "major" in entries && entries["major"] == IntToString(v.major)
    && "minor" in entries && entries["minor"] == IntToString(v.minor)
    && "patch" in entries && entries["patch"] == IntToString(v.patch)
    && ("metadata" in entries <==> v.metadata != "")
    && ("metadata" in entries ==> entries["metadata"] == v.metadata)
    && ("qualifier" in entries <==> v.qualifier != "")
    && ("qualifier" in entries ==> entries["qualifier"] == v.qualifier)
    && ("prerelease" in entries <==> v.qualifier != "")
    && ("prerelease" in entries ==> entries["prerelease"] == v.qualifier)
    && entries.Keys <= SerializedKeys
  }

  /** `properties(version)`: a new table, filled key by key. */
  method Properties(v: QualifiedVersion) returns (properties: Properties)
    ensures fresh(properties)
    ensures IsSerialization(properties.entries, v)
  {
    properties := new Properties();
    properties.SetProperty("major", IntToString(v.major));
    properties.SetProperty("minor", IntToString(v.minor));
    properties.SetProperty("patch", IntToString(v.patch));

    if v.metadata != "" {
      properties.SetProperty("metadata", v.metadata);
    }

    if v.qualifier != "" {
      properties.SetProperty("qualifier", v.qualifier);
      properties.SetProperty("prerelease", v.qualifier);
    }
  }

  /** The serialization of a version is a single table. */
  lemma SerializationIsUnique(v: QualifiedVersion, a: map<string, string>, b: map<string, string>)
    requires IsSerialization(a, v) && IsSerialization(b, v)
    ensures a == b
  {
    assert a.Keys == b.Keys;
  }

  /** Without qualifier and metadata the table has exactly the three
      numeric keys. */
  lemma PlainSerialization(v: QualifiedVersion, entries: map<string, string>)
    requires IsSerialization(entries, v) && v.qualifier == "" && v.metadata == ""
    ensures entries.Keys == {"major", "minor", "patch"}
    ensures |entries| == 3
  {
    assert entries.Keys == {"major", "minor", "patch"};
  }

  /** `M.m.p[-q][+meta]`: the text the five fields stand for. */
  ghost function Rendered(v: QualifiedVersion): string
  {
    IntToString(v.major) + "." + IntToString(v.minor) + "." + IntToString(v.patch)
    + (if v.qualifier != "" then "-" + v.qualifier else "")
    + (if v.metadata != "" then "+" + v.metadata else "")
  }

  /** The parser assembles exactly `M.m.p[-q][+meta]` from a serialized
      table: bare keys are all present, and `qualifier` shadows the equal
      `prerelease`. */
  lemma AssembledFromSerialization(v: QualifiedVersion, entries: map<string, string>)
    requires IsSerialization(entries, v)
    ensures PropertiesParser.Text(entries) == Rendered(v)
  {
    SerializedQualifier(v, entries);
    SerializedMetadata(v, entries);
  }

  /** No `version.`-prefixed key is written. */
  lemma NoPrefixedKeys()
    ensures "version.qualifier" !in SerializedKeys && "version.prerelease" !in SerializedKeys
    ensures "version.metadata" !in SerializedKeys
  {
  }

  lemma SerializedQualifier(v: QualifiedVersion, entries: map<string, string>)
    requires IsSerialization(entries, v)
    ensures PropertiesParser.QualifierLookup(entries) == v.qualifier
  {
    NoPrefixedKeys();
  }

  lemma SerializedMetadata(v: QualifiedVersion, entries: map<string, string>)
    requires IsSerialization(entries, v)
    ensures PropertiesParser.Get(entries, "metadata", "") == v.metadata
  {
    NoPrefixedKeys();
    assert "version." + "metadata" == "version.metadata";
  }


  /** Reading a serialized table back keeps the major and minor numbers,
      but the patch number survives only without qualifier and metadata:
      `Version.parse` splits on `.` alone, so `-q` or `+meta` stays glued
      to the patch token and makes it unreadable. */
  lemma ParsedFromSerialization(v: QualifiedVersion, entries: map<string, string>)
    requires IsSerialization(entries, v)
    ensures PropertiesParser.Parse(entries)
         == Versions.Version(v.major, v.minor, if v.qualifier == "" && v.metadata == "" then v.patch else 0)
  {
    AssembledFromSerialization(v, entries);
    ParseRendered(v);
  }

  lemma ParseRendered(v: QualifiedVersion)
    ensures Versions.Parse(Rendered(v))
         == Versions.Version(v.major, v.minor, if v.qualifier == "" && v.metadata == "" then v.patch else 0)
  {
    if v.qualifier == "" && v.metadata == "" {
      assert Rendered(v) == Versions.ToString(Versions.Version(v.major, v.minor, v.patch));
    } else {
      var a, b, c := IntToString(v.major), IntToString(v.minor), IntToString(v.patch);
      assert '.' !in a && '.' !in b && '.' !in c by {
        assert !IsDigit('.');
      }
      var marker := if v.qualifier != "" then '-' else '+';
      var suffix := if v.qualifier == "" then v.metadata
                    else v.qualifier + (if v.metadata != "" then "+" + v.metadata else "");
      assert Rendered(v) == a + "." + b + "." + c + [marker] + suffix;
      Versions.SuffixSpoilsPatch(a, b, c, marker, suffix);
      ParseIntToString(v.major);
      ParseIntToString(v.minor);
    }
  }
}
