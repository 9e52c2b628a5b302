/**
 * The package version string: the version numbers joined by dots, then an optional prerelease tag
 * after "-", then an optional revision after ".".
 */
module Version {
  import opened Wrappers
  import opened PyStrings

  const VersionNumbers: seq<int> := [0, 0, 1]
  const Prerelease: Option<string> := Some("alpha")
  const Revision: Option<string> := None

  /** `map(str, version)`. */
  function NumberStrings(version: seq<int>): (r: seq<string>)
    ensures |r| == |version|
    ensures forall i :: 0 <= i < |version| ==> r[i] == IntToString(version[i])
  {
    seq(|version|, i requires 0 <= i < |version| => IntToString(version[i]))
  }

  /** The numbers, the prerelease part and the revision part, in that order. */
  function VersionString(version: seq<int>, prerelease: Option<string>, revision: Option<string>): string {
    Join(NumberStrings(version), ".")
    + (match prerelease case None => "" case Some(p) => "-" + p)
    + (match revision case None => "" case Some(rev) => "." + rev)
  }

  /** `generate_version`: the numbers joined by dots as the first part, "-" and the prerelease
      appended as a part when there is one, "." and the revision likewise, and the parts
      concatenated. */
  method GenerateVersion(version: seq<int>, prerelease: Option<string>, revision: Option<string>)
    returns (v: string)
    ensures v == VersionString(version, prerelease, revision)
  {
    var parts := [Join(NumberStrings(version), ".")];
    if prerelease.Some? {
      parts := parts + ["-" + prerelease.value];
    }
    if revision.Some? {
      parts := parts + ["." + revision.value];
    }
    JoinWithoutSeparator(parts);
    v := Join(parts, "");
  }

  /** `"".join` of one, two or three parts is their concatenation. */
  lemma JoinWithoutSeparator(parts: seq<string>)
    ensures |parts| == 1 ==> Join(parts, "") == parts[0]
    ensures |parts| == 2 ==> Join(parts, "") == parts[0] + parts[1]
    ensures |parts| == 3 ==> Join(parts, "") == parts[0] + parts[1] + parts[2]
  {
    if |parts| >= 2 {
      assert Join(parts, "") == parts[0] + Join(parts[1..], "");
      if |parts| == 3 {
        assert Join(parts[1..], "") == parts[1] + Join(parts[2..], "");
      }
    }
  }

  /** The module's own version is "0.0.1-alpha". */
  lemma ModuleVersion()
    ensures VersionString(VersionNumbers, Prerelease, Revision) == "0.0.1-alpha"
  {
    var ns := NumberStrings(VersionNumbers);
    assert ns == ["0", "0", "1"];
    assert Join(ns, ".") == "0.0.1" by {
      assert ns[1..] == ["0", "1"] && ns[1..][1..] == ["1"];
      assert Join(["1"], ".") == "1";
      assert Join(["0", "1"], ".") == "0" + "." + "1" == "0.1";
      assert Join(ns, ".") == "0" + "." + "0.1";
    }
  }

  /** For non-negative numbers, splitting the numbers part at its dots gives back the numbers'
      texts, each of which reads back as its number. */
  lemma NumbersRoundTrip(version: seq<nat>)
    requires version != []
    ensures Split(Join(NumberStrings(version), "."), '.') == NumberStrings(version)
    ensures forall i :: 0 <= i < |version| ==> ParseInt(NumberStrings(version)[i]) == Some(version[i] as int)
  {
    var ns := NumberStrings(version);
    forall i | 0 <= i < |ns| ensures '.' !in ns[i] {
      NoDotInNumber(version[i]);
    }
    SplitJoin(ns, '.');
    forall i | 0 <= i < |version| ensures ParseInt(ns[i]) == Some(version[i] as int) {
      ParseIntOfString(version[i]);
    }
  }

  lemma NoDotInNumber(n: nat)
    ensures '.' !in IntToString(n) && '-' !in IntToString(n)
  {
    var s := IntToString(n);
    assert forall i :: 0 <= i < |s| ==> IsDigit(s[i]);
  }

  /** For non-negative numbers the numbers part holds no "-", so the first "-" of the version
      string, if any, is the one that introduces the prerelease. */
  lemma PrereleaseAtFirstDash(version: seq<nat>, prerelease: Option<string>, revision: Option<string>)
    ensures var numbers := Join(NumberStrings(version), ".");
            var s := VersionString(version, prerelease, revision);
            && '-' !in numbers && s[..|numbers|] == numbers
            && (prerelease.Some? ==> s[|numbers|..|numbers| + 1 + |prerelease.value|] == "-" + prerelease.value)
  {
    var ns := NumberStrings(version);
    forall i | 0 <= i < |ns| ensures '-' !in ns[i] {
      NoDotInNumber(version[i]);
    }
    JoinAddsOnlySeparator(ns, ".", '-');
  }

  /** Joining with a separator that lacks a character brings in no such character. */
  lemma {:induction false} JoinAddsOnlySeparator(parts: seq<string>, sep: string, c: char)
    requires c !in sep && forall i :: 0 <= i < |parts| ==> c !in parts[i]
    ensures c !in Join(parts, sep)
    decreases |parts|
  {
    if |parts| > 1 {
      JoinAddsOnlySeparator(parts[1..], sep, c);
    }
  }
}
