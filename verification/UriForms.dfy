/** The nine URI forms written out: what the parts and the resource id of a parse are, that building a URI and parsing
    it gives the parts back, and which parses share a resource id. */
module UriForms {
  import opened Wrappers
  import opened Text
  import opened Uris

  // ----- from the URI to the parts -----

  /** Name, version and resource id by the matched line, form by form. */
  lemma IdAndLine(t: ResourceType, uri: string)
    requires Matches(t, uri)
    ensures var c, line := Components(t, uri), LineOf(t, uri);
            && c.resourceType == t && c.name != "" && c.version != ""
            && (t == Docker ==> c.prefixedName == c.name && line == c.prefixedName + "@sha256:" + c.version)
            && (t == Git ==> c.prefixedName == "git://" + c.name && line == c.prefixedName + "@" + c.version)
            && (t == Maven ==> c.prefixedName == "gav://" + c.name && line == c.prefixedName + ":" + c.version)
            && (t == File ==>
                  c.prefixedName == "file://" + c.name && line == "file://sha256:" + c.version + ":" + c.name)
            && (t == Npm ==> c.prefixedName == "npm://" + c.name && line == c.prefixedName + ":" + c.version)
            && (t == Nuget ==> c.prefixedName == "nuget://" + c.name && line == c.prefixedName + ":" + c.version)
            && (t == Pip ==> c.prefixedName == "pip://" + c.name && line == c.prefixedName + ":" + c.version)
            && (t == Debian ==>
                  c.prefixedName == "deb://" + c.name &&
                  exists distribution: string :: line == "deb://" + distribution + ":" + c.name + ":" + c.version)
            && (t == Rpm ==>
                  c.prefixedName == "rpm://" + c.name &&
                  exists distribution: string :: line == "rpm://" + distribution + ":" + c.name + ":" + c.version)
  {
    if t == Debian || t == Rpm {
      PackageUriParts(t, uri);
    } else {
      PartsRebuildUri(t, uri);
    }
    hide LineOf, MatchLine;
    var c := Components(t, uri);
    if t == Docker {
      assert Rebuild(c) == "" + c.name + "@sha256:" + c.version;
    }
  }

  /** An anchored form is matched in the text before the first newline. */
  lemma AnchoredLine(t: ResourceType, first: string, rest: string)
    requires t != Docker && '\n' !in first
    ensures LineOf(t, first) == first && LineOf(t, first + "\n" + rest) == first
  {
    SplitAtSeparator(first, '\n', rest);
    assert first + "\n" + rest == first + ['\n'] + rest;
  }

  /** The Docker form is matched in the first line in which it can be. */
  lemma {:induction false} DockerLine(lines: seq<string>, i: nat)
    requires i < |lines| && MatchLine(Docker, lines[i]).Some?
    requires forall j | 0 <= j < i :: MatchLine(Docker, lines[j]).None?
    ensures FirstMatch(lines) == lines[i]
  {
    hide MatchLine;
    if i > 0 {
      DockerLine(lines[1..], i - 1);
    }
  }

  // ----- from the parts to the URI and back -----

  /** The URI of a name and a version; a package's also says which distribution it is for. */
  function Format(t: ResourceType, distribution: string, name: string, version: string): string {
    match t
    case Docker => name + "@sha256:" + version
    case Git => "git://" + name + "@" + version
    case Maven => "gav://" + name + ":" + version
    case File => "file://sha256:" + version + ":" + name
    case Npm => "npm://" + name + ":" + version
    case Nuget => "nuget://" + name + ":" + version
    case Pip => "pip://" + name + ":" + version
    case Debian => "deb://" + distribution + ":" + name + ":" + version
    case Rpm => "rpm://" + distribution + ":" + name + ":" + version
  }

  /** What is found after a separator does not contain it, and nothing contains a newline. */
  predicate Formattable(t: ResourceType, distribution: string, name: string, version: string) {
    && name != "" && version != "" && '\n' !in distribution && '\n' !in name && '\n' !in version
    && Separator(t)[0] !in (if t == File then name else version)
    && (t == Debian || t == Rpm ==> ':' !in name)
  }

  lemma {:induction false} LastSplitIs(s: string, separator: string, lo: nat, i: nat)
    requires separator != "" && SplitsAt(s, separator, lo, i)
    requires forall j | i < j < |s| :: s[j] != separator[0]
    ensures LastSplit(s, separator, lo, |s|) == Some(i)
  {
    forall j: nat | i < j < |s| ensures !SplitsAt(s, separator, lo, j) {
      if j + |separator| < |s| {
        assert s[j..j + |separator|][0] == s[j];
      }
    }
  }

  /** A line put together from an anchor and two parts around the separator is split there. */
  lemma MatchOfTwo(t: ResourceType, first: string, second: string)
    requires t != Debian && t != Rpm && first != "" && second != "" && Separator(t)[0] !in second
    ensures var line := Anchor(t) + first + Separator(t) + second;
            MatchLine(t, line) == Some(if t == File then (second, first) else (first, second))
  {
    var anchor, separator := Anchor(t), Separator(t);
    var line, i := anchor + first + separator + second, |anchor| + |first|;
    assert line[|anchor|..i] == first && line[i..i + |separator|] == separator && line[i + |separator|..] == second;
    assert HasPrefix(line, anchor);
    forall j | i < j < |line| ensures line[j] != separator[0] {
      assert j < i + |separator| ==> line[j] == separator[j - i];
      assert j >= i + |separator| ==> line[j] == second[j - i - |separator|];
    }
    LastSplitIs(line, separator, |anchor|, i);
    hide Anchor, Separator, LastSplit;
  }

  lemma MatchOfPackage(t: ResourceType, distribution: string, name: string, version: string)
    requires (t == Debian || t == Rpm) && name != "" && version != "" && ':' !in name && ':' !in version
    ensures var line := Anchor(t) + distribution + ":" + name + ":" + version;
            MatchLine(t, line) == Some((name, version))
  {
    var anchor := Anchor(t);
    var line, lo := anchor + distribution + ":" + name + ":" + version, |anchor|;
    var i := lo + |distribution|;
    var j := i + 1 + |name|;
    hide Anchor, LastSplit, LastColon, MatchLine;
    assert line[i] == ':' && line[j] == ':';
    assert line[i + 1..j] == name && line[j + 1..] == version;
    assert forall n | j < n < |line| :: line[n] == version[n - j - 1];
    assert forall n | i < n < j :: line[n] == name[n - i - 1];
    PackageSplit(t, line, i, j);
  }

  lemma {:induction false} LastColonIs(s: string, lo: nat, hi: nat, i: nat)
    requires lo <= i < hi <= |s| && s[i] == ':' && forall n | i < n < hi :: s[n] != ':'
    ensures LastColon(s, lo, hi) == Some(i)
  {
  }

  lemma PackageSplit(t: ResourceType, line: string, i: nat, j: nat)
    requires (t == Debian || t == Rpm) && HasPrefix(line, Anchor(t)) && |Anchor(t)| <= i
    requires i + 1 < j < |line| - 1 && line[i] == ':' && line[j] == ':'
    requires forall n | i < n < |line| && n != j :: line[n] != ':'
    ensures MatchLine(t, line) == Some((line[i + 1..j], line[j + 1..]))
  {
    var lo := |Anchor(t)|;
    assert line[j..j + 1] == ":";
    LastSplitIs(line, ":", lo + 1, j);
    LastColonIs(line, lo, j - 1, i);
    hide Anchor, LastSplit, LastColon, Separator, SplitsAt, HasPrefix;
  }

  lemma FormatMatches(t: ResourceType, distribution: string, name: string, version: string)
    requires Formattable(t, distribution, name, version)
    ensures MatchLine(t, Format(t, distribution, name, version)) == Some((name, version))
  {
    if t == Debian || t == Rpm {
      MatchOfPackage(t, distribution, name, version);
    } else if t == File {
      MatchOfTwo(t, version, name);
    } else {
      MatchOfTwo(t, name, version);
    }
    hide MatchLine;
    if t == Docker {
      assert Anchor(t) + name + Separator(t) + version == Format(t, distribution, name, version);
    }
  }

  /** Parsing undoes building, for all nine forms. */
  lemma ParseUndoesFormat(t: ResourceType, distribution: string, name: string, version: string)
    requires Formattable(t, distribution, name, version)
    ensures Match(t, Format(t, distribution, name, version)) == Some((name, version))
  {
    FormatMatches(t, distribution, name, version);
    NoNewline(t, distribution, name, version);
    hide MatchLine, Format, Formattable;
    OnlyLine(t, Format(t, distribution, name, version));
  }

  lemma OnlyLine(t: ResourceType, uri: string)
    requires '\n' !in uri && MatchLine(t, uri).Some?
    ensures LineOf(t, uri) == uri
  {
    hide MatchLine;
    assert Split(uri, '\n') == [uri];
  }

  lemma NoNewline(t: ResourceType, distribution: string, name: string, version: string)
    requires '\n' !in distribution && '\n' !in name && '\n' !in version
    ensures '\n' !in Format(t, distribution, name, version)
  {
  }

  // ----- ids -----

  lemma PrefixesDiffer(t: ResourceType, a: string, u: ResourceType, b: string)
    requires t != Docker && u != Docker && Prefix(t) + a == Prefix(u) + b
    ensures t == u && a == b
  {
    var s := Prefix(t) + a;
    assert s[0] == Prefix(t)[0] == Prefix(u)[0] && s[1] == Prefix(t)[1] == Prefix(u)[1];
    assert s[|Prefix(t)|..] == a && s[|Prefix(u)|..] == b;
  }

  /** Among the anchored forms the resource id determines type and name. */
  lemma AnchoredIdsDiffer(t: ResourceType, uri: string, u: ResourceType, other: string)
    requires t != Docker && u != Docker && Matches(t, uri) && Matches(u, other)
    ensures var c, d := Components(t, uri), Components(u, other);
            c.prefixedName == d.prefixedName <==> t == u && c.name == d.name
  {
    hide Match, Matches, Prefix;
    var c, d := Components(t, uri), Components(u, other);
    if c.prefixedName == d.prefixedName {
      PrefixesDiffer(t, c.name, u, d.name);
    }
  }

  /** A Docker name is its own id, so it shares one exactly with the names it spells out with their prefix. */
  lemma DockerIdIsShared(uri: string, u: ResourceType, other: string)
    requires Matches(Docker, uri) && Matches(u, other)
    ensures var c, d := Components(Docker, uri), Components(u, other);
            c.prefixedName == d.prefixedName <==> c.name == Prefix(u) + d.name
  {
    hide Match, Matches;
    assert Prefix(Docker) + Components(Docker, uri).name == Components(Docker, uri).name;
  }

  lemma NoOtherAnchor(t: ResourceType, u: ResourceType, uri: string)
    requires t != Docker && u != Docker && t != u && '\n' !in uri && HasPrefix(uri, Anchor(u))
    ensures !Matches(t, uri)
  {
    assert Split(uri, '\n') == [uri];
    if HasPrefix(uri, Anchor(t)) {
      AnchorsDiffer(t, u, uri);
    }
  }

  lemma NoAt(uri: string)
    requires '@' !in uri && '\n' !in uri
    ensures !Matches(Docker, uri)
  {
    assert Split(uri, '\n') == [uri];
    assert FirstMatch([uri][1..]) == "";
    forall line | '@' !in line ensures MatchLine(Docker, line).None? {
      forall j: nat ensures !SplitsAt(line, "@sha256:", 0, j) {
        if j + 8 < |line| {
          assert line[j..j + 8][0] == line[j];
        }
      }
    }
  }

  /** A package URI has two colons after the prefix. */
  lemma OneColon(t: ResourceType, uri: string, i: nat)
    requires (t == Debian || t == Rpm) && '\n' !in uri
    requires forall n | |Anchor(t)| <= n < |uri| && n != i :: uri[n] != ':'
    ensures !Matches(t, uri)
  {
    assert Split(uri, '\n') == [uri];
    var lo := |Anchor(t)|;
    hide Anchor, LastSplit;
    var r := LastSplit(uri, ":", lo + 1, |uri|);
    if r.Some? {
      assert uri[r.value..r.value + 1][0] == uri[r.value];
    }
  }

  lemma ImageText(image: string)
    requires image == Format(Docker, "", "deb://a", "c")
    ensures '\n' !in image && HasPrefix(image, Anchor(Debian)) && Formattable(Docker, "", "deb://a", "c")
    ensures forall n | |Anchor(Debian)| <= n < |image| && n != 14 :: image[n] != ':'
  {
    NoNewline(Docker, "", "deb://a", "c");
  }

  lemma OnlyAnImage(image: string)
    requires image == Format(Docker, "", "deb://a", "c")
    ensures Matches(Docker, image) && !Ambiguous(image) && Components(Docker, image).name == "deb://a"
  {
    ImageText(image);
    ParseUndoesFormat(Docker, "", "deb://a", "c");
    assert !Matches(Debian, image) by { OneColon(Debian, image, 14); }
    hide MatchLine, Separator, Match, Format, Anchor;
    forall t | t != Docker && t != Debian ensures !Matches(t, image) {
      NoOtherAnchor(t, Debian, image);
    }
  }

  lemma OnlyAPackage(package: string)
    requires package == Format(Debian, "d", "a", "1")
    ensures Matches(Debian, package) && !Ambiguous(package) && Components(Debian, package).name == "a"
  {
    ParseUndoesFormat(Debian, "d", "a", "1");
    NoNewline(Debian, "d", "a", "1");
    assert '@' !in package;
    hide MatchLine, Match, Format;
    NoAt(package);
  }

  /** This happens for URIs that each match one handler only: an image "deb://a" and a package "a" have the resource id
      "deb://a". */
  lemma ImageSharesPackageId()
    ensures var image, package := Format(Docker, "", "deb://a", "c"), Format(Debian, "d", "a", "1");
            Matches(Docker, image) && Matches(Debian, package) && !Ambiguous(image) && !Ambiguous(package) &&
            Components(Docker, image).prefixedName == Components(Debian, package).prefixedName
  {
    var image, package := Format(Docker, "", "deb://a", "c"), Format(Debian, "d", "a", "1");
    OnlyAnImage(image);
    OnlyAPackage(package);
    hide Format, Match, Matches, Components, Ambiguous, Prefix;
    SameId(image, package);
  }

  lemma SameId(image: string, package: string)
    requires Matches(Docker, image) && Components(Docker, image).name == "deb://a"
    requires Matches(Debian, package) && Components(Debian, package).name == "a"
    ensures Components(Docker, image).prefixedName == Components(Debian, package).prefixedName
  {
    hide Match, Matches;
    assert Prefix(Debian) + "a" == "deb://a";
    DockerIdIsShared(image, Debian, package);
  }
}
