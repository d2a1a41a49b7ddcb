/** Resource URIs (pkg/resource/uri.go). Each handler's pattern is written out as the split that leftmost, greedy
    matching finds; `.` matches every character but the newline. */
module Uris {
  import opened Wrappers
  import opened Text

  datatype ResourceType = Docker | Git | Maven | File | Npm | Nuget | Pip | Debian | Rpm

  const HANDLERS: set<ResourceType> := {Docker, Git, Maven, File, Npm, Nuget, Pip, Debian, Rpm}

  datatype UriComponents = UriComponents(
    name: string, version: string, resourceType: ResourceType, prefixedName: string)

  /** The prefix that turns a name into a resource id. */
  function Prefix(t: ResourceType): string {
    match t
    case Docker => ""
    case Git => "git://"
    case Maven => "gav://"
    case File => "file://"
    case Npm => "npm://"
    case Nuget => "nuget://"
    case Pip => "pip://"
    case Debian => "deb://"
    case Rpm => "rpm://"
  }

  /** The text a pattern is anchored to; the Docker pattern is not anchored. */
  function Anchor(t: ResourceType): string {
    if t == File then "file://sha256:" else Prefix(t)
  }

  function Separator(t: ResourceType): string {
    match t
    case Docker => "@sha256:"
    case Git => "@"
    case _ => ":"
  }

  // ----- greedy splits -----

  /** A separator at `i` with something before it, from `lo` on, and something after it. */
  predicate SplitsAt(s: string, separator: string, lo: nat, i: nat) {
    lo < i && i + |separator| < |s| && s[i..i + |separator|] == separator
  }

  /** The last such place below `hi`. */
  function LastSplit(s: string, separator: string, lo: nat, hi: nat): (r: Option<nat>)
    ensures r.Some? ==> r.value < hi && SplitsAt(s, separator, lo, r.value)
    ensures forall j: nat | SplitsAt(s, separator, lo, j) && j < hi :: r.Some? && j <= r.value
  {
    if hi == 0 then None
    else if SplitsAt(s, separator, lo, hi - 1) then Some(hi - 1)
    else LastSplit(s, separator, lo, hi - 1)
  }

  /** The last ':' in s[lo..hi]. */
  function LastColon(s: string, lo: nat, hi: nat): (r: Option<nat>)
    requires hi <= |s|
    ensures r.Some? ==> lo <= r.value < hi && s[r.value] == ':'
    ensures forall j | lo <= j < hi && s[j] == ':' :: r.Some? && j <= r.value
  {
    if hi <= lo then None
    else if s[hi - 1] == ':' then Some(hi - 1)
    else LastColon(s, lo, hi - 1)
  }

  /** Name and version in one line. */
  function MatchLine(t: ResourceType, line: string): Option<(string, string)> {
    var lo := |Anchor(t)|;
    if !HasPrefix(line, Anchor(t)) then None
    else if t == Debian || t == Rpm then
      // anything, a colon, the name, a colon, the version
      (match LastSplit(line, ":", lo + 1, |line|)
       case None => None
       case Some(j) =>
         match LastColon(line, lo, j - 1)
         case None => None
         case Some(i) => Some((line[i + 1..j], line[j + 1..])))
    else
      match LastSplit(line, Separator(t), lo, |line|)
      case None => None
      case Some(i) =>
        var first, second := line[lo..i], line[i + |Separator(t)|..];
        Some(if t == File then (second, first) else (first, second))
  }

  /** The line of a URI that a pattern is matched in: the first line for an anchored pattern, the first line that
      matches for the other. */
  function LineOf(t: ResourceType, uri: string): string {
    if t != Docker then Split(uri, '\n')[0] else FirstMatch(Split(uri, '\n'))
  }

  function FirstMatch(lines: seq<string>): (line: string)
    ensures line != "" ==> line in lines
  {
    if lines == [] then "" else if MatchLine(Docker, lines[0]).Some? then lines[0] else FirstMatch(lines[1..])
  }

  function Match(t: ResourceType, uri: string): Option<(string, string)> {
    MatchLine(t, LineOf(t, uri))
  }

  predicate Matches(t: ResourceType, uri: string) {
    Match(t, uri).Some?
  }

  function Components(t: ResourceType, uri: string): UriComponents
    requires Matches(t, uri)
  {
    var (name, version) := Match(t, uri).value;
    UriComponents(name, version, t, Prefix(t) + name)
  }

  /** A result the parser may give: which one, when several handlers match, depends on the map's iteration order. */
  ghost predicate PossibleParse(uri: string, r: UriComponents) {
    exists t :: Matches(t, uri) && r == Components(t, uri)
  }

  predicate Unparseable(uri: string) {
    forall t | t in HANDLERS :: !Matches(t, uri)
  }

  method ParseResourceUri(uri: string) returns (r: Result<UriComponents>)
    ensures r.Ok? ==> PossibleParse(uri, r.value)
    ensures r.Err? <==> Unparseable(uri)
  {
    var matched: Option<ResourceType> := None;
    var pending := HANDLERS;
    while pending != {} && matched.None?
      invariant pending <= HANDLERS
      invariant forall t | t in HANDLERS - pending :: matched == Some(t) || !Matches(t, uri)
      invariant matched.Some? ==> Matches(matched.value, uri)
    {
      var t :| t in pending;
      pending := pending - {t};
      if Matches(t, uri) {
        matched := Some(t);
      }
    }
    if matched.None? {
      return Err(Internal);
    }
    assert matched.value in HANDLERS;
    r := Ok(Components(matched.value, uri));
  }

  // ----- what the patterns mean -----

  lemma AnchorsDiffer(t: ResourceType, u: ResourceType, line: string)
    requires t != Docker && u != Docker && HasPrefix(line, Anchor(t)) && HasPrefix(line, Anchor(u))
    ensures t == u
  {
    var a, b := Anchor(t), Anchor(u);
    assert line[0] == a[0] == b[0] && line[1] == a[1] == b[1];
  }

  /** At most one anchored pattern matches a URI. */
  lemma AnchoredPatternsAreDisjoint(t: ResourceType, u: ResourceType, uri: string)
    requires t != Docker && u != Docker && Matches(t, uri) && Matches(u, uri)
    ensures t == u
  {
    AnchorsDiffer(t, u, Split(uri, '\n')[0]);
  }

  /** The parse is determined by the URI. */
  ghost predicate Determined(uri: string) {
    forall r, r' | PossibleParse(uri, r) && PossibleParse(uri, r') :: r == r'
  }

  predicate Ambiguous(uri: string) {
    Matches(Docker, uri) && exists t | t in HANDLERS :: t != Docker && Matches(t, uri)
  }

  /** The parse depends on the map's order exactly when the Docker pattern and an anchored one both match. */
  lemma OrderMattersExactly(uri: string)
    ensures Determined(uri) <==> !Ambiguous(uri)
  {
    if Ambiguous(uri) {
      var t :| t in HANDLERS && t != Docker && Matches(t, uri);
      assert PossibleParse(uri, Components(t, uri)) && PossibleParse(uri, Components(Docker, uri));
      assert Components(t, uri).resourceType != Components(Docker, uri).resourceType;
    } else {
      forall r, r' | PossibleParse(uri, r) && PossibleParse(uri, r') ensures r == r' {
        var t :| Matches(t, uri) && r == Components(t, uri);
        var u :| Matches(u, uri) && r' == Components(u, uri);
        assert t in HANDLERS && u in HANDLERS;
        if t != Docker && u != Docker {
          AnchoredPatternsAreDisjoint(t, u, uri);
        }
      }
    }
  }

  /** Puts a line together from the parts found in it. */
  function Rebuild(c: UriComponents): string {
    match c.resourceType
    case File => "file://sha256:" + c.version + ":" + c.name
    case t => Prefix(t) + c.name + Separator(t) + c.version
  }

  lemma CutInFour(s: string, i: nat, j: nat, k: nat)
    requires i <= j <= k <= |s|
    ensures s == s[..i] + s[i..j] + s[j..k] + s[k..]
  {
  }

  /** For every type but Debian and RPM the parts rebuild the matched line, and the split is at the last separator
      that has something after it. */
  lemma PartsRebuildUri(t: ResourceType, uri: string)
    requires Matches(t, uri) && t != Debian && t != Rpm
    ensures var c, line := Components(t, uri), LineOf(t, uri);
            Rebuild(c) == line && c.name != "" && c.version != "" &&
            var at := |Anchor(t)| + |if t == File then c.version else c.name|;
            SplitsAt(line, Separator(t), |Anchor(t)|, at) &&
            forall j: nat | SplitsAt(line, Separator(t), |Anchor(t)|, j) :: j <= at
  {
    hide LineOf, LastSplit;
    var line, lo := LineOf(t, uri), |Anchor(t)|;
    var i := LastSplit(line, Separator(t), lo, |line|).value;
    CutInFour(line, lo, i, i + |Separator(t)|);
    assert line[..lo] == Anchor(t);
  }

  /** A URI without newline is its own only line. */
  lemma NewlineFreeLine(t: ResourceType, uri: string)
    requires '\n' !in uri && Matches(t, uri)
    ensures LineOf(t, uri) == uri
  {
    assert Split(uri, '\n') == [uri];
    if t == Docker {
      var rest := [uri][1..];
      assert rest == [];
    }
  }

  /** Debian and RPM URIs lose what stands before the name. */
  lemma PackageUriParts(t: ResourceType, uri: string)
    requires Matches(t, uri) && (t == Debian || t == Rpm)
    ensures var c := Components(t, uri);
            c.name != "" && c.version != "" &&
            exists distribution :: LineOf(t, uri) == Prefix(t) + distribution + ":" + c.name + ":" + c.version
  {
    hide LineOf, LastSplit, LastColon;
    var line, lo := LineOf(t, uri), |Anchor(t)|;
    var j := LastSplit(line, ":", lo + 1, |line|).value;
    var i := LastColon(line, lo, j - 1).value;
    assert line[j..j + 1] == ":";
    CutTwice(line, lo, i, j);
    var c, distribution := Components(t, uri), line[lo..i];
    assert line[..lo] == Prefix(t) && c.name == line[i + 1..j] && c.version == line[j + 1..];
    assert line == Prefix(t) + distribution + ":" + c.name + ":" + c.version;
  }

  lemma CutTwice(line: string, lo: nat, i: nat, j: nat)
    requires lo <= i < j < |line| && line[i] == line[j] == ':'
    ensures line == line[..lo] + line[lo..i] + ":" + line[i + 1..j] + ":" + line[j + 1..]
  {
  }

  /** The parse of a URI that one handler matches. */
  function TypeOf(uri: string): (t: ResourceType)
    requires !Unparseable(uri)
    ensures Matches(t, uri)
  {
    if Matches(Git, uri) then Git
    else if Matches(Maven, uri) then Maven
    else if Matches(File, uri) then File
    else if Matches(Npm, uri) then Npm
    else if Matches(Nuget, uri) then Nuget
    else if Matches(Pip, uri) then Pip
    else if Matches(Debian, uri) then Debian
    else if Matches(Rpm, uri) then Rpm
    else Docker
  }

  function ParseOf(uri: string): UriComponents
    requires !Unparseable(uri)
  {
    Components(TypeOf(uri), uri)
  }

  lemma OnlyParse(uri: string, r: UriComponents)
    requires PossibleParse(uri, r) && !Ambiguous(uri)
    ensures !Unparseable(uri) && r == ParseOf(uri)
  {
    var t :| Matches(t, uri) && r == Components(t, uri);
    assert t in HANDLERS;
    OrderMattersExactly(uri);
    assert PossibleParse(uri, ParseOf(uri));
  }
}
