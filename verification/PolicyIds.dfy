/** Document ids of policies, their counters, their versions, and assignments. */
module PolicyIds {
  import opened Wrappers
  import opened Text

  predicate DotFree(s: string) {
    '.' !in s
  }

  predicate SlashFree(s: string) {
    '/' !in s
  }

  function PolicyVersionId(policyId: string, version: uint32): string {
    policyId + "." + Decimal(version)
  }

  function PolicyCounterId(policyId: string): string {
    policyId + "." + "counter"
  }

  function ParsePolicyVersionId(id: string): Result<(string, uint32)> {
    if DotFree(id) then
      Ok((id, 0))
    else
      var pieces := Split(id, '.');
      if |pieces| != 2 then
        Err(InvalidArgument)
      else
        match Atoi(pieces[1])
        case None => Err(InvalidArgument)
        case Some(n) => Ok((pieces[0], ToUint32(n)))
  }

  /** The text before the first dot. */
  function BaseOf(id: string): string {
    Split(id, '.')[0]
  }

  function PolicyAssignmentId(policyId: string, group: string): string {
    "policies/" + policyId + "/assignments/" + group
  }

  lemma {:induction false} SuffixedId(p: string, suffix: string)
    requires DotFree(p) && DotFree(suffix)
    ensures Split(p + "." + suffix, '.') == [p, suffix]
    ensures !DotFree(p + "." + suffix)
  {
    SplitAtSeparator(p, '.', suffix);
    assert (p + "." + suffix)[|p|] == '.';
  }

  lemma {:induction false} AtoiOfDecimal(v: uint32)
    ensures Atoi(Decimal(v)) == Some(v)
    ensures DotFree(Decimal(v))
  {
    ValueOfDecimal(v);
    assert IsDigit(Decimal(v)[0]);
  }

  /** Parsing undoes building, for every dot-free policy id and every version number. */
  lemma ParseUndoesVersionId(p: string, v: uint32)
    requires DotFree(p)
    ensures ParsePolicyVersionId(PolicyVersionId(p, v)) == Ok((p, v))
    ensures BaseOf(PolicyVersionId(p, v)) == p && !DotFree(PolicyVersionId(p, v))
  {
    AtoiOfDecimal(v);
    WrapsExactlyOutOfRange(v);
    var d := Decimal(v);
    SuffixedId(p, d);
  }

  lemma CounterIdDoesNotParse(p: string)
    requires DotFree(p)
    ensures ParsePolicyVersionId(PolicyCounterId(p)) == Err(InvalidArgument)
    ensures BaseOf(PolicyCounterId(p)) == p && !DotFree(PolicyCounterId(p))
  {
    SuffixedId(p, "counter");
    assert !IsDigit("counter"[0]);
  }

  /** The part of a dotted id that stands for the version. */
  function Suffix(id: string): string
    requires ParsePolicyVersionId(id).Ok? && !DotFree(id)
  {
    Split(id, '.')[1]
  }

  lemma {:induction false} PiecesOf(id: string)
    requires !DotFree(id) && |Split(id, '.')| == 2
    ensures var pieces := Split(id, '.');
            DotFree(pieces[0]) && DotFree(pieces[1]) && id == pieces[0] + "." + pieces[1]
  {
    var i := IndexOf(id, '.');
    var rest := id[i + 1..];
    assert Split(id, '.') == [id[..i]] + Split(rest, '.');
    assert Split(rest, '.') == [rest];
    assert id == id[..i] + [id[i]] + rest;
  }

  /** A digit string is the decimal notation of the 32-bit number that Atoi and the conversion read from it
      exactly when it has no leading zero and its value fits. */
  lemma {:induction false} CanonicalSuffix(s: string)
    requires Atoi(s).Some?
    ensures Decimal(ToUint32(Atoi(s).value)) == s
            <==> AllDigits(s) && NoLeadingZero(s) && Value(s) < TWO_TO_THE_32
  {
    if AllDigits(s) {
      assert IsDigit(s[0]);
      WrapsExactlyOutOfRange(Value(s));
      CanonicalDigits(s, ToUint32(Value(s)));
    }
  }

  lemma WrapsExactlyOutOfRange(n: nat)
    ensures ToUint32(n) == n <==> n < TWO_TO_THE_32
  {
  }

  lemma {:induction false} CanonicalDigits(s: string, v: nat)
    requires s != [] && AllDigits(s)
    ensures Decimal(v) == s <==> NoLeadingZero(s) && v == Value(s)
  {
    DecimalHasNoLeadingZero(v);
    ValueOfDecimal(v);
    if NoLeadingZero(s) {
      DecimalOfValue(s);
    }
  }

  /** Exactly when building undoes parsing: the version part is in decimal notation and fits 32 bits.
      Other ids parse as well ("p.01", "p.+1", "p.4294967297" all read as version 1). */
  lemma VersionIdUndoesParse(id: string)
    requires !DotFree(id) && ParsePolicyVersionId(id).Ok?
    ensures var (p, v) := ParsePolicyVersionId(id).value;
            var s := Suffix(id);
            PolicyVersionId(p, v) == id
            <==> AllDigits(s) && NoLeadingZero(s) && Value(s) < TWO_TO_THE_32
  {
    var (p, v) := ParsePolicyVersionId(id).value;
    var s := Suffix(id);
    PiecesOf(id);
    CanonicalSuffix(s);
    SameSuffix(p, Decimal(v), s);
  }

  lemma SameSuffix(p: string, s: string, t: string)
    ensures p + "." + s == p + "." + t <==> s == t
  {
    assert s == (p + "." + s)[|p| + 1..];
    assert t == (p + "." + t)[|p| + 1..];
  }

  /** The parser also accepts ids no version document has. */
  lemma NonCanonicalIdParses()
    ensures ParsePolicyVersionId("p.01") == Ok(("p", 1)) && PolicyVersionId("p", 1) != "p.01"
  {
    SuffixedId("p", "01");
    assert "p" + "." + "01" == "p.01";
    assert Value("") == 0 && Value("0") == 0 by { assert "0"[..0] == ""; }
    assert "01"[..1] == "0";
    assert Value("01") == 1;
    assert |PolicyVersionId("p", 1)| == 3;
  }

  lemma PartParses(p: string, s: string)
    requires DotFree(p) && DotFree(s)
    ensures ParsePolicyVersionId(p + "." + s) ==
            if Atoi(s).Some? then Ok((p, ToUint32(Atoi(s).value))) else Err(InvalidArgument)
  {
    SuffixedId(p, s);
    hide Atoi, Split;
  }

  lemma {:induction false} AtoiReads(digits: string)
    requires digits != "" && AllDigits(digits)
    ensures var n: int := Value(digits);
            Atoi(digits) == Atoi("+" + digits) == (if n < 0x8000_0000_0000_0000 then Some(n) else None) &&
            Atoi("-" + digits) == if n <= 0x8000_0000_0000_0000 then Some(-n) else None
  {
    assert IsDigit(digits[0]);
    assert ("+" + digits)[1..] == digits == ("-" + digits)[1..];
    hide Value;
  }

  /** A version part is a signed or unsigned decimal number of 64 bits, whose low 32 bits are the version. */
  lemma {:induction false} NumbersParse(p: string, digits: string)
    requires DotFree(p) && digits != "" && AllDigits(digits)
    ensures var n: int := Value(digits);
            var unsigned :=
              if n < 0x8000_0000_0000_0000 then Ok((p, n % 0x1_0000_0000)) else Err(InvalidArgument);
            ParsePolicyVersionId(p + "." + digits) == unsigned &&
            ParsePolicyVersionId(p + "." + ("+" + digits)) == unsigned &&
            ParsePolicyVersionId(p + "." + ("-" + digits)) ==
            if n <= 0x8000_0000_0000_0000 then Ok((p, (-n) % 0x1_0000_0000)) else Err(InvalidArgument)
  {
    DigitsHaveNoDot(digits);
    AtoiReads(digits);
    PartParses(p, digits);
    PartParses(p, "+" + digits);
    PartParses(p, "-" + digits);
    hide Atoi, Value, ParsePolicyVersionId;
  }

  lemma DigitsHaveNoDot(digits: string)
    requires AllDigits(digits)
    ensures DotFree(digits)
  {
    forall i | 0 <= i < |digits| ensures digits[i] != '.' {
      assert IsDigit(digits[i]);
    }
  }

  predicate SignedDigits(s: string) {
    && s != "" && (AllDigits(s) || s[0] == '+' || s[0] == '-')
    && (!AllDigits(s) ==> s[1..] != "" && AllDigits(s[1..]))
  }

  /** Nothing else parses: no other version part, and no second dot. */
  lemma OthersDoNotParse(p: string, s: string, rest: string)
    requires DotFree(p) && DotFree(s)
    ensures !SignedDigits(s) ==> ParsePolicyVersionId(p + "." + s) == Err(InvalidArgument)
    ensures ParsePolicyVersionId(p + "." + (s + "." + rest)) == Err(InvalidArgument)
  {
    SuffixedId(p, s);
    SplitAtSeparator(p, '.', s + "." + rest);
    SplitAtSeparator(s, '.', rest);
    assert (p + "." + (s + "." + rest))[|p|] == '.';
    if s != "" && AllDigits(s) {
      assert IsDigit(s[0]);
    }
    hide Split, Value;
  }

  /** Everything the state machines need to know about ids, for all ids at once:
      base, counter and version ids never meet, and each determines its policy and number. */
  lemma IdSpaces()
    ensures forall p, v: uint32 {:trigger PolicyVersionId(p, v)} | DotFree(p) ::
              ParsePolicyVersionId(PolicyVersionId(p, v)) == Ok((p, v)) &&
              BaseOf(PolicyVersionId(p, v)) == p && !DotFree(PolicyVersionId(p, v))
    ensures forall p {:trigger PolicyCounterId(p)} | DotFree(p) ::
              ParsePolicyVersionId(PolicyCounterId(p)).Err? &&
              BaseOf(PolicyCounterId(p)) == p && !DotFree(PolicyCounterId(p))
  {
    forall p, v: uint32 | DotFree(p)
      ensures ParsePolicyVersionId(PolicyVersionId(p, v)) == Ok((p, v)) &&
              BaseOf(PolicyVersionId(p, v)) == p && !DotFree(PolicyVersionId(p, v))
    {
      ParseUndoesVersionId(p, v);
    }
    forall p | DotFree(p)
      ensures ParsePolicyVersionId(PolicyCounterId(p)).Err? &&
              BaseOf(PolicyCounterId(p)) == p && !DotFree(PolicyCounterId(p))
    {
      CounterIdDoesNotParse(p);
    }
  }

  lemma IdSpacesAreDisjoint(p: string, v: uint32, q: string, w: uint32)
    requires DotFree(p) && DotFree(q)
    ensures PolicyVersionId(p, v) == PolicyVersionId(q, w) <==> p == q && v == w
    ensures PolicyCounterId(p) == PolicyCounterId(q) <==> p == q
    ensures p != PolicyVersionId(q, w) && p != PolicyCounterId(q) && PolicyVersionId(p, v) != PolicyCounterId(q)
  {
    IdSpaces();
  }

  /** The prefix query "P." of the assignment listing finds a version id exactly when P is its policy. */
  lemma PrefixQueryIsExact(queried: string, p: string, v: uint32)
    requires DotFree(p)
    ensures HasPrefix(PolicyVersionId(p, v), queried + ".") <==> queried == p
  {
    var id := PolicyVersionId(p, v);
    AtoiOfDecimal(v);
    SuffixedId(p, Decimal(v));
    assert p + "." <= id;
    if HasPrefix(id, queried + ".") {
      var rest := id[|queried| + 1..];
      assert id == queried + "." + rest;
      SplitCounts(queried, '.', rest);
      assert DotFree(queried);
      SplitAtSeparator(queried, '.', rest);
      assert Split(id, '.')[0] == queried;
    }
  }

  /** Reads the policy id back from an assignment id. */
  function AssignedPolicy(id: string): string
    requires |id| > 9 && '/' in id[9..]
  {
    id[9..][..IndexOf(id[9..], '/')]
  }

  lemma AssignedPolicyOfId(p: string, g: string)
    requires SlashFree(p)
    ensures var id := PolicyAssignmentId(p, g);
            |id| > 9 && '/' in id[9..] && AssignedPolicy(id) == p && id[9 + |p| + 13..] == g
  {
    var id := PolicyAssignmentId(p, g);
    var rest := "assignments/" + g;
    assert |"policies/"| == 9 && |"assignments/"| == 12;
    assert id[9..] == p + ['/'] + rest;
    assert id[9..][|p|] == '/';
    IndexOfFirst(p, '/', rest);
  }

  /** Assignment ids determine the policy and the group, for slash-free policy ids. */
  lemma AssignmentIdInjective(p: string, g: string, q: string, h: string)
    requires SlashFree(p) && SlashFree(q)
    requires PolicyAssignmentId(p, g) == PolicyAssignmentId(q, h)
    ensures p == q && g == h
  {
    AssignedPolicyOfId(p, g);
    AssignedPolicyOfId(q, h);
  }

  /** Without that condition two different pairs share one id. */
  lemma AssignmentIdAmbiguousWithSlashes()
    ensures PolicyAssignmentId("a", "b/assignments/c") == PolicyAssignmentId("a/assignments/b", "c")
  {
    assert "a/assignments/b" == "a" + "/assignments/" + "b";
    assert "b/assignments/c" == "b" + "/assignments/" + "c";
  }
}
