/** The package-private class `Version` of UpdateChecker.java: a semantic
    version parsed from text by a regular expression, rendered back to text,
    compared field by field for equality, and ordered by `compareTo`.

    The Java object is never changed after its constructor has filled in its
    five fields, so it is modelled as a datatype value, and the constructor as a
    total function that either yields that value or names the exception the
    constructor throws. */
module SemVer {
  import opened Wrappers
  import opened JavaLang
  import opened SemVerPattern

  /** The five fields of a `Version`; a `null` string field is `None`. */
  datatype Version = Version(
    major: NonNegInt,
    minor: NonNegInt,
    patch: NonNegInt,
    prerelease: Option<string>,
    metaData: Option<string>)

  /** Why the constructor throws: `matcher.group` after a failed `find()`
      throws `IllegalStateException`; `Integer.parseInt` on a numeral above
      `Integer.MAX_VALUE` throws `NumberFormatException`. */
  datatype ParseError = NoMatch | FieldOverflow

  // ----- The constructor -----

  /** `new Version(s)` (lines 95-104): the numbers are the decimal values of
      their groups, the two strings are the groups themselves or `null`. */
  function Parse(s: string): Result<Version, ParseError> {
    match Match(s)
    case None => Err(NoMatch)
    case Some(g) =>
      var major, minor, patch := DecimalValue(g.major), DecimalValue(g.minor), DecimalValue(g.patch);
      if major > INT_MAX || minor > INT_MAX || patch > INT_MAX then Err(FieldOverflow)
      else Ok(Version(major, minor, patch, g.prerelease, g.buildMetadata))
  }

  /** A version the constructor can produce. (The numbers' bound is in their type.) */
  predicate WellFormed(v: Version) {
    (v.prerelease.Some? ==> IsDotList(PreRelease, v.prerelease.value)) &&
    (v.metaData.Some? ==> IsDotList(Build, v.metaData.value))
  }

  /** The groups that denote `v`. */
  function GroupsOf(v: Version): Groups {
    Groups(Decimal(v.major), Decimal(v.minor), Decimal(v.patch), v.prerelease, v.metaData)
  }

  /** The standard Semantic Versioning text of `v`, build metadata after `+`. */
  function SemVerText(v: Version): string {
    GroupsText(GroupsOf(v))
  }

  // ----- Rendering -----

  /** `asVersionString()` (lines 106-122). */
  function AsVersionString(v: Version): string {
    Decimal(v.major) + "." + Decimal(v.minor) + "." + Decimal(v.patch)
    + (if v.prerelease.Some? && !IsBlank(v.prerelease.value) then "-" + v.prerelease.value else "")
    + (if v.metaData.Some? && !IsBlank(v.metaData.value) then "-" + v.metaData.value else "")
  }

  // ----- Equality and order -----

  /** `equals` (lines 124-130). */
  function Equals(v: Version, other: Version): (r: bool)
    ensures r <==> v == other
  {
    v.major == other.major && v.minor == other.minor && v.patch == other.patch &&
    v.prerelease == other.prerelease && v.metaData == other.metaData
  }

  /** `v.compareTo(other)` (lines 183-212): positive when `other` is the newer. */
  function CompareTo(v: Version, other: Version): int {
    if Equals(v, other) then 0
    else if other.major > v.major then 1
    else if other.major < v.major then -1
    else if other.minor > v.minor then 1
    else if other.minor < v.minor then -1
    else if other.patch > v.patch then 1
    else if other.patch < v.patch then -1
    else if other.prerelease.Some? && v.prerelease.Some? then
      CompareStrings(other.prerelease.value, v.prerelease.value)
    else 0
  }

  /** `a` precedes `b` in the order of (major, minor, patch). */
  predicate NumbersLess(a: Version, b: Version) {
    a.major < b.major ||
    (a.major == b.major && (a.minor < b.minor || (a.minor == b.minor && a.patch < b.patch)))
  }

  predicate SameNumbers(a: Version, b: Version) {
    a.major == b.major && a.minor == b.minor && a.patch == b.patch
  }

  // ----- The constructor: what it accepts and what it extracts -----

  lemma GroupsOfWellFormed(v: Version)
    requires WellFormed(v)
    ensures GroupsWellFormed(GroupsOf(v))
  {
  }

  /** A successful parse: the text is the standard text of the version,
      followed by at most a final line terminator; the numbers are the values
      of their numerals, and the pre-release and metadata are the exact
      substrings after `-` and `+`, never empty. */
  lemma ParseSound(s: string, v: Version)
    requires Parse(s) == Ok(v)
    ensures WellFormed(v)
    ensures v.prerelease.Some? ==> |v.prerelease.value| > 0
    ensures v.metaData.Some? ==> |v.metaData.value| > 0
    ensures var text := SemVerText(v);
      |text| <= |s| && s[..|text|] == text && IsFinalTerminator(s[|text|..])
  {
    var g := Match(s).value;
    MatchSound(s);
    DecimalOfValue(g.major);
    DecimalOfValue(g.minor);
    DecimalOfValue(g.patch);
    assert GroupsOf(v) == g;
    if v.prerelease.Some? {
      DotListChars(PreRelease, v.prerelease.value);
    }
    if v.metaData.Some? {
      DotListChars(Build, v.metaData.value);
    }
  }

  /** Every version the grammar can denote is parsed back from its standard
      text, with or without a final line terminator. */
  lemma ParseComplete(v: Version, t: string)
    requires WellFormed(v) && IsFinalTerminator(t)
    ensures Parse(SemVerText(v) + t) == Ok(v)
  {
    GroupsOfWellFormed(v);
    MatchComplete(GroupsOf(v), t);
    ParseOfMatch(SemVerText(v) + t, GroupsOf(v));
  }

  /** Groups whose numerals fit in an `int` give the version of their values. */
  lemma ParseOfMatch(s: string, g: Groups)
    requires Match(s) == Some(g)
    requires DecimalValue(g.major) <= INT_MAX && DecimalValue(g.minor) <= INT_MAX && DecimalValue(g.patch) <= INT_MAX
    ensures Parse(s) == Ok(Version(DecimalValue(g.major), DecimalValue(g.minor), DecimalValue(g.patch), g.prerelease, g.buildMetadata))
  {
  }

  /** Text of the grammar whose numbers do not fit in an `int` throws
      `NumberFormatException`. */
  lemma ParseOverflow(g: Groups, t: string)
    requires GroupsWellFormed(g) && IsFinalTerminator(t)
    requires DecimalValue(g.major) > INT_MAX || DecimalValue(g.minor) > INT_MAX || DecimalValue(g.patch) > INT_MAX
    ensures Parse(GroupsText(g) + t) == Err(FieldOverflow)
  {
    MatchComplete(g, t);
  }

  /** Text outside the grammar throws `IllegalStateException`, and only such text. */
  lemma ParseNoMatch(s: string)
    ensures Parse(s) == Err(NoMatch) <==>
      forall g: Groups, t: string :: GroupsWellFormed(g) && IsFinalTerminator(t) ==> s != GroupsText(g) + t
  {
    if Match(s).Some? {
      MatchedIsGrammarText(s);
    } else {
      UnmatchedIsNotGrammarText(s);
    }
  }

  lemma UnmatchedIsNotGrammarText(s: string)
    requires Match(s).None?
    ensures forall g: Groups, t: string :: GroupsWellFormed(g) && IsFinalTerminator(t) ==> s != GroupsText(g) + t
  {
    forall g: Groups, t: string | GroupsWellFormed(g) && IsFinalTerminator(t)
      ensures s != GroupsText(g) + t
    {
      MatchComplete(g, t);
    }
  }

  lemma MatchedIsGrammarText(s: string)
    requires Match(s).Some?
    ensures var g := Match(s).value;
      var text := GroupsText(g);
      GroupsWellFormed(g) && |text| <= |s| && IsFinalTerminator(s[|text|..]) && s == text + s[|text|..]
  {
    MatchSound(s);
    var text := GroupsText(Match(s).value);
    assert s == s[..|text|] + s[|text|..];
  }

  /** Every text the constructor accepts starts with a digit of the major number. */
  lemma ParsedStartsWithDigit(s: string)
    ensures Parse(s) != Err(NoMatch) ==> |s| > 0 && IsDigit(s[0])
  {
    if Match(s).Some? {
      var g := Match(s).value;
      MatchSound(s);
      assert GroupsText(g)[0] == g.major[0];
    }
  }

  /** A leading `v` throws `IllegalStateException`. */
  lemma RejectsPrefixedV()
    ensures Parse("v1.2") == Err(NoMatch)
    ensures Parse("v1.2.3") == Err(NoMatch)
  {
    ParsedStartsWithDigit("v1.2");
    ParsedStartsWithDigit("v1.2.3");
  }

  /** A missing patch number throws `IllegalStateException`. */
  lemma RejectsMissingPatch()
    ensures Parse("1.2") == Err(NoMatch)
  {
    assert StripFinalTerminator("1.2") == "1.2";
    IndexOfAnyIs("1.2", {'-', '+'}, 3);
    IndexOfAnyIs("1.2", {'.'}, 1);
    IndexOfAnyIs("2", {'.'}, 1);
  }

  /** A number with a leading zero throws `IllegalStateException`. */
  lemma RejectsLeadingZero()
    ensures Parse("01.2.3") == Err(NoMatch)
  {
    assert StripFinalTerminator("01.2.3") == "01.2.3";
    IndexOfAnyIs("01.2.3", {'-', '+'}, 6);
    IndexOfAnyIs("01.2.3", {'.'}, 2);
  }

  lemma ParsesRelease()
    ensures Parse("1.2.3") == Ok(Version(1, 2, 3, None, None))
  {
    var v := Version(1, 2, 3, None, None);
    assert SemVerText(v) + "" == "1.2.3";
    ParseComplete(v, "");
  }

  /** One above `Integer.MAX_VALUE` throws `NumberFormatException`. */
  lemma OverflowExample()
    ensures Parse("2147483648.0.0") == Err(FieldOverflow)
  {
    var g := Groups("2147483648", "0", "0", None, None);
    IntMaxPlusOne();
    assert GroupsText(g) + "" == "2147483648.0.0";
    ParseOverflow(g, "");
  }

  // ----- Rendering -----

  lemma DotListNotBlank(kind: IdentKind, s: string)
    requires IsDotList(kind, s)
    ensures !IsBlank(s)
    ensures forall i :: 0 <= i < |s| ==> s[i] != '+'
  {
    DotListChars(kind, s);
  }

  /** Without metadata, the rendering is the standard text. */
  lemma RenderWithoutMetadata(v: Version)
    requires WellFormed(v) && v.metaData.None?
    ensures AsVersionString(v) == SemVerText(v)
  {
    if v.prerelease.Some? {
      DotListNotBlank(PreRelease, v.prerelease.value);
    }
  }

  /** Round trip: a parsed version without metadata is parsed back, equal in
      all five fields, from its rendering. */
  lemma RoundTrip(s: string, v: Version)
    requires Parse(s) == Ok(v) && v.metaData.None?
    ensures Parse(AsVersionString(v)) == Ok(v)
  {
    ParseSound(s, v);
    RenderWithoutMetadata(v);
    ParseComplete(v, "");
    assert SemVerText(v) + "" == SemVerText(v);
  }

  /** The rendering of a parsed version never contains `+`: metadata follows a
      `-` appended to the rendering without metadata. */
  lemma RenderMetadataWithHyphen(v: Version)
    requires WellFormed(v)
    ensures forall i :: 0 <= i < |AsVersionString(v)| ==> AsVersionString(v)[i] != '+'
    ensures v.metaData.Some? ==>
      AsVersionString(v) == AsVersionString(v.(metaData := None)) + "-" + v.metaData.value
  {
    if v.prerelease.Some? {
      DotListNotBlank(PreRelease, v.prerelease.value);
    }
    if v.metaData.Some? {
      DotListNotBlank(Build, v.metaData.value);
    }
    var numbers := Decimal(v.major) + "." + Decimal(v.minor) + "." + Decimal(v.patch);
    assert forall i :: 0 <= i < |numbers| ==> numbers[i] != '+';
  }

  /** Where the `+` before the metadata stands in the standard text. */
  function PlusIndex(v: Version): nat {
    |NumbersText(Decimal(v.major), Decimal(v.minor), Decimal(v.patch))|
    + (if v.prerelease.Some? then 1 + |v.prerelease.value| else 0)
  }

  lemma MetadataAfterPlus(v: Version)
    ensures v.metaData.Some? ==> PlusIndex(v) < |SemVerText(v)| && SemVerText(v)[PlusIndex(v)] == '+'
  {
    var g := GroupsOf(v);
    var numbers := NumbersText(g.major, g.minor, g.patch);
    var preText := if g.prerelease.Some? then "-" + g.prerelease.value else "";
    var metaText := if g.buildMetadata.Some? then "+" + g.buildMetadata.value else "";
    assert SemVerText(v) == numbers + preText + metaText;
  }

  /** A text without `+` never parses to a version with metadata. */
  lemma NoPlusNoMetadata(s: string)
    requires forall i :: 0 <= i < |s| ==> s[i] != '+'
    ensures Parse(s).Ok? ==> Parse(s).value.metaData.None?
  {
    if Parse(s).Ok? {
      var v := Parse(s).value;
      ParseSound(s, v);
      MetadataAfterPlus(v);
      assert forall i :: 0 <= i < |SemVerText(v)| ==> SemVerText(v)[i] == s[i];
    }
  }

  /** With metadata there is no round trip: the rendering never parses back
      to the same version. */
  lemma MetadataNotRestored(s: string, v: Version)
    requires Parse(s) == Ok(v) && v.metaData.Some?
    ensures Parse(AsVersionString(v)) != Ok(v)
  {
    ParseSound(s, v);
    RenderMetadataWithHyphen(v);
    NoPlusNoMetadata(AsVersionString(v));
  }

  /** Metadata of digits only, such as `001`, is well formed, but the
      rendering puts it after `-`... */
  lemma NumericMetadataRendering()
    ensures WellFormed(Version(1, 0, 0, None, Some("001")))
    ensures AsVersionString(Version(1, 0, 0, None, Some("001"))) == "1.0.0-001"
  {
    IndexOfAnyIs("001", {'.'}, 3);
    assert IsDotList(Build, "001");
    assert !IsWhitespace("001"[0]);
    assert Decimal(1) == "1" && Decimal(0) == "0";
  }

  /** ...where it reads as a pre-release identifier with a leading zero. */
  lemma LeadingZeroPreRelease()
    ensures MatchSuffix("-001") == None
  {
    IndexOfAnyIs("-001", {'+'}, 4);
    assert "-001"[1..4] == "001";
    IndexOfAnyIs("001", {'.'}, 3);
    assert !IsIdentifier(PreRelease, "001");
  }

  /** ...which the constructor rejects. */
  lemma NumericMetadataRenderingRejected()
    ensures Parse("1.0.0-001") == Err(NoMatch)
  {
    var s := "1.0.0-001";
    assert StripFinalTerminator(s) == s;
    IndexOfAnyIs(s, {'-', '+'}, 5);
    assert s[5..] == "-001";
    LeadingZeroPreRelease();
  }

  // ----- Properties of the order -----

  /** `compareTo` is zero on equal versions. */
  lemma CompareToReflexive(v: Version)
    ensures CompareTo(v, v) == 0
  {
  }

  /** The first of major, minor and patch that differs decides, with 1 when
      the argument's number is the larger and -1 when it is the smaller. */
  lemma CompareToNumbers(v: Version, other: Version)
    ensures NumbersLess(v, other) ==> CompareTo(v, other) == 1
    ensures NumbersLess(other, v) ==> CompareTo(v, other) == -1
  {
  }

  /** Equal numbers: the argument's pre-release compared with this one's when
      both have one, and 0 otherwise. */
  lemma CompareToTie(v: Version, other: Version)
    requires SameNumbers(v, other)
    ensures CompareTo(v, other) ==
      if v.prerelease.Some? && other.prerelease.Some?
      then CompareStrings(other.prerelease.value, v.prerelease.value) else 0
  {
    if v.prerelease.Some? && other.prerelease.Some? {
      CompareStringsZero(other.prerelease.value, v.prerelease.value);
    }
  }

  /** `compareTo` changes sign exactly with its operands, as the
      `Comparable` contract in the doc comment requires of the signum. */
  lemma CompareToAntisymmetric(a: Version, b: Version)
    ensures CompareTo(a, b) == -CompareTo(b, a)
  {
    if a.prerelease.Some? && b.prerelease.Some? {
      CompareStringsAntisymmetric(a.prerelease.value, b.prerelease.value);
    }
  }

  /** "Newer than" is transitive: the doc comment's second law holds. */
  lemma CompareToTransitive(a: Version, b: Version, c: Version)
    requires CompareTo(a, b) > 0 && CompareTo(b, c) > 0
    ensures CompareTo(a, c) > 0
  {
    if SameNumbers(a, b) && SameNumbers(b, c) {
      CompareStringsAntisymmetric(b.prerelease.value, a.prerelease.value);
      CompareStringsAntisymmetric(c.prerelease.value, b.prerelease.value);
      CompareStringsTransitive(a.prerelease.value, b.prerelease.value, c.prerelease.value);
      CompareStringsAntisymmetric(c.prerelease.value, a.prerelease.value);
    }
  }

  /** Build metadata never affects the order. */
  lemma CompareToIgnoresMetadata(a: Version, b: Version, m1: Option<string>, m2: Option<string>)
    ensures CompareTo(a.(metaData := m1), b.(metaData := m2)) == CompareTo(a, b)
  {
    if SameNumbers(a, b) && a.prerelease.Some? && b.prerelease.Some? {
      CompareStringsZero(b.prerelease.value, a.prerelease.value);
    }
  }

  /** The order is not consistent with `equals`, and a zero result is not
      transitive: the doc comment's third law fails. */
  lemma ZeroIsNotEquivalence()
    ensures var release := Version(1, 0, 0, None, None);
      var alpha := Version(1, 0, 0, Some("alpha"), None);
      var beta := Version(1, 0, 0, Some("beta"), None);
      CompareTo(release, alpha) == 0 && !Equals(release, alpha) &&
      CompareTo(alpha, release) == 0 && CompareTo(release, beta) == 0 &&
      CompareTo(alpha, beta) > 0
  {
  }

  /** Examples of the order. */
  lemma OrderExamples()
    ensures CompareTo(Version(1, 2, 3, None, None), Version(1, 3, 0, None, None)) > 0
    ensures CompareTo(Version(2, 0, 0, None, None), Version(1, 9, 9, None, None)) < 0
    ensures CompareTo(Version(1, 0, 0, Some("alpha"), None), Version(1, 0, 0, Some("beta"), None)) == 1
  {
  }
}
