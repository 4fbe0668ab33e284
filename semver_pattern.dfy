/** SEMVER_PATTERN of UpdateChecker.java (line 86) and what `find()` with its
    named groups yields: the Semantic Versioning 2.0.0 grammar
    `major.minor.patch[-prerelease][+buildmetadata]`, anchored by `^` and `$`.

    The matcher is modelled by a hand-written scanner, `Match`, and the set of
    strings it accepts is characterised by `MatchSound` and `MatchComplete`
    against the grammar written out as text (`GroupsText`). */
module SemVerPattern {
  import opened Wrappers
  import opened JavaLang

  // ----- The character classes and identifiers of SEMVER_PATTERN -----

  predicate IsLetter(c: char) {
    'a' <= c <= 'z' || 'A' <= c <= 'Z'
  }

  /** `[0-9a-zA-Z-]`. */
  predicate IsIdentChar(c: char) {
    IsDigit(c) || IsLetter(c) || c == '-'
  }

  predicate AllIdentChars(s: string) {
    forall i :: 0 <= i < |s| ==> IsIdentChar(s[i])
  }

  /** The two kinds of dot-separated identifier lists in the pattern. */
  datatype IdentKind = PreRelease | Build

  /** A pre-release identifier is `0|[1-9]\d*|\d*[a-zA-Z-][0-9a-zA-Z-]*`: a
      numeral without leading zeros, or identifier characters with at least one
      non-digit. A build identifier is `[0-9a-zA-Z-]+`. */
  predicate IsIdentifier(kind: IdentKind, s: string) {
    match kind
    case PreRelease => IsCanonicalDecimal(s) || (AllIdentChars(s) && !AllDigits(s))
    case Build => |s| > 0 && AllIdentChars(s)
  }

  /** The index of the first character of `s` that is in `cs`, or `|s|`. */
  function IndexOfAny(s: string, cs: set<char>): (k: nat)
    ensures k <= |s|
    ensures forall i :: 0 <= i < k ==> s[i] !in cs
    ensures k < |s| ==> s[k] in cs
  {
    if s == [] || s[0] in cs then 0 else 1 + IndexOfAny(s[1..], cs)
  }

  /** `ident ("." ident)*` for identifiers of the given kind. */
  predicate IsDotList(kind: IdentKind, s: string)
    decreases |s|
  {
    var k := IndexOfAny(s, {'.'});
    IsIdentifier(kind, s[..k]) && (k < |s| ==> IsDotList(kind, s[k + 1..]))
  }

  // ----- Java's `$` -----

  predicate IsLineTerminator(c: char) {
    c == '\n' || c == '\r' || c == '\U{0085}' || c == '\U{2028}' || c == '\U{2029}'
  }

  /** What Java's `$` (without MULTILINE) lets stand after the match: nothing,
      one line terminator, or CR LF. */
  predicate IsFinalTerminator(t: string) {
    t == [] || (|t| == 1 && IsLineTerminator(t[0])) || t == "\r\n"
  }

  function StripFinalTerminator(s: string): string {
    if |s| >= 2 && s[|s| - 2..] == "\r\n" then s[..|s| - 2]
    else if |s| >= 1 && IsLineTerminator(s[|s| - 1]) then s[..|s| - 1]
    else s
  }

  // ----- The match -----

  /** The five named groups of a match; an unmatched optional group is `None`. */
  datatype Groups = Groups(
    major: string,
    minor: string,
    patch: string,
    prerelease: Option<string>,
    buildMetadata: Option<string>)

  /** The groups of some match of SEMVER_PATTERN. */
  predicate GroupsWellFormed(g: Groups) {
    IsCanonicalDecimal(g.major) && IsCanonicalDecimal(g.minor) && IsCanonicalDecimal(g.patch) &&
    (g.prerelease.Some? ==> IsDotList(PreRelease, g.prerelease.value)) &&
    (g.buildMetadata.Some? ==> IsDotList(Build, g.buildMetadata.value))
  }

  /** The text the pattern matches with the given groups, before `$`:
      `major.minor.patch[-prerelease][+buildmetadata]`. */
  function GroupsText(g: Groups): string {
    NumbersText(g.major, g.minor, g.patch) + SuffixText(g.prerelease, g.buildMetadata)
  }

  function NumbersText(major: string, minor: string, patch: string): string {
    major + "." + minor + "." + patch
  }

  function SuffixText(pre: Option<string>, meta: Option<string>): string {
    (if pre.Some? then "-" + pre.value else "") + (if meta.Some? then "+" + meta.value else "")
  }

  /** The part that may follow the numbers: `[-prerelease][+buildmetadata]`. */
  function MatchSuffix(suffix: string): Option<(Option<string>, Option<string>)> {
    if suffix == [] then Some((None, None))
    else if suffix[0] == '-' then
      var p := IndexOfAny(suffix, {'+'});
      var pre := suffix[1..p];
      if !IsDotList(PreRelease, pre) then None
      else if p == |suffix| then Some((Some(pre), None))
      else if IsDotList(Build, suffix[p + 1..]) then Some((Some(pre), Some(suffix[p + 1..])))
      else None
    else if suffix[0] == '+' && IsDotList(Build, suffix[1..]) then Some((None, Some(suffix[1..])))
    else None
  }

  /** `major.minor.patch`, split at its first two dots. */
  function MatchNumbers(numbers: string): Option<(string, string, string)> {
    var d1 := IndexOfAny(numbers, {'.'});
    if d1 == |numbers| then None
    else
      var rest := numbers[d1 + 1..];
      var d2 := IndexOfAny(rest, {'.'});
      if d2 == |rest| then None
      else
        var major, minor, patch := numbers[..d1], rest[..d2], rest[d2 + 1..];
        if IsCanonicalDecimal(major) && IsCanonicalDecimal(minor) && IsCanonicalDecimal(patch)
        then Some((major, minor, patch))
        else None
  }

  /** The whole pattern between `^` and `$`. The numbers run up to the first
      `-` or `+`, since no other character can end them. */
  function MatchBody(body: string): Option<Groups> {
    var n := IndexOfAny(body, {'-', '+'});
    match (MatchNumbers(body[..n]), MatchSuffix(body[n..]))
    case (Some((major, minor, patch)), Some((pre, meta))) => Some(Groups(major, minor, patch, pre, meta))
    case _ => None
  }

  /** `SEMVER_PATTERN.matcher(s).find()` and its named groups (line 86). */
  function Match(s: string): (m: Option<Groups>)
    ensures m.Some? ==> GroupsWellFormed(m.value)
  {
    MatchBody(StripFinalTerminator(s))
  }

  // ----- Properties of the matcher -----

  lemma IndexOfAnyIs(s: string, cs: set<char>, k: nat)
    requires k <= |s|
    requires forall i :: 0 <= i < k ==> s[i] !in cs
    requires k < |s| ==> s[k] in cs
    ensures IndexOfAny(s, cs) == k
  {
  }

  /** A dot list is non-empty, made of identifier characters and dots, and
      ends with an identifier character. */
  lemma {:induction false} DotListChars(kind: IdentKind, s: string)
    requires IsDotList(kind, s)
    ensures |s| > 0 && IsIdentChar(s[|s| - 1])
    ensures forall i :: 0 <= i < |s| ==> IsIdentChar(s[i]) || s[i] == '.'
  {
    var k := IndexOfAny(s, {'.'});
    if k < |s| {
      DotListChars(kind, s[k + 1..]);
      forall i | k + 1 <= i < |s| ensures IsIdentChar(s[i]) || s[i] == '.' {
        assert s[i] == s[k + 1..][i - (k + 1)];
      }
      assert s[|s| - 1] == s[k + 1..][|s| - (k + 1) - 1];
    }
    assert forall i :: 0 <= i < k ==> s[i] == s[..k][i];
  }

  lemma StripFinalTerminatorOf(text: string, t: string)
    requires |text| > 0 && IsIdentChar(text[|text| - 1])
    requires IsFinalTerminator(t)
    ensures StripFinalTerminator(text + t) == text
  {
    var s := text + t;
    if t == "\r\n" {
      assert s[|s| - 2..] == t;
      assert s[..|s| - 2] == text;
    } else if |t| == 1 {
      assert s[|s| - 1] == t[0];
      assert s[..|s| - 1] == text;
    } else {
      assert s == text;
    }
  }

  lemma StripFinalTerminatorSplits(s: string)
    ensures |StripFinalTerminator(s)| <= |s|
    ensures s[..|StripFinalTerminator(s)|] == StripFinalTerminator(s)
    ensures IsFinalTerminator(s[|StripFinalTerminator(s)|..])
  {
  }

  /** The suffix scanner accepts exactly the texts of its two optional groups. */
  lemma MatchSuffixSound(suffix: string)
    requires MatchSuffix(suffix).Some?
    ensures var (pre, meta) := MatchSuffix(suffix).value;
      (pre.Some? ==> IsDotList(PreRelease, pre.value)) &&
      (meta.Some? ==> IsDotList(Build, meta.value)) &&
      suffix == SuffixText(pre, meta)
  {
    if suffix != [] {
      if suffix[0] == '-' {
        var p := IndexOfAny(suffix, {'+'});
        if p < |suffix| {
          SplitTwice(suffix, p);
        } else {
          SplitOnce(suffix);
        }
      } else {
        SplitOnce(suffix);
      }
    }
  }

  lemma SplitAt(s: string, k: nat)
    requires k <= |s|
    ensures s == s[..k] + s[k..]
  {
  }

  lemma SplitOnce(s: string)
    requires |s| > 0
    ensures s == [s[0]] + s[1..]
  {
  }

  lemma SplitTwice(s: string, p: nat)
    requires 0 < p < |s|
    ensures s == [s[0]] + s[1..p] + [s[p]] + s[p + 1..]
  {
    assert s[1..] == s[1..p] + [s[p]] + s[p + 1..];
  }

  lemma MatchSuffixComplete(pre: Option<string>, meta: Option<string>)
    requires pre.Some? ==> IsDotList(PreRelease, pre.value)
    requires meta.Some? ==> IsDotList(Build, meta.value)
    ensures MatchSuffix(SuffixText(pre, meta)) == Some((pre, meta))
  {
    var metaText := if meta.Some? then "+" + meta.value else "";
    if meta.Some? {
      DotListChars(Build, meta.value);
    }
    if pre.Some? {
      var p := pre.value;
      DotListChars(PreRelease, p);
      var suffix := "-" + p + metaText;
      IndexOfAnyIs(suffix, {'+'}, 1 + |p|);
      assert suffix[1..1 + |p|] == p;
      if meta.Some? {
        assert suffix[1 + |p| + 1..] == meta.value;
      }
    } else if meta.Some? {
      assert SuffixText(pre, meta) == metaText;
      assert metaText[1..] == meta.value;
    }
  }

  /** Three numerals joined by dots split back at the dots into the same three. */
  lemma MatchNumbersComplete(major: string, minor: string, patch: string)
    requires IsCanonicalDecimal(major) && IsCanonicalDecimal(minor) && IsCanonicalDecimal(patch)
    ensures MatchNumbers(NumbersText(major, minor, patch)) == Some((major, minor, patch))
  {
    var numbers := NumbersText(major, minor, patch);
    IndexOfAnyIs(numbers, {'.'}, |major|);
    var rest := numbers[|major| + 1..];
    assert rest == minor + "." + patch;
    IndexOfAnyIs(rest, {'.'}, |minor|);
    assert numbers[..|major|] == major;
    assert rest[..|minor|] == minor && rest[|minor| + 1..] == patch;
  }

  lemma MatchNumbersSound(numbers: string)
    requires MatchNumbers(numbers).Some?
    ensures var (major, minor, patch) := MatchNumbers(numbers).value;
      numbers == NumbersText(major, minor, patch)
  {
    var d1 := IndexOfAny(numbers, {'.'});
    var rest := numbers[d1 + 1..];
    var d2 := IndexOfAny(rest, {'.'});
    var major, minor, patch := numbers[..d1], rest[..d2], rest[d2 + 1..];
    assert MatchNumbers(numbers).value == (major, minor, patch);
    SplitAround(rest, d2);
    SplitAround(numbers, d1);
    assert numbers == major + "." + (minor + "." + patch);
  }

  lemma SplitAround(s: string, k: nat)
    requires k < |s|
    ensures s == s[..k] + [s[k]] + s[k + 1..]
  {
  }

  /** The numbers hold no `-` or `+`, so the body splits where the suffix starts. */
  lemma BodySplits(major: string, minor: string, patch: string, suffix: string)
    requires AllDigits(major) && AllDigits(minor) && AllDigits(patch)
    requires suffix != [] ==> suffix[0] in {'-', '+'}
    ensures var numbers := NumbersText(major, minor, patch);
      var body := numbers + suffix;
      IndexOfAny(body, {'-', '+'}) == |numbers| && body[..|numbers|] == numbers && body[|numbers|..] == suffix
  {
    var numbers := NumbersText(major, minor, patch);
    var body := numbers + suffix;
    assert forall i :: 0 <= i < |numbers| ==> body[i] == numbers[i] && (IsDigit(numbers[i]) || numbers[i] == '.');
    IndexOfAnyIs(body, {'-', '+'}, |numbers|);
  }

  lemma MatchBodyComplete(g: Groups)
    requires GroupsWellFormed(g)
    ensures MatchBody(GroupsText(g)) == Some(g)
  {
    BodySplits(g.major, g.minor, g.patch, SuffixText(g.prerelease, g.buildMetadata));
    MatchNumbersComplete(g.major, g.minor, g.patch);
    MatchSuffixComplete(g.prerelease, g.buildMetadata);
  }

  lemma MatchBodySound(body: string)
    requires MatchBody(body).Some?
    ensures body == GroupsText(MatchBody(body).value)
  {
    var n := IndexOfAny(body, {'-', '+'});
    MatchNumbersSound(body[..n]);
    MatchSuffixSound(body[n..]);
    SplitAt(body, n);
  }

  /** Every match is the grammar's text for its groups, followed by at most a
      final line terminator. */
  lemma MatchSound(s: string)
    requires Match(s).Some?
    ensures var text := GroupsText(Match(s).value);
      |text| <= |s| && s[..|text|] == text && IsFinalTerminator(s[|text|..])
  {
    StripFinalTerminatorSplits(s);
    MatchBodySound(StripFinalTerminator(s));
  }

  /** The grammar's text for any well-formed groups, followed by nothing or
      one final line terminator, matches, with exactly those groups. */
  lemma MatchComplete(g: Groups, t: string)
    requires GroupsWellFormed(g) && IsFinalTerminator(t)
    ensures Match(GroupsText(g) + t) == Some(g)
  {
    var text := GroupsText(g);
    if g.buildMetadata.Some? {
      DotListChars(Build, g.buildMetadata.value);
    } else if g.prerelease.Some? {
      DotListChars(PreRelease, g.prerelease.value);
    }
    assert |text| > 0 && IsIdentChar(text[|text| - 1]);
    StripFinalTerminatorOf(text, t);
    MatchBodyComplete(g);
  }
}
