/** The decision of `UpdateChecker` (UpdateChecker.java, lines 16-82):
    whether the release feed's newest tag names a version newer than the
    running one, and the gate that runs that check only on release builds.

    The HTTP request and the JSON decoding are foreign calls: their outcome is
    an input, a `Feed`. The build information that `ModmailViewer` provides
    (`isSemVerRelease()`, `TAG`) is passed in as parameters. */
module UpdateChecker {
  import opened Wrappers
  import opened SemVer

  /** What the request and `mapper.readTree` deliver. */
  datatype Feed =
    | TransportFailure            // `execute()` or reading the body throws `IOException`
    | UnreadableBody              // `readTree` throws a `JsonProcessingException`, an `IOException`
    | Document(newestTag: Option<string>)
      // the text of `releases.get(0).get("tag_name")`; `None` when element 0
      // or its `tag_name` is missing, where the navigation meets `null`

  /** The unchecked exceptions the method lets escape. */
  datatype JavaException = NullPointerException | IllegalStateException | NumberFormatException

  /** What `isSemVerUpdateAvailable` does: return a boolean or throw. */
  datatype Outcome = Returned(available: bool) | Raised(exception: JavaException)

  function ConstructorException(e: ParseError): JavaException {
    match e
    case NoMatch => IllegalStateException
    case FieldOverflow => NumberFormatException
  }

  /** `isSemVerUpdateAvailable(version)` as written (lines 30-69): only
      `IOException` is caught; the latest version is constructed before the
      current one, and an update is reported iff
      `currentVersion.compareTo(latestVersion) > 0`. */
  function CheckOutcome(feed: Feed, current: string): Outcome {
    match feed
    case TransportFailure => Returned(false)
    case UnreadableBody => Returned(false)
    case Document(None) => Raised(NullPointerException)
    case Document(Some(tag)) => CompareParsed(Parse(tag), Parse(current))
  }

  /** Lines 52-61, once the tag has been read: construct the latest version,
      then the current one, then compare. */
  function CompareParsed(latest: Result<Version, ParseError>, running: Result<Version, ParseError>): Outcome {
    match latest
    case Err(e) => Raised(ConstructorException(e))
    case Ok(l) =>
      match running
      case Err(e) => Raised(ConstructorException(e))
      case Ok(r) => Returned(CompareTo(r, l) > 0)
  }

  /** The check failing closed, as the method's handling of `IOException`
      intends for every failure: anything but a successful comparison that
      finds the feed's version newer is "no update". */
  function IsSemVerUpdateAvailable(feed: Feed, current: string): (r: bool)
    ensures r <==>
      feed.Document? && feed.newestTag.Some? &&
      Parse(feed.newestTag.value).Ok? && Parse(current).Ok? &&
      CompareTo(Parse(current).value, Parse(feed.newestTag.value).value) > 0
  {
    match feed
    case Document(Some(tag)) => CompareParsed(Parse(tag), Parse(current)) == Returned(true)
    case _ => false
  }

  /** `isUpdateAvailable()` (lines 72-79): a build that is not a semantic
      version release does not check at all. */
  function IsUpdateAvailable(isSemVerRelease: bool, tag: string, feed: Feed): (r: bool)
    ensures !isSemVerRelease ==> !r
    ensures isSemVerRelease ==> r == IsSemVerUpdateAvailable(feed, tag)
  {
    isSemVerRelease && IsSemVerUpdateAvailable(feed, tag)
  }

  /** `isUpdateAvailable()` as written (lines 72-79): on a release build the
      outcome of the check, exceptions included, is passed to the caller; on
      any other build `ModmailViewer.BRANCH` (`None` for `null`) is compared
      with "develop", which throws when it is `null`. */
  function GateOutcome(isSemVerRelease: bool, tag: string, branch: Option<string>, feed: Feed): Outcome {
    if isSemVerRelease then CheckOutcome(feed, tag)
    else if branch.None? then Raised(NullPointerException)
    else Returned(false)
  }

  // ----- Properties -----

  /** Where the method as written returns, failing closed agrees with it; where
      it throws, failing closed answers "no update". */
  lemma FailClosedAgrees(feed: Feed, current: string)
    ensures CheckOutcome(feed, current).Returned? ==>
      IsSemVerUpdateAvailable(feed, current) == CheckOutcome(feed, current).available
    ensures CheckOutcome(feed, current).Raised? ==> !IsSemVerUpdateAvailable(feed, current)
  {
  }

  /** The method as written throws exactly when the feed has no newest tag or
      one of the two texts is not a version the constructor accepts. */
  lemma CheckOutcomeRaises(feed: Feed, current: string)
    ensures CheckOutcome(feed, current).Raised? <==>
      feed.Document? &&
      (feed.newestTag.None? || Parse(feed.newestTag.value).Err? || Parse(current).Err?)
  {
  }

  /** An update is reported exactly when the feed's version has greater
      numbers, or equal numbers and, both being pre-releases, a
      lexicographically greater pre-release. Metadata plays no part. */
  lemma UpdateMeansNewer(tag: string, current: string, latest: Version, running: Version)
    requires Parse(tag) == Ok(latest) && Parse(current) == Ok(running)
    ensures IsSemVerUpdateAvailable(Document(Some(tag)), current) <==>
      NumbersLess(running, latest) ||
      (SameNumbers(running, latest) && running.prerelease.Some? && latest.prerelease.Some? &&
       JavaLang.LexLess(running.prerelease.value, latest.prerelease.value))
  {
    CompareToNumbers(running, latest);
    if SameNumbers(running, latest) {
      CompareToTie(running, latest);
      if running.prerelease.Some? && latest.prerelease.Some? {
        var p, q := running.prerelease.value, latest.prerelease.value;
        JavaLang.CompareStringsAntisymmetric(q, p);
        JavaLang.CompareStringsNegative(p, q);
      }
    }
  }

  /** The running version is never reported as an update of itself. */
  lemma NoUpdateToSameVersion(current: string)
    ensures !IsSemVerUpdateAvailable(Document(Some(current)), current)
  {
  }

  /** If the feed's version is an update of the running one, the running one
      would not be an update of the feed's. */
  lemma UpdateIsAsymmetric(tag: string, current: string)
    requires IsSemVerUpdateAvailable(Document(Some(tag)), current)
    ensures !IsSemVerUpdateAvailable(Document(Some(current)), tag)
  {
    CompareToAntisymmetric(Parse(current).value, Parse(tag).value);
  }

  /** Where the gate as written returns, the fail-closed gate agrees with it;
      where it passes on an exception, the fail-closed gate answers "no update". */
  lemma GateFailClosedAgrees(isSemVerRelease: bool, tag: string, branch: Option<string>, feed: Feed)
    ensures GateOutcome(isSemVerRelease, tag, branch, feed).Returned? ==>
      IsUpdateAvailable(isSemVerRelease, tag, feed) == GateOutcome(isSemVerRelease, tag, branch, feed).available
    ensures GateOutcome(isSemVerRelease, tag, branch, feed).Raised? ==> !IsUpdateAvailable(isSemVerRelease, tag, feed)
  {
    FailClosedAgrees(feed, tag);
  }

  /** The gate as written throws exactly on a release build whose check
      throws, an empty feed being one such case, and on any other build
      whose branch is `null`. */
  lemma GateOutcomeRaises(isSemVerRelease: bool, tag: string, branch: Option<string>, feed: Feed)
    ensures GateOutcome(isSemVerRelease, tag, branch, feed).Raised? <==>
      (isSemVerRelease && CheckOutcome(feed, tag).Raised?) || (!isSemVerRelease && branch.None?)
    ensures isSemVerRelease ==> GateOutcome(isSemVerRelease, tag, branch, Document(None)) == Raised(NullPointerException)
  {
  }

  /** A build that is not a release answers "no update" whatever the feed
      holds: the feed is never consulted. */
  lemma GateIgnoresFeed(isSemVerRelease: bool, tag: string, feed1: Feed, feed2: Feed)
    requires !isSemVerRelease
    ensures IsUpdateAvailable(isSemVerRelease, tag, feed1) == IsUpdateAvailable(isSemVerRelease, tag, feed2) == false
  {
  }

  /** End-to-end examples of the decision: a newer release is reported,
      the same release is not, and a failed request is "no update". */
  lemma DecisionExamples()
    ensures IsSemVerUpdateAvailable(Document(Some("2.0.0")), "1.9.0")
    ensures !IsSemVerUpdateAvailable(Document(Some("2.0.0")), "2.0.0")
    ensures !IsSemVerUpdateAvailable(TransportFailure, "1.9.0")
  {
    var latest, running := Version(2, 0, 0, None, None), Version(1, 9, 0, None, None);
    var t1, t2 := SemVerText(latest), SemVerText(running);
    assert t1 == "2.0.0" && t2 == "1.9.0";
    ParseComplete(latest, "");
    ParseComplete(running, "");
    assert t1 + "" == t1 && t2 + "" == t2;
  }

  /** An empty feed, or a tag with a leading `v`, makes the method as written
      throw instead of answering. */
  lemma ExceptionsEscape(current: string)
    ensures CheckOutcome(Document(None), current) == Raised(NullPointerException)
    ensures CheckOutcome(Document(Some("v1.2.3")), current) == Raised(IllegalStateException)
  {
    RejectsPrefixedV();
  }
}
