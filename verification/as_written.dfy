/**
 The checker evaluated the way Ruby evaluates it, including its two crash paths:
 `get_major`/`get_minor`/`get_build` on a nil version string call `count` on nil, and
 the UC Browser comparison applies `>=` or `>` to a nil segment. Both raise
 NoMethodError. Evaluation order follows Ruby's short-circuiting `and`/`or`, so a
 crash happens only on a path Ruby actually takes.

 The total model in module Checker answers wherever Ruby raises. This module shows
 that wherever Ruby answers, the total model gives the same answer.
 */
module AsWritten {
  import opened Optional
  import opened RubyString
  import opened Version
  import opened Rules
  import Checker
  import ChromiumPattern

  /** The result of evaluating Ruby code: a value, or a NoMethodError raised on nil. */
  datatype Eval<+T> = Value(value: T) | NoMethodError {
    predicate IsFailure() {
      NoMethodError?
    }

    function PropagateFailure<U>(): Eval<U>
      requires NoMethodError?
    {
      NoMethodError
    }

    function Extract(): T
      requires Value?
    {
      value
    }
  }

  /** `get_major` (i = 0), `get_minor` (1), `get_build` (2): raises on a nil version string. */
  function GetSegment(version: Option<string>, i: nat): (r: Eval<Option<int>>)
    ensures r.NoMethodError? <==> version.None?
    ensures r.Value? ==> r.value == Segment(version, i)
  {
    match version
    case None => NoMethodError
    case Some(_) => Value(Segment(version, i))
  }

  /** `segment >= bound` with an Integer bound: nil has no `>=`. */
  function GreaterOrEqual(segment: Option<int>, bound: int): (r: Eval<bool>)
    ensures r.NoMethodError? <==> segment.None?
    ensures r.Value? ==> (r.value <==> SegmentAtLeast(segment, bound))
  {
    match segment
    case None => NoMethodError
    case Some(x) => Value(x >= bound)
  }

  /** `segment > bound` with an Integer bound: nil has no `>`. */
  function Greater(segment: Option<int>, bound: int): (r: Eval<bool>)
    ensures r.NoMethodError? <==> segment.None?
    ensures r.Value? ==> (r.value <==> SegmentAbove(segment, bound))
  {
    match segment
    case None => NoMethodError
    case Some(x) => Value(x > bound)
  }

  function IsIosVersion(d: Descriptor, major: int): (r: Eval<bool>)
    ensures r.NoMethodError? <==> d.osName == Some("iOS") && d.osFullVersion.None?
    ensures r.Value? ==> r.value == Rules.IsIosVersion(d, major)
  {
    if d.osName != Some("iOS") then Value(false)
    else
      var m :- GetSegment(d.osFullVersion, 0);
      Value(m == Some(major))
  }

  function IsMacOsxVersion(d: Descriptor, major: int, minor: int): (r: Eval<bool>)
    ensures r.NoMethodError? <==> FieldContains(d.osName, "Mac") && d.osFullVersion.None?
    ensures r.Value? ==> r.value == Rules.IsMacOsxVersion(d, major, minor)
  {
    if !FieldContains(d.osName, "Mac") then Value(false)
    else
      // Once `get_major` has returned, the version string is not nil and `get_minor` cannot raise.
      var ma :- GetSegment(d.osFullVersion, 0);
      Value(ma == Some(major) && Minor(d.osFullVersion) == Some(minor))
  }

  /** The WebKit rule raises exactly on an iOS or Mac-named system with a nil version. */
  predicate WebkitRaises(d: Descriptor) {
    d.osFullVersion.None? && (d.osName == Some("iOS") || FieldContains(d.osName, "Mac"))
  }

  function HasWebkitSsBug(d: Descriptor): (r: Eval<bool>)
    ensures r.NoMethodError? <==> WebkitRaises(d)
    ensures r.Value? ==> r.value == Rules.HasWebkitSsBug(d)
  {
    var ios :- IsIosVersion(d, 12);
    if ios then Value(true)
    else
      var mac :- IsMacOsxVersion(d, 10, 14);
      Value(mac && IsSafari(d))
  }

  /**
   Comparing version `t` segment by segment against major.minor.build raises exactly
   when the comparison reaches a nil segment: the major one, the minor one once the
   majors are equal, or the build one once the minors are equal too.
   */
  predicate ComparisonRaises(t: Triple, major: int, minor: int) {
    || t.major.None?
    || (t.major == Some(major) && (t.minor.None? || (t.minor == Some(minor) && t.build.None?)))
  }

  /** The segment-by-segment comparison, reaching `>=` or `>` only where Ruby's code does. */
  function CompareSegments(t: Triple, major: int, minor: int, build: int): (r: Eval<bool>)
    ensures r.NoMethodError? <==> ComparisonRaises(t, major, minor)
    ensures r.Value? ==> (r.value <==> TripleLe(Triple(Some(major), Some(minor), Some(build)), t))
  {
    if t.major == Some(major) then
      if t.minor == Some(minor) then GreaterOrEqual(t.build, build)
      else Greater(t.minor, minor)
    else Greater(t.major, major)
  }

  /**
   `is_uc_version_at_least?`. The source reads each segment afresh; only the first read
   can meet a nil version string, and every read gives the same segment.
   */
  function IsUcVersionAtLeast(d: Descriptor, major: int, minor: int, build: int): (r: Eval<bool>)
    ensures r.NoMethodError? <==> ComparisonRaises(Parse(d.fullVersion), major, minor)
    ensures r.Value? ==> r.value == Rules.IsUcVersionAtLeast(d, major, minor, build)
  {
    var ma :- GetSegment(d.fullVersion, 0);
    CompareSegments(Triple(ma, Minor(d.fullVersion), Build(d.fullVersion)), major, minor, build)
  }

  function IsBuggyUc(d: Descriptor): (r: Eval<bool>)
    ensures r.NoMethodError? <==> IsUcBrowser(d) && ComparisonRaises(Parse(d.fullVersion), 12, 13)
    ensures r.Value? ==> r.value == Rules.IsBuggyUc(d)
  {
    if !IsUcBrowser(d) then Value(false)
    else
      var atLeast :- IsUcVersionAtLeast(d, 12, 13, 2);
      Value(!atLeast)
  }

  /**
   The rules raise when the WebKit rule raises, or when neither the WebKit nor the
   Chromium rule fires and the UC Browser comparison raises.
   */
  predicate RulesRaise(ua: string, d: Descriptor) {
    || WebkitRaises(d)
    || (!Rules.HasWebkitSsBug(d) && !IsBuggyChrome(ua) && IsUcBrowser(d) && ComparisonRaises(Parse(d.fullVersion), 12, 13))
  }

  function MissingSameSiteNoneSupport(ua: string, d: Descriptor): (r: Eval<bool>)
    ensures r.NoMethodError? <==> RulesRaise(ua, d)
    ensures r.Value? ==> r.value == Rules.MissingSameSiteNoneSupport(ua, d)
  {
    var webkit :- HasWebkitSsBug(d);
    if webkit then Value(true)
    else if IsBuggyChrome(ua) then Value(true)
    else IsBuggyUc(d)
  }

  /**
   `send_same_site_none?` as Ruby runs it. It raises exactly for a known client with a
   non-empty header on which the rules raise, and wherever it answers, the total model
   gives the same answer.
   */
  function SendSameSiteNone(ua: Option<string>, d: Descriptor): (r: Eval<bool>)
    ensures r.NoMethodError? <==> ua.Some? && ua.value != "" && d.known && RulesRaise(ua.value, d)
    ensures r.Value? ==> r.value == Checker.SendSameSiteNone(ua, d)
  {
    if ua.None? || ua == Some("") then Value(true)
    else if !d.known then Value(true)
    else
      var missing :- MissingSameSiteNoneSupport(ua.value, d);
      Value(!missing)
  }

  // ---------------------------------------------------------------------------
  // The total model against Ruby's evaluation

  /**
   Versions with all three segments never make Ruby raise, so on them the total model
   is exactly the source's behaviour.
   */
  lemma CompleteVersionsNeverRaise(ua: Option<string>, d: Descriptor)
    requires d.osFullVersion.Some?
    requires IsUcBrowser(d) ==> var t := Parse(d.fullVersion); t.major.Some? && t.minor.Some? && t.build.Some?
    ensures SendSameSiteNone(ua, d).Value?
    ensures SendSameSiteNone(ua, d).value == Checker.SendSameSiteNone(ua, d)
  {
  }

  // ---------------------------------------------------------------------------
  // The two crash paths on concrete input

  /** A header without any `/` cannot trigger the Chromium rule. */
  const Header := "Mozilla"

  /** An iOS client whose operating system version the parser did not report. */
  const IosWithoutVersion := Descriptor(true, None, None, Some("iOS"), None)

  /**
   On an iOS client with a nil version Ruby raises (`nil.count`), while the total model
   reads every segment as absent and sends the attribute.
   */
  lemma NilOsVersionRaises()
    ensures SendSameSiteNone(Some(Header), IosWithoutVersion) == NoMethodError
    ensures Checker.SendSameSiteNone(Some(Header), IosWithoutVersion)
  {
    IosIsNotMac();
    ChromiumPattern.NoSlashNoVersion(Header);
  }

  /** UC Browser reporting a version without a build segment. */
  const UcWithoutBuild := Descriptor(true, Some("UC Browser"), Some("12.13"), None, None)

  /**
   On UC Browser "12.13" Ruby compares the nil build segment (`nil >= 2`) and raises,
   while the total model orders it below 12.13.2 and withholds the attribute.
   */
  lemma PartialUcVersionRaises()
    ensures SendSameSiteNone(Some(Header), UcWithoutBuild) == NoMethodError
    ensures !Checker.SendSameSiteNone(Some(Header), UcWithoutBuild)
  {
    ChromiumPattern.NoSlashNoVersion(Header);
    assert Show(12) + "." + Show(13) == "12.13";
    ParseTwoFields(12, 13);
    Checker.PartialUcVersionWithholds(Header);
  }

  /**
   Whether the UC Browser comparison reaches a nil segment depends on the segments
   before it: "13" is decided by `13 > 12` and "12.14" by `14 > 13`, so Ruby answers
   for both, sends the attribute, and the total model agrees.
   */
  lemma ShortUcVersionsAboveBoundAnswer()
    ensures SendSameSiteNone(Some(Header), Checker.UcClient("13")) == Value(true)
    ensures SendSameSiteNone(Some(Header), Checker.UcClient("12.14")) == Value(true)
  {
    assert Show(13) == "13";
    assert Show(12) + "." + Show(14) == "12.14";
    ChromiumPattern.NoSlashNoVersion(Header);
    assert !IsBuggyChrome(Header);
    UcVersionAnswers(Header, "13", 13, 0);
    UcVersionAnswers(Header, "12.14", 12, 14);
  }

  /**
   A UC Browser version "a" or "a.b" with a above 12, or "12.b" with b above 13, is
   decided before any nil segment is reached: on a header the Chromium rule ignores,
   Ruby answers true.
   */
  lemma UcVersionAnswers(ua: string, version: string, major: nat, minor: nat)
    requires ua != "" && !IsBuggyChrome(ua)
    requires version == Show(major) || version == Show(major) + "." + Show(minor)
    requires major > 12 || (major == 12 && minor > 13 && version == Show(major) + "." + Show(minor))
    ensures SendSameSiteNone(Some(ua), Checker.UcClient(version)) == Value(true)
  {
    ShortVersionSegments(version, major, minor);
    UcDecidedEarly(ua, Checker.UcClient(version));
  }

  /**
   A UC Browser with no OS whose major is above 12, or is 12 with a minor above 13,
   gets an answer from Ruby, and that answer is true.
   */
  lemma UcDecidedEarly(ua: string, d: Descriptor)
    requires ua != "" && !IsBuggyChrome(ua)
    requires d.known && IsUcBrowser(d) && d.osName.None? && d.osFullVersion.None?
    requires var t := Parse(d.fullVersion);
      || (t.major.Some? && t.major.value > 12)
      || (t.major == Some(12) && t.minor.Some? && t.minor.value > 13)
    ensures SendSameSiteNone(Some(ua), d) == Value(true)
  {
    var t := Parse(d.fullVersion);
    assert !ComparisonRaises(t, 12, 13);
    assert !TripleLt(t, UcFixedVersion);
    assert !WebkitRaises(d) && !Rules.HasWebkitSsBug(d);
    assert !RulesRaise(ua, d);
    assert !Rules.MissingSameSiteNoneSupport(ua, d);
  }
}
