/**
 The fixed bug rules of `RailsSameSiteCookie::UserAgentChecker`. Each rule reads the
 parsed User-Agent descriptor, and the Chromium rule also reads the raw header text.
 A client "misses SameSite=None support" when any rule fires.
 */
module Rules {
  import opened Optional
  import opened RubyString
  import opened Version
  import ChromiumPattern

  /**
   What the User-Agent parser reports about a header. The parser is outside this model,
   so every combination of fields is allowed; a string field may be nil.
   */
  datatype Descriptor = Descriptor(
    known: bool,
    name: Option<string>,
    fullVersion: Option<string>,
    osName: Option<string>,
    osFullVersion: Option<string>)

  /** Whether `field` is present and contains `t`; a nil field never matches. */
  predicate FieldContains(field: Option<string>, t: string) {
    field.Some? && Contains(field.value, t)
  }

  // ---------------------------------------------------------------------------
  // WebKit: SameSite=None is treated as Strict, or the cookie is dropped

  /**
   The operating system is named exactly "iOS" and its major version is `major`. Only
   the first dot-separated field of the version is read.
   */
  predicate IsIosVersion(d: Descriptor, major: int)
    ensures IsIosVersion(d, major) <==>
      && d.osName == Some("iOS")
      && d.osFullVersion.Some?
      && RawSplit(d.osFullVersion.value, '.')[0] != ""
      && ToI(RawSplit(d.osFullVersion.value, '.')[0]) == major
  {
    d.osName == Some("iOS") && Major(d.osFullVersion) == Some(major)
  }

  /** The operating system's name contains "Mac" and its version is major.minor. */
  predicate IsMacOsxVersion(d: Descriptor, major: int, minor: int)
    ensures IsMacOsxVersion(d, major, minor) <==>
      && d.osName.Some? && (exists i :: OccursAt(d.osName.value, "Mac", i))
      && d.osFullVersion.Some?
      && var fields := RawSplit(d.osFullVersion.value, '.');
         && |fields| >= 2 && fields[0] != "" && fields[1] != ""
         && ToI(fields[0]) == major && ToI(fields[1]) == minor
  {
    FieldContains(d.osName, "Mac") && Major(d.osFullVersion) == Some(major) && Minor(d.osFullVersion) == Some(minor)
  }

  /** The browser's name contains "Safari" anywhere, so embedded Safari views count too. */
  predicate IsSafari(d: Descriptor)
    ensures IsSafari(d) <==> d.name.Some? && exists i :: OccursAt(d.name.value, "Safari", i)
  {
    FieldContains(d.name, "Safari")
  }

  /**
   iOS 12, or Safari on macOS 10.14. The rule needs an operating system version, an
   operating system named "iOS" or containing "Mac", and, off iOS 12, Safari.
   */
  predicate HasWebkitSsBug(d: Descriptor)
    ensures HasWebkitSsBug(d) ==> d.osFullVersion.Some?
    ensures d.osName != Some("iOS") && !FieldContains(d.osName, "Mac") ==> !HasWebkitSsBug(d)
    ensures !IsSafari(d) ==> (HasWebkitSsBug(d) <==> IsIosVersion(d, 12))
  {
    IsIosVersion(d, 12) || (IsMacOsxVersion(d, 10, 14) && IsSafari(d))
  }

  // ---------------------------------------------------------------------------
  // Chromium and UC Browser: unknown SameSite values make the cookie be dropped

  /** The header contains "Chrome" or "Chromium". */
  predicate IsChromiumBased(ua: string)
    ensures IsChromiumBased(ua) <==> exists i :: OccursAt(ua, "Chrome", i) || OccursAt(ua, "Chromium", i)
  {
    Contains(ua, "Chrome") || Contains(ua, "Chromium")
  }

  /**
   The version read from the header lies in lo...hi (Ruby's exclusive range); false
   when the pattern does not match.
   */
  predicate IsChromiumVersionBetween(ua: string, lo: int, hi: int)
    ensures IsChromiumVersionBetween(ua, lo, hi) <==>
      exists m :: ChromiumPattern.IsLeftmostMatch(ua, m) && lo <= DecimalValue(ua[m.slash + 1..m.end]) < hi
  {
    ChromiumPattern.VersionInRange(ua, lo, hi);
    ChromiumPattern.Version(ua).Some? && lo <= ChromiumPattern.Version(ua).value < hi
  }

  /**
   Chromium 51 up to but not including 67. The rule needs both a "Chrome" or "Chromium"
   token and a version read from the header, so a header such as "Chrome/beta", with
   no digits after the `/`, never triggers it.
   */
  predicate IsBuggyChrome(ua: string)
    ensures IsBuggyChrome(ua) ==> IsChromiumBased(ua)
    ensures IsBuggyChrome(ua) ==> ChromiumPattern.Version(ua).Some? && 51 <= ChromiumPattern.Version(ua).value < 67
  {
    IsChromiumBased(ua) && IsChromiumVersionBetween(ua, 51, 67)
  }

  /** "UC Browser" does not contain "Safari". */
  lemma UcBrowserIsNotSafari()
    ensures !Contains("UC Browser", "Safari")
  {
    forall i: nat
      ensures !OccursAt("UC Browser", "Safari", i)
    {
      if i + 6 <= 10 {
        assert "UC Browser"[i..i + 6][0] == "UC Browser"[i];
      }
    }
  }

  /**
   The browser's name is exactly "UC Browser": an equality, not a pattern, so a UC
   Browser client is never taken for Safari.
   */
  predicate IsUcBrowser(d: Descriptor)
    ensures IsUcBrowser(d) ==> d.name == Some("UC Browser") && !IsSafari(d)
  {
    UcBrowserIsNotSafari();
    d.name == Some("UC Browser")
  }

  /** `actual` is greater than or equal to `bound`; an absent segment is neither. */
  predicate SegmentAtLeast(actual: Option<int>, bound: int) {
    actual.Some? && actual.value >= bound
  }

  /** `actual` is greater than `bound`; an absent segment is not. */
  predicate SegmentAbove(actual: Option<int>, bound: int) {
    actual.Some? && actual.value > bound
  }

  /**
   Version `t` is at least major.minor.build, decided segment by segment from the
   major one down. Where Ruby would compare a nil segment with `>=` or `>` and raise,
   an absent segment counts as smaller than every number. The result is the
   lexicographic order on (major, minor, build).
   */
  predicate SegmentsAtLeast(t: Triple, major: int, minor: int, build: int)
    ensures SegmentsAtLeast(t, major, minor, build) <==> TripleLe(Triple(Some(major), Some(minor), Some(build)), t)
  {
    if t.major == Some(major) then
      if t.minor == Some(minor) then SegmentAtLeast(t.build, build)
      else SegmentAbove(t.minor, minor)
    else SegmentAbove(t.major, major)
  }

  /** The browser's full version is at least major.minor.build in the version order. */
  predicate IsUcVersionAtLeast(d: Descriptor, major: int, minor: int, build: int)
    ensures IsUcVersionAtLeast(d, major, minor, build) <==> TripleLe(Triple(Some(major), Some(minor), Some(build)), Parse(d.fullVersion))
  {
    SegmentsAtLeast(Parse(d.fullVersion), major, minor, build)
  }

  /** The first UC Browser version that handles `SameSite=None`. */
  const UcFixedVersion := Triple(Some(12), Some(13), Some(2))

  /** UC Browser whose version is strictly below 12.13.2. */
  predicate IsBuggyUc(d: Descriptor)
    ensures IsBuggyUc(d) <==> IsUcBrowser(d) && TripleLt(Parse(d.fullVersion), UcFixedVersion)
  {
    TripleLeIsTotalOrder(Parse(d.fullVersion), UcFixedVersion, UcFixedVersion);
    IsUcBrowser(d) && !IsUcVersionAtLeast(d, 12, 13, 2)
  }

  predicate DropsUnrecognizedSsCookies(ua: string, d: Descriptor)
    ensures DropsUnrecognizedSsCookies(ua, d) <==>
      IsBuggyChrome(ua) || (IsUcBrowser(d) && TripleLt(Parse(d.fullVersion), UcFixedVersion))
  {
    IsBuggyChrome(ua) || IsBuggyUc(d)
  }

  /**
   Some rule says this client mishandles `SameSite=None`. Only an operating system
   version, a Chromium header or the UC Browser name can lead there; a client that is
   neither on an Apple system nor Chromium is flagged only as a UC Browser below 12.13.2.
   */
  predicate MissingSameSiteNoneSupport(ua: string, d: Descriptor)
    ensures MissingSameSiteNoneSupport(ua, d) ==> d.osFullVersion.Some? || IsChromiumBased(ua) || IsUcBrowser(d)
    ensures d.osName != Some("iOS") && !FieldContains(d.osName, "Mac") && !IsChromiumBased(ua) ==>
      (MissingSameSiteNoneSupport(ua, d) <==> IsUcBrowser(d) && TripleLt(Parse(d.fullVersion), UcFixedVersion))
  {
    HasWebkitSsBug(d) || DropsUnrecognizedSsCookies(ua, d)
  }

  // ---------------------------------------------------------------------------
  // What the rules mean

  /**
   The iOS rule looks at the major version only: an iOS version "n" or "n.<anything>"
   triggers it exactly when n is 12.
   */
  lemma IosRuleMajorOnly(d: Descriptor, n: nat, rest: string)
    requires d.osName == Some("iOS")
    requires d.osFullVersion == Some(Show(n)) || d.osFullVersion == Some(Show(n) + "." + rest)
    ensures HasWebkitSsBug(d) <==> n == 12
  {
    MajorOfLeadingNumber(n, rest);
    if d.osFullVersion == Some(Show(n)) {
      assert Major(d.osFullVersion) == Some(n);
    } else {
      assert Major(d.osFullVersion) == Some(n);
    }
    IosIsNotMac();
    assert !IsMacOsxVersion(d, 10, 14);
  }

  lemma IosIsNotMac()
    ensures !Contains("iOS", "Mac")
  {
    forall i: nat
      ensures !OccursAt("iOS", "Mac", i)
    {
      if i == 0 {
        assert "iOS"[0..3][0] == 'i';
      }
    }
  }

  /** Only an operating system named exactly "iOS" can trigger the iOS rule. */
  lemma IosRuleNeedsIos(d: Descriptor)
    requires d.osName != Some("iOS")
    ensures !IsIosVersion(d, 12)
  {
  }

  /**
   On a Mac-named operating system with version "a.b" or "a.b.<anything>", the WebKit
   rule fires exactly for 10.14 with a browser whose name contains "Safari"; fields
   after the minor one are never read.
   */
  lemma MacRuleExact(d: Descriptor, a: nat, b: nat, rest: string)
    requires FieldContains(d.osName, "Mac")
    requires d.osFullVersion == Some(Show(a) + "." + Show(b)) || d.osFullVersion == Some(Show(a) + "." + Show(b) + "." + rest)
    ensures HasWebkitSsBug(d) <==> a == 10 && b == 14 && IsSafari(d)
  {
    MajorMinorOfLeadingNumbers(a, b, rest);
    assert Major(d.osFullVersion) == Some(a) && Minor(d.osFullVersion) == Some(b);
    assert IsMacOsxVersion(d, 10, 14) <==> a == 10 && b == 14;
    IosIsNotMac();
    assert d.osName != Some("iOS");
    assert !IsIosVersion(d, 12);
  }

  /** UC Browser a.b.c is buggy exactly when a.b.c is below 12.13.2. */
  lemma UcRuleBelow12_13_2(d: Descriptor, a: nat, b: nat, c: nat)
    requires IsUcBrowser(d)
    requires d.fullVersion == Some(Format(a, b, c))
    ensures IsBuggyUc(d) <==> a < 12 || (a == 12 && b < 13) || (a == 12 && b == 13 && c < 2)
  {
    ParseFormat(a, b, c);
    var t := Parse(d.fullVersion);
    assert t == Triple(Some(a), Some(b), Some(c));
  }

  /**
   A header whose first "Chrom" begins the token "Chrome/<n>" or "Chromium/<n>" is
   buggy exactly for 51 <= n < 67.
   */
  lemma ChromeRuleWindow(ua: string, pre: string, brand: string, n: nat, rest: string)
    requires brand == "Chrome" || brand == "Chromium"
    requires ua == pre + brand + "/" + Show(n) + rest
    requires forall i :: 0 <= i < |pre| ==> !OccursAt(ua, "Chrom", i)
    requires rest == "" || !IsDigit(rest[0])
    ensures IsBuggyChrome(ua) <==> 51 <= n < 67
  {
    ChromiumPattern.BrandTokenVersion(ua, pre, brand, n, rest);
    BrandIsChromiumBased(ua, pre, brand, n, rest);
  }

  /** A header containing the brand "Chrome" or "Chromium" is Chromium-based. */
  lemma BrandIsChromiumBased(ua: string, pre: string, brand: string, n: nat, rest: string)
    requires brand == "Chrome" || brand == "Chromium"
    requires ua == pre + brand + "/" + Show(n) + rest
    ensures IsChromiumBased(ua)
  {
    assert ua[|pre|..|pre| + |brand|] == brand;
    assert OccursAt(ua, brand, |pre|);
  }
}
