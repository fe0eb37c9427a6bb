/**
 `RailsSameSiteCookie::UserAgentChecker`: whether a response may carry a cookie with
 `SameSite=None` for the client that sent a given User-Agent header.
 The external User-Agent parser (DeviceDetector) is a parameter: `detect` maps a header
 to the descriptor the parser reports for it.
 */
module Checker {
  import opened Optional
  import opened RubyString
  import opened Version
  import opened Rules

  /** The checker object: the raw header, and the parser's descriptor of it (nil when the header is nil). */
  datatype UserAgentChecker = UserAgentChecker(userAgentStr: Option<string>, userAgent: Option<Descriptor>)

  /** The constructor: the header is parsed only when it is not nil. */
  function New(ua: Option<string>, detect: string -> Descriptor): (c: UserAgentChecker)
    ensures c.userAgentStr == ua
    ensures c.userAgent.None? <==> ua.None?
    ensures ua.Some? ==> c.userAgent == Some(detect(ua.value))
  {
    UserAgentChecker(ua, if ua.Some? then Some(detect(ua.value)) else None)
  }

  /** The `user_agent=` setter: replaces both fields, leaving the same state as constructing afresh. */
  function SetUserAgent(c: UserAgentChecker, ua: Option<string>, detect: string -> Descriptor): (c': UserAgentChecker)
    ensures c'.userAgentStr == ua
    ensures c'.userAgent.None? <==> ua.None?
    ensures c' == New(ua, detect)
  {
    UserAgentChecker(ua, if ua.Some? then Some(detect(ua.value)) else None)
  }

  /**
   `send_same_site_none?` for header `ua` whose parsed descriptor is `d` (ignored when
   `ua` is nil): a missing or empty header, or a client the parser does not know, may be
   sent `SameSite=None`; a known client may be sent it unless one of the bug rules fires.
   */
  function SendSameSiteNone(ua: Option<string>, d: Descriptor): (r: bool)
    ensures ua.None? || ua == Some("") ==> r
    ensures ua.Some? && ua.value != "" && !d.known ==> r
    ensures ua.Some? && ua.value != "" && d.known ==>
      (r <==> !(IsIosVersion(d, 12)
                || (IsMacOsxVersion(d, 10, 14) && IsSafari(d))
                || IsBuggyChrome(ua.value)
                || IsBuggyUc(d)))
  {
    if ua.None? || ua.value == "" then true
    else if !d.known then true
    else !MissingSameSiteNoneSupport(ua.value, d)
  }

  /**
   `send_same_site_none?` on the object. A nil header string beside a descriptor cannot
   arise from `New` or `SetUserAgent`; Ruby's `/Chrom(e|ium)/.match(nil)` is then nil,
   which reading the header as "" reproduces.
   */
  function Query(c: UserAgentChecker): (r: bool)
    ensures c.userAgent.None? ==> r
    ensures c.userAgentStr == Some("") ==> r
    ensures c.userAgent.Some? && !c.userAgent.value.known ==> r
  {
    if c.userAgent.None? || c.userAgentStr == Some("") then true
    else if !c.userAgent.value.known then true
    else !MissingSameSiteNoneSupport(c.userAgentStr.GetOr(""), c.userAgent.value)
  }

  /** Asking a freshly built checker is asking `SendSameSiteNone` about its header. */
  lemma QueryOfNew(ua: Option<string>, detect: string -> Descriptor, d: Descriptor)
    requires ua.Some? ==> d == detect(ua.value)
    ensures Query(New(ua, detect)) == SendSameSiteNone(ua, d)
  {
  }

  /** Without a header, or with an empty one, the descriptor plays no part in the answer. */
  lemma AbsentHeaderIgnoresDescriptor(ua: Option<string>, d1: Descriptor, d2: Descriptor)
    requires ua.None? || ua == Some("")
    ensures SendSameSiteNone(ua, d1) == SendSameSiteNone(ua, d2) == true
  {
  }

  /** For a client the parser does not know, no field of the descriptor matters. */
  lemma UnknownClientIgnoresFields(ua: Option<string>, d1: Descriptor, d2: Descriptor)
    requires !d1.known && !d2.known
    ensures SendSameSiteNone(ua, d1) == SendSameSiteNone(ua, d2) == true
  {
  }

  // ---------------------------------------------------------------------------
  // Behaviour on concrete clients

  /** A known client with only its operating system reported. */
  function OsClient(osName: string, osVersion: string, name: Option<string>): Descriptor {
    Descriptor(true, name, None, Some(osName), Some(osVersion))
  }

  /** A known UC Browser client of the given version. */
  function UcClient(version: string): Descriptor {
    Descriptor(true, Some("UC Browser"), Some(version), None, None)
  }

  /** A known client that reports nothing beyond being known. */
  const Bare := Descriptor(true, None, None, None, None)

  /** iOS 12 with any minor or build withholds the attribute; iOS 11 and 13 do not. */
  lemma IosExamples(ua: string)
    requires ua != "" && !IsBuggyChrome(ua)
    ensures !SendSameSiteNone(Some(ua), OsClient("iOS", "12.0", None))
    ensures !SendSameSiteNone(Some(ua), OsClient("iOS", "12.4.1", None))
    ensures !SendSameSiteNone(Some(ua), OsClient("iOS", "12", None))
    ensures SendSameSiteNone(Some(ua), OsClient("iOS", "11.4", None))
    ensures SendSameSiteNone(Some(ua), OsClient("iOS", "13.0", None))
  {
    assert Show(12) == "12" && Show(11) == "11" && Show(13) == "13";
    assert "12.0" == Show(12) + "." + "0" && "12.4.1" == Show(12) + "." + "4.1";
    assert "11.4" == Show(11) + "." + "4" && "13.0" == Show(13) + "." + "0";
    IosRuleMajorOnly(OsClient("iOS", "12.0", None), 12, "0");
    IosRuleMajorOnly(OsClient("iOS", "12.4.1", None), 12, "4.1");
    IosRuleMajorOnly(OsClient("iOS", "12", None), 12, "");
    IosRuleMajorOnly(OsClient("iOS", "11.4", None), 11, "4");
    IosRuleMajorOnly(OsClient("iOS", "13.0", None), 13, "0");
  }

  lemma SafariIsSafari()
    ensures IsSafari(OsClient("Mac", "10.14.0", Some("Safari")))
  {
    assert OccursAt("Safari", "Safari", 0);
  }

  lemma ChromeIsNotSafari()
    ensures !IsSafari(OsClient("Mac", "10.14.0", Some("Chrome")))
  {
    forall i: nat
      ensures !OccursAt("Chrome", "Safari", i)
    {
      if i == 0 {
        assert "Chrome"[0..6][0] == 'C';
      }
    }
  }

  lemma MacIsMac()
    ensures FieldContains(Some("Mac"), "Mac")
    ensures FieldContains(Some("Mac OS X"), "Mac")
  {
    assert OccursAt("Mac", "Mac", 0);
    assert OccursAt("Mac OS X", "Mac", 0);
  }

  /**
   Safari on macOS 10.14 withholds the attribute, whether the version has two fields
   or three; 10.15, or a browser that is not Safari, does not.
   */
  lemma MacExamples(ua: string)
    requires ua != "" && !IsBuggyChrome(ua)
    ensures !SendSameSiteNone(Some(ua), OsClient("Mac", "10.14.0", Some("Safari")))
    ensures !SendSameSiteNone(Some(ua), OsClient("Mac OS X", "10.14", Some("Safari")))
    ensures SendSameSiteNone(Some(ua), OsClient("Mac", "10.15.0", Some("Safari")))
    ensures SendSameSiteNone(Some(ua), OsClient("Mac", "10.14.0", Some("Chrome")))
  {
    assert Show(10) + "." + Show(14) + "." + "0" == "10.14.0";
    assert Show(10) + "." + Show(15) + "." + "0" == "10.15.0";
    assert Show(10) + "." + Show(14) == "10.14";
    MacIsMac();
    SafariIsSafari();
    ChromeIsNotSafari();
    MacRuleExact(OsClient("Mac", "10.14.0", Some("Safari")), 10, 14, "0");
    MacRuleExact(OsClient("Mac OS X", "10.14", Some("Safari")), 10, 14, "");
    MacRuleExact(OsClient("Mac", "10.15.0", Some("Safari")), 10, 15, "0");
    MacRuleExact(OsClient("Mac", "10.14.0", Some("Chrome")), 10, 14, "0");
  }

  /**
   A known client reporting nothing else, whose header's first "Chrom" begins
   "Chrome/<n>" or "Chromium/<n>", withholds the attribute exactly for 51 <= n < 67.
   */
  lemma ChromeHeaderDecides(ua: string, pre: string, brand: string, n: nat, rest: string)
    requires brand == "Chrome" || brand == "Chromium"
    requires ua == pre + brand + "/" + Show(n) + rest
    requires forall i :: 0 <= i < |pre| ==> !OccursAt(ua, "Chrom", i)
    requires rest == "" || !IsDigit(rest[0])
    ensures SendSameSiteNone(Some(ua), Bare) <==> !(51 <= n < 67)
  {
    ChromeRuleWindow(ua, pre, brand, n, rest);
  }

  lemma Chrome60Withholds()
    ensures !SendSameSiteNone(Some("Chrome/60.0.1234"), Bare)
  {
    assert "Chrome/60.0.1234" == "" + "Chrome" + "/" + Show(60) + ".0.1234";
    ChromeHeaderDecides("Chrome/60.0.1234", "", "Chrome", 60, ".0.1234");
  }

  lemma Chrome50Sends()
    ensures SendSameSiteNone(Some("Chrome/50.0"), Bare)
  {
    assert "Chrome/50.0" == "" + "Chrome" + "/" + Show(50) + ".0";
    ChromeHeaderDecides("Chrome/50.0", "", "Chrome", 50, ".0");
  }

  lemma Chrome67Sends()
    ensures SendSameSiteNone(Some("Chrome/67.0"), Bare)
  {
    assert "Chrome/67.0" == "" + "Chrome" + "/" + Show(67) + ".0";
    ChromeHeaderDecides("Chrome/67.0", "", "Chrome", 67, ".0");
  }

  lemma Chromium65Withholds()
    ensures !SendSameSiteNone(Some("Chromium/65.0"), Bare)
  {
    assert "Chromium/65.0" == "" + "Chromium" + "/" + Show(65) + ".0";
    ChromeHeaderDecides("Chromium/65.0", "", "Chromium", 65, ".0");
  }

  /** Chromium 51 up to but not including 67, read from the header, withholds the attribute. */
  lemma ChromeExamples()
    ensures !SendSameSiteNone(Some("Chrome/60.0.1234"), Bare)
    ensures SendSameSiteNone(Some("Chrome/50.0"), Bare)
    ensures SendSameSiteNone(Some("Chrome/67.0"), Bare)
    ensures !SendSameSiteNone(Some("Chromium/65.0"), Bare)
  {
    Chrome60Withholds();
    Chrome50Sends();
    Chrome67Sends();
    Chromium65Withholds();
  }

  /** A known UC Browser client of version a.b.c withholds the attribute exactly below 12.13.2. */
  lemma UcVersionDecides(ua: string, a: nat, b: nat, c: nat)
    requires ua != "" && !IsBuggyChrome(ua)
    ensures !SendSameSiteNone(Some(ua), UcClient(Format(a, b, c)))
        <==> a < 12 || (a == 12 && b < 13) || (a == 12 && b == 13 && c < 2)
  {
    UcRuleBelow12_13_2(UcClient(Format(a, b, c)), a, b, c);
  }

  lemma Uc12_13_1Withholds(ua: string)
    requires ua != "" && !IsBuggyChrome(ua)
    ensures !SendSameSiteNone(Some(ua), UcClient("12.13.1"))
  {
    assert Format(12, 13, 1) == "12.13.1";
    UcVersionDecides(ua, 12, 13, 1);
  }

  lemma Uc11_9_9Withholds(ua: string)
    requires ua != "" && !IsBuggyChrome(ua)
    ensures !SendSameSiteNone(Some(ua), UcClient("11.9.9"))
  {
    assert Format(11, 9, 9) == "11.9.9";
    UcVersionDecides(ua, 11, 9, 9);
  }

  lemma Uc12_13_2Sends(ua: string)
    requires ua != "" && !IsBuggyChrome(ua)
    ensures SendSameSiteNone(Some(ua), UcClient("12.13.2"))
  {
    assert Format(12, 13, 2) == "12.13.2";
    UcVersionDecides(ua, 12, 13, 2);
  }

  lemma Uc12_14_0Sends(ua: string)
    requires ua != "" && !IsBuggyChrome(ua)
    ensures SendSameSiteNone(Some(ua), UcClient("12.14.0"))
  {
    assert Format(12, 14, 0) == "12.14.0";
    UcVersionDecides(ua, 12, 14, 0);
  }

  lemma Uc13_0_0Sends(ua: string)
    requires ua != "" && !IsBuggyChrome(ua)
    ensures SendSameSiteNone(Some(ua), UcClient("13.0.0"))
  {
    assert Format(13, 0, 0) == "13.0.0";
    UcVersionDecides(ua, 13, 0, 0);
  }

  /** UC Browser below 12.13.2 withholds the attribute; 12.13.2 and later do not. */
  lemma UcExamples(ua: string)
    requires ua != "" && !IsBuggyChrome(ua)
    ensures !SendSameSiteNone(Some(ua), UcClient("12.13.1"))
    ensures !SendSameSiteNone(Some(ua), UcClient("11.9.9"))
    ensures SendSameSiteNone(Some(ua), UcClient("12.13.2"))
    ensures SendSameSiteNone(Some(ua), UcClient("12.14.0"))
    ensures SendSameSiteNone(Some(ua), UcClient("13.0.0"))
  {
    Uc12_13_1Withholds(ua);
    Uc11_9_9Withholds(ua);
    Uc12_13_2Sends(ua);
    Uc12_14_0Sends(ua);
    Uc13_0_0Sends(ua);
  }

  /**
   UC Browser "12.13" has no build segment. Its major and minor equal 12 and 13, so
   the comparison reaches the build; an absent segment is below every number, so it
   sorts below 12.13.2 and the attribute is withheld.
   */
  lemma PartialUcVersionWithholds(ua: string)
    requires ua != "" && !IsBuggyChrome(ua)
    ensures !SendSameSiteNone(Some(ua), UcClient("12.13"))
  {
    assert Show(12) + "." + Show(13) == "12.13";
    ParseTwoFields(12, 13);
    var t := Parse(Some("12.13"));
    assert t == Triple(Some(12), Some(13), None);
    assert !SegmentsAtLeast(t, 12, 13, 2);
  }

  /**
   A UC Browser that reports no version, or an empty one, has no segments; it sorts
   below 12.13.2, so the attribute is withheld whatever the header says.
   */
  lemma UcWithoutVersionWithholds(ua: string, d: Descriptor)
    requires ua != "" && d.known && IsUcBrowser(d)
    requires d.fullVersion == None || d.fullVersion == Some("")
    ensures !SendSameSiteNone(Some(ua), d)
  {
    assert Parse(d.fullVersion).major.None?;
  }
}
