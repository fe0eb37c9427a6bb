# rails_same_site_cookie: the User-Agent checker, in Dafny

`RailsSameSiteCookie::UserAgentChecker` decides whether a response may set a cookie
with `SameSite=None` for the client that sent a given `User-Agent` header. Some
clients mishandle that attribute:

- iOS 12 and Safari on macOS 10.14 treat it as `Strict` or drop the cookie.
- Chromium 51 up to but not including 67 drops cookies with unknown `SameSite` values.
- UC Browser below 12.13.2 does the same.

For those clients the checker answers `false`. Every other answer is `true`: a missing
or empty header, a client the User-Agent parser does not recognise, and any known
client that no rule flags.

The model is pure functions over immutable data:

| file | module | models |
|---|---|---|
| `optional.dfy` | `Optional` | Ruby `nil` as `Option` |
| `ruby_string.dfy` | `RubyString` | `String#split(".")`, `String#to_i`, and `=~` with a literal pattern |
| `chromium_pattern.dfy` | `ChromiumPattern` | the regular expression `Chrom[^/]+/(\d+)[\.\d]*`, as an explicit scanner |
| `version.dfy` | `Version` | `get_major`, `get_minor`, `get_build`, and the (major, minor, build) order |
| `rules.dfy` | `Rules` | the parser's descriptor and every bug rule |
| `checker.dfy` | `Checker` | the checker object and `send_same_site_none?` |
| `as_written.dfy` | `AsWritten` | the same decision evaluated as Ruby evaluates it, including its `NoMethodError` crashes |

The User-Agent parser (the `device_detector` gem) is not part of this model. Its
result is an input record, `Rules.Descriptor`, with these fields:

- `known`
- `name`
- `fullVersion`
- `osName`
- `osFullVersion`

Any string field may be nil. `Checker.New` takes the parser as a function parameter.

Modelling decisions:

- **A field that is present but not numeric reads as its `to_i`.** So "beta" is 0, not absent.
- **`to_i` is modelled in full.** It skips leading whitespace. It accepts a sign, a `0d`
  prefix, and single underscores between digits. So a segment is an `Option<int>` and
  may be negative.
- **A nil version string makes the code raise** (see Findings).
- **Ruby's `split(".")` drops trailing empty fields, and "" gives no fields.** The
  contract of `Version.Segment` shows that this never changes a segment. Segment `i` is
  present exactly when the `i`-th dot-separated field exists and is not empty.
- **The Chromium pattern's tail `[\.\d]*` can always match the empty string.** So it
  changes neither whether there is a match nor what the group captures. Ruby reports the
  leftmost match. Its `[^/]+` must run to the first `/` after "Chrom", and its group
  takes every digit after that `/`.
- **The source crashes in two places; the total model makes a deliberate choice at
  each.** These choices are not the source's behaviour.
  - A nil version string has all segments absent.
  - An absent segment sorts below every number, so `>=` and `>` against it are false.
  - Together these mean a UC Browser is withheld when the comparison against 12.13.2
    reaches an absent segment. That happens when the major is absent, when the major is
    12 and the minor absent, or when the version is 12.13 with no build. These are
    exactly the versions on which Ruby raises (`AsWritten.ComparisonRaises`). A short
    version decided earlier, such as "13" or "12.14", is compared normally and sent.

  Module `AsWritten` keeps the crashes. `AsWritten.SendSameSiteNone` states exactly when
  Ruby raises, and that wherever Ruby answers, the total model gives the same answer.

## Model

| member | source | states |
|---|---|---|
| `RubyString.RawSplit` | lib/rails_same_site_cookie/user_agent_checker.rb:27 | the fields between dots contain no dot, there is at least one, and joining them with dots gives the string back |
| `RubyString.ToI` | lib/rails_same_site_cookie/user_agent_checker.rb:28 | `to_i` is non-zero only when the first non-blank character is a digit or a sign, and negative only when it is a `-` |
| `RubyString.RawSplitJoin` | lib/rails_same_site_cookie/user_agent_checker.rb:27 | splitting undoes joining, so the dot-free decomposition of a string is unique |
| `RubyString.Split` | lib/rails_same_site_cookie/user_agent_checker.rb:27 | `split(".")` keeps a prefix of the raw fields and drops only empty ones from the end; its last field is never empty |
| `RubyString.ToIShow` | lib/rails_same_site_cookie/user_agent_checker.rb:28 | `to_i` of a printed natural number is that number |
| `RubyString.ToIOfDigitsThen` | lib/rails_same_site_cookie/user_agent_checker.rb:28 | digits followed by text that cannot continue a number ("4-beta") read as the digits' value; the lone exception is a "0d" radix prefix |
| `RubyString.ToIOfNonNumeric` | lib/rails_same_site_cookie/user_agent_checker.rb:28 | a field starting with anything but a digit, sign or whitespace reads as 0 |
| `RubyString.Contains` | lib/rails_same_site_cookie/user_agent_checker.rb:57-63 | a literal regex matches exactly when the literal occurs at some position of the string |
| `ChromiumPattern.Find` | lib/rails_same_site_cookie/user_agent_checker.rb:78-79 | the scanner returns a match that no other match starts left of, and returns none exactly when the pattern matches nowhere |
| `ChromiumPattern.FindFromLeftmost` | lib/rails_same_site_cookie/user_agent_checker.rb:78-79 | scanning from position p finds a match starting at p or later with no match between p and its start, and finds none exactly when no match starts at p or later |
| `ChromiumPattern.LeftmostMatchUnique` | lib/rails_same_site_cookie/user_agent_checker.rb:78 | the leftmost greedy match is unique, so the scanner's answer is the one the regex reports |
| `ChromiumPattern.Version` | lib/rails_same_site_cookie/user_agent_checker.rb:78-80 | the captured version is absent exactly when nothing matches, and otherwise is the decimal value of the leftmost match's digit group |
| `ChromiumPattern.VersionIsToI` | lib/rails_same_site_cookie/user_agent_checker.rb:80 | the version equals `to_i` of the leftmost match's group, and is absent when nothing matches |
| `ChromiumPattern.VersionInRange` | lib/rails_same_site_cookie/user_agent_checker.rb:77-82 | the version lies in a range exactly when the digit group of some leftmost match does, and every leftmost group is all digits |
| `ChromiumPattern.BrandTokenVersion` | lib/rails_same_site_cookie/user_agent_checker.rb:77-81 | a header whose first "Chrom" starts "Chrome/n" or "Chromium/n" yields version n |
| `Version.Segment` | lib/rails_same_site_cookie/user_agent_checker.rb:26-39 | segment i is present exactly when the i-th dot-separated field exists and is non-empty, and then it is that field's `to_i`; a nil version gives absent (model's choice) |
| `Version.Major` | lib/rails_same_site_cookie/user_agent_checker.rb:26-29 | `get_major` is present exactly when the version is not nil and its first dot-field is non-empty, and is then that field's `to_i` |
| `Version.Minor` | lib/rails_same_site_cookie/user_agent_checker.rb:31-34 | `get_minor` is present exactly when the version is not nil and has a non-empty second dot-field, and is then that field's `to_i` |
| `Version.Build` | lib/rails_same_site_cookie/user_agent_checker.rb:36-39 | `get_build` is present exactly when the version is not nil and has a non-empty third dot-field, and is then that field's `to_i` |
| `Version.SegmentsOfFields` | lib/rails_same_site_cookie/user_agent_checker.rb:26-39 | for a version written as dot-free fields joined by dots, segment i is `to_i` of field i when that field exists and is non-empty, and absent otherwise |
| `Version.ParseFormat` | lib/rails_same_site_cookie/user_agent_checker.rb:26-39 | parsing a printed "a.b.c" gives (a, b, c) back |
| `Version.ParseTwoFields` | lib/rails_same_site_cookie/user_agent_checker.rb:26-39 | "a.b" has major a and minor b, and no build |
| `Version.MajorOfLeadingNumber` | lib/rails_same_site_cookie/user_agent_checker.rb:26-29 | the major segment of "n" or "n.<anything>" is n, whatever follows the first dot |
| `Version.MajorMinorOfLeadingNumbers` | lib/rails_same_site_cookie/user_agent_checker.rb:26-34 | "a.b" and "a.b.<anything>" have major a and minor b, whatever follows the second dot |
| `Version.AbsentVersionHasNoSegments` | lib/rails_same_site_cookie/user_agent_checker.rb:26-39 | "" has no segments, and neither has nil (model's choice) |
| `Version.NonNumericFieldIsZero` | lib/rails_same_site_cookie/user_agent_checker.rb:31-34 | "12.beta" has minor 0: a present non-numeric field reads as its `to_i`, not as absent |
| `Version.EmptyFieldIsAbsent` | lib/rails_same_site_cookie/user_agent_checker.rb:31-39 | "12..3" has no minor and build 3: an empty field between dots is absent, and later fields keep their positions |
| `Version.TripleLeIsTotalOrder` | lib/rails_same_site_cookie/user_agent_checker.rb:88-98 | the lexicographic version order is reflexive, antisymmetric, transitive and total |
| `Version.VersionOrderExamples` | lib/rails_same_site_cookie/user_agent_checker.rb:88-98 | 12.13.1 < 12.13.2 < 12.14.0 < 13.0.0, strictly |
| `Rules.MissingSameSiteNoneSupport` | lib/rails_same_site_cookie/user_agent_checker.rb:41-43 | only an OS version, a Chromium header or the UC Browser name can flag a client; a client neither on an iOS or Mac-named system nor Chromium is flagged exactly as a UC Browser below 12.13.2 |
| `Rules.HasWebkitSsBug` | lib/rails_same_site_cookie/user_agent_checker.rb:45-47 | the WebKit rule needs an OS version and an OS named "iOS" or containing "Mac"; for a browser that is not Safari it holds exactly when the iOS 12 test does |
| `Rules.DropsUnrecognizedSsCookies` | lib/rails_same_site_cookie/user_agent_checker.rb:49-51 | holds exactly for buggy Chromium or a UC Browser whose version sorts strictly below 12.13.2 |
| `Rules.IsIosVersion` | lib/rails_same_site_cookie/user_agent_checker.rb:53-55 | true exactly when the OS is named "iOS" and the OS version's first dot-field is non-empty with `to_i` equal to the major asked for |
| `Rules.IsMacOsxVersion` | lib/rails_same_site_cookie/user_agent_checker.rb:57-59 | true exactly when the OS name contains "Mac" and the OS version has non-empty first and second dot-fields whose `to_i` are the major and minor asked for |
| `Rules.IsSafari` | lib/rails_same_site_cookie/user_agent_checker.rb:61-63 | true exactly when the browser name is present and "Safari" occurs in it somewhere |
| `Rules.IsBuggyChrome` | lib/rails_same_site_cookie/user_agent_checker.rb:65-67 | the Chromium rule needs "Chrome" or "Chromium" in the header and a version read from it in 51...67; without a readable version it never fires |
| `Rules.IsChromiumBased` | lib/rails_same_site_cookie/user_agent_checker.rb:73-75 | true exactly when "Chrome" or "Chromium" occurs in the header |
| `Rules.IsChromiumVersionBetween` | lib/rails_same_site_cookie/user_agent_checker.rb:77-82 | true exactly when the leftmost match of the version pattern exists and its digit group lies in the half-open range |
| `Rules.IsUcBrowser` | lib/rails_same_site_cookie/user_agent_checker.rb:84-86 | the browser name is exactly "UC Browser", which is never taken for Safari |
| `Rules.SegmentsAtLeast` | lib/rails_same_site_cookie/user_agent_checker.rb:88-98 | the segment-by-segment test is the lexicographic order on (major, minor, build), with an absent segment below every number |
| `Rules.IsUcVersionAtLeast` | lib/rails_same_site_cookie/user_agent_checker.rb:88-98 | `is_uc_version_at_least?` holds exactly when the browser's full version is at least the bound in that order |
| `Rules.IsBuggyUc` | lib/rails_same_site_cookie/user_agent_checker.rb:69-71 | true exactly for UC Browser whose full version sorts strictly below 12.13.2 |
| `Rules.IosRuleMajorOnly` | lib/rails_same_site_cookie/user_agent_checker.rb:53-55 | on iOS with version "n" or "n.<anything>", the WebKit rule fires exactly when n is 12 |
| `Rules.IosRuleNeedsIos` | lib/rails_same_site_cookie/user_agent_checker.rb:53-55 | only an operating system named exactly "iOS" can trigger the iOS rule |
| `Rules.MacRuleExact` | lib/rails_same_site_cookie/user_agent_checker.rb:57-63 | on a Mac-named system with version "a.b" or "a.b.<anything>", the WebKit rule fires exactly for 10.14 with a browser name containing "Safari" |
| `Rules.UcRuleBelow12_13_2` | lib/rails_same_site_cookie/user_agent_checker.rb:69-71 | UC Browser a.b.c is buggy exactly when a.b.c is below 12.13.2 |
| `Rules.ChromeRuleWindow` | lib/rails_same_site_cookie/user_agent_checker.rb:65-82 | a header whose first "Chrom" begins "Chrome/n" or "Chromium/n" is buggy exactly for 51 <= n < 67 |
| `Checker.New` | lib/rails_same_site_cookie/user_agent_checker.rb:13-16 | the constructor keeps the header, and has a descriptor exactly when the header is not nil |
| `Checker.SetUserAgent` | lib/rails_same_site_cookie/user_agent_checker.rb:8-11 | the setter leaves the same state as constructing afresh with the new header |
| `Checker.SendSameSiteNone` | lib/rails_same_site_cookie/user_agent_checker.rb:18-22 | nil or empty header: true; unknown client: true; otherwise true exactly when none of iOS 12, Mac 10.14 with Safari, buggy Chromium or buggy UC holds |
| `Checker.Query` | lib/rails_same_site_cookie/user_agent_checker.rb:18-22 | on the object: no descriptor, an empty header or an unknown client all give true |
| `Checker.QueryOfNew` | lib/rails_same_site_cookie/user_agent_checker.rb:13-22 | asking a freshly built checker gives `SendSameSiteNone` of its header and the parser's descriptor |
| `Checker.AbsentHeaderIgnoresDescriptor` | lib/rails_same_site_cookie/user_agent_checker.rb:19 | with a nil or empty header, the answer is true whatever the descriptor |
| `Checker.UnknownClientIgnoresFields` | lib/rails_same_site_cookie/user_agent_checker.rb:20 | for an unknown client the answer is true whatever its other fields |
| `Checker.IosExamples` | lib/rails_same_site_cookie/user_agent_checker.rb:53-55 | iOS "12", "12.0" and "12.4.1" withhold the attribute; "11.4" and "13.0" do not |
| `Checker.MacExamples` | lib/rails_same_site_cookie/user_agent_checker.rb:57-63 | Safari on Mac "10.14.0" or "10.14" withholds; "10.15.0", or a non-Safari browser on "10.14.0", does not |
| `Checker.ChromeHeaderDecides` | lib/rails_same_site_cookie/user_agent_checker.rb:65-82 | a known client reporting nothing else (no name, versions or OS), whose header's first "Chrom" begins "Chrome/n" or "Chromium/n", is refused exactly for 51 <= n < 67 |
| `Checker.ChromeExamples` | lib/rails_same_site_cookie/user_agent_checker.rb:65-82 | "Chrome/60.0.1234" and "Chromium/65.0" withhold; "Chrome/50.0" and "Chrome/67.0" do not |
| `Checker.UcVersionDecides` | lib/rails_same_site_cookie/user_agent_checker.rb:69-71 | a known UC Browser a.b.c reporting no OS, on a non-empty header the Chromium rule does not flag, is refused exactly below 12.13.2 |
| `Checker.UcExamples` | lib/rails_same_site_cookie/user_agent_checker.rb:84-98 | UC "12.13.1" and "11.9.9" withhold; "12.13.2", "12.14.0" and "13.0.0" do not |
| `Checker.PartialUcVersionWithholds` | lib/rails_same_site_cookie/user_agent_checker.rb:88-98 | UC "12.13" (no build) sorts below 12.13.2 and withholds the attribute (model's choice) |
| `Checker.UcWithoutVersionWithholds` | lib/rails_same_site_cookie/user_agent_checker.rb:84-98 | a known UC Browser with a nil or empty version is refused on any non-empty header (model's choice) |
| `AsWritten.GetSegment` | lib/rails_same_site_cookie/user_agent_checker.rb:26-39 | `get_major`/`get_minor`/`get_build` raise exactly on a nil version string, and otherwise give the total model's segment |
| `AsWritten.GreaterOrEqual` | lib/rails_same_site_cookie/user_agent_checker.rb:91 | `>=` raises exactly on a nil segment, and otherwise agrees with the total model's "at least" |
| `AsWritten.Greater` | lib/rails_same_site_cookie/user_agent_checker.rb:93-96 | `>` raises exactly on a nil segment, and otherwise agrees with the total model's "above" |
| `AsWritten.IsIosVersion` | lib/rails_same_site_cookie/user_agent_checker.rb:53-55 | raises exactly on an iOS system with a nil version; otherwise answers as `Rules.IsIosVersion` |
| `AsWritten.IsMacOsxVersion` | lib/rails_same_site_cookie/user_agent_checker.rb:57-59 | raises exactly on a Mac-named system with a nil version; otherwise answers as `Rules.IsMacOsxVersion` |
| `AsWritten.HasWebkitSsBug` | lib/rails_same_site_cookie/user_agent_checker.rb:45-47 | raises exactly on an iOS or Mac-named system with a nil version; otherwise answers as `Rules.HasWebkitSsBug` |
| `AsWritten.CompareSegments` | lib/rails_same_site_cookie/user_agent_checker.rb:88-98 | raises exactly when the comparison reaches a nil segment; otherwise it is the lexicographic version order |
| `AsWritten.IsUcVersionAtLeast` | lib/rails_same_site_cookie/user_agent_checker.rb:88-98 | raises exactly when the comparison reaches a nil segment of the full version; otherwise answers as `Rules.IsUcVersionAtLeast` |
| `AsWritten.IsBuggyUc` | lib/rails_same_site_cookie/user_agent_checker.rb:69-71 | raises exactly for UC Browser whose version comparison against 12.13.2 reaches a nil segment; otherwise answers as `Rules.IsBuggyUc` |
| `AsWritten.MissingSameSiteNoneSupport` | lib/rails_same_site_cookie/user_agent_checker.rb:41-51 | raises exactly when the WebKit rule raises, or when neither the WebKit nor the Chromium rule fires and the UC comparison raises; otherwise answers as the total model |
| `AsWritten.SendSameSiteNone` | lib/rails_same_site_cookie/user_agent_checker.rb:18-22 | Ruby raises exactly for a known client with a non-empty header on which the rules raise; wherever Ruby answers, the total model gives the same answer |
| `AsWritten.CompleteVersionsNeverRaise` | lib/rails_same_site_cookie/user_agent_checker.rb:26-98 | with an OS version present and, for UC Browser, all three segments present, Ruby answers, and the total model gives that answer |
| `AsWritten.NilOsVersionRaises` | lib/rails_same_site_cookie/user_agent_checker.rb:26-29 | an iOS client with a nil OS version makes Ruby raise; the total model answers true |
| `AsWritten.PartialUcVersionRaises` | lib/rails_same_site_cookie/user_agent_checker.rb:88-98 | UC Browser "12.13" makes Ruby raise at `nil >= 2`; the total model answers false |
| `AsWritten.UcVersionAnswers` | lib/rails_same_site_cookie/user_agent_checker.rb:88-98 | UC Browser "a" or "a.b" with a > 12, or "12.b" with b > 13, is decided before a nil segment is reached: on any non-empty header the Chromium rule ignores, Ruby answers true |
| `AsWritten.UcDecidedEarly` | lib/rails_same_site_cookie/user_agent_checker.rb:88-98 | a known UC Browser with no OS whose major is above 12, or is 12 with a minor above 13, makes Ruby answer true on any non-empty header the Chromium rule ignores, whatever later segments are missing |
| `AsWritten.ShortUcVersionsAboveBoundAnswer` | lib/rails_same_site_cookie/user_agent_checker.rb:88-98 | UC Browser "13" and "12.14" are decided before a nil segment is reached (`13 > 12`, `14 > 13`): Ruby answers true, as the total model does |

## Left out

- lib/rails_same_site_cookie/railtie.rb: framework wiring that installs the middleware. It has no logic.
- The middleware that reads the request header and rewrites `Set-Cookie`: it is not part of this model.
- The `device_detector` gem: its source is not part of this model. Its result is an unconstrained `Rules.Descriptor`, and the constructor takes the parser as a function.
- Mutable object state: the constructor and the `user_agent=` setter are pure functions that return the new state.
- Ruby's general regular-expression engine: only the four patterns the checker uses are written out. `/Mac/`, `/Safari/` and `/Chrom(e|ium)/` are substring tests. The version pattern is a scanner.
- Ruby string encodings: a string is a sequence of characters. `\d`, the digits and the whitespace `to_i` skips are the ASCII ones, as in Ruby.
- Integer width: Ruby integers are unbounded, and so are Dafny's. There is no overflow to model.

## Findings

| source | as written | input that shows it | evidently intended | confidence | as-written member | corrected member |
|---|---|---|---|---|---|---|
| lib/rails_same_site_cookie/user_agent_checker.rb:26-39 | `version_string&.split(".")` is nil for a nil version string, and the following `version_numbers.count` raises NoMethodError | a known client whose OS name is "iOS" and whose OS full version is nil | a nil version tolerated rather than raising, as the safe-navigation operator suggests; the model reads it as having no segments | medium; not executed | `AsWritten.NilOsVersionRaises` | `Version.AbsentVersionHasNoSegments` |
| lib/rails_same_site_cookie/user_agent_checker.rb:88-98 | a version whose major is absent, or whose major is 12 and minor absent, or that is 12.13 with no build, reaches `nil > 12`, `nil > 13` or `nil >= 2`, which raises NoMethodError | UC Browser with full version "12.13" | a deterministic answer; the model chooses an absent segment below every number | low; not executed | `AsWritten.PartialUcVersionRaises` | `Rules.IsUcVersionAtLeast` |
