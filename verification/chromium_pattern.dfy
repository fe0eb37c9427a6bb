/**
 A hand-written scanner for the regular expression `Chrom[^/]+/(\d+)[\.\d]*`, which the
 checker uses to read a Chromium major version straight from the User-Agent header.
 The trailing `[\.\d]*` can always match the empty string, so it affects neither whether
 there is a match nor what the group captures, and is left out. Ruby reports the
 leftmost match; `\d` is an ASCII digit.
 */
module ChromiumPattern {
  import opened Optional
  import opened RubyString

  /** A match starting at `start`, whose `/` is at `slash`, capturing s[slash + 1..end]. */
  datatype Match = Match(start: nat, slash: nat, end: nat)

  /** "Chrom" occurs at `p`, compared character by character. */
  predicate ChromAt(s: string, p: nat) {
    p + 5 <= |s| && s[p] == 'C' && s[p + 1] == 'h' && s[p + 2] == 'r' && s[p + 3] == 'o' && s[p + 4] == 'm'
  }

  lemma ChromAtIsOccurrence(s: string, p: nat)
    ensures ChromAt(s, p) <==> OccursAt(s, "Chrom", p)
  {
    if p + 5 <= |s| {
      assert s[p..p + 5] == [s[p], s[p + 1], s[p + 2], s[p + 3], s[p + 4]];
    }
  }

  /**
   The pattern matches from `p` with its `/` at `q`: "Chrom", then one or more
   characters other than `/` (which must therefore run up to the first `/`), then the
   `/`, then at least one digit.
   */
  predicate MatchesAt(s: string, p: nat, q: nat) {
    && p + 5 < q
    && q + 1 < |s|
    && ChromAt(s, p)
    && (forall j :: p + 5 <= j < q ==> s[j] != '/')
    && s[q] == '/'
    && IsDigit(s[q + 1])
  }

  /** `m` is a match whose group is greedy: it takes every digit after the `/`. */
  predicate IsMatch(s: string, m: Match) {
    && MatchesAt(s, m.start, m.slash)
    && m.slash + 1 < m.end <= |s|
    && (forall j :: m.slash < j < m.end ==> IsDigit(s[j]))
    && (m.end == |s| || !IsDigit(s[m.end]))
  }

  /** `m` is the match Ruby reports: no match starts further left. */
  ghost predicate IsLeftmostMatch(s: string, m: Match) {
    && IsMatch(s, m)
    && forall p: nat, q: nat :: p < m.start ==> !MatchesAt(s, p, q)
  }

  /** The first `/` at or after `from`, or |s| when there is none. */
  function FirstSlash(s: string, from: nat): (k: nat)
    requires from <= |s|
    ensures from <= k <= |s|
    ensures k < |s| ==> s[k] == '/'
    ensures forall j :: from <= j < k ==> s[j] != '/'
    decreases |s| - from
  {
    if from == |s| || s[from] == '/' then from else FirstSlash(s, from + 1)
  }

  /** The end of the run of digits that starts at `from`. */
  function DigitRunEnd(s: string, from: nat): (k: nat)
    requires from <= |s|
    ensures from <= k <= |s|
    ensures forall j :: from <= j < k ==> IsDigit(s[j])
    ensures k < |s| ==> !IsDigit(s[k])
    decreases |s| - from
  {
    if from == |s| || !IsDigit(s[from]) then from else DigitRunEnd(s, from + 1)
  }

  /** The scan for a match, trying start positions from `p` rightwards. */
  function FindFrom(s: string, p: nat): Option<Match>
    decreases |s| - p
  {
    if p + 5 > |s| then None
    else if !ChromAt(s, p) then FindFrom(s, p + 1)
    else if SlashDigitAfter(s, p) then
      var q := FirstSlash(s, p + 5);
      Some(Match(p, q, DigitRunEnd(s, q + 1)))
    else FindFrom(s, p + 1)
  }

  /** A match from `p` has its `/` at the first `/` after "Chrom". */
  lemma SlashOfMatch(s: string, p: nat, q: nat)
    ensures MatchesAt(s, p, q) ==> q == FirstSlash(s, p + 5)
  {
  }

  /** Whether "Chrom" at `p` is followed by a `/` and a digit, with something in between. */
  predicate SlashDigitAfter(s: string, p: nat)
    requires p + 5 <= |s|
  {
    var q := FirstSlash(s, p + 5);
    p + 5 < q && q + 1 < |s| && IsDigit(s[q + 1])
  }

  /** When the pattern can start at `p`, the scan stops there with a greedy match. */
  lemma ScanHit(s: string, p: nat)
    requires ChromAt(s, p) && SlashDigitAfter(s, p)
    ensures FindFrom(s, p).Some? && FindFrom(s, p).value.start == p
    ensures IsMatch(s, FindFrom(s, p).value)
  {
    var q := FirstSlash(s, p + 5);
    var m := Match(p, q, DigitRunEnd(s, q + 1));
    assert FindFrom(s, p) == Some(m);
    assert MatchesAt(s, p, q);
  }

  /** When the pattern cannot start at `p`, the scan moves on to `p + 1`. */
  lemma ScanMiss(s: string, p: nat)
    requires p + 5 <= |s|
    requires !ChromAt(s, p) || !SlashDigitAfter(s, p)
    ensures FindFrom(s, p) == FindFrom(s, p + 1)
    ensures forall q: nat :: !MatchesAt(s, p, q)
  {
    forall q: nat
      ensures !MatchesAt(s, p, q)
    {
      SlashOfMatch(s, p, q);
    }
  }

  /** The scan from `p` finds the leftmost match starting at `p` or later. */
  lemma {:induction false} FindFromLeftmost(s: string, p: nat)
    ensures FindFrom(s, p).Some? ==> IsMatch(s, FindFrom(s, p).value) && p <= FindFrom(s, p).value.start
    ensures FindFrom(s, p).Some? ==> forall p': nat, q: nat :: p <= p' < FindFrom(s, p).value.start ==> !MatchesAt(s, p', q)
    ensures FindFrom(s, p).None? ==> forall p': nat, q: nat :: p <= p' ==> !MatchesAt(s, p', q)
    decreases |s| - p
  {
    if p + 5 > |s| {
    } else if ChromAt(s, p) && SlashDigitAfter(s, p) {
      ScanHit(s, p);
    } else {
      ScanMiss(s, p);
      FindFromLeftmost(s, p + 1);
    }
  }

  /** The match Ruby reports for the pattern in `s`, or None when it does not match. */
  function Find(s: string): (r: Option<Match>)
    ensures r.Some? ==> IsLeftmostMatch(s, r.value)
    ensures r.None? <==> forall p: nat, q: nat :: !MatchesAt(s, p, q)
  {
    FindFromLeftmost(s, 0);
    FindFrom(s, 0)
  }

  /** The leftmost match is determined by the text: the scanner's answer is the only one. */
  lemma LeftmostMatchUnique(s: string, m1: Match, m2: Match)
    requires IsLeftmostMatch(s, m1) && IsLeftmostMatch(s, m2)
    ensures m1 == m2
  {
  }

  /**
   The captured version, `match[1].to_i`, when the pattern matches. The group holds
   digits only, so its `to_i` is its decimal value (see VersionIsToI).
   */
  function Version(s: string): (r: Option<int>)
    ensures r.None? <==> forall p: nat, q: nat :: !MatchesAt(s, p, q)
    ensures r.Some? ==> exists m :: IsLeftmostMatch(s, m) && r.value == DecimalValue(s[m.slash + 1..m.end])
  {
    match Find(s)
    case None => None
    case Some(m) =>
      assert AllDigits(s[m.slash + 1..m.end]);
      Some(DecimalValue(s[m.slash + 1..m.end]))
  }

  /** Reading the group with Ruby's `to_i` gives the same version. */
  lemma VersionIsToI(s: string)
    ensures match Find(s)
      case None => Version(s).None?
      case Some(m) => Version(s) == Some(ToI(s[m.slash + 1..m.end]))
  {
    match Find(s)
    case None =>
    case Some(m) =>
      var group := s[m.slash + 1..m.end];
      assert Version(s) == Some(DecimalValue(group));
      ToIOfDigits(group);
  }

  /** Without any `/` in the header there is no version to read. */
  lemma NoSlashNoVersion(s: string)
    requires forall j :: 0 <= j < |s| ==> s[j] != '/'
    ensures Version(s).None?
  {
  }

  /**
   The brand token "Chrome/<n>" or "Chromium/<n>" followed by `rest`: "Chrom" at its
   head, no `/` before the one that ends the brand, then the digits of n and nothing
   that would extend them.
   */
  lemma BrandTokenShape(u: string, brand: string, n: nat, rest: string)
    requires brand == "Chrome" || brand == "Chromium"
    requires u == brand + "/" + Show(n) + rest
    requires rest == "" || !IsDigit(rest[0])
    ensures |brand| + 1 + |Show(n)| <= |u|
    ensures ChromAt(u, 0)
    ensures forall j :: 5 <= j < |brand| ==> u[j] != '/'
    ensures u[|brand|] == '/'
    ensures u[|brand| + 1..|brand| + 1 + |Show(n)|] == Show(n)
    ensures |brand| + 1 + |Show(n)| < |u| ==> !IsDigit(u[|brand| + 1 + |Show(n)|])
  {
    var e := |brand| + 1 + |Show(n)|;
    assert u[..|brand|] == brand;
    assert u[|brand| + 1..e] == Show(n);
    assert e < |u| ==> u[e] == rest[0];
  }

  /**
   A text `u` that starts with a match whose `/` is at `b` and whose digits are
   u[b + 1..e] gives that match wherever `u` is the tail of a header.
   */
  lemma MatchInTail(s: string, p: nat, u: string, b: nat, e: nat)
    requires p <= |s| && s[p..] == u
    requires 5 < b && b + 1 < e <= |u|
    requires ChromAt(u, 0)
    requires forall j :: 5 <= j < b ==> u[j] != '/'
    requires u[b] == '/'
    requires AllDigits(u[b + 1..e])
    requires e < |u| ==> !IsDigit(u[e])
    ensures IsMatch(s, Match(p, p + b, p + e))
  {
    assert forall j :: p <= j < |s| ==> s[j] == u[j - p];
    assert forall j :: b < j < e ==> u[j] == u[b + 1..e][j - b - 1];
  }

  /** Where "Chrom" does not occur before `p`, no match starts before `p`. */
  lemma NoMatchBefore(s: string, p: nat)
    requires forall i :: 0 <= i < p ==> !OccursAt(s, "Chrom", i)
    ensures forall p': nat, q': nat :: p' < p ==> !MatchesAt(s, p', q')
  {
    forall p': nat, q': nat | p' < p
      ensures !MatchesAt(s, p', q')
    {
      ChromAtIsOccurrence(s, p');
    }
  }

  /** The version is the value of the leftmost match's digits. */
  lemma VersionOfLeftmost(s: string, m: Match)
    requires IsLeftmostMatch(s, m)
    ensures AllDigits(s[m.slash + 1..m.end])
    ensures Version(s) == Some(DecimalValue(s[m.slash + 1..m.end]))
  {
    var found := Find(s).value;
    LeftmostMatchUnique(s, found, m);
    assert Version(s) == Some(DecimalValue(s[found.slash + 1..found.end]));
  }

  /** Every leftmost match carries the version, so a bound on one is a bound on the other. */
  lemma VersionInRange(s: string, lo: int, hi: int)
    ensures forall m :: IsLeftmostMatch(s, m) ==> AllDigits(s[m.slash + 1..m.end])
    ensures (Version(s).Some? && lo <= Version(s).value < hi) <==>
      exists m :: IsLeftmostMatch(s, m) && lo <= DecimalValue(s[m.slash + 1..m.end]) < hi
  {
    forall m | IsLeftmostMatch(s, m)
      ensures AllDigits(s[m.slash + 1..m.end]) && Version(s) == Some(DecimalValue(s[m.slash + 1..m.end]))
    {
      VersionOfLeftmost(s, m);
    }
  }

  /**
   A header whose first "Chrom" is the brand token "Chrome/<n>" or "Chromium/<n>",
   with the number not followed by a further digit, yields version n.
   */
  lemma {:induction false} BrandTokenVersion(s: string, pre: string, brand: string, n: nat, rest: string)
    requires brand == "Chrome" || brand == "Chromium"
    requires s == pre + brand + "/" + Show(n) + rest
    requires forall i :: 0 <= i < |pre| ==> !OccursAt(s, "Chrom", i)
    requires rest == "" || !IsDigit(rest[0])
    ensures Version(s) == Some(n)
  {
    var u := brand + "/" + Show(n) + rest;
    BrandTokenShape(u, brand, n, rest);
    assert s[|pre|..] == u;
    var e := |brand| + 1 + |Show(n)|;
    MatchInTail(s, |pre|, u, |brand|, e);
    var m := Match(|pre|, |pre| + |brand|, |pre| + e);
    assert s[m.slash + 1..m.end] == Show(n) by {
      assert s[m.slash + 1..m.end] == u[|brand| + 1..e];
    }
    NoMatchBefore(s, |pre|);
    VersionOfLeftmost(s, m);
    DecimalValueShow(n);
  }
}
