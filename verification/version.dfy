/**
 Dotted version strings as the checker reads them (`get_major`, `get_minor`,
 `get_build`): one segment per `.`-separated field, each either absent or an integer,
 and the (major, minor, build) ordering the UC Browser rule relies on.
 */
module Version {
  import opened Optional
  import opened RubyString

  /** The (major, minor, build) segments of a version string, each possibly absent. */
  datatype Triple = Triple(major: Option<int>, minor: Option<int>, build: Option<int>)

  /**
   Segment `i` of a version string: absent when the string has no field `i` after
   `split(".")` or that field is empty, otherwise the field's `to_i`.
   A nil version string makes every segment absent; Ruby raises there instead
   (`nil.count`), which the module AsWritten models.
   */
  function Segment(version: Option<string>, i: nat): (r: Option<int>)
    ensures version.None? ==> r.None?
    ensures version.Some? ==>
      var fields := RawSplit(version.value, '.');
      && (r.Some? <==> i < |fields| && fields[i] != "")
      && (r.Some? ==> r.value == ToI(fields[i]))
  {
    match version
    case None => None
    case Some(s) =>
      var fields := Split(s, '.');
      if i < |fields| && |fields[i]| > 0 then Some(ToI(fields[i])) else None
  }

  /** `get_major`: the first field, when it is non-empty. */
  function Major(version: Option<string>): (r: Option<int>)
    ensures r.Some? <==> version.Some? && RawSplit(version.value, '.')[0] != ""
    ensures r.Some? ==> r.value == ToI(RawSplit(version.value, '.')[0])
  {
    Segment(version, 0)
  }

  /** `get_minor`: the second field, when there is one and it is non-empty. */
  function Minor(version: Option<string>): (r: Option<int>)
    ensures r.Some? <==> version.Some? && |RawSplit(version.value, '.')| >= 2 && RawSplit(version.value, '.')[1] != ""
    ensures r.Some? ==> r.value == ToI(RawSplit(version.value, '.')[1])
  {
    Segment(version, 1)
  }

  /** `get_build`: the third field, when there is one and it is non-empty. */
  function Build(version: Option<string>): (r: Option<int>)
    ensures r.Some? <==> version.Some? && |RawSplit(version.value, '.')| >= 3 && RawSplit(version.value, '.')[2] != ""
    ensures r.Some? ==> r.value == ToI(RawSplit(version.value, '.')[2])
  {
    Segment(version, 2)
  }

  function Parse(version: Option<string>): Triple {
    Triple(Major(version), Minor(version), Build(version))
  }

  /** "a.b.c" with a, b and c printed in decimal. */
  function Format(a: nat, b: nat, c: nat): string {
    Show(a) + "." + Show(b) + "." + Show(c)
  }

  /** The segments of a version written as dot-free fields joined by dots are those fields. */
  lemma SegmentsOfFields(fields: seq<string>, i: nat)
    requires |fields| >= 1
    requires forall k :: 0 <= k < |fields| ==> '.' !in fields[k]
    ensures Segment(Some(Join(fields, '.')), i) == if i < |fields| && fields[i] != "" then Some(ToI(fields[i])) else None
  {
    RawSplitJoin(fields, '.');
  }

  /** A printed number contains no dot. */
  lemma ShowHasNoDot(n: nat)
    ensures '.' !in Show(n)
  {
  }

  /** Parsing a printed triple of numbers gives the numbers back. */
  lemma ParseFormat(a: nat, b: nat, c: nat)
    ensures Parse(Some(Format(a, b, c))) == Triple(Some(a), Some(b), Some(c))
  {
    var fields := [Show(a), Show(b), Show(c)];
    assert Join(fields, '.') == Format(a, b, c) by {
      assert fields[1..] == [Show(b), Show(c)];
      assert fields[1..][1..] == [Show(c)];
      assert Join(fields[1..], '.') == Show(b) + "." + Show(c);
      assert Join(fields, '.') == Show(a) + "." + (Show(b) + "." + Show(c));
    }
    ShowHasNoDot(a);
    ShowHasNoDot(b);
    ShowHasNoDot(c);
    SegmentsOfFields(fields, 0);
    SegmentsOfFields(fields, 1);
    SegmentsOfFields(fields, 2);
    ToIShow(a);
    ToIShow(b);
    ToIShow(c);
  }

  /**
   Whatever follows the first `.`, the major segment is the number before it:
   "12", "12.0" and "12.4.1" all have major 12.
   */
  lemma MajorOfLeadingNumber(n: nat, rest: string)
    ensures Major(Some(Show(n))) == Some(n)
    ensures Major(Some(Show(n) + "." + rest)) == Some(n)
  {
    ShowHasNoDot(n);
    RawSplitSingle(Show(n), '.');
    RawSplitCons(Show(n), '.', rest);
    ToIShow(n);
  }

  /**
   Whatever follows the second `.`, the major and minor segments are the numbers
   before it: "10.14", "10.14.6" and "10.14.6.1" all have major 10 and minor 14.
   */
  lemma MajorMinorOfLeadingNumbers(a: nat, b: nat, rest: string)
    ensures Major(Some(Show(a) + "." + Show(b))) == Some(a)
    ensures Minor(Some(Show(a) + "." + Show(b))) == Some(b)
    ensures Major(Some(Show(a) + "." + Show(b) + "." + rest)) == Some(a)
    ensures Minor(Some(Show(a) + "." + Show(b) + "." + rest)) == Some(b)
  {
    ParseTwoFields(a, b);
    MajorMinorBeforeRest(a, b, rest);
  }

  lemma MajorMinorBeforeRest(a: nat, b: nat, rest: string)
    ensures Major(Some(Show(a) + "." + Show(b) + "." + rest)) == Some(a)
    ensures Minor(Some(Show(a) + "." + Show(b) + "." + rest)) == Some(b)
  {
    ShowHasNoDot(a);
    ShowHasNoDot(b);
    var s := Show(a) + "." + Show(b) + "." + rest;
    assert s == Show(a) + ['.'] + (Show(b) + ['.'] + rest);
    RawSplitCons(Show(b), '.', rest);
    RawSplitCons(Show(a), '.', Show(b) + ['.'] + rest);
    assert RawSplit(s, '.')[0] == Show(a) && RawSplit(s, '.')[1] == Show(b);
    ToIShow(a);
    ToIShow(b);
  }

  /** A version "a" or "a.b" has major a, and "a.b" has minor b. */
  lemma ShortVersionSegments(version: string, major: nat, minor: nat)
    requires version == Show(major) || version == Show(major) + "." + Show(minor)
    ensures Parse(Some(version)).major == Some(major)
    ensures version == Show(major) + "." + Show(minor) ==> Parse(Some(version)).minor == Some(minor)
  {
    if version == Show(major) {
      MajorOfLeadingNumber(major, "");
    } else {
      ParseTwoFields(major, minor);
    }
  }

  /** "a.b" has major a and minor b, and no build. */
  lemma ParseTwoFields(a: nat, b: nat)
    ensures Parse(Some(Show(a) + "." + Show(b))) == Triple(Some(a), Some(b), None)
  {
    var fields := [Show(a), Show(b)];
    assert Join(fields, '.') == Show(a) + "." + Show(b) by {
      assert fields[1..] == [Show(b)];
    }
    ShowHasNoDot(a);
    ShowHasNoDot(b);
    SegmentsOfFields(fields, 0);
    SegmentsOfFields(fields, 1);
    SegmentsOfFields(fields, 2);
    ToIShow(a);
    ToIShow(b);
  }

  /** A nil or empty version string has no segments. */
  lemma AbsentVersionHasNoSegments()
    ensures Parse(None) == Triple(None, None, None)
    ensures Parse(Some("")) == Triple(None, None, None)
  {
  }

  /** A present field that is not numeric reads as 0, not as absent: "12.beta" has minor 0. */
  lemma NonNumericFieldIsZero()
    ensures Minor(Some("12.beta")) == Some(0)
  {
    var fields := ["12", "beta"];
    assert Join(fields, '.') == "12.beta" by {
      assert fields[1..] == ["beta"];
    }
    SegmentsOfFields(fields, 1);
    ToIOfNonNumeric("beta");
  }

  /** An empty field is absent, and later fields keep their positions: "12..3" has no minor but build 3. */
  lemma EmptyFieldIsAbsent()
    ensures Minor(Some("12..3")) == None
    ensures Build(Some("12..3")) == Some(3)
  {
    var fields := ["12", "", "3"];
    assert Join(fields, '.') == "12..3" by {
      assert fields[1..] == ["", "3"];
      assert fields[1..][1..] == ["3"];
    }
    SegmentsOfFields(fields, 1);
    SegmentsOfFields(fields, 2);
    ToIShow(3);
  }

  // ---------------------------------------------------------------------------
  // Ordering

  /** One segment at most another, an absent segment sorting below every number. */
  predicate SegmentLe(a: Option<int>, b: Option<int>) {
    a.None? || (b.Some? && a.value <= b.value)
  }

  predicate SegmentLt(a: Option<int>, b: Option<int>) {
    SegmentLe(a, b) && a != b
  }

  /** Lexicographic order on (major, minor, build). */
  predicate TripleLe(x: Triple, y: Triple) {
    || SegmentLt(x.major, y.major)
    || (x.major == y.major && SegmentLt(x.minor, y.minor))
    || (x.major == y.major && x.minor == y.minor && SegmentLe(x.build, y.build))
  }

  predicate TripleLt(x: Triple, y: Triple) {
    TripleLe(x, y) && x != y
  }

  /** The version order is a total order on triples. */
  lemma TripleLeIsTotalOrder(x: Triple, y: Triple, z: Triple)
    ensures TripleLe(x, x)
    ensures TripleLe(x, y) && TripleLe(y, x) ==> x == y
    ensures TripleLe(x, y) && TripleLe(y, z) ==> TripleLe(x, z)
    ensures TripleLe(x, y) || TripleLe(y, x)
  {
  }

  lemma FormatLiterals()
    ensures Format(12, 13, 1) == "12.13.1"
    ensures Format(12, 13, 2) == "12.13.2"
    ensures Format(12, 14, 0) == "12.14.0"
    ensures Format(13, 0, 0) == "13.0.0"
  {
    assert Show(12) == "12" && Show(13) == "13" && Show(14) == "14";
  }

  /** 12.13.1 < 12.13.2 < 12.14.0 < 13.0.0, each strictly. */
  lemma VersionOrderExamples()
    ensures TripleLt(Parse(Some("12.13.1")), Parse(Some("12.13.2")))
    ensures TripleLt(Parse(Some("12.13.2")), Parse(Some("12.14.0")))
    ensures TripleLt(Parse(Some("12.14.0")), Parse(Some("13.0.0")))
  {
    FormatLiterals();
    ParseFormat(12, 13, 1);
    ParseFormat(12, 13, 2);
    ParseFormat(12, 14, 0);
    ParseFormat(13, 0, 0);
  }
}
