/**
 The few Ruby `String` operations the checker relies on, written out explicitly:
 `split` with a one-character separator, `to_i` in base 10, and matching a regular
 expression that is a plain literal (`/Mac/`, `/Safari/`), which is substring search.
 */
module RubyString {

  predicate IsDigit(c: char) {
    '0' <= c <= '9'
  }

  predicate AllDigits(s: string) {
    forall i :: 0 <= i < |s| ==> IsDigit(s[i])
  }

  /** The characters Ruby's `to_i` skips before a number: space, \t, \n, \v, \f and \r. */
  predicate IsSpace(c: char) {
    c == ' ' || c == '\t' || c == '\n' || c == 11 as char || c == 12 as char || c == '\r'
  }

  // ---------------------------------------------------------------------------
  // Decimal numerals

  /** The value of a string of decimal digits, most significant digit first. */
  function DecimalValue(s: string): nat
    requires AllDigits(s)
  {
    if |s| == 0 then 0
    else DecimalValue(s[..|s| - 1]) * 10 + (s[|s| - 1] as int - '0' as int)
  }

  function DigitChar(d: nat): (c: char)
    requires d < 10
    ensures IsDigit(c)
  {
    ('0' as int + d) as char
  }

  /** The decimal numeral of `n`, without leading zeros ("0" for zero). */
  function Show(n: nat): (r: string)
    ensures |r| > 0 && AllDigits(r)
    ensures r[0] == '0' ==> n == 0
  {
    if n < 10 then [DigitChar(n)] else Show(n / 10) + [DigitChar(n % 10)]
  }

  /** Reading back a printed number gives the number. */
  lemma {:induction false} DecimalValueShow(n: nat)
    ensures DecimalValue(Show(n)) == n
  {
    if n >= 10 {
      var s := Show(n);
      assert s[..|s| - 1] == Show(n / 10);
      DecimalValueShow(n / 10);
    }
  }

  // ---------------------------------------------------------------------------
  // String#to_i

  /** `s` without its leading whitespace. */
  function SkipSpaces(s: string): (r: string)
    ensures |r| <= |s| && r == s[|s| - |r|..]
    ensures |r| > 0 ==> !IsSpace(r[0])
    ensures forall i :: 0 <= i < |s| - |r| ==> IsSpace(s[i])
  {
    if |s| > 0 && IsSpace(s[0]) then SkipSpaces(s[1..]) else s
  }

  /**
   The digits of the longest prefix of `s` of the form D(_?D)*, D a decimal digit,
   with the underscores removed: what `to_i` reads after the sign.
   */
  function Numeral(s: string): (d: string)
    ensures AllDigits(d)
    ensures |d| <= |s|
    ensures |d| > 0 <==> |s| > 0 && IsDigit(s[0])
  {
    if |s| > 0 && IsDigit(s[0]) then
      [s[0]] + (if |s| >= 3 && s[1] == '_' && IsDigit(s[2]) then Numeral(s[2..]) else Numeral(s[1..]))
    else ""
  }

  /**
   Ruby's `String#to_i` (base 10): leading whitespace is skipped, then an optional sign,
   then an optional "0d" radix prefix, then digits with single underscores allowed
   between them. Anything else ends the number; no digits at all gives 0.
   */
  function ToI(s: string): (r: int)
    ensures var t := SkipSpaces(s); r != 0 ==> |t| > 0 && (IsDigit(t[0]) || t[0] == '+' || t[0] == '-')
    ensures var t := SkipSpaces(s); r < 0 ==> |t| > 0 && t[0] == '-'
  {
    var t := SkipSpaces(s);
    if |t| > 0 && t[0] == '-' then -(Unsigned(t[1..]) as int)
    else if |t| > 0 && t[0] == '+' then Unsigned(t[1..])
    else Unsigned(t)
  }

  /** The number after the sign: an optional "0d" prefix, then the numeral. */
  function Unsigned(u: string): nat
  {
    var v := if |u| >= 2 && u[0] == '0' && (u[1] == 'd' || u[1] == 'D') then u[2..] else u;
    DecimalValue(Numeral(v))
  }

  lemma {:induction false} NumeralOfDigits(s: string)
    requires AllDigits(s)
    ensures Numeral(s) == s
  {
    if |s| > 0 {
      NumeralOfDigits(s[1..]);
    }
  }

  lemma {:induction false} NumeralStops(d: string, rest: string)
    requires AllDigits(d)
    requires rest == "" || (!IsDigit(rest[0]) && rest[0] != '_')
    ensures Numeral(d + rest) == d
  {
    if |d| == 0 {
    } else {
      assert (d + rest)[1..] == d[1..] + rest;
      NumeralStops(d[1..], rest);
    }
  }

  /** Text that starts with a digit has no whitespace or sign for `to_i` to skip. */
  lemma ToIOfLeadingDigit(s: string)
    requires |s| > 0 && IsDigit(s[0])
    ensures ToI(s) == Unsigned(s)
  {
    assert !IsSpace(s[0]);
    assert SkipSpaces(s) == s;
  }

  /** A field made of digits only reads as its decimal value. */
  lemma ToIOfDigits(s: string)
    requires AllDigits(s)
    ensures ToI(s) == DecimalValue(s)
  {
    if |s| > 0 {
      ToIOfLeadingDigit(s);
      assert |s| >= 2 ==> IsDigit(s[1]);
    }
    NumeralOfDigits(s);
  }

  /** `to_i` reads back what `Show` prints. */
  lemma ToIShow(n: nat)
    ensures ToI(Show(n)) == n
  {
    ToIOfDigits(Show(n));
    DecimalValueShow(n);
  }

  /**
   A number followed by text that cannot continue it ("4-beta", "12 Mobile") reads as
   the number alone; the one exception is a lone "0" followed by "d" or "D", which Ruby
   takes as a radix prefix.
   */
  lemma ToIOfDigitsThen(d: string, rest: string)
    requires |d| > 0 && AllDigits(d)
    requires rest == "" || (!IsDigit(rest[0]) && rest[0] != '_')
    requires !(d == "0" && |rest| > 0 && (rest[0] == 'd' || rest[0] == 'D'))
    ensures ToI(d + rest) == DecimalValue(d)
  {
    var s := d + rest;
    assert s[0] == d[0];
    ToIOfLeadingDigit(s);
    assert !(|s| >= 2 && s[0] == '0' && (s[1] == 'd' || s[1] == 'D')) by {
      if |d| >= 2 {
        assert s[1] == d[1];
      } else if |rest| > 0 {
        assert s[1] == rest[0];
        assert d == [s[0]];
      }
    }
    assert Unsigned(s) == DecimalValue(Numeral(s));
    NumeralStops(d, rest);
  }

  /** A field that does not start with a digit, a sign or whitespace ("beta") reads as 0. */
  lemma ToIOfNonNumeric(s: string)
    requires |s| > 0 && !IsDigit(s[0]) && !IsSpace(s[0]) && s[0] != '+' && s[0] != '-'
    ensures ToI(s) == 0
  {
  }

  // ---------------------------------------------------------------------------
  // String#split with a one-character separator

  /** The parts with `sep` written between consecutive ones. */
  function Join(parts: seq<string>, sep: char): string
  {
    if |parts| == 0 then ""
    else if |parts| == 1 then parts[0]
    else parts[0] + [sep] + Join(parts[1..], sep)
  }

  /**
   Every field between separators, empty ones included: a string with k separators has
   k + 1 fields, and joining them again gives the string back.
   */
  function RawSplit(s: string, sep: char): (parts: seq<string>)
    ensures |parts| >= 1
    ensures forall i :: 0 <= i < |parts| ==> sep !in parts[i]
    ensures Join(parts, sep) == s
    decreases |s|
  {
    if |s| == 0 then [""]
    else
      var rest := RawSplit(s[1..], sep);
      if s[0] == sep then
        var parts := [""] + rest;
        assert parts[1..] == rest;
        assert Join(parts, sep) == "" + [sep] + Join(rest, sep);
        assert s == [s[0]] + s[1..];
        parts
      else
        var parts := [[s[0]] + rest[0]] + rest[1..];
        assert |parts| == 1 ==> Join(parts, sep) == [s[0]] + rest[0];
        assert |parts| > 1 ==> parts[1..] == rest[1..] && Join(rest, sep) == rest[0] + [sep] + Join(rest[1..], sep);
        assert s == [s[0]] + s[1..];
        parts
  }

  /** A field free of the separator, then the separator, splits off as the first field. */
  lemma {:induction false} RawSplitCons(a: string, sep: char, b: string)
    requires sep !in a
    ensures RawSplit(a + [sep] + b, sep) == [a] + RawSplit(b, sep)
    decreases |a|
  {
    var s := a + [sep] + b;
    if |a| == 0 {
      assert s[1..] == b;
    } else {
      assert s[1..] == a[1..] + [sep] + b;
      RawSplitCons(a[1..], sep, b);
      assert [a[0]] + a[1..] == a;
    }
  }

  /** A string without the separator is a single field. */
  lemma {:induction false} RawSplitSingle(a: string, sep: char)
    requires sep !in a
    ensures RawSplit(a, sep) == [a]
    decreases |a|
  {
    if |a| > 0 {
      RawSplitSingle(a[1..], sep);
      assert [a[0]] + a[1..] == a;
    }
  }

  /** Splitting undoes joining: the separator-free decomposition of a string is unique. */
  lemma {:induction false} RawSplitJoin(parts: seq<string>, sep: char)
    requires |parts| >= 1
    requires forall i :: 0 <= i < |parts| ==> sep !in parts[i]
    ensures RawSplit(Join(parts, sep), sep) == parts
  {
    if |parts| == 1 {
      RawSplitSingle(parts[0], sep);
    } else {
      RawSplitJoin(parts[1..], sep);
      RawSplitCons(parts[0], sep, Join(parts[1..], sep));
      assert [parts[0]] + parts[1..] == parts;
    }
  }

  /** `parts` without its trailing empty strings. */
  function DropTrailingEmpty(parts: seq<string>): (r: seq<string>)
    ensures r <= parts
    ensures forall i :: |r| <= i < |parts| ==> parts[i] == ""
    ensures |r| > 0 ==> r[|r| - 1] != ""
  {
    if |parts| == 0 then []
    else if parts[|parts| - 1] == "" then DropTrailingEmpty(parts[..|parts| - 1])
    else parts
  }

  /**
   Ruby's `s.split(sep)` for a one-character string separator: the fields between
   separators with the trailing empty ones removed ("" and "..." give no fields at all,
   ".5" gives ["", "5"]).
   */
  function Split(s: string, sep: char): (fields: seq<string>)
    ensures fields <= RawSplit(s, sep)
    ensures forall i :: |fields| <= i < |RawSplit(s, sep)| ==> RawSplit(s, sep)[i] == ""
    ensures |fields| > 0 ==> fields[|fields| - 1] != ""
  {
    DropTrailingEmpty(RawSplit(s, sep))
  }

  // ---------------------------------------------------------------------------
  // Literal regular expressions

  predicate OccursAt(s: string, t: string, i: nat) {
    i + |t| <= |s| && s[i..i + |t|] == t
  }

  function ContainsFrom(s: string, t: string, from: nat): (r: bool)
    requires from <= |s|
    ensures r <==> exists i :: from <= i && OccursAt(s, t, i)
    decreases |s| - from
  {
    if from + |t| > |s| then false
    else if OccursAt(s, t, from) then true
    else
      var r := ContainsFrom(s, t, from + 1);
      assert forall i :: from <= i && OccursAt(s, t, i) ==> i == from || from + 1 <= i;
      r
  }

  /** Whether `t` occurs in `s`: what `s =~ /t/` decides when `t` has no special characters. */
  function Contains(s: string, t: string): (r: bool)
    ensures r <==> exists i :: OccursAt(s, t, i)
  {
    ContainsFrom(s, t, 0)
  }
}
