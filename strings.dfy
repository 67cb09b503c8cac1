/**
 * The parts of java.lang.String and java.lang.Integer that the employee
 * directory relies on: trim(), split(",", -1), equalsIgnoreCase and
 * Integer.parseInt in radix 10.
 */
module Strings {
  import opened Wrappers

  // ---------------------------------------------------------------------
  // trim()
  // ---------------------------------------------------------------------

  /** The characters String.trim() strips: every code point up to U+0020. */
  predicate IsTrimmable(c: char) {
    c <= ' '
  }

  /** Length of the run of trimmable characters that starts s. */
  function LeadingSpaces(s: string): (n: nat)
    ensures n <= |s|
  {
    if |s| == 0 || !IsTrimmable(s[0]) then 0 else 1 + LeadingSpaces(s[1..])
  }

  /** The run LeadingSpaces counts is trimmable and is as long as it can be. */
  lemma {:induction false} LeadingSpacesRun(s: string)
    ensures forall k :: 0 <= k < LeadingSpaces(s) ==> IsTrimmable(s[k])
    ensures LeadingSpaces(s) < |s| ==> !IsTrimmable(s[LeadingSpaces(s)])
  {
    if |s| > 0 && IsTrimmable(s[0]) {
      LeadingSpacesRun(s[1..]);
    }
  }

  /** Length of the run of trimmable characters that ends s. */
  function TrailingSpaces(s: string): (n: nat)
    ensures n <= |s|
  {
    if |s| == 0 || !IsTrimmable(s[|s| - 1]) then 0 else 1 + TrailingSpaces(s[..|s| - 1])
  }

  /** The run TrailingSpaces counts is trimmable and is as long as it can be. */
  lemma {:induction false} TrailingSpacesRun(s: string)
    ensures forall k :: |s| - TrailingSpaces(s) <= k < |s| ==> IsTrimmable(s[k])
    ensures TrailingSpaces(s) < |s| ==> !IsTrimmable(s[|s| - 1 - TrailingSpaces(s)])
  {
    if |s| > 0 && IsTrimmable(s[|s| - 1]) {
      TrailingSpacesRun(s[..|s| - 1]);
    }
  }

  /** String.trim(): s with the run of trimmable characters cut from each end. */
  function Trim(s: string): string {
    var rest := s[LeadingSpaces(s)..];
    rest[..|rest| - TrailingSpaces(rest)]
  }

  /**
   * What trim() keeps is the longest infix of s that neither starts nor
   * ends with a trimmable character; everything cut off on either side is
   * trimmable, and the result is empty exactly when all of s is.
   */
  lemma TrimInfix(s: string)
    ensures LeadingSpaces(s) + |Trim(s)| <= |s|
    ensures Trim(s) == s[LeadingSpaces(s)..LeadingSpaces(s) + |Trim(s)|]
    ensures forall k :: 0 <= k < |s| && !(LeadingSpaces(s) <= k < LeadingSpaces(s) + |Trim(s)|) ==> IsTrimmable(s[k])
    ensures Trim(s) != "" ==> !IsTrimmable(Trim(s)[0]) && !IsTrimmable(Trim(s)[|Trim(s)| - 1])
    ensures Trim(s) == "" <==> forall k :: 0 <= k < |s| ==> IsTrimmable(s[k])
  {
    var rest := s[LeadingSpaces(s)..];
    LeadingSpacesRun(s);
    TrailingSpacesRun(rest);
  }

  /** Trimming twice is trimming once. */
  lemma TrimIdempotent(s: string)
    ensures Trim(Trim(s)) == Trim(s)
  {
    var r := Trim(s);
    TrimInfix(s);
    if r != "" {
      assert LeadingSpaces(r) == 0;
      assert TrailingSpaces(r) == 0;
    }
  }

  /** A string that trims to nothing holds no comma, since ',' is above U+0020. */
  lemma BlankHasNoComma(s: string)
    requires Trim(s) == ""
    ensures ',' !in s
  {
    TrimInfix(s);
    forall k | 0 <= k < |s|
      ensures s[k] != ','
    {
      assert IsTrimmable(s[k]);
    }
  }

  // ---------------------------------------------------------------------
  // split(",", -1)
  // ---------------------------------------------------------------------

  /** The fields joined back together, a comma between each two. */
  function Join(fields: seq<string>): string
    requires |fields| >= 1
  {
    if |fields| == 1 then fields[0] else fields[0] + "," + Join(fields[1..])
  }

  /**
   * String.split(",", -1): every comma separates two fields, and empty
   * fields, trailing ones included, are kept.
   */
  function Split(s: string): (fields: seq<string>)
    ensures |fields| >= 1
  {
    if |s| == 0 then [""]
    else
      var rest := Split(s[1..]);
      if s[0] == ',' then [""] + rest
      else [[s[0]] + rest[0]] + rest[1..]
  }

  /** No field of a split holds a comma, and joining the fields with commas gives s back. */
  lemma {:induction false} SplitFields(s: string)
    ensures forall i :: 0 <= i < |Split(s)| ==> ',' !in Split(s)[i]
    ensures Join(Split(s)) == s
  {
    if |s| > 0 {
      var rest := Split(s[1..]);
      SplitFields(s[1..]);
      if s[0] == ',' {
        assert ([""] + rest)[1..] == rest;
      } else {
        var fields := [[s[0]] + rest[0]] + rest[1..];
        assert fields[1..] == rest[1..];
        assert s == [s[0]] + s[1..];
      }
    }
  }

  /** Splitting a join of comma-free fields gives the fields back. */
  lemma {:induction false} SplitJoin(fields: seq<string>)
    requires |fields| >= 1
    requires forall i :: 0 <= i < |fields| ==> ',' !in fields[i]
    ensures Split(Join(fields)) == fields
    decreases |Join(fields)|
  {
    var f := fields[0];
    if |fields| == 1 {
      if f != "" {
        SplitJoin([f[1..]]);
        assert f == [f[0]] + f[1..];
        assert Join([f]) == f;
        assert Split(f)[0] == f;
      }
    } else if f == "" {
      var tail := fields[1..];
      assert Join(fields) == "," + Join(tail);
      SplitJoin(tail);
      assert ("," + Join(tail))[1..] == Join(tail);
      assert fields == [""] + tail;
    } else {
      var shorter := [f[1..]] + fields[1..];
      assert shorter[1..] == fields[1..];
      assert Join(fields) == [f[0]] + Join(shorter) by {
        assert f == [f[0]] + f[1..];
      }
      SplitJoin(shorter);
      assert (Join(fields))[1..] == Join(shorter);
      assert [f[0]] + f[1..] == f;
      assert fields == [f] + fields[1..];
    }
  }

  // ---------------------------------------------------------------------
  // equalsIgnoreCase
  // ---------------------------------------------------------------------

  /** Upper case of an ASCII letter; every other character is left alone. */
  function ToUpperAscii(c: char): char {
    if 'a' <= c <= 'z' then (c as int - 32) as char else c
  }

  /** Two characters equal once the case of ASCII letters is folded. */
  predicate SameIgnoringCase(x: char, y: char) {
    x == y || ToUpperAscii(x) == ToUpperAscii(y)
  }

  /**
   * String.equalsIgnoreCase: the same length, and each two characters at
   * the same position equal once the case of ASCII letters is folded.
   */
  predicate EqualsIgnoreCase(a: string, b: string)
    decreases |a|
  {
    |a| == |b| &&
    (|a| == 0 || (SameIgnoringCase(a[0], b[0]) && EqualsIgnoreCase(a[1..], b[1..])))
  }

  /** equalsIgnoreCase compares position by position. */
  lemma {:induction false} EqualsIgnoreCasePositionwise(a: string, b: string)
    ensures EqualsIgnoreCase(a, b) <==>
      |a| == |b| && forall i :: 0 <= i < |a| ==> SameIgnoringCase(a[i], b[i])
    decreases |a|
  {
    if |a| == |b| && |a| > 0 {
      EqualsIgnoreCasePositionwise(a[1..], b[1..]);
      if forall i :: 0 <= i < |a| ==> SameIgnoringCase(a[i], b[i]) {
        assert forall i :: 0 <= i < |a| - 1 ==> a[1..][i] == a[i + 1] && b[1..][i] == b[i + 1];
      }
      if EqualsIgnoreCase(a, b) {
        forall i | 0 <= i < |a|
          ensures SameIgnoringCase(a[i], b[i])
        {
          if i > 0 {
            assert a[1..][i - 1] == a[i] && b[1..][i - 1] == b[i];
          }
        }
      }
    }
  }

  // ---------------------------------------------------------------------
  // Integer.parseInt in radix 10
  // ---------------------------------------------------------------------

  const MinInt32: int := -0x8000_0000
  const MaxInt32: int := 0x7fff_ffff

  /** The range of a Java int. */
  predicate IsInt32(n: int) {
    MinInt32 <= n <= MaxInt32
  }

  predicate IsDigit(c: char) {
    '0' <= c <= '9'
  }

  predicate AllDigits(s: string) {
    forall i :: 0 <= i < |s| ==> IsDigit(s[i])
  }

  /** The value of a string of decimal digits, most significant first. */
  function DigitsValue(ds: string): nat
    requires AllDigits(ds)
  {
    if |ds| == 0 then 0
    else
      assert IsDigit(ds[|ds| - 1]);
      DigitsValue(ds[..|ds| - 1]) * 10 + (ds[|ds| - 1] as int - '0' as int)
  }

  /**
   * Integer.parseInt(s): an optional '+' or '-', then at least one digit,
   * and a value inside the 32-bit range. None is the NumberFormatException.
   */
  function ParseInt(s: string): (r: Option<int>)
    ensures r.Some? ==> IsInt32(r.value)
    ensures r.Some? ==>
      var start := if |s| > 0 && (s[0] == '-' || s[0] == '+') then 1 else 0;
      |s| > start && AllDigits(s[start..])
    ensures r.Some? && s[0] == '-' ==> r.value <= 0
    ensures r.Some? && s[0] != '-' ==> r.value >= 0
  {
    var start := if |s| > 0 && (s[0] == '-' || s[0] == '+') then 1 else 0;
    var digits := s[start..];
    if |digits| == 0 || !AllDigits(digits) then None
    else
      var v: int := if start == 1 && s[0] == '-' then -(DigitsValue(digits) as int) else DigitsValue(digits);
      if IsInt32(v) then Some(v) else None
  }

  /** parseIntSafe: the parsed value, or 0 when Integer.parseInt would throw. */
  function ParseIntSafe(s: string): (n: int)
    ensures IsInt32(n)
    ensures ParseInt(s).None? ==> n == 0
    ensures ParseInt(s).Some? ==> n == ParseInt(s).value
  {
    match ParseInt(s)
    case Some(v) => v
    case None => 0
  }

  /** The decimal digits of n, without leading zeros. */
  function NatDigits(n: nat): (s: string)
    ensures |s| >= 1 && AllDigits(s)
  {
    if n < 10 then [('0' as int + n) as char]
    else NatDigits(n / 10) + [('0' as int + n % 10) as char]
  }

  /** Integer.toString(n): the decimal text of n, with '-' in front when negative. */
  function DecimalString(n: int): string {
    if n < 0 then "-" + NatDigits(-n) else NatDigits(n)
  }

  lemma {:induction false} NatDigitsValue(n: nat)
    ensures DigitsValue(NatDigits(n)) == n
  {
    var s := NatDigits(n);
    if n < 10 {
      assert s[..|s| - 1] == [];
    } else {
      assert s[..|s| - 1] == NatDigits(n / 10);
      NatDigitsValue(n / 10);
    }
  }

  /** parseIntSafe reads back every Java int from its decimal text. */
  lemma ParseIntSafeRoundTrip(n: int)
    requires IsInt32(n)
    ensures ParseIntSafe(DecimalString(n)) == n
  {
    var s := DecimalString(n);
    if n < 0 {
      NatDigitsValue(-n);
      assert s[1..] == NatDigits(-n);
    } else {
      NatDigitsValue(n);
    }
  }

  /** Text of a number outside the 32-bit range makes parseIntSafe give 0. */
  lemma ParseIntSafeOutOfRange(n: int)
    requires !IsInt32(n)
    ensures ParseIntSafe(DecimalString(n)) == 0
  {
    var s := DecimalString(n);
    if n < 0 {
      NatDigitsValue(-n);
      assert s[1..] == NatDigits(-n);
    } else {
      NatDigitsValue(n);
    }
  }

  /** The empty text and a sign without digits make parseIntSafe give 0. */
  lemma ParseIntSafeNoDigits()
    ensures ParseIntSafe("") == 0
    ensures ParseIntSafe("-") == 0
    ensures ParseIntSafe("+") == 0
  {
    assert "-"[1..] == "" && "+"[1..] == "";
  }

  /** A leading '+' on a string of digits changes nothing. */
  lemma ParseIntSafePlusSign(d: string)
    requires AllDigits(d)
    ensures ParseIntSafe("+" + d) == ParseIntSafe(d)
  {
    assert ("+" + d)[1..] == d;
  }

  /** A leading '0' adds nothing to the value of a string of digits. */
  lemma {:induction false} DigitsValueLeadingZero(d: string)
    requires AllDigits(d)
    ensures AllDigits("0" + d) && DigitsValue("0" + d) == DigitsValue(d)
    decreases |d|
  {
    var z := "0" + d;
    assert forall i :: 0 <= i < |z| ==> z[i] == if i == 0 then '0' else d[i - 1];
    if |d| == 0 {
      assert z[..|z| - 1] == "";
    } else {
      var p := d[..|d| - 1];
      assert z[..|z| - 1] == "0" + p;
      assert z[|z| - 1] == d[|d| - 1];
      DigitsValueLeadingZero(p);
    }
  }

  /** A leading '0' on a string of digits changes nothing. */
  lemma ParseIntSafeLeadingZero(d: string)
    requires AllDigits(d)
    ensures ParseIntSafe("0" + d) == ParseIntSafe(d)
  {
    DigitsValueLeadingZero(d);
    if |d| == 0 {
      assert ("0" + d)[0] == '0';
    }
  }

  /** After a '-', a leading '0' on a non-empty string of digits changes nothing; "-0" is 0. */
  lemma ParseIntSafeNegativeLeadingZero(d: string)
    requires AllDigits(d) && |d| >= 1
    ensures ParseIntSafe("-0" + d) == ParseIntSafe("-" + d)
    ensures ParseIntSafe("-0") == 0
  {
    DigitsValueLeadingZero(d);
    assert ("-0" + d)[1..] == "0" + d;
    assert ("-" + d)[1..] == d;
    assert "-0"[1..] == "0" && "0"[..0] == "";
  }

  /** A character other than a digit, after an optional leading sign, makes parseIntSafe give 0. */
  lemma ParseIntSafeRejectsNonDigit(s: string, k: nat)
    requires k < |s| && !IsDigit(s[k])
    requires k > 0 || (s[0] != '-' && s[0] != '+')
    ensures ParseIntSafe(s) == 0
  {
    var start := if s[0] == '-' || s[0] == '+' then 1 else 0;
    assert s[start..][k - start] == s[k];
  }
}
