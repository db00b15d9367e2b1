/**
 * The small part of Python's text handling the generators and readers rely
 * on: `str.split`, `str.strip`, `int(...)`, `float(...)` on decimal text,
 * `"%d"` and `"%f"`.  A line is the text between two line terminators.
 */
module PyText {
  import opened Outcomes

  predicate IsDigit(c: char) { '0' <= c <= '9' }

  predicate IsSpace(c: char) { c == ' ' || c == '\t' || c == '\n' || c == '\r' || c == '\U{000B}' || c == '\U{000C}' }

  predicate AllDigits(s: string) { forall i :: 0 <= i < |s| ==> IsDigit(s[i]) }

  function DigitValue(c: char): (d: nat)
    requires IsDigit(c)
    ensures d < 10
  {
    (c as int - '0' as int)
  }

  function DigitChar(d: nat): (c: char)
    requires d < 10
    ensures IsDigit(c) && DigitValue(c) == d
  {
    (d + '0' as int) as char
  }

  function Pow10(n: nat): (p: nat)
    ensures p >= 1
  {
    if n == 0 then 1 else 10 * Pow10(n - 1)
  }

  // ---------------------------------------------------------------- split

  /** `s.split(sep)`: the pieces of `s` between occurrences of `sep`. */
  function Split(s: string, sep: char): (r: seq<string>)
    ensures |r| >= 1
    ensures forall k, i :: 0 <= k < |r| && 0 <= i < |r[k]| ==> r[k][i] != sep
  {
    if |s| == 0 then [""]
    else
      var rest := Split(s[1..], sep);
      if s[0] == sep then [""] + rest else [[s[0]] + rest[0]] + rest[1..]
  }

  /** `sep.join(parts)`. */
  function Join(parts: seq<string>, sep: char): string
    requires |parts| >= 1
  {
    if |parts| == 1 then parts[0] else parts[0] + [sep] + Join(parts[1..], sep)
  }

  predicate Free(s: string, sep: char) { forall i :: 0 <= i < |s| ==> s[i] != sep }

  lemma {:induction false} SplitConsFree(s: string, t: string, sep: char)
    requires Free(s, sep)
    ensures Split(s + t, sep) == [s + Split(t, sep)[0]] + Split(t, sep)[1..]
    decreases |s|
  {
    if |s| > 0 {
      SplitConsFree(s[1..], t, sep);
      assert (s + t)[1..] == s[1..] + t;
      assert [s[0]] + (s[1..] + Split(t, sep)[0]) == s + Split(t, sep)[0];
    } else {
      assert s + t == t;
      assert s + Split(t, sep)[0] == Split(t, sep)[0];
      assert [Split(t, sep)[0]] + Split(t, sep)[1..] == Split(t, sep);
    }
  }

  /** Splitting what was joined gives the parts back when no part holds the separator. */
  lemma {:induction false} SplitJoin(parts: seq<string>, sep: char)
    requires |parts| >= 1
    requires forall k :: 0 <= k < |parts| ==> Free(parts[k], sep)
    ensures Split(Join(parts, sep), sep) == parts
    decreases |parts|
  {
    if |parts| == 1 {
      SplitConsFree(parts[0], "", sep);
      assert parts[0] + "" == parts[0];
    } else {
      var tail := Join(parts[1..], sep);
      SplitJoin(parts[1..], sep);
      assert Join(parts, sep) == parts[0] + ([sep] + tail);
      SplitConsFree(parts[0], [sep] + tail, sep);
      assert ([sep] + tail)[1..] == tail;
      assert Split([sep] + tail, sep) == [""] + parts[1..];
      assert parts[0] + "" == parts[0];
    }
  }

  // ---------------------------------------------------------------- strip

  function StripLeft(s: string): (r: string)
    ensures |r| == 0 || !IsSpace(r[0])
    ensures |r| <= |s| && r == s[|s| - |r|..]
  {
    if |s| > 0 && IsSpace(s[0]) then StripLeft(s[1..]) else s
  }

  function StripRight(s: string): (r: string)
    ensures |r| == 0 || !IsSpace(r[|r| - 1])
    ensures |r| <= |s| && r == s[..|r|]
  {
    if |s| > 0 && IsSpace(s[|s| - 1]) then StripRight(s[..|s| - 1]) else s
  }

  /** `s.strip()`: `s` without leading and trailing white space. */
  function Strip(s: string): string
  {
    StripRight(StripLeft(s))
  }

  lemma StripUnpadded(s: string)
    requires |s| > 0 ==> !IsSpace(s[0]) && !IsSpace(s[|s| - 1])
    ensures Strip(s) == s
  {
    assert StripLeft(s) == s;
    assert StripRight(s) == s;
  }

  lemma StripDigits(s: string)
    requires AllDigits(s)
    ensures Strip(s) == s
  {
    if |s| > 0 {
      assert !IsSpace(s[0]) && !IsSpace(s[|s| - 1]);
    }
    StripUnpadded(s);
  }

  // ---------------------------------------------------------------- decimal numbers

  /** The value of a string of decimal digits, most significant first. */
  function NatValue(s: string): nat
    requires AllDigits(s)
  {
    if |s| == 0 then 0 else 10 * NatValue(s[..|s| - 1]) + DigitValue(s[|s| - 1])
  }

  /** `"%d"` of a natural number: its shortest decimal text. */
  function NatToString(n: nat): (s: string)
    ensures |s| >= 1 && AllDigits(s)
  {
    if n < 10 then [DigitChar(n)] else NatToString(n / 10) + [DigitChar(n % 10)]
  }

  lemma {:induction false} NatToStringValue(n: nat)
    ensures NatValue(NatToString(n)) == n
  {
    var s := NatToString(n);
    if n >= 10 {
      NatToStringValue(n / 10);
      assert s[..|s| - 1] == NatToString(n / 10);
    }
  }

  predicate AllZeros(s: string) { forall i :: 0 <= i < |s| ==> s[i] == '0' }

  function Zeros(n: nat): (s: string)
    ensures |s| == n && AllDigits(s) && AllZeros(s)
  {
    if n == 0 then "" else "0" + Zeros(n - 1)
  }

  lemma {:induction false} ZerosValue(z: string)
    requires AllZeros(z)
    ensures AllDigits(z) && NatValue(z) == 0
  {
    if |z| > 0 {
      ZerosValue(z[..|z| - 1]);
    }
  }

  /** Leading zeros do not change the value of a digit string. */
  lemma {:induction false} LeadingZerosValue(z: string, d: string)
    requires AllZeros(z) && AllDigits(d)
    ensures AllDigits(z + d) && NatValue(z + d) == NatValue(d)
    decreases |d|
  {
    var c := z + d;
    assert AllDigits(c);
    if |d| > 0 {
      assert c[..|c| - 1] == z + d[..|d| - 1];
      assert c[|c| - 1] == d[|d| - 1];
      LeadingZerosValue(z, d[..|d| - 1]);
    } else {
      assert c == z;
      ZerosValue(z);
    }
  }

  lemma {:induction false} NatToStringLength(n: nat, k: nat)
    requires n < Pow10(k)
    ensures |NatToString(n)| <= k || (n == 0 && k == 0)
  {
    if n >= 10 {
      assert k >= 1;
      NatToStringLength(n / 10, k - 1);
    }
  }

  /** The six fraction digits of `"%f"`: `n` padded with leading zeros. */
  function Pad6(n: nat): (s: string)
    requires n < 1000000
    ensures |s| == 6 && AllDigits(s) && NatValue(s) == n
  {
    var d := NatToString(n);
    assert Pow10(6) == 1000000;
    NatToStringLength(n, 6);
    NatToStringValue(n);
    LeadingZerosValue(Zeros(6 - |d|), d);
    Zeros(6 - |d|) + d
  }

  /** `"%d"` of an integer. */
  function IntToString(i: int): string
  {
    if i < 0 then "-" + NatToString(-i) else NatToString(i)
  }

  /** The sign and digits of `int(...)`/`float(...)` after stripping. */
  function SignOf(t: string): (r: (bool, string))
    ensures |r.1| <= |t|
  {
    if |t| > 0 && t[0] == '-' then (true, t[1..])
    else if |t| > 0 && t[0] == '+' then (false, t[1..])
    else (false, t)
  }

  /** An optional sign and at least one digit, with no surrounding space. */
  function ParseSignedInt(t: string): Option<int>
  {
    var sd := SignOf(t);
    if |sd.1| > 0 && AllDigits(sd.1) then var v: int := NatValue(sd.1); Some(if sd.0 then -v else v) else None
  }

  /**
   * `int(s)` on decimal text: optional white space, an optional sign and at
   * least one digit; anything else raises (None here).
   */
  function ParseInt(s: string): Option<int>
  {
    ParseSignedInt(Strip(s))
  }

  lemma IntToStringUnpadded(i: int)
    ensures Strip(IntToString(i)) == IntToString(i)
  {
    var s := IntToString(i);
    if i < 0 {
      var d := NatToString(-i);
      assert s[|s| - 1] == d[|d| - 1];
    }
    StripUnpadded(s);
  }

  lemma ParseIntOfIntToString(i: int)
    ensures ParseInt(IntToString(i)) == Some(i)
  {
    IntToStringUnpadded(i);
    var n: nat := if i < 0 then -i else i;
    var d := NatToString(n);
    NatToStringValue(n);
    if i < 0 {
      assert ("-" + d)[1..] == d;
      assert SignOf("-" + d) == (true, d);
    } else {
      assert SignOf(d) == (false, d);
    }
  }

  // ---------------------------------------------------------------- float(...)

  function DotIndex(m: string): (k: nat)
    ensures k <= |m|
    ensures forall i :: 0 <= i < k ==> m[i] != '.'
    ensures k < |m| ==> m[k] == '.'
  {
    if |m| == 0 then 0 else if m[0] == '.' then 0 else 1 + DotIndex(m[1..])
  }

  function IntegerPart(m: string): string
  {
    m[..DotIndex(m)]
  }

  function FractionPart(m: string): string
  {
    if DotIndex(m) < |m| then m[DotIndex(m) + 1..] else ""
  }

  /** Digits with at most one decimal point and at least one digit. */
  predicate WellFormedMantissa(m: string)
  {
    AllDigits(IntegerPart(m)) && AllDigits(FractionPart(m)) && |IntegerPart(m)| + |FractionPart(m)| > 0
  }

  function MantissaValue(m: string): real
    requires WellFormedMantissa(m)
  {
    (NatValue(IntegerPart(m)) as real) + (NatValue(FractionPart(m)) as real) / (Pow10(|FractionPart(m)|) as real)
  }

  function ParseSignedFloat(t: string): Option<real>
  {
    var sm := SignOf(t);
    if WellFormedMantissa(sm.1) then Some(if sm.0 then -MantissaValue(sm.1) else MantissaValue(sm.1)) else None
  }

  /**
   * `float(s)` on decimal text: optional white space and sign, then digits
   * with at most one decimal point and at least one digit.
   */
  function ParseFloat(s: string): Option<real>
  {
    ParseSignedFloat(Strip(s))
  }

  lemma {:induction false} DotIndexAfterDigits(a: string, rest: string)
    requires AllDigits(a)
    ensures DotIndex(a + rest) == |a| + DotIndex(rest)
    decreases |a|
  {
    if |a| > 0 {
      assert (a + rest)[1..] == a[1..] + rest;
      DotIndexAfterDigits(a[1..], rest);
    } else {
      assert a + rest == rest;
    }
  }

  /** The parts of `a.b` when `a` is all digits and `b` has no point. */
  lemma MantissaParts(a: string, b: string)
    requires AllDigits(a) && AllDigits(b)
    ensures IntegerPart(a + "." + b) == a && FractionPart(a + "." + b) == b
  {
    var m := a + "." + b;
    assert m == a + ("." + b);
    DotIndexAfterDigits(a, "." + b);
    assert DotIndex("." + b) == 0;
    assert m[..|a|] == a;
    assert m[|a| + 1..] == b;
  }

  // ---------------------------------------------------------------- "%f"

  /**
   * The number of millionths `"%f"` prints for a non-negative value: the
   * nearest one, and on an exact half the even one, as the correctly
   * rounded formatting of CPython and glibc does.
   */
  function Micros(r: real): (u: nat)
    requires r >= 0.0
    ensures (u as real) - 0.5 <= r * 1000000.0 <= (u as real) + 0.5
    ensures r * 1000000.0 == (u as real) - 0.5 || r * 1000000.0 == (u as real) + 0.5 ==> u % 2 == 0
  {
    var f := (r * 1000000.0).Floor;
    var d := r * 1000000.0 - f as real;
    if d < 0.5 || (d == 0.5 && f % 2 == 0) then f else f + 1
  }

  /**
   * `v` is `x` rounded to six decimals: a whole number of millionths within
   * half a millionth of `x`, and an even number of them on an exact tie.
   */
  predicate SixDecimalRounding(x: real, v: real)
  {
    var m := v * 1000000.0;
    && m.Floor as real == m
    && m - 0.5 <= x * 1000000.0 <= m + 0.5
    && (x * 1000000.0 == m - 0.5 || x * 1000000.0 == m + 0.5 ==> m.Floor % 2 == 0)
  }

  /** At most one number is `x` rounded to six decimals. */
  lemma SixDecimalRoundingUnique(x: real, v1: real, v2: real)
    requires SixDecimalRounding(x, v1) && SixDecimalRounding(x, v2)
    ensures v1 == v2
  {
    var a, b := (v1 * 1000000.0).Floor, (v2 * 1000000.0).Floor;
    if a < b {
      assert false;
    } else if b < a {
      assert false;
    }
    assert v1 * 1000000.0 == v2 * 1000000.0;
  }

  /** Micros and its negation round r and -r to six decimals. */
  lemma MicrosRounding(r: real)
    requires r >= 0.0
    ensures SixDecimalRounding(r, (Micros(r) as real) / 1000000.0)
    ensures SixDecimalRounding(-r, -((Micros(r) as real) / 1000000.0))
  {
    var u := Micros(r);
    assert ((u as real) / 1000000.0) * 1000000.0 == u as real;
    assert (-((u as real) / 1000000.0)) * 1000000.0 == -(u as real);
    assert (-r) * 1000000.0 == -(r * 1000000.0);
    assert (-(u as real)).Floor == -(u as int);
  }

  /** The value that `"%f"` of `r` denotes: `r` rounded to six decimals. */
  function Fixed6(r: real): (v: real)
    ensures -0.0000005 <= v - r <= 0.0000005
  {
    if r >= 0.0 then (Micros(r) as real) / 1000000.0 else -((Micros(-r) as real) / 1000000.0)
  }

  /** `"%f"` rounds to six decimals with an exact tie going to the even millionth, and that rule fixes the printed value. */
  lemma Fixed6Rounds(r: real, v: real)
    ensures SixDecimalRounding(r, Fixed6(r))
    ensures SixDecimalRounding(r, v) ==> Fixed6(r) == v
  {
    if r >= 0.0 {
      MicrosRounding(r);
    } else {
      MicrosRounding(-r);
    }
    if SixDecimalRounding(r, v) {
      SixDecimalRoundingUnique(r, Fixed6(r), v);
    }
  }

  /** Exact ties go to the even millionth: 7812.5 millionths print as 0.007812, 23437.5 as 0.023438. */
  lemma Fixed6TiesToEven()
    ensures Fixed6(0.0078125) == 0.007812 && Fixed6(-0.0078125) == -0.007812
    ensures Fixed6(0.0234375) == 0.023438
  {
    assert Micros(0.0078125) == 7812 by {
      assert 0.0078125 * 1000000.0 == 7812.5;
    }
    assert Micros(0.0234375) == 23438 by {
      assert 0.0234375 * 1000000.0 == 23437.5;
    }
  }

  function Fixed6Magnitude(r: real): string
    requires r >= 0.0
  {
    var u := Micros(r);
    NatToString(u / 1000000) + "." + Pad6(u % 1000000)
  }

  /** `"%f" % r`. */
  function Fixed6Text(r: real): string
  {
    if r >= 0.0 then Fixed6Magnitude(r) else "-" + Fixed6Magnitude(-r)
  }

  lemma MicrosSplit(u: nat)
    ensures ((u / 1000000) as real) + ((u % 1000000) as real) / 1000000.0 == (u as real) / 1000000.0
  {
    var q, f := u / 1000000, u % 1000000;
    assert u == q * 1000000 + f;
    assert (u as real) == (q as real) * 1000000.0 + (f as real);
  }

  lemma Fixed6MagnitudeParses(r: real)
    requires r >= 0.0
    ensures WellFormedMantissa(Fixed6Magnitude(r)) && MantissaValue(Fixed6Magnitude(r)) == Fixed6(r)
    ensures |Fixed6Magnitude(r)| > 0 && IsDigit(Fixed6Magnitude(r)[0]) && IsDigit(Fixed6Magnitude(r)[|Fixed6Magnitude(r)| - 1])
  {
    var u := Micros(r);
    var a := NatToString(u / 1000000);
    var b := Pad6(u % 1000000);
    MantissaParts(a, b);
    NatToStringValue(u / 1000000);
    assert Pow10(6) == 1000000;
    MicrosSplit(u);
  }

  lemma Fixed6TextUnpadded(r: real)
    ensures Strip(Fixed6Text(r)) == Fixed6Text(r)
  {
    if r >= 0.0 {
      Fixed6MagnitudeParses(r);
      StripUnpadded(Fixed6Magnitude(r));
    } else {
      var m := Fixed6Magnitude(-r);
      Fixed6MagnitudeParses(-r);
      var s := "-" + m;
      assert s[0] == '-' && s[|s| - 1] == m[|m| - 1];
      StripUnpadded(s);
    }
  }

  lemma ParseSignedFloatOfMantissa(m: string)
    requires WellFormedMantissa(m) && |m| > 0 && IsDigit(m[0])
    ensures ParseSignedFloat(m) == Some(MantissaValue(m))
    ensures ParseSignedFloat("-" + m) == Some(-MantissaValue(m))
  {
    assert SignOf(m) == (false, m);
    assert ("-" + m)[1..] == m;
    assert SignOf("-" + m) == (true, m);
  }

  /** Reading back what `"%f"` wrote gives the value rounded to six decimals. */
  lemma ParseFloatOfFixed6Text(r: real)
    requires r >= 0.0
    ensures ParseFloat(Fixed6Text(r)) == Some(Fixed6(r))
  {
    Fixed6TextUnpadded(r);
    Fixed6MagnitudeParses(r);
    ParseSignedFloatOfMantissa(Fixed6Magnitude(r));
  }

  /** A value with at most six decimals survives `"%f"` unchanged. */
  lemma Fixed6OfMicros(u: int)
    ensures Fixed6((u as real) / 1000000.0) == (u as real) / 1000000.0
  {
    var r := (u as real) / 1000000.0;
    if u >= 0 {
      assert r * 1000000.0 == u as real;
      assert Micros(r) == u;
    } else {
      assert (-r) * 1000000.0 == (-u) as real;
      assert Micros(-r) == -u;
    }
  }
}
