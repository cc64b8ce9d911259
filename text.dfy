/**
 * The string operations the matcher and the importer rely on: `lower()`,
 * `capitalize()`, `endswith`, the `in` substring test, `split(sep)[0]`,
 * `split(sep)[-1]` and the decimal rendering of an integer in an f-string.
 * Case mapping is modelled on ASCII letters only.
 */
module Text {

  /** Python's `str.lower()` on one character (ASCII letters only). */
  function LowerChar(c: char): char
  {
    if 'A' <= c <= 'Z' then (c as int + 32) as char else c
  }

  /** Python's `str.upper()` on one character (ASCII letters only). */
  function UpperChar(c: char): char
  {
    if 'a' <= c <= 'z' then (c as int - 32) as char else c
  }

  predicate IsUpperAscii(c: char) { 'A' <= c <= 'Z' }

  predicate IsLowerAscii(c: char) { 'a' <= c <= 'z' }

  /** `s.lower()` */
  function Lower(s: string): (r: string)
    ensures |r| == |s|
    ensures forall i :: 0 <= i < |s| ==> !IsUpperAscii(r[i])
    ensures forall i :: 0 <= i < |s| ==> UpperChar(r[i]) == UpperChar(s[i])
  {
    seq(|s|, i requires 0 <= i < |s| => LowerChar(s[i]))
  }

  lemma LowerIdempotent(s: string)
    ensures Lower(Lower(s)) == Lower(s)
  {
    forall i | 0 <= i < |s|
      ensures Lower(Lower(s))[i] == Lower(s)[i]
    {
      assert Lower(s)[i] == LowerChar(s[i]);
    }
  }

  /** Lower-casing commutes with concatenation. */
  lemma LowerAppend(a: string, b: string)
    ensures Lower(a + b) == Lower(a) + Lower(b)
  {
  }

  /**
   * `s.capitalize()`: the first character upper-cased, all the others
   * lower-cased; the empty string stays empty.
   */
  function Capitalize(s: string): (r: string)
    ensures |r| == |s|
    ensures |s| > 0 && IsLowerAscii(s[0]) ==> IsUpperAscii(r[0])
    ensures |s| > 0 && !IsLowerAscii(s[0]) ==> r[0] == s[0]
    ensures forall i :: 1 <= i < |s| ==> r[i] == LowerChar(s[i])
    ensures |s| > 0 ==> !IsLowerAscii(r[0]) && LowerChar(r[0]) == LowerChar(s[0])
  {
    if s == [] then [] else [UpperChar(s[0])] + Lower(s[1..])
  }

  /** `s.endswith(suffix)` */
  predicate EndsWith(s: string, suffix: string): (r: bool)
    ensures r <==> |suffix| <= |s| && forall i :: 0 <= i < |suffix| ==> s[|s| - |suffix| + i] == suffix[i]
  {
    |suffix| <= |s| && s[|s| - |suffix|..] == suffix
  }

  /** A string ending in `suffix` also ends in every tail of `suffix`. */
  lemma EndsWithTail(s: string, suffix: string)
    requires EndsWith(s, suffix) && suffix != []
    ensures EndsWith(s, suffix[1..])
  {
    assert s[|s| - |suffix| + 1..] == s[|s| - |suffix|..][1..];
  }

  /** `needle in s` for strings: is `needle` a contiguous part of `s`? */
  predicate Contains(s: string, needle: string): (r: bool)
    ensures needle == [] ==> r
    ensures r ==> |needle| <= |s|
    decreases |s|
  {
    needle <= s || (s != [] && Contains(s[1..], needle))
  }

  /** The occurrence-at-an-offset reading of substring containment. */
  ghost predicate OccursAt(s: string, needle: string, i: int)
  {
    0 <= i && i + |needle| <= |s| && s[i..i + |needle|] == needle
  }

  lemma TailSlice(s: string, i: int, j: int)
    requires s != [] && 0 <= i <= j <= |s| - 1
    ensures s[1..][i..j] == s[i + 1..j + 1]
  {
  }

  /** `Contains` holds exactly when the needle occurs at some offset. */
  lemma {:induction false} ContainsIffOccurs(s: string, needle: string)
    ensures Contains(s, needle) <==> exists i :: OccursAt(s, needle, i)
    decreases |s|
  {
    if needle <= s {
      assert OccursAt(s, needle, 0);
    } else if s != [] {
      ContainsIffOccurs(s[1..], needle);
      if Contains(s[1..], needle) {
        var i :| OccursAt(s[1..], needle, i);
        TailSlice(s, i, i + |needle|);
        assert OccursAt(s, needle, i + 1);
      }
      forall i | OccursAt(s, needle, i)
        ensures OccursAt(s[1..], needle, i - 1)
      {
        TailSlice(s, i - 1, i - 1 + |needle|);
      }
    }
  }

  /** A needle with a letter the text lacks is not in the text. */
  lemma MissingLetterRulesOutContains(s: string, needle: string, k: int)
    requires 0 <= k < |needle| && needle[k] !in s
    ensures !Contains(s, needle)
  {
    ContainsIffOccurs(s, needle);
    forall i | 0 <= i && i + |needle| <= |s|
      ensures !OccursAt(s, needle, i)
    {
      assert s[i..i + |needle|][k] == s[i + k];
    }
  }

  /**
   * `s.split(sep)[0]`: the text before the first `sep`, or all of `s` when
   * `sep` does not occur.
   */
  function FirstField(s: string, sep: char): (r: string)
    ensures r <= s
    ensures sep !in r
    ensures |r| < |s| ==> s[|r|] == sep
  {
    if s == [] || s[0] == sep then [] else [s[0]] + FirstField(s[1..], sep)
  }

  /**
   * `s.split(sep)[-1]`: the text after the last `sep`, or all of `s` when
   * `sep` does not occur.
   */
  function LastField(s: string, sep: char): (r: string)
    ensures sep !in r
  {
    if s == [] || s[|s| - 1] == sep then [] else LastField(s[..|s| - 1], sep) + [s[|s| - 1]]
  }

  /**
   * The last field is what follows the last `sep`: a suffix of `s`, preceded
   * by `sep` unless it is the whole of `s`.
   */
  lemma LastFieldIsSuffix(s: string, sep: char)
    ensures |LastField(s, sep)| <= |s|
    ensures s[|s| - |LastField(s, sep)|..] == LastField(s, sep)
    ensures |LastField(s, sep)| < |s| ==> s[|s| - |LastField(s, sep)| - 1] == sep
  {
    var k := LastFieldStart(s, sep);
  }

  /** Where the last field starts: just after the last `sep`, or at 0. */
  lemma {:induction false} LastFieldStart(s: string, sep: char) returns (k: nat)
    ensures k <= |s| && s[k..] == LastField(s, sep)
    ensures k > 0 ==> s[k - 1] == sep
  {
    if s == [] || s[|s| - 1] == sep {
      k := |s|;
    } else {
      var n := |s| - 1;
      k := LastFieldStart(s[..n], sep);
      assert s[k..] == s[..n][k..] + [s[n]];
    }
  }

  /** Without any `sep`, the last field is the whole string. */
  lemma {:induction false} LastFieldWithoutSep(s: string, sep: char)
    requires sep !in s
    ensures LastField(s, sep) == s
  {
    if s != [] {
      var n := |s| - 1;
      assert sep !in s[..n];
      LastFieldWithoutSep(s[..n], sep);
      assert s[..n] + [s[n]] == s;
    }
  }

  /** Cutting at the first separator recovers the part written before it. */
  lemma {:induction false} FirstFieldOfJoin(x: string, sep: char, y: string)
    requires sep !in x
    ensures FirstField(x + [sep] + y, sep) == x
  {
    if x != [] {
      FirstFieldOfJoin(x[1..], sep, y);
      assert (x + [sep] + y)[1..] == x[1..] + [sep] + y;
    }
  }

  /** Cutting at the last separator recovers the part written after it. */
  lemma {:induction false} LastFieldOfJoin(x: string, sep: char, y: string)
    requires sep !in y
    ensures LastField(x + [sep] + y, sep) == y
  {
    if y != [] {
      var n := |y| - 1;
      LastFieldOfJoin(x, sep, y[..n]);
      assert (x + [sep] + y)[..|x + [sep] + y| - 1] == x + [sep] + y[..n];
    }
  }

  predicate IsDigit(c: char) { '0' <= c <= '9' }

  /** Every character is a decimal digit. */
  predicate AllDigits(s: string)
  {
    forall i :: 0 <= i < |s| ==> IsDigit(s[i])
  }

  function DigitChar(d: nat): (c: char)
    requires d < 10
    ensures IsDigit(c)
  {
    ('0' as int + d) as char
  }

  /** `n // 10`, by repeated subtraction so that unfolding it stays linear. */
  function Tens(n: nat): (q: nat)
    ensures 10 * q <= n < 10 * q + 10
  {
    if n < 10 then 0 else Tens(n - 10) + 1
  }

  /** The decimal rendering of a natural number, as `f"{n}"` prints it. */
  function Decimal(n: nat): (r: string)
    ensures |r| > 0
    ensures r[0] != '0' || r == "0"
  {
    if n < 10 then [DigitChar(n)] else Decimal(Tens(n)) + [DigitChar(n - 10 * Tens(n))]
  }

  lemma {:induction false} DecimalDigits(n: nat)
    ensures AllDigits(Decimal(n))
  {
    if n >= 10 {
      DecimalDigits(Tens(n));
    }
  }

  /** Reads a string of decimal digits back as a number. */
  function ParseDecimal(s: string): nat
    requires AllDigits(s)
  {
    if s == [] then 0
    else
      var last := s[|s| - 1];
      assert IsDigit(last);
      ParseDecimal(s[..|s| - 1]) * 10 + (last as int - '0' as int)
  }

  lemma {:induction false} ParseDecimalRoundTrip(n: nat)
    ensures AllDigits(Decimal(n)) && ParseDecimal(Decimal(n)) == n
  {
    DecimalDigits(n);
    if n >= 10 {
      var s := Decimal(n);
      assert s[..|s| - 1] == Decimal(Tens(n));
      ParseDecimalRoundTrip(Tens(n));
    } else {
      assert Decimal(n)[..0] == [];
    }
  }

  /** Different numbers print differently. */
  lemma DecimalInjective(m: nat, n: nat)
    requires Decimal(m) == Decimal(n)
    ensures m == n
  {
    ParseDecimalRoundTrip(m);
    ParseDecimalRoundTrip(n);
  }
}
