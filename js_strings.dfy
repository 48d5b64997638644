/**
 The few string operations the feature logic uses: `key.split(".")[0]`,
 `s.replace(pattern, "")` with a string pattern, `parseInt(s, 10)` and the
 decimal rendering of a release ordinal in `"release" + i`.
 */
module JsStrings {
  import opened Options

  /** `s.split(".")[0]`: everything before the first `.`, or all of `s`. */
  function FirstSegment(s: string): (r: string)
    ensures |r| <= |s| && r == s[..|r|] && '.' !in r
    ensures |r| < |s| ==> s[|r|] == '.'
  {
    if |s| == 0 || s[0] == '.' then "" else [s[0]] + FirstSegment(s[1..])
  }

  /** A dot-free key is its own first segment. */
  lemma {:induction false} FirstSegmentDotFree(a: string)
    requires '.' !in a
    ensures FirstSegment(a) == a
  {
    if |a| > 0 {
      assert '.' !in a[1..] by {
        forall c | c in a[1..] ensures c != '.' { assert c in a; }
      }
      FirstSegmentDotFree(a[1..]);
    }
  }

  /** The first segment of `a + "." + s` is `a` when `a` has no dot. */
  lemma {:induction false} FirstSegmentDotted(a: string, s: string)
    requires '.' !in a
    ensures FirstSegment(a + "." + s) == a
  {
    if |a| == 0 {
      assert (a + "." + s)[0] == '.';
    } else {
      assert '.' !in a[1..] by {
        forall c | c in a[1..] ensures c != '.' { assert c in a; }
      }
      assert (a + "." + s)[1..] == a[1..] + "." + s;
      FirstSegmentDotted(a[1..], s);
    }
  }

  // ---------------------------------------------------------------------------
  // `s.replace(pattern, replacement)` with a string pattern

  /** `pat` occurs in `s` at position `i`. */
  predicate OccursAt(s: string, pat: string, i: nat) {
    i + |pat| <= |s| && s[i..i + |pat|] == pat
  }

  /** The first position at or after `from` where `pat` occurs in `s`. */
  function FindFrom(s: string, pat: string, from: nat): (r: Option<nat>)
    requires from <= |s|
    ensures r.Some? ==> from <= r.value && OccursAt(s, pat, r.value)
    ensures r.Some? ==> forall i :: from <= i < r.value ==> !OccursAt(s, pat, i)
    ensures r.None? ==> forall i :: from <= i ==> !OccursAt(s, pat, i)
    decreases |s| - from
  {
    if from + |pat| > |s| then None
    else if s[from..from + |pat|] == pat then Some(from)
    else FindFrom(s, pat, from + 1)
  }

  /** Only the first occurrence of `pat` is replaced; without one, `s` is returned unchanged. */
  function ReplaceFirst(s: string, pat: string, rep: string): string {
    match FindFrom(s, pat, 0)
    case None => s
    case Some(i) => s[..i] + rep + s[i + |pat|..]
  }

  // ---------------------------------------------------------------------------
  // Decimal rendering and `parseInt(s, 10)`

  /** The character of a decimal digit. */
  function Digit(d: nat): (c: char)
    requires d < 10
    ensures IsDigit(c) && DigitValue(c) == d
  {
    ('0' as int + d) as char
  }

  /** `c` is one of `0` … `9`. */
  predicate IsDigit(c: char) {
    '0' <= c <= '9'
  }

  /** The value of a decimal digit character. */
  function DigitValue(c: char): nat
    requires IsDigit(c)
  {
    c as int - '0' as int
  }

  /** How a non-negative integer is rendered by `"release" + i` and `` `release${i}` ``: decimal, no leading zeros. */
  function Decimal(n: nat): (s: string)
    ensures |s| >= 1 && forall c :: c in s ==> IsDigit(c)
    ensures s[0] == '0' <==> n == 0
  {
    if n < 10 then [Digit(n)] else Decimal(n / 10) + [Digit(n % 10)]
  }

  /** The value of a string of decimal digits. */
  function DigitsValue(ds: string): nat
    requires forall c :: c in ds ==> IsDigit(c)
  {
    if |ds| == 0 then 0
    else
      assert ds[|ds| - 1] in ds;
      DigitsValue(ds[..|ds| - 1]) * 10 + DigitValue(ds[|ds| - 1])
  }

  /** The longest prefix of `s` made of decimal digits. */
  function LeadingDigits(s: string): (ds: string)
    ensures |ds| <= |s| && ds == s[..|ds|]
    ensures forall c :: c in ds ==> IsDigit(c)
    ensures |ds| < |s| ==> !IsDigit(s[|ds|])
  {
    if |s| == 0 || !IsDigit(s[0]) then "" else [s[0]] + LeadingDigits(s[1..])
  }

  /** The white space and line terminators `parseInt` skips before the number. */
  predicate IsJsWhiteSpace(c: char) {
    c == '\t' || c == '\n' || c == '\U{000B}' || c == '\U{000C}' || c == '\r' || c == ' ' ||
    c == '\U{00A0}' || c == '\U{1680}' || ('\U{2000}' <= c <= '\U{200A}') || c == '\U{2028}' ||
    c == '\U{2029}' || c == '\U{202F}' || c == '\U{205F}' || c == '\U{3000}' || c == '\U{FEFF}'
  }

  /** `s` without its leading white space. */
  function TrimStart(s: string): (t: string)
    ensures |t| <= |s| && t == s[|s| - |t|..]
    ensures |t| > 0 ==> !IsJsWhiteSpace(t[0])
  {
    if |s| > 0 && IsJsWhiteSpace(s[0]) then TrimStart(s[1..]) else s
  }

  /**
   `parseInt(s, 10)`: leading white space is skipped, one optional sign is
   read, then the longest run of decimal digits; `None` is `NaN`, the result
   when that run is empty.
   */
  function ParseInt10(s: string): Option<int> {
    var t := TrimStart(s);
    var negative := |t| > 0 && t[0] == '-';
    var unsigned := if |t| > 0 && (t[0] == '-' || t[0] == '+') then t[1..] else t;
    var ds := LeadingDigits(unsigned);
    if |ds| == 0 then None
    else
      var magnitude: int := DigitsValue(ds);
      Some(if negative then -magnitude else magnitude)
  }

  /** Reading back the digits of `Decimal(n)` gives `n`. */
  lemma {:induction false} DigitsValueDecimal(n: nat)
    ensures DigitsValue(Decimal(n)) == n
  {
    var s := Decimal(n);
    if n >= 10 {
      DigitsValueDecimal(n / 10);
      assert s[..|s| - 1] == Decimal(n / 10);
    }
  }

  /** A string of digits is its own longest digit prefix. */
  lemma {:induction false} LeadingDigitsAll(s: string)
    requires forall c :: c in s ==> IsDigit(c)
    ensures LeadingDigits(s) == s
  {
    if |s| > 0 {
      assert s[0] in s;
      assert forall c :: c in s[1..] ==> c in s;
      LeadingDigitsAll(s[1..]);
    }
  }

  /** A digit is neither white space nor a sign, so `parseInt` starts reading at it. */
  lemma DigitIsNotSpaceOrSign(c: char)
    requires IsDigit(c)
    ensures !IsJsWhiteSpace(c) && c != '-' && c != '+'
  {
  }

  /** `parseInt` inverts the decimal rendering. */
  lemma ParseDecimal(n: nat)
    ensures ParseInt10(Decimal(n)) == Some(n)
  {
    var s := Decimal(n);
    assert s[0] in s;
    DigitIsNotSpaceOrSign(s[0]);
    assert TrimStart(s) == s;
    LeadingDigitsAll(s);
    DigitsValueDecimal(n);
  }

  /** A prefix that is the pattern is the first occurrence, so `replace` drops exactly it. */
  lemma ReplaceLeadingPattern(pat: string, rest: string)
    ensures ReplaceFirst(pat + rest, pat, "") == rest
  {
    var s := pat + rest;
    assert s[0..|pat|] == pat;
    assert FindFrom(s, pat, 0) == Some(0);
    assert s[|pat|..] == rest;
  }
}
