/**
 * Character classes, decimal conversion, zero padding, whitespace stripping
 * and the code-point ordering Python uses for `str`. Only ASCII digits and
 * ASCII case folding are modelled.
 */
module Strings {

  predicate IsDigit(c: char) { '0' <= c <= '9' }

  predicate IsAsciiLetter(c: char) { 'A' <= c <= 'Z' || 'a' <= c <= 'z' }

  predicate IsLowerLetter(c: char) { 'a' <= c <= 'z' }

  /** Python's `str.isspace`: the characters `str.strip()` removes. */
  predicate IsSpace(c: char) {
    || '\t' <= c <= '\r'
    || '\U{1C}' <= c <= ' '
    || c == '\U{85}' || c == '\U{A0}' || c == '\U{1680}'
    || '\U{2000}' <= c <= '\U{200A}'
    || c == '\U{2028}' || c == '\U{2029}' || c == '\U{202F}' || c == '\U{205F}' || c == '\U{3000}'
  }

  predicate AllDigits(s: string) { forall i :: 0 <= i < |s| ==> IsDigit(s[i]) }

  predicate NoDigits(s: string) { forall i :: 0 <= i < |s| ==> !IsDigit(s[i]) }

  function UpperChar(c: char): char {
    if IsLowerLetter(c) then (c as int - 32) as char else c
  }

  function LowerChar(c: char): char {
    if 'A' <= c <= 'Z' then (c as int + 32) as char else c
  }

  /** `str.upper()` restricted to ASCII. */
  function Upper(s: string): string {
    seq(|s|, i requires 0 <= i < |s| => UpperChar(s[i]))
  }

  /** `str.lower()` restricted to ASCII. */
  function Lower(s: string): string {
    seq(|s|, i requires 0 <= i < |s| => LowerChar(s[i]))
  }

  function Repeat(c: char, n: nat): string {
    seq(n, _ => c)
  }

  function DigitValue(c: char): nat
    requires IsDigit(c)
  {
    c as int - '0' as int
  }

  function DigitChar(d: nat): char
    requires d < 10
  {
    ('0' as int + d) as char
  }

  /** Python's `int(s)` for a string of ASCII digits. */
  function DigitsValue(s: string): nat
    requires AllDigits(s)
  {
    if |s| == 0 then 0 else 10 * DigitsValue(s[..|s| - 1]) + DigitValue(s[|s| - 1])
  }

  /** Python's `str(n)` for a non-negative integer: its shortest decimal spelling. */
  function Decimal(n: nat): (r: string)
    ensures |r| >= 1 && AllDigits(r)
    ensures DigitsValue(r) == n
    ensures r[0] == '0' ==> n == 0
  {
    if n < 10 then [DigitChar(n)]
    else
      var hi := Decimal(n / 10);
      assert (hi + [DigitChar(n % 10)])[..|hi|] == hi;
      hi + [DigitChar(n % 10)]
  }

  /** Python's `str(n)` for any integer. */
  function IntString(n: int): (r: string)
    ensures n >= 0 ==> r == Decimal(n)
    ensures n < 0 ==> |r| >= 2 && r[0] == '-' && r[1..] == Decimal(-n)
  {
    if n < 0 then "-" + Decimal(-n) else Decimal(n)
  }

  /** Left-pads `s` with '0' up to `width`; never shortens `s`. */
  function ZeroPad(s: string, width: int): (r: string)
    ensures |r| == if width > |s| then width else |s|
    ensures r[|r| - |s|..] == s
    ensures forall i :: 0 <= i < |r| - |s| ==> r[i] == '0'
  {
    if width > |s| then Repeat('0', width - |s|) + s else s
  }

  /**
   * Python's `format(n, "0{width}d")`: the sign comes first and zeros fill
   * the field up to `width` characters; digits are never dropped.
   */
  function PadInt(n: int, width: int): (r: string)
    ensures n >= 0 ==> AllDigits(r) && DigitsValue(r) == n
    ensures n >= 0 ==> |r| == if width > |Decimal(n)| then width else |Decimal(n)|
    ensures n < 0 ==> |r| >= 2 && r[0] == '-' && AllDigits(r[1..]) && DigitsValue(r[1..]) == -n
  {
    if n < 0 then "-" + PadDigits(-n, width - 1) else PadDigits(n, width)
  }

  /** The zero-padded decimal spelling of a natural number. */
  function PadDigits(n: nat, width: int): (r: string)
    ensures AllDigits(r) && DigitsValue(r) == n && |r| >= 1
    ensures |r| == if width > |Decimal(n)| then width else |Decimal(n)|
  {
    var d := Decimal(n);
    var r := ZeroPad(d, width);
    LeadingZerosValue(r, |r| - |d|);
    assert r[|r| - |d|..] == d;
    r
  }

  /** Leading zeros do not change the value of a digit string. */
  lemma {:induction false} LeadingZerosValue(s: string, k: nat)
    requires AllDigits(s) && k <= |s|
    requires forall i :: 0 <= i < k ==> s[i] == '0'
    ensures DigitsValue(s) == DigitsValue(s[k..])
    decreases |s|
  {
    if k == 0 {
      assert s[k..] == s;
    } else if k == |s| {
      AllZerosValue(s);
    } else {
      var init := s[..|s| - 1];
      LeadingZerosValue(init, k);
      assert init[k..] == s[k..][..|s[k..]| - 1];
    }
  }

  lemma {:induction false} AllZerosValue(s: string)
    requires forall i :: 0 <= i < |s| ==> s[i] == '0'
    ensures AllDigits(s) && DigitsValue(s) == 0
    decreases |s|
  {
    if |s| > 0 {
      AllZerosValue(s[..|s| - 1]);
    }
  }

  /** A digit string without superfluous leading zero is the decimal spelling of its value. */
  lemma {:induction false} CanonicalDigits(d: string)
    requires |d| >= 1 && AllDigits(d)
    requires d[0] != '0' || |d| == 1
    ensures Decimal(DigitsValue(d)) == d
    decreases |d|
  {
    if |d| > 1 {
      var init := d[..|d| - 1];
      var c := d[|d| - 1];
      CanonicalDigits(init);
      PositiveValue(init);
      var n := DigitsValue(d);
      assert n == 10 * DigitsValue(init) + DigitValue(c);
      assert n / 10 == DigitsValue(init) && n % 10 == DigitValue(c);
      assert DigitChar(DigitValue(c)) == c;
      assert d == init + [c];
    }
  }

  lemma {:induction false} PositiveValue(d: string)
    requires |d| >= 1 && AllDigits(d) && d[0] != '0'
    ensures DigitsValue(d) >= 1
    decreases |d|
  {
    if |d| > 1 {
      PositiveValue(d[..|d| - 1]);
    }
  }

  /**
   * Zero-padding the value of a digit string back to the string's own length
   * reproduces the string: the padding restores exactly the leading zeros.
   */
  lemma {:induction false} PadDigitsRoundTrip(d: string)
    requires |d| >= 1 && AllDigits(d)
    ensures PadDigits(DigitsValue(d), |d|) == d
    decreases |d|
  {
    var k := LeadingZeroCount(d);
    LeadingZerosValue(d, k);
    CanonicalDigits(d[k..]);
    assert Decimal(DigitsValue(d)) == d[k..];
    ZeroPadRestores(d, k);
  }

  /** Padding the tail after `k` leading zeros back to the full length restores the string. */
  lemma ZeroPadRestores(d: string, k: nat)
    requires k < |d|
    requires forall i :: 0 <= i < k ==> d[i] == '0'
    ensures ZeroPad(d[k..], |d|) == d
  {
    if k > 0 {
      assert Repeat('0', k) == d[..k];
      assert d[..k] + d[k..] == d;
    }
  }

  /** The number of leading zeros that may be dropped, keeping at least one digit. */
  function LeadingZeroCount(d: string): (k: nat)
    requires |d| >= 1
    ensures k < |d|
    ensures forall i :: 0 <= i < k ==> d[i] == '0'
    ensures d[k] != '0' || k == |d| - 1
  {
    if |d| == 1 || d[0] != '0' then 0
    else
      var k := LeadingZeroCount(d[1..]);
      k + 1
  }

  /** Python's `str.strip()` with no argument. */
  function Strip(s: string): string {
    StripEnd(StripStart(s))
  }

  function StripStart(s: string): (r: string)
    ensures |r| <= |s| && r == s[|s| - |r|..]
    ensures |r| > 0 ==> !IsSpace(r[0])
    ensures forall i :: 0 <= i < |s| - |r| ==> IsSpace(s[i])
  {
    if |s| > 0 && IsSpace(s[0]) then StripStart(s[1..]) else s
  }

  function StripEnd(s: string): (r: string)
    ensures |r| <= |s| && r == s[..|r|]
    ensures |r| > 0 ==> !IsSpace(r[|r| - 1])
    ensures forall i :: |r| <= i < |s| ==> IsSpace(s[i])
  {
    if |s| > 0 && IsSpace(s[|s| - 1]) then StripEnd(s[..|s| - 1]) else s
  }

  /** A text with no surrounding white space is its own `strip()`. */
  lemma StripKeeps(s: string)
    requires |s| > 0 && !IsSpace(s[0]) && !IsSpace(s[|s| - 1])
    ensures Strip(s) == s
  {
    assert StripStart(s) == s;
  }

  /** Python's `s.find(c)`: the first index of `c` in `s`, or -1. */
  function IndexOf(s: string, c: char): (k: int)
    ensures -1 <= k < |s|
    ensures k >= 0 ==> s[k] == c
    ensures forall i :: 0 <= i < |s| && (k < 0 || i < k) ==> s[i] != c
  {
    if |s| == 0 then -1
    else if s[0] == c then 0
    else
      var k := IndexOf(s[1..], c);
      if k < 0 then -1 else k + 1
  }

  /** Python's `s.lstrip(c)` for a single character `c`. */
  function StripLeading(s: string, c: char): (r: string)
    ensures |r| <= |s| && r == s[|s| - |r|..]
    ensures |r| > 0 ==> r[0] != c
    ensures forall i :: 0 <= i < |s| - |r| ==> s[i] == c
  {
    if |s| > 0 && s[0] == c then StripLeading(s[1..], c) else s
  }

  /** Python's `a < b` on strings: lexicographic by code point. */
  predicate StrLt(a: string, b: string) {
    if |a| == 0 then |b| > 0
    else if |b| == 0 then false
    else if a[0] != b[0] then a[0] < b[0]
    else StrLt(a[1..], b[1..])
  }

  predicate StrLe(a: string, b: string) { a == b || StrLt(a, b) }

  lemma {:induction false} StrLtIrreflexive(a: string)
    ensures !StrLt(a, a)
    decreases |a|
  {
    if |a| > 0 {
      StrLtIrreflexive(a[1..]);
    }
  }

  lemma {:induction false} StrLtTransitive(a: string, b: string, c: string)
    requires StrLt(a, b) && StrLt(b, c)
    ensures StrLt(a, c)
    decreases |a|
  {
    if |a| > 0 && a[0] == b[0] && b[0] == c[0] {
      StrLtTransitive(a[1..], b[1..], c[1..]);
    }
  }

  lemma {:induction false} StrLtTotal(a: string, b: string)
    ensures a == b || StrLt(a, b) || StrLt(b, a)
    decreases |a|
  {
    if |a| > 0 && |b| > 0 && a[0] == b[0] {
      StrLtTotal(a[1..], b[1..]);
      if a[1..] == b[1..] {
        assert a == [a[0]] + a[1..] && b == [b[0]] + b[1..];
      }
    }
  }

  lemma StrLtAsymmetric(a: string, b: string)
    requires StrLt(a, b)
    ensures !StrLt(b, a) && a != b
  {
    StrLtIrreflexive(a);
    if StrLt(b, a) {
      StrLtTransitive(a, b, a);
    }
  }

  predicate EndsWith(s: string, suffix: string) {
    |suffix| <= |s| && s[|s| - |suffix|..] == suffix
  }

  /** Python's `sub in s`. */
  predicate Contains(s: string, sub: string) {
    StartsWith(s, sub) || (|s| > 0 && Contains(s[1..], sub))
  }

  predicate StartsWith(s: string, prefix: string) {
    |prefix| <= |s| && s[..|prefix|] == prefix
  }
}
