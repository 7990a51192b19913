/** The string operations the routes rely on: Python's str.strip(),
    str.lower() on ASCII letters, substring search, the code-point order
    MongoDB uses to sort strings, and int() applied to form text. */
module Text {
  import opened Common

  /** Python's str.isspace(): the characters str.strip() and int() discard. */
  predicate IsSpace(c: char) {
    || c == ' '
    || ('\t' <= c <= '\r')               // \t \n \v \f \r
    || ('\U{1C}' <= c <= '\U{1F}')       // file, group, record, unit separators
    || c == '\U{85}' || c == '\U{A0}' || c == '\U{1680}'
    || ('\U{2000}' <= c <= '\U{200A}')
    || c == '\U{2028}' || c == '\U{2029}' || c == '\U{202F}'
    || c == '\U{205F}' || c == '\U{3000}'
  }

  /** The number of whitespace characters `s` starts with. */
  function LeadingSpace(s: string): (n: nat)
    ensures n <= |s|
  {
    if s != [] && IsSpace(s[0]) then 1 + LeadingSpace(s[1..]) else 0
  }

  /** The end of `s` once its trailing whitespace, down to position `lo`, is
      dropped. */
  function TrailingSpaceFrom(s: string, lo: nat): (m: nat)
    requires lo <= |s|
    ensures lo <= m <= |s|
  {
    if |s| > lo && IsSpace(s[|s| - 1]) then TrailingSpaceFrom(s[..|s| - 1], lo) else |s|
  }

  lemma {:induction false} LeadingSpaceSpec(s: string)
    ensures forall k :: 0 <= k < LeadingSpace(s) ==> IsSpace(s[k])
    ensures LeadingSpace(s) < |s| ==> !IsSpace(s[LeadingSpace(s)])
  {
    if s != [] && IsSpace(s[0]) {
      LeadingSpaceSpec(s[1..]);
    }
  }

  lemma {:induction false} TrailingSpaceSpec(s: string, lo: nat)
    requires lo <= |s|
    ensures forall k :: TrailingSpaceFrom(s, lo) <= k < |s| ==> IsSpace(s[k])
    ensures TrailingSpaceFrom(s, lo) > lo ==> !IsSpace(s[TrailingSpaceFrom(s, lo) - 1])
  {
    if |s| > lo && IsSpace(s[|s| - 1]) {
      TrailingSpaceSpec(s[..|s| - 1], lo);
    }
  }

  /** Python's s.strip(). */
  function Trim(s: string): string {
    s[LeadingSpace(s)..TrailingSpaceFrom(s, LeadingSpace(s))]
  }

  /** What strip() promises: the result is a slice of `s` that neither
      starts nor ends with whitespace, and it is empty exactly when `s` is
      all whitespace. */
  lemma TrimSpec(s: string)
    ensures |Trim(s)| <= |s|
    ensures Trim(s) != [] ==> !IsSpace(Trim(s)[0]) && !IsSpace(Trim(s)[|Trim(s)| - 1])
    ensures Trim(s) == [] <==> forall k :: 0 <= k < |s| ==> IsSpace(s[k])
    ensures Occurs(Trim(s), s)
  {
    var n := LeadingSpace(s);
    var m := TrailingSpaceFrom(s, n);
    LeadingSpaceSpec(s);
    TrailingSpaceSpec(s, n);
    assert OccursAt(s[n..m], s, n);
  }

  /** A string with no whitespace at either end is its own strip(). */
  lemma TrimNoop(s: string)
    requires s == [] || (!IsSpace(s[0]) && !IsSpace(s[|s| - 1]))
    ensures Trim(s) == s
  {
    TrimSpec(s);
  }

  /** Stripping twice is stripping once. */
  lemma TrimIdempotent(s: string)
    ensures Trim(Trim(s)) == Trim(s)
  {
    TrimSpec(s);
    TrimNoop(Trim(s));
  }

  /** str.lower() on one character, for ASCII letters. */
  function LowerChar(c: char): (d: char)
    ensures !('A' <= d <= 'Z')
  {
    if 'A' <= c <= 'Z' then (c as int + 32) as char else c
  }

  /** `a` and `b` are the same character, or the same ASCII letter in two
      cases. */
  predicate SameIgnoringCase(a: char, b: char) {
    || a == b
    || ('A' <= a <= 'Z' && b as int == a as int + 32)
    || ('A' <= b <= 'Z' && a as int == b as int + 32)
  }

  /** Lower-casing identifies exactly the characters that differ only in
      ASCII case. */
  lemma LowerCharEqual(a: char, b: char)
    ensures LowerChar(a) == LowerChar(b) <==> SameIgnoringCase(a, b)
  {
  }

  /** A lower-cased character is its own lower case. */
  lemma LowerCharIdempotent(c: char)
    ensures LowerChar(LowerChar(c)) == LowerChar(c)
  {
  }

  /** str.lower() restricted to ASCII letters: same length, each character
      lower-cased on its own. */
  function Lower(s: string): (r: string)
    ensures |r| == |s|
    ensures forall i :: 0 <= i < |s| ==> r[i] == LowerChar(s[i])
  {
    if s == [] then [] else [LowerChar(s[0])] + Lower(s[1..])
  }

  /** Two strings lower-case to the same text exactly when they have the
      same length and agree character by character up to ASCII case: what
      makes "PNG" and "png" the same extension. */
  lemma LowerEqual(s: string, t: string)
    ensures Lower(s) == Lower(t) <==> |s| == |t| && forall i :: 0 <= i < |s| ==> SameIgnoringCase(s[i], t[i])
  {
    if Lower(s) == Lower(t) {
      forall i | 0 <= i < |s| ensures SameIgnoringCase(s[i], t[i]) {
        assert Lower(s)[i] == Lower(t)[i];
        LowerCharEqual(s[i], t[i]);
      }
    }
    if |s| == |t| && forall i :: 0 <= i < |s| ==> SameIgnoringCase(s[i], t[i]) {
      forall i | 0 <= i < |s| ensures Lower(s)[i] == Lower(t)[i] {
        LowerCharEqual(s[i], t[i]);
      }
    }
  }

  /** Lower-casing twice is lower-casing once. */
  lemma LowerIdempotent(s: string)
    ensures Lower(Lower(s)) == Lower(s)
  {
    forall i | 0 <= i < |s| ensures Lower(Lower(s))[i] == Lower(s)[i] {
      LowerCharIdempotent(s[i]);
    }
  }

  /** `sub` occurs in `s` starting at position `i`. */
  predicate OccursAt(sub: string, s: string, i: int) {
    0 <= i && i + |sub| <= |s| && s[i..i + |sub|] == sub
  }

  /** `sub` occurs in `s` at some position. */
  ghost predicate Occurs(sub: string, s: string) {
    exists i :: OccursAt(sub, s, i)
  }

  /** Substring search, scanning `s` from the left. */
  function Contains(s: string, sub: string): (r: bool)
    ensures r <==> Occurs(sub, s)
  {
    if |sub| <= |s| && s[..|sub|] == sub then
      assert OccursAt(sub, s, 0);
      true
    else if s == [] then
      false
    else
      var r := Contains(s[1..], sub);
      OccursShift(sub, s);
      r
  }

  /** Moving the search one character to the right loses nothing when `sub`
      is not a prefix of `s`. */
  lemma OccursShift(sub: string, s: string)
    requires s != [] && !(|sub| <= |s| && s[..|sub|] == sub)
    ensures Occurs(sub, s) <==> Occurs(sub, s[1..])
  {
    if Occurs(sub, s[1..]) {
      var i :| OccursAt(sub, s[1..], i);
      assert s[i + 1..i + 1 + |sub|] == s[1..][i..i + |sub|];
      assert OccursAt(sub, s, i + 1);
    }
    if Occurs(sub, s) {
      var i :| OccursAt(sub, s, i);
      assert s[i..i + |sub|] == s[1..][i - 1..i - 1 + |sub|];
      assert OccursAt(sub, s[1..], i - 1);
    }
  }

  /** Case-insensitive literal substring match (ASCII letters only). */
  predicate ContainsIgnoringCase(s: string, sub: string) {
    Contains(Lower(s), Lower(sub))
  }

  /** The order in which MongoDB sorts two strings: code point by code
      point, a proper prefix first. */
  predicate AtMost(a: string, b: string) {
    a == [] || (b != [] && (a[0] < b[0] || (a[0] == b[0] && AtMost(a[1..], b[1..]))))
  }

  lemma {:induction false} AtMostTotal(a: string, b: string)
    ensures AtMost(a, b) || AtMost(b, a)
  {
    if a != [] && b != [] && a[0] == b[0] {
      AtMostTotal(a[1..], b[1..]);
    }
  }

  lemma {:induction false} AtMostTransitive(a: string, b: string, c: string)
    requires AtMost(a, b) && AtMost(b, c)
    ensures AtMost(a, c)
  {
    if a != [] && a[0] == b[0] && b[0] == c[0] {
      AtMostTransitive(a[1..], b[1..], c[1..]);
    }
  }

  lemma {:induction false} AtMostAntisymmetric(a: string, b: string)
    requires AtMost(a, b) && AtMost(b, a)
    ensures a == b
  {
    if a != [] {
      AtMostAntisymmetric(a[1..], b[1..]);
      assert a == [a[0]] + a[1..] && b == [b[0]] + b[1..];
    }
  }

  // ----- int() on form text -----

  predicate IsDigit(c: char) { '0' <= c <= '9' }

  function DigitValue(c: char): nat
    requires IsDigit(c)
  {
    c as int - '0' as int
  }

  /** The digit strings int() accepts: ASCII digits, with single underscores
      allowed only between two digits. */
  predicate Numeral(s: string) {
    |s| > 0 && forall i :: 0 <= i < |s| ==> NumeralCharAt(s, i)
  }

  predicate NumeralCharAt(s: string, i: nat)
    requires i < |s|
  {
    IsDigit(s[i]) || (s[i] == '_' && 0 < i < |s| - 1 && IsDigit(s[i - 1]) && IsDigit(s[i + 1]))
  }

  /** Every character is a digit or an underscore. */
  predicate DigitsOrUnderscores(s: string) {
    forall i :: 0 <= i < |s| ==> IsDigit(s[i]) || s[i] == '_'
  }

  lemma NumeralDigits(s: string)
    requires Numeral(s)
    ensures DigitsOrUnderscores(s)
  {
    forall i | 0 <= i < |s| ensures IsDigit(s[i]) || s[i] == '_' {
      assert NumeralCharAt(s, i);
    }
  }

  /** The value of a digit string, underscores ignored. */
  function NumeralValue(s: string): nat
    requires DigitsOrUnderscores(s)
  {
    if s == [] then 0
    else if s[|s| - 1] == '_' then NumeralValue(s[..|s| - 1])
    else NumeralValue(s[..|s| - 1]) * 10 + DigitValue(s[|s| - 1])
  }

  /** The number of digits in a string, underscores and other characters
      not counted. */
  function DigitCount(s: string): nat {
    if s == [] then 0
    else DigitCount(s[..|s| - 1]) + (if IsDigit(s[|s| - 1]) then 1 else 0)
  }

  /** CPython's default limit on the digits of a decimal integer that
      int() reads or str() writes (sys.get_int_max_str_digits()); leading
      zeros count. */
  const MaxStrDigits: nat := 4300

  /** A numeral int() reads: one with at most MaxStrDigits digits. */
  predicate ReadableNumeral(s: string) {
    Numeral(s) && DigitCount(s) <= MaxStrDigits
  }

  /** Python's int(s) for a str argument in base 10: surrounding whitespace
      is ignored, one optional sign, then a numeral of at most MaxStrDigits
      digits. None stands for the ValueError int() raises on anything else. */
  function ParseInt(s: string): Option<int> {
    var t := Trim(s);
    if |t| > 0 && (t[0] == '-' || t[0] == '+') then
      if ReadableNumeral(t[1..]) then
        NumeralDigits(t[1..]);
        var v: int := NumeralValue(t[1..]);
        Some(if t[0] == '-' then -v else v)
      else None
    else if ReadableNumeral(t) then
      NumeralDigits(t);
      Some(NumeralValue(t))
    else None
  }

  /** Python's str(n) for a non-negative integer. */
  function NatDigits(n: nat): (r: string)
    ensures |r| > 0 && forall i :: 0 <= i < |r| ==> IsDigit(r[i])
  {
    var d := [(n % 10 + '0' as int) as char];
    if n < 10 then d else NatDigits(n / 10) + d
  }

  function Magnitude(n: int): nat {
    if n < 0 then -n else n
  }

  /** Python's str(n) for any integer. */
  function Decimal(n: int): string {
    if n < 0 then "-" + NatDigits(-n) else NatDigits(n)
  }

  /** str(n) succeeds: the number has at most MaxStrDigits digits
      (otherwise str() raises ValueError too). */
  predicate Printable(n: int) {
    |NatDigits(Magnitude(n))| <= MaxStrDigits
  }

  function Pow10(k: nat): nat {
    if k == 0 then 1 else 10 * Pow10(k - 1)
  }

  /** A number below 10^k has at most k digits. */
  lemma {:induction false} NatDigitsBound(m: nat, k: nat)
    requires k >= 1 && m < Pow10(k)
    ensures |NatDigits(m)| <= k
  {
    if m >= 10 {
      NatDigitsBound(m / 10, k - 1);
    }
  }

  /** 10^19, evaluated by way of 10^9. */
  lemma Pow10Nineteen()
    ensures Pow10(19) == 10_000_000_000_000_000_000
  {
    assert Pow10(9) == 1_000_000_000;
  }

  /** Every 64-bit magnitude, 2^63 included, has at most 19 digits. */
  lemma NineteenDigits(m: nat)
    requires m <= 0x8000_0000_0000_0000
    ensures |NatDigits(m)| <= 19
  {
    Pow10Nineteen();
    NatDigitsBound(m, 19);
  }

  /** The digits of a digit string are all its characters. */
  lemma {:induction false} DigitCountOfDigits(d: string)
    requires forall i :: 0 <= i < |d| ==> IsDigit(d[i])
    ensures DigitCount(d) == |d|
  {
    if d != [] {
      DigitCountOfDigits(d[..|d| - 1]);
    }
  }

  lemma {:induction false} NatDigitsValue(n: nat)
    ensures NumeralValue(NatDigits(n)) == n
  {
    var r := NatDigits(n);
    if n >= 10 {
      NatDigitsValue(n / 10);
      assert r[..|r| - 1] == NatDigits(n / 10);
    }
  }

  /** int(str(n)) == n: every integer str() can print is read back
      unchanged, and the digits of any other are too many for int(). */
  lemma ParseDecimal(n: int)
    ensures ParseInt(Decimal(n)) == if Printable(n) then Some(n) else None
  {
    var m := Magnitude(n);
    var d := NatDigits(m);
    NatDigitsValue(m);
    DigitsAreNumeral(d);
    DigitCountOfDigits(d);
    if n < 0 {
      if Printable(n) { ParseSigned(d); } else { TooManyDigitsRefused(d); }
    } else {
      if Printable(n) { ParseUnsigned(d); } else { TooManyDigitsRefused(d); }
    }
  }

  lemma DigitsAreNumeral(d: string)
    requires |d| > 0 && forall i :: 0 <= i < |d| ==> IsDigit(d[i])
    ensures Numeral(d)
  {
    forall i | 0 <= i < |d| ensures NumeralCharAt(d, i) {
      assert IsDigit(d[i]);
    }
  }

  /** A numeral starts and ends with a digit: underscores sit only between
      digits. */
  lemma NumeralEnds(d: string)
    requires Numeral(d)
    ensures IsDigit(d[0]) && IsDigit(d[|d| - 1])
  {
    assert NumeralCharAt(d, 0) && NumeralCharAt(d, |d| - 1);
  }

  lemma ParseUnsigned(d: string)
    requires ReadableNumeral(d)
    ensures DigitsOrUnderscores(d) && ParseInt(d) == Some(NumeralValue(d) as int)
  {
    NumeralDigits(d);
    NumeralEnds(d);
    TrimNoop(d);
  }

  lemma ParseSigned(d: string)
    requires ReadableNumeral(d)
    ensures DigitsOrUnderscores(d) && ParseInt("-" + d) == Some(-(NumeralValue(d) as int))
  {
    NumeralDigits(d);
    NumeralEnds(d);
    var s := "-" + d;
    assert s[|s| - 1] == d[|d| - 1];
    TrimNoop(s);
    assert s[1..] == d;
  }

  /** A numeral of more than MaxStrDigits digits is refused, signed or not,
      however small its value: "0" * 4300 + "5" is a ValueError. */
  lemma TooManyDigitsRefused(d: string)
    requires Numeral(d) && DigitCount(d) > MaxStrDigits
    ensures ParseInt(d) == None && ParseInt("-" + d) == None && ParseInt("+" + d) == None
  {
    NumeralEnds(d);
    TrimNoop(d);
    var s := "-" + d;
    assert s[|s| - 1] == d[|d| - 1];
    TrimNoop(s);
    assert s[1..] == d;
    var p := "+" + d;
    assert p[|p| - 1] == d[|d| - 1];
    TrimNoop(p);
    assert p[1..] == d;
  }

  /** int() ignores surrounding whitespace, so a capacity is read the same
      with or without it. */
  lemma ParseIgnoresSpace(s: string)
    ensures ParseInt(Trim(s)) == ParseInt(s)
  {
    TrimIdempotent(s);
  }
}
