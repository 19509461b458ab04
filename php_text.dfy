/**
 * The handful of PHP runtime string and number primitives that the core
 * relies on: decimal rendering of integers, `trim`, `empty`, `is_numeric`,
 * `strtolower`, `strlen` (a byte count) and WordPress's `absint`.
 */
module PhpText {

  // ---------------------------------------------------------------------------
  // Decimal rendering of term ids ("{$term->term_id}")

  predicate IsDigit(c: char) { '0' <= c <= '9' }

  function DigitChar(d: nat): (c: char)
    requires d < 10
    ensures IsDigit(c)
  {
    (('0' as int) + d) as char
  }

  function DigitValue(c: char): nat
    requires IsDigit(c)
  {
    (c as int - '0' as int) as nat
  }

  /** The decimal digits of `n`, without leading zeros. */
  function NatToString(n: nat): (s: string)
    ensures |s| > 0
    ensures forall i :: 0 <= i < |s| ==> IsDigit(s[i])
    decreases n
  {
    if n < 10 then [DigitChar(n)] else NatToString(n / 10) + [DigitChar(n % 10)]
  }

  /** Reads a string of decimal digits back as a number. */
  function ParseDigits(s: string): nat
    requires forall i :: 0 <= i < |s| ==> IsDigit(s[i])
    decreases |s|
  {
    if s == [] then 0 else 10 * ParseDigits(s[..|s| - 1]) + DigitValue(s[|s| - 1])
  }

  /** Rendering a number and reading it back gives the number. */
  lemma {:induction false} ParseNatToString(n: nat)
    ensures ParseDigits(NatToString(n)) == n
    decreases n
  {
    var s := NatToString(n);
    if n >= 10 {
      ParseNatToString(n / 10);
      assert s[..|s| - 1] == NatToString(n / 10);
    }
  }

  /** Distinct numbers render as distinct strings. */
  lemma NatToStringInjective(a: nat, b: nat)
    ensures NatToString(a) == NatToString(b) ==> a == b
  {
    ParseNatToString(a);
    ParseNatToString(b);
  }

  /** PHP's string interpolation of an integer. */
  function IntToString(i: int): (s: string)
    ensures i >= 0 ==> s == NatToString(i)
    ensures i < 0 ==> s == "-" + NatToString(-i)
  {
    if i < 0 then "-" + NatToString(-i) else NatToString(i)
  }

  // ---------------------------------------------------------------------------
  // trim() and empty()

  /** The characters PHP's `trim` strips by default: space, tab, LF, CR, NUL, vertical tab. */
  predicate IsTrimmed(c: char) {
    c == ' ' || c == '\t' || c == '\n' || c == '\r' || c == '\0' || c == '\U{B}'
  }

  /** Number of trimmable characters at the front of `s`. */
  function LeadLength(s: string): (n: nat)
    ensures n <= |s|
    ensures forall i :: 0 <= i < n ==> IsTrimmed(s[i])
    ensures n < |s| ==> !IsTrimmed(s[n])
    decreases |s|
  {
    if s != [] && IsTrimmed(s[0]) then 1 + LeadLength(s[1..]) else 0
  }

  /** Number of trimmable characters at the back of `s`. */
  function TailLength(s: string): (n: nat)
    ensures n <= |s|
    ensures forall i :: |s| - n <= i < |s| ==> IsTrimmed(s[i])
    ensures n < |s| ==> !IsTrimmed(s[|s| - 1 - n])
    decreases |s|
  {
    if s != [] && IsTrimmed(s[|s| - 1]) then 1 + TailLength(s[..|s| - 1]) else 0
  }

  /**
   * PHP `trim($s)`: the slice of `s` left after removing trimmable characters
   * at both ends; it neither starts nor ends with one.
   */
  function Trim(s: string): (r: string)
    ensures r != [] ==> !IsTrimmed(r[0]) && !IsTrimmed(r[|r| - 1])
    ensures LeadLength(s) + |r| <= |s| && r == s[LeadLength(s)..LeadLength(s) + |r|]
    ensures forall i :: 0 <= i < |s| && !(LeadLength(s) <= i < LeadLength(s) + |r|) ==> IsTrimmed(s[i])
  {
    var n := LeadLength(s);
    if n == |s| then []
    else s[n..|s| - TailLength(s)]
  }

  /** Trimming twice is trimming once. */
  lemma TrimIdempotent(s: string)
    ensures Trim(Trim(s)) == Trim(s)
  {
    var t := Trim(s);
    if t != [] {
      assert LeadLength(t) == 0;
      assert TailLength(t) == 0;
      assert t[0..|t|] == t;
    }
  }

  /** A string trims to nothing exactly when every character of it is trimmable. */
  lemma TrimEmptyIff(s: string)
    ensures Trim(s) == "" <==> forall i :: 0 <= i < |s| ==> IsTrimmed(s[i])
  {
    var r := Trim(s);
    if r != "" {
      assert r[0] == s[LeadLength(s)];
    }
  }

  /** Whether `s` has a character `trim` keeps, i.e. `trim($s) !== ''`. */
  predicate HasVisibleChar(s: string) {
    exists i :: 0 <= i < |s| && !IsTrimmed(s[i])
  }

  /** PHP `empty($s)` for a string: the empty string and "0" are empty. */
  predicate PhpEmpty(s: string) {
    s == "" || s == "0"
  }

  // ---------------------------------------------------------------------------
  // is_numeric()

  /** The whitespace PHP 8 accepts around a numeric string. */
  predicate IsNumericSpace(c: char) {
    c == ' ' || c == '\t' || c == '\n' || c == '\r' || c == '\U{B}' || c == '\U{C}'
  }

  /** The first index at or after `i` that does not hold a decimal digit. */
  function SkipDigits(s: string, i: nat): (r: nat)
    requires i <= |s|
    ensures i <= r <= |s|
    ensures forall k :: i <= k < r ==> IsDigit(s[k])
    ensures r == |s| || !IsDigit(s[r])
    decreases |s| - i
  {
    if i < |s| && IsDigit(s[i]) then SkipDigits(s, i + 1) else i
  }

  function SkipSpaces(s: string, i: nat): (r: nat)
    requires i <= |s|
    ensures i <= r <= |s|
    ensures forall k :: i <= k < r ==> IsNumericSpace(s[k])
    ensures r == |s| || !IsNumericSpace(s[r])
    decreases |s| - i
  {
    if i < |s| && IsNumericSpace(s[i]) then SkipSpaces(s, i + 1) else i
  }

  /** An optional exponent tail `[eE][+-]?[0-9]+` running from `i` to `j`, then only spaces. */
  predicate ExponentTail(s: string, i: nat)
    requires i <= |s|
  {
    var p := if i < |s| && (s[i] == '+' || s[i] == '-') then i + 1 else i;
    var q := SkipDigits(s, p);
    q > p && SkipSpaces(s, q) == |s|
  }

  /**
   * PHP 8 `is_numeric` on a string: optional surrounding whitespace, an optional
   * sign, a decimal mantissa with at least one digit (`12`, `1.5`, `.5`, `3.`),
   * then an optional exponent (`1e3`). Hexadecimal and other forms are not numeric.
   */
  predicate IsNumeric(s: string) {
    var start := SkipSpaces(s, 0);
    var i := if start < |s| && (s[start] == '+' || s[start] == '-') then start + 1 else start;
    var j := SkipDigits(s, i);
    var k := if j < |s| && s[j] == '.' then SkipDigits(s, j + 1) else j;
    var mantissaDigits := (j - i) + (if k > j then k - j - 1 else 0);
    && mantissaDigits > 0
    && (SkipSpaces(s, k) == |s|
        || (k < |s| && (s[k] == 'e' || s[k] == 'E') && ExponentTail(s, k + 1)))
  }

  /** `10^n`. */
  function Pow10(n: nat): (r: nat)
    ensures r >= 1
  {
    if n == 0 then 1 else 10 * Pow10(n - 1)
  }

  /** The decimal digits of `s` from `i` up to `j`, read as a number. */
  function DigitsValue(s: string, i: nat, j: nat): nat
    requires i <= j <= |s| && forall k :: i <= k < j ==> IsDigit(s[k])
  {
    ParseDigits(s[i..j])
  }

  /**
   * The number a numeric string denotes: its sign, whole digits, fraction
   * digits and exponent, read exactly (PHP reads a non-integer form into a
   * double).
   */
  function NumericValue(s: string): real
    requires IsNumeric(s)
  {
    var start := SkipSpaces(s, 0);
    var negative := start < |s| && s[start] == '-';
    var i := if start < |s| && (s[start] == '+' || s[start] == '-') then start + 1 else start;
    var j := SkipDigits(s, i);
    var k := if j < |s| && s[j] == '.' then SkipDigits(s, j + 1) else j;
    var whole := DigitsValue(s, i, j) as real;
    var fraction := if k > j then DigitsValue(s, j + 1, k) as real / Pow10(k - j - 1) as real else 0.0;
    var magnitude := whole + fraction;
    var signed := if negative then -magnitude else magnitude;
    if SkipSpaces(s, k) == |s| then signed
    else
      var p := if k + 1 < |s| && (s[k + 1] == '+' || s[k + 1] == '-') then k + 2 else k + 1;
      var e := DigitsValue(s, p, SkipDigits(s, p));
      if k + 1 < |s| && s[k + 1] == '-' then signed / Pow10(e) as real else signed * Pow10(e) as real
  }

  /** `z` zero digits. */
  function Zeros(z: nat): (r: string)
    ensures |r| == z && forall i :: 0 <= i < z ==> r[i] == '0'
  {
    seq(z, _ => '0')
  }

  /** A leading zero does not change the number a run of digits denotes. */
  lemma {:induction false} ParseDigitsLeadingZero(s: string)
    requires forall i :: 0 <= i < |s| ==> IsDigit(s[i])
    ensures forall i :: 0 <= i < |"0" + s| ==> IsDigit(("0" + s)[i])
    ensures ParseDigits("0" + s) == ParseDigits(s)
    decreases |s|
  {
    if s != [] {
      var t := "0" + s;
      assert t[..|t| - 1] == "0" + s[..|s| - 1];
      ParseDigitsLeadingZero(s[..|s| - 1]);
    }
  }

  /** Leading zeros do not change the number a run of digits denotes. */
  lemma {:induction false} ParseDigitsLeadingZeros(z: nat, s: string)
    requires forall i :: 0 <= i < |s| ==> IsDigit(s[i])
    ensures forall i :: 0 <= i < |Zeros(z) + s| ==> IsDigit((Zeros(z) + s)[i])
    ensures ParseDigits(Zeros(z) + s) == ParseDigits(s)
    decreases z
  {
    if z == 0 {
      assert Zeros(z) + s == s;
    } else {
      ParseDigitsLeadingZeros(z - 1, s);
      assert Zeros(z) + s == "0" + (Zeros(z - 1) + s);
      ParseDigitsLeadingZero(Zeros(z - 1) + s);
    }
  }

  /** A non-empty run of digits is numeric and denotes the number it reads as. */
  lemma DigitsValueIsParse(s: string)
    requires s != [] && forall i :: 0 <= i < |s| ==> IsDigit(s[i])
    ensures IsNumeric(s) && NumericValue(s) == ParseDigits(s) as real
  {
    DigitsAreNumeric(s);
    assert SkipSpaces(s, 0) == 0 by { assert !IsNumericSpace(s[0]); }
    SkipAllDigits(s, 0);
    assert s[0..|s|] == s;
  }

  /** A number written with any count of leading zeros is numeric and denotes that number. */
  lemma ZeroPaddedValue(z: nat, n: nat)
    ensures IsNumeric(Zeros(z) + NatToString(n))
    ensures NumericValue(Zeros(z) + NatToString(n)) == n as real
  {
    var s := Zeros(z) + NatToString(n);
    ParseDigitsLeadingZeros(z, NatToString(n));
    ParseNatToString(n);
    DigitsValueIsParse(s);
  }

  /** A non-empty run of decimal digits is numeric. */
  lemma DigitsAreNumeric(s: string)
    requires s != [] && forall i :: 0 <= i < |s| ==> IsDigit(s[i])
    ensures IsNumeric(s)
  {
    assert SkipSpaces(s, 0) == 0 by { assert !IsNumericSpace(s[0]); }
    SkipAllDigits(s, 0);
  }

  lemma {:induction false} SkipAllDigits(s: string, i: nat)
    requires i <= |s|
    requires forall k :: i <= k < |s| ==> IsDigit(s[k])
    ensures SkipDigits(s, i) == |s|
    decreases |s| - i
  {
    if i < |s| {
      SkipAllDigits(s, i + 1);
    }
  }

  /** A string whose first character is a letter other than `e`/`E` is not numeric. */
  lemma LetterFirstIsNotNumeric(s: string)
    requires s != [] && (('a' <= s[0] <= 'z') || ('A' <= s[0] <= 'Z')) && s[0] != 'e' && s[0] != 'E'
    ensures !IsNumeric(s)
  {
    assert SkipSpaces(s, 0) == 0 by { assert !IsNumericSpace(s[0]); }
    assert SkipDigits(s, 0) == 0 by { assert !IsDigit(s[0]); }
  }

  // ---------------------------------------------------------------------------
  // strtolower() and strlen()

  /** PHP 8 `strtolower`: ASCII letters only, other characters unchanged. */
  function AsciiLower(s: string): (r: string)
    ensures |r| == |s|
    ensures forall i :: 0 <= i < |s| ==>
              r[i] == if 'A' <= s[i] <= 'Z' then (s[i] as int + 32) as char else s[i]
    decreases |s|
  {
    if s == [] then []
    else [if 'A' <= s[0] <= 'Z' then (s[0] as int + 32) as char else s[0]] + AsciiLower(s[1..])
  }

  /** Lower-casing twice is lower-casing once. */
  lemma AsciiLowerIdempotent(s: string)
    ensures AsciiLower(AsciiLower(s)) == AsciiLower(s)
  {
  }

  /** Number of bytes of `c` in UTF-8. */
  function Utf8Width(c: char): (w: nat)
    ensures 1 <= w <= 4
    ensures w == 1 <==> c as int < 0x80
  {
    if c as int < 0x80 then 1
    else if c as int < 0x800 then 2
    else if c as int < 0x10000 then 3
    else 4
  }

  /** PHP `strlen` of the UTF-8 encoding of `s`: a byte count, not a character count. */
  function Utf8Length(s: string): (n: nat)
    ensures |s| <= n <= 4 * |s|
    decreases |s|
  {
    if s == [] then 0 else Utf8Width(s[0]) + Utf8Length(s[1..])
  }

  /** For ASCII text, bytes and characters coincide. */
  lemma {:induction false} AsciiLengthIsByteLength(s: string)
    requires forall i :: 0 <= i < |s| ==> s[i] as int < 0x80
    ensures Utf8Length(s) == |s|
    decreases |s|
  {
    if s != [] {
      AsciiLengthIsByteLength(s[1..]);
    }
  }

  // ---------------------------------------------------------------------------
  // absint()

  /** WordPress `absint` on an integer: its absolute value. */
  function Absint(x: int): (r: nat)
    ensures r == x || r == -x
  {
    if x < 0 then -x else x
  }
}
