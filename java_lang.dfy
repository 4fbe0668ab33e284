/** The behaviour of the few JDK operations the version model depends on:
    `Integer.parseInt` on a digit string and its 32-bit bound, the decimal text
    `StringBuilder.append(int)` produces for a non-negative value,
    `String.compareTo`, and `String.isBlank` with `Character.isWhitespace`. */
module JavaLang {

  /** `Integer.MAX_VALUE`. */
  const INT_MAX: int := 0x7FFF_FFFF

  /** The values a Java `int` field can hold that are not negative. */
  type NonNegInt = n: int | 0 <= n <= INT_MAX

  predicate IsDigit(c: char) {
    '0' <= c <= '9'
  }

  predicate AllDigits(s: string) {
    forall i :: 0 <= i < |s| ==> IsDigit(s[i])
  }

  /** The regular expression `0|[1-9]\d*`: a decimal numeral without leading zeros. */
  predicate IsCanonicalDecimal(s: string) {
    |s| > 0 && AllDigits(s) && (s[0] == '0' ==> |s| == 1)
  }

  function DigitValue(c: char): nat
    requires IsDigit(c)
  {
    c as int - '0' as int
  }

  function DigitChar(d: nat): char
    requires d < 10
  {
    ('0' as int + d) as char
  }

  /** The number a string of decimal digits denotes, most significant digit first. */
  function DecimalValue(s: string): nat
    requires AllDigits(s)
  {
    if s == [] then 0 else 10 * DecimalValue(s[..|s| - 1]) + DigitValue(s[|s| - 1])
  }

  /** The decimal text of `n`, as `StringBuilder.append(int)` writes it: a
      numeral without leading zeros that denotes `n`. */
  function Decimal(n: nat): (s: string)
    ensures IsCanonicalDecimal(s)
    ensures DecimalValue(s) == n
  {
    if n < 10 then [DigitChar(n)]
    else
      var prefix := Decimal(n / 10);
      var s := prefix + [DigitChar(n % 10)];
      assert s[..|s| - 1] == prefix;
      s
  }

  /** A numeral whose first digit is not zero denotes a positive number. */
  lemma {:induction false} LeadingNonZeroIsPositive(s: string)
    requires |s| > 0 && AllDigits(s) && s[0] != '0'
    ensures DecimalValue(s) > 0
  {
    if |s| > 1 {
      LeadingNonZeroIsPositive(s[..|s| - 1]);
    }
  }

  /** Decimal text and value are inverse on numerals without leading zeros,
      so a canonical numeral is determined by the number it denotes. */
  lemma {:induction false} DecimalOfValue(s: string)
    requires IsCanonicalDecimal(s)
    ensures Decimal(DecimalValue(s)) == s
  {
    if |s| > 1 {
      var prefix, last := s[..|s| - 1], s[|s| - 1];
      assert IsCanonicalDecimal(prefix) && prefix[0] != '0';
      LeadingNonZeroIsPositive(prefix);
      DecimalOfValue(prefix);
      var x, d := DecimalValue(prefix), DigitValue(last);
      DecimalStep(x, d);
      assert DigitChar(d) == last;
      assert s == prefix + [last];
    }
  }

  /** A positive number's text is its tenth's text followed by its last digit. */
  lemma DecimalStep(x: nat, d: nat)
    requires x > 0 && d < 10
    ensures Decimal(10 * x + d) == Decimal(x) + [DigitChar(d)]
  {
    DivMod10(x, d);
  }

  lemma DivMod10(x: nat, d: nat)
    requires d < 10
    ensures (10 * x + d) / 10 == x && (10 * x + d) % 10 == d
  {
  }

  lemma IntMaxPlusOne()
    ensures DecimalValue("2147483648") == INT_MAX + 1
  {
    var digits := "2147483648";
    assert digits[..0] == [];
    assert DecimalValue(digits[..1]) == 2 by { assert digits[..1][..0] == digits[..0]; }
    assert DecimalValue(digits[..2]) == 21 by { assert digits[..2][..1] == digits[..1]; }
    assert DecimalValue(digits[..3]) == 214 by { assert digits[..3][..2] == digits[..2]; }
    assert DecimalValue(digits[..4]) == 2147 by { assert digits[..4][..3] == digits[..3]; }
    assert DecimalValue(digits[..5]) == 21474 by { assert digits[..5][..4] == digits[..4]; }
    assert DecimalValue(digits[..6]) == 214748 by { assert digits[..6][..5] == digits[..5]; }
    assert DecimalValue(digits[..7]) == 2147483 by { assert digits[..7][..6] == digits[..6]; }
    assert DecimalValue(digits[..8]) == 21474836 by { assert digits[..8][..7] == digits[..7]; }
    assert DecimalValue(digits[..9]) == 214748364 by { assert digits[..9][..8] == digits[..8]; }
    assert DecimalValue(digits[..10]) == 2147483648 by { assert digits[..10][..9] == digits[..9]; }
    assert digits[..10] == digits;
  }

  /** `a.compareTo(b)` on Java strings: the difference of the first pair of
      characters that differ, or else the difference of the lengths. */
  function CompareStrings(a: string, b: string): int
  {
    if a == [] || b == [] then |a| - |b|
    else if a[0] != b[0] then a[0] as int - b[0] as int
    else CompareStrings(a[1..], b[1..])
  }

  /** `a` comes before `b` in lexicographic order, told apart at position `k`:
      they agree before `k`, and there `a` ends while `b` goes on, or `a` has
      the smaller character. */
  ghost predicate LexLessAt(a: string, b: string, k: nat) {
    k <= |a| && k <= |b| && a[..k] == b[..k] &&
    ((k == |a| && k < |b|) || (k < |a| && k < |b| && a[k] < b[k]))
  }

  ghost predicate LexLess(a: string, b: string) {
    exists k: nat :: LexLessAt(a, b, k)
  }

  lemma {:induction false} CompareStringsZero(a: string, b: string)
    ensures CompareStrings(a, b) == 0 <==> a == b
  {
    if a != [] && b != [] && a[0] == b[0] {
      CompareStringsZero(a[1..], b[1..]);
      assert a == [a[0]] + a[1..] && b == [b[0]] + b[1..];
    }
  }

  lemma {:induction false} CompareStringsAntisymmetric(a: string, b: string)
    ensures CompareStrings(a, b) == -CompareStrings(b, a)
  {
    if a != [] && b != [] && a[0] == b[0] {
      CompareStringsAntisymmetric(a[1..], b[1..]);
    }
  }

  /** A negative `compareTo` means exactly "lexicographically smaller". */
  lemma CompareStringsNegative(a: string, b: string)
    ensures CompareStrings(a, b) < 0 <==> LexLess(a, b)
  {
    if CompareStrings(a, b) < 0 {
      var k := NegativeCompareWitness(a, b);
    }
    if LexLess(a, b) {
      var k: nat :| LexLessAt(a, b, k);
      LexLessAtNegative(a, b, k);
    }
  }

  lemma {:induction false} NegativeCompareWitness(a: string, b: string) returns (k: nat)
    requires CompareStrings(a, b) < 0
    ensures LexLessAt(a, b, k)
  {
    if a == [] || b == [] || a[0] != b[0] {
      k := 0;
    } else {
      var k' := NegativeCompareWitness(a[1..], b[1..]);
      k := k' + 1;
      assert a[..k] == [a[0]] + a[1..][..k'];
      assert b[..k] == [b[0]] + b[1..][..k'];
    }
  }

  lemma {:induction false} LexLessAtNegative(a: string, b: string, k: nat)
    requires LexLessAt(a, b, k)
    ensures CompareStrings(a, b) < 0
  {
    if k > 0 {
      assert a[0] == a[..k][0] == b[..k][0] == b[0];
      assert a[1..][..k - 1] == a[..k][1..];
      assert b[1..][..k - 1] == b[..k][1..];
      LexLessAtNegative(a[1..], b[1..], k - 1);
    }
  }

  /** A negative `compareTo` is transitive. */
  lemma {:induction false} CompareStringsTransitive(a: string, b: string, c: string)
    requires CompareStrings(a, b) < 0 && CompareStrings(b, c) < 0
    ensures CompareStrings(a, c) < 0
  {
    if a != [] && b != [] && c != [] && a[0] == b[0] == c[0] {
      CompareStringsTransitive(a[1..], b[1..], c[1..]);
    }
  }

  /** `Character.isWhitespace`: a Unicode space, line or paragraph separator
      other than the non-breaking spaces, or one of the listed control characters. */
  predicate IsWhitespace(c: char) {
    c == ' ' || c == '\t' || c == '\n' || c == '\U{000B}' || c == '\U{000C}' || c == '\r'
    || ('\U{001C}' <= c <= '\U{001F}')
    || c == '\U{1680}' || ('\U{2000}' <= c <= '\U{200A}' && c != '\U{2007}')
    || c == '\U{2028}' || c == '\U{2029}' || c == '\U{205F}' || c == '\U{3000}'
  }

  /** `String.isBlank`: empty or white space only. */
  predicate IsBlank(s: string) {
    forall i :: 0 <= i < |s| ==> IsWhitespace(s[i])
  }
}
