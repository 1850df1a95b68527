/** Integer-to-string conversion as JavaScript's Number.prototype.toString(base)
    performs it for integers (lower-case digits, a leading '-' for negatives),
    and the digit parsing that parseInt(s, base) performs on a string of digits. */
module Numerals {
  import opened Wrappers

  predicate ValidBase(base: int) { 2 <= base <= 16 }

  /** Value of a hexadecimal digit in either case, -1 for any other character. */
  function DigitValue(c: char): int
  {
    if '0' <= c <= '9' then c as int - '0' as int
    else if 'a' <= c <= 'f' then c as int - 'a' as int + 10
    else if 'A' <= c <= 'F' then c as int - 'A' as int + 10
    else -1
  }

  predicate IsDigit(c: char, base: int) { 0 <= DigitValue(c) < base }

  predicate IsLowerDigit(c: char) { '0' <= c <= '9' || 'a' <= c <= 'f' }

  predicate AllDigits(s: string, base: int)
  {
    forall i :: 0 <= i < |s| ==> IsDigit(s[i], base)
  }

  /** The lower-case digit toString uses for the value d. */
  function DigitChar(d: int): (c: char)
    requires 0 <= d < 16
    ensures DigitValue(c) == d && IsLowerDigit(c)
  {
    if d < 10 then ('0' as int + d) as char else ('a' as int + d - 10) as char
  }

  /** The digits of n in the given base, most significant first, without
      leading zeros. */
  function Digits(n: nat, base: int): (s: string)
    requires ValidBase(base)
    ensures |s| >= 1 && AllDigits(s, base)
    ensures forall i :: 0 <= i < |s| ==> IsLowerDigit(s[i])
    ensures s[0] == '0' <==> n == 0
    ensures n == 0 ==> |s| == 1
    decreases n
  {
    if n < base then [DigitChar(n)]
    else
      DivShrinks(n, base);
      Digits(n / base, base) + [DigitChar(n % base)]
  }

  /** Lower-case digits of the base. */
  predicate LowerDigits(s: string, base: int)
  {
    forall i :: 0 <= i < |s| ==> IsLowerDigit(s[i]) && IsDigit(s[i], base)
  }

  /** The numerals toString prints: lower-case digits without a leading
      zero (other than "0" itself), after a '-' for a negative value, so
      never "-0". */
  predicate Canonical(s: string, base: int)
  {
    if |s| > 0 && s[0] == '-' then |s| > 1 && s[1] != '0' && LowerDigits(s[1..], base)
    else |s| > 0 && LowerDigits(s, base) && (|s| == 1 || s[0] != '0')
  }

  /** n.toString(base) for an integer n: a canonical numeral, signed exactly
      when n is negative. */
  function ToString(n: int, base: int): (s: string)
    requires ValidBase(base)
    ensures Canonical(s, base)
    ensures s[0] == '-' <==> n < 0
  {
    if n < 0 then "-" + Digits(-n, base) else Digits(n, base)
  }

  /** Value of a string of digits, most significant first. */
  function ParseDigits(s: string, base: int): (v: nat)
    requires ValidBase(base) && AllDigits(s, base)
    ensures s == [] ==> v == 0
    ensures |s| == 1 ==> v == DigitValue(s[0])
  {
    if s == [] then 0
    else
      var p := ParseDigits(s[..|s| - 1], base);
      MulMonotone(0, p, base);
      p * base + DigitValue(s[|s| - 1])
  }

  /** Reads back a string that toString produced: an optional '-' followed by
      at least one digit; None for anything else. */
  function ParseInt(s: string, base: int): Option<int>
    requires ValidBase(base)
  {
    if |s| > 1 && s[0] == '-' && AllDigits(s[1..], base) then Some(0 - ParseDigits(s[1..], base))
    else if |s| > 0 && AllDigits(s, base) then Some(ParseDigits(s, base))
    else None
  }

  /** The last digit of a numeral is its value modulo the base, and the
      digits before it denote the value divided by the base. */
  lemma ParseDigitsLast(s: string, base: int)
    requires ValidBase(base) && AllDigits(s, base) && s != []
    ensures ParseDigits(s, base) % base == DigitValue(s[|s| - 1])
    ensures ParseDigits(s, base) / base == ParseDigits(s[..|s| - 1], base)
  {
    DivOfHorner(ParseDigits(s[..|s| - 1], base), base, DigitValue(s[|s| - 1]));
  }

  function Pow(base: int, k: nat): (p: int)
    requires ValidBase(base)
    ensures p >= 1
  {
    if k == 0 then 1 else base * Pow(base, k - 1)
  }

  /** Parsing undoes printing: the digits of n read back as n. */
  lemma {:induction false} ParseDigitsOfDigits(n: nat, base: int)
    requires ValidBase(base)
    ensures ParseDigits(Digits(n, base), base) == n
    decreases n
  {
    if n >= base {
      var s := Digits(n, base);
      DivShrinks(n, base);
      assert s[..|s| - 1] == Digits(n / base, base);
      assert DigitValue(s[|s| - 1]) == n % base;
      ParseDigitsOfDigits(n / base, base);
    }
  }

  /** toString and parseInt are inverse on every integer, negative ones included. */
  lemma ParseIntOfToString(n: int, base: int)
    requires ValidBase(base)
    ensures ParseInt(ToString(n, base), base) == Some(n)
  {
    if n < 0 {
      ParseNegative(n, base);
    } else {
      ParseNonNegative(n, base);
    }
  }

  lemma ParseNegative(n: int, base: int)
    requires ValidBase(base) && n < 0
    ensures ParseInt(ToString(n, base), base) == Some(n)
  {
    var d := Digits(-n, base);
    var s := "-" + d;
    assert s[1..] == d && |s| > 1 && s[0] == '-';
    assert AllDigits(s[1..], base);
    ParseDigitsOfDigits(-n, base);
    assert ParseInt(s, base) == Some(0 - ParseDigits(d, base));
    assert ToString(n, base) == s;
  }

  lemma ParseNonNegative(n: int, base: int)
    requires ValidBase(base) && n >= 0
    ensures ParseInt(ToString(n, base), base) == Some(n)
  {
    var s := ToString(n, base);
    ParseDigitsOfDigits(n, base);
    assert s == Digits(n, base) && IsLowerDigit(s[0]);
    assert ParseInt(s, base) == Some(ParseDigits(s, base));
  }

  /** A lower-case digit is the digit toString uses for its value. */
  lemma DigitCharOfValue(c: char)
    requires IsLowerDigit(c)
    ensures 0 <= DigitValue(c) < 16 && DigitChar(DigitValue(c)) == c
  {
  }

  /** Digits whose first is not '0' denote a positive value. */
  lemma {:induction false} ParseDigitsPositive(t: string, base: int)
    requires ValidBase(base) && |t| >= 1 && LowerDigits(t, base) && t[0] != '0'
    ensures ParseDigits(t, base) >= 1
    decreases |t|
  {
    if |t| == 1 {
      assert t[..0] == [];
      DigitCharOfValue(t[0]);
    } else {
      var init := t[..|t| - 1];
      assert init[0] == t[0];
      ParseDigitsPositive(init, base);
      MulMonotone(1, ParseDigits(init, base), base);
    }
  }

  lemma DivOfHorner(p: nat, b: int, d: int)
    requires 2 <= b && 0 <= d < b
    ensures (p * b + d) / b == p && (p * b + d) % b == d
  {
    var n := p * b + d;
    var q, r := n / b, n % b;
    assert q * b + r == p * b + d && 0 <= r < b;
    assert (q - p) * b == d - r;
    if q > p {
      MulMonotone(1, q - p, b);
    } else if q < p {
      MulMonotone(1, p - q, b);
    }
  }

  /** Printing undoes parsing on digits without a leading zero. */
  lemma {:induction false} DigitsOfParseDigits(t: string, base: int)
    requires ValidBase(base) && |t| >= 1 && LowerDigits(t, base) && (|t| == 1 || t[0] != '0')
    ensures Digits(ParseDigits(t, base), base) == t
    decreases |t|
  {
    var d := DigitValue(t[|t| - 1]);
    DigitCharOfValue(t[|t| - 1]);
    if |t| == 1 {
      assert t[..0] == [];
      assert t == [DigitChar(d)];
    } else {
      var init := t[..|t| - 1];
      assert init[0] == t[0];
      DigitsOfParseDigits(init, base);
      var p := ParseDigits(init, base);
      ParseDigitsPositive(init, base);
      MulMonotone(1, p, base);
      DivOfHorner(p, base, d);
      assert t == init + [t[|t| - 1]];
    }
  }

  /** A canonical numeral is the toString of the value it denotes. */
  lemma ToStringOfParseInt(s: string, base: int)
    requires ValidBase(base) && Canonical(s, base)
    ensures ParseInt(s, base).Some? && ToString(ParseInt(s, base).value, base) == s
  {
    if s[0] == '-' {
      NegativeNumeral(s, base);
    } else {
      NonNegativeNumeral(s, base);
    }
  }

  lemma NegativeNumeral(s: string, base: int)
    requires ValidBase(base) && Canonical(s, base) && s[0] == '-'
    ensures ParseInt(s, base).Some? && ToString(ParseInt(s, base).value, base) == s
  {
    var t := s[1..];
    assert s == "-" + t;
    assert t[0] == s[1];
    ParseDigitsPositive(t, base);
    DigitsOfParseDigits(t, base);
    ParseIntNegative(t, base);
    ToStringNegative(ParseDigits(t, base), base);
  }

  lemma ParseIntNegative(t: string, base: int)
    requires ValidBase(base) && |t| >= 1 && LowerDigits(t, base)
    ensures ParseInt("-" + t, base) == Some(-(ParseDigits(t, base) as int))
  {
    assert ("-" + t)[1..] == t;
  }

  lemma ToStringNegative(v: nat, base: int)
    requires ValidBase(base) && v >= 1
    ensures ToString(-(v as int), base) == "-" + Digits(v, base)
  {
  }

  lemma NonNegativeNumeral(s: string, base: int)
    requires ValidBase(base) && Canonical(s, base) && s[0] != '-'
    ensures ParseInt(s, base).Some? && ToString(ParseInt(s, base).value, base) == s
  {
    assert AllDigits(s, base);
    DigitsOfParseDigits(s, base);
    assert ParseInt(s, base) == Some(ParseDigits(s, base));
  }

  /** Two canonical numerals that denote the same number are the same
      string: a value has exactly one toString. */
  lemma CanonicalUnique(s: string, t: string, base: int)
    requires ValidBase(base) && Canonical(s, base) && Canonical(t, base)
    requires ParseInt(s, base) == ParseInt(t, base)
    ensures s == t
  {
    ToStringOfParseInt(s, base);
    ToStringOfParseInt(t, base);
  }

  /** A string of k digits denotes a value below base^k. */
  lemma {:induction false} ParseDigitsBound(s: string, base: int)
    requires ValidBase(base) && AllDigits(s, base)
    ensures ParseDigits(s, base) < Pow(base, |s|)
    decreases |s|
  {
    if s != [] {
      var init := s[..|s| - 1];
      ParseDigitsBound(init, base);
      var p, w := ParseDigits(init, base), Pow(base, |init|);
      assert ParseDigits(s, base) == p * base + DigitValue(s[|s| - 1]);
      BoundStep(p, w, base, DigitValue(s[|s| - 1]));
    }
  }

  /** The leading digit weighs base^(number of digits after it). */
  lemma {:induction false} ParseDigitsCons(c: char, t: string, base: int)
    requires ValidBase(base) && IsDigit(c, base) && AllDigits(t, base)
    ensures ParseDigits([c] + t, base) == DigitValue(c) * Pow(base, |t|) + ParseDigits(t, base)
    decreases |t|
  {
    if t != [] {
      var s := [c] + t;
      var tInit := t[..|t| - 1];
      assert s[..|s| - 1] == [c] + tInit;
      ParseDigitsCons(c, tInit, base);
      assert t[..|t| - 1] == tInit;
      assert s[|s| - 1] == t[|t| - 1];
      Horner(DigitValue(c), Pow(base, |tInit|), ParseDigits(tInit, base), base, DigitValue(t[|t| - 1]));
    }
  }

  /** A number in [base^k, 2 * base^k) is printed with k + 1 digits, the
      first of which is '1'. */
  lemma {:induction false} DigitsLeadingOne(n: nat, base: int, k: nat)
    requires ValidBase(base)
    requires Pow(base, k) <= n < 2 * Pow(base, k)
    ensures |Digits(n, base)| == k + 1 && Digits(n, base)[0] == '1'
    decreases k
  {
    if k > 0 {
      var p := Pow(base, k - 1);
      QuotientBand(n, base, p);
      DigitsLeadingOne(n / base, base, k - 1);
      DigitsStep(n, base);
    } else {
      assert n == 1 && Digits(n, base) == [DigitChar(1)];
    }
  }

  /** Dividing a number of [base * p, 2 * base * p) by base lands in [p, 2 * p). */
  lemma QuotientBand(n: nat, base: int, p: int)
    requires ValidBase(base) && p >= 1
    requires base * p <= n < 2 * (base * p)
    ensures base <= n && p <= n / base < 2 * p
  {
    MulMonotone(1, p, base);
    DivShrinks(n, base);
    QuotientLow(n / base, n % base, base, p);
    QuotientHigh(n / base, n % base, base, p);
  }

  lemma QuotientLow(q: int, r: int, base: nat, p: int)
    requires 0 <= r < base && base * p <= q * base + r
    ensures p <= q
  {
    MulMonotoneIf(q + 1, p, base);
  }

  lemma QuotientHigh(q: int, r: int, base: nat, p: int)
    requires 0 <= r && q * base + r < 2 * (base * p)
    ensures q < 2 * p
  {
    MulMonotoneIf(2 * p, q, base);
  }

  /** Printing n >= base prints n / base and then one more digit. */
  lemma DigitsStep(n: nat, base: int)
    requires ValidBase(base) && n >= base
    ensures |Digits(n, base)| == |Digits(n / base, base)| + 1
    ensures Digits(n, base)[0] == Digits(n / base, base)[0]
  {
    assert Digits(n, base) == Digits(n / base, base) + [DigitChar(n % base)];
  }

  lemma DivShrinks(n: nat, base: int)
    requires 2 <= base <= n
    ensures 1 <= n / base < n && n == (n / base) * base + n % base && 0 <= n % base < base
  {
    var q, r := n / base, n % base;
    assert n == q * base + r && 0 <= r < base;
    assert q >= 1;
    MulMonotone(2, base, q);
  }

  lemma BoundStep(p: int, w: int, b: int, d: int)
    requires p < w && 0 <= d < b
    ensures p * b + d < b * w
  {
    MulMonotone(p + 1, w, b);
  }

  lemma Horner(x: int, p: int, y: int, b: int, d: int)
    ensures (x * p + y) * b + d == x * (b * p) + (y * b + d)
  {
  }

  lemma MulMonotoneIf(a: int, b: int, c: nat)
    ensures a <= b ==> a * c <= b * c
  {
    if a <= b { MulMonotone(a, b, c); }
  }

  lemma MulMonotone(a: int, b: int, c: nat)
    requires a <= b
    ensures a * c <= b * c
  {
  }
}
