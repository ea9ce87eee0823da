/** Digit characters, the number a digit string denotes, and the digit string
    of a number. The kernel's integer scanner reads numerals with these
    digit values, and `%x` prints them with the lowercase digits. */
module Numerals {

  /** Kernel `isdigit`. */
  predicate IsDigit(c: char) {
    '0' <= c <= '9'
  }

  /** Kernel `isxdigit`: decimal digits and both cases of a-f. */
  predicate IsXDigit(c: char) {
    '0' <= c <= '9' || 'a' <= c <= 'f' || 'A' <= c <= 'F'
  }

  /** The digits `%x` prints. */
  predicate IsLowerXDigit(c: char) {
    '0' <= c <= '9' || 'a' <= c <= 'f'
  }

  /** The value the kernel's `_parse_integer` gives a hexadecimal-class character. */
  function DigitValue(c: char): (d: nat)
    requires IsXDigit(c)
    ensures d < 16
    ensures d < 10 <==> IsDigit(c)
  {
    if '0' <= c <= '9' then c as int - '0' as int
    else if 'a' <= c <= 'f' then c as int - 'a' as int + 10
    else c as int - 'A' as int + 10
  }

  /** A digit of the given base, as `_parse_integer` accepts it. */
  predicate IsDigitIn(c: char, base: nat) {
    IsXDigit(c) && DigitValue(c) < base
  }

  predicate AllDigitsIn(ds: seq<char>, base: nat) {
    forall i | 0 <= i < |ds| :: IsDigitIn(ds[i], base)
  }

  /** The number a digit string denotes, most significant digit first. This is
      what `_parse_integer` accumulates before its 64-bit wrap; callers reduce
      it to the width they store. */
  function Value(ds: seq<char>, base: nat): nat
    requires AllDigitsIn(ds, base)
  {
    if ds == [] then 0
    else
      var init := ds[..|ds| - 1];
      assert forall i | 0 <= i < |init| :: init[i] == ds[i];
      var v: nat := Value(init, base);
      assert v * base >= 0;
      v * base + DigitValue(ds[|ds| - 1])
  }

  /** The lowercase digit character for a digit value. */
  function DigitChar(d: nat): (c: char)
    requires d < 16
    ensures IsXDigit(c) && IsLowerXDigit(c) && DigitValue(c) == d
  {
    if d < 10 then ('0' as int + d) as char else ('a' as int + d - 10) as char
  }

  /** The shortest digit string of `n` in the given base, lowercase. */
  function Numeral(n: nat, base: nat): (r: seq<char>)
    requires 2 <= base <= 16
    ensures 1 <= |r|
    ensures AllDigitsIn(r, base)
    ensures forall i | 0 <= i < |r| :: IsLowerXDigit(r[i])
    decreases n
  {
    if n < base then [DigitChar(n)]
    else
      Division(n, base);
      Numeral(n / base, base) + [DigitChar(n % base)]
  }

  /** Appending a digit multiplies by the base and adds the digit. */
  lemma ValueSnoc(ds: seq<char>, c: char, base: nat)
    requires AllDigitsIn(ds, base) && IsDigitIn(c, base)
    ensures AllDigitsIn(ds + [c], base)
    ensures Value(ds + [c], base) == Value(ds, base) * base + DigitValue(c)
  {
    assert (ds + [c])[..|ds|] == ds;
  }

  /** Division with remainder by a base, stated apart from the digit strings
      so that the solver meets the non-linear facts without them in view. */
  lemma Division(n: nat, base: nat)
    requires 2 <= base
    ensures (n / base) * base + n % base == n
    ensures n % base < base
    ensures base <= n ==> 0 < n / base < n
  {
  }

  /** Below base^2 the quotient by the base is a single digit. */
  lemma QuotientBelow(n: nat, base: nat)
    requires 2 <= base && n < base * base
    ensures n / base < base
  {
    var q := n / base;
    Division(n, base);
    if q >= base {
      assert false;
    }
  }

  /** One digit of the induction in ValueOfNumeral: if the numeral of n / base
      reads back correctly, so does the numeral of n. */
  lemma ValueOfNumeralStep(n: nat, base: nat)
    requires 2 <= base <= 16 && base <= n
    requires Value(Numeral(n / base, base), base) == n / base
    ensures Value(Numeral(n, base), base) == n
  {
    ValueSnoc(Numeral(n / base, base), DigitChar(n % base), base);
    Division(n, base);
  }

  /** Reading back the numeral of `n` gives `n`. */
  lemma {:induction false} ValueOfNumeral(n: nat, base: nat)
    requires 2 <= base <= 16
    ensures Value(Numeral(n, base), base) == n
    decreases n
  {
    if n < base {
      assert Numeral(n, base)[..0] == [];
    } else {
      ValueOfNumeral(n / base, base);
      ValueOfNumeralStep(n, base);
    }
  }

  /** The numeral of a number below base^2 has at most two digits, and one
      exactly when the number is below the base. */
  lemma NumeralLength(n: nat, base: nat)
    requires 2 <= base <= 16
    requires n < base * base
    ensures |Numeral(n, base)| == if n < base then 1 else 2
  {
    if n >= base {
      QuotientBelow(n, base);
      assert Numeral(n, base) == Numeral(n / base, base) + [DigitChar(n % base)];
    }
  }

  /** A leading zero does not change the value of a digit string. */
  lemma {:induction false} ValueLeadingZero(ds: seq<char>, base: nat)
    requires 2 <= base <= 16
    requires AllDigitsIn(ds, base)
    ensures AllDigitsIn(['0'] + ds, base)
    ensures Value(['0'] + ds, base) == Value(ds, base)
    decreases |ds|
  {
    var zs := ['0'] + ds;
    if ds == [] {
      assert zs[..0] == [];
    } else {
      var init := ds[..|ds| - 1];
      assert zs[..|zs| - 1] == ['0'] + init;
      ValueLeadingZero(init, base);
    }
  }

  /** The numeral of a positive number does not start with '0'. */
  lemma {:induction false} NumeralLeadingDigit(n: nat, base: nat)
    requires 2 <= base <= 16
    requires n > 0
    ensures Numeral(n, base)[0] != '0'
    decreases n
  {
    if n < base {
      assert Numeral(n, base) == [DigitChar(n)];
    } else {
      Division(n, base);
      NumeralLeadingDigit(n / base, base);
      NumeralLeadingStep(n, base);
    }
  }

  lemma NumeralLeadingStep(n: nat, base: nat)
    requires 2 <= base <= 16 && base <= n
    requires Numeral(n / base, base)[0] != '0'
    ensures Numeral(n, base)[0] != '0'
  {
    assert Numeral(n, base) == Numeral(n / base, base) + [DigitChar(n % base)];
  }
}
