/** The text `si5326_show_reg` produces with `sprintf(buf, "%02x %02x", ...)`. */
module Format {
  import opened KernelTypes
  import opened Numerals

  /** `%02x`: the lowercase hexadecimal numeral, padded with '0' on the left
      to at least two characters. */
  function Hex02(n: nat): (r: string)
    ensures |r| >= 2
    ensures AllDigitsIn(r, 16)
    ensures forall i | 0 <= i < |r| :: IsLowerXDigit(r[i])
  {
    var digits := Numeral(n, 16);
    if n < 16 then ['0'] + digits else digits
  }

  /** `%02x` prints the number it is given, in exactly two characters when
      the number fits in a byte, and pads with at most one '0': a longer text
      does not start with '0'. */
  lemma Hex02Reads(n: nat)
    ensures Value(Hex02(n), 16) == n
    ensures n < 0x100 <==> |Hex02(n)| == 2
    ensures |Hex02(n)| > 2 ==> Hex02(n)[0] != '0'
  {
    var digits := Numeral(n, 16);
    ValueOfNumeral(n, 16);
    if n < 16 {
      ValueLeadingZero(digits, 16);
      NumeralLength(n, 16);
    } else {
      NumeralLeadingDigit(n, 16);
      if n < 0x100 {
        NumeralLength(n, 16);
      } else {
        NumeralLongAbove(n);
      }
    }
  }

  /** A number of at least 0x100 takes three hexadecimal digits or more. */
  lemma NumeralLongAbove(n: nat)
    requires n >= 0x100
    ensures |Numeral(n, 16)| > 2
  {
    assert n / 16 >= 16;
    assert |Numeral(n / 16, 16)| >= 2 by {
      assert Numeral(n / 16, 16) == Numeral(n / 16 / 16, 16) + [DigitChar(n / 16 % 16)];
    }
  }

  /** The text `show` returns for an address and a register value. */
  function ShowText(addr: U32, value: Byte): (r: string)
    ensures |r| >= 5
  {
    Hex02(addr) + " " + Hex02(value)
  }

  /** The text holds one space; before it the address and after it the
      value, each in lowercase hexadecimal. For an address below 0x100 the
      text is five characters long, and the space is its third. */
  lemma ShowTextReads(addr: U32, value: Byte)
    ensures var r, k := ShowText(addr, value), |Hex02(addr)|;
      k < |r| && r[k] == ' ' &&
      (forall i | 0 <= i < |r| && i != k :: IsLowerXDigit(r[i])) &&
      Value(r[..k], 16) == addr && Value(r[k + 1..], 16) == value &&
      (addr < 0x100 ==> |r| == 5 && k == 2)
  {
    var a, v := Hex02(addr), Hex02(value);
    var r := a + " " + v;
    Hex02Reads(addr);
    Hex02Reads(value);
    assert r[..|a|] == a;
    assert r[|a| + 1..] == v;
    forall i | 0 <= i < |r| && i != |a|
      ensures IsLowerXDigit(r[i])
    {
      if i > |a| {
        assert r[i] == v[i - |a| - 1];
      }
    }
  }

  lemma ShowTextExample()
    ensures ShowText(7, 0x2a) == "07 2a"
    ensures ShowText(0x12c, 5) == "12c 05"
  {
    assert Numeral(7, 16) == "7";
    assert Numeral(0x2a, 16) == Numeral(2, 16) + [DigitChar(10)];
    assert Numeral(0x12c, 16) == Numeral(0x12, 16) + [DigitChar(12)];
    assert Numeral(0x12, 16) == Numeral(1, 16) + [DigitChar(2)];
    assert Numeral(5, 16) == "5";
  }
}
