/** The kernel's `sscanf` (lib/vsprintf.c, `vsscanf`) specialised to the one
    format the driver passes it, "%d 0x%x".

    The input is the C string: the characters before the terminating NUL.
    vsscanf walks a pointer `str` along it; the model passes the part of the
    string from that pointer on, so an empty sequence is the pointer resting
    on the terminator.

    How the kernel scanner differs from the C library's, and how the model
    follows it:
    - it never returns EOF: an empty or all-blank line gives 0 conversions;
    - `%d` skips white space and accepts a '-' sign but not a '+' sign;
    - a white-space character in the format matches any run of white space,
      including none;
    - '0' and 'x' in the format must match the input exactly;
    - `%x` skips white space too, and then a "0x" or "0X" prefix of its own
      (`_parse_integer_fixup_radix`), before reading hexadecimal digits;
    - digits accumulate in 64 bits with silent wrap-around, and the value is
      stored through an `int *` or `unsigned *`, so what survives is the
      value modulo 2^32 (the model reduces the exact value modulo 2^32,
      which is the same number).

    A `char` of the line stands for one byte of the sysfs buffer: only
    characters up to 0xFF occur, and 0xA0 is the byte the kernel's ctype
    table classes as white space (Latin-1 no-break space). */
module Scan {
  import opened KernelTypes
  import opened Numerals

  datatype Option<T> = None | Some(value: T)

  /** Kernel `isspace` (class _S of lib/ctype.c): tab, line feed, vertical
      tab, form feed, carriage return, space and the byte 0xA0. */
  predicate IsSpace(c: char) {
    c == ' ' || '\t' <= c <= '\r' || c as int == 0xA0
  }

  predicate AllSpaces(s: string) {
    forall i | 0 <= i < |s| :: IsSpace(s[i])
  }

  /** Kernel `skip_spaces`: what is left of s after its leading white space. */
  function SkipSpaces(s: string): (r: string)
    ensures |r| <= |s|
    ensures r == [] || !IsSpace(r[0])
  {
    if s != [] && IsSpace(s[0]) then SkipSpaces(s[1..]) else s
  }

  /** What SkipSpaces leaves is a suffix of its input, and what it skips is
      white space. */
  lemma {:induction false} SkipSpacesSplits(s: string)
    ensures var r := SkipSpaces(s);
      s == s[..|s| - |r|] + r && AllSpaces(s[..|s| - |r|])
    decreases |s|
  {
    if s != [] && IsSpace(s[0]) {
      var t := s[1..];
      SkipSpacesSplits(t);
      var r := SkipSpaces(t);
      assert SkipSpaces(s) == r;
      var k := |t| - |r|;
      assert s[..k + 1] == [s[0]] + t[..k];
      assert s == [s[0]] + t;
    }
  }

  /** How many characters `_parse_integer` consumes: the length of the
      longest run of digits of the base at the start of s. */
  function DigitRun(s: string, base: nat): (n: nat)
    ensures n <= |s|
    ensures AllDigitsIn(s[..n], base)
    ensures n == |s| || !IsDigitIn(s[n], base)
  {
    if s != [] && IsDigitIn(s[0], base) then 1 + DigitRun(s[1..], base) else 0
  }

  /** One successful `%d` conversion: the value stored and the input left
      after the last digit. */
  datatype Field = Field(value: U32, rest: string)

  /** The `%d` conversion. vsscanf first gives up at the terminator; that
      test is subsumed here, since skipping white space in an empty string
      leaves it empty, and no digit follows. */
  function ScanDecimal(s: string): Option<Field> {
    var t := SkipSpaces(s);
    var negative := t != [] && t[0] == '-';
    ScanDigits(if negative then t[1..] else t, negative)
  }

  /** The digits of `%d`, after the sign: at least one is needed. */
  function ScanDigits(u: string, negative: bool): Option<Field> {
    if u != [] && IsDigit(u[0]) then
      var n := DigitRun(u, 10);
      Some(Field(Signed(negative, Value(u[..n], 10)), u[n..]))
    else
      None
  }

  /** The rest of the format, " 0x%x": white space, the literal characters
      '0' and 'x', then a `%x` conversion. vsscanf's test for the terminator
      before `%x` is subsumed in the same way as for `%d`. */
  function ScanHexTail(s: string): Option<U32> {
    var t := SkipSpaces(s);
    if |t| >= 2 && t[0] == '0' && t[1] == 'x' then ScanHex(t[2..]) else None
  }

  /** The `%x` conversion: white space, an optional "0x" or "0X" prefix, and
      the hexadecimal digits. The first character after the white space must
      be a hexadecimal digit, so "0x" followed by no digit reads as zero. */
  function ScanHex(s: string): Option<U32> {
    HexNumber(SkipSpaces(s))
  }

  /** `%x` after the white space. */
  function HexNumber(u: string): Option<U32> {
    if u != [] && IsXDigit(u[0]) then Some(ToU32(RunValue(SkipHexPrefix(u), 16))) else None
  }

  /** `_parse_integer_fixup_radix` for base 16: a "0x" or "0X" prefix is
      dropped. */
  function SkipHexPrefix(u: string): string {
    if |u| >= 2 && u[0] == '0' && (u[1] == 'x' || u[1] == 'X') then u[2..] else u
  }

  /** The number `_parse_integer` reads at the start of w (zero when no digit
      is there). */
  function RunValue(w: string, base: nat): nat {
    var n := DigitRun(w, base);
    Value(w[..n], base)
  }

  /** The outcome of `sscanf(buf, "%d 0x%x", &addr, &value)`: a count of 0,
      1 or 2, with the values converted. */
  datatype Conversions = NoMatch | AddrOnly(addr: U32) | AddrValue(addr: U32, value: U32)

  function ScanRegCommand(s: string): Conversions {
    match ScanDecimal(s)
    case None => NoMatch
    case Some(f) =>
      match ScanHexTail(f.rest)
      case None => AddrOnly(f.value)
      case Some(v) => AddrValue(f.value, v)
  }

  /** The text of an optional minus sign. */
  function Sign(negative: bool): string {
    if negative then "-" else ""
  }

  /** The number a signed decimal numeral leaves in a 32-bit variable. */
  function Signed(negative: bool, n: nat): U32 {
    var signed: int := if negative then -(n as int) else n;
    ToU32(signed)
  }

  /** Leading white space is skipped whole, and nothing after it. */
  lemma {:induction false} SkipSpacesOver(lead: string, body: string)
    requires AllSpaces(lead)
    requires body == [] || !IsSpace(body[0])
    ensures SkipSpaces(lead + body) == body
    decreases |lead|
  {
    if lead != [] {
      assert (lead + body)[1..] == lead[1..] + body;
      SkipSpacesOver(lead[1..], body);
    }
  }

  /** A run of digits that no further digit of its base follows is read whole. */
  lemma {:induction false} DigitRunOver(ds: string, rest: string, base: nat)
    requires AllDigitsIn(ds, base)
    requires rest == [] || !IsDigitIn(rest[0], base)
    ensures DigitRun(ds + rest, base) == |ds|
    decreases |ds|
  {
    if ds != [] {
      assert (ds + rest)[1..] == ds[1..] + rest;
      DigitRunOver(ds[1..], rest, base);
    }
  }

  /** `%d` once the white space is behind it: the sign, then the digits. */
  lemma ScanDecimalAfterSpaces(s: string, negative: bool, u: string)
    requires SkipSpaces(s) == Sign(negative) + u
    requires u == [] || u[0] != '-'
    ensures ScanDecimal(s) == ScanDigits(u, negative)
  {
    var t := Sign(negative) + u;
    if negative {
      assert t[0] == '-' && t[1..] == u;
    } else {
      assert t == u;
    }
  }

  /** A run of decimal digits is read whole. */
  lemma ScanDigitsOf(num: string, rest: string, negative: bool)
    requires num != [] && AllDigitsIn(num, 10)
    requires rest == [] || !IsDigit(rest[0])
    ensures ScanDigits(num + rest, negative) == Some(Field(Signed(negative, Value(num, 10)), rest))
  {
    var u := num + rest;
    assert IsDigitIn(num[0], 10);
    DigitRunOver(num, rest, 10);
    assert u[..|num|] == num && u[|num|..] == rest;
  }

  /** `%d` reads an optionally negated run of decimal digits after leading
      white space, and leaves what follows the last digit. */
  lemma ScanDecimalOf(lead: string, negative: bool, num: string, rest: string)
    requires AllSpaces(lead)
    requires num != [] && AllDigitsIn(num, 10)
    requires rest == [] || !IsDigit(rest[0])
    ensures ScanDecimal(lead + Sign(negative) + num + rest) == Some(Field(Signed(negative, Value(num, 10)), rest))
  {
    var u := num + rest;
    var body := Sign(negative) + u;
    assert lead + Sign(negative) + num + rest == lead + body;
    assert IsDigitIn(num[0], 10);
    assert body[0] == if negative then '-' else num[0];
    SkipSpacesOver(lead, body);
    ScanDecimalAfterSpaces(lead + body, negative, u);
    ScanDigitsOf(num, rest, negative);
  }

  /** Once white space and "0x" have matched, what follows is the `%x`
      conversion. */
  lemma ScanHexTailOver(gap: string, v: string)
    requires AllSpaces(gap)
    ensures ScanHexTail(gap + "0x" + v) == ScanHex(v)
  {
    var body := "0x" + v;
    assert gap + "0x" + v == gap + body;
    assert body[0] == '0' && body[1] == 'x' && body[2..] == v;
    SkipSpacesOver(gap, body);
  }

  /** " 0x%x" reads white space, "0x" and a run of hexadecimal digits, and
      stops at the first character that is not one. */
  lemma ScanHexTailOf(gap: string, hex: string, tail: string)
    requires AllSpaces(gap)
    requires hex != [] && AllDigitsIn(hex, 16)
    requires tail == [] || !IsDigitIn(tail[0], 16)
    requires hex == "0" ==> tail == [] || (tail[0] != 'x' && tail[0] != 'X')
    ensures ScanHexTail(gap + "0x" + hex + tail) == Some(ToU32(Value(hex, 16)))
  {
    assert gap + "0x" + hex + tail == gap + "0x" + (hex + tail);
    assert hex + tail == [] + hex + tail;
    ScanHexTailOver(gap, hex + tail);
    ScanHexOf([], hex, tail);
  }

  /** `%x` skips white space and reads a run of hexadecimal digits; whatever
      follows the run is left unread. A lone "0" followed by 'x' or 'X' would
      be taken for a prefix, so that case is excluded here (HexNumberPrefixed
      covers it). */
  lemma ScanHexOf(lead: string, hex: string, tail: string)
    requires AllSpaces(lead)
    requires hex != [] && AllDigitsIn(hex, 16)
    requires tail == [] || !IsDigitIn(tail[0], 16)
    requires hex == "0" ==> tail == [] || (tail[0] != 'x' && tail[0] != 'X')
    ensures ScanHex(lead + hex + tail) == Some(ToU32(Value(hex, 16)))
  {
    assert IsDigitIn(hex[0], 16);
    assert lead + hex + tail == lead + (hex + tail);
    SkipSpacesOver(lead, hex + tail);
    HexNumberOf(hex, tail);
  }

  /** `%x` after the white space converts a run of hexadecimal digits up to
      the first character that is not one. */
  lemma HexNumberOf(hex: string, tail: string)
    requires hex != [] && AllDigitsIn(hex, 16)
    requires tail == [] || !IsDigitIn(tail[0], 16)
    requires hex == "0" ==> tail == [] || (tail[0] != 'x' && tail[0] != 'X')
    ensures HexNumber(hex + tail) == Some(ToU32(Value(hex, 16)))
  {
    var u := hex + tail;
    assert IsDigitIn(hex[0], 16);
    assert |hex| > 1 ==> IsDigitIn(hex[1], 16) && u[1] == hex[1];
    assert |hex| == 1 && tail != [] ==> u[1] == tail[0];
    assert SkipHexPrefix(u) == u;
    RunValueOver(hex, tail, 16);
  }

  /** `%x` drops a "0x" or "0X" of its own and converts the hexadecimal
      digits after it, up to the first character that is not one; with no
      digit after the prefix it reads zero. */
  lemma HexNumberPrefixed(x: char, hex: string, tail: string)
    requires x == 'x' || x == 'X'
    requires AllDigitsIn(hex, 16)
    requires tail == [] || !IsDigitIn(tail[0], 16)
    ensures HexNumber(['0', x] + hex + tail) == Some(ToU32(Value(hex, 16)))
  {
    var u := ['0', x] + hex + tail;
    assert u[0] == '0' && u[1] == x;
    assert u[2..] == hex + tail;
    RunValueOver(hex, tail, 16);
  }

  /** A run of digits that no further digit of its base follows reads as the
      number it denotes. */
  lemma RunValueOver(ds: string, rest: string, base: nat)
    requires AllDigitsIn(ds, base)
    requires rest == [] || !IsDigitIn(rest[0], base)
    ensures RunValue(ds + rest, base) == Value(ds, base)
  {
    DigitRunOver(ds, rest, base);
    assert (ds + rest)[..|ds|] == ds;
  }

  /** Unless white space and then "0x" follow, the rest of the format fails
      to match. */
  lemma ScanHexTailAbsent(gap: string, rest: string)
    requires AllSpaces(gap)
    requires rest == [] || !IsSpace(rest[0])
    requires !(|rest| >= 2 && rest[0] == '0' && rest[1] == 'x')
    ensures ScanHexTail(gap + rest) == None
  {
    SkipSpacesOver(gap, rest);
  }

  /** A line that holds a decimal address and nothing but white space after
      it selects that address: one conversion. */
  lemma ScanSelectLine(lead: string, negative: bool, num: string, tail: string)
    requires AllSpaces(lead) && AllSpaces(tail)
    requires num != [] && AllDigitsIn(num, 10)
    ensures ScanRegCommand(lead + Sign(negative) + num + tail) == AddrOnly(Signed(negative, Value(num, 10)))
  {
    assert tail != [] ==> IsSpace(tail[0]);
    ScanDecimalOf(lead, negative, num, tail);
    assert tail + [] == tail;
    ScanHexTailAbsent(tail, []);
  }

  /** A line "<address> 0x<value>" writes: two conversions, whatever follows
      the value's last digit (a lone "0" followed by 'x' or 'X' is read as
      a prefix instead: ScanWritePrefixed). White space may separate "0x"
      from the digits. The blank between the address and "0x" is needed,
      since a digit right after the address would be read as part of it. */
  lemma ScanWriteLine(lead: string, negative: bool, num: string, gap: string, gap2: string, hex: string, tail: string)
    requires AllSpaces(lead) && AllSpaces(gap) && AllSpaces(gap2)
    requires num != [] && AllDigitsIn(num, 10)
    requires gap != []
    requires hex != [] && AllDigitsIn(hex, 16)
    requires tail == [] || !IsDigitIn(tail[0], 16)
    requires hex == "0" ==> tail == [] || (tail[0] != 'x' && tail[0] != 'X')
    ensures ScanRegCommand(lead + Sign(negative) + num + gap + "0x" + gap2 + hex + tail)
         == AddrValue(Signed(negative, Value(num, 10)), ToU32(Value(hex, 16)))
  {
    var v := gap2 + hex + tail;
    var rest := gap + "0x" + v;
    assert lead + Sign(negative) + num + gap + "0x" + gap2 + hex + tail == lead + Sign(negative) + num + rest;
    assert rest[0] == gap[0];
    ScanDecimalOf(lead, negative, num, rest);
    ScanHexTailOver(gap, v);
    ScanHexOf(gap2, hex, tail);
  }

  /** A line "<address> 0x0x<value>" writes the value: `%x` drops the second
      "0x" (or "0X") as a prefix of its own. */
  lemma ScanWritePrefixed(lead: string, negative: bool, num: string, gap: string, x: char, hex: string, tail: string)
    requires AllSpaces(lead) && AllSpaces(gap)
    requires num != [] && AllDigitsIn(num, 10)
    requires gap != []
    requires x == 'x' || x == 'X'
    requires AllDigitsIn(hex, 16)
    requires tail == [] || !IsDigitIn(tail[0], 16)
    ensures ScanRegCommand(lead + Sign(negative) + num + gap + "0x" + ['0', x] + hex + tail)
         == AddrValue(Signed(negative, Value(num, 10)), ToU32(Value(hex, 16)))
  {
    var rest := gap + "0x" + ['0', x] + hex + tail;
    assert lead + Sign(negative) + num + gap + "0x" + ['0', x] + hex + tail == lead + Sign(negative) + num + rest;
    assert rest[0] == gap[0];
    ScanDecimalOf(lead, negative, num, rest);
    ScanHexTailPrefixed(gap, x, hex, tail);
  }

  /** A line whose address is followed by something other than "0x" (after
      white space) still selects the address: "7 26" selects register 7. */
  lemma ScanSelectDespiteTail(lead: string, negative: bool, num: string, gap: string, rest: string)
    requires AllSpaces(lead) && AllSpaces(gap)
    requires num != [] && AllDigitsIn(num, 10)
    requires rest == [] || !IsSpace(rest[0])
    requires gap == [] ==> rest == [] || !IsDigit(rest[0])
    requires !(|rest| >= 2 && rest[0] == '0' && rest[1] == 'x')
    ensures ScanRegCommand(lead + Sign(negative) + num + gap + rest) == AddrOnly(Signed(negative, Value(num, 10)))
  {
    var after := gap + rest;
    assert lead + Sign(negative) + num + gap + rest == lead + Sign(negative) + num + after;
    assert after == [] || after[0] == if gap == [] then rest[0] else gap[0];
    ScanDecimalOf(lead, negative, num, after);
    ScanHexTailAbsent(gap, rest);
  }

  /** " 0x%x" where `%x` meets a "0x" or "0X" of its own: the digits after
      the second prefix are the value. */
  lemma ScanHexTailPrefixed(gap: string, x: char, hex: string, tail: string)
    requires AllSpaces(gap)
    requires x == 'x' || x == 'X'
    requires AllDigitsIn(hex, 16)
    requires tail == [] || !IsDigitIn(tail[0], 16)
    ensures ScanHexTail(gap + "0x" + ['0', x] + hex + tail) == Some(ToU32(Value(hex, 16)))
  {
    var v := ['0', x] + hex + tail;
    assert gap + "0x" + ['0', x] + hex + tail == gap + "0x" + v;
    ScanHexTailOver(gap, v);
    assert v[0] == '0' && v == [] + v;
    SkipSpacesOver([], v);
    HexNumberPrefixed(x, hex, tail);
  }

  /** " 0x%x" with no hexadecimal digit after "0x" and its white space
      matches the literal but converts nothing. */
  lemma ScanHexTailEmpty(gap: string, gap2: string, rest: string)
    requires AllSpaces(gap) && AllSpaces(gap2)
    requires rest == [] || (!IsSpace(rest[0]) && !IsXDigit(rest[0]))
    ensures ScanHexTail(gap + "0x" + gap2 + rest) == None
  {
    assert gap + "0x" + gap2 + rest == gap + "0x" + (gap2 + rest);
    ScanHexTailOver(gap, gap2 + rest);
    SkipSpacesOver(gap2, rest);
  }

  /** A line "<address> 0x" whose "0x" is followed, after white space, by
      the end of the line or by a character that is not a hexadecimal digit
      selects the address: the `%x` conversion fails, one conversion. */
  lemma ScanSelectEmptyValue(lead: string, negative: bool, num: string, gap: string, gap2: string, rest: string)
    requires AllSpaces(lead) && AllSpaces(gap) && AllSpaces(gap2)
    requires gap != []
    requires num != [] && AllDigitsIn(num, 10)
    requires rest == [] || (!IsSpace(rest[0]) && !IsXDigit(rest[0]))
    ensures ScanRegCommand(lead + Sign(negative) + num + gap + "0x" + gap2 + rest) == AddrOnly(Signed(negative, Value(num, 10)))
  {
    var after := gap + "0x" + gap2 + rest;
    assert lead + Sign(negative) + num + gap + "0x" + gap2 + rest == lead + Sign(negative) + num + after;
    assert after[0] == gap[0];
    ScanDecimalOf(lead, negative, num, after);
    ScanHexTailEmpty(gap, gap2, rest);
  }

  /** A line that, after white space, does not start with a digit or with a
      '-' and a digit yields no conversion. */
  lemma ScanRejects(lead: string, body: string)
    requires AllSpaces(lead)
    requires body == [] || !IsSpace(body[0])
    requires body == [] || !IsDigit(body[0])
    requires |body| >= 2 && body[0] == '-' ==> !IsDigit(body[1])
    ensures ScanRegCommand(lead + body) == NoMatch
  {
    SkipSpacesOver(lead, body);
  }

  /** A decimal address, a blank, "0x", a hexadecimal value and a line feed
      scan to that address and that value. */
  lemma ScanWriteDigits(num: string, hex: string)
    requires num != [] && AllDigitsIn(num, 10)
    requires hex != [] && AllDigitsIn(hex, 16)
    ensures ScanRegCommand(num + " 0x" + hex + "\n") == AddrValue(Signed(false, Value(num, 10)), ToU32(Value(hex, 16)))
  {
    assert num + " 0x" + hex + "\n" == [] + Sign(false) + num + " " + "0x" + [] + hex + "\n";
    ScanWriteLine([], false, num, " ", [], hex, "\n");
  }

  /** A decimal address and a line feed scan to that address. */
  lemma ScanSelectDigits(num: string)
    requires num != [] && AllDigitsIn(num, 10)
    ensures ScanRegCommand(num + "\n") == AddrOnly(Signed(false, Value(num, 10)))
  {
    assert num + "\n" == [] + Sign(false) + num + "\n";
    ScanSelectLine([], false, num, "\n");
  }

  /** The usage comment's write line `echo addr value`, with the value
      written as "0x<hex>": "<addr> 0x<value>\n", the address in decimal and
      the value in hexadecimal, scans back to exactly that address and
      value. */
  lemma ScanWriteCommand(addr: Byte, value: Byte)
    ensures ScanRegCommand(Numeral(addr, 10) + " 0x" + Numeral(value, 16) + "\n") == AddrValue(addr, value)
  {
    ValueOfNumeral(addr, 10);
    ValueOfNumeral(value, 16);
    ScanWriteDigits(Numeral(addr, 10), Numeral(value, 16));
  }

  /** The line `echo` sends to select a register, "<addr>\n", scans back to
      exactly that address. */
  lemma ScanSelectCommand(addr: Byte)
    ensures ScanRegCommand(Numeral(addr, 10) + "\n") == AddrOnly(addr)
  {
    ValueOfNumeral(addr, 10);
    ScanSelectDigits(Numeral(addr, 10));
  }

  /** A line as a user writes it: address 7, value 0x1a. */
  lemma ScanExampleWrite()
    ensures ScanRegCommand("7 0x1a\n") == AddrValue(7, 0x1a)
  {
    assert "7 0x1a\n" == [] + Sign(false) + "7" + " " + "0x" + [] + "1a" + "\n";
    assert Value("7", 10) == 7 && Value("1a", 16) == 0x1a;
    ScanWriteLine([], false, "7", " ", [], "1a", "\n");
  }

  /** Blanks may lead the line and may separate "0x" from the digits. */
  lemma ScanExampleBlanks()
    ensures ScanRegCommand("  7\t0x 1a\n") == AddrValue(7, 0x1a)
  {
    assert "  7\t0x 1a\n" == "  " + Sign(false) + "7" + "\t" + "0x" + " " + "1a" + "\n";
    assert Value("7", 10) == 7 && Value("1a", 16) == 0x1a;
    ScanWriteLine("  ", false, "7", "\t", " ", "1a", "\n");
  }

  /** `%x` drops a "0x" of its own after the one the format matches. */
  lemma ScanExampleDoublePrefix()
    ensures ScanRegCommand("7 0x0x1a\n") == AddrValue(7, 0x1a)
  {
    assert "7 0x0x1a\n" == [] + Sign(false) + "7" + " " + "0x" + ['0', 'x'] + "1a" + "\n";
    assert Value("7", 10) == 7 && Value("1a", 16) == 0x1a;
    ScanWritePrefixed([], false, "7", " ", 'x', "1a", "\n");
  }

  /** A value without its "0x" is not a value: the line selects 7. */
  lemma ScanExampleBareValue()
    ensures ScanRegCommand("7 26\n") == AddrOnly(7)
  {
    assert "7 26\n" == [] + Sign(false) + "7" + " " + "26\n";
    assert Value("7", 10) == 7;
    ScanSelectDespiteTail([], false, "7", " ", "26\n");
  }

  /** "0x" without a digit, or with a non-digit, converts nothing more. */
  lemma ScanExampleEmptyValue()
    ensures ScanRegCommand("7 0x\n") == AddrOnly(7)
  {
    assert "7 0x\n" == [] + Sign(false) + "7" + " " + "0x" + "\n" + [];
    assert Value("7", 10) == 7;
    ScanSelectEmptyValue([], false, "7", " ", "\n", []);
  }

  lemma ScanExampleBadValue()
    ensures ScanRegCommand("7 0xg\n") == AddrOnly(7)
  {
    assert "7 0xg\n" == [] + Sign(false) + "7" + " " + "0x" + [] + "g\n";
    assert Value("7", 10) == 7;
    ScanSelectEmptyValue([], false, "7", " ", [], "g\n");
  }

  /** Without a blank after the address, "0x" is not matched: the '0' is
      read as a digit of the address. */
  lemma ScanExampleNoBlank()
    ensures ScanRegCommand("70x1a\n") == AddrOnly(70)
  {
    assert "70x1a\n" == [] + Sign(false) + "70" + [] + "x1a\n";
    assert Value("70", 10) == 70;
    ScanSelectDespiteTail([], false, "70", [], "x1a\n");
  }

  /** Numbers wider than a byte are converted whole. */
  lemma ScanExampleWideValue()
    ensures ScanRegCommand("7 0x1ff\n") == AddrValue(7, 0x1ff)
  {
    assert "7 0x1ff\n" == [] + Sign(false) + "7" + " " + "0x" + [] + "1ff" + "\n";
    ValueExamples();
    ScanWriteLine([], false, "7", " ", [], "1ff", "\n");
  }

  lemma ScanExampleWideAddress()
    ensures ScanRegCommand("300\n") == AddrOnly(300)
  {
    assert "300\n" == [] + Sign(false) + "300" + "\n";
    ValueExamples();
    ScanSelectLine([], false, "300", "\n");
  }

  lemma ValueExamples()
    ensures Value("7", 10) == 7
    ensures Value("300", 10) == 300
    ensures Value("1ff", 16) == 0x1ff
  {
    assert "300"[..2] == "30" && "30"[..1] == "3";
    assert "1ff"[..2] == "1f" && "1f"[..1] == "1";
  }

  /** A negative address wraps to a large unsigned number. */
  lemma ScanExampleNegative()
    ensures ScanRegCommand("-1\n") == AddrOnly(0xffff_ffff)
  {
    assert "-1\n" == [] + Sign(true) + "1" + "\n";
    assert Value("1", 10) == 1;
    ScanSelectLine([], true, "1", "\n");
    assert Signed(true, 1) == 0xffff_ffff;
  }

  /** Lines without an address: nothing is converted. The kernel scanner
      does not accept a '+' sign. */
  lemma ScanExampleRejects()
    ensures ScanRegCommand("") == NoMatch
    ensures ScanRegCommand(" \n") == NoMatch
    ensures ScanRegCommand("+7\n") == NoMatch
  {
    assert " \n" == " \n" + [];
    ScanRejects([], []);
    ScanRejects(" \n", []);
    ScanRejects([], "+7\n");
  }
}
