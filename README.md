# SI5326 register gateway

A Dafny model of the register gateway in the Linux driver for the Silicon
Labs SI5326 clock multiplier, `si5326.c`. The driver exposes one sysfs
attribute, `si5326_reg`:

- writing `"<addr> 0x<value>"` writes one register;
- writing `"<addr>"` selects a register;
- reading the attribute reads the selected register and prints `"%02x %02x"`
  (address, value).

When the driver attaches, a presence check reads registers 0..3. It accepts
the device only if they hold the reset signature `14 e4 42 05`.

The project has five modules:

- `KernelTypes` (kernel_types.dfy): the C integer widths and conversions the
  driver performs without saying so (`unsigned` to `int`, `int` to `u8`),
  and the error numbers.
- `Numerals` (numerals.dfy): digit characters, the number a digit string
  denotes, and the numeral of a number.
- `Scan` (scan.dfy): the kernel's `sscanf` for the one format the driver
  uses, `"%d 0x%x"`. It is a pure function from the line to the conversions
  made: none, the address only, or the address and the value. Each `char`
  of the line stands for one byte of the sysfs buffer (values up to 0xFF;
  0xA0 is the byte the kernel classes as white space).
- `Format` (format.dfy): the `"%02x %02x"` text that `show` produces.
- `SMBus` (smbus.dfy): `i2c_smbus_read_byte_data` and
  `i2c_smbus_write_byte_data` over an abstract device. The device is a bank
  of 256 registers plus a map of the commands whose transfers fail, with the
  error each one returns. A ghost log records every transaction, so "exactly
  one write" and "no transaction" can be stated.
- `Si5326` (si5326.dfy): the driver.
  - `ReadReg`/`WriteReg` are the access helpers.
  - `InitClient` is the presence check: a loop over a local `regs` array
    with a `fail` flag and an early return.
  - `Si5326Data` is the per-device record; its field `lastAddr` is
    `last_addr`.
  - `Si5326Data.StoreReg` and `Si5326Data.ShowReg` are the attribute's
    handlers.
  - `StoreAction` is the pure specification of what a store does.

Points where the code, and so the model, behaves differently from what a
reader of the usage comment might expect:

- `last_addr` is 0 before the first selection, because the record comes
  from `kzalloc`. It is not undefined.
- The scanner is the kernel's `vsscanf`, not the C library's:
  - it returns 0 conversions for an empty or blank line, never EOF, so the
    line is rejected with `-EIO` just the same;
  - it does not accept a `+` sign;
  - `%x` skips blanks and a `0x` or `0X` of its own;
  - `%x` stops at the first character that is not a hexadecimal digit, and
    whatever follows the value is ignored.
- Consequences for a store:
  - `"7 26"`, `"7 0x"` and `"7 0xg"` make one conversion. They select
    register 7 and report success; they are neither writes nor errors.
  - `"70x1a"` selects register 70, because the `0` is read as part of the
    address.
  - A NUL in the buffer ends the scanned text.
- The address is scanned as a signed decimal into an `unsigned` and kept in
  the `int` `last_addr`. `"300"` therefore selects 300; the bus call reads
  register 0x2c (the `u8` command), while `show` prints `12c`.
- `show` prints the address in hexadecimal, but a store reads it back in
  decimal.

## Model

| member | source | states |
|---|---|---|
| KernelTypes.ToU32 | si5326.c:105-110 | the number a value leaves in an `unsigned`: congruent to it modulo 2^32, itself when it fits, plus 2^32 when it is a negative `int` |
| KernelTypes.ToU8 | si5326.c:75-78 | the `u8` a value is passed as: congruent modulo 256, itself when it fits |
| KernelTypes.ToI32 | si5326.c:118 | `last_addr = addr` keeps the bit pattern: converting back to `unsigned` gives `addr`, the low byte is unchanged, and small values are unchanged |
| Numerals.DigitValue | si5326.c:110 | a hexadecimal-class character has a digit value below 16, below 10 exactly for decimal digits |
| Numerals.DigitChar | si5326.c:93 | the lowercase digit printed for a digit value has that value |
| Numerals.Numeral | si5326.c:93 | a numeral is non-empty and made of lowercase digits of its base |
| Numerals.ValueOfNumeral | si5326.c:93 | reading a numeral back gives the number printed |
| Numerals.NumeralLength | si5326.c:93 | below base^2 a numeral has one digit, or two from the base upwards |
| Numerals.NumeralLeadingDigit | si5326.c:93 | the numeral of a positive number does not start with '0' |
| Numerals.ValueLeadingZero | si5326.c:93 | a leading '0' does not change the value read |
| Numerals.ValueSnoc | si5326.c:110 | appending a digit multiplies by the base and adds the digit |
| Numerals.Value | si5326.c:110 | the number a digit string denotes, most significant digit first, as `_parse_integer` accumulates it; ValueOfNumeral, ValueSnoc and ValueLeadingZero state its properties |
| Scan.IsSpace | si5326.c:110 | the white space the kernel scanner skips: tab to carriage return, space and 0xA0; SkipSpacesSplits and SkipSpacesOver state what skipping it does |
| Scan.ScanDecimal | si5326.c:110 | `%d`: blanks, an optional '-', at least one decimal digit; ScanDecimalAfterSpaces and ScanDecimalOf state its result |
| Scan.ScanDigits | si5326.c:110 | the digits of `%d` after the sign, at least one, read whole; ScanDigitsOf states its result |
| Scan.ScanHexTail | si5326.c:110 | `" 0x%x"`: blanks, the literal "0x", then `%x`; ScanHexTailOver, ScanHexTailOf, ScanHexTailEmpty and ScanHexTailAbsent state its result |
| Scan.ScanHex | si5326.c:110 | `%x`: blanks, then a hexadecimal number; ScanHexOf states its result |
| Scan.HexNumber | si5326.c:110 | `%x` after the blanks: it needs a hexadecimal digit first; HexNumberOf and HexNumberPrefixed state its result |
| Scan.SkipHexPrefix | si5326.c:110 | `_parse_integer_fixup_radix` for base 16 drops a "0x" or "0X"; HexNumberPrefixed states its effect |
| Scan.RunValue | si5326.c:110 | the number `_parse_integer` reads; RunValueOver states it |
| Scan.Signed | si5326.c:105-110 | a signed decimal stored in an `unsigned`, modulo 2^32; ScanExampleNegative shows -1 becoming 0xffffffff |
| Scan.ScanRegCommand | si5326.c:110 | `sscanf(buf, "%d 0x%x", &addr, &value)`: no conversion, the address only, or both; ScanSelectLine, ScanWriteLine, ScanSelectDespiteTail, ScanSelectEmptyValue and ScanRejects state its result for each shape of line |
| Scan.SkipSpaces | si5326.c:110 | skipping white space leaves a shorter text that does not start with white space |
| Scan.SkipSpacesSplits | si5326.c:110 | what is skipped is white space and what is left is the rest of the input |
| Scan.SkipSpacesOver | si5326.c:110 | leading white space is skipped whole and nothing after it |
| Scan.DigitRun | si5326.c:110 | the digits read are digits of the base and no further digit follows them |
| Scan.DigitRunOver | si5326.c:110 | a run of digits followed by a non-digit is read whole |
| Scan.RunValueOver | si5326.c:110 | such a run reads as the number it denotes |
| Scan.ScanDecimalAfterSpaces | si5326.c:110 | after white space `%d` takes an optional '-' and then the digits |
| Scan.ScanDigitsOf | si5326.c:110 | `%d` converts a whole run of decimal digits and leaves what follows |
| Scan.ScanDecimalOf | si5326.c:110 | `%d` converts blanks, an optional minus and decimal digits to that number modulo 2^32 |
| Scan.ScanHexTailOver | si5326.c:110 | once blanks and the literal "0x" have matched, the rest is the `%x` conversion |
| Scan.ScanHexOf | si5326.c:110 | `%x` skips blanks and converts a run of hexadecimal digits up to the first character that is not one, whatever follows (a lone "0" followed by 'x' or 'X' is read as a prefix instead: HexNumberPrefixed / ScanHexTailPrefixed) |
| Scan.HexNumberOf | si5326.c:110 | `%x` converts hexadecimal digits up to the first character that is not one; a lone "0" before an 'x' is left to HexNumberPrefixed |
| Scan.HexNumberPrefixed | si5326.c:110 | `%x` drops a "0x" or "0X" of its own and converts the digits after it, zero when there is none |
| Scan.ScanHexTailOf | si5326.c:110 | `" 0x%x"` matches blanks, "0x" and hexadecimal digits and converts the value, whatever follows its last digit (a lone "0" followed by 'x' or 'X' is read as a prefix instead: HexNumberPrefixed / ScanHexTailPrefixed) |
| Scan.ScanHexTailPrefixed | si5326.c:110 | after the format's "0x", a second "0x" or "0X" is dropped by `%x` and the digits after it are the value |
| Scan.ScanHexTailEmpty | si5326.c:110 | with no hexadecimal digit after "0x" and its blanks, the second conversion is not made |
| Scan.ScanHexTailAbsent | si5326.c:110 | without "0x" after the blanks, the second conversion is not made |
| Scan.ScanSelectLine | si5326.c:110 | an address followed only by blanks makes one conversion, the address |
| Scan.ScanWriteLine | si5326.c:110 | `<addr> 0x<hex>` with a blank before "0x" and any blanks after it makes two conversions, the address and the value, whatever text follows the value (a lone "0" followed by 'x' or 'X' is read as a prefix instead: ScanWritePrefixed) |
| Scan.ScanWritePrefixed | si5326.c:110 | `<addr> 0x0x<hex>` (or `0x0X`) makes two conversions, the address and the digits after the second prefix, zero when there are none |
| Scan.ScanSelectEmptyValue | si5326.c:110 | `<addr> 0x` followed by blanks and then the end or a non-hexadecimal character makes one conversion, the address |
| Scan.ScanSelectDespiteTail | si5326.c:110 | an address followed by anything but blanks and "0x" still makes one conversion |
| Scan.ScanRejects | si5326.c:110 | a line that does not start (after blanks) with a digit or '-' and a digit makes no conversion |
| Scan.ScanWriteDigits | si5326.c:110 | a decimal address, " 0x", a hexadecimal value and a line feed scan to both |
| Scan.ScanSelectDigits | si5326.c:110 | a decimal address and a line feed scan to the address |
| Scan.ScanWriteCommand | si5326.c:23 | the usage comment's write line with the value written as `0x<hex>`, for any byte address and value, scans back to them |
| Scan.ScanSelectCommand | si5326.c:24 | the select line of the usage comment, for any byte address, scans back to it |
| Scan.ValueExamples | si5326.c:110 | the digit strings "7", "300" and "1ff" read as 7, 300 and 0x1ff |
| Scan.ScanExampleWrite | si5326.c:110 | "7 0x1a" writes 0x1a at 7 |
| Scan.ScanExampleBlanks | si5326.c:110 | leading blanks and a blank after "0x" still write |
| Scan.ScanExampleDoublePrefix | si5326.c:110 | "7 0x0x1a" writes 0x1a: `%x` drops a "0x" of its own |
| Scan.ScanExampleBareValue | si5326.c:110 | "7 26" makes one conversion |
| Scan.ScanExampleEmptyValue | si5326.c:110 | "7 0x" makes one conversion, 7 |
| Scan.ScanExampleBadValue | si5326.c:110 | "7 0xg" makes one conversion, 7 |
| Scan.ScanExampleNoBlank | si5326.c:110 | "70x1a" makes one conversion, 70 |
| Scan.ScanExampleNegative | si5326.c:110 | "-1" converts to 0xffffffff |
| Scan.ScanExampleWideValue | si5326.c:110 | "7 0x1ff" converts the value whole |
| Scan.ScanExampleWideAddress | si5326.c:110 | "300" converts the address whole |
| Scan.ScanExampleRejects | si5326.c:110 | the empty line, a blank line and "+7" make no conversion |
| Format.Hex02 | si5326.c:93 | `%02x` prints at least two lowercase hexadecimal digits |
| Format.Hex02Reads | si5326.c:93 | `%02x` prints the number given, in exactly two characters iff it is below 0x100, with no padding beyond two characters |
| Format.NumeralLongAbove | si5326.c:93 | from 0x100 up a number takes more than two hexadecimal digits |
| Format.ShowText | si5326.c:93 | the text of `show` is at least five characters long |
| Format.ShowTextReads | si5326.c:93 | the text is the address, one space and the value, all other characters lowercase hex, each part reading back to its number; five characters for a byte address |
| Format.ShowTextExample | si5326.c:93 | address 7 and value 0x2a print as "07 2a"; address 0x12c prints as "12c" |
| SMBus.I2cClient.constructor | si5326.c:60 | a client over a bank of 256 registers and a fault map, with no transaction yet |
| SMBus.I2cClient.Reply | si5326.c:72 | a read returns a negative error exactly for a failing command, the register's byte otherwise |
| SMBus.I2cClient.ReadByteData | si5326.c:72 | one read transaction, logged; it returns the reply and changes no register |
| SMBus.I2cClient.WriteByteData | si5326.c:78 | one write transaction, logged; 0 and the byte stored, or the negative error and nothing stored |
| Si5326.ReadReg | si5326.c:69-73 | one read, at the low byte of the `int` register |
| Si5326.WriteReg | si5326.c:75-79 | one write of the byte at the low byte of the register; a negative result when it fails, and nothing stored |
| Si5326.FirstFault | si5326.c:154-157 | the first failing read: every earlier reply succeeded and this one failed |
| Si5326.PresenceVerdict | si5326.c:152-172 | the verdict of the presence check: `-EIO` on a failed read, 0 when the replies are the reset values of `si5326_reset_values`, `-ENODEV` otherwise; PresenceFound, PresenceAtFault, PresenceAllRead and PresenceVerdicts characterise it |
| Si5326.ProbeLength | si5326.c:154-166 | the check reads at most four registers |
| Si5326.ProbeReads | si5326.c:154-155 | reads of registers 0 to n-1 in order |
| Si5326.ProbeReadsInOrder | si5326.c:154-155 | position i of the probe reads is the read of register i |
| Si5326.ProbeReplies | si5326.c:155 | the four replies of registers 0..3 |
| Si5326.PresenceFound | si5326.c:54-57 | the check passes iff the four replies are exactly `si5326_reset_values`, 14 e4 42 05 (the constant `ResetValues`) |
| Si5326.PresenceAtFault | si5326.c:155-157 | the first failed read gives `-EIO`, and no register after it is read |
| Si5326.PresenceAllRead | si5326.c:158-172 | when all reads succeed, all four are read and the verdict is `-ENODEV` iff some register differs, 0 otherwise |
| Si5326.PresenceVerdicts | si5326.c:147-173 | `-EIO` iff some read fails; `-ENODEV` iff all succeed and some register differs |
| Si5326.InitClient | si5326.c:147-173 | returns the presence verdict of the replies and issues exactly the probe reads: registers 0.. up to the first failure, or all four |
| Si5326.CString | si5326.c:110 | the scanned text is the buffer up to its first NUL |
| Si5326.CStringWhole | si5326.c:110 | a buffer without a NUL is scanned whole |
| Si5326.IsComment | si5326.c:107-108 | a buffer whose first character is '#'; StoreComment states that it is ignored |
| Si5326.StoreAction | si5326.c:107-123 | what a store does: ignore a comment, reject a line with no conversion, select on one conversion, write the low bytes on two; StoreReg is proved to carry it out, and StoreComment, StoreWriteCommand and StoreSelectCommand state it for the usage lines |
| Si5326.StoreComment | si5326.c:107-108 | a line starting with '#' is ignored |
| Si5326.StoreWriteCommand | si5326.c:23 | the usage comment's write line with the value written as `0x<hex>` writes that value to that register |
| Si5326.StoreSelectCommand | si5326.c:24 | the usage comment's read line selects that register |
| Si5326.LineWithoutNul | si5326.c:23-24 | the usage comment's lines, with the value written as `0x<hex>`, hold no NUL |
| Si5326.StoreExampleBareValue | si5326.c:117-119 | "7 26" selects 7 |
| Si5326.StoreExampleTruncatedValue | si5326.c:75 | "7 0x1ff" writes 0xff at 7 |
| Si5326.StoreExampleWideAddress | si5326.c:118 | "300" selects 300 |
| Si5326.StoreExampleNegative | si5326.c:118 | "-1" selects -1 |
| Si5326.StoreExampleNul | si5326.c:110 | the scan stops at a NUL |
| Si5326.Si5326Data.constructor | si5326.c:184-189 | the record serves the client and `last_addr` is 0 |
| Si5326.Si5326Data.ShowReg | si5326.c:85-97 | exactly one read, at `last_addr`; on success the `%02x %02x` text and its length, otherwise the bus error and no text |
| Si5326.Si5326Data.StoreReg | si5326.c:99-125 | a comment returns `count` and changes nothing; no conversion returns `-EIO` and changes nothing; one conversion sets `last_addr` and makes no transaction; two conversions write the byte once, return `count` or `-EIO`, and keep `last_addr` |
| Si5326.WriteThenRead | si5326.c:22-24 | the usage comment's write (value written as `0x<hex>`), select and read return the register and the value written, when the bus does not fail that register |

## Left out

- `si5326_probe` and `si5326_remove` (adapter capability check, allocation and
  release, sysfs group creation), module init and exit, the device id tables
  and the attribute declarations: kernel registration with no behaviour of
  the gateway. Only the zeroed record that probe allocates is modelled, as
  the constructor of `Si5326Data`.
- The mutex in `struct si5326_data`: it is initialised but never taken, so
  there is nothing to serialise; concurrent stores and shows are not
  modelled.
- `dev_err`/`dev_info` messages, including the message naming each register
  that differs from its reset value: diagnostics only.
- The I2C transport itself. A failing transfer is modelled per command byte
  and fails every time; transient faults are not modelled.
- Si5326.Si5326Data.ShowReg: the sysfs page that `sprintf` writes into is
  modelled as the returned text; its size limit is not modelled.
- Scan.ScanRegCommand: `vsscanf` accumulates digits in 64 bits with
  wrap-around. The model reduces the exact number modulo 2^32, which gives
  the same stored value.
