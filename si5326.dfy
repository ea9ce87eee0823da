/** The register gateway of the SI5326 driver: the `si5326_reg` attribute's
    store and show handlers, the presence check run at attach, and the
    register access helpers they share. */
module Si5326 {
  import opened KernelTypes
  import opened Numerals
  import opened Scan
  import opened Format
  import opened SMBus

  /** `si5326_reset_values`: what registers 0..3 hold after a device reset. */
  const ResetValues: seq<Byte> := [0x14, 0xe4, 0x42, 0x05]

  /** `NRESETS` */
  const NResets: nat := |ResetValues|

  /** `si5326_read_reg`: one read; the `int` register becomes the `u8`
      command of the SMBus call. */
  method ReadReg(client: I2cClient, reg: I32) returns (rc: int)
    requires client.Valid()
    modifies client`log
    ensures rc == client.Reply(ToU8(reg))
    ensures client.log == old(client.log) + [ReadByte(ToU8(reg))]
  {
    rc := client.ReadByteData(ToU8(reg));
  }

  /** `si5326_write_reg`: one write of a byte. */
  method WriteReg(client: I2cClient, reg: I32, value: Byte) returns (rc: int)
    requires client.Valid()
    modifies client`regs, client`log
    ensures client.Valid()
    ensures client.log == old(client.log) + [WriteByte(ToU8(reg), value)]
    ensures ToU8(reg) in client.faults ==> rc < 0 && client.regs == old(client.regs)
    ensures ToU8(reg) !in client.faults ==> rc == 0 && client.regs == old(client.regs)[ToU8(reg) := value]
  {
    rc := client.WriteByteData(ToU8(reg), value);
  }

  // ---------------------------------------------------------------------
  // The presence check

  /** The index of the first failing reply, or the number of replies when
      none fails. */
  function FirstFault(replies: seq<int>): (i: nat)
    ensures i <= |replies|
    ensures forall j | 0 <= j < i :: replies[j] >= 0
    ensures i < |replies| ==> replies[i] < 0
  {
    if replies == [] || replies[0] < 0 then 0 else 1 + FirstFault(replies[1..])
  }

  /** What the presence check concludes from the replies to the reads of
      registers 0..3: a failed read is a bus error, otherwise the device is
      present exactly when every register holds its reset value. */
  function PresenceVerdict(replies: seq<int>): int {
    if FirstFault(replies) < |replies| then -EIO
    else if replies == ResetValues then 0
    else -ENODEV
  }

  /** How many registers the presence check reads: up to and including the
      first failing one, all of them when none fails. */
  function ProbeLength(replies: seq<int>): (n: nat)
    ensures n <= |replies|
  {
    var i := FirstFault(replies);
    if i < |replies| then i + 1 else |replies|
  }

  /** Reads of registers 0, 1, ..., n - 1, in that order. */
  ghost function ProbeReads(n: nat): (r: seq<Transaction>)
    requires n <= 0x100
    ensures |r| == n
  {
    if n == 0 then [] else ProbeReads(n - 1) + [ReadByte(n - 1)]
  }

  /** ProbeReads(n) reads register i at position i, and no other register. */
  lemma {:induction false} ProbeReadsInOrder(n: nat)
    requires n <= 0x100
    ensures forall i | 0 <= i < n :: ProbeReads(n)[i] == ReadByte(i)
  {
    if n > 0 {
      ProbeReadsInOrder(n - 1);
      assert forall i | 0 <= i < n - 1 :: ProbeReads(n)[i] == ProbeReads(n - 1)[i];
    }
  }

  /** The replies the device gives to reads of registers 0..3. */
  function ProbeReplies(client: I2cClient): (r: seq<int>)
    reads client`regs, client`faults
    requires client.Valid()
    ensures |r| == NResets
  {
    [client.Reply(0), client.Reply(1), client.Reply(2), client.Reply(3)]
  }

  /** The check passes exactly when every register holds its reset value. */
  lemma PresenceFound(replies: seq<int>)
    requires |replies| == NResets
    ensures PresenceVerdict(replies) == 0 <==> replies == ResetValues
  {
    if replies == ResetValues {
      assert forall j | 0 <= j < NResets :: replies[j] >= 0;
      assert FirstFault(replies) == NResets;
    }
  }

  /** The first failed read ends the check with a bus error: no register
      after it is read. */
  lemma PresenceAtFault(replies: seq<int>, i: nat)
    requires |replies| == NResets
    requires i < NResets && replies[i] < 0
    requires forall j | 0 <= j < i :: replies[j] >= 0
    ensures PresenceVerdict(replies) == -EIO
    ensures ProbeLength(replies) == i + 1
  {
    assert FirstFault(replies) == i;
  }

  /** When every read succeeds, all four registers are read, and the verdict
      is "no device" exactly when some register differs from its reset
      value. */
  lemma PresenceAllRead(replies: seq<int>)
    requires |replies| == NResets
    requires forall j | 0 <= j < NResets :: replies[j] >= 0
    ensures ProbeLength(replies) == NResets
    ensures PresenceVerdict(replies) ==
      if exists j | 0 <= j < NResets :: replies[j] != ResetValues[j] then -ENODEV else 0
  {
    assert FirstFault(replies) == NResets;
    if forall j | 0 <= j < NResets :: replies[j] == ResetValues[j] {
      assert replies == ResetValues;
    }
  }

  /** The verdicts are exhaustive: bus error, absent device or present
      device. */
  lemma PresenceVerdicts(replies: seq<int>)
    requires |replies| == NResets
    ensures PresenceVerdict(replies) == -EIO <==> exists i | 0 <= i < NResets :: replies[i] < 0
    ensures PresenceVerdict(replies) == -ENODEV <==>
      (forall i | 0 <= i < NResets :: replies[i] >= 0) && exists i | 0 <= i < NResets :: replies[i] != ResetValues[i]
  {
    var k := FirstFault(replies);
    if k < NResets {
      assert replies[k] < 0;
    } else {
      PresenceAllRead(replies);
    }
  }

  /** `si5326_init_client`: reads registers 0..3 in order and compares them
      with the reset values. A failed read ends the check at once; a mismatch
      is noted and the reads go on. */
  method InitClient(client: I2cClient) returns (rc: int)
    requires client.Valid()
    modifies client`log
    ensures var replies := old(ProbeReplies(client));
      rc == PresenceVerdict(replies) &&
      client.log == old(client.log) + ProbeReads(ProbeLength(replies))
  {
    ghost var replies := ProbeReplies(client);
    var regs := new int[NResets];
    var fail := false;
    for ir := 0 to NResets
      invariant client.log == old(client.log) + ProbeReads(ir)
      invariant forall j | 0 <= j < ir :: regs[j] == replies[j] >= 0
      invariant fail <==> exists j | 0 <= j < ir :: replies[j] != ResetValues[j]
    {
      rc := ReadReg(client, ir);
      assert rc == replies[ir];
      assert ProbeReads(ir + 1) == ProbeReads(ir) + [ReadByte(ir)];
      if rc < 0 {
        PresenceAtFault(replies, ir);
        return -EIO;
      }
      regs[ir] := rc;
      if regs[ir] != ResetValues[ir] {
        fail := true;
      }
    }
    PresenceAllRead(replies);
    if fail {
      rc := -ENODEV;
    } else {
      rc := 0;
    }
  }

  // ---------------------------------------------------------------------
  // The si5326_reg attribute

  /** What a store to `si5326_reg` does. */
  datatype Action =
    | Ignore                              // a comment line
    | Reject                              // no conversion: -EIO
    | Select(addr: I32)                   // one conversion: `last_addr = addr`
    | Write(command: Byte, value: Byte)   // two conversions: one register write

  /** The C string in a sysfs buffer: the characters before the first NUL. */
  function CString(buf: string): (s: string)
    ensures |s| <= |buf| && s == buf[..|s|]
    ensures forall i | 0 <= i < |s| :: s[i] != '\0'
    ensures |s| < |buf| ==> buf[|s|] == '\0'
  {
    if buf == [] || buf[0] == '\0' then [] else [buf[0]] + CString(buf[1..])
  }

  /** A buffer without a NUL is its own C string. */
  lemma {:induction false} CStringWhole(buf: string)
    requires forall i | 0 <= i < |buf| :: buf[i] != '\0'
    ensures CString(buf) == buf
    decreases |buf|
  {
    if buf != [] {
      CStringWhole(buf[1..]);
      assert buf == [buf[0]] + buf[1..];
    }
  }

  /** A line whose first character is '#'. */
  predicate IsComment(buf: string) {
    |buf| > 0 && buf[0] == '#'
  }

  /** The action a store of `buf` takes. The scanned address passes from
      `unsigned` to the `int` field `last_addr`, and from there to the `u8`
      command of the bus call; the scanned value is cut to the `u8`
      parameter of `si5326_write_reg`. */
  function StoreAction(buf: string): Action {
    if IsComment(buf) then Ignore
    else
      match ScanRegCommand(CString(buf))
      case NoMatch => Reject
      case AddrOnly(addr) => Select(ToI32(addr))
      case AddrValue(addr, value) => Write(ToU8(ToI32(addr)), ToU8(value))
  }

  /** A comment is ignored whatever follows the '#'. */
  lemma StoreComment(rest: string)
    ensures StoreAction(['#'] + rest) == Ignore
  {
  }

  /** The usage comment's write line `echo addr value`, with the value
      written as "0x<hex>" (the form the format "%d 0x%x" expects),
      "addr 0x<hex>\n", writes that value to that register. */
  lemma StoreWriteCommand(addr: Byte, value: Byte)
    ensures StoreAction(Numeral(addr, 10) + " 0x" + Numeral(value, 16) + "\n") == Write(addr, value)
  {
    var num, hex := Numeral(addr, 10), Numeral(value, 16);
    var line := num + " 0x" + hex + "\n";
    LineWithoutNul(num, hex);
    CStringWhole(line);
    assert IsDigitIn(num[0], 10);
    ScanWriteCommand(addr, value);
  }

  lemma LineWithoutNul(num: string, hex: string)
    requires AllDigitsIn(num, 10) && AllDigitsIn(hex, 16)
    ensures forall i | 0 <= i < |num + " 0x" + hex + "\n"| :: (num + " 0x" + hex + "\n")[i] != '\0'
    ensures forall i | 0 <= i < |num + "\n"| :: (num + "\n")[i] != '\0'
  {
    var line := num + " 0x" + hex + "\n";
    forall i | 0 <= i < |line|
      ensures line[i] != '\0'
    {
      if i < |num| {
        assert line[i] == num[i];
      } else if i >= |num| + 3 && i < |num| + 3 + |hex| {
        assert line[i] == hex[i - |num| - 3];
      }
    }
    forall i | 0 <= i < |num + "\n"|
      ensures (num + "\n")[i] != '\0'
    {
      if i < |num| {
        assert (num + "\n")[i] == num[i];
      }
    }
  }

  /** The line the usage comment gives for a read, "addr\n", selects that
      register. */
  lemma StoreSelectCommand(addr: Byte)
    ensures StoreAction(Numeral(addr, 10) + "\n") == Select(addr)
  {
    var num := Numeral(addr, 10);
    LineWithoutNul(num, []);
    CStringWhole(num + "\n");
    assert IsDigitIn(num[0], 10);
    ScanSelectCommand(addr);
  }

  /** The usage comment's "echo addr value" without "0x" only selects the
      address, and reports success. */
  lemma StoreExampleBareValue()
    ensures StoreAction("7 26\n") == Select(7)
  {
    CStringWhole("7 26\n");
    ScanExampleBareValue();
  }

  /** The value is cut to its low byte, the `u8` parameter of the write. */
  lemma StoreExampleTruncatedValue()
    ensures StoreAction("7 0x1ff\n") == Write(7, 0xff)
  {
    CStringWhole("7 0x1ff\n");
    ScanExampleWideValue();
    assert !IsComment("7 0x1ff\n");
    assert ToI32(7) == 7 && ToU8(7) == 7;
    assert ToU8(0x1ff) == 0xff;
  }

  /** An address above 0xff is kept whole in `last_addr`; the bus call
      addresses its low byte. */
  lemma StoreExampleWideAddress()
    ensures StoreAction("300\n") == Select(300)
  {
    CStringWhole("300\n");
    ScanExampleWideAddress();
    assert ToI32(300) == 300;
    assert !IsComment("300\n");
  }

  /** A negative address is stored as the negative `int` it denotes. */
  lemma StoreExampleNegative()
    ensures StoreAction("-1\n") == Select(-1)
  {
    CStringWhole("-1\n");
    ScanExampleNegative();
  }

  /** The scan stops at a NUL: what follows it is not read. */
  lemma StoreExampleNul()
    ensures StoreAction("7\0 0x1a\n") == Select(7)
  {
    assert CString("7\0 0x1a\n") == "7" by {
      assert CString("\0 0x1a\n") == [];
      assert "7\0 0x1a\n"[1..] == "\0 0x1a\n";
    }
    assert "7" == [] + Sign(false) + "7" + [];
    assert Value("7", 10) == 7;
    ScanSelectLine([], false, "7", []);
  }

  /** A per-device record, `struct si5326_data`. The mutex it holds is never
      taken, and is left out. */
  class Si5326Data {
    const client: I2cClient
    /** The register that `show` reads. */
    var lastAddr: I32

    ghost predicate Valid()
      reads client`regs
    {
      client.Valid()
    }

    /** The record `si5326_probe` allocates with `kzalloc`: the client it
        serves and a zero `last_addr`. */
    constructor (client: I2cClient)
      requires client.Valid()
      ensures Valid()
      ensures this.client == client && lastAddr == 0
    {
      this.client := client;
      lastAddr := 0;
    }

    /** `si5326_show_reg`: one read of the register at `last_addr`. The text
        is the address and the byte in `%02x`, and its length is returned; a
        failed read returns the bus error and writes nothing. */
    method ShowReg() returns (rc: int, buf: string)
      requires Valid()
      modifies client`log
      ensures client.log == old(client.log) + [ReadByte(ToU8(lastAddr))]
      ensures var reply := client.Reply(ToU8(lastAddr));
        if reply >= 0 then buf == ShowText(ToU32(lastAddr), reply) && rc == |buf|
        else rc == reply && buf == []
    {
      rc := ReadReg(client, lastAddr);
      if rc >= 0 {
        buf := ShowText(ToU32(lastAddr), rc);
        rc := |buf|;
      } else {
        buf := [];
      }
    }

    /** `si5326_store_reg`, with `count` the length of `buf`. */
    method StoreReg(buf: string) returns (rc: int)
      requires Valid()
      modifies this`lastAddr, client`regs, client`log
      ensures Valid()
      ensures match StoreAction(buf)
        case Ignore =>
          rc == |buf| && lastAddr == old(lastAddr) && client.regs == old(client.regs) && client.log == old(client.log)
        case Reject =>
          rc == -EIO && lastAddr == old(lastAddr) && client.regs == old(client.regs) && client.log == old(client.log)
        case Select(addr) =>
          rc == |buf| && lastAddr == addr && client.regs == old(client.regs) && client.log == old(client.log)
        case Write(command, value) =>
          lastAddr == old(lastAddr) && client.log == old(client.log) + [WriteByte(command, value)] &&
          if command in client.faults then rc == -EIO && client.regs == old(client.regs)
          else rc == |buf| && client.regs == old(client.regs)[command := value]
    {
      if IsComment(buf) {
        return |buf|;
      }
      match ScanRegCommand(CString(buf))
      case AddrValue(addr, value) =>
        var err := WriteReg(client, ToI32(addr), ToU8(value));
        if err != 0 {
          rc := -EIO;
        } else {
          rc := |buf|;
        }
      case AddrOnly(addr) =>
        lastAddr := ToI32(addr);
        rc := |buf|;
      case NoMatch =>
        rc := -EIO;
    }
  }

  /** Writing a value with the usage comment's write line (the value written
      as "0x<hex>"), selecting the
      register with its read line and reading the attribute gives back the
      register and the value, unless the bus fails the register. */
  method WriteThenRead(dev: Si5326Data, addr: Byte, value: Byte) returns (text: string)
    requires dev.Valid()
    requires addr !in dev.client.faults
    modifies dev`lastAddr, dev.client`regs, dev.client`log
    ensures text == ShowText(addr, value)
    ensures dev.lastAddr == addr
    ensures dev.client.regs == old(dev.client.regs)[addr := value]
  {
    StoreWriteCommand(addr, value);
    var rc := dev.StoreReg(Numeral(addr, 10) + " 0x" + Numeral(value, 16) + "\n");
    StoreSelectCommand(addr);
    rc := dev.StoreReg(Numeral(addr, 10) + "\n");
    rc, text := dev.ShowReg();
  }
}
