/** The two SMBus calls the driver makes, `i2c_smbus_read_byte_data` and
    `i2c_smbus_write_byte_data`, over an abstract device: a bank of 256
    byte-wide registers and a set of commands whose transfers fail. Each call
    is one bus transaction; a ghost log records them in order. */
module SMBus {
  import opened KernelTypes

  datatype Transaction = ReadByte(command: Byte) | WriteByte(command: Byte, value: Byte)

  class I2cClient {
    /** The device's registers, indexed by the SMBus command byte. */
    var regs: seq<Byte>
    /** The commands whose transfers fail, and the negative error number the
        bus layer returns for them. */
    var faults: map<Byte, Errno>
    /** Every transaction issued on this client so far. */
    ghost var log: seq<Transaction>

    ghost predicate Valid()
      reads this`regs
    {
      |regs| == 0x100
    }

    constructor (regs0: seq<Byte>, faults0: map<Byte, Errno>)
      requires |regs0| == 0x100
      ensures Valid()
      ensures regs == regs0 && faults == faults0 && log == []
    {
      regs := regs0;
      faults := faults0;
      log := [];
    }

    /** What a read of `command` returns: the negative error number of a
        failing transfer, otherwise the register's byte. */
    function Reply(command: Byte): (r: int)
      reads this`regs, this`faults
      requires Valid()
      ensures r < 0 <==> command in faults
      ensures command in faults ==> r == faults[command]
      ensures command !in faults ==> r == regs[command]
    {
      if command in faults then faults[command] else regs[command]
    }

    /** `i2c_smbus_read_byte_data`: one read transaction; the registers do
        not change. */
    method ReadByteData(command: Byte) returns (rc: int)
      requires Valid()
      modifies this`log
      ensures rc == Reply(command)
      ensures log == old(log) + [ReadByte(command)]
    {
      rc := Reply(command);
      log := log + [ReadByte(command)];
    }

    /** `i2c_smbus_write_byte_data`: one write transaction. It returns 0 and
        stores the byte, or returns the transfer's error and stores nothing. */
    method WriteByteData(command: Byte, value: Byte) returns (rc: int)
      requires Valid()
      modifies this`regs, this`log
      ensures Valid()
      ensures log == old(log) + [WriteByte(command, value)]
      ensures command in faults ==> rc == faults[command] && rc < 0 && regs == old(regs)
      ensures command !in faults ==> rc == 0 && regs == old(regs)[command := value]
    {
      if command in faults {
        rc := faults[command];
      } else {
        rc := 0;
        regs := regs[command := value];
      }
      log := log + [WriteByte(command, value)];
    }
  }
}
