/**
 * `send_regs` of src/RegOperation.c: the register image as it goes out
 * on the I2C bus. The bus is a trace of actions; the outcome of each
 * ioctl or write is only logged and never changes what comes next.
 */
module Bus {
  import opened Types

  /** What `send_regs` does for one entry. */
  datatype BusAction =
    | SetAddress(addr: U16)      // ioctl(fd, I2C_SLAVE_FORCE, data)
    | Sleep(ms: U16)             // vcos_sleep(data)
    | Write(bytes: seq<Byte>)    // write(fd, msg, len)

  /** The sentinel address that switches the I2C slave address. */
  const SET_ADDRESS_REG: U16 := 0xFFFF
  /** The sentinel address that sleeps for `data` milliseconds. */
  const SLEEP_REG: U16 := 0xFFFE

  /** `x & 0xFF` stored in an `unsigned char`. */
  function Lo(x: U16): Byte
  {
    (x & 0xFF) as Byte
  }

  /** `(x >> 8) & 0xFF` stored in an `unsigned char`. */
  function Hi(x: U16): Byte
  {
    (x >> 8) as Byte
  }

  /** The 16-bit value whose big-endian bytes are `hi`, `lo`. */
  function Word(hi: Byte, lo: Byte): U16
  {
    ((hi as U16) << 8) | (lo as U16)
  }

  /** A 16-bit value is its two bytes put back together. */
  lemma WordOfBytes(x: U16)
    ensures Word(Hi(x), Lo(x)) == x
  {
  }

  /** The two bytes of a word are the bytes it was made from. */
  lemma BytesOfWord(hi: Byte, lo: Byte)
    ensures Hi(Word(hi, lo)) == hi && Lo(Word(hi, lo)) == lo
  {
  }

  /** The number of address bytes: 1 for `i2c_addressing == 1`, otherwise 2. */
  function AddressLength(addressing: int): nat
  {
    if addressing == 1 then 1 else 2
  }

  /** The number of data bytes: 2 for `i2c_data_size == 2`, otherwise 1. */
  function DataLength(dataSize: int): nat
  {
    if dataSize == 2 then 2 else 1
  }

  /** The address bytes of a register: its low byte alone with 1-byte addressing. */
  function AddressBytes(addressing: int, reg: U16): (b: seq<Byte>)
    ensures |b| == AddressLength(addressing)
  {
    if addressing == 1 then [Lo(reg)] else [Hi(reg), Lo(reg)]
  }

  /** The data bytes of a register value, most significant first. */
  function DataBytes(dataSize: int, data: U16): (b: seq<Byte>)
    ensures |b| == DataLength(dataSize)
  {
    if dataSize == 2 then [Hi(data), Lo(data)] else [Lo(data)]
  }

  /**
   * The message written for an ordinary entry: the address bytes
   * followed by the data bytes (only the low byte unless the data size
   * is 2).
   */
  function WriteMessage(addressing: int, dataSize: int, r: SensorReg): (m: seq<Byte>)
    ensures |m| == AddressLength(addressing) + DataLength(dataSize)
  {
    AddressBytes(addressing, r.reg) + DataBytes(dataSize, r.data)
  }

  /** One or two bytes read big-endian. */
  function FromBytes(b: seq<Byte>): U16
    requires 1 <= |b| <= 2
  {
    if |b| == 1 then b[0] as U16 else Word(b[0], b[1])
  }

  /** Reads a message back as the entry a device would see. */
  function DecodeMessage(addressing: int, dataSize: int, m: seq<Byte>): Option<SensorReg>
  {
    var aLen, dLen := AddressLength(addressing), DataLength(dataSize);
    if |m| != aLen + dLen then None
    else Some(SensorReg(FromBytes(m[..aLen]), FromBytes(m[aLen..])))
  }

  /** The register address a device sees: its low byte alone with 1-byte addressing. */
  function DeliveredReg(addressing: int, reg: U16): U16
  {
    if addressing == 1 then reg & 0xFF else reg
  }

  /** The value a device sees: its low byte alone unless the data size is 2. */
  function DeliveredData(dataSize: int, data: U16): U16
  {
    if dataSize == 2 then data else data & 0xFF
  }

  /** What survives of an entry on the bus: the bytes the layout keeps. */
  function Delivered(addressing: int, dataSize: int, r: SensorReg): SensorReg
  {
    SensorReg(DeliveredReg(addressing, r.reg), DeliveredData(dataSize, r.data))
  }

  lemma AddressRoundTrip(addressing: int, reg: U16)
    ensures FromBytes(AddressBytes(addressing, reg)) == DeliveredReg(addressing, reg)
  {
    if addressing != 1 {
      WordOfBytes(reg);
    }
  }

  lemma DataRoundTrip(dataSize: int, data: U16)
    ensures FromBytes(DataBytes(dataSize, data)) == DeliveredData(dataSize, data)
  {
    if dataSize == 2 {
      WordOfBytes(data);
    }
  }

  /** A message is read as its address part followed by its data part. */
  lemma DecodeParts(addressing: int, dataSize: int, a: seq<Byte>, d: seq<Byte>)
    requires |a| == AddressLength(addressing) && |d| == DataLength(dataSize)
    ensures DecodeMessage(addressing, dataSize, a + d) == Some(SensorReg(FromBytes(a), FromBytes(d)))
  {
    assert (a + d)[..|a|] == a;
    assert (a + d)[|a|..] == d;
  }

  /**
   * The message layout is read back to the entry, less the bytes that
   * 1-byte addressing or a 1-byte data size drop.
   */
  lemma MessageRoundTrip(addressing: int, dataSize: int, r: SensorReg)
    ensures DecodeMessage(addressing, dataSize, WriteMessage(addressing, dataSize, r))
            == Some(Delivered(addressing, dataSize, r))
  {
    DecodeParts(addressing, dataSize, AddressBytes(addressing, r.reg), DataBytes(dataSize, r.data));
    AddressRoundTrip(addressing, r.reg);
    DataRoundTrip(dataSize, r.data);
  }

  /** With 2-byte addressing and 2-byte data every entry goes out exactly. */
  lemma MessageExact(addressing: int, dataSize: int, r: SensorReg)
    requires addressing != 1 && dataSize == 2
    ensures DecodeMessage(addressing, dataSize, WriteMessage(addressing, dataSize, r)) == Some(r)
  {
    MessageRoundTrip(addressing, dataSize, r);
  }

  /** What `send_regs` does for one entry of the register list. */
  function RegAction(sensor: SensorDef, r: SensorReg): (a: BusAction)
    ensures a.SetAddress? <==> r.reg == SET_ADDRESS_REG
    ensures a.Sleep? <==> r.reg == SLEEP_REG
    ensures a.SetAddress? ==> a.addr == r.data
    ensures a.Sleep? ==> a.ms == r.data
  {
    if r.reg == SET_ADDRESS_REG then SetAddress(r.data)
    else if r.reg == SLEEP_REG then Sleep(r.data)
    else Write(WriteMessage(sensor.i2cAddressing, sensor.i2cDataSize, r))
  }

  /**
   * An ordinary entry goes out as one write that reads back as the
   * delivered entry; a sentinel never goes out as a write.
   */
  lemma RegActionWrite(sensor: SensorDef, r: SensorReg)
    ensures RegAction(sensor, r).Write? <==> r.reg != SET_ADDRESS_REG && r.reg != SLEEP_REG
    ensures RegAction(sensor, r).Write? ==>
              DecodeMessage(sensor.i2cAddressing, sensor.i2cDataSize, RegAction(sensor, r).bytes)
              == Some(Delivered(sensor.i2cAddressing, sensor.i2cDataSize, r))
  {
    MessageRoundTrip(sensor.i2cAddressing, sensor.i2cDataSize, r);
  }

  /**
   * `send_regs(fd, sensor, regs, num_regs)`: one action per entry, in
   * order. A failed ioctl or a short write is only logged, so the trace
   * does not depend on how the bus answers.
   */
  method SendRegs(sensor: SensorDef, regs: array<SensorReg>) returns (trace: seq<BusAction>)
    ensures |trace| == regs.Length
    ensures forall i :: 0 <= i < regs.Length ==> trace[i] == RegAction(sensor, regs[i])
  {
    trace := [];
    var i := 0;
    while i < regs.Length
      invariant 0 <= i <= regs.Length
      invariant |trace| == i
      invariant forall k :: 0 <= k < i ==> trace[k] == RegAction(sensor, regs[k])
    {
      var r := regs[i];
      if r.reg == SET_ADDRESS_REG {
        trace := trace + [SetAddress(r.data)];
      } else if r.reg == SLEEP_REG {
        trace := trace + [Sleep(r.data)];
      } else {
        var msg: seq<Byte>;
        if sensor.i2cAddressing == 1 {
          msg := [Lo(r.reg), Lo(r.data)];
          if sensor.i2cDataSize == 2 {
            msg := [Lo(r.reg), Hi(r.data), Lo(r.data)];
          }
        } else {
          msg := [Hi(r.reg), Lo(r.reg), Lo(r.data)];
          if sensor.i2cDataSize == 2 {
            msg := [Hi(r.reg), Lo(r.reg), Hi(r.data), Lo(r.data)];
          }
        }
        trace := trace + [Write(msg)];
      }
      i := i + 1;
    }
  }
}
