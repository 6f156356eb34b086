/**
 * `i2c_rd` and `probe_sensor` of src/raspiraw.c: reading a sensor's
 * identification register and finding the first candidate that
 * answers with its own identification value. The I2C read is an
 * oracle: it receives the slave address, the address bytes written and
 * the read length, and answers with the number of messages the ioctl
 * reports as transferred and the 16-bit value read.
 */
module Probe {
  import opened Types
  import opened Bus

  /** What the `I2C_RDWR` ioctl reports, and the value it read. */
  datatype I2cReply = I2cReply(transferred: int, value: U16)

  /** The bus: (slave address, address message, read length) to the ioctl's answer. */
  type BusReader = (Byte, seq<Byte>, int) -> I2cReply

  /** The result of `i2c_rd`: its return value and the value read. */
  datatype ReadOutcome = ReadOutcome(status: int, value: U16)

  /**
   * The first message of `i2c_rd`: `buf = { reg >> 8, reg & 0xff }`,
   * cut to its first byte with 1-byte addressing.
   */
  function ReadRequest(addressing: int, reg: U16): (m: seq<Byte>)
    ensures |m| == if addressing == 1 then 1 else 2
    ensures m[0] == Hi(reg)
  {
    var buf := [Hi(reg), Lo(reg)];
    if addressing == 1 then buf[..1] else buf
  }

  /**
   * With 2-byte addressing the request carries the whole register
   * address; with 1-byte addressing it carries only the high byte, so
   * registers with the same high byte cannot be told apart.
   */
  lemma ReadRequestAddress(addressing: int, reg: U16, reg': U16)
    ensures addressing != 1 ==>
              (ReadRequest(addressing, reg) == ReadRequest(addressing, reg') <==> reg == reg')
    ensures addressing == 1 ==>
              (ReadRequest(addressing, reg) == ReadRequest(addressing, reg') <==> reg >> 8 == reg' >> 8)
  {
    var m, m' := ReadRequest(addressing, reg), ReadRequest(addressing, reg');
    if addressing != 1 && m == m' {
      assert m[0] == m'[0] && m[1] == m'[1];
      WordOfBytes(reg);
      WordOfBytes(reg');
    }
    if addressing == 1 {
      assert m == m' <==> Hi(reg) == Hi(reg');
    }
  }

  /**
   * `i2c_rd(fd, i2c_addr, reg, values, n, sensor)`: 0 only when the
   * ioctl reports both messages transferred, -1 otherwise.
   */
  function I2cRd(bus: BusReader, i2cAddr: Byte, reg: U16, n: int, addressing: int): (r: ReadOutcome)
    ensures r.status == 0 <==> bus(i2cAddr, ReadRequest(addressing, reg), n).transferred == 2
    ensures r.status == 0 || r.status == -1
    ensures r.value == bus(i2cAddr, ReadRequest(addressing, reg), n).value
  {
    var reply := bus(i2cAddr, ReadRequest(addressing, reg), n);
    if reply.transferred != 2 then ReadOutcome(-1, reply.value) else ReadOutcome(0, reply.value)
  }

  /** The identification read of one candidate. */
  function IdentRead(bus: BusReader, s: SensorDef): ReadOutcome
  {
    I2cRd(bus, s.i2cAddr, s.i2cIdentReg, s.i2cIdentLength, s.i2cAddressing)
  }

  /** A candidate is probed when its ID register is at most 2 bytes long. */
  predicate Probed(s: SensorDef)
  {
    s.i2cIdentLength <= 2
  }

  /** A candidate is found when it is probed, the read succeeds and gives its ID value. */
  predicate Identifies(bus: BusReader, s: SensorDef)
  {
    Probed(s) && IdentRead(bus, s).status == 0 && IdentRead(bus, s).value == s.i2cIdentValue
  }

  /** The first candidate at or after `from` that identifies itself. */
  function FirstMatch(bus: BusReader, sensors: seq<SensorDef>, from: nat): (r: Option<nat>)
    requires from <= |sensors|
    ensures r.Some? ==> from <= r.value < |sensors| && Identifies(bus, sensors[r.value])
    ensures r.Some? ==> forall k :: from <= k < r.value ==> !Identifies(bus, sensors[k])
    ensures r.None? ==> forall k :: from <= k < |sensors| ==> !Identifies(bus, sensors[k])
    decreases |sensors| - from
  {
    if from == |sensors| then None
    else if Identifies(bus, sensors[from]) then Some(from)
    else FirstMatch(bus, sensors, from + 1)
  }

  /** The candidates in `lo..hi` that are read, in list order. */
  function ProbedIn(sensors: seq<SensorDef>, lo: nat, hi: nat): (r: seq<nat>)
    requires lo <= hi <= |sensors|
    ensures forall k :: k in r ==> lo <= k < hi && Probed(sensors[k])
    ensures forall k :: lo <= k < hi && Probed(sensors[k]) ==> k in r
    ensures forall i, j :: 0 <= i < j < |r| ==> r[i] < r[j]
    decreases hi - lo
  {
    if lo == hi then []
    else if Probed(sensors[hi - 1]) then
      var p := ProbedIn(sensors, lo, hi - 1);
      forall i | 0 <= i < |p|
        ensures p[i] < hi - 1
      {
        assert p[i] in p;
      }
      p + [hi - 1]
    else ProbedIn(sensors, lo, hi - 1)
  }

  /**
   * `probe_sensor()` on the candidate list: the index of the sensor
   * found, if any, and the candidates whose ID register was read, in
   * order. `fd` is what `open` returned; the guard `!fd` gives up only
   * when it is 0.
   */
  method ProbeSensor(fd: int, sensors: seq<SensorDef>, bus: BusReader) returns (found: Option<nat>, probed: seq<nat>)
    ensures fd == 0 ==> found == None && probed == []
    ensures fd != 0 ==> found == FirstMatch(bus, sensors, 0)
    ensures fd != 0 ==> probed == ProbedIn(sensors, 0, if found.Some? then found.value + 1 else |sensors|)
  {
    found, probed := None, [];
    if fd == 0 {
      return;   // "Couldn't open I2C device"
    }
    var k := 0;
    while k < |sensors|
      invariant 0 <= k <= |sensors|
      invariant FirstMatch(bus, sensors, 0) == FirstMatch(bus, sensors, k)
      invariant probed == ProbedIn(sensors, 0, k)
    {
      var sensor := sensors[k];
      if sensor.i2cIdentLength <= 2 {
        probed := probed + [k];
        var rd := I2cRd(bus, sensor.i2cAddr, sensor.i2cIdentReg, sensor.i2cIdentLength, sensor.i2cAddressing);
        if rd.status == 0 && rd.value == sensor.i2cIdentValue {
          found := Some(k);
          return;
        }
      }
      k := k + 1;
    }
  }

  /** A bus on which no read completes identifies no sensor: the probe gives NULL. */
  lemma {:induction false} DeadBusFindsNothing(bus: BusReader, sensors: seq<SensorDef>, from: nat)
    requires from <= |sensors|
    requires forall a, m, n :: bus(a, m, n).transferred != 2
    ensures FirstMatch(bus, sensors, from) == None
    decreases |sensors| - from
  {
    if from < |sensors| {
      var s := sensors[from];
      assert bus(s.i2cAddr, ReadRequest(s.i2cAddressing, s.i2cIdentReg), s.i2cIdentLength).transferred != 2;
      DeadBusFindsNothing(bus, sensors, from + 1);
    }
  }
}
