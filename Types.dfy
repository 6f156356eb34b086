/**
 * The data model of the raspiraw sensor driver (include/raspiraw.h):
 * register entries, the Bayer order and edit-operation enums, the
 * per-sensor descriptor and the per-mode working register image.
 */
module Types {

  /** A C `uint16_t`. */
  type U16 = bv16
  /** A C `uint8_t` / `unsigned char`, as put on the bus. */
  type Byte = bv8

  /** A single bit value as the editor takes it. */
  type Bit = b: int | 0 <= b <= 1

  /** A C `unsigned int` (32 bits). */
  type U32 = x: int | 0 <= x < 0x1_0000_0000

  /** A C `int` (32-bit two's complement). */
  type Int32 = x: int | -0x8000_0000 <= x < 0x8000_0000

  /** `struct sensor_regs`: one (register address, 16-bit value) pair. */
  datatype SensorReg = SensorReg(reg: U16, data: U16)

  /** `enum operation`: the four single-bit edits. */
  datatype Operation =
    | Equal   // set bit to value
    | Set     // set bit
    | Clear   // clear bit
    | Xor     // toggle bit when value is 1

  /**
   * `enum bayer_order`, ordered so that a horizontal flip is `^ 1`
   * and a vertical flip is `^ 2` on the stored code.
   */
  datatype BayerOrder = BGGR | GBRG | GRBG | RGGB {
    /** The enumerator's value as stored in `mode_def.order`. */
    function Code(): (c: bv32)
      ensures c < 4
    {
      match this
      case BGGR => 0
      case GBRG => 1
      case GRBG => 2
      case RGGB => 3
    }

    /** The order of the mirrored image: the two columns of the 2x2 tile swap. */
    function HFlipped(): BayerOrder
    {
      match this
      case BGGR => GBRG
      case GBRG => BGGR
      case GRBG => RGGB
      case RGGB => GRBG
    }

    /** The order of the upside-down image: the two rows of the 2x2 tile swap. */
    function VFlipped(): BayerOrder
    {
      match this
      case BGGR => GRBG
      case GBRG => RGGB
      case GRBG => BGGR
      case RGGB => GBRG
    }
  }

  /**
   * The enumerators are ordered so that an hflip is `^ 1` and a vflip is
   * `^ 2` on the stored code; both stay in 0..3 and undo themselves.
   */
  lemma FlipCodes(o: BayerOrder)
    ensures o.HFlipped().Code() == o.Code() ^ 1
    ensures o.VFlipped().Code() == o.Code() ^ 2
    ensures (o.Code() ^ 1) ^ 1 == o.Code() && (o.Code() ^ 2) ^ 2 == o.Code()
    ensures o.HFlipped().HFlipped() == o && o.VFlipped().VFlipped() == o
  {
    match o
    case BGGR =>
    case GBRG =>
    case GRBG =>
    case RGGB =>
  }

  /** The enumerator a stored code names, if any. */
  function OrderOf(code: bv32): (r: Option<BayerOrder>)
    ensures r.Some? <==> code < 4
    ensures r.Some? ==> r.value.Code() == code
  {
    if code == 0 then Some(BGGR)
    else if code == 1 then Some(GBRG)
    else if code == 2 then Some(GRBG)
    else if code == 3 then Some(RGGB)
    else None
  }

  datatype Option<T> = None | Some(value: T)

  /** The bit depths `DEPTH_T` has a row for. */
  datatype BitDepth = Depth8 | Depth10 | Depth12 | Depth16

  /** A four-character code other than 0, the value that means "no encoding". */
  type Fourcc = x: bv32 | x != 0 witness 1

  /**
   * A pixel encoding as a four-character code. The MMAL constants are
   * kept symbolic: a Bayer encoding is named by its order and depth,
   * any other non-zero code a mode table may give is `Fixed`, and
   * `NoEncoding` stands for the value 0.
   */
  datatype PixelEncoding =
    | NoEncoding
    | Bayer(order: BayerOrder, depth: BitDepth)
    | Fixed(fourcc: Fourcc)

  /**
   * `struct sensor_def`: the read-only description of one sensor.
   * Numeric bit widths and bit positions are C `int`s.
   */
  datatype SensorDef = SensorDef(
    name: string,
    modes: seq<Mode>,
    stop: seq<SensorReg>,
    i2cAddr: Byte,
    i2cAddressing: int,        // length in bytes of a register address
    i2cDataSize: int,          // length in bytes of register data to write
    i2cIdentLength: int,       // length in bytes of the ID register
    i2cIdentReg: U16,
    i2cIdentValue: U16,
    vflipReg: U16,
    vflipRegBit: int,
    hflipReg: U16,
    hflipRegBit: int,
    flipsDontChangeBayerOrder: bool,
    exposureReg: U16,
    exposureRegNumBits: int,
    vtsReg: U16,
    vtsRegNumBits: int,
    gainReg: U16,
    gainRegNumBits: int,
    xosReg: U16,
    xosRegNumBits: int,
    yosReg: U16,
    yosRegNumBits: int
  )

  /**
   * `struct mode_def`: one capture mode. The register image and the
   * Bayer order, width and height are edited in place before the
   * image is sent; `num_regs` is `regs.Length`.
   */
  class Mode {
    const regs: array<SensorReg>
    var width: int
    var height: int
    const encoding: PixelEncoding
    var order: bv32
    const nativeBitDepth: int
    const minVts: U32
    const lineTimeNs: int

    constructor (regs: array<SensorReg>, width: int, height: int, encoding: PixelEncoding,
                 order: bv32, nativeBitDepth: int, minVts: U32, lineTimeNs: int)
      ensures this.regs == regs && this.width == width && this.height == height
      ensures this.encoding == encoding && this.order == order
      ensures this.nativeBitDepth == nativeBitDepth && this.minVts == minVts
      ensures this.lineTimeNs == lineTimeNs
    {
      this.regs := regs;
      this.width := width;
      this.height := height;
      this.encoding := encoding;
      this.order := order;
      this.nativeBitDepth := nativeBitDepth;
      this.minVts := minVts;
      this.lineTimeNs := lineTimeNs;
    }
  }
}
