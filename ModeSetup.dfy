/**
 * What `main` in src/raspiraw.c does to the chosen mode between probing
 * the sensor and starting the camera: it picks the mode, applies the
 * `-regs` override, the subsampling increments, the output size, the
 * crop offsets and the 4x4-binning window, settles the bit depth,
 * converts an exposure time into lines, runs `update_regs` and picks
 * the pixel encoding.
 */
module ModeSetup {
  import opened Types
  import opened Arith
  import opened RegEdit
  import opened FieldWrites
  import opened RegUpdate
  import opened Encoding
  import opened RegsOverride

  /**
   * The fields of `RASPIRAW_PARAMS_T` the set-up reads. Every numeric
   * option is a C `int`; -1 means "not given" for all but `bin44`,
   * whose default is 0. `regs` is the `-regs` string, if given, and
   * `writeHeaderG` says whether `--headerG` named a file.
   */
  datatype Config = Config(
    mode: Int32,
    hflip: Bit,
    vflip: Bit,
    exposure: Int32,
    gain: Int32,
    bitDepth: Int32,
    exposureUs: Int32,
    regs: Option<string>,
    hinc: Int32,
    vinc: Int32,
    voinc: Int32,
    hoinc: Int32,
    bin44: Int32,
    width: Int32,
    height: Int32,
    left: Int32,
    top: Int32,
    writeHeaderG: bool
  )

  /** The initialiser of `cfg` in `main`, for the fields above. */
  const Defaults := Config(0, 0, 0, -1, -1, -1, -1, None, -1, -1, -1, -1, 0, -1, -1, -1, -1, false)

  /** How the set-up ends: `main`'s exit status, or what the capture goes on with. */
  datatype Outcome =
    | Abort(code: int)
    | Ready(exposure: Int32, bitDepth: int, encoding: PixelEncoding)

  // ---------------------------------------------------------------
  // Choosing the mode
  // ---------------------------------------------------------------

  /** `cfg.mode` names a mode when it is an index into the sensor's table. */
  function SelectMode(sensor: SensorDef, mode: int): (r: Option<nat>)
    ensures r.Some? <==> 0 <= mode < |sensor.modes|
    ensures r.Some? ==> r.value == mode
  {
    if 0 <= mode < |sensor.modes| then Some(mode) else None
  }

  /** What the set-up may change: the chosen mode and its register image. */
  function ModeFrame(sensor: SensorDef, mode: int): set<object>
  {
    if 0 <= mode < |sensor.modes| then {sensor.modes[mode] as object, sensor.modes[mode].regs as object}
    else {}
  }

  // ---------------------------------------------------------------
  // The register edits, as write lists
  // ---------------------------------------------------------------

  /** The writes of a block guarded by `c`. */
  function When(c: bool, ws: seq<FieldWrite>): seq<FieldWrite>
  {
    if c then ws else []
  }

  /** The writes of the `-regs` override, if one was given. */
  function OverrideWrites(regs: Option<string>): seq<FieldWrite>
    requires regs.Some? ==> WellFormedOverride(regs.value)
  {
    if regs.Some? then RegsWrites(regs.value) else []
  }

  /** The subsampling increments: OV5647 takes hinc and vinc, IMX219 voinc and hoinc. */
  function IncWrites(name: string, cfg: Config): seq<FieldWrite>
  {
    When(cfg.hinc >= 0 && name == "ov5647", [FieldWrite(0x3814, 7, cfg.hinc)])
    + When(cfg.vinc >= 0 && name == "ov5647", [FieldWrite(0x3815, 7, cfg.vinc)])
    + When(cfg.voinc >= 0 && name == "imx219", [FieldWrite(0x0171, 2, cfg.voinc)])
    + When(cfg.hoinc >= 0 && name == "imx219", [FieldWrite(0x0170, 2, cfg.hoinc)])
  }

  /**
   * A positive value spread over a register pair: `v >> 8` into bits
   * 0..hi of `reg`, `v & 0xFF` into the low byte of `reg + 1` (the
   * `uint16_t` parameter wraps the address).
   */
  function PairWrites(reg: U16, hi: EndBit, v: int): seq<FieldWrite>
  {
    [FieldWrite(reg, hi, v / 256), FieldWrite(reg + 1, 7, v % 256)]
  }

  /** The output size, into the sensor's x and y output-size registers. */
  function SizeWrites(sensor: SensorDef, cfg: Config): seq<FieldWrite>
  {
    When(cfg.width > 0, PairWrites(sensor.xosReg, 3, cfg.width))
    + When(cfg.height > 0, PairWrites(sensor.yosReg, 3, cfg.height))
  }

  /** `cfg.mode < 2 ? 1 : 1 << (cfg.mode / 2 - 1)`: the crop-offset scale of an OV5647 mode. */
  function Scale(mode: nat): (k: nat)
    requires mode < 64
    ensures k >= 1
  {
    if mode < 2 then 1 else Pow2(mode / 2 - 1)
  }

  /** The C `int` product `offset * scale` is defined when it fits. */
  predicate OffsetFits(offset: int, mode: nat)
    requires mode < 64
  {
    offset <= 0 || offset * Scale(mode) < 0x8000_0000
  }

  /**
   * What the offset code needs to stay defined in C: a shift by at
   * most 30 and products that fit in an `int`.
   */
  predicate OffsetDefined(name: string, cfg: Config)
  {
    name == "ov5647" && (cfg.left > 0 || cfg.top > 0) && cfg.mode >= 0 ==>
      cfg.mode < 64 && OffsetFits(cfg.left, cfg.mode) && OffsetFits(cfg.top, cfg.mode)
  }

  /** The crop offsets of an OV5647, scaled by the mode's binning. */
  function OffsetWrites(name: string, cfg: Config): seq<FieldWrite>
    requires cfg.mode >= 0 && OffsetDefined(name, cfg)
  {
    (if cfg.left > 0 && name == "ov5647" then PairWrites(0x3800, 3, cfg.left * Scale(cfg.mode)) else [])
    + (if cfg.top > 0 && name == "ov5647" then PairWrites(0x3802, 3, cfg.top * Scale(cfg.mode)) else [])
  }

  /** An x or y window of the IMX219 in native pixels: its first and last column or row. */
  datatype Window = Window(border: U32, end: U32)

  /**
   * The binning window along one axis of `full` native pixels, in the
   * `unsigned` arithmetic of the source: `size * 2` (twice that with an
   * increment of 3) pixels, centred.
   */
  function BinWindow(full: nat, size: Int32, inc: Int32): Window
  {
    var n := (size * 2 * (if inc == 3 then 2 else 1)) % 0x1_0000_0000;
    var border := ((full - n) % 0x1_0000_0000) / 2;
    Window(border, (full - border - 1) % 0x1_0000_0000)
  }

  /** The four registers of a window, starting at `reg`, high byte first. */
  function WindowWrites(reg: U16, w: Window): seq<FieldWrite>
  {
    PairWrites(reg, 7, w.border) + PairWrites(reg + 2, 7, w.end)
  }

  /** The 4x4-binning windows of an IMX219: 3280 columns, 2464 rows. */
  function Bin44Writes(name: string, cfg: Config): seq<FieldWrite>
  {
    When(cfg.bin44 == 1 && name == "imx219",
         WindowWrites(0x0164, BinWindow(3280, cfg.width, cfg.hoinc))
         + WindowWrites(0x0168, BinWindow(2464, cfg.height, cfg.voinc)))
  }

  /** What the edits before the bit-depth check demand for the C code to be defined. */
  predicate EditsDefined(name: string, cfg: Config)
  {
    && (cfg.regs.Some? ==> WellFormedOverride(cfg.regs.value))
    && OffsetDefined(name, cfg)
  }

  /**
   * What the code after the `--headerG` check demands: `update_regs`
   * needs shifts below 31 and the exposure conversion a non-zero line
   * time. A refused `--headerG` exits before either.
   */
  predicate FinishDefined(sensor: SensorDef, cfg: Config, native: int, lineTimeNs: int)
  {
    !HeaderRefused(cfg, native) ==>
      UpdatableSensor(sensor) && (cfg.exposureUs != -1 ==> lineTimeNs != 0)
  }

  /**
   * What the set-up demands of its input for the C code to be defined.
   * An invalid mode index ends it before any of this is reached.
   */
  predicate Prepared(sensor: SensorDef, cfg: Config)
  {
    0 <= cfg.mode < |sensor.modes| ==>
      && EditsDefined(sensor.name, cfg)
      && FinishDefined(sensor, cfg, sensor.modes[cfg.mode].nativeBitDepth, sensor.modes[cfg.mode].lineTimeNs)
  }

  /** Every register edit `main` makes before `update_regs`, in order. */
  function SetupWrites(sensor: SensorDef, cfg: Config): seq<FieldWrite>
    requires EditsDefined(sensor.name, cfg) && cfg.mode >= 0
  {
    OverrideWrites(cfg.regs) + IncWrites(sensor.name, cfg) + SizeWrites(sensor, cfg)
    + OffsetWrites(sensor.name, cfg) + Bin44Writes(sensor.name, cfg)
  }

  // ---------------------------------------------------------------
  // Bit depth, exposure and encoding
  // ---------------------------------------------------------------

  /** The bit depth: the mode's native one unless one was asked for. */
  function ChosenBitDepth(bitDepth: int, native: int): (d: int)
    ensures bitDepth == -1 ==> d == native
    ensures bitDepth != -1 ==> d == bitDepth
  {
    if bitDepth == -1 then native else bitDepth
  }

  function Abs(x: int): nat
  {
    if x < 0 then -x else x
  }

  /** C99 integer division: the quotient rounded toward zero. */
  function TruncDiv(a: int, b: int): int
    requires b != 0
  {
    var q := Abs(a) / Abs(b);
    if (a < 0) == (b < 0) then q else -q
  }

  /** The conversion of a wider integer to a 32-bit `int`: reduction mod 2^32 into the signed range. */
  function Wrap32(x: int): Int32
  {
    (x + 0x8000_0000) % 0x1_0000_0000 - 0x8000_0000
  }

  /** `((int64_t)us * 1000) / line_time_ns`, stored into an `int`. */
  function ExposureLines(us: Int32, lineTimeNs: int): Int32
    requires lineTimeNs != 0
  {
    Wrap32(TruncDiv(us * 1000, lineTimeNs))
  }

  /** The exposure `update_regs` is given: the time, converted, when one was asked for. */
  function ChosenExposure(exposure: Int32, exposureUs: Int32, lineTimeNs: int): Int32
    requires exposureUs != -1 ==> lineTimeNs != 0
  {
    if exposureUs != -1 then ExposureLines(exposureUs, lineTimeNs) else exposure
  }

  /** The mode's own encoding, or else the one its (flipped) order and the bit depth map to. */
  function ChosenEncoding(modeEncoding: PixelEncoding, order: bv32, bitDepth: int): (e: PixelEncoding)
    ensures modeEncoding != NoEncoding ==> e == modeEncoding
    ensures modeEncoding == NoEncoding ==>
              (e != NoEncoding <==> order < 4 && (bitDepth == 8 || bitDepth == 10 || bitDepth == 12 || bitDepth == 16))
    ensures modeEncoding == NoEncoding && e != NoEncoding ==>
              e == Bayer(OrderOf(order).value, DepthOf(bitDepth).value)
  {
    if modeEncoding == NoEncoding then OrderAndBitDepthToEncoding(order, bitDepth) else modeEncoding
  }

  // ---------------------------------------------------------------
  // The blocks of main
  // ---------------------------------------------------------------

  /** `if (c) modReg(mode, w.reg, 0, w.hi, w.value, EQUAL);` */
  method GuardedWrite(mode: Mode, c: bool, w: FieldWrite)
    modifies mode.regs
    ensures mode.regs[..] == ApplyWrites(old(mode.regs[..]), When(c, [w]))
  {
    ghost var s0 := mode.regs[..];
    if c {
      ModReg(mode, w.reg, 0, w.hi, w.value, Equal);
      ApplyWritesSnoc(s0, [], w);
    }
  }

  /** The `-hinc`, `-vinc`, `-voinc` and `-hoinc` blocks, each tied to its sensor by name. */
  method IncBlock(name: string, mode: Mode, cfg: Config)
    modifies mode.regs
    ensures mode.regs[..] == ApplyWrites(old(mode.regs[..]), IncWrites(name, cfg))
  {
    ghost var s0 := mode.regs[..];
    ghost var w1 := When(cfg.hinc >= 0 && name == "ov5647", [FieldWrite(0x3814, 7, cfg.hinc)]);
    GuardedWrite(mode, cfg.hinc >= 0 && name == "ov5647", FieldWrite(0x3814, 7, cfg.hinc));
    ghost var w2 := When(cfg.vinc >= 0 && name == "ov5647", [FieldWrite(0x3815, 7, cfg.vinc)]);
    GuardedWrite(mode, cfg.vinc >= 0 && name == "ov5647", FieldWrite(0x3815, 7, cfg.vinc));
    ApplyWritesAppend(s0, w1, w2);
    ghost var w3 := When(cfg.voinc >= 0 && name == "imx219", [FieldWrite(0x0171, 2, cfg.voinc)]);
    GuardedWrite(mode, cfg.voinc >= 0 && name == "imx219", FieldWrite(0x0171, 2, cfg.voinc));
    ApplyWritesAppend(s0, w1 + w2, w3);
    ghost var w4 := When(cfg.hoinc >= 0 && name == "imx219", [FieldWrite(0x0170, 2, cfg.hoinc)]);
    GuardedWrite(mode, cfg.hoinc >= 0 && name == "imx219", FieldWrite(0x0170, 2, cfg.hoinc));
    ApplyWritesAppend(s0, w1 + w2 + w3, w4);
  }

  /**
   * `modReg(mode, reg, 0, hi, v >> 8, EQUAL)` and then
   * `modReg(mode, reg + 1, 0, 7, v & 0xFF, EQUAL)`; on a two's-complement
   * `int` the shift is a floor division and the mask a remainder.
   */
  method WritePair(mode: Mode, reg: U16, hi: EndBit, v: int)
    modifies mode.regs
    ensures mode.regs[..] == ApplyWrites(old(mode.regs[..]), PairWrites(reg, hi, v))
  {
    ghost var s0 := mode.regs[..];
    ModReg(mode, reg, 0, hi, v / 256, Equal);
    ApplyWritesSnoc(s0, [], FieldWrite(reg, hi, v / 256));
    ModReg(mode, reg + 1, 0, 7, v % 256, Equal);
    ApplyWritesSnoc(s0, [FieldWrite(reg, hi, v / 256)], FieldWrite(reg + 1, 7, v % 256));
  }

  /** The `-width` and `-height` blocks: the mode's size and its output-size registers. */
  method SizeBlock(sensor: SensorDef, mode: Mode, cfg: Config)
    modifies mode, mode.regs
    ensures mode.regs[..] == ApplyWrites(old(mode.regs[..]), SizeWrites(sensor, cfg))
    ensures mode.width == if cfg.width > 0 then cfg.width else old(mode.width)
    ensures mode.height == if cfg.height > 0 then cfg.height else old(mode.height)
    ensures mode.order == old(mode.order)
  {
    ghost var s0 := mode.regs[..];
    if cfg.width > 0 {
      mode.width := cfg.width;
      WritePair(mode, sensor.xosReg, 3, cfg.width);
    }
    ghost var w1 := When(cfg.width > 0, PairWrites(sensor.xosReg, 3, cfg.width));
    assert mode.regs[..] == ApplyWrites(s0, w1);
    if cfg.height > 0 {
      mode.height := cfg.height;
      WritePair(mode, sensor.yosReg, 3, cfg.height);
    }
    ApplyWritesAppend(s0, w1, When(cfg.height > 0, PairWrites(sensor.yosReg, 3, cfg.height)));
  }

  /** The `-left` and `-top` blocks, for an OV5647 only. */
  method OffsetBlock(name: string, mode: Mode, cfg: Config)
    requires cfg.mode >= 0 && OffsetDefined(name, cfg)
    modifies mode.regs
    ensures mode.regs[..] == ApplyWrites(old(mode.regs[..]), OffsetWrites(name, cfg))
  {
    ghost var s0 := mode.regs[..];
    ghost var w1: seq<FieldWrite> := [];
    if cfg.left > 0 {
      if name == "ov5647" {
        var val := cfg.left * Scale(cfg.mode);
        WritePair(mode, 0x3800, 3, val);
        w1 := PairWrites(0x3800, 3, val);
      }
    }
    assert mode.regs[..] == ApplyWrites(s0, w1);
    ghost var w2: seq<FieldWrite> := [];
    if cfg.top > 0 {
      if name == "ov5647" {
        var val := cfg.top * Scale(cfg.mode);
        WritePair(mode, 0x3802, 3, val);
        w2 := PairWrites(0x3802, 3, val);
      }
    }
    ApplyWritesAppend(s0, w1, w2);
  }

  /** One window of the `-bin44` block: its size, border and end, and the four writes. */
  method WindowBlock(mode: Mode, reg: U16, full: nat, size: Int32, inc: Int32)
    modifies mode.regs
    ensures mode.regs[..] == ApplyWrites(old(mode.regs[..]), WindowWrites(reg, BinWindow(full, size, inc)))
  {
    ghost var s0 := mode.regs[..];
    var n := (size * 2 * (if inc == 3 then 2 else 1)) % 0x1_0000_0000;
    var border := ((full - n) % 0x1_0000_0000) / 2;
    var end := (full - border - 1) % 0x1_0000_0000;
    assert Window(border, end) == BinWindow(full, size, inc);
    WritePair(mode, reg, 7, border);
    WritePair(mode, reg + 2, 7, end);
    ApplyWritesAppend(s0, PairWrites(reg, 7, border), PairWrites(reg + 2, 7, end));
  }

  /** The `-bin44` block, for an IMX219 only: the x window and then the y window. */
  method Bin44Block(name: string, mode: Mode, cfg: Config)
    modifies mode.regs
    ensures mode.regs[..] == ApplyWrites(old(mode.regs[..]), Bin44Writes(name, cfg))
  {
    if cfg.bin44 == 1 {
      if name == "imx219" {
        ghost var s0 := mode.regs[..];
        WindowBlock(mode, 0x0164, 3280, cfg.width, cfg.hoinc);
        WindowBlock(mode, 0x0168, 2464, cfg.height, cfg.voinc);
        ApplyWritesAppend(s0, WindowWrites(0x0164, BinWindow(3280, cfg.width, cfg.hoinc)),
                          WindowWrites(0x0168, BinWindow(2464, cfg.height, cfg.voinc)));
      }
    }
  }

  /** The edits `main` makes to the chosen mode before the bit depth is settled. */
  method EditMode(sensor: SensorDef, mode: Mode, cfg: Config)
    requires EditsDefined(sensor.name, cfg) && cfg.mode >= 0
    modifies mode, mode.regs
    ensures mode.regs[..] == ApplyWrites(old(mode.regs[..]), SetupWrites(sensor, cfg))
    ensures mode.width == if cfg.width > 0 then cfg.width else old(mode.width)
    ensures mode.height == if cfg.height > 0 then cfg.height else old(mode.height)
    ensures mode.order == old(mode.order)
  {
    ghost var s0 := mode.regs[..];
    if cfg.regs.Some? {
      ApplyRegsOverride(mode, cfg.regs.value);
    }
    ghost var ws := OverrideWrites(cfg.regs);
    assert mode.regs[..] == ApplyWrites(s0, ws);
    IncBlock(sensor.name, mode, cfg);
    ApplyWritesAppend(s0, ws, IncWrites(sensor.name, cfg));
    ws := ws + IncWrites(sensor.name, cfg);
    SizeBlock(sensor, mode, cfg);
    ApplyWritesAppend(s0, ws, SizeWrites(sensor, cfg));
    ws := ws + SizeWrites(sensor, cfg);
    OffsetBlock(sensor.name, mode, cfg);
    ApplyWritesAppend(s0, ws, OffsetWrites(sensor.name, cfg));
    ws := ws + OffsetWrites(sensor.name, cfg);
    Bin44Block(sensor.name, mode, cfg);
    ApplyWritesAppend(s0, ws, Bin44Writes(sensor.name, cfg));
  }

  /** `--headerG` is refused for a bit depth other than the mode's native one. */
  predicate HeaderRefused(cfg: Config, native: int)
  {
    cfg.writeHeaderG && ChosenBitDepth(cfg.bitDepth, native) != native
  }

  /** The outcome once `update_regs` has run and the order is final. */
  function ReadyOutcome(exposure: Int32, depth: int, encoding: PixelEncoding): (r: Outcome)
    ensures r.Ready? <==> encoding != NoEncoding
    ensures r.Ready? ==> r == Ready(exposure, depth, encoding)
    ensures r.Abort? ==> r.code == -3
  {
    if encoding == NoEncoding then Abort(-3) else Ready(exposure, depth, encoding)
  }

  /**
   * `main` after the edits: the bit-depth and `--headerG` checks, the
   * exposure conversion, `update_regs` and the encoding.
   */
  method FinishMode(sensor: SensorDef, mode: Mode, cfg: Config) returns (r: Outcome)
    requires FinishDefined(sensor, cfg, mode.nativeBitDepth, mode.lineTimeNs)
    modifies mode, mode.regs
    ensures mode.width == old(mode.width) && mode.height == old(mode.height)
    ensures HeaderRefused(cfg, mode.nativeBitDepth) ==>
              r == Abort(-1) && mode.regs[..] == old(mode.regs[..]) && mode.order == old(mode.order)
    ensures !HeaderRefused(cfg, mode.nativeBitDepth) ==>
              mode.regs[..] == UpdateImage(sensor, old(mode.regs[..]), mode.minVts, cfg.hflip, cfg.vflip,
                                           ChosenExposure(cfg.exposure, cfg.exposureUs, mode.lineTimeNs), cfg.gain)
    ensures !HeaderRefused(cfg, mode.nativeBitDepth) ==>
              mode.order == UpdateOrder(sensor, old(mode.order), cfg.hflip, cfg.vflip)
    ensures !HeaderRefused(cfg, mode.nativeBitDepth) ==>
              r == ReadyOutcome(ChosenExposure(cfg.exposure, cfg.exposureUs, mode.lineTimeNs),
                                ChosenBitDepth(cfg.bitDepth, mode.nativeBitDepth),
                                ChosenEncoding(mode.encoding, mode.order, ChosenBitDepth(cfg.bitDepth, mode.nativeBitDepth)))
  {
    var bitDepth := cfg.bitDepth;
    if bitDepth == -1 {
      bitDepth := mode.nativeBitDepth;
    }
    if cfg.writeHeaderG && bitDepth != mode.nativeBitDepth {
      return Abort(-1);   // exit(-1): --headerG needs the native depth
    }
    var exposure := cfg.exposure;
    if cfg.exposureUs != -1 {
      exposure := ExposureLines(cfg.exposureUs, mode.lineTimeNs);
    }
    UpdateRegs(sensor, mode, cfg.hflip, cfg.vflip, exposure, cfg.gain);
    var encoding := if mode.encoding == NoEncoding then OrderAndBitDepthToEncoding(mode.order, bitDepth)
                    else mode.encoding;
    if encoding == NoEncoding {
      return Abort(-3);
    }
    return Ready(exposure, bitDepth, encoding);
  }

  /** `main` on a valid mode, from the `-regs` block to the encoding check. */
  method ConfigureMode(sensor: SensorDef, mode: Mode, cfg: Config) returns (r: Outcome)
    requires Prepared(sensor, cfg) && 0 <= cfg.mode < |sensor.modes| && mode == sensor.modes[cfg.mode]
    modifies mode, mode.regs
    ensures mode.width == if cfg.width > 0 then cfg.width else old(mode.width)
    ensures mode.height == if cfg.height > 0 then cfg.height else old(mode.height)
    ensures HeaderRefused(cfg, mode.nativeBitDepth) ==>
              && r == Abort(-1)
              && mode.regs[..] == ApplyWrites(old(mode.regs[..]), SetupWrites(sensor, cfg))
              && mode.order == old(mode.order)
    ensures !HeaderRefused(cfg, mode.nativeBitDepth) ==>
              mode.regs[..] == UpdateImage(sensor, ApplyWrites(old(mode.regs[..]), SetupWrites(sensor, cfg)),
                                           mode.minVts, cfg.hflip, cfg.vflip,
                                           ChosenExposure(cfg.exposure, cfg.exposureUs, mode.lineTimeNs), cfg.gain)
    ensures !HeaderRefused(cfg, mode.nativeBitDepth) ==>
              mode.order == UpdateOrder(sensor, old(mode.order), cfg.hflip, cfg.vflip)
    ensures !HeaderRefused(cfg, mode.nativeBitDepth) ==>
              r == ReadyOutcome(ChosenExposure(cfg.exposure, cfg.exposureUs, mode.lineTimeNs),
                                ChosenBitDepth(cfg.bitDepth, mode.nativeBitDepth),
                                ChosenEncoding(mode.encoding, mode.order, ChosenBitDepth(cfg.bitDepth, mode.nativeBitDepth)))
  {
    EditMode(sensor, mode, cfg);
    r := FinishMode(sensor, mode, cfg);
  }

  /** `main` from the mode check on: an index outside the table ends it with -2. */
  method SetUpMode(sensor: SensorDef, cfg: Config) returns (r: Outcome)
    requires SelectMode(sensor, cfg.mode).Some? ==> Prepared(sensor, cfg)
    modifies ModeFrame(sensor, cfg.mode)
    ensures SelectMode(sensor, cfg.mode).None? ==> r == Abort(-2)
    ensures SelectMode(sensor, cfg.mode).Some? ==>
              var mode := sensor.modes[cfg.mode];
              && mode.width == (if cfg.width > 0 then cfg.width else old(mode.width))
              && mode.height == (if cfg.height > 0 then cfg.height else old(mode.height))
              && (HeaderRefused(cfg, mode.nativeBitDepth) ==>
                    && r == Abort(-1)
                    && mode.regs[..] == ApplyWrites(old(mode.regs[..]), SetupWrites(sensor, cfg))
                    && mode.order == old(mode.order))
              && (!HeaderRefused(cfg, mode.nativeBitDepth) ==>
                    var exposure := ChosenExposure(cfg.exposure, cfg.exposureUs, mode.lineTimeNs);
                    var depth := ChosenBitDepth(cfg.bitDepth, mode.nativeBitDepth);
                    && mode.regs[..] == UpdateImage(sensor, ApplyWrites(old(mode.regs[..]), SetupWrites(sensor, cfg)),
                                                    mode.minVts, cfg.hflip, cfg.vflip, exposure, cfg.gain)
                    && mode.order == UpdateOrder(sensor, old(mode.order), cfg.hflip, cfg.vflip)
                    && r == ReadyOutcome(exposure, depth, ChosenEncoding(mode.encoding, mode.order, depth)))
  {
    var sel := SelectMode(sensor, cfg.mode);
    if sel.None? {
      return Abort(-2);     // "Invalid mode"
    }
    r := ConfigureMode(sensor, sensor.modes[sel.value], cfg);
  }

  // ---------------------------------------------------------------
  // What the edits leave in the registers
  // ---------------------------------------------------------------

  /**
   * The number a register pair holds as the sensor reads it: bits
   * 0..hi of the first register, then the low byte of the second.
   */
  function PairValue(t: seq<SensorReg>, i: nat, j: nat, hi: EndBit): int
    requires i < |t| && j < |t|
  {
    DataBits(t[i].data, hi + 1) * 256 + LowByte(t[j].data)
  }

  /** `(v >> 8) mod P` above `v & 0xFF` is v mod 256P. */
  lemma PairArith(v: int, p: nat)
    requires p > 0
    ensures (v / 256) % p * 256 + v % 256 == v % (256 * p)
  {
    var q, r := v / 256, v % 256;
    var a, b := q / p, q % p;
    assert v == 256 * q + r;
    assert q == p * a + b;
    assert v == (256 * p) * a + (256 * b + r);
    DivUnique(v, 256 * p, a, 256 * b + r);
  }

  /** The first register of a pair, left alone by the later writes, holds bits 0..hi of `v >> 8`. */
  lemma HighPartReadBack(s: seq<SensorReg>, ws: seq<FieldWrite>, n: nat, a: U16, hi: EndBit, v: int)
    requires n < |ws| && ws[n] == FieldWrite(a, hi, v / 256)
    requires FindReg(s, a) < |s|
    requires forall m :: n < m < |ws| ==> ws[m].reg != a
    ensures |ApplyWrites(s, ws)| == |s|
    ensures DataBits(ApplyWrites(s, ws)[FindReg(s, a)].data, hi + 1) == (v / 256) % Pow2(hi + 1)
  {
    ApplyWritesField(s, ws, n);
    DataBitsAgree(ApplyWrites(s, ws)[FindReg(s, a)].data, v / 256, hi + 1);
  }

  /**
   * A pair written by `PairWrites` and left alone by the later writes
   * holds the value's low 12 bits (hi = 3) or low 16 bits (hi = 7).
   */
  lemma PairReadBack(s: seq<SensorReg>, ws: seq<FieldWrite>, n: nat, a: U16, hi: EndBit, v: int)
    requires n + 1 < |ws| && (hi == 3 || hi == 7)
    requires ws[n] == FieldWrite(a, hi, v / 256) && ws[n + 1] == FieldWrite(a + 1, 7, v % 256)
    requires FindReg(s, a) < |s| && FindReg(s, a + 1) < |s|
    requires forall m :: n < m < |ws| ==> ws[m].reg != a
    requires forall m :: n + 1 < m < |ws| ==> ws[m].reg != a + 1
    ensures |ApplyWrites(s, ws)| == |s|
    ensures PairValue(ApplyWrites(s, ws), FindReg(s, a), FindReg(s, a + 1), hi)
            == v % PairRange(hi)
  {
    HighPartReadBack(s, ws, n, a, hi, v);
    ApplyWritesLowByte(s, ws, n + 1);
    assert (v % 256) % 256 == v % 256;
    if hi == 3 {
      assert Pow2(4) == 16;
      PairArith(v, 16);
    } else {
      assert Pow2(8) == 256;
      PairArith(v, 256);
    }
  }

  /** A pair that is the whole write list. */
  lemma PairWritesReadBack(s: seq<SensorReg>, a: U16, hi: EndBit, v: int)
    requires hi == 3 || hi == 7
    requires FindReg(s, a) < |s| && FindReg(s, a + 1) < |s|
    ensures |ApplyWrites(s, PairWrites(a, hi, v))| == |s|
    ensures PairValue(ApplyWrites(s, PairWrites(a, hi, v)), FindReg(s, a), FindReg(s, a + 1), hi)
            == v % PairRange(hi)
  {
    PairReadBack(s, PairWrites(a, hi, v), 0, a, hi, v);
  }

  /** Two register pairs that share no address (`a + 1 != b + 1` follows from `a != b`). */
  predicate PairsApart(a: U16, b: U16)
  {
    a != b && a != b + 1 && b != a + 1
  }

  lemma SuccInjective(a: U16, b: U16)
    requires a != b
    ensures a + 1 != b + 1
  {
  }

  /** The values a pair of bits 0..hi and 0..7 reads back: the low 12 or 16 bits. */
  function PairRange(hi: EndBit): nat
  {
    if hi == 3 then 4096 else 65536
  }

  /** No write of `q` targets address `c`. */
  predicate Avoids(q: seq<FieldWrite>, c: U16)
  {
    forall m :: 0 <= m < |q| ==> q[m].reg != c
  }

  lemma AvoidsAppend(q1: seq<FieldWrite>, q2: seq<FieldWrite>, c: U16)
    requires Avoids(q1, c) && Avoids(q2, c)
    ensures Avoids(q1 + q2, c)
  {
    forall m | 0 <= m < |q1 + q2|
      ensures (q1 + q2)[m].reg != c
    {
      if m >= |q1| {
        assert (q1 + q2)[m] == q2[m - |q1|];
      }
    }
  }

  /** A pair at `b` targets neither address it is kept apart from. */
  lemma PairMisses(b: U16, hi: EndBit, w: int, c: U16)
    requires c != b && c != b + 1
    ensures Avoids(PairWrites(b, hi, w), c)
  {
  }

  /** A pair written last reads back whatever was written before it. */
  lemma LastPairReadBack(s: seq<SensorReg>, p: seq<FieldWrite>, b: U16, hi: EndBit, w: int)
    requires hi == 3 || hi == 7
    requires FindReg(s, b) < |s| && FindReg(s, b + 1) < |s|
    ensures |ApplyWrites(s, p + PairWrites(b, hi, w))| == |s|
    ensures PairValue(ApplyWrites(s, p + PairWrites(b, hi, w)), FindReg(s, b), FindReg(s, b + 1), hi) == w % PairRange(hi)
  {
    var t := ApplyWrites(s, p);
    ApplyWritesAppend(s, p, PairWrites(b, hi, w));
    ApplyWritesAddresses(s, p);
    FindRegSameAddresses(s, t, b);
    FindRegSameAddresses(s, t, b + 1);
    PairWritesReadBack(t, b, hi, w);
  }

  /** A pair followed by writes to other addresses still reads back. */
  lemma FirstPairReadBack(s: seq<SensorReg>, a: U16, hi: EndBit, v: int, q: seq<FieldWrite>)
    requires hi == 3 || hi == 7
    requires FindReg(s, a) < |s| && FindReg(s, a + 1) < |s|
    requires Avoids(q, a) && Avoids(q, a + 1)
    ensures |ApplyWrites(s, PairWrites(a, hi, v) + q)| == |s|
    ensures PairValue(ApplyWrites(s, PairWrites(a, hi, v) + q), FindReg(s, a), FindReg(s, a + 1), hi) == v % PairRange(hi)
  {
    var p := PairWrites(a, hi, v);
    var t := ApplyWrites(s, p);
    ApplyWritesAppend(s, p, q);
    ApplyWritesAddresses(s, p);
    PairWritesReadBack(s, a, hi, v);
    FindRegSameAddresses(s, t, a);
    FindRegSameAddresses(s, t, a + 1);
    Untouched(t, q, a);
    Untouched(t, q, a + 1);
  }

  /** A pair between other writes, none after it to its addresses, reads back. */
  lemma MiddlePairReadBack(s: seq<SensorReg>, p: seq<FieldWrite>, a: U16, hi: EndBit, v: int, q: seq<FieldWrite>)
    requires hi == 3 || hi == 7
    requires FindReg(s, a) < |s| && FindReg(s, a + 1) < |s|
    requires Avoids(q, a) && Avoids(q, a + 1)
    ensures |ApplyWrites(s, p + (PairWrites(a, hi, v) + q))| == |s|
    ensures PairValue(ApplyWrites(s, p + (PairWrites(a, hi, v) + q)), FindReg(s, a), FindReg(s, a + 1), hi)
            == v % PairRange(hi)
  {
    var t := ApplyWrites(s, p);
    ApplyWritesAppend(s, p, PairWrites(a, hi, v) + q);
    ApplyWritesAddresses(s, p);
    FindRegSameAddresses(s, t, a);
    FindRegSameAddresses(s, t, a + 1);
    FirstPairReadBack(t, a, hi, v, q);
  }

  /** The first entry of an address no write targets is left alone. */
  lemma Untouched(t: seq<SensorReg>, q: seq<FieldWrite>, c: U16)
    requires FindReg(t, c) < |t|
    requires Avoids(q, c)
    ensures |ApplyWrites(t, q)| == |t|
    ensures ApplyWrites(t, q)[FindReg(t, c)] == t[FindReg(t, c)]
  {
    forall m | 0 <= m < |q|
      ensures FindReg(t, q[m].reg) != FindReg(t, c)
    {
      FindRegDistinct(t, c, q[m].reg);
    }
    ApplyWritesOther(t, q, FindReg(t, c));
  }

  /** A pair shares no address with what `PairsApart` keeps it from. */
  lemma PairAvoids(a: U16, b: U16, hi: EndBit, w: int)
    requires PairsApart(a, b)
    ensures Avoids(PairWrites(b, hi, w), a) && Avoids(PairWrites(b, hi, w), a + 1)
  {
    SuccInjective(a, b);
  }

  /**
   * `-width` lands in the x output-size registers as the width mod
   * 4096 (the 12 bits they have), unless the height pair overwrites it.
   */
  lemma WidthReadBack(s: seq<SensorReg>, sensor: SensorDef, cfg: Config)
    requires cfg.width > 0
    requires cfg.height > 0 ==> PairsApart(sensor.xosReg, sensor.yosReg)
    requires FindReg(s, sensor.xosReg) < |s| && FindReg(s, sensor.xosReg + 1) < |s|
    ensures |ApplyWrites(s, SizeWrites(sensor, cfg))| == |s|
    ensures PairValue(ApplyWrites(s, SizeWrites(sensor, cfg)), FindReg(s, sensor.xosReg), FindReg(s, sensor.xosReg + 1), 3)
            == cfg.width % 4096
  {
    var y := When(cfg.height > 0, PairWrites(sensor.yosReg, 3, cfg.height));
    SizeSplit(sensor, cfg);
    if cfg.height > 0 {
      PairAvoids(sensor.xosReg, sensor.yosReg, 3, cfg.height);
    }
    FirstPairReadBack(s, sensor.xosReg, 3, cfg.width, y);
  }

  /** With a width given, the size writes start with the width pair. */
  lemma SizeSplit(sensor: SensorDef, cfg: Config)
    requires cfg.width > 0
    ensures SizeWrites(sensor, cfg)
            == PairWrites(sensor.xosReg, 3, cfg.width) + When(cfg.height > 0, PairWrites(sensor.yosReg, 3, cfg.height))
  {
  }

  /** `-height` lands in the y output-size registers as the height mod 4096. */
  lemma HeightReadBack(s: seq<SensorReg>, sensor: SensorDef, cfg: Config)
    requires cfg.height > 0
    requires FindReg(s, sensor.yosReg) < |s| && FindReg(s, sensor.yosReg + 1) < |s|
    ensures |ApplyWrites(s, SizeWrites(sensor, cfg))| == |s|
    ensures PairValue(ApplyWrites(s, SizeWrites(sensor, cfg)), FindReg(s, sensor.yosReg), FindReg(s, sensor.yosReg + 1), 3)
            == cfg.height % 4096
  {
    HeightSplit(sensor, cfg);
    LastPairReadBack(s, When(cfg.width > 0, PairWrites(sensor.xosReg, 3, cfg.width)), sensor.yosReg, 3, cfg.height);
  }

  /** With a height given, the size writes end with the height pair. */
  lemma HeightSplit(sensor: SensorDef, cfg: Config)
    requires cfg.height > 0
    ensures SizeWrites(sensor, cfg)
            == When(cfg.width > 0, PairWrites(sensor.xosReg, 3, cfg.width)) + PairWrites(sensor.yosReg, 3, cfg.height)
  {
  }

  /**
   * `-left` and `-top` on an OV5647 land in 0x3800/0x3801 and
   * 0x3802/0x3803 as the offset times the mode's scale, mod 4096.
   */
  lemma OffsetReadBack(s: seq<SensorReg>, cfg: Config)
    requires cfg.mode >= 0 && OffsetDefined("ov5647", cfg)
    requires FindReg(s, 0x3800) < |s| && FindReg(s, 0x3801) < |s|
    requires FindReg(s, 0x3802) < |s| && FindReg(s, 0x3803) < |s|
    ensures |ApplyWrites(s, OffsetWrites("ov5647", cfg))| == |s|
    ensures cfg.left > 0 ==>
              PairValue(ApplyWrites(s, OffsetWrites("ov5647", cfg)), FindReg(s, 0x3800), FindReg(s, 0x3801), 3)
              == cfg.left * Scale(cfg.mode) % 4096
    ensures cfg.top > 0 ==>
              PairValue(ApplyWrites(s, OffsetWrites("ov5647", cfg)), FindReg(s, 0x3802), FindReg(s, 0x3803), 3)
              == cfg.top * Scale(cfg.mode) % 4096
  {
    assert PairsApart(0x3800, 0x3802);
    if cfg.left > 0 && cfg.top > 0 {
      var x, y := cfg.left * Scale(cfg.mode), cfg.top * Scale(cfg.mode);
      assert OffsetWrites("ov5647", cfg) == PairWrites(0x3800, 3, x) + PairWrites(0x3802, 3, y);
      LastPairReadBack(s, PairWrites(0x3800, 3, x), 0x3802, 3, y);
      PairAvoids(0x3800, 0x3802, 3, y);
      FirstPairReadBack(s, 0x3800, 3, x, PairWrites(0x3802, 3, y));
    } else if cfg.left > 0 {
      var x := cfg.left * Scale(cfg.mode);
      assert OffsetWrites("ov5647", cfg) == [] + PairWrites(0x3800, 3, x);
      LastPairReadBack(s, [], 0x3800, 3, x);
    } else if cfg.top > 0 {
      var y := cfg.top * Scale(cfg.mode);
      assert OffsetWrites("ov5647", cfg) == [] + PairWrites(0x3802, 3, y);
      LastPairReadBack(s, [], 0x3802, 3, y);
    } else {
      assert OffsetWrites("ov5647", cfg) == [];
    }
  }

  /** The 4x4-binning writes as four register pairs, in source order. */
  lemma Bin44Split(cfg: Config)
    requires cfg.bin44 == 1
    ensures var x, y := BinWindow(3280, cfg.width, cfg.hoinc), BinWindow(2464, cfg.height, cfg.voinc);
            Bin44Writes("imx219", cfg) == Bin44Pairs(x, y)
  {
  }

  /** The registers of every pair the 4x4-binning block writes are in the image. */
  ghost predicate HasBin44Regs(s: seq<SensorReg>)
  {
    forall c: U16 :: 0x0164 <= c <= 0x016b ==> FindReg(s, c) < |s|
  }

  /**
   * With `-bin44 1` on an IMX219, each of the four 16-bit register pairs
   * 0x0164/5, 0x0166/7, 0x0168/9 and 0x016a/b reads back the low 16 bits
   * of its window's border or end.
   */
  lemma Bin44ReadBack(s: seq<SensorReg>, cfg: Config)
    requires cfg.bin44 == 1 && HasBin44Regs(s)
    ensures var t, x, y := ApplyWrites(s, Bin44Writes("imx219", cfg)),
                           BinWindow(3280, cfg.width, cfg.hoinc), BinWindow(2464, cfg.height, cfg.voinc);
            && |t| == |s|
            && PairValue(t, FindReg(s, 0x0164), FindReg(s, 0x0165), 7) == x.border % 65536
            && PairValue(t, FindReg(s, 0x0166), FindReg(s, 0x0167), 7) == x.end % 65536
            && PairValue(t, FindReg(s, 0x0168), FindReg(s, 0x0169), 7) == y.border % 65536
            && PairValue(t, FindReg(s, 0x016a), FindReg(s, 0x016b), 7) == y.end % 65536
  {
    var x, y := BinWindow(3280, cfg.width, cfg.hoinc), BinWindow(2464, cfg.height, cfg.voinc);
    Bin44Split(cfg);
    Bin44Apart(x, y);
    XWindowReadBack(s, x, y);
    YWindowReadBack(s, x, y);
  }

  /** The four pairs of the block, written in order. */
  function Bin44Pairs(x: Window, y: Window): seq<FieldWrite>
  {
    PairWrites(0x0164, 7, x.border)
    + (PairWrites(0x0166, 7, x.end) + (PairWrites(0x0168, 7, y.border) + PairWrites(0x016a, 7, y.end)))
  }

  /** The x window's border and end pairs, not written over by the y window's. */
  lemma XWindowReadBack(s: seq<SensorReg>, x: Window, y: Window)
    requires HasBin44Regs(s)
    ensures var t := ApplyWrites(s, Bin44Pairs(x, y));
            && |t| == |s|
            && PairValue(t, FindReg(s, 0x0164), FindReg(s, 0x0165), 7) == x.border % 65536
            && PairValue(t, FindReg(s, 0x0166), FindReg(s, 0x0167), 7) == x.end % 65536
  {
    var p1, p2 := PairWrites(0x0164, 7, x.border), PairWrites(0x0166, 7, x.end);
    var p3, p4 := PairWrites(0x0168, 7, y.border), PairWrites(0x016a, 7, y.end);
    Bin44Apart(x, y);
    assert FindReg(s, 0x0164) < |s| && FindReg(s, 0x0165) < |s|;
    assert FindReg(s, 0x0166) < |s| && FindReg(s, 0x0167) < |s|;
    FirstPairReadBack(s, 0x0164, 7, x.border, p2 + (p3 + p4));
    MiddlePairReadBack(s, p1, 0x0166, 7, x.end, p3 + p4);
  }

  /** The same four pairs, grouped for the y window. */
  lemma Bin44Regroup(x: Window, y: Window)
    ensures var p1, p2 := PairWrites(0x0164, 7, x.border), PairWrites(0x0166, 7, x.end);
            var p3, p4 := PairWrites(0x0168, 7, y.border), PairWrites(0x016a, 7, y.end);
            Bin44Pairs(x, y) == (p1 + p2) + (p3 + p4) == (p1 + p2 + p3) + p4
  {
  }

  /** The y window's border and end pairs, written after the x window's. */
  lemma YWindowReadBack(s: seq<SensorReg>, x: Window, y: Window)
    requires HasBin44Regs(s)
    ensures var t := ApplyWrites(s, Bin44Pairs(x, y));
            && |t| == |s|
            && PairValue(t, FindReg(s, 0x0168), FindReg(s, 0x0169), 7) == y.border % 65536
            && PairValue(t, FindReg(s, 0x016a), FindReg(s, 0x016b), 7) == y.end % 65536
  {
    var p1, p2 := PairWrites(0x0164, 7, x.border), PairWrites(0x0166, 7, x.end);
    var p3, p4 := PairWrites(0x0168, 7, y.border), PairWrites(0x016a, 7, y.end);
    Bin44Apart(x, y);
    assert FindReg(s, 0x0168) < |s| && FindReg(s, 0x0169) < |s|;
    assert FindReg(s, 0x016a) < |s| && FindReg(s, 0x016b) < |s|;
    Bin44Regroup(x, y);
    MiddlePairReadBack(s, p1 + p2, 0x0168, 7, y.border, p4);
    LastPairReadBack(s, p1 + p2 + p3, 0x016a, 7, y.end);
  }

  /** No pair of the 4x4-binning block is written over by a later one. */
  lemma Bin44Apart(x: Window, y: Window)
    ensures var p2, p3, p4 := PairWrites(0x0166, 7, x.end), PairWrites(0x0168, 7, y.border), PairWrites(0x016a, 7, y.end);
            && Avoids(p2 + (p3 + p4), 0x0164) && Avoids(p2 + (p3 + p4), 0x0165)
            && Avoids(p3 + p4, 0x0166) && Avoids(p3 + p4, 0x0167)
            && Avoids(p4, 0x0168) && Avoids(p4, 0x0169)
  {
    var p2, p3, p4 := PairWrites(0x0166, 7, x.end), PairWrites(0x0168, 7, y.border), PairWrites(0x016a, 7, y.end);
    forall c: U16 | 0x0164 <= c <= 0x0169
      ensures Avoids(p4, c)
    {
      PairMisses(0x016a, 7, y.end, c);
    }
    forall c: U16 | 0x0164 <= c <= 0x0167
      ensures Avoids(p3 + p4, c)
    {
      PairMisses(0x0168, 7, y.border, c);
      AvoidsAppend(p3, p4, c);
    }
    forall c: U16 | 0x0164 <= c <= 0x0165
      ensures Avoids(p2 + (p3 + p4), c)
    {
      PairMisses(0x0166, 7, x.end, c);
      AvoidsAppend(p2, p3 + p4, c);
    }
  }

  // ---------------------------------------------------------------
  // The arithmetic of the window, the offsets and the exposure
  // ---------------------------------------------------------------

  /**
   * A window that fits is centred: as many pixels left out before it as
   * after it, and it spans exactly the scaled size.
   */
  lemma WindowCentred(full: nat, size: Int32, inc: Int32)
    requires 0 < full < 0x1_0000_0000 && full % 2 == 0
    requires 0 <= size && size * 2 * (if inc == 3 then 2 else 1) <= full
    ensures var n, w := size * 2 * (if inc == 3 then 2 else 1), BinWindow(full, size, inc);
            && 2 * w.border + n == full
            && w.end + 1 == w.border + n
            && w.end < full
  {
    var n := size * 2 * (if inc == 3 then 2 else 1);
    assert n % 0x1_0000_0000 == n;
    assert (full - n) % 0x1_0000_0000 == full - n;
    var border := (full - n) / 2;
    assert 2 * border == full - n;
    assert (full - border - 1) % 0x1_0000_0000 == full - border - 1;
  }

  /**
   * Without `-width`, the unsigned products wrap: the x window of the
   * IMX219 starts at column 1641 and ends at 1638, before its start.
   */
  lemma Bin44WithoutWidth()
    ensures BinWindow(3280, Defaults.width, Defaults.hoinc) == Window(1641, 1638)
    ensures BinWindow(2464, Defaults.height, Defaults.voinc) == Window(1233, 1230)
  {
    assert (-2) % 0x1_0000_0000 == 0xFFFF_FFFE;
    assert (3280 - 0xFFFF_FFFE) % 0x1_0000_0000 == 3282;
    assert (2464 - 0xFFFF_FFFE) % 0x1_0000_0000 == 2466;
  }

  /** A value that fits in an `int` is kept by the conversion. */
  lemma Wrap32Keeps(x: int)
    requires -0x8000_0000 <= x < 0x8000_0000
    ensures Wrap32(x) == x
  {
    assert (x + 0x8000_0000) % 0x1_0000_0000 == x + 0x8000_0000;
  }

  /** The conversion keeps a value's residue mod 2^32 and so its low 32 bits. */
  lemma Wrap32Residue(x: int)
    ensures (Wrap32(x) - x) % 0x1_0000_0000 == 0
  {
    var q := (x + 0x8000_0000) / 0x1_0000_0000;
    assert x + 0x8000_0000 == 0x1_0000_0000 * q + (x + 0x8000_0000) % 0x1_0000_0000;
    assert Wrap32(x) - x == -0x1_0000_0000 * q;
    DivUnique(Wrap32(x) - x, 0x1_0000_0000, -q, 0);
  }

  /** On non-negative operands C99 division is Dafny's. */
  lemma TruncDivNatural(a: int, b: int)
    requires a >= 0 && b > 0
    ensures TruncDiv(a, b) == a / b
  {
  }

  /** C99 division rounds toward zero, so it is odd in its dividend. */
  lemma TruncDivOdd(a: int, b: int)
    requires b != 0
    ensures TruncDiv(-a, b) == -TruncDiv(a, b)
  {
    assert Abs(-a) == Abs(a);
    if a == 0 {
      assert Abs(a) / Abs(b) == 0;
    }
  }

  /** Where the two roundings part: -7 / 2 is -3 in C and -4 in Dafny. */
  lemma TruncDivExample()
    ensures TruncDiv(-7, 2) == -3 && -7 / 2 == -4
  {
  }

  /** A positive divisor: the quotient times it is never farther from zero than the dividend. */
  lemma TruncDivBounds(a: int, b: int)
    requires b > 0
    ensures Abs(TruncDiv(a, b)) * b <= Abs(a) < (Abs(TruncDiv(a, b)) + 1) * b
    ensures a >= 0 ==> TruncDiv(a, b) >= 0
    ensures a < 0 ==> TruncDiv(a, b) <= 0
  {
    var q := Abs(a) / b;
    assert Abs(a) == q * b + Abs(a) % b;
    assert Abs(TruncDiv(a, b)) == q;
  }

  /**
   * `-expus` becomes the number of whole lines the time covers: for a
   * non-negative time and a positive line time, with no wrap-around,
   * `e` lines take at most the time and `e + 1` more.
   */
  lemma ExposureWholeLines(us: Int32, lineTimeNs: int)
    requires us >= 0 && lineTimeNs > 0
    requires us * 1000 / lineTimeNs < 0x8000_0000
    ensures var e := ExposureLines(us, lineTimeNs);
            e * lineTimeNs <= us * 1000 < (e + 1) * lineTimeNs
  {
    TruncDivNatural(us * 1000, lineTimeNs);
    Wrap32Keeps(us * 1000 / lineTimeNs);
    TruncDivBounds(us * 1000, lineTimeNs);
  }

  // ---------------------------------------------------------------
  // The subsampling increments
  // ---------------------------------------------------------------

  /** A write followed only by writes to other addresses leaves its bits in place. */
  lemma WriteReadBack(s: seq<SensorReg>, p: seq<FieldWrite>, w: FieldWrite, q: seq<FieldWrite>)
    requires FindReg(s, w.reg) < |s| && Avoids(q, w.reg)
    ensures |ApplyWrites(s, p + [w] + q)| == |s|
    ensures DataBits(ApplyWrites(s, p + [w] + q)[FindReg(s, w.reg)].data, w.hi + 1) == w.value % Pow2(w.hi + 1)
  {
    var ws, n := p + [w] + q, |p|;
    assert ws[n] == w;
    forall m | n < m < |ws|
      ensures ws[m].reg != w.reg
    {
      assert ws[m] == q[m - n - 1];
    }
    ApplyWritesField(s, ws, n);
    DataBitsAgree(ApplyWrites(s, ws)[FindReg(s, w.reg)].data, w.value, w.hi + 1);
  }

  /** On an OV5647 only `-hinc` and `-vinc` write, in that order. */
  lemma Ov5647IncSplit(cfg: Config)
    ensures var w1, w2 := FieldWrite(0x3814, 7, cfg.hinc), FieldWrite(0x3815, 7, cfg.vinc);
            && (cfg.hinc >= 0 ==> IncWrites("ov5647", cfg) == [] + [w1] + When(cfg.vinc >= 0, [w2]))
            && (cfg.vinc >= 0 ==> IncWrites("ov5647", cfg) == When(cfg.hinc >= 0, [w1]) + [w2] + [])
  {
  }

  /** `-hinc` and `-vinc` land in the low bytes of 0x3814 and 0x3815 of an OV5647. */
  lemma Ov5647IncReadBack(s: seq<SensorReg>, cfg: Config)
    requires FindReg(s, 0x3814) < |s| && FindReg(s, 0x3815) < |s|
    ensures var t := ApplyWrites(s, IncWrites("ov5647", cfg));
            && |t| == |s|
            && (cfg.hinc >= 0 ==> LowByte(t[FindReg(s, 0x3814)].data) == cfg.hinc % 256)
            && (cfg.vinc >= 0 ==> LowByte(t[FindReg(s, 0x3815)].data) == cfg.vinc % 256)
  {
    var w1, w2 := FieldWrite(0x3814, 7, cfg.hinc), FieldWrite(0x3815, 7, cfg.vinc);
    Ov5647IncSplit(cfg);
    ApplyWritesAddresses(s, IncWrites("ov5647", cfg));
    assert Pow2(8) == 256;
    if cfg.hinc >= 0 {
      WriteReadBack(s, [], w1, When(cfg.vinc >= 0, [w2]));
    }
    if cfg.vinc >= 0 {
      WriteReadBack(s, When(cfg.hinc >= 0, [w1]), w2, []);
    }
  }

  /** On an IMX219 only `-voinc` and `-hoinc` write, in that order. */
  lemma Imx219IncSplit(cfg: Config)
    ensures var w1, w2 := FieldWrite(0x0171, 2, cfg.voinc), FieldWrite(0x0170, 2, cfg.hoinc);
            && (cfg.voinc >= 0 ==> IncWrites("imx219", cfg) == [] + [w1] + When(cfg.hoinc >= 0, [w2]))
            && (cfg.hoinc >= 0 ==> IncWrites("imx219", cfg) == When(cfg.voinc >= 0, [w1]) + [w2] + [])
  {
  }

  /** `-voinc` and `-hoinc` land in bits 0..2 of 0x0171 and 0x0170 of an IMX219. */
  lemma Imx219IncReadBack(s: seq<SensorReg>, cfg: Config)
    requires FindReg(s, 0x0171) < |s| && FindReg(s, 0x0170) < |s|
    ensures var t := ApplyWrites(s, IncWrites("imx219", cfg));
            && |t| == |s|
            && (cfg.voinc >= 0 ==> DataBits(t[FindReg(s, 0x0171)].data, 3) == cfg.voinc % 8)
            && (cfg.hoinc >= 0 ==> DataBits(t[FindReg(s, 0x0170)].data, 3) == cfg.hoinc % 8)
  {
    var w1, w2 := FieldWrite(0x0171, 2, cfg.voinc), FieldWrite(0x0170, 2, cfg.hoinc);
    Imx219IncSplit(cfg);
    ApplyWritesAddresses(s, IncWrites("imx219", cfg));
    assert Pow2(3) == 8;
    if cfg.voinc >= 0 {
      WriteReadBack(s, [], w1, When(cfg.hoinc >= 0, [w2]));
    }
    if cfg.hoinc >= 0 {
      WriteReadBack(s, When(cfg.voinc >= 0, [w1]), w2, []);
    }
  }

  // ---------------------------------------------------------------
  // The set-up as a whole
  // ---------------------------------------------------------------

  /**
   * With no option given, the set-up writes no register, keeps the
   * native bit depth, accepts `--headerG`-less runs and leaves the image
   * and the order as `update_regs` finds them.
   */
  lemma DefaultsChangeNothing(sensor: SensorDef, s: seq<SensorReg>, minVts: U32, order: bv32, native: int, lineTimeNs: int)
    requires UpdatableSensor(sensor)
    ensures SetupWrites(sensor, Defaults) == []
    ensures ChosenBitDepth(Defaults.bitDepth, native) == native && !HeaderRefused(Defaults, native)
    ensures ChosenExposure(Defaults.exposure, Defaults.exposureUs, lineTimeNs) == -1
    ensures UpdateImage(sensor, ApplyWrites(s, SetupWrites(sensor, Defaults)), minVts,
                        Defaults.hflip, Defaults.vflip, -1, Defaults.gain) == s
    ensures UpdateOrder(sensor, order, Defaults.hflip, Defaults.vflip) == order
  {
    assert SetupWrites(sensor, Defaults) == [];
    UpdateNothingRequested(sensor, s, minVts, order);
  }

  /**
   * A mode without an encoding of its own is given the Bayer encoding
   * of its order after the flips, at the chosen depth.
   */
  lemma FlippedEncoding(sensor: SensorDef, o: BayerOrder, d: BitDepth, hflip: Bit, vflip: Bit)
    ensures var doV := sensor.vflipReg != 0 && vflip == 1 && !sensor.flipsDontChangeBayerOrder;
            var doH := sensor.hflipReg != 0 && hflip == 1 && !sensor.flipsDontChangeBayerOrder;
            var o1 := if doV then o.VFlipped() else o;
            ChosenEncoding(NoEncoding, UpdateOrder(sensor, o.Code(), hflip, vflip), Bits(d))
            == Bayer(if doH then o1.HFlipped() else o1, d)
  {
    UpdateOrderFlips(sensor, o, hflip, vflip);
    var r := UpdateOrder(sensor, o.Code(), hflip, vflip);
    EncodingRoundTrip(OrderOf(r).value, d);
  }
}
