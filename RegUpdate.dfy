/**
 * `update_regs` of src/RegOperation.c: it turns the requested flips,
 * exposure and gain into edits of the mode's register image and of its
 * Bayer order.
 *
 * A numeric value of width W is split big-endian over R = (W+7)>>3
 * consecutive registers. Pass i computes j = W-1-8i and writes
 * `(value >> (j & ~7)) & 0xFF` into bits 0..(j & 7) of register base+i.
 * Because j drops by 8 each pass, `j & 7` is the same on every pass,
 * so when W is not a multiple of 8 every register only gets its low
 * (W-1) mod 8 + 1 bits written.
 */
module RegUpdate {
  import opened Types
  import opened Arith
  import opened RegEdit

  // ---------------------------------------------------------------
  // The big-endian split of one value (the loop written three times)
  // ---------------------------------------------------------------

  /** `(W + 7) >> 3`: the number of registers a W-bit value is split over. */
  function NumSplitRegs(w: nat): nat
  {
    (w + 7) / 8
  }

  /** `j` on pass i: it starts at W-1 and drops by 8 each pass. */
  function SplitPos(w: nat, i: nat): int
  {
    w - 1 - 8 * i
  }

  /** `j` is not negative on any pass of the loop. */
  lemma SplitPosInLoop(w: nat, i: nat)
    requires i < NumSplitRegs(w)
    ensures 0 <= SplitPos(w, i) < w
  {
  }

  /** `j & 0x7`, the end bit of pass i (j is not negative on any pass). */
  function SplitEndBit(w: nat, i: nat): (e: nat)
    requires i < NumSplitRegs(w)
    ensures e < 8
  {
    SplitPos(w, i) % 8
  }

  /** `j & ~7`, the shift of pass i. */
  function SplitShift(w: nat, i: nat): (sh: nat)
    requires i < NumSplitRegs(w)
    ensures sh % 8 == 0 && sh <= SplitPos(w, i)
  {
    SplitPos(w, i) - SplitPos(w, i) % 8
  }

  /** `(value >> (j & ~7)) & 0xFF`, stored in a `uint8_t`. */
  function SplitByte(v: int, w: nat, i: nat): (b: int)
    requires i < NumSplitRegs(w)
    ensures 0 <= b < 256
  {
    (v / Pow2(SplitShift(w, i))) % 256
  }

  /** `base + i` passed as a `uint16_t` register address (it wraps at 0x10000). */
  function SplitAddr(base: U16, i: nat): U16
    requires i < 0x1_0000
  {
    base + i as bv16
  }

  /** The register image after the first n passes of the split. */
  function SplitImage(s: seq<SensorReg>, base: U16, w: nat, v: int, n: nat): seq<SensorReg>
    requires w < 31 && n <= NumSplitRegs(w)
  {
    if n == 0 then s
    else EditField(SplitImage(s, base, w, v, n - 1), SplitAddr(base, n - 1),
                   0, SplitEndBit(w, n - 1), SplitByte(v, w, n - 1), Equal)
  }

  lemma NumSplitRegsBound(w: nat)
    requires w < 31
    ensures NumSplitRegs(w) <= 4
  {
  }

  /** `j & 7` never changes from pass to pass: it is (W-1) mod 8 throughout. */
  lemma SplitEndBitConstant(w: nat, i: nat)
    requires i < NumSplitRegs(w)
    ensures SplitEndBit(w, i) == (w - 1) % 8
  {
  }

  /** The pass addresses are distinct. */
  lemma SplitAddrDistinct(base: U16, i: nat, k: nat)
    requires i < 4 && k < 4 && i != k
    ensures SplitAddr(base, i) != SplitAddr(base, k)
  {
    var bi, bk := i as bv16, k as bv16;
    assert bi < 4 && bk < 4 && bi != bk;
  }

  /** Every entry of the image keeps its address through the split. */
  lemma {:induction false} SplitImageAddresses(s: seq<SensorReg>, base: U16, w: nat, v: int, n: nat)
    requires w < 31 && n <= NumSplitRegs(w)
    ensures SameAddresses(s, SplitImage(s, base, w, v, n))
  {
    if n > 0 {
      var t := SplitImage(s, base, w, v, n - 1);
      SplitImageAddresses(s, base, w, v, n - 1);
      EditFieldEffect(t, SplitAddr(base, n - 1), 0, SplitEndBit(w, n - 1), SplitByte(v, w, n - 1), Equal);
    }
  }

  /** An entry that is not the first match of any pass address is untouched. */
  lemma {:induction false} SplitImageOther(s: seq<SensorReg>, base: U16, w: nat, v: int, n: nat, q: nat)
    requires w < 31 && n <= NumSplitRegs(w) && q < |s|
    requires forall p: nat :: p < n ==> FindReg(s, SplitAddr(base, p)) != q
    ensures |SplitImage(s, base, w, v, n)| == |s|
    ensures SplitImage(s, base, w, v, n)[q] == s[q]
  {
    SplitImageAddresses(s, base, w, v, n);
    if n > 0 {
      var t := SplitImage(s, base, w, v, n - 1);
      var a := SplitAddr(base, n - 1);
      SplitImageOther(s, base, w, v, n - 1, q);
      SplitImageAddresses(s, base, w, v, n - 1);
      FindRegSameAddresses(s, t, a);
      EditFieldEffect(t, a, 0, SplitEndBit(w, n - 1), SplitByte(v, w, n - 1), Equal);
    }
  }

  /** The first entries of two distinct pass addresses are distinct entries. */
  lemma PassEntriesDistinct(s: seq<SensorReg>, base: U16, p: nat, q: nat)
    requires p < 4 && q < 4 && p != q && FindReg(s, SplitAddr(base, p)) < |s|
    ensures FindReg(s, SplitAddr(base, p)) != FindReg(s, SplitAddr(base, q))
  {
    SplitAddrDistinct(base, p, q);
    FindRegDistinct(s, SplitAddr(base, p), SplitAddr(base, q));
  }

  /** The last pass of n touches only the first entry of its own address. */
  lemma SplitImageLastOnly(s: seq<SensorReg>, base: U16, w: nat, v: int, n: nat, q: nat)
    requires w < 31 && 0 < n <= NumSplitRegs(w) && q < |s|
    requires q != FindReg(s, SplitAddr(base, n - 1))
    ensures |SplitImage(s, base, w, v, n)| == |s|
    ensures SplitImage(s, base, w, v, n)[q] == SplitImage(s, base, w, v, n - 1)[q]
  {
    var t := SplitImage(s, base, w, v, n - 1);
    var a := SplitAddr(base, n - 1);
    SplitImageAddresses(s, base, w, v, n - 1);
    FindRegSameAddresses(s, t, a);
    EditFieldEffect(t, a, 0, SplitEndBit(w, n - 1), SplitByte(v, w, n - 1), Equal);
  }

  /** The last pass of n writes its byte into the first entry of its address. */
  lemma SplitImageWrittenLast(s: seq<SensorReg>, base: U16, w: nat, v: int, n: nat, k: nat)
    requires w < 31 && 0 < n <= NumSplitRegs(w) && k < 16
    requires FindReg(s, SplitAddr(base, n - 1)) < |s|
    ensures |SplitImage(s, base, w, v, n)| == |s|
    ensures var i := FindReg(s, SplitAddr(base, n - 1));
            BitOf(SplitImage(s, base, w, v, n)[i].data, k)
            == if k <= (w - 1) % 8 then ValueBit(SplitByte(v, w, n - 1), k) else BitOf(s[i].data, k)
  {
    NumSplitRegsBound(w);
    var p := n - 1;
    var i := FindReg(s, SplitAddr(base, p));
    var t := SplitImage(s, base, w, v, p);
    forall p': nat | p' < p
      ensures FindReg(s, SplitAddr(base, p')) != i
    {
      PassEntriesDistinct(s, base, p, p');
    }
    SplitImageOther(s, base, w, v, p, i);
    SplitImageAddresses(s, base, w, v, p);
    FindRegSameAddresses(s, t, SplitAddr(base, p));
    SplitEndBitConstant(w, p);
    EditFieldEqual(t, SplitAddr(base, p), 0, SplitEndBit(w, p), SplitByte(v, w, p), k);
  }

  /** Once pass p has run, the later passes leave the first entry i of base+p alone. */
  lemma {:induction false} SplitImageStable(s: seq<SensorReg>, base: U16, w: nat, v: int, n: nat, p: nat, i: nat)
    requires w < 31 && p < n <= NumSplitRegs(w)
    requires i == FindReg(s, SplitAddr(base, p)) < |s|
    ensures |SplitImage(s, base, w, v, n)| == |SplitImage(s, base, w, v, p + 1)| == |s|
    ensures SplitImage(s, base, w, v, n)[i] == SplitImage(s, base, w, v, p + 1)[i]
  {
    SplitImageAddresses(s, base, w, v, n);
    SplitImageAddresses(s, base, w, v, p + 1);
    if n > p + 1 {
      NumSplitRegsBound(w);
      SplitImageStable(s, base, w, v, n - 1, p, i);
      PassEntriesDistinct(s, base, p, n - 1);
      SplitImageLastOnly(s, base, w, v, n, i);
    }
  }

  /**
   * Pass p of the split: in the first entry with address base+p, bits
   * 0..(W-1) mod 8 hold the same bits of the byte of pass p, and every
   * higher bit keeps its old value.
   */
  lemma SplitImageWritten(s: seq<SensorReg>, base: U16, w: nat, v: int, n: nat, p: nat, k: nat)
    requires w < 31 && p < n <= NumSplitRegs(w) && k < 16
    requires FindReg(s, SplitAddr(base, p)) < |s|
    ensures |SplitImage(s, base, w, v, n)| == |s|
    ensures var i := FindReg(s, SplitAddr(base, p));
            BitOf(SplitImage(s, base, w, v, n)[i].data, k)
            == if k <= (w - 1) % 8 then ValueBit(SplitByte(v, w, p), k) else BitOf(s[i].data, k)
  {
    SplitImageStable(s, base, w, v, n, p, FindReg(s, SplitAddr(base, p)));
    SplitImageWrittenLast(s, base, w, v, p + 1, k);
  }

  // The round trip for widths that are a multiple of 8

  /** The bytes of passes 0..n-1 put back together, most significant first. */
  function Assemble(v: int, w: nat, n: nat): int
    requires n <= NumSplitRegs(w)
  {
    if n == 0 then 0 else Assemble(v, w, n - 1) * 256 + SplitByte(v, w, n - 1)
  }

  lemma Pow2Byte()
    ensures Pow2(8) == 256
  {
  }

  /** For W = 8R, pass i shifts by 8(R-1-i). */
  lemma SplitShiftWhole(w: nat, i: nat)
    requires w % 8 == 0 && i < NumSplitRegs(w)
    ensures SplitShift(w, i) == 8 * (NumSplitRegs(w) - 1 - i)
  {
  }

  /** For W = 8R, the first n bytes assemble to the top 8n bits of the value. */
  lemma {:induction false} AssemblePrefix(v: int, w: nat, n: nat)
    requires w % 8 == 0 && n <= NumSplitRegs(w) && 0 <= v < Pow2(w)
    ensures Assemble(v, w, n) == v / Pow2(8 * (NumSplitRegs(w) - n))
  {
    var r := NumSplitRegs(w);
    if n == 0 {
      assert 8 * r == w;
      DivUnique(v, Pow2(w), 0, v);
    } else {
      AssemblePrefix(v, w, n - 1);
      var a := Pow2(8 * (r - n));
      SplitShiftWhole(w, n - 1);
      Pow2Add(8 * (r - n), 8);
      Pow2Byte();
      assert 8 * (r - (n - 1)) == 8 * (r - n) + 8;
      DivDiv(v, a, 256);
    }
  }

  /**
   * For W a multiple of 8 and 0 <= V < 2^W, the split bytes reassembled
   * big-endian give V back.
   */
  lemma SplitBytesRoundTrip(v: int, w: nat)
    requires w % 8 == 0 && 0 <= v < Pow2(w)
    ensures Assemble(v, w, NumSplitRegs(w)) == v
  {
    AssemblePrefix(v, w, NumSplitRegs(w));
  }

  /** W = 16, V = 0x1234: 0x12 goes to the base register, 0x34 to the next. */
  lemma SplitBytesExample()
    ensures NumSplitRegs(16) == 2
    ensures SplitByte(0x1234, 16, 0) == 0x12 && SplitByte(0x1234, 16, 1) == 0x34
  {
    assert SplitShift(16, 0) == 8 && SplitShift(16, 1) == 0;
    Pow2Byte();
    DivUnique(0x1234, 256, 0x12, 0x34);
  }

  /**
   * The low bytes of the first entries of base, base+1, ..., base+n-1,
   * read back big-endian (a missing register reads as 0).
   */
  function ReadBack(t: seq<SensorReg>, base: U16, n: nat): int
    requires n <= 4
  {
    if n == 0 then 0
    else
      var i := FindReg(t, SplitAddr(base, n - 1));
      ReadBack(t, base, n - 1) * 256 + (if i < |t| then LowByte(t[i].data) else 0)
  }

  /**
   * The round trip of the split on the register image: for W a multiple
   * of 8, with every target register present, reading the low bytes of
   * base..base+R-1 back big-endian gives V.
   */
  lemma SplitRoundTrip(s: seq<SensorReg>, base: U16, w: nat, v: int)
    requires w < 31 && w % 8 == 0 && 0 <= v < Pow2(w)
    requires forall p: nat :: p < NumSplitRegs(w) ==> FindReg(s, SplitAddr(base, p)) < |s|
    ensures ReadBack(SplitImage(s, base, w, v, NumSplitRegs(w)), base, NumSplitRegs(w)) == v
  {
    ReadBackPrefix(s, base, w, v, NumSplitRegs(w));
    SplitBytesRoundTrip(v, w);
  }

  lemma {:induction false} ReadBackPrefix(s: seq<SensorReg>, base: U16, w: nat, v: int, n: nat)
    requires w < 31 && w % 8 == 0 && n <= NumSplitRegs(w)
    requires forall p: nat :: p < NumSplitRegs(w) ==> FindReg(s, SplitAddr(base, p)) < |s|
    ensures ReadBack(SplitImage(s, base, w, v, NumSplitRegs(w)), base, n) == Assemble(v, w, n)
  {
    NumSplitRegsBound(w);
    if n > 0 {
      var r := NumSplitRegs(w);
      var t := SplitImage(s, base, w, v, r);
      var a := SplitAddr(base, n - 1);
      ReadBackPrefix(s, base, w, v, n - 1);
      SplitImageAddresses(s, base, w, v, r);
      FindRegSameAddresses(s, t, a);
      WrittenLowByte(s, base, w, v, n - 1);
    }
  }

  /** For W a multiple of 8, the low byte of register base+p is the byte of pass p. */
  lemma WrittenLowByte(s: seq<SensorReg>, base: U16, w: nat, v: int, p: nat)
    requires w < 31 && w % 8 == 0 && p < NumSplitRegs(w)
    requires FindReg(s, SplitAddr(base, p)) < |s|
    ensures |SplitImage(s, base, w, v, NumSplitRegs(w))| == |s|
    ensures LowByte(SplitImage(s, base, w, v, NumSplitRegs(w))[FindReg(s, SplitAddr(base, p))].data)
            == SplitByte(v, w, p)
  {
    var r := NumSplitRegs(w);
    var i := FindReg(s, SplitAddr(base, p));
    var b := SplitByte(v, w, p);
    SplitImageAddresses(s, base, w, v, r);
    var d := SplitImage(s, base, w, v, r)[i].data;
    WrittenBits(s, base, w, v, p);
    LowByteOf(d, b);
    DivUnique(b, 256, 0, b);
  }

  /** For W a multiple of 8, bits 0..7 of register base+p are those of the byte of pass p. */
  lemma WrittenBits(s: seq<SensorReg>, base: U16, w: nat, v: int, p: nat)
    requires w < 31 && w % 8 == 0 && p < NumSplitRegs(w)
    requires FindReg(s, SplitAddr(base, p)) < |s|
    ensures |SplitImage(s, base, w, v, NumSplitRegs(w))| == |s|
    ensures forall k: nat :: k < 8 ==>
              BitOf(SplitImage(s, base, w, v, NumSplitRegs(w))[FindReg(s, SplitAddr(base, p))].data, k)
              == ValueBit(SplitByte(v, w, p), k)
  {
    var r := NumSplitRegs(w);
    SplitImageAddresses(s, base, w, v, r);
    WholeEndBit(w);
    forall k: nat | k < 8
      ensures BitOf(SplitImage(s, base, w, v, r)[FindReg(s, SplitAddr(base, p))].data, k)
              == ValueBit(SplitByte(v, w, p), k)
    {
      SplitImageWritten(s, base, w, v, r, p, k);
    }
  }

  /** For W a positive multiple of 8 every pass writes bits 0..7. */
  lemma WholeEndBit(w: nat)
    requires w % 8 == 0 && w > 0
    ensures (w - 1) % 8 == 7
  {
    var q := w / 8;
    assert w == 8 * q;
    DivUnique(w - 1, 8, q - 1, 7);
  }

  // The quirk: a width that is not a multiple of 8

  /**
   * W = 20 splits over 3 registers and writes only bits 0..3 of each, so
   * V = 0x10 and V = 0 leave the same register image: the value cannot
   * be read back.
   */
  lemma SplitTwentyBitsLosesBits(s: seq<SensorReg>, base: U16)
    ensures NumSplitRegs(20) == 3 && (20 - 1) % 8 == 3
    ensures SplitImage(s, base, 20, 0x10, 3) == SplitImage(s, base, 20, 0, 3)
  {
    forall p: nat, k: nat | p < 3 && k <= 3
      ensures ValueBit(SplitByte(0x10, 20, p), k) == ValueBit(SplitByte(0, 20, p), k)
    {
      TwentyBitBytesAgree(p, k);
    }
    SplitImageAgree(s, base, 20, 0x10, 0, 3);
  }

  /** Two values whose bytes agree on the written bits leave the same image. */
  lemma {:induction false} SplitImageAgree(s: seq<SensorReg>, base: U16, w: nat, v: int, v': int, n: nat)
    requires w < 31 && n <= NumSplitRegs(w)
    requires forall p: nat, k: nat :: p < n && k <= (w - 1) % 8 ==>
               ValueBit(SplitByte(v, w, p), k) == ValueBit(SplitByte(v', w, p), k)
    ensures SplitImage(s, base, w, v, n) == SplitImage(s, base, w, v', n)
  {
    if n > 0 {
      var p := n - 1;
      SplitImageAgree(s, base, w, v, v', p);
      SplitEndBitConstant(w, p);
      EditFieldAgree(SplitImage(s, base, w, v', p), SplitAddr(base, p), 0, SplitEndBit(w, p),
                     SplitByte(v, w, p), SplitByte(v', w, p), Equal);
    }
  }

  lemma TwentyBitBytesAgree(p: nat, k: nat)
    requires p < 3 && k <= 3
    ensures ValueBit(SplitByte(0x10, 20, p), k) == ValueBit(SplitByte(0, 20, p), k)
  {
    var a := Pow2(SplitShift(20, p));
    DivUnique(0, a, 0, 0);
    if p < 2 {
      assert SplitShift(20, p) >= 8;
      Pow2Mono(8, SplitShift(20, p));
      Pow2Byte();
      DivUnique(0x10, a, 0, 0x10);
    } else {
      assert SplitShift(20, p) == 0;
      assert SplitByte(0x10, 20, p) == 0x10;
      assert Pow2(0) == 1 && Pow2(1) == 2 && Pow2(2) == 4 && Pow2(3) == 8;
    }
  }

  /** The split loop of `update_regs`, written once for its three uses. */
  method WriteSplit(mode: Mode, base: U16, w: nat, v: int)
    requires w < 31
    modifies mode.regs
    ensures mode.regs[..] == SplitImage(old(mode.regs[..]), base, w, v, NumSplitRegs(w))
  {
    ghost var s0 := mode.regs[..];
    var numRegs := (w + 7) / 8;
    var i := 0;
    var j: int := w - 1;
    while i < numRegs
      invariant 0 <= i <= numRegs
      invariant j == SplitPos(w, i)
      invariant mode.regs[..] == SplitImage(s0, base, w, v, i)
    {
      SplitPosInLoop(w, i);
      var val := (v / Pow2(j - j % 8)) % 256;            // (value >> (j & ~7)) & 0xFF
      assert val == SplitByte(v, w, i) && j % 8 == SplitEndBit(w, i);
      ModReg(mode, base + i as bv16, 0, j % 8, val, Equal); // endBit = j & 0x7
      i, j := i + 1, j - 8;
    }
  }

  // ---------------------------------------------------------------
  // update_regs
  // ---------------------------------------------------------------

  /**
   * What `update_regs` needs of the sensor table: flip bit positions and
   * register widths for which `1 << n` is a defined C `int`.
   */
  predicate UpdatableSensor(sensor: SensorDef)
  {
    && (sensor.vflipReg != 0 ==> 0 <= sensor.vflipRegBit < 31)
    && (sensor.hflipReg != 0 ==> 0 <= sensor.hflipRegBit < 31)
    && (sensor.exposureReg != 0 ==> 0 <= sensor.exposureRegNumBits < 31)
    && (sensor.vtsReg != 0 ==> 0 <= sensor.vtsRegNumBits < 31)
    && (sensor.gainReg != 0 ==> 0 <= sensor.gainRegNumBits < 31)
  }

  /** A flip block on the image: XOR of the flip bit when the sensor has a flip register. */
  function FlipImage(s: seq<SensorReg>, flipReg: U16, flipBit: int, flip: Bit): seq<SensorReg>
    requires flipReg != 0 ==> 0 <= flipBit < 31
  {
    if flipReg != 0 then EditBit(s, flipReg, flipBit, flip, Xor) else s
  }

  /** A flip block on the Bayer order: `order ^= x` for a requested flip. */
  function FlipOrder(order: bv32, flipReg: U16, flip: Bit, dontChange: bool, x: bv32): bv32
  {
    if flipReg != 0 && flip != 0 && !dontChange then order ^ x else order
  }

  /**
   * The exposure or gain block: -1 leaves the registers alone, a value
   * outside 0..2^W-1 is only logged, any other value is split.
   */
  function ValueImage(s: seq<SensorReg>, reg: U16, w: int, x: int): seq<SensorReg>
    requires reg != 0 ==> 0 <= w < 31
  {
    if reg != 0 && x != -1 && 0 <= x < Pow2(w) then SplitImage(s, reg, w, x, NumSplitRegs(w))
    else s
  }

  /** C's conversion of an `int` to `unsigned int` in `exposure >= mode->min_vts`. */
  function ToUnsigned(x: Int32): U32
  {
    x % 0x1_0000_0000
  }

  /** The vts block: the exposure block behind the gate `exposure >= min_vts`. */
  function VtsImage(s: seq<SensorReg>, reg: U16, w: int, x: Int32, minVts: U32): seq<SensorReg>
    requires reg != 0 ==> 0 <= w < 31
  {
    if reg != 0 && x != -1 && ToUnsigned(x) >= minVts then ValueImage(s, reg, w, x) else s
  }

  /** The register image after `update_regs`. */
  function UpdateImage(sensor: SensorDef, s: seq<SensorReg>, minVts: U32,
                       hflip: Bit, vflip: Bit, exposure: Int32, gain: Int32): seq<SensorReg>
    requires UpdatableSensor(sensor)
  {
    var s1 := FlipImage(s, sensor.vflipReg, sensor.vflipRegBit, vflip);
    var s2 := FlipImage(s1, sensor.hflipReg, sensor.hflipRegBit, hflip);
    var s3 := ValueImage(s2, sensor.exposureReg, sensor.exposureRegNumBits, exposure);
    var s4 := VtsImage(s3, sensor.vtsReg, sensor.vtsRegNumBits, exposure, minVts);
    ValueImage(s4, sensor.gainReg, sensor.gainRegNumBits, gain)
  }

  /** The Bayer order after `update_regs`: vflip is `^ 2`, hflip is `^ 1`. */
  function UpdateOrder(sensor: SensorDef, order: bv32, hflip: Bit, vflip: Bit): bv32
  {
    var o1 := FlipOrder(order, sensor.vflipReg, vflip, sensor.flipsDontChangeBayerOrder, 2);
    FlipOrder(o1, sensor.hflipReg, hflip, sensor.flipsDontChangeBayerOrder, 1)
  }

  /** One flip block of `update_regs`: `order_bit` is 2 for vflip and 1 for hflip. */
  method FlipBlock(mode: Mode, flipReg: U16, flipBit: int, flip: Bit, dontChange: bool, orderBit: bv32)
    requires flipReg != 0 ==> 0 <= flipBit < 31
    modifies mode, mode.regs
    ensures mode.regs[..] == FlipImage(old(mode.regs[..]), flipReg, flipBit, flip)
    ensures mode.order == FlipOrder(old(mode.order), flipReg, flip, dontChange, orderBit)
    ensures mode.width == old(mode.width) && mode.height == old(mode.height)
  {
    if flipReg != 0 {
      ModRegBit(mode, flipReg, flipBit, flip, Xor);
      if flip != 0 && !dontChange {
        mode.order := mode.order ^ orderBit;
      }
    }
  }

  /**
   * The range check and split of one numeric value, as the exposure,
   * vts and gain blocks of `update_regs` write it.
   */
  method ValueBlock(mode: Mode, reg: U16, w: int, x: Int32)
    requires reg != 0 ==> 0 <= w < 31
    modifies mode.regs
    ensures mode.regs[..] == ValueImage(old(mode.regs[..]), reg, w, x)
  {
    if reg != 0 && x != -1 {
      if x < 0 || x >= Pow2(w) {
        // "Invalid ..., range is 0 to 2^W-1" is only logged
      } else {
        WriteSplit(mode, reg, w, x);
      }
    }
  }

  /** `update_regs(sensor, mode, hflip, vflip, exposure, gain)`. */
  method UpdateRegs(sensor: SensorDef, mode: Mode, hflip: Bit, vflip: Bit, exposure: Int32, gain: Int32)
    requires UpdatableSensor(sensor)
    modifies mode, mode.regs
    ensures mode.regs[..] == UpdateImage(sensor, old(mode.regs[..]), mode.minVts, hflip, vflip, exposure, gain)
    ensures mode.order == UpdateOrder(sensor, old(mode.order), hflip, vflip)
    ensures mode.width == old(mode.width) && mode.height == old(mode.height)
  {
    FlipBlock(mode, sensor.vflipReg, sensor.vflipRegBit, vflip, sensor.flipsDontChangeBayerOrder, 2);
    FlipBlock(mode, sensor.hflipReg, sensor.hflipRegBit, hflip, sensor.flipsDontChangeBayerOrder, 1);
    ValueBlock(mode, sensor.exposureReg, sensor.exposureRegNumBits, exposure);
    if sensor.vtsReg != 0 && exposure != -1 && ToUnsigned(exposure) >= mode.minVts {
      ValueBlock(mode, sensor.vtsReg, sensor.vtsRegNumBits, exposure);
    }
    ValueBlock(mode, sensor.gainReg, sensor.gainRegNumBits, gain);
  }

  // ---------------------------------------------------------------
  // What update_regs promises
  // ---------------------------------------------------------------

  /** XOR with a value bit of 0 changes nothing. */
  lemma EditBitXorZero(s: seq<SensorReg>, reg: U16, bit: nat)
    requires bit < 31
    ensures EditBit(s, reg, bit, 0, Xor) == s
  {
    var i := FindReg(s, reg);
    if i < |s| {
      assert ApplyBitOp(s[i].data, bit, 0, Xor) == s[i].data;
      assert s[i := SensorReg(reg, s[i].data)] == s;
    }
  }

  /**
   * A requested flip on a sensor with a flip register toggles the flip
   * bit of the first entry for that register and nothing else; with the
   * register missing from the mode the image is unchanged.
   */
  lemma FlipToggles(s: seq<SensorReg>, reg: U16, bit: nat, k: nat)
    requires reg != 0 && bit < 31 && k < 16
    ensures SameAddresses(s, FlipImage(s, reg, bit, 1))
    ensures FindReg(s, reg) == |s| ==> FlipImage(s, reg, bit, 1) == s
    ensures FindReg(s, reg) < |s| ==>
      var i, t := FindReg(s, reg), FlipImage(s, reg, bit, 1);
      && (forall q :: 0 <= q < |s| && q != i ==> t[q] == s[q])
      && BitOf(t[i].data, k) == if k == bit then 1 - BitOf(s[i].data, k) else BitOf(s[i].data, k)
  {
    EditBitEffect(s, reg, bit, 1, Xor);
  }

  /**
   * The Bayer order follows the flips even when the flip register is
   * missing from the mode: starting from order o, the result names the
   * vertically and then horizontally mirrored tile, as requested.
   */
  lemma UpdateOrderFlips(sensor: SensorDef, o: BayerOrder, hflip: Bit, vflip: Bit)
    ensures var doV := sensor.vflipReg != 0 && vflip == 1 && !sensor.flipsDontChangeBayerOrder;
            var doH := sensor.hflipReg != 0 && hflip == 1 && !sensor.flipsDontChangeBayerOrder;
            var o1 := if doV then o.VFlipped() else o;
            OrderOf(UpdateOrder(sensor, o.Code(), hflip, vflip)) == Some(if doH then o1.HFlipped() else o1)
  {
    FlipCodes(o);
    FlipCodes(o.VFlipped());
  }

  /** A sensor with `flips_dont_change_bayer_order` keeps its order whatever the flips. */
  lemma UpdateOrderFixed(sensor: SensorDef, order: bv32, hflip: Bit, vflip: Bit)
    requires sensor.flipsDontChangeBayerOrder
    ensures UpdateOrder(sensor, order, hflip, vflip) == order
  {
  }

  /** With no flip and both values -1 (unset), neither the image nor the order changes. */
  lemma UpdateNothingRequested(sensor: SensorDef, s: seq<SensorReg>, minVts: U32, order: bv32)
    requires UpdatableSensor(sensor)
    ensures UpdateImage(sensor, s, minVts, 0, 0, -1, -1) == s
    ensures UpdateOrder(sensor, order, 0, 0) == order
  {
    if sensor.vflipReg != 0 {
      EditBitXorZero(s, sensor.vflipReg, sensor.vflipRegBit);
    }
    if sensor.hflipReg != 0 {
      EditBitXorZero(s, sensor.hflipReg, sensor.hflipRegBit);
    }
  }

  /** Asking for hflip alone is the hflip block alone. */
  lemma UpdateHflipOnly(sensor: SensorDef, s: seq<SensorReg>, minVts: U32)
    requires UpdatableSensor(sensor)
    ensures UpdateImage(sensor, s, minVts, 1, 0, -1, -1)
            == FlipImage(s, sensor.hflipReg, sensor.hflipRegBit, 1)
  {
    if sensor.vflipReg != 0 {
      EditBitXorZero(s, sensor.vflipReg, sensor.vflipRegBit);
    }
  }

  /** Asking for hflip twice (and nothing else) restores the image. */
  lemma UpdateHflipTwice(sensor: SensorDef, s: seq<SensorReg>, minVts: U32)
    requires UpdatableSensor(sensor)
    ensures UpdateImage(sensor, UpdateImage(sensor, s, minVts, 1, 0, -1, -1), minVts, 1, 0, -1, -1) == s
  {
    var s1 := FlipImage(s, sensor.hflipReg, sensor.hflipRegBit, 1);
    UpdateHflipOnly(sensor, s, minVts);
    UpdateHflipOnly(sensor, s1, minVts);
    if sensor.hflipReg != 0 {
      EditBitXorTwice(s, sensor.hflipReg, sensor.hflipRegBit, 1);
    }
  }

  /** Asking for hflip twice (and nothing else) restores the order. */
  lemma UpdateOrderHflipTwice(sensor: SensorDef, order: bv32)
    ensures UpdateOrder(sensor, UpdateOrder(sensor, order, 1, 0), 1, 0) == order
  {
    assert (order ^ 1) ^ 1 == order;
  }

  /**
   * A numeric block leaves the registers byte-for-byte unchanged for the
   * value -1 (unset) and for any value outside 0..2^W-1 (only logged);
   * otherwise it is the split.
   */
  lemma ValueImageCases(s: seq<SensorReg>, reg: U16, w: nat, x: int)
    requires reg != 0 && w < 31
    ensures x == -1 || x < 0 || x >= Pow2(w) ==> ValueImage(s, reg, w, x) == s
    ensures 0 <= x < Pow2(w) ==> ValueImage(s, reg, w, x) == SplitImage(s, reg, w, x, NumSplitRegs(w))
  {
  }

  /**
   * The vts registers are left alone unless exposure is not -1 and at
   * least `min_vts`. Although the comparison is unsigned, a negative
   * exposure that passes it then fails the range check, so the gate acts
   * as the signed comparison.
   */
  lemma VtsGate(s: seq<SensorReg>, reg: U16, w: nat, x: Int32, minVts: U32)
    requires reg != 0 && w < 31
    ensures x == -1 || x < minVts ==> VtsImage(s, reg, w, x, minVts) == s
    ensures x != -1 && x >= minVts ==> VtsImage(s, reg, w, x, minVts) == ValueImage(s, reg, w, x)
  {
    if x >= 0 {
      assert ToUnsigned(x) == x;
    }
  }
}
