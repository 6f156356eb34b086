/**
 * The bit-field editor of src/RegOperation.c: `modRegBit` edits one bit
 * of the first register entry with a given address, `modReg` applies it
 * to every bit of a range.
 *
 * Bit positions are C `int`s (here `nat`, the source never passes a
 * negative one). `1 << bit` is a C `int` and is only defined for
 * bit < 31; once truncated to the 16-bit register field it is zero from
 * bit 16 on, so such edits leave the value alone. The `int value` of
 * `modReg` is only ever read bit by bit.
 */
module RegEdit {
  import opened Types
  import opened Arith

  // ---------------------------------------------------------------
  // Bits of a 16-bit register value
  // ---------------------------------------------------------------

  /** `1 << bit`, truncated to the 16-bit data field. */
  function Mask(bit: nat): U16
    requires bit < 31
  {
    if bit >= 16 then 0 else if bit == 0 then 1 else Mask(bit - 1) << 1
  }

  /** Bit `k` of a register value, at a position given as a bit-vector. */
  function BitAt(d: U16, k: bv16): Bit
    requires k < 16
  {
    if (d >> k) & 1 == 1 then 1 else 0
  }

  /** Bit `k` of a register value. */
  function BitOf(d: U16, k: nat): Bit
    requires k < 16
  {
    if k == 0 then (if d & 1 == 1 then 1 else 0) else BitOf(d >> 1, k - 1)
  }

  lemma {:induction false} BitOfAt(d: U16, k: nat)
    requires k < 16
    ensures BitOf(d, k) == BitAt(d, k as bv16)
  {
    if k > 0 {
      BitOfAt(d >> 1, k - 1);
      ShiftStep(d, (k - 1) as bv16);
      CastStep(k);
    }
  }

  lemma CastRoundTrip(k: nat)
    requires k < 16
    ensures (k as bv16) as int == k
  {
  }

  lemma CastStep(k: nat)
    requires 0 < k < 16
    ensures (k - 1) as bv16 < 15 && (k - 1) as bv16 + 1 == k as bv16
  {
    CastRoundTrip(k - 1);
    CastRoundTrip(k);
  }

  lemma ShiftStep(d: U16, b: bv16)
    requires b < 15
    ensures (d >> 1) >> b == d >> (b + 1)
  {
  }

  /**
   * `value >> i & 1` for a C `int`: the right shift is arithmetic (it
   * floors), so this is bit i of the two's-complement pattern.
   */
  function ValueBit(v: int, i: nat): Bit
  {
    IntBit(v, i)
  }

  /** What a single-bit operation makes of a bit that was `was`. */
  function NewBit(was: Bit, value: Bit, op: Operation): Bit
  {
    match op
    case Equal => value
    case Set => 1
    case Clear => 0
    case Xor => if value == 1 then 1 - was else was
  }

  /** The EQUAL case: `(val | (1 << bit)) & ~((1 << bit) ^ (value << bit))`. */
  function EqualExpr(d: U16, m: U16, v: U16): U16
  {
    (d | m) & !(m ^ v)
  }

  /**
   * The four C expressions of the `switch` for a mask `m` = `1 << bit`;
   * `value << bit` is `m` when `one` holds and zero otherwise.
   */
  function ApplyMask(d: U16, m: U16, one: bool, op: Operation): U16
  {
    var v: U16 := if one then m else 0;
    match op
    case Equal => EqualExpr(d, m, v)
    case Set => d | m
    case Clear => d & !m
    case Xor => d ^ v
  }

  /** The value `modRegBit` stores back. */
  function ApplyBitOp(d: U16, bit: nat, value: Bit, op: Operation): U16
    requires bit < 31
  {
    ApplyMask(d, Mask(bit), value == 1, op)
  }

  lemma {:induction false} MaskLow(bit: nat)
    requires bit < 16
    ensures Mask(bit) == 1 << (bit as bv16)
  {
    if bit > 0 {
      MaskLow(bit - 1);
      MaskStep((bit - 1) as bv16);
      CastStep(bit);
    }
  }

  lemma MaskStep(b: bv16)
    requires b < 15
    ensures (1 << b) << 1 == (1 as bv16) << (b + 1)
  {
  }

  lemma MaskHigh(bit: nat)
    requires 16 <= bit < 31
    ensures Mask(bit) == 0
  {
  }

  lemma PositionsAgree(a: nat, b: nat)
    requires a < 16 && b < 16
    ensures (a as bv16 == b as bv16) <==> a == b
  {
    CastRoundTrip(a);
    CastRoundTrip(b);
  }

  // Each C expression on bit k, for a mask 1 << b.

  lemma EqualExprBit(d: U16, b: bv16, k: bv16, one: bool)
    requires b < 16 && k < 16
    ensures BitAt(EqualExpr(d, 1 << b, if one then 1 << b else 0), k)
            == if k == b then (if one then 1 else 0) else BitAt(d, k)
  {
  }

  lemma SetExprBit(d: U16, b: bv16, k: bv16)
    requires b < 16 && k < 16
    ensures BitAt(d | (1 << b), k) == if k == b then 1 else BitAt(d, k)
  {
  }

  lemma ClearExprBit(d: U16, b: bv16, k: bv16)
    requires b < 16 && k < 16
    ensures BitAt(d & !(1 << b), k) == if k == b then 0 else BitAt(d, k)
  {
  }

  lemma XorExprBit(d: U16, b: bv16, k: bv16, one: bool)
    requires b < 16 && k < 16
    ensures BitAt(d ^ (if one then 1 << b else 0), k)
            == if k == b && one then 1 - BitAt(d, k) else BitAt(d, k)
  {
  }

  // The truth table, one operation at a time.

  lemma ApplyMaskBitEqual(d: U16, b: bv16, k: bv16, value: Bit)
    requires b < 16 && k < 16
    ensures BitAt(ApplyMask(d, 1 << b, value == 1, Equal), k)
            == if k == b then NewBit(BitAt(d, k), value, Equal) else BitAt(d, k)
  {
    EqualExprBit(d, b, k, value == 1);
  }

  lemma ApplyMaskBitSet(d: U16, b: bv16, k: bv16, value: Bit)
    requires b < 16 && k < 16
    ensures BitAt(ApplyMask(d, 1 << b, value == 1, Set), k)
            == if k == b then NewBit(BitAt(d, k), value, Set) else BitAt(d, k)
  {
    SetExprBit(d, b, k);
  }

  lemma ApplyMaskBitClear(d: U16, b: bv16, k: bv16, value: Bit)
    requires b < 16 && k < 16
    ensures BitAt(ApplyMask(d, 1 << b, value == 1, Clear), k)
            == if k == b then NewBit(BitAt(d, k), value, Clear) else BitAt(d, k)
  {
    ClearExprBit(d, b, k);
  }

  lemma ApplyMaskBitXor(d: U16, b: bv16, k: bv16, value: Bit)
    requires b < 16 && k < 16
    ensures BitAt(ApplyMask(d, 1 << b, value == 1, Xor), k)
            == if k == b then NewBit(BitAt(d, k), value, Xor) else BitAt(d, k)
  {
    XorExprBit(d, b, k, value == 1);
  }

  lemma ApplyMaskBit(d: U16, b: bv16, k: bv16, value: Bit, op: Operation)
    requires b < 16 && k < 16
    ensures BitAt(ApplyMask(d, 1 << b, value == 1, op), k)
            == if k == b then NewBit(BitAt(d, k), value, op) else BitAt(d, k)
  {
    match op
    case Equal => ApplyMaskBitEqual(d, b, k, value);
    case Set => ApplyMaskBitSet(d, b, k, value);
    case Clear => ApplyMaskBitClear(d, b, k, value);
    case Xor => ApplyMaskBitXor(d, b, k, value);
  }

  lemma ApplyMaskZero(d: U16, one: bool, op: Operation)
    ensures ApplyMask(d, 0, one, op) == d
  {
    assert EqualExpr(d, 0, 0) == d;
  }

  /** From bit 16 on the truncated mask is zero and no operation changes the value. */
  lemma ApplyBitOpHigh(d: U16, bit: nat, value: Bit, op: Operation)
    requires 16 <= bit < 31
    ensures ApplyBitOp(d, bit, value, op) == d
  {
    MaskHigh(bit);
    ApplyMaskZero(d, value == 1, op);
  }

  /**
   * The truth table of `modRegBit` on the stored value: bit `bit` becomes
   * NewBit of its old value, every other bit keeps its value.
   */
  lemma ApplyBitOpBit(d: U16, bit: nat, value: Bit, op: Operation, k: nat)
    requires bit < 31 && k < 16
    ensures BitOf(ApplyBitOp(d, bit, value, op), k)
            == if k == bit then NewBit(BitOf(d, k), value, op) else BitOf(d, k)
  {
    if bit >= 16 {
      ApplyBitOpHigh(d, bit, value, op);
    } else {
      MaskLow(bit);
      PositionsAgree(bit, k);
      BitOfAt(d, k);
      BitOfAt(ApplyBitOp(d, bit, value, op), k);
      ApplyMaskBit(d, bit as bv16, k as bv16, value, op);
    }
  }

  /** XOR with the same bit twice restores the value. */
  lemma ApplyBitOpXorTwice(d: U16, bit: nat, value: Bit)
    requires bit < 31
    ensures ApplyBitOp(ApplyBitOp(d, bit, value, Xor), bit, value, Xor) == d
  {
    var v: U16 := if value == 1 then Mask(bit) else 0;
    assert (d ^ v) ^ v == d;
  }

  // ---------------------------------------------------------------
  // A range of bits: the loop of modReg on one value
  // ---------------------------------------------------------------

  /**
   * The value after `modRegBit` has been applied with bit i of `v` for
   * i = lo, lo+1, ..., hi, in that order.
   */
  function FieldOp(d: U16, lo: nat, hi: int, v: int, op: Operation): U16
    requires hi < 31
    decreases hi - lo
  {
    if hi < lo then d
    else ApplyBitOp(FieldOp(d, lo, hi - 1, v, op), hi, ValueBit(v, hi), op)
  }

  /**
   * Every bit of the range takes the operation with the matching bit of
   * `v`; every bit outside it keeps its value.
   */
  lemma {:induction false} FieldOpBit(d: U16, lo: nat, hi: int, v: int, op: Operation, k: nat)
    requires hi < 31 && k < 16
    ensures BitOf(FieldOp(d, lo, hi, v, op), k)
            == if lo <= k <= hi then NewBit(BitOf(d, k), ValueBit(v, k), op) else BitOf(d, k)
    decreases hi - lo
  {
    if hi >= lo {
      FieldOpBit(d, lo, hi - 1, v, op, k);
      ApplyBitOpBit(FieldOp(d, lo, hi - 1, v, op), hi, ValueBit(v, hi), op, k);
    }
  }

  /** Only the bits of `v` inside the range matter. */
  lemma {:induction false} FieldOpAgree(d: U16, lo: nat, hi: int, v: int, w: int, op: Operation)
    requires hi < 31
    requires forall k: nat :: lo <= k <= hi ==> ValueBit(v, k) == ValueBit(w, k)
    ensures FieldOp(d, lo, hi, v, op) == FieldOp(d, lo, hi, w, op)
    decreases hi - lo
  {
    if hi >= lo {
      FieldOpAgree(d, lo, hi - 1, v, w, op);
      assert ValueBit(v, hi) == ValueBit(w, hi);
    }
  }

  /** The value of bits 0..n-1 of a register value. */
  function DataBits(d: U16, n: nat): int
    requires n <= 16
  {
    if n == 0 then 0 else DataBits(d, n - 1) + BitOf(d, n - 1) * Pow2(n - 1)
  }

  /** A register value whose low n bits are those of x holds x mod 2^n there. */
  lemma {:induction false} DataBitsAgree(d: U16, x: int, n: nat)
    requires n <= 16
    requires forall k: nat :: k < n ==> BitOf(d, k) == ValueBit(x, k)
    ensures DataBits(d, n) == x % Pow2(n)
  {
    IntBitsMod(x, n);
    DataBitsIntBits(d, x, n);
  }

  lemma {:induction false} DataBitsIntBits(d: U16, x: int, n: nat)
    requires n <= 16
    requires forall k: nat :: k < n ==> BitOf(d, k) == ValueBit(x, k)
    ensures DataBits(d, n) == IntBits(x, n)
  {
    if n > 0 {
      DataBitsIntBits(d, x, n - 1);
      assert BitOf(d, n - 1) == ValueBit(x, n - 1);
    }
  }

  /** The low byte of a register value. */
  function LowByte(d: U16): int
  {
    DataBits(d, 8)
  }

  /** A register value whose bits 0..7 are those of `v` has `v mod 256` as low byte. */
  lemma LowByteOf(d: U16, v: int)
    requires forall k: nat :: k < 8 ==> BitOf(d, k) == ValueBit(v, k)
    ensures LowByte(d) == v % 256
  {
    DataBitsAgree(d, v, 8);
    assert Pow2(8) == 256;
  }

  /** A register value whose bits 0..3 are those of `v` has `v mod 16` as low nibble. */
  lemma LowNibbleOf(d: U16, v: int)
    requires forall k: nat :: k < 4 ==> BitOf(d, k) == ValueBit(v, k)
    ensures DataBits(d, 4) == v % 16
  {
    DataBitsAgree(d, v, 4);
    assert Pow2(4) == 16;
  }

  // ---------------------------------------------------------------
  // The register image: search for the first entry with an address
  // ---------------------------------------------------------------

  /** Index of the first entry with address `reg`, or |s| when there is none. */
  function FindReg(s: seq<SensorReg>, reg: U16): (i: nat)
    ensures i <= |s|
    ensures i < |s| ==> s[i].reg == reg
    ensures forall k :: 0 <= k < i ==> s[k].reg != reg
  {
    if s == [] then 0
    else if s[0].reg == reg then 0
    else 1 + FindReg(s[1..], reg)
  }

  /** Two register images with the same addresses, entry by entry. */
  predicate SameAddresses(s: seq<SensorReg>, t: seq<SensorReg>)
  {
    |s| == |t| && forall i :: 0 <= i < |s| ==> s[i].reg == t[i].reg
  }

  /** Editing values does not move the entry any address is found at. */
  lemma FindRegSameAddresses(s: seq<SensorReg>, t: seq<SensorReg>, reg: U16)
    requires SameAddresses(s, t)
    ensures FindReg(s, reg) == FindReg(t, reg)
  {
  }

  /** The first entries of two distinct addresses are distinct entries (when present). */
  lemma FindRegDistinct(s: seq<SensorReg>, a: U16, b: U16)
    requires a != b && FindReg(s, a) < |s|
    ensures FindReg(s, a) != FindReg(s, b)
  {
  }

  /** `modRegBit` on the register image. */
  function EditBit(s: seq<SensorReg>, reg: U16, bit: nat, value: Bit, op: Operation): (r: seq<SensorReg>)
    requires bit < 31
  {
    var i := FindReg(s, reg);
    if i == |s| then s
    else s[i := SensorReg(reg, ApplyBitOp(s[i].data, bit, value, op))]
  }

  /** `modReg` on the register image. */
  function EditField(s: seq<SensorReg>, reg: U16, lo: nat, hi: int, v: int, op: Operation): (r: seq<SensorReg>)
    requires hi < 31
  {
    var i := FindReg(s, reg);
    if i == |s| then s
    else s[i := SensorReg(reg, FieldOp(s[i].data, lo, hi, v, op))]
  }

  /**
   * modRegBit: with no entry for `reg` the image is unchanged; otherwise
   * only the first entry with that address changes, and in it only bit
   * `bit`, which takes the operation's truth table.
   */
  lemma EditBitEffect(s: seq<SensorReg>, reg: U16, bit: nat, value: Bit, op: Operation)
    requires bit < 31
    ensures SameAddresses(s, EditBit(s, reg, bit, value, op))
    ensures FindReg(s, reg) == |s| ==> EditBit(s, reg, bit, value, op) == s
    ensures FindReg(s, reg) < |s| ==>
      var i, r := FindReg(s, reg), EditBit(s, reg, bit, value, op);
      && (forall q :: 0 <= q < |s| && q != i ==> r[q] == s[q])
      && (forall k: nat :: k < 16 ==>
            BitOf(r[i].data, k) == if k == bit then NewBit(BitOf(s[i].data, k), value, op)
                                   else BitOf(s[i].data, k))
  {
    var i := FindReg(s, reg);
    if i < |s| {
      forall k: nat | k < 16
        ensures BitOf(EditBit(s, reg, bit, value, op)[i].data, k)
                == if k == bit then NewBit(BitOf(s[i].data, k), value, op) else BitOf(s[i].data, k)
      {
        ApplyBitOpBit(s[i].data, bit, value, op, k);
      }
    }
  }

  /**
   * modReg: with no entry for `reg` the image is unchanged; otherwise only
   * the first entry with that address changes, each bit i in lo..hi takes
   * the operation with bit i of `v`, and every other bit keeps its value.
   * An empty range (lo > hi) changes nothing.
   */
  lemma EditFieldEffect(s: seq<SensorReg>, reg: U16, lo: nat, hi: int, v: int, op: Operation)
    requires hi < 31
    ensures SameAddresses(s, EditField(s, reg, lo, hi, v, op))
    ensures FindReg(s, reg) == |s| || hi < lo ==> EditField(s, reg, lo, hi, v, op) == s
    ensures FindReg(s, reg) < |s| ==>
      var i, r := FindReg(s, reg), EditField(s, reg, lo, hi, v, op);
      && (forall q :: 0 <= q < |s| && q != i ==> r[q] == s[q])
      && (forall k: nat :: k < 16 ==>
            BitOf(r[i].data, k) == if lo <= k <= hi then NewBit(BitOf(s[i].data, k), ValueBit(v, k), op)
                                   else BitOf(s[i].data, k))
  {
    var i := FindReg(s, reg);
    if i < |s| {
      if hi < lo {
        assert FieldOp(s[i].data, lo, hi, v, op) == s[i].data;
        assert s[i := SensorReg(reg, s[i].data)] == s;
      }
      forall k: nat | k < 16
        ensures BitOf(EditField(s, reg, lo, hi, v, op)[i].data, k)
                == if lo <= k <= hi then NewBit(BitOf(s[i].data, k), ValueBit(v, k), op)
                   else BitOf(s[i].data, k)
      {
        FieldOpBit(s[i].data, lo, hi, v, op, k);
      }
    }
  }

  /**
   * With EQUAL, bits lo..hi of the first matching entry equal the bits of
   * `v` and all its other bits are unchanged.
   */
  lemma EditFieldEqual(s: seq<SensorReg>, reg: U16, lo: nat, hi: int, v: int, k: nat)
    requires hi < 31 && k < 16
    requires FindReg(s, reg) < |s|
    ensures BitOf(EditField(s, reg, lo, hi, v, Equal)[FindReg(s, reg)].data, k)
            == if lo <= k <= hi then ValueBit(v, k) else BitOf(s[FindReg(s, reg)].data, k)
  {
    FieldOpBit(s[FindReg(s, reg)].data, lo, hi, v, Equal, k);
  }

  /** Two `modReg` calls whose values agree on the range leave the same image. */
  lemma EditFieldAgree(s: seq<SensorReg>, reg: U16, lo: nat, hi: int, v: int, w: int, op: Operation)
    requires hi < 31
    requires forall k: nat :: lo <= k <= hi ==> ValueBit(v, k) == ValueBit(w, k)
    ensures EditField(s, reg, lo, hi, v, op) == EditField(s, reg, lo, hi, w, op)
  {
    var i := FindReg(s, reg);
    if i < |s| {
      FieldOpAgree(s[i].data, lo, hi, v, w, op);
    }
  }

  /** One more bit of the loop of modReg, on the register image. */
  lemma EditFieldStep(s: seq<SensorReg>, reg: U16, lo: nat, hi: int, v: int, op: Operation)
    requires lo <= hi < 31
    ensures EditBit(EditField(s, reg, lo, hi - 1, v, op), reg, hi, ValueBit(v, hi), op)
            == EditField(s, reg, lo, hi, v, op)
  {
    EditFieldEffect(s, reg, lo, hi - 1, v, op);
    FindRegSameAddresses(s, EditField(s, reg, lo, hi - 1, v, op), reg);
  }

  /** Two XORs of the same bit with the same value restore the image. */
  lemma EditBitXorTwice(s: seq<SensorReg>, reg: U16, bit: nat, value: Bit)
    requires bit < 31
    ensures EditBit(EditBit(s, reg, bit, value, Xor), reg, bit, value, Xor) == s
  {
    var t := EditBit(s, reg, bit, value, Xor);
    EditBitEffect(s, reg, bit, value, Xor);
    FindRegSameAddresses(s, t, reg);
    var i := FindReg(s, reg);
    if i < |s| {
      ApplyBitOpXorTwice(s[i].data, bit, value);
      assert t[i := SensorReg(reg, s[i].data)] == s;
    }
  }

  // ---------------------------------------------------------------
  // The C functions, over the mode's register array
  // ---------------------------------------------------------------

  /** `modRegBit(mode, reg, bit, value, op)`. */
  method ModRegBit(mode: Mode, reg: U16, bit: nat, value: Bit, op: Operation)
    requires bit < 31
    modifies mode.regs
    ensures mode.regs[..] == EditBit(old(mode.regs[..]), reg, bit, value, op)
  {
    var i := 0;
    while i < mode.regs.Length && mode.regs[i].reg != reg
      invariant 0 <= i <= mode.regs.Length
      invariant forall k :: 0 <= k < i ==> mode.regs[k].reg != reg
    {
      i := i + 1;
    }
    assert i == FindReg(mode.regs[..], reg);
    if i == mode.regs.Length {
      return;   // "Reg not found" is only logged
    }
    var val := ApplyBitOp(mode.regs[i].data, bit, value, op);   // the switch on op
    mode.regs[i] := SensorReg(mode.regs[i].reg, val);
  }

  /** `modReg(mode, reg, startBit, endBit, value, op)`. */
  method ModReg(mode: Mode, reg: U16, startBit: nat, endBit: int, value: int, op: Operation)
    requires endBit < 31
    modifies mode.regs
    ensures mode.regs[..] == EditField(old(mode.regs[..]), reg, startBit, endBit, value, op)
  {
    if endBit < startBit {
      EditFieldEffect(mode.regs[..], reg, startBit, endBit, value, op);
      return;
    }
    var i := startBit;
    assert mode.regs[..] == EditField(old(mode.regs[..]), reg, startBit, i - 1, value, op) by {
      EditFieldEffect(mode.regs[..], reg, startBit, i - 1, value, op);
    }
    while i <= endBit
      invariant startBit <= i <= endBit + 1
      invariant mode.regs[..] == EditField(old(mode.regs[..]), reg, startBit, i - 1, value, op)
    {
      EditFieldStep(old(mode.regs[..]), reg, startBit, i, value, op);
      ModRegBit(mode, reg, i, ValueBit(value, i), op);
      i := i + 1;
    }
  }
}
