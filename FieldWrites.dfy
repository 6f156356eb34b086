/**
 * The register edits `main` makes in src/raspiraw.c are all of one kind:
 * `modReg(sensor_mode, reg, 0, hi, value, EQUAL)`. This module describes
 * a sequence of such calls on the register image and what it leaves in
 * each register.
 */
module FieldWrites {
  import opened Types
  import opened Arith
  import opened RegEdit

  /** The highest bit a `main` edit writes (every edit writes from bit 0). */
  type EndBit = e: nat | e < 16

  /** `modReg(mode, reg, 0, hi, value, EQUAL)`. */
  datatype FieldWrite = FieldWrite(reg: U16, hi: EndBit, value: int)

  /** The register image after the writes, in order. */
  function ApplyWrites(s: seq<SensorReg>, ws: seq<FieldWrite>): seq<SensorReg>
    decreases |ws|
  {
    if ws == [] then s
    else
      var w := ws[|ws| - 1];
      EditField(ApplyWrites(s, ws[..|ws| - 1]), w.reg, 0, w.hi, w.value, Equal)
  }

  /** One more write. */
  lemma ApplyWritesSnoc(s: seq<SensorReg>, ws: seq<FieldWrite>, w: FieldWrite)
    ensures ApplyWrites(s, ws + [w]) == EditField(ApplyWrites(s, ws), w.reg, 0, w.hi, w.value, Equal)
  {
    assert (ws + [w])[..|ws|] == ws;
  }

  /** The first n+1 writes are the first n followed by write n. */
  lemma ApplyWritesPrefix(s: seq<SensorReg>, ws: seq<FieldWrite>, n: nat)
    requires n < |ws|
    ensures ApplyWrites(s, ws[..n + 1]) == EditField(ApplyWrites(s, ws[..n]), ws[n].reg, 0, ws[n].hi, ws[n].value, Equal)
  {
    assert ws[..n + 1] == ws[..n] + [ws[n]];
    ApplyWritesSnoc(s, ws[..n], ws[n]);
  }

  /** Writing `a` and then `b` is writing `a + b`. */
  lemma {:induction false} ApplyWritesAppend(s: seq<SensorReg>, a: seq<FieldWrite>, b: seq<FieldWrite>)
    ensures ApplyWrites(ApplyWrites(s, a), b) == ApplyWrites(s, a + b)
    decreases |b|
  {
    if b == [] {
      assert a + b == a;
    } else {
      var b', w := b[..|b| - 1], b[|b| - 1];
      assert b == b' + [w];
      assert a + b == (a + b') + [w];
      ApplyWritesAppend(s, a, b');
      ApplyWritesSnoc(ApplyWrites(s, a), b', w);
      ApplyWritesSnoc(s, a + b', w);
    }
  }

  /** The writes change values only, never addresses. */
  lemma {:induction false} ApplyWritesAddresses(s: seq<SensorReg>, ws: seq<FieldWrite>)
    ensures SameAddresses(s, ApplyWrites(s, ws))
    decreases |ws|
  {
    if ws != [] {
      var w := ws[|ws| - 1];
      ApplyWritesAddresses(s, ws[..|ws| - 1]);
      EditFieldEffect(ApplyWrites(s, ws[..|ws| - 1]), w.reg, 0, w.hi, w.value, Equal);
    }
  }

  /** An entry that is not the first entry of any written address is untouched. */
  lemma {:induction false} ApplyWritesOther(s: seq<SensorReg>, ws: seq<FieldWrite>, q: nat)
    requires q < |s|
    requires forall m :: 0 <= m < |ws| ==> FindReg(s, ws[m].reg) != q
    ensures |ApplyWrites(s, ws)| == |s|
    ensures ApplyWrites(s, ws)[q] == s[q]
    decreases |ws|
  {
    ApplyWritesAddresses(s, ws);
    if ws != [] {
      var ws', w := ws[..|ws| - 1], ws[|ws| - 1];
      var t := ApplyWrites(s, ws');
      ApplyWritesOther(s, ws', q);
      ApplyWritesAddresses(s, ws');
      FindRegSameAddresses(s, t, w.reg);
      EditFieldEffect(t, w.reg, 0, w.hi, w.value, Equal);
    }
  }

  /** A write to another address leaves the first entry `i` of an address alone. */
  lemma ApplyWritesLastOnly(s: seq<SensorReg>, ws: seq<FieldWrite>, i: nat)
    requires ws != [] && i < |s|
    requires i != FindReg(s, ws[|ws| - 1].reg)
    ensures |ApplyWrites(s, ws)| == |ApplyWrites(s, ws[..|ws| - 1])| == |s|
    ensures ApplyWrites(s, ws)[i] == ApplyWrites(s, ws[..|ws| - 1])[i]
  {
    var ws', w := ws[..|ws| - 1], ws[|ws| - 1];
    var t := ApplyWrites(s, ws');
    ApplyWritesAddresses(s, ws');
    FindRegSameAddresses(s, t, w.reg);
    EditFieldEffect(t, w.reg, 0, w.hi, w.value, Equal);
  }

  /** Writes after write n that target other addresses leave its entry as it was. */
  lemma {:induction false} ApplyWritesStable(s: seq<SensorReg>, ws: seq<FieldWrite>, n: nat, len: nat, i: nat)
    requires n < len <= |ws|
    requires i == FindReg(s, ws[n].reg) < |s|
    requires forall m :: n < m < |ws| ==> ws[m].reg != ws[n].reg
    ensures |ApplyWrites(s, ws[..len])| == |ApplyWrites(s, ws[..n + 1])| == |s|
    ensures ApplyWrites(s, ws[..len])[i] == ApplyWrites(s, ws[..n + 1])[i]
    decreases len
  {
    ApplyWritesAddresses(s, ws[..len]);
    ApplyWritesAddresses(s, ws[..n + 1]);
    if len > n + 1 {
      var pre := ws[..len];
      assert pre[..len - 1] == ws[..len - 1];
      ApplyWritesStable(s, ws, n, len - 1, i);
      FindRegDistinct(s, ws[n].reg, ws[len - 1].reg);
      ApplyWritesLastOnly(s, pre, i);
    }
  }

  /**
   * Write n, when no later write targets its address: bits 0..hi of the
   * first entry of that address hold the bits of its value, and the
   * bits above keep the value they had before it.
   */
  lemma ApplyWritesBits(s: seq<SensorReg>, ws: seq<FieldWrite>, n: nat, k: nat)
    requires n < |ws| && k < 16
    requires FindReg(s, ws[n].reg) < |s|
    requires forall m :: n < m < |ws| ==> ws[m].reg != ws[n].reg
    ensures |ApplyWrites(s, ws)| == |ApplyWrites(s, ws[..n])| == |s|
    ensures var i := FindReg(s, ws[n].reg);
            BitOf(ApplyWrites(s, ws)[i].data, k)
            == if k <= ws[n].hi then ValueBit(ws[n].value, k) else BitOf(ApplyWrites(s, ws[..n])[i].data, k)
  {
    var i := FindReg(s, ws[n].reg);
    var w := ws[n];
    var t := ApplyWrites(s, ws[..n]);
    assert ws[..|ws|] == ws;
    ApplyWritesStable(s, ws, n, |ws|, i);
    assert ws[..n + 1][..n] == ws[..n];
    ApplyWritesAddresses(s, ws[..n]);
    FindRegSameAddresses(s, t, w.reg);
    EditFieldEqual(t, w.reg, 0, w.hi, w.value, k);
  }

  /** The bits 0..hi of the entry of the last write to an address, all at once. */
  lemma ApplyWritesField(s: seq<SensorReg>, ws: seq<FieldWrite>, n: nat)
    requires n < |ws|
    requires FindReg(s, ws[n].reg) < |s|
    requires forall m :: n < m < |ws| ==> ws[m].reg != ws[n].reg
    ensures |ApplyWrites(s, ws)| == |s|
    ensures forall k: nat :: k <= ws[n].hi ==>
              BitOf(ApplyWrites(s, ws)[FindReg(s, ws[n].reg)].data, k) == ValueBit(ws[n].value, k)
  {
    ApplyWritesAddresses(s, ws);
    forall k: nat | k <= ws[n].hi
      ensures BitOf(ApplyWrites(s, ws)[FindReg(s, ws[n].reg)].data, k) == ValueBit(ws[n].value, k)
    {
      ApplyWritesBits(s, ws, n, k);
    }
  }

  /** For the last write to an address with hi = 7: the low byte of its entry is the value mod 256. */
  lemma ApplyWritesLowByte(s: seq<SensorReg>, ws: seq<FieldWrite>, n: nat)
    requires n < |ws| && ws[n].hi == 7
    requires FindReg(s, ws[n].reg) < |s|
    requires forall m :: n < m < |ws| ==> ws[m].reg != ws[n].reg
    ensures |ApplyWrites(s, ws)| == |s|
    ensures LowByte(ApplyWrites(s, ws)[FindReg(s, ws[n].reg)].data) == ws[n].value % 256
  {
    ApplyWritesField(s, ws, n);
    LowByteOf(ApplyWrites(s, ws)[FindReg(s, ws[n].reg)].data, ws[n].value);
  }

  /** For the last write to an address with hi = 3: the low nibble of its entry is the value mod 16. */
  lemma ApplyWritesLowNibble(s: seq<SensorReg>, ws: seq<FieldWrite>, n: nat)
    requires n < |ws| && ws[n].hi == 3
    requires FindReg(s, ws[n].reg) < |s|
    requires forall m :: n < m < |ws| ==> ws[m].reg != ws[n].reg
    ensures |ApplyWrites(s, ws)| == |s|
    ensures DataBits(ApplyWrites(s, ws)[FindReg(s, ws[n].reg)].data, 4) == ws[n].value % 16
  {
    ApplyWritesField(s, ws, n);
    LowNibbleOf(ApplyWrites(s, ws)[FindReg(s, ws[n].reg)].data, ws[n].value);
  }
}
