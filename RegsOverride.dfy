/**
 * The `-regs` override in `main` of src/raspiraw.c: a string of
 * `;`-separated segments `RRRR,BBBB…`, each a 4-digit hexadecimal
 * register address followed by hexadecimal byte pairs. Byte n of a
 * segment is written into bits 0..7 of register RRRR+n with
 * `modReg(sensor_mode, r, 0, 7, b, EQUAL)`.
 */
module RegsOverride {
  import opened Types
  import opened Arith
  import opened RegEdit
  import opened FieldWrites
  import opened Bus

  // ---------------------------------------------------------------
  // Hexadecimal digits
  // ---------------------------------------------------------------

  /** `isxdigit(c)`. */
  predicate IsHexDigit(c: char)
  {
    ('0' <= c <= '9') || ('a' <= c <= 'f') || ('A' <= c <= 'F')
  }

  /** The value of one hexadecimal digit, either case. */
  function HexValue(c: char): (d: nat)
    requires IsHexDigit(c)
    ensures d < 16
  {
    if '0' <= c <= '9' then c as int - '0' as int
    else if 'a' <= c <= 'f' then c as int - 'a' as int + 10
    else c as int - 'A' as int + 10
  }

  predicate AllHex(t: string)
  {
    forall i :: 0 <= i < |t| ==> IsHexDigit(t[i])
  }

  /** Hexadecimal digits read most significant first, as `sscanf` with `%x` reads them. */
  function HexNumber(t: string): (n: nat)
    requires AllHex(t)
    decreases |t|
  {
    if t == [] then 0 else HexNumber(t[..|t| - 1]) * 16 + HexValue(t[|t| - 1])
  }

  /** Two hexadecimal digits give a byte. */
  lemma HexPairBound(t: string)
    requires |t| == 2 && AllHex(t)
    ensures HexNumber(t) == HexValue(t[0]) * 16 + HexValue(t[1]) < 256
  {
    var t1 := t[..1];
    assert t1[..0] == [] && t1[0] == t[0];
    assert HexNumber(t1) == HexValue(t[0]);
  }

  // ---------------------------------------------------------------
  // strtok(·, ";")
  // ---------------------------------------------------------------

  /** The length of the run before the first ';' of t (all of t if there is none). */
  function TokenLength(t: string): (e: nat)
    ensures e <= |t|
    ensures e < |t| ==> t[e] == ';'
    ensures forall i :: 0 <= i < e ==> t[i] != ';'
    decreases |t|
  {
    if t == [] || t[0] == ';' then 0 else 1 + TokenLength(t[1..])
  }

  /**
   * The tokens successive `strtok(·, ";")` calls return: the maximal
   * runs without ';', in order; runs of delimiters give no empty token.
   */
  function Tokens(s: string): (ts: seq<string>)
    ensures forall k :: 0 <= k < |ts| ==> ts[k] != [] && ';' !in ts[k]
    decreases |s|
  {
    if s == [] then []
    else if s[0] == ';' then Tokens(s[1..])
    else
      var e := TokenLength(s);
      assert forall c :: c in s[..e] ==> c != ';';
      [s[..e]] + Tokens(s[e..])
  }

  /** Where a token lies in the string: `lo` up to but not including `hi`. */
  datatype Span = Span(lo: nat, hi: nat)

  /**
   * One call of `strtok` that resumes at `pos`: the span of the next
   * token, or None when only delimiters are left. Resuming at the end
   * of that token gives the remaining tokens.
   */
  function Strtok(s: string, pos: nat): (r: Option<Span>)
    requires pos <= |s|
    ensures r.None? <==> Tokens(s[pos..]) == []
    ensures r.Some? ==> pos <= r.value.lo < r.value.hi <= |s|
    ensures r.Some? ==> Tokens(s[pos..]) == [s[r.value.lo..r.value.hi]] + Tokens(s[r.value.hi..])
    decreases |s| - pos
  {
    if pos == |s| then None
    else if s[pos] == ';' then
      assert s[pos..][1..] == s[pos + 1..];
      Strtok(s, pos + 1)
    else
      var e := TokenLength(s[pos..]);
      assert s[pos..][..e] == s[pos..pos + e];
      assert s[pos..][e..] == s[pos + e..];
      Some(Span(pos, pos + e))
  }

  // ---------------------------------------------------------------
  // A segment and the writes it stands for
  // ---------------------------------------------------------------

  /**
   * What the `vcos_assert`s demand of a segment: longer than 6, a ','
   * at index 4, odd length (so the bytes come in pairs), and hexadecimal
   * digits everywhere else.
   */
  predicate WellFormedSegment(t: string)
  {
    |t| > 6 && t[4] == ',' && |t| % 2 == 1 &&
    forall i :: 0 <= i < |t| && i != 4 ==> IsHexDigit(t[i])
  }

  /** The number of byte pairs after the comma. */
  function NumBytes(t: string): nat
    requires |t| >= 5
  {
    (|t| - 5) / 2
  }

  /** `p[4] = '\0'; sscanf(p, "%4x", &r)`: the register address of a segment. */
  function SegmentReg(t: string): (r: nat)
    requires WellFormedSegment(t)
  {
    assert AllHex(t[..4]);
    HexNumber(t[..4])
  }

  /** `sscanf(q, "%2x", &b)` for the n-th pair. */
  function SegmentByte(t: string, n: nat): (b: nat)
    requires WellFormedSegment(t) && n < NumBytes(t)
    ensures b < 256
  {
    var q := 5 + 2 * n;
    assert AllHex(t[q..q + 2]);
    HexPairBound(t[q..q + 2]);
    HexNumber(t[q..q + 2])
  }

  /** A hexadecimal digit value as a byte, by cases. */
  function Nibble(d: nat): (b: Byte)
    requires d < 16
    ensures b < 16 && b as int == d
  {
    if d < 8 then
      if d < 4 then (if d == 0 then 0 else if d == 1 then 1 else if d == 2 then 2 else 3)
      else (if d == 4 then 4 else if d == 5 then 5 else if d == 6 then 6 else 7)
    else
      if d < 12 then (if d == 8 then 8 else if d == 9 then 9 else if d == 10 then 10 else 11)
      else (if d == 12 then 12 else if d == 13 then 13 else if d == 14 then 14 else 15)
  }

  /** A value in 0..255 as a byte: its high nibble, then its low one. */
  function ToByte(x: int): Byte
    requires 0 <= x < 256
  {
    (Nibble(x / 16) << 4) | Nibble(x % 16)
  }

  /** The two nibbles of a byte are the nibbles it was made from. */
  lemma NibblesOfByte(h: Byte, l: Byte)
    requires h < 16 && l < 16
    ensures ((h << 4) | l) >> 4 == h && ((h << 4) | l) & 0xF == l
  {
  }

  /** Distinct values in 0..255 give distinct bytes. */
  lemma ToByteInjective(x: int, y: int)
    requires 0 <= x < 256 && 0 <= y < 256 && ToByte(x) == ToByte(y)
    ensures x == y
  {
    NibblesOfByte(Nibble(x / 16), Nibble(x % 16));
    NibblesOfByte(Nibble(y / 16), Nibble(y % 16));
    assert x / 16 == y / 16 && x % 16 == y % 16;
  }

  /**
   * The `int r` passed as the `uint16_t reg` of `modReg`: its value
   * modulo 0x10000, built from its high and low bytes.
   */
  function RegAddress(r: int): U16
  {
    var a := r % 0x1_0000;
    Word(ToByte(a / 256), ToByte(a % 256))
  }

  /** The writes of one segment: byte n into bits 0..7 of register r+n. */
  function SegmentWrites(t: string): (ws: seq<FieldWrite>)
    requires WellFormedSegment(t)
    ensures |ws| == NumBytes(t)
    ensures forall n :: 0 <= n < |ws| ==>
              ws[n] == FieldWrite(RegAddress(SegmentReg(t) + n), 7, SegmentByte(t, n))
  {
    seq(NumBytes(t), n requires 0 <= n < NumBytes(t) =>
      FieldWrite(RegAddress(SegmentReg(t) + n), 7, SegmentByte(t, n)))
  }

  /** The writes of a list of segments, in order. */
  function Writes(ts: seq<string>): seq<FieldWrite>
    requires forall k :: 0 <= k < |ts| ==> WellFormedSegment(ts[k])
  {
    if ts == [] then [] else SegmentWrites(ts[0]) + Writes(ts[1..])
  }

  /** Every segment of the override string is well formed. */
  predicate WellFormedOverride(s: string)
  {
    forall k :: 0 <= k < |Tokens(s)| ==> WellFormedSegment(Tokens(s)[k])
  }

  /** The writes an override string stands for. */
  function RegsWrites(s: string): seq<FieldWrite>
    requires WellFormedOverride(s)
  {
    Writes(Tokens(s))
  }

  // ---------------------------------------------------------------
  // The parser loop of main
  // ---------------------------------------------------------------

  /**
   * The inner `while (*q)` loop for one segment `p`: each pair is read
   * and written into bits 0..7 of the next register.
   */
  method WriteSegment(mode: Mode, p: string)
    requires WellFormedSegment(p)
    modifies mode.regs
    ensures mode.regs[..] == ApplyWrites(old(mode.regs[..]), SegmentWrites(p))
  {
    assert AllHex(p[..4]);
    var r := HexNumber(p[..4]);               // p[4] = '\0'; sscanf(p, "%4x", &r)
    var q := 5;
    ghost var n := 0;
    ghost var s0 := mode.regs[..];
    assert |p| == 5 + 2 * NumBytes(p);
    assert SegmentWrites(p)[..0] == [];
    while q < |p|                             // while (*q)
      invariant 0 <= n <= NumBytes(p) && q == 5 + 2 * n && |p| == 5 + 2 * NumBytes(p)
      invariant r == SegmentReg(p) + n
      invariant mode.regs[..] == ApplyWrites(s0, SegmentWrites(p)[..n])
    {
      assert n < NumBytes(p) && q + 1 < |p|;
      var b := HexNumber(PairAt(p, q));       // sscanf(q, "%2x", &b)
      SegmentStep(s0, p, n, r, b);
      ModReg(mode, RegAddress(r), 0, 7, b, Equal);
      r, q, n := r + 1, q + 2, n + 1;          // ++r; q += 2
    }
    assert SegmentWrites(p)[..n] == SegmentWrites(p);
  }

  /** The two characters at q, when they are hexadecimal digits. */
  function PairAt(p: string, q: nat): (t: string)
    requires WellFormedSegment(p) && 5 <= q && q + 1 < |p|
    ensures |t| == 2 && AllHex(t)
  {
    p[q..q + 2]
  }

  /** The n-th pair of a segment reads as its byte. */
  lemma PairHex(t: string, n: nat)
    requires WellFormedSegment(t) && n < NumBytes(t)
    ensures 7 + 2 * n <= |t| && HexNumber(PairAt(t, 5 + 2 * n)) == SegmentByte(t, n)
  {
  }

  /**
   * Pair n of a segment, read as `b` at register `r`, is the write
   * after the first n.
   */
  lemma SegmentStep(s: seq<SensorReg>, p: string, n: nat, r: int, b: int)
    requires WellFormedSegment(p) && n < NumBytes(p)
    requires r == SegmentReg(p) + n && b == HexNumber(PairAt(p, 5 + 2 * n))
    ensures ApplyWrites(s, SegmentWrites(p)[..n + 1])
            == EditField(ApplyWrites(s, SegmentWrites(p)[..n]), RegAddress(r), 0, 7, b, Equal)
  {
    var ws := SegmentWrites(p);
    assert ws[n] == FieldWrite(RegAddress(r), 7, b) by {
      PairHex(p, n);
    }
    ApplyWritesPrefix(s, ws, n);
  }

  /** The tokens after the first of a list of well-formed segments are well formed. */
  lemma WellFormedRest(s: string, pos: nat, sp: Span)
    requires pos <= |s| && WellFormedOverride(s[pos..]) && Strtok(s, pos) == Some(sp)
    ensures WellFormedSegment(s[sp.lo..sp.hi])
    ensures WellFormedOverride(s[sp.hi..])
    ensures Writes(Tokens(s[pos..])) == SegmentWrites(s[sp.lo..sp.hi]) + Writes(Tokens(s[sp.hi..]))
  {
    var p, rest := s[sp.lo..sp.hi], Tokens(s[sp.hi..]);
    assert Tokens(s[pos..]) == [p] + rest;
    assert Tokens(s[pos..])[0] == p;
    assert ([p] + rest)[1..] == rest;
    forall k | 0 <= k < |rest|
      ensures WellFormedSegment(rest[k])
    {
      assert rest[k] == Tokens(s[pos..])[k + 1];
    }
  }

  /**
   * The `if (cfg.regs)` block: the register image ends as the writes
   * of the string's segments, in order, leave it.
   */
  method ApplyRegsOverride(mode: Mode, regs: string)
    requires WellFormedOverride(regs)
    modifies mode.regs
    ensures mode.regs[..] == ApplyWrites(old(mode.regs[..]), RegsWrites(regs))
  {
    var pos := 0;
    assert regs[pos..] == regs;
    var tok := Strtok(regs, pos);             // p = strtok(cfg.regs, ";")
    while tok.Some?
      invariant pos <= |regs|
      invariant tok == Strtok(regs, pos)
      invariant WellFormedOverride(regs[pos..])
      invariant ApplyWrites(mode.regs[..], Writes(Tokens(regs[pos..])))
                == ApplyWrites(old(mode.regs[..]), RegsWrites(regs))
      decreases |regs| - pos
    {
      WellFormedRest(regs, pos, tok.value);
      ghost var start := mode.regs[..];
      var p := regs[tok.value.lo..tok.value.hi];
      WriteSegment(mode, p);
      ApplyWritesAppend(start, SegmentWrites(p), Writes(Tokens(regs[tok.value.hi..])));
      pos := tok.value.hi;
      tok := Strtok(regs, pos);               // p = strtok(NULL, ";")
    }
  }

  // ---------------------------------------------------------------
  // What the writes leave in the registers
  // ---------------------------------------------------------------

  /** A word determines its two bytes. */
  lemma WordInjective(h: Byte, l: Byte, h': Byte, l': Byte)
    requires Word(h, l) == Word(h', l')
    ensures h == h' && l == l'
  {
    BytesOfWord(h, l);
    BytesOfWord(h', l');
  }

  /** Two values equal modulo 0x10000 when their addresses are equal. */
  lemma RegAddressInjective(x: int, y: int)
    requires RegAddress(x) == RegAddress(y)
    ensures x % 0x1_0000 == y % 0x1_0000
  {
    var a, b := x % 0x1_0000, y % 0x1_0000;
    WordInjective(ToByte(a / 256), ToByte(a % 256), ToByte(b / 256), ToByte(b % 256));
    ToByteInjective(a / 256, b / 256);
    ToByteInjective(a % 256, b % 256);
  }

  /** Register addresses r+m and r+n are distinct when m and n differ by less than 0x10000. */
  lemma RegAddressDistinct(r: int, m: nat, n: nat)
    requires m != n && m < 0x1_0000 && n < 0x1_0000
    ensures RegAddress(r + m) != RegAddress(r + n)
  {
    if RegAddress(r + m) == RegAddress(r + n) {
      RegAddressInjective(r + m, r + n);
      assert false;
    }
  }

  /** In a segment of at most 0x10000 bytes no later pair targets the register of pair n. */
  lemma SegmentAddressesDistinct(t: string, n: nat)
    requires WellFormedSegment(t) && NumBytes(t) <= 0x1_0000 && n < NumBytes(t)
    ensures forall m :: n < m < |SegmentWrites(t)| ==> SegmentWrites(t)[m].reg != SegmentWrites(t)[n].reg
  {
    ConsecutiveDistinct(SegmentWrites(t), SegmentReg(t), n);
  }

  /** Writes to r, r+1, …, fewer than 0x10000 of them, all target different registers. */
  lemma ConsecutiveDistinct(ws: seq<FieldWrite>, r: int, n: nat)
    requires n < |ws| <= 0x1_0000
    requires forall k :: 0 <= k < |ws| ==> ws[k].reg == RegAddress(r + k)
    ensures forall m :: n < m < |ws| ==> ws[m].reg != ws[n].reg
  {
    forall m | n < m < |ws|
      ensures ws[m].reg != ws[n].reg
    {
      RegAddressDistinct(r, m, n);
    }
  }

  /**
   * After one segment of at most 0x10000 bytes, the low byte of register
   * r+n (where the mode has it) is byte n of the segment.
   */
  lemma SegmentReadBack(s: seq<SensorReg>, t: string, n: nat)
    requires WellFormedSegment(t) && NumBytes(t) <= 0x1_0000 && n < NumBytes(t)
    requires FindReg(s, RegAddress(SegmentReg(t) + n)) < |s|
    ensures |ApplyWrites(s, SegmentWrites(t))| == |s|
    ensures LowByte(ApplyWrites(s, SegmentWrites(t))[FindReg(s, RegAddress(SegmentReg(t) + n))].data)
            == SegmentByte(t, n)
  {
    var ws := SegmentWrites(t);
    SegmentAddressesDistinct(t, n);
    ApplyWritesLowByte(s, ws, n);
    DivUnique(SegmentByte(t, n), 256, 0, SegmentByte(t, n));
  }

  // ---------------------------------------------------------------
  // Writing an override string: the parser reads it back
  // ---------------------------------------------------------------

  /** The lower-case hexadecimal digit of a value in 0..15. */
  function HexDigit(d: nat): (c: char)
    requires d < 16
    ensures IsHexDigit(c) && HexValue(c) == d
  {
    if d < 10 then ('0' as int + d) as char else ('a' as int + d - 10) as char
  }

  /** A byte as two hexadecimal digits. */
  function Hex2(b: Byte): (t: string)
    ensures |t| == 2 && AllHex(t)
  {
    [HexDigit(b as int / 16), HexDigit(b as int % 16)]
  }

  /** A register number as `%4x` reads it: 0..0xFFFF. */
  type RegNumber = x: nat | x < 0x1_0000

  /** A register number as four hexadecimal digits. */
  function Hex4(x: RegNumber): (t: string)
    ensures |t| == 4 && AllHex(t)
  {
    [HexDigit(x / 4096), HexDigit(x / 256 % 16), HexDigit(x / 16 % 16), HexDigit(x % 16)]
  }

  lemma Hex2Value(b: Byte)
    ensures HexNumber(Hex2(b)) == b as int
  {
    HexPairBound(Hex2(b));
  }

  /** One more digit: the number so far times 16 plus its value. */
  lemma HexNumberSnoc(t: string, c: char)
    requires AllHex(t) && IsHexDigit(c)
    ensures AllHex(t + [c]) && HexNumber(t + [c]) == HexNumber(t) * 16 + HexValue(c)
  {
    assert (t + [c])[..|t|] == t;
  }

  /** A number below 0x10000 is its four hexadecimal digits put back together. */
  lemma FourDigits(x: RegNumber)
    ensures ((x / 4096 * 16 + x / 256 % 16) * 16 + x / 16 % 16) * 16 + x % 16 == x
  {
    DivDiv(x, 16, 16);
    DivDiv(x, 256, 16);
    assert x == x / 16 * 16 + x % 16;
    assert x / 16 == x / 256 * 16 + x / 16 % 16;
    assert x / 256 == x / 4096 * 16 + x / 256 % 16;
  }

  lemma Hex4Value(x: RegNumber)
    ensures HexNumber(Hex4(x)) == x
  {
    var d0, d1, d2, d3 := HexDigit(x / 4096), HexDigit(x / 256 % 16), HexDigit(x / 16 % 16), HexDigit(x % 16);
    assert [d0][..0] == [];
    assert HexNumber([d0]) == x / 4096;
    HexNumberSnoc([d0], d1);
    assert [d0] + [d1] == [d0, d1];
    HexNumberSnoc([d0, d1], d2);
    assert [d0, d1] + [d2] == [d0, d1, d2];
    HexNumberSnoc([d0, d1, d2], d3);
    assert [d0, d1, d2] + [d3] == Hex4(x);
    FourDigits(x);
  }

  /** Bytes as hexadecimal pairs, in order. */
  function HexBytes(bs: seq<Byte>): (t: string)
    ensures |t| == 2 * |bs| && AllHex(t)
    ensures forall n :: 0 <= n < |bs| ==> t[2 * n..2 * n + 2] == Hex2(bs[n])
  {
    if bs == [] then []
    else
      var h, b := HexBytes(bs[..|bs| - 1]), bs[|bs| - 1];
      assert forall n :: 0 <= n < |bs| - 1 ==> (h + Hex2(b))[2 * n..2 * n + 2] == h[2 * n..2 * n + 2];
      assert (h + Hex2(b))[2 * (|bs| - 1)..] == Hex2(b);
      h + Hex2(b)
  }

  /** One override entry: a start register and the bytes for it and the registers after it. */
  datatype Segment = Segment(reg: RegNumber, bytes: seq<Byte>)

  /** `RRRR,BB…` for a segment. */
  function FormatSegment(g: Segment): string
  {
    Hex4(g.reg) + [','] + HexBytes(g.bytes)
  }

  /** The writes a segment is meant to stand for: byte n into bits 0..7 of register reg+n. */
  function IntendedWrites(g: Segment): (ws: seq<FieldWrite>)
    ensures |ws| == |g.bytes|
  {
    seq(|g.bytes|, n requires 0 <= n < |g.bytes| => FieldWrite(RegAddress(g.reg + n), 7, g.bytes[n] as int))
  }

  /** A formatted segment with at least one byte is well formed and parses back to its writes. */
  lemma FormatSegmentParses(g: Segment)
    requires g.bytes != []
    ensures WellFormedSegment(FormatSegment(g))
    ensures NumBytes(FormatSegment(g)) == |g.bytes|
    ensures SegmentReg(FormatSegment(g)) == g.reg
    ensures forall n :: 0 <= n < |g.bytes| ==> SegmentByte(FormatSegment(g), n) == g.bytes[n] as int
    ensures SegmentWrites(FormatSegment(g)) == IntendedWrites(g)
  {
    var f := FormatSegment(g);
    var h := HexBytes(g.bytes);
    assert f[..4] == Hex4(g.reg);
    assert forall i :: 5 <= i < |f| ==> f[i] == h[i - 5];
    Hex4Value(g.reg);
    forall n | 0 <= n < |g.bytes|
      ensures SegmentByte(f, n) == g.bytes[n] as int
    {
      assert f[5 + 2 * n..7 + 2 * n] == h[2 * n..2 * n + 2];
      Hex2Value(g.bytes[n]);
    }
  }

  /** The segments joined by ';'. */
  function Join(ts: seq<string>): string
  {
    if |ts| == 0 then [] else if |ts| == 1 then ts[0] else ts[0] + [';'] + Join(ts[1..])
  }

  /** A token followed by the end or a delimiter is read as that token first. */
  lemma TokensCons(t: string, x: string)
    requires t != [] && ';' !in t
    requires x == [] || x[0] == ';'
    ensures Tokens(t + x) == [t] + Tokens(x)
  {
    var s := t + x;
    TokenLengthCons(t, x);
    assert s[..|t|] == t && s[|t|..] == x;
  }

  /** The run before the first ';' of t + x is t. */
  lemma {:induction false} TokenLengthCons(t: string, x: string)
    requires ';' !in t
    requires x == [] || x[0] == ';'
    ensures TokenLength(t + x) == |t|
    decreases |t|
  {
    if t != [] {
      assert t[0] in t;
      assert (t + x)[1..] == t[1..] + x;
      assert forall c :: c in t[1..] ==> c in t;
      TokenLengthCons(t[1..], x);
    } else {
      assert t + x == x;
    }
  }

  /** strtok gives back the segments that were joined. */
  lemma {:induction false} TokensOfJoin(ts: seq<string>)
    requires forall k :: 0 <= k < |ts| ==> ts[k] != [] && ';' !in ts[k]
    ensures Tokens(Join(ts)) == ts
  {
    if |ts| == 1 {
      TokensCons(ts[0], []);
      assert ts[0] + [] == ts[0];
    } else if |ts| > 1 {
      var rest := [';'] + Join(ts[1..]);
      TokensOfJoin(ts[1..]);
      TokensCons(ts[0], rest);
      assert rest[1..] == Join(ts[1..]);
      assert ts[0] + [';'] + Join(ts[1..]) == ts[0] + rest;
      assert ts == [ts[0]] + ts[1..];
    }
  }

  /** Each segment formatted. */
  function Formatted(gs: seq<Segment>): (fs: seq<string>)
    ensures |fs| == |gs|
    ensures forall k :: 0 <= k < |gs| ==> fs[k] == FormatSegment(gs[k])
  {
    if gs == [] then [] else [FormatSegment(gs[0])] + Formatted(gs[1..])
  }

  /** The `-regs` string for a list of segments. */
  function FormatOverride(gs: seq<Segment>): string
  {
    Join(Formatted(gs))
  }

  /** The writes a list of segments is meant to stand for, in order. */
  function IntendedOverride(gs: seq<Segment>): seq<FieldWrite>
  {
    if gs == [] then [] else IntendedWrites(gs[0]) + IntendedOverride(gs[1..])
  }

  /** Formatted segments that each have a byte are well formed. */
  lemma FormattedWellFormed(gs: seq<Segment>)
    requires forall k :: 0 <= k < |gs| ==> gs[k].bytes != []
    ensures forall k :: 0 <= k < |gs| ==> WellFormedSegment(Formatted(gs)[k])
  {
    forall k | 0 <= k < |gs|
      ensures WellFormedSegment(Formatted(gs)[k])
    {
      FormatSegmentParses(gs[k]);
    }
  }

  /** The segments' writes, read back from their formatted segments. */
  lemma {:induction false} WritesOfFormatted(gs: seq<Segment>)
    requires forall k :: 0 <= k < |gs| ==> gs[k].bytes != []
    ensures forall k :: 0 <= k < |gs| ==> WellFormedSegment(Formatted(gs)[k])
    ensures Writes(Formatted(gs)) == IntendedOverride(gs)
  {
    FormattedWellFormed(gs);
    if gs != [] {
      var fs := Formatted(gs);
      WritesOfFormatted(gs[1..]);
      assert fs[1..] == Formatted(gs[1..]);
      FormatSegmentParses(gs[0]);
    }
  }

  /**
   * An override string written from segments that each have a byte is
   * accepted, and `main` makes exactly the writes the segments stand
   * for, in order.
   */
  lemma OverrideRoundTrip(gs: seq<Segment>)
    requires forall k :: 0 <= k < |gs| ==> gs[k].bytes != []
    ensures WellFormedOverride(FormatOverride(gs))
    ensures RegsWrites(FormatOverride(gs)) == IntendedOverride(gs)
  {
    var fs := Formatted(gs);
    WritesOfFormatted(gs);
    forall k | 0 <= k < |fs|
      ensures fs[k] != [] && ';' !in fs[k]
    {
      NoDelimiter(fs[k]);
    }
    TokensOfJoin(fs);
  }

  /** A well-formed segment holds no ';'. */
  lemma NoDelimiter(f: string)
    requires WellFormedSegment(f)
    ensures f != [] && ';' !in f
  {
    forall i | 0 <= i < |f|
      ensures f[i] != ';'
    {
    }
  }
}
