/**
 * `order_and_bit_depth_to_encoding` of src/raspiraw.c and its table
 * `DEPTH_T`: the raw Bayer encoding for a pixel order and a bit depth.
 * The MMAL four-character codes are named by their order and depth.
 */
module Encoding {
  import opened Types

  /** For the `DEPTH_T` tables: the column of an order, `BAYER_ORDER_BGGR` = 0 first. */
  function Column(o: BayerOrder): (c: nat)
    ensures c < 4
  {
    match o
    case BGGR => 0
    case GBRG => 1
    case GRBG => 2
    case RGGB => 3
  }

  /** The row a bit depth selects in `DEPTH_T`, in the order `depth8`, `depth10`, `depth12`, `depth16`. */
  function Row(d: BitDepth): (r: nat)
    ensures r < 4
  {
    match d
    case Depth8 => 0
    case Depth10 => 1
    case Depth12 => 2
    case Depth16 => 3
  }

  /** The number of bits per pixel of a depth. */
  function Bits(d: BitDepth): int
  {
    match d
    case Depth8 => 8
    case Depth10 => 10
    case Depth12 => 12
    case Depth16 => 16
  }

  /** `const struct DEPTH DEPTH_T`: four rows of four encodings (8 and 16 unpacked, 10 and 12 packed). */
  const DEPTH_T: seq<seq<PixelEncoding>> := [
    [Bayer(BGGR, Depth8), Bayer(GBRG, Depth8), Bayer(GRBG, Depth8), Bayer(RGGB, Depth8)],
    [Bayer(BGGR, Depth10), Bayer(GBRG, Depth10), Bayer(GRBG, Depth10), Bayer(RGGB, Depth10)],
    [Bayer(BGGR, Depth12), Bayer(GBRG, Depth12), Bayer(GRBG, Depth12), Bayer(RGGB, Depth12)],
    [Bayer(BGGR, Depth16), Bayer(GBRG, Depth16), Bayer(GRBG, Depth16), Bayer(RGGB, Depth16)]
  ]

  /** Every cell of `DEPTH_T` names its own row's depth and its own column's order. */
  lemma TableLayout(o: BayerOrder, d: BitDepth)
    ensures |DEPTH_T| == 4 && |DEPTH_T[Row(d)]| == 4
    ensures DEPTH_T[Row(d)][Column(o)] == Bayer(o, d)
  {
    match o
    case BGGR =>
    case GBRG =>
    case GRBG =>
    case RGGB =>
  }

  /** The `switch(bit_depth)`: 8, 10, 12 and 16 have a case, nothing else does. */
  function DepthOf(bitDepth: int): (r: Option<BitDepth>)
    ensures r.Some? <==> bitDepth == 8 || bitDepth == 10 || bitDepth == 12 || bitDepth == 16
    ensures r.Some? ==> Bits(r.value) == bitDepth
  {
    if bitDepth == 8 then Some(Depth8)
    else if bitDepth == 10 then Some(Depth10)
    else if bitDepth == 12 then Some(Depth12)
    else if bitDepth == 16 then Some(Depth16)
    else None
  }

  /**
   * `order_and_bit_depth_to_encoding(order, bit_depth)`: 0 for an order
   * outside 0..3 or an unhandled depth, otherwise `DEPTH_T.depthN[order]`.
   */
  function OrderAndBitDepthToEncoding(order: bv32, bitDepth: int): (e: PixelEncoding)
    ensures e != NoEncoding <==>
              order < 4 && (bitDepth == 8 || bitDepth == 10 || bitDepth == 12 || bitDepth == 16)
    ensures e != NoEncoding ==>
              e == Bayer(OrderOf(order).value, DepthOf(bitDepth).value)
  {
    match OrderOf(order)
    case None => NoEncoding       // "order out of range" is logged
    case Some(o) =>
      match DepthOf(bitDepth)
      case None => NoEncoding     // "not one of the handled bit depths" is logged
      case Some(d) =>
        TableLayout(o, d);
        DEPTH_T[Row(d)][Column(o)]
  }

  /**
   * The encoding is read back to the order and the depth it was looked
   * up with.
   */
  lemma EncodingRoundTrip(o: BayerOrder, d: BitDepth)
    ensures OrderAndBitDepthToEncoding(o.Code(), Bits(d)) == Bayer(o, d)
  {
    assert OrderOf(o.Code()) == Some(o) by {
      match o
      case BGGR =>
      case GBRG =>
      case GRBG =>
      case RGGB =>
    }
    assert DepthOf(Bits(d)) == Some(d) by {
      match d
      case Depth8 =>
      case Depth10 =>
      case Depth12 =>
      case Depth16 =>
    }
  }

  /** A 14-bit depth has no row: the lookup gives 0 whatever the order. */
  lemma FourteenBitsUnhandled(order: bv32)
    ensures OrderAndBitDepthToEncoding(order, 14) == NoEncoding
  {
  }
}
