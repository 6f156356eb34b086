# raspiraw register control plane, in Dafny

raspiraw drives a Raspberry Pi camera sensor directly over I2C. Before a
capture it does three things:

- it finds the sensor by reading each candidate's identification register;
- it takes the chosen capture mode's register list and edits it in memory:
  the `-regs` override, the subsampling increments, the output size, the
  crop offsets, 4x4 binning, the flips, exposure and gain;
- it sends the edited list to the sensor, entry by entry.

This project models that control plane and proves what it does to the
register image:

- `Types`: the data model of include/raspiraw.h.
  - `sensor_regs` becomes `SensorReg`, with 16-bit address and data as `bv16`.
  - `enum bayer_order` becomes `BayerOrder`; its flips are `^ 1` and `^ 2`.
  - `enum operation` becomes `Operation`.
  - `sensor_def` becomes `SensorDef`.
  - `mode_def` becomes the class `Mode`. Its register array and its width,
    height and order fields are edited in place.
- `RegEdit`: `modRegBit` and `modReg`. Both are methods on the mode's
  register array, proved against the functions `EditBit` and `EditField` on
  the image. Those functions carry the truth table of the four operations,
  including the C details:
  - `1 << bit` truncated to `uint16_t`;
  - the arithmetic right shift of `value >> i & 1`;
  - "register not found" changes nothing.
- `FieldWrites`: the register edits that `main` makes are all
  `modReg(mode, reg, 0, hi, v, EQUAL)`. This module gives the sequence of
  such edits (`ApplyWrites`) and proves which bits of which entry each
  write leaves behind.
- `RegUpdate`: `update_regs`.
  - The flip blocks and their effect on the Bayer order.
  - The big-endian split of exposure, vts and gain over consecutive
    registers, with its range checks and the unsigned `min_vts` gate.
  - Proof that the split reads back for widths that are a multiple of 8,
    and that it cannot read back for a 20-bit width.
- `Bus`: `send_regs`. Each entry becomes an address switch, a sleep or a
  write, and the trace of actions does not depend on how the bus answers.
  The message layout is proved to read back as the entry, less the bytes
  that 1-byte addressing or 1-byte data drop.
- `Probe`: `i2c_rd` and `probe_sensor`.
  - The I2C read is an oracle.
  - The probe returns the first candidate whose identification read
    succeeds and matches, and reads exactly the candidates up to it whose
    ID register is at most 2 bytes long.
- `Encoding`: `order_and_bit_depth_to_encoding` and the `DEPTH_T` table.
- `RegsOverride`: the `-regs` parser of `main`.
  - `strtok` on `;`, the `sscanf` reads and the address and byte loop.
  - A round trip: a string written from a list of segments makes exactly
    the writes that the segments stand for.
- `ModeSetup`: `main` from the mode check to the encoding check.
  - The write lists of every block, and the methods that carry out those
    blocks on the chosen `Mode`.
  - What each block leaves in the sensor's registers: output size, crop
    offsets, binning windows and increments.
  - The C99 integer division and the 64-to-32-bit conversion of the
    exposure time, written out.
  - The exit codes -1, -2 and -3.

Where the C code has undefined behaviour the model requires the defined
case. These cases are:

- shifts of 31 or more;
- a `-left` or `-top` product that overflows an `int`;
- a division by a zero line time.

Each of these is required only on the path where C reaches it: an invalid
mode index ends `main` with -2 before any of them, and a refused
`--headerG` ends it with -1 before `update_regs` and the exposure
division. The `-bin44` product `cfg.width * 2 * k` is the exception: it
is taken mod 2^32 rather than required to fit, as the `ModeSetup.WindowBlock`
line under "## Left out" says. A `-regs` string that fails a `vcos_assert` is not undefined
behaviour but an abort, or, with asserts compiled out, a run on `sscanf`'s
unset outputs; the model requires the asserts to hold, as "## Left out"
says. Outside these cases it follows the code as written.

For a width that is not a multiple of 8 the multi-register split does not
read back: the end bit `j & 7` is the same on every pass, so every register
gets only its low (W-1) mod 8 + 1 bits. The model follows the code:

- `RegUpdate.SplitEndBitConstant` proves that the end bit never changes.
- `RegUpdate.SplitTwentyBitsLosesBits` proves that 0x10 and 0 leave the
  same image for a 20-bit field.

With 1-byte addressing the two functions send different bytes:

- `send_regs` sends the register's low byte.
- `i2c_rd` builds `{ reg >> 8, reg & 0xff }` and cuts it to its first byte,
  so it sends the high byte.

Both are modelled as written. `Probe.ReadRequestAddress` states what the
`i2c_rd` request can tell apart.

`send_regs` tests `i2c_data_size == 2`, so any other value gives 1 data
byte. `Bus.DataLength` follows the code.

## Model

| member | source | states |
|---|---|---|
| Types.BayerOrder.Code | include/raspiraw.h:51-58 | each order's enumerator value lies in 0..3 |
| Types.FlipCodes | include/raspiraw.h:51-58 | on the stored code a horizontal flip is `^ 1` and a vertical flip is `^ 2`; each flip undoes itself |
| Types.OrderOf | include/raspiraw.h:51-58 | a stored code names an order exactly when it is below 4, and that order's code is the stored code |
| Types.Mode.constructor | include/raspiraw.h:65-86 | a mode holds the register array, size, encoding, order, native depth, `min_vts` and line time it is built with |
| Arith.IntBitsMod | src/RegOperation.c:90-91 | the bits `value >> i & 1` for i below n make up value mod 2^n, negative values included |
| RegEdit.ApplyBitOpBit | src/RegOperation.c:67-84 | the value `modRegBit` stores: bit `bit` takes the truth table of EQUAL, SET, CLEAR or XOR; every other bit keeps its value |
| RegEdit.ApplyBitOpHigh | src/RegOperation.c:69-84 | for bit positions 16 to 30 the mask truncated to `uint16_t` is zero and no operation changes the value |
| RegEdit.ApplyBitOpXorTwice | src/RegOperation.c:80-82 | XOR of the same bit with the same value twice restores the register value |
| RegEdit.FieldOpBit | src/RegOperation.c:87-93 | after the `modReg` loop, each bit in startBit..endBit takes the operation with the matching bit of the value, and other bits are unchanged |
| RegEdit.FieldOpAgree | src/RegOperation.c:90-91 | two values that agree on the bits of the range give the same register value |
| RegEdit.FindReg | src/RegOperation.c:60-66 | the index the search stops at: the first entry with that address, or the list length when there is none |
| RegEdit.EditBitEffect | src/RegOperation.c:58-85 | `modRegBit` on the image: addresses unchanged; no change when the address is missing; otherwise only the first matching entry changes, and only in bit `bit` |
| RegEdit.EditFieldEffect | src/RegOperation.c:87-93 | `modReg` on the image: addresses unchanged; a missing address or an empty range changes nothing; otherwise only the first matching entry changes, and only in the range |
| RegEdit.EditFieldEqual | src/RegOperation.c:87-93 | with EQUAL, bits startBit..endBit of the first matching entry become those of the value, and the other bits are unchanged |
| RegEdit.EditFieldAgree | src/RegOperation.c:87-93 | two `modReg` calls whose values agree on the range leave the same image |
| RegEdit.EditFieldStep | src/RegOperation.c:90-92 | one more pass of the `modReg` loop is one more `modRegBit` on the image |
| RegEdit.EditBitXorTwice | src/RegOperation.c:80-84 | two identical XOR edits of a bit restore the whole image |
| RegEdit.ModRegBit | src/RegOperation.c:58-85 | the register array becomes `EditBit` of its old contents: found by linear search, edited in place |
| RegEdit.ModReg | src/RegOperation.c:87-93 | the register array becomes `EditField` of its old contents, one bit per loop pass |
| FieldWrites.ApplyWritesAppend | src/raspiraw.c:932-1062 | applying one list of edits and then another is applying the two lists joined |
| FieldWrites.ApplyWritesAddresses | src/raspiraw.c:932-1062 | a list of edits changes register values only, never an address or the list length |
| FieldWrites.ApplyWritesOther | src/raspiraw.c:932-1062 | an entry that is not the first entry of any edited address is left as it was |
| FieldWrites.ApplyWritesBits | src/raspiraw.c:932-1062 | after the last edit to an address, bits 0..hi hold the bits of its value and the higher bits keep their earlier values |
| FieldWrites.ApplyWritesField | src/raspiraw.c:932-1062 | all of bits 0..hi of the last edit's entry hold the value's bits |
| FieldWrites.ApplyWritesLowByte | src/raspiraw.c:932-1062 | a last edit with hi 7 leaves the value mod 256 in the entry's low byte |
| FieldWrites.ApplyWritesLowNibble | src/raspiraw.c:993-1025 | a last edit with hi 3 leaves the value mod 16 in the entry's low nibble |
| Bus.WordOfBytes | src/RegOperation.c:40-46 | the high byte `x >> 8` and the low byte of a 16-bit value put back together give the value |
| Bus.BytesOfWord | src/RegOperation.c:40-46 | the bytes of a word built from two bytes are those bytes |
| Bus.WriteMessage | src/RegOperation.c:22-53 | the message length is 2, 3 or 4 bytes: address bytes plus data bytes, set by the addressing and the data size |
| Bus.MessageRoundTrip | src/RegOperation.c:22-53 | reading a written message back gives its entry, less the address high byte with 1-byte addressing and the data high byte with 1-byte data |
| Bus.MessageExact | src/RegOperation.c:38-53 | with 2-byte addressing and 2-byte data, every entry reads back exactly |
| Bus.RegAction | src/RegOperation.c:9-53 | 0xFFFF switches the slave address to the data, 0xFFFE sleeps the data in milliseconds, and every other address is a write |
| Bus.RegActionWrite | src/RegOperation.c:9-53 | an entry becomes a write exactly when its address is neither sentinel, and that write reads back as the delivered entry |
| Bus.SendRegs | src/RegOperation.c:4-56 | the trace has one action per entry, in order, whatever the ioctl and write calls report |
| RegUpdate.SplitPosInLoop | src/RegOperation.c:121-124 | `j` stays within 0..W-1 on every pass of the split loop |
| RegUpdate.SplitEndBitConstant | src/RegOperation.c:121-127 | the end bit `j & 7` is (W-1) mod 8 on every pass, not just the first |
| RegUpdate.SplitByte | src/RegOperation.c:126 | the byte of each pass fits a `uint8_t` |
| RegUpdate.SplitAddrDistinct | src/RegOperation.c:127 | the split's register addresses `base + i` are pairwise distinct, the `uint16_t` wrap included |
| RegUpdate.NumSplitRegsBound | src/RegOperation.c:122 | a width below 31 splits over at most 4 registers |
| RegUpdate.SplitImageAddresses | src/RegOperation.c:124-129 | the split changes values only, never addresses |
| RegUpdate.SplitImageOther | src/RegOperation.c:124-129 | entries outside the split's target registers are untouched |
| RegUpdate.SplitImageWritten | src/RegOperation.c:124-129 | in the first entry of `base + p`, bits 0..(W-1) mod 8 hold those of the byte of pass p, and higher bits keep their old values |
| RegUpdate.SplitBytesRoundTrip | src/RegOperation.c:120-129 | for W a multiple of 8 and a value in 0..2^W-1, the bytes of the passes reassembled big-endian give the value |
| RegUpdate.SplitBytesExample | src/RegOperation.c:120-129 | a 16-bit 0x1234 sends 0x12 to the base register and 0x34 to the next |
| RegUpdate.SplitRoundTrip | src/RegOperation.c:120-129 | for W a multiple of 8 with every target register present, the low bytes of base..base+R-1 read back big-endian give the value |
| RegUpdate.WrittenLowByte | src/RegOperation.c:120-129 | for W a multiple of 8, the low byte of register `base + p` is the byte of pass p |
| RegUpdate.WholeEndBit | src/RegOperation.c:121-127 | for a positive multiple of 8, every pass writes bits 0..7 |
| RegUpdate.SplitTwentyBitsLosesBits | src/RegOperation.c:120-129 | a 20-bit field splits over 3 registers with end bit 3, and the values 0x10 and 0 leave the same image |
| RegUpdate.SplitImageAgree | src/RegOperation.c:120-129 | two values whose bytes agree on the written bits leave the same image |
| RegUpdate.WriteSplit | src/RegOperation.c:120-129 | the split loop leaves the register array equal to `SplitImage` of its old contents |
| RegUpdate.FlipBlock | src/RegOperation.c:97-109 | one flip block: the array is `FlipImage` of the old one, the order is toggled as `FlipOrder` says, and the size is unchanged |
| RegUpdate.ValueBlock | src/RegOperation.c:111-131 | one numeric block: the array is `ValueImage` of the old one |
| RegUpdate.UpdateRegs | src/RegOperation.c:95-174 | the register array becomes `UpdateImage` and the order `UpdateOrder` of their old values; width and height are unchanged |
| RegUpdate.FlipToggles | src/RegOperation.c:97-109 | a requested flip toggles the flip bit of the first matching entry and nothing else; with the register missing the image is unchanged |
| RegUpdate.UpdateOrderFlips | src/RegOperation.c:97-109 | the order after `update_regs` names the vertically, then horizontally, mirrored tile, for each flip that is requested and allowed to change the order |
| RegUpdate.UpdateOrderFixed | src/RegOperation.c:100-108 | a sensor whose flips do not change the Bayer order keeps its order |
| RegUpdate.UpdateNothingRequested | src/RegOperation.c:95-174 | with no flip and exposure and gain both -1, neither the image nor the order changes |
| RegUpdate.UpdateHflipOnly | src/RegOperation.c:95-174 | asking for hflip alone is the hflip block alone |
| RegUpdate.UpdateHflipTwice | src/RegOperation.c:104-109 | hflip requested twice restores the register image |
| RegUpdate.UpdateOrderHflipTwice | src/RegOperation.c:104-109 | hflip requested twice restores the order |
| RegUpdate.ValueImageCases | src/RegOperation.c:111-131 | the value -1 and any value outside 0..2^W-1 leave the registers unchanged; any other value is split |
| RegUpdate.VtsGate | src/RegOperation.c:132-152 | the vts registers change only for an exposure that is not -1 and at least `min_vts`; the unsigned comparison acts as the signed one |
| Encoding.Column | src/raspiraw.c:35-40 | the column of an order in the table is 0..3 |
| Encoding.Row | src/raspiraw.c:35-40 | the row of a depth in the table is 0..3 |
| Encoding.TableLayout | src/raspiraw.c:35-40 | every cell of `DEPTH_T` is the Bayer encoding of its row's depth and its column's order |
| Encoding.DepthOf | src/raspiraw.c:501-511 | the switch has a case exactly for 8, 10, 12 and 16, and the case found has that many bits |
| Encoding.OrderAndBitDepthToEncoding | src/raspiraw.c:489-514 | the result is non-zero exactly when the order is 0..3 and the depth is handled, and then it is the Bayer encoding of that order and depth |
| Encoding.EncodingRoundTrip | src/raspiraw.c:489-514 | the encoding looked up for an order and a depth names that order and that depth |
| Encoding.FourteenBitsUnhandled | src/raspiraw.c:501-513 | a 14-bit depth gives 0 for every order |
| Probe.ReadRequest | src/raspiraw.c:242-262 | the first message is 1 byte with 1-byte addressing and 2 bytes otherwise, and starts with the address's high byte |
| Probe.ReadRequestAddress | src/raspiraw.c:242-262 | with 2-byte addressing the request identifies the register; with 1-byte addressing only its high byte |
| Probe.I2cRd | src/raspiraw.c:239-272 | the status is 0 exactly when the ioctl reports both messages transferred, and -1 otherwise; the value is the one read |
| Probe.FirstMatch | src/raspiraw.c:336-354 | the candidate found identifies itself and no earlier one does; with none found, no candidate does |
| Probe.ProbedIn | src/raspiraw.c:341 | exactly the candidates in the range whose ID register is at most 2 bytes, in increasing order |
| Probe.ProbeSensor | src/raspiraw.c:323-356 | a zero descriptor gives NULL and reads nothing; otherwise it gives the first matching candidate and reads exactly the probe-able candidates up to it |
| Probe.DeadBusFindsNothing | src/raspiraw.c:323-356 | on a bus where no read completes, no sensor is found |
| RegsOverride.HexValue | src/raspiraw.c:944-950 | a hexadecimal digit of either case has a value in 0..15 |
| RegsOverride.HexPairBound | src/raspiraw.c:950 | two hexadecimal digits read with `%2x` give a byte |
| RegsOverride.TokenLength | src/raspiraw.c:937-958 | the run before the first `;` holds no `;` and ends at one, or at the end of the string |
| RegsOverride.Tokens | src/raspiraw.c:937-958 | the tokens of successive `strtok` calls are non-empty and hold no `;` |
| RegsOverride.Strtok | src/raspiraw.c:937-958 | one `strtok` call: no token exactly when only delimiters remain; otherwise the next token, with the rest read from its end |
| RegsOverride.SegmentByte | src/raspiraw.c:947-950 | pair n of a segment reads as a byte |
| RegsOverride.ToByteInjective | src/raspiraw.c:953 | distinct values in 0..255 give distinct address bytes |
| RegsOverride.SegmentWrites | src/raspiraw.c:943-957 | a segment stands for one write per byte pair: byte n into bits 0..7 of register r+n |
| RegsOverride.WriteSegment | src/raspiraw.c:943-957 | the inner loop leaves the register array as the segment's writes leave the old one |
| RegsOverride.SegmentStep | src/raspiraw.c:950-956 | one pass of the inner loop is the next write of the segment |
| RegsOverride.WellFormedRest | src/raspiraw.c:937-958 | after the first token, the remaining tokens are well formed and their writes follow the first token's |
| RegsOverride.ApplyRegsOverride | src/raspiraw.c:932-960 | the override leaves the register array as the writes of its segments, in order, leave the old one |
| RegsOverride.RegAddressInjective | src/raspiraw.c:953 | two `int` registers that give the same `uint16_t` address are equal mod 0x10000 |
| RegsOverride.RegAddressDistinct | src/raspiraw.c:953-955 | r+m and r+n are distinct addresses when m and n differ and are below 0x10000 |
| RegsOverride.ConsecutiveDistinct | src/raspiraw.c:953-955 | writes to r, r+1, and so on (at most 0x10000 of them) never target an earlier write's register again |
| RegsOverride.SegmentAddressesDistinct | src/raspiraw.c:953-955 | no later pair of a segment targets the register of pair n |
| RegsOverride.SegmentReadBack | src/raspiraw.c:943-957 | after a segment, the low byte of register r+n is byte n of the segment |
| RegsOverride.HexDigit | src/raspiraw.c:944-950 | the digit written for 0..15 is a hexadecimal digit with that value |
| RegsOverride.Hex2Value | src/raspiraw.c:950 | two digits written for a byte read back as that byte |
| RegsOverride.Hex4Value | src/raspiraw.c:944 | four digits written for a register number read back as that number |
| RegsOverride.HexBytes | src/raspiraw.c:945-957 | bytes written as hexadecimal pairs: pair n is the digits of byte n |
| RegsOverride.FormatSegmentParses | src/raspiraw.c:940-957 | a segment written from a register and at least one byte is accepted, and parses back to that register, those bytes and their writes |
| RegsOverride.TokensCons | src/raspiraw.c:937-958 | a token followed by the end or by a delimiter is returned first |
| RegsOverride.TokensOfJoin | src/raspiraw.c:937-958 | `strtok` gives back the non-empty, `;`-free segments that were joined with `;` |
| RegsOverride.WritesOfFormatted | src/raspiraw.c:932-960 | the writes of the written segments are the writes the segments stand for |
| RegsOverride.OverrideRoundTrip | src/raspiraw.c:932-960 | an override string written from segments with a byte each is accepted, and `main` makes exactly their writes, in order |
| RegsOverride.NoDelimiter | src/raspiraw.c:940-948 | an accepted segment holds no `;` |
| ModeSetup.SelectMode | src/raspiraw.c:920-929 | a mode is chosen exactly when the index is in 0..num_modes-1, and it is the mode at that index |
| ModeSetup.Scale | src/raspiraw.c:1011 | the crop-offset scale of an OV5647 mode is at least 1 |
| ModeSetup.ChosenBitDepth | src/raspiraw.c:1064-1067 | -1 selects the mode's native depth; any other value is kept |
| ModeSetup.ChosenEncoding | src/raspiraw.c:1084-1087 | the mode's own non-zero encoding wins; a zero one is looked up, and the encoding is non-zero exactly for a valid order and a handled depth, and is their Bayer encoding |
| ModeSetup.ReadyOutcome | src/raspiraw.c:1088-1092 | an encoding of 0 ends `main` with -3; otherwise the capture goes on with the exposure, the depth and the encoding |
| ModeSetup.GuardedWrite | src/raspiraw.c:962-984 | one guarded `modReg`: the array is the old one with the write applied when the guard holds |
| ModeSetup.IncBlock | src/raspiraw.c:962-984 | the increment blocks leave the array as the OV5647 or IMX219 increment writes leave the old one |
| ModeSetup.WritePair | src/raspiraw.c:993-998 | a value spread over a register pair: `v >> 8` into bits 0..hi of reg, then `v & 0xFF` into the low byte of reg+1 |
| ModeSetup.SizeBlock | src/raspiraw.c:993-1005 | a positive width or height is stored in the mode and written to the output-size registers; the order is unchanged |
| ModeSetup.OffsetBlock | src/raspiraw.c:1007-1025 | the array after `-left` and `-top` is the old one with the OV5647 offset writes applied |
| ModeSetup.WindowBlock | src/raspiraw.c:1039-1047 | one binning window: its border and end computed in `unsigned` arithmetic and written to four registers |
| ModeSetup.Bin44Block | src/raspiraw.c:1027-1062 | with `-bin44 1` on an IMX219, the x window and then the y window are written; otherwise nothing |
| ModeSetup.EditMode | src/raspiraw.c:932-1062 | the array is the old one with every set-up write applied in source order; width and height follow the options; the order is unchanged |
| ModeSetup.FinishMode | src/raspiraw.c:1064-1092 | `--headerG` with a non-native depth exits with -1 and changes nothing, and needs nothing of the sensor or the line time; otherwise `update_regs` is run with the chosen exposure and the outcome is given by the encoding |
| ModeSetup.ConfigureMode | src/raspiraw.c:932-1092 | the set-up writes, then the header check, `update_regs` and the encoding check, on the chosen mode; the flip bits and line time are required only when the header is not refused |
| ModeSetup.SetUpMode | src/raspiraw.c:920-1092 | an invalid mode exits with -2, whatever the rest of the configuration; a valid one ends with the image, order, size and outcome that `ConfigureMode` states |
| ModeSetup.PairArith | src/raspiraw.c:996-997 | `(v >> 8) mod P` placed above `v & 0xFF` is v mod 256P |
| ModeSetup.HighPartReadBack | src/raspiraw.c:996 | the first register of a pair, if no later write targets it, holds bits 0..hi of `v >> 8` |
| ModeSetup.PairReadBack | src/raspiraw.c:993-1005 | a pair that no later write touches reads back as the value's low 12 bits (hi 3) or low 16 bits (hi 7) |
| ModeSetup.PairWritesReadBack | src/raspiraw.c:993-998 | a pair written alone reads back as the value mod 4096 or mod 65536 |
| ModeSetup.LastPairReadBack | src/raspiraw.c:1000-1005 | a pair written last reads back whatever came before it |
| ModeSetup.FirstPairReadBack | src/raspiraw.c:993-998 | a pair followed only by writes to other addresses reads back |
| ModeSetup.MiddlePairReadBack | src/raspiraw.c:1044-1059 | a pair between other writes, none after it to its addresses, reads back |
| ModeSetup.Untouched | src/raspiraw.c:932-1062 | the first entry of an address that no write targets is unchanged |
| ModeSetup.PairAvoids | src/raspiraw.c:993-1005 | a pair shares no address with a pair kept apart from it |
| ModeSetup.WidthReadBack | src/raspiraw.c:993-998 | `-width` lands in the x output-size pair as the width mod 4096, when the y pair shares none of its registers |
| ModeSetup.HeightReadBack | src/raspiraw.c:1000-1005 | `-height` lands in the y output-size pair as the height mod 4096 |
| ModeSetup.OffsetReadBack | src/raspiraw.c:1007-1025 | on an OV5647, `-left` and `-top` land in 0x3800/1 and 0x3802/3 as the offset times the mode's scale, mod 4096 |
| ModeSetup.Bin44ReadBack | src/raspiraw.c:1027-1062 | with `-bin44 1` on an IMX219, the pairs 0x0164/5, 0x0166/7, 0x0168/9 and 0x016a/b hold the low 16 bits of the x and y borders and ends |
| ModeSetup.XWindowReadBack | src/raspiraw.c:1044-1047 | the x window's border and end pairs survive the y window's writes |
| ModeSetup.YWindowReadBack | src/raspiraw.c:1056-1059 | the y window's border and end pairs read back after the x window's writes |
| ModeSetup.Bin44Apart | src/raspiraw.c:1044-1059 | no pair of the binning block is written over by a later one |
| ModeSetup.WindowCentred | src/raspiraw.c:1039-1041 | a window that fits is centred: equal margins on both sides, `end` is its last pixel, and it spans the scaled size |
| ModeSetup.Bin44WithoutWidth | src/raspiraw.c:1039-1053 | without `-width` the unsigned arithmetic wraps: the x window runs from 1641 to 1638 and the y window from 1233 to 1230 |
| ModeSetup.Wrap32Keeps | src/raspiraw.c:1079 | storing a value that fits an `int` keeps it |
| ModeSetup.Wrap32Residue | src/raspiraw.c:1079 | storing into an `int` keeps the value's low 32 bits |
| ModeSetup.TruncDivNatural | src/raspiraw.c:1079 | on non-negative operands C division is floor division |
| ModeSetup.TruncDivOdd | src/raspiraw.c:1079 | C division rounds toward zero, so negating the dividend negates the quotient |
| ModeSetup.TruncDivExample | src/raspiraw.c:1079 | -7 / 2 is -3 in C, not the floor -4 |
| ModeSetup.TruncDivBounds | src/raspiraw.c:1079 | with a positive divisor the quotient times the divisor never exceeds the dividend in magnitude, and the quotient has the dividend's sign |
| ModeSetup.ExposureWholeLines | src/raspiraw.c:1077-1081 | `-expus` becomes the number of whole lines in that time: e lines take at most the time, e + 1 lines take longer |
| ModeSetup.WriteReadBack | src/raspiraw.c:962-984 | a write followed only by writes elsewhere leaves its value mod 2^(hi+1) in bits 0..hi |
| ModeSetup.Ov5647IncReadBack | src/raspiraw.c:962-972 | on an OV5647, `-hinc` and `-vinc` land in the low bytes of 0x3814 and 0x3815 |
| ModeSetup.Imx219IncReadBack | src/raspiraw.c:974-984 | on an IMX219, `-voinc` and `-hoinc` land in bits 0..2 of 0x0171 and 0x0170 |
| ModeSetup.DefaultsChangeNothing | src/raspiraw.c:920-1087 | with no option given, no register is written, the native depth is kept, no header refusal happens, and image and order are unchanged |
| ModeSetup.FlippedEncoding | src/raspiraw.c:1083-1087 | a mode with no encoding of its own gets the Bayer encoding of its order after the flips, at the chosen depth |

## Left out

- I/O is abstracted:
  - The real `open`, `ioctl`, `write` and `vcos_sleep` calls are modelled as
    a trace of bus actions (`Bus.BusAction`).
  - The identification read is an oracle (`Probe.BusReader`) that receives
    the slave address, the request bytes and the read length.
  - Logging is not modelled.
- The MMAL pipeline is not part of this model: components, buffers, the
  callback, file output, the thread pool, start and stop streaming, and
  `parse_cmdline`. The `Config` fields they set are parameters.
- The `-fps` block (src/raspiraw.c:986-991) and the AWB gains are left out,
  because `fps` and the gains are `double` values and floating-point
  arithmetic is not modelled.
- The MMAL four-character code values are not part of this model. An
  encoding is the datatype `Bayer(order, depth)`, any other non-zero code
  a mode table gives is `Fixed` over the non-zero `Fourcc` type, and 0 is
  `NoEncoding`.
- `Probe.I2cRd`:
  - The value is assumed to arrive as a 16-bit host-order `uint16_t`.
  - The byte-order reinterpretation of the buffer (and the partial fill
    when the length is 1) is inside the oracle.
- `Probe.ProbeSensor`: the candidate list is a parameter, not the compiled-in
  `sensors[]` table with its register lists.
- `RegsOverride.ApplyRegsOverride`:
  - It requires that every segment meets its `vcos_assert`s
    (`WellFormedOverride`).
  - Behaviour after a failed assert is not modelled.
  - `sscanf`'s leniency is not modelled: leading blanks, `0x` prefixes and
    a short address field.
- `RegsOverride.SegmentReadBack`: stated for a segment of at most 0x10000
  bytes, because a longer one wraps the `uint16_t` address onto its own
  earlier writes.
- `ModeSetup.OffsetBlock`: it requires the C products `left * scale` and
  `top * scale` to fit in an `int` and the shift to be at most 30
  (`OffsetDefined`), because signed overflow is undefined.
- `ModeSetup.WindowBlock`: `cfg.width * 2 * k` is a signed `int` product in
  C. The model takes it mod 2^32, as it is once stored into an `unsigned`,
  and does not model its undefined overflow.
- `ModeSetup.FinishMode`: unless `--headerG` is refused, it requires a
  non-zero `line_time_ns` when `-expus` is given, because C division by
  zero is undefined, and flip bits and widths below 31 (`FinishDefined`).
- `ModeSetup.WidthReadBack`: stated only when the x and y output-size pairs
  share no register. On a sensor table where they overlap, a later height
  write would overwrite the width.
- `ModeSetup` readback lemmas are stated per block: size, offsets,
  binning and increments. There is no lemma for the whole `SetupWrites`
  list, because whether a block's registers survive the later blocks
  depends on the sensor table.
- `RegUpdate.UpdateRegs`: it requires flip bits and register widths below
  31 (`UpdatableSensor`), the range in which `1 << n` is defined.
- `RegUpdate.SplitRoundTrip`: stated for widths that are a multiple of 8
  only, because the code does not round-trip other widths (see
  `RegUpdate.SplitTwentyBitsLosesBits`).
- `update_regs` flip arguments are 0 or 1 (`Bit`). A larger `int` would
  shift `value << bit` past the flip bit, and this is not modelled.
- `mode_def` fields that the set-up never reads are not part of this
  model: `image_id`, `data_lanes`, the timings, `term1`/`term2` and
  `black_level`.
- `SensorDef` declares the `stop` register list and the
  `xos_reg_num_bits`/`yos_reg_num_bits` fields, but no member reads them.
  The stop list is sent by the same `send_regs` (src/raspiraw.c:307), so
  `Bus.SendRegs` covers it; `stop_camera_streaming` itself is not part of
  this model.
