// The encoding types of a channel, their widths, and the codec's result codes.
module Encoding {
  datatype CompressErrorCode = Ok | BadSize | TooBig | BadCrc | BadCode

  // The integer values of the enumeration, as they travel in a channel header.
  const ENCODE_NONE: nat := 0
  const ENCODE_LOSSLESS_12BIT: nat := 0x100
  const ENCODE_LOSSLESS_BINARY: nat := 0x101
  const ENCODE_LOSSLESS_11BIT: nat := 0x102
  const ENCODE_LOSSLESS_1BIT: nat := 0x10C
  const ENCODE_LOSSLESS_FIBONACCI: nat := 0x10D
  const ENCODE_LOSSLESS_BINFIB_COMBO: nat := 0x200
  const ENCODE_LOSSLESS_BINFIB_10BIT: nat := 0x201
  const ENCODE_LOSSLESS_BINFIB_1BIT: nat := 0x20A
  const ENCODE_LOSSY_MULAW: nat := 0x300
  const ENCODE_LOSSY_MULAW_3BIT: nat := 0x306
  const ENCODE_LOSSY_MULAW_11_8: nat := 0x307
  const ENCODE_LOSSY_MULAW_6_3: nat := 0x320

  /** 11BIT down to 1BIT are consecutive; 12 bits and anything else share one code. */
  function BinaryEncType(bitSize: int): nat {
    if 1 <= bitSize <= 11 then ENCODE_LOSSLESS_11BIT + (11 - bitSize) else ENCODE_LOSSLESS_12BIT
  }

  function BinaryBitSize(encType: nat): (b: nat)
    ensures 1 <= b <= 12
  {
    if ENCODE_LOSSLESS_11BIT <= encType <= ENCODE_LOSSLESS_1BIT
    then 11 - (encType - ENCODE_LOSSLESS_11BIT) else 12
  }

  function BinFibEncType(bitSize: int): nat {
    if 1 <= bitSize <= 10 then ENCODE_LOSSLESS_BINFIB_10BIT + (10 - bitSize)
    else ENCODE_LOSSLESS_BINFIB_10BIT
  }

  function BinFibBitSize(encType: nat): (b: nat)
    ensures 1 <= b <= 10
  {
    if ENCODE_LOSSLESS_BINFIB_10BIT <= encType <= ENCODE_LOSSLESS_BINFIB_1BIT
    then 10 - (encType - ENCODE_LOSSLESS_BINFIB_10BIT) else 10
  }

  /** The width read back from a header is the one written, within these bounds only. */
  lemma WidthsAgree(bitSize: int)
    ensures BinaryBitSize(BinaryEncType(bitSize)) == bitSize <==> 1 <= bitSize <= 12
    ensures BinFibBitSize(BinFibEncType(bitSize)) == bitSize <==> 1 <= bitSize <= 10
  {
  }
}
