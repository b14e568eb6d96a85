/**
 * The I2C helpers of the temperature-sensor test: the reserved-address
 * predicate of the bus scan, and the decode of a 2-byte sensor reading into
 * its 12-bit sample.  The polling loop around them, the transfers and the
 * float conversion are outside the model.
 */
module I2c {
  /**
   * reserved_addr: the I2C-bus specification (UM10204, section 3.1.12)
   * reserves the 7-bit addresses 000 0xxx and 111 1xxx; the test masks the
   * four bits 3..6 with 0x78 and compares with all-zeros and all-ones.
   */
  predicate ReservedAddr(addr: bv8) {
    addr & 0x78 == 0 || addr & 0x78 == 0x78
  }

  /** Over the 7-bit address space the reserved addresses are exactly 0x00-0x07 and 0x78-0x7F. */
  lemma ReservedRanges(addr: bv8)
    requires addr < 0x80
    ensures ReservedAddr(addr) <==> addr < 0x08 || addr >= 0x78
  {
  }

  /** Flipping any of bits 0-2 and 7 (outside the mask) never changes the answer. */
  lemma ReservedIgnoresFlips(addr: bv8, flips: bv8)
    requires flips & 0x78 == 0
    ensures ReservedAddr(addr ^ flips) == ReservedAddr(addr)
  {
  }

  /**
   * The receive word: `rxdata` is zeroed, then the two bytes the sensor
   * sends land in its first two bytes of little-endian memory.
   */
  function ReadWord(b0: bv8, b1: bv8): (w: bv32) {
    (b0 as bv32) | ((b1 as bv32) << 8)
  }

  /** std::byteswap on a 32-bit word. */
  function ByteSwap(w: bv32): (s: bv32) {
    ((w & 0xFF) << 24) | (((w >> 8) & 0xFF) << 16) | (((w >> 16) & 0xFF) << 8) | (w >> 24)
  }

  /** The decode: `byteswap(rxdata) >> 4 >> 16`. */
  function Decode(b0: bv8, b1: bv8): (sample: bv32) {
    (ByteSwap(ReadWord(b0, b1)) >> 4) >> 16
  }

  /** The received word holds the first byte at bits 0-7 and the second at bits 8-15, nothing above. */
  lemma ReadWordBytes(b0: bv8, b1: bv8)
    ensures ReadWord(b0, b1) & 0xFF == b0 as bv32
    ensures (ReadWord(b0, b1) >> 8) & 0xFF == b1 as bv32
    ensures ReadWord(b0, b1) >> 16 == 0
  {
  }

  /** Swapping the byte order twice gives the word back. */
  lemma ByteSwapInvolution(w: bv32)
    ensures ByteSwap(ByteSwap(w)) == w
  {
  }

  /**
   * The sample is the first byte followed by the high nibble of the second:
   * a 12-bit value, big-endian as the sensor sends it.
   */
  lemma DecodeSample(b0: bv8, b1: bv8)
    ensures Decode(b0, b1) == ((b0 as bv32) << 4) | ((b1 as bv32) >> 4)
    ensures Decode(b0, b1) < 4096
  {
  }

  /** The same in integer terms: 16 times the first byte plus the second byte divided by 16. */
  lemma DecodeValue(b0: bv8, b1: bv8)
    ensures Decode(b0, b1) as int == b0 as int * 16 + b1 as int / 16
  {
    DecodeSample(b0, b1);
    var hi := (b0 as bv32) << 4;
    var lo := (b1 as bv32) >> 4;
    assert hi | lo == hi + lo;
    HighValue(b0);
    LowValue(b1);
  }

  /** Shifting a byte up by four multiplies it by 16. */
  lemma HighValue(b: bv8)
    ensures ((b as bv32) << 4) as int == b as int * 16
  {
  }

  /** Shifting a byte down by four keeps its high nibble. */
  lemma LowValue(b: bv8)
    ensures ((b as bv32) >> 4) as int == b as int / 16
  {
  }
}
