/**
  64-bit words under the CRC-64 polynomial: one step of the division, and the facts about its bits that
  the table, the loop and the burst theorem rest on.
 */
module Crc64Bits {
  // CRC64_NVME_POLY
  const POLY: bv64 := 0x9A6C_9329_AC4B_C9B5
  const ONES: bv64 := 0xFFFF_FFFF_FFFF_FFFF

  function Xor(x: bv64, y: bv64): (z: bv64) {
    x ^ y
  }

  function Half(x: bv64): (y: bv64) {
    x >> 1
  }

  /** One step of the division by the polynomial, lowest bit first. */
  function Shift(x: bv64): (y: bv64) {
    if x & 1 == 1 then (x >> 1) ^ POLY else x >> 1
  }

  /** One bit of a message fed to the division. */
  function Next(crc: bv64, b: bool): (r: bv64) {
    if (crc & 1 == 1) != b then (crc >> 1) ^ POLY else crc >> 1
  }

  function Wide(b: bv8): (w: bv64) {
    b as bv64
  }

  // ----- the step is linear

  lemma Parity(x: bv64, y: bv64)
    ensures (x ^ y) & 1 == 1 <==> (x & 1 == 1) != (y & 1 == 1)
  {
  }

  // The results of steps are parameters here, so that the verifier does not have to look into them.
  lemma BothOdd(x: bv64, y: bv64, a: bv64, b: bv64, c: bv64)
    requires a == (x >> 1) ^ POLY && b == (y >> 1) ^ POLY && c == (x ^ y) >> 1
    ensures c == a ^ b
  {
  }

  lemma OneOdd(x: bv64, y: bv64, a: bv64, b: bv64, c: bv64)
    requires a == (x >> 1) ^ POLY && b == y >> 1 && c == ((x ^ y) >> 1) ^ POLY
    ensures c == a ^ b
  {
  }

  lemma OtherOdd(x: bv64, y: bv64, a: bv64, b: bv64, c: bv64)
    requires a == x >> 1 && b == (y >> 1) ^ POLY && c == ((x ^ y) >> 1) ^ POLY
    ensures c == a ^ b
  {
  }

  lemma NoneOdd(x: bv64, y: bv64, a: bv64, b: bv64, c: bv64)
    requires a == x >> 1 && b == y >> 1 && c == (x ^ y) >> 1
    ensures c == a ^ b
  {
  }

  lemma StepsLinear(x: bv64, y: bv64, a: bv64, b: bv64, c: bv64)
    requires a == (if x & 1 == 1 then (x >> 1) ^ POLY else x >> 1)
    requires b == (if y & 1 == 1 then (y >> 1) ^ POLY else y >> 1)
    requires c == (if (x ^ y) & 1 == 1 then ((x ^ y) >> 1) ^ POLY else (x ^ y) >> 1)
    ensures c == a ^ b
  {
    Parity(x, y);
    if x & 1 == 1 {
      if y & 1 == 1 { BothOdd(x, y, a, b, c); } else { OneOdd(x, y, a, b, c); }
    } else {
      if y & 1 == 1 { OtherOdd(x, y, a, b, c); } else { NoneOdd(x, y, a, b, c); }
    }
  }

  lemma ShiftLinear(x: bv64, y: bv64)
    ensures Shift(x ^ y) == Shift(x) ^ Shift(y)
  {
    StepsLinear(x, y, Shift(x), Shift(y), Shift(x ^ y));
  }

  // ----- the generator's inner loop

  /** One turn of the inner loop of generate(), with `v` for the byte shifted so far. */
  function Turn(crc: bv64, v: bv64): (r: bv64) {
    if (crc ^ v) & 1 == 1 then (crc >> 1) ^ POLY else crc >> 1
  }

  lemma TurnTaken(crc: bv64, v: bv64, t: bv64, s: bv64)
    requires t == (crc >> 1) ^ POLY && s == ((crc ^ v) >> 1) ^ POLY
    ensures t ^ (v >> 1) == s
  {
  }

  lemma TurnSkipped(crc: bv64, v: bv64, t: bv64, s: bv64)
    requires t == crc >> 1 && s == (crc ^ v) >> 1
    ensures t ^ (v >> 1) == s
  {
  }

  lemma TurnSteps(crc: bv64, v: bv64, t: bv64, s: bv64)
    requires t == (if (crc ^ v) & 1 == 1 then (crc >> 1) ^ POLY else crc >> 1)
    requires s == (if (crc ^ v) & 1 == 1 then ((crc ^ v) >> 1) ^ POLY else (crc ^ v) >> 1)
    ensures t ^ (v >> 1) == s
  {
    if (crc ^ v) & 1 == 1 { TurnTaken(crc, v, t, s); } else { TurnSkipped(crc, v, t, s); }
  }

  lemma TurnShifts(crc: bv64, v: bv64)
    ensures Turn(crc, v) ^ (v >> 1) == Shift(crc ^ v)
  {
    TurnSteps(crc, v, Turn(crc, v), Shift(crc ^ v));
  }

  /** The loop keeps the remainder and the rest of the byte apart, one bit further each time. */
  lemma TurnIsShift(crc: bv64, v: bv64)
    ensures Xor(Turn(crc, v), Half(v)) == Shift(Xor(crc, v))
  {
    TurnShifts(crc, v);
  }

  lemma ByteShiftedOut(b: bv8)
    ensures Wide(b) >> 8 == 0
  {
  }

  lemma XorZero(x: bv64)
    ensures Xor(x, 0) == x && Xor(0, x) == x
  {
  }

  // ----- bytes

  function Index(b: bv8): (i: nat)
    ensures i < 256
  {
    b as int
  }

  /** The conversion of generate()'s counter to a byte. */
  lemma IndexBack(b: bv8)
    ensures Index(b) as bv8 == b
  {
  }

  const HIGH: bv64 := 0xFFFF_FFFF_FFFF_FF00

  /** The table index: the low byte of the remainder and the next byte of the message. */
  function Low(crc: bv64, b: bv8): (k: bv8) {
    ((crc & 0xff) ^ Wide(b)) as bv8
  }

  lemma SplitByte(crc: bv64, b: bv8)
    ensures Xor(crc, Wide(b)) == Xor(crc & HIGH, Wide(Low(crc, b)))
  {
    WideLow(crc, b);
    SplitHigh(crc, Wide(b));
  }

  lemma WideLow(crc: bv64, b: bv8)
    ensures Wide(Low(crc, b)) == (crc & 0xff) ^ Wide(b)
  {
  }

  lemma SplitHigh(crc: bv64, w: bv64)
    ensures Xor(crc, w) == Xor(crc & HIGH, (crc & 0xff) ^ w)
  {
    HighAndLow(crc);
    Regroup(crc, crc & HIGH, crc & 0xff, w);
  }

  lemma HighAndLow(crc: bv64)
    ensures crc == Xor(crc & HIGH, crc & 0xff)
  {
  }

  lemma Regroup(x: bv64, high: bv64, low: bv64, w: bv64)
    requires x == high ^ low
    ensures x ^ w == high ^ (low ^ w)
  {
  }

  lemma HighByte(crc: bv64)
    ensures (crc & HIGH) & 0xff == 0 && (crc & HIGH) >> 8 == crc >> 8
  {
  }

  lemma InvertTwice(x: bv64)
    ensures Xor(Xor(x, ONES), ONES) == x
  {
  }

  const TOP: bv64 := 0x8000_0000_0000_0000

  // ----- the difference of two divisions

  lemma NeitherTaken(c: bv64, d: bv64, p: bv64)
    ensures c ^ d >= p ==> (c >> 1) ^ (d >> 1) >= p >> 1
  {
  }

  lemma BothTaken(c: bv64, d: bv64, p: bv64)
    ensures c ^ d >= p ==> ((c >> 1) ^ POLY) ^ ((d >> 1) ^ POLY) >= p >> 1
  {
  }

  /** The polynomial has its top bit set. */
  lemma OneTaken(c: bv64, d: bv64, p: bv64)
    ensures ((c >> 1) ^ POLY) ^ (d >> 1) >= p >> 1 && (d >> 1) ^ ((c >> 1) ^ POLY) >= p >> 1
  {
  }

  /** A difference as high as `p` is as high as `p` moved one down after one more bit each, the same or not. */
  lemma DifferenceStep(c: bv64, d: bv64, a: bool, b: bool, p: bv64)
    requires c ^ d >= p
    ensures Next(c, a) ^ Next(d, b) >= p >> 1
  {
    if (c & 1 == 1) != a {
      if (d & 1 == 1) != b { BothTaken(c, d, p); } else { OneTaken(c, d, p); }
    } else {
      if (d & 1 == 1) != b { OneTaken(d, c, p); } else { NeitherTaken(c, d, p); }
    }
  }

  lemma DifferenceStarts(c: bv64)
    ensures Next(c, true) ^ Next(c, false) >= TOP && Next(c, false) ^ Next(c, true) >= TOP
  {
  }

  lemma NextInjective(c: bv64, d: bv64, b: bool)
    ensures Next(c, b) == Next(d, b) ==> c == d
  {
  }

  lemma XorCancels(c: bv64, d: bv64, x: bv64)
    requires c != d
    ensures Xor(c, x) != Xor(d, x)
  {
  }

  /** The generator's turn feeds the division one bit of the byte. */
  lemma TurnIsNext(crc: bv64, v: bv64)
    ensures Turn(crc, v) == Next(crc, v & 1 == 1)
  {
  }
}
