/**
  That the polynomial, the bit order and the inversion of the model are those of the NVM Command Set
  Specification: the exponents of the polynomial, and the check value of the nine digits.
 */
module Crc64Standard {
  import opened Crc64Bits
  import opened Crc64

  /** COEFFS, apart from the exponent 64 that every such polynomial has. */
  predicate IsExponent(c: bv6) {
    c in {63, 61, 59, 58, 56, 55, 52, 49, 48, 47, 46, 44, 41, 37, 36, 34,
          32, 31, 28, 26, 23, 22, 19, 16, 13, 12, 10, 9, 6, 4, 3, 0}
  }

  /** The polynomial has exactly these terms, the highest one in the lowest bit. */
  lemma Exponents(c: bv6)
    ensures (POLY >> (63 - c)) & 1 == 1 <==> IsExponent(c)
  {
  }

  function Shift4(x: bv64): (y: bv64) {
    Shift(Shift(Shift(Shift(x))))
  }

  /** One byte of a message. */
  lemma Fed(crc: bv64, b: bv8, half: bv64, next: bv64, rest: seq<bv8>)
    requires half == Shift4(Xor(crc, Wide(b))) && next == Shift4(half)
    ensures Remainder(crc, [b] + rest) == Remainder(next, rest)
  {
    assert Iterate(Shift, 4, half) == next;
    assert Shift8(Xor(crc, Wide(b))) == next;
    assert ([b] + rest)[1..] == rest;
  }

  lemma FirstDigits(rest: seq<bv8>)
    ensures Remainder(0xFFFF_FFFF_FFFF_FFFF, [0x31] + ([0x32] + ([0x33] + rest))) == Remainder(0x6427_8334_3634_D71F, rest)
  {
    Fed(0xFFFF_FFFF_FFFF_FFFF, 0x31, 0xB308_481C_38A6_C424, 0xDC6A_5E3C_B9E4_412D, [0x32] + ([0x33] + rest));
    Fed(0xDC6A_5E3C_B9E4_412D, 0x32, 0xC9D1_ED3B_8479_1048, 0x96F1_8DFA_140C_58B1, [0x33] + rest);
    Fed(0x96F1_8DFA_140C_58B1, 0x33, 0xF8AE_E6A8_B03C_1A8A, 0x6427_8334_3634_D71F, rest);
  }

  lemma MiddleDigits(rest: seq<bv8>)
    ensures Remainder(0x6427_8334_3634_D71F, [0x34] + ([0x35] + ([0x36] + rest))) == Remainder(0xF6A6_6499_E1F7_A4CF, rest)
  {
    Fed(0x6427_8334_3634_D71F, 0x34, 0x150F_EA56_76EA_3444, 0xD60A_2418_1D00_8E2B, [0x35] + ([0x36] + rest));
    Fed(0xD60A_2418_1D00_8E2B, 0x35, 0xB197_15A2_4689_3339, 0xE995_1D48_009D_3507, [0x36] + rest);
    Fed(0xE995_1D48_009D_3507, 0x36, 0x7679_AEEF_08B7_BCD2, 0xF6A6_6499_E1F7_A4CF, rest);
  }

  lemma LastDigits(rest: seq<bv8>)
    ensures Remainder(0xF6A6_6499_E1F7_A4CF, [0x37] + ([0x38] + ([0x39] + rest))) == Remainder(0x5174_EB79_F586_6777, rest)
  {
    Fed(0xF6A6_6499_E1F7_A4CF, 0x37, 0x9506_F560_3254_B3FA, 0x62FD_0208_BE12_5D88, [0x38] + ([0x39] + rest));
    Fed(0x62FD_0208_BE12_5D88, 0x38, 0x062F_D020_8BE1_25DB, 0x132F_6F67_3D37_6B6B, [0x39] + rest);
    Fed(0x132F_6F67_3D37_6B6B, 0x39, 0xF0F3_0881_62AF_A9B7, 0x5174_EB79_F586_6777, rest);
  }

  /** The checksum of "123456789", from all ones. */
  lemma CheckValue(digits: seq<bv8>)
    requires digits == [0x31, 0x32, 0x33, 0x34, 0x35, 0x36, 0x37, 0x38, 0x39]
    ensures Checksum(0xFFFF_FFFF_FFFF_FFFF, digits) == 0xAE8B_1486_0A79_9888
  {
    var last := [0x37] + ([0x38] + ([0x39] + []));
    var middle := [0x34] + ([0x35] + ([0x36] + last));
    assert digits == [0x31] + ([0x32] + ([0x33] + middle));
    FirstDigits(middle);
    MiddleDigits(last);
    LastDigits([]);
    RemainderIsDivide(0xFFFF_FFFF_FFFF_FFFF, digits);
  }
}
