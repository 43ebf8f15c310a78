/**
  The 64-bit CRC of the NVM Command Set Specification (its 64b Guard Protection Information): the table of
  lib/gentable-crc64.c and the table-driven loop of src/nvme/util.c, against division bit by bit.
 */
module Crc64 {
  import opened Crc64Bits

  // ----- the bit-serial definition

  function Feed<S>(next: (S, bool) -> S, s: S, bits: seq<bool>): (r: S)
    decreases |bits|
  {
    if bits == [] then s else Feed(next, next(s, bits[0]), bits[1..])
  }

  /** The remainder after the bits of a message, starting from `crc`. */
  function Divide(crc: bv64, bits: seq<bool>): (r: bv64) {
    Feed(Next, crc, bits)
  }

  /** The low `k` bits of a word, lowest first. */
  function BitsOf(w: bv64, k: nat): (bits: seq<bool>)
    ensures |bits| == k
  {
    if k == 0 then [] else [w & 1 == 1] + BitsOf(Half(w), k - 1)
  }

  function ToBits(msg: seq<bv8>): (bits: seq<bool>) {
    if msg == [] then [] else BitsOf(Wide(msg[0]), 8) + ToBits(msg[1..])
  }

  /** The checksum of a message: the remainder of its bits, inverted. */
  function Checksum(crc: bv64, msg: seq<bv8>): (r: bv64) {
    Xor(Divide(crc, ToBits(msg)), ONES)
  }

  // ----- a byte at a time

  type Map = bv64 -> bv64

  function Iterate(f: Map, k: nat, x: bv64): (y: bv64)
    decreases k
  {
    if k == 0 then x else Iterate(f, k - 1, f(x))
  }

  function Shift8(x: bv64): (y: bv64) {
    Iterate(Shift, 8, x)
  }

  function Remainder(crc: bv64, msg: seq<bv8>): (r: bv64)
    decreases |msg|
  {
    if msg == [] then crc else Remainder(Shift8(Xor(crc, Wide(msg[0]))), msg[1..])
  }

  // ----- division is linear

  ghost predicate Linear(f: Map) {
    forall x, y {:trigger f(Xor(x, y))} :: f(Xor(x, y)) == Xor(f(x), f(y))
  }

  lemma {:induction false} IterateLinear(f: Map, k: nat, x: bv64, y: bv64)
    requires Linear(f)
    ensures Iterate(f, k, Xor(x, y)) == Xor(Iterate(f, k, x), Iterate(f, k, y))
    decreases k
  {
    if k > 0 {
      IterateLinear(f, k - 1, f(x), f(y));
    }
  }

  lemma ShiftIsLinear()
    ensures Linear(Shift)
  {
    forall x, y ensures Shift(Xor(x, y)) == Xor(Shift(x), Shift(y)) { ShiftLinear(x, y); }
  }

  lemma Shift8Linear()
    ensures Linear(Shift8)
  {
    ShiftIsLinear();
    forall x, y ensures Shift8(Xor(x, y)) == Xor(Shift8(x), Shift8(y)) { IterateLinear(Shift, 8, x, y); }
  }

  /** Zero bits just move out. */
  lemma LowByteZero(x: bv64)
    requires x & 0xff == 0
    ensures Shift8(x) == x >> 8
  {
    assert Shift(x) == x >> 1;
    assert Shift(x >> 1) == x >> 2;
    assert Shift(x >> 2) == x >> 3;
    assert Shift(x >> 3) == x >> 4;
    assert Shift(x >> 4) == x >> 5;
    assert Shift(x >> 5) == x >> 6;
    assert Shift(x >> 6) == x >> 7;
    assert Shift(x >> 7) == x >> 8;
    assert Iterate(Shift, 4, x >> 4) == x >> 8;
  }

  // ----- the table

  lemma {:induction false} IterateLast(f: Map, k: nat, x: bv64)
    ensures Iterate(f, k + 1, x) == f(Iterate(f, k, x))
    decreases k
  {
    if k > 0 { IterateLast(f, k - 1, f(x)); }
  }

  lemma HalfShift(w: bv64)
    ensures Iterate(Half, 8, w) == w >> 8
  {
    assert Half(w) == w >> 1;
    assert Half(w >> 1) == w >> 2;
    assert Half(w >> 2) == w >> 3;
    assert Half(w >> 3) == w >> 4;
    assert Half(w >> 4) == w >> 5;
    assert Half(w >> 5) == w >> 6;
    assert Half(w >> 6) == w >> 7;
    assert Half(w >> 7) == w >> 8;
    assert Iterate(Half, 4, w >> 4) == w >> 8;
  }

  /** The inner loop of generate(): the entry for one byte. */
  method Entry(byte: bv8) returns (crc: bv64)
    ensures crc == Shift8(Wide(byte))
  {
    crc := 0;
    var v := Wide(byte);
    XorZero(v);
    for j := 0 to 8
      invariant Iterate(Shift, j, Wide(byte)) == Xor(crc, v)
      invariant v == Iterate(Half, j, Wide(byte))
    {
      TurnIsShift(crc, v);
      IterateLast(Shift, j, Wide(byte));
      IterateLast(Half, j, Wide(byte));
      crc := Turn(crc, v);
      v := Half(v);
    }
    HalfShift(Wide(byte));
    ByteShiftedOut(byte);
    XorZero(crc);
  }

  ghost predicate IsTable(table: seq<bv64>) {
    |table| == 256 && forall b: bv8 :: table[Index(b)] == Shift8(Wide(b))
  }

  /** generate() */
  method Generate(table: array<bv64>)
    requires table.Length == 256
    modifies table
    ensures IsTable(table[..])
  {
    for i := 0 to 256
      invariant forall b: bv8 | Index(b) < i :: table[Index(b)] == Shift8(Wide(b))
    {
      var crc := Entry(i as bv8);
      forall b: bv8 | Index(b) == i ensures b == i as bv8 { IndexBack(b); }
      table[i] := crc;
    }
  }

  // ----- the loop

  /** The linearity of division: the high bytes move down, and the table has the rest. */
  lemma ByteStep(crc: bv64, b: bv8)
    ensures Shift8(Xor(crc, Wide(b))) == Xor(crc >> 8, Shift8(Wide(Low(crc, b))))
  {
    SplitByte(crc, b);
    HighByte(crc);
    LowByteZero(crc & HIGH);
    Shift8Linear();
  }

  /** nvme_crc64 computes the bit-serial checksum. */
  method Compute(crc: bv64, buffer: array<bv8>, table: array<bv64>) returns (r: bv64)
    requires IsTable(table[..])
    ensures r == Checksum(crc, buffer[..])
  {
    r := crc;
    for i := 0 to buffer.Length
      invariant Remainder(r, buffer[i..]) == Remainder(crc, buffer[..])
    {
      ByteStep(r, buffer[i]);
      assert buffer[i..][1..] == buffer[i + 1..];
      var entry := table[Index(Low(r, buffer[i]))];
      assert entry == table[..][Index(Low(r, buffer[i]))];
      r := Xor(r >> 8, entry);
    }
    r := Xor(r, ONES);
    RemainderIsDivide(crc, buffer[..]);
  }

  // ----- a byte is eight bits

  lemma SerialStep(c: bv64, w: bv64)
    ensures Shift(Xor(c, w)) == Xor(Next(c, w & 1 == 1), Half(w))
  {
    TurnIsNext(c, w);
    TurnIsShift(c, w);
  }

  lemma {:induction false} Serial(c: bv64, w: bv64, k: nat)
    ensures Iterate(Shift, k, Xor(c, w)) == Xor(Divide(c, BitsOf(w, k)), Iterate(Half, k, w))
    decreases k
  {
    if k > 0 {
      var b := w & 1 == 1;
      assert BitsOf(w, k) == [b] + BitsOf(Half(w), k - 1);
      assert Divide(c, BitsOf(w, k)) == Divide(Next(c, b), BitsOf(Half(w), k - 1));
      SerialStep(c, w);
      Serial(Next(c, b), Half(w), k - 1);
    }
  }

  lemma {:induction false} FeedConcat<S>(next: (S, bool) -> S, s: S, a: seq<bool>, b: seq<bool>)
    ensures Feed(next, s, a + b) == Feed(next, Feed(next, s, a), b)
    decreases |a|
  {
    if a == [] {
      assert a + b == b;
    } else {
      assert (a + b)[1..] == a[1..] + b;
      FeedConcat(next, next(s, a[0]), a[1..], b);
    }
  }

  lemma {:induction false} RemainderIsDivide(c: bv64, msg: seq<bv8>)
    ensures Remainder(c, msg) == Divide(c, ToBits(msg))
    decreases |msg|
  {
    if msg != [] {
      var w := Wide(msg[0]);
      Serial(c, w, 8);
      HalfShift(w);
      ByteShiftedOut(msg[0]);
      XorZero(Divide(c, BitsOf(w, 8)));
      FeedConcat(Next, c, BitsOf(w, 8), ToBits(msg[1..]));
      RemainderIsDivide(Shift8(Xor(c, w)), msg[1..]);
    }
  }

  // ----- in pieces

  lemma {:induction false} ToBitsConcat(a: seq<bv8>, b: seq<bv8>)
    ensures ToBits(a + b) == ToBits(a) + ToBits(b)
    decreases |a|
  {
    if a == [] {
      assert a + b == b;
    } else {
      assert (a + b)[1..] == a[1..] + b;
      ToBitsConcat(a[1..], b);
    }
  }

  /** A message fed in two pieces, the first checksum inverted back, has the checksum of the whole. */
  lemma InPieces(crc: bv64, a: seq<bv8>, b: seq<bv8>)
    ensures Checksum(Xor(Checksum(crc, a), ONES), b) == Checksum(crc, a + b)
  {
    InvertTwice(Divide(crc, ToBits(a)));
    ToBitsConcat(a, b);
    FeedConcat(Next, crc, ToBits(a), ToBits(b));
  }
}
