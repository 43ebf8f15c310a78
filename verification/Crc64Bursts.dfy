/** The errors that the CRC-64 is sure to find. */
module Crc64Bursts {
  import opened Crc64Bits
  import opened Crc64

  // ----- how far the top bit is from the bottom

  lemma {:induction false} IterateSum(f: Map, j: nat, k: nat, x: bv64)
    ensures Iterate(f, j + k, x) == Iterate(f, k, Iterate(f, j, x))
    decreases j
  {
    if j > 0 { IterateSum(f, j - 1, k, f(x)); }
  }

  lemma HalfEight(k: nat, x: bv64)
    ensures Iterate(Half, 8 + k, x) == Iterate(Half, k, x >> 8)
  {
    IterateSum(Half, 8, k, x);
    HalfShift(x);
  }

  /** The top bit reaches the bottom after 63 halvings. */
  lemma TopHalved()
    ensures Iterate(Half, 63, TOP) == 1
  {
    HalfEight(55, TOP);
    HalfEight(47, 0x80_0000_0000_0000);
    HalfEight(39, 0x8000_0000_0000);
    HalfEight(31, 0x80_0000_0000);
    HalfEight(23, 0x8000_0000);
    HalfEight(15, 0x80_0000);
    HalfEight(7, 0x8000);
    HalfSeven();
  }

  lemma HalfSeven()
    ensures Iterate(Half, 7, 0x80) == 1
  {
    assert Iterate(Half, 3, 0x08) == 1;
  }

  function Mark(j: nat): (p: bv64) {
    Iterate(Half, j, TOP)
  }

  lemma {:induction false} HalfZero(k: nat)
    ensures Iterate(Half, k, 0) == 0
  {
    if k > 0 { HalfZero(k - 1); }
  }

  lemma MarkPositive(j: nat)
    requires j <= 63
    ensures Mark(j) > 0
  {
    IterateSum(Half, j, 63 - j, TOP);
    TopHalved();
    HalfZero(63 - j);
  }

  // ----- the argument, for any machine fed with bits

  /** `ahead(c, d, j)`: c and d differ, and have not yet come together j steps after they parted. */
  ghost predicate Parts<S(!new)>(next: (S, bool) -> S, ahead: (S, S, nat) -> bool) {
    && (forall c, a, b | a != b :: ahead(next(c, a), next(c, b), 0))
    && (forall c, d, a, b, j: nat | ahead(c, d, j) :: ahead(next(c, a), next(d, b), j + 1))
    && (forall c, d, j: nat | ahead(c, d, j) && j <= 63 :: c != d)
  }

  lemma StillAhead<S(!new)>(next: (S, bool) -> S, ahead: (S, S, nat) -> bool, c: S, d: S, a: bool, b: bool, j: nat)
    requires Parts(next, ahead) && ahead(c, d, j)
    ensures ahead(next(c, a), next(d, b), j + 1)
  {
  }

  lemma {:induction false} AheadSurvives<S(!new)>(next: (S, bool) -> S, ahead: (S, S, nat) -> bool,
                                                  c: S, d: S, u: seq<bool>, v: seq<bool>, j: nat)
    requires Parts(next, ahead)
    requires |u| == |v| && j + |u| <= 63 && ahead(c, d, j)
    ensures Feed(next, c, u) != Feed(next, d, v)
    decreases |u|
  {
    if u != [] {
      StillAhead(next, ahead, c, d, u[0], v[0], j);
      AheadSurvives(next, ahead, next(c, u[0]), next(d, v[0]), u[1..], v[1..], j + 1);
    }
  }

  lemma {:induction false} ShortDiffer<S(!new)>(next: (S, bool) -> S, ahead: (S, S, nat) -> bool,
                                                c: S, u: seq<bool>, v: seq<bool>)
    requires Parts(next, ahead)
    requires |u| == |v| <= 64 && u != v
    ensures Feed(next, c, u) != Feed(next, c, v)
    decreases |u|
  {
    if u[0] == v[0] {
      assert u == [u[0]] + u[1..] && v == [v[0]] + v[1..];
      ShortDiffer(next, ahead, next(c, u[0]), u[1..], v[1..]);
    } else {
      AheadSurvives(next, ahead, next(c, u[0]), next(c, v[0]), u[1..], v[1..], 0);
    }
  }

  lemma {:induction false} StayApart<S(!new)>(next: (S, bool) -> S, c: S, d: S, bits: seq<bool>)
    requires forall x, y, b | x != y :: next(x, b) != next(y, b)
    requires c != d
    ensures Feed(next, c, bits) != Feed(next, d, bits)
    decreases |bits|
  {
    if bits != [] {
      StayApart(next, next(c, bits[0]), next(d, bits[0]), bits[1..]);
    }
  }

  // ----- bursts

  ghost predicate Ahead(c: bv64, d: bv64, j: nat) {
    c ^ d >= Mark(j)
  }

  lemma AheadStarts(c: bv64, a: bool, b: bool)
    requires a != b
    ensures Ahead(Next(c, a), Next(c, b), 0)
  {
    DifferenceStarts(c);
  }

  lemma AheadStep(c: bv64, d: bv64, a: bool, b: bool, j: nat)
    requires Ahead(c, d, j)
    ensures Ahead(Next(c, a), Next(d, b), j + 1)
  {
    DifferenceStep(c, d, a, b, Mark(j));
    IterateLast(Half, j, TOP);
  }

  lemma AheadApart(c: bv64, d: bv64, j: nat)
    requires Ahead(c, d, j) && j <= 63
    ensures c != d
  {
    MarkPositive(j);
  }

  lemma DivisionParts()
    ensures Parts(Next, Ahead)
  {
    forall c, a, b | a != b ensures Ahead(Next(c, a), Next(c, b), 0) { AheadStarts(c, a, b); }
    forall c, d, a, b, j: nat | Ahead(c, d, j) ensures Ahead(Next(c, a), Next(d, b), j + 1) {
      AheadStep(c, d, a, b, j);
    }
    forall c, d, j: nat | Ahead(c, d, j) && j <= 63 ensures c != d { AheadApart(c, d, j); }
  }

  /** Two different messages of the same length, at most 64 bits, never have the same remainder. */
  lemma BurstDiffers(c: bv64, u: seq<bool>, v: seq<bool>)
    requires |u| == |v| <= 64 && u != v
    ensures Divide(c, u) != Divide(c, v)
  {
    DivisionParts();
    ShortDiffer(Next, Ahead, c, u, v);
  }

  /** Once apart, two remainders stay apart under the same bits. */
  lemma RestDiffers(c: bv64, d: bv64, bits: seq<bool>)
    requires c != d
    ensures Divide(c, bits) != Divide(d, bits)
  {
    forall x, y, b | x != y ensures Next(x, b) != Next(y, b) { NextInjective(x, y, b); }
    StayApart(Next, c, d, bits);
  }

  /** Any error within 64 consecutive bits changes the checksum, wherever it is and however long the message. */
  lemma BurstFound(crc: bv64, m: seq<bv8>, n: seq<bv8>,
                   before: seq<bool>, u: seq<bool>, v: seq<bool>, after: seq<bool>)
    requires ToBits(m) == before + u + after && ToBits(n) == before + v + after
    requires |u| == |v| <= 64 && u != v
    ensures Checksum(crc, m) != Checksum(crc, n)
  {
    var c := Divide(crc, before);
    FeedConcat(Next, crc, before, u);
    FeedConcat(Next, crc, before, v);
    FeedConcat(Next, crc, before + u, after);
    FeedConcat(Next, crc, before + v, after);
    BurstDiffers(c, u, v);
    RestDiffers(Divide(c, u), Divide(c, v), after);
    XorCancels(Divide(crc, ToBits(m)), Divide(crc, ToBits(n)), ONES);
  }
}
