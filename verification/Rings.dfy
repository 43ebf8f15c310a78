/**
  Positions in a ring of `n` slots: the k-th entry goes into slot k mod n on lap k div n.
 */
module Rings {
  import opened Common
  import opened Align

  function Slot(n: nat, k: nat): (s: nat)
    requires n > 0
  {
    k % n
  }

  function Lap(n: nat, k: nat): (l: nat)
    requires n > 0
  {
    DivNonNegative(k, n);
    k / n
  }

  /** The next slot, as the queue code steps: back to zero at the end. */
  function Step(n: nat, s: nat): (t: nat) {
    if s + 1 == n then 0 else s + 1
  }

  lemma SlotStep(n: nat, k: nat)
    requires n > 1
    ensures Slot(n, k) < n
    ensures Slot(n, k + 1) == Step(n, Slot(n, k))
    ensures Lap(n, k + 1) == if Slot(n, k + 1) == 0 then Lap(n, k) + 1 else Lap(n, k)
  {
    var q, r := k / n, k % n;
    assert k == n * q + r;
    if r + 1 == n {
      assert k + 1 == n * (q + 1);
      ModUnique(k + 1, n, q + 1, 0);
    } else {
      ModUnique(k + 1, n, q, r + 1);
    }
  }

  /** Fewer than `n` entries occupy different slots. */
  lemma SlotsDiffer(n: nat, j: nat, k: nat)
    requires n > 0 && j < k < j + n
    ensures Slot(n, j) != Slot(n, k)
  {
    var q, r := j / n, j % n;
    assert j == n * q + r;
    if r + (k - j) < n {
      ModUnique(k, n, q, r + (k - j));
    } else {
      assert k == n * (q + 1) + (r + (k - j) - n);
      ModUnique(k, n, q + 1, r + (k - j) - n);
    }
  }

  /** One lap later the slot is the same. */
  lemma SlotLap(n: nat, k: nat)
    requires n > 0
    ensures Slot(n, k + n) == Slot(n, k) && Lap(n, k + n) == Lap(n, k) + 1
  {
    assert k + n == n * (k / n + 1) + k % n;
    ModUnique(k + n, n, k / n + 1, k % n);
  }

  lemma SlotSmall(n: nat, k: nat)
    requires k < n
    ensures Slot(n, k) == k && Lap(n, k) == 0
  {
    ModUnique(k, n, 0, k);
  }

  // ----- distinct numbers below a bound

  lemma {:induction false} Pigeonhole(s: seq<nat>, m: nat)
    requires Distinct(s) && forall i | 0 <= i < |s| :: s[i] < m
    ensures |s| <= m
  {
    assert |s| > 0 ==> s[0] < m;
    if m > 0 {
      if exists i :: 0 <= i < |s| && s[i] == m - 1 {
        var i :| 0 <= i < |s| && s[i] == m - 1;
        var t := s[..i] + s[i+1..];
        assert forall j | 0 <= j < |t| :: t[j] == s[if j < i then j else j + 1];
        Pigeonhole(t, m - 1);
      } else {
        Pigeonhole(s, m - 1);
      }
    }
  }
}
