/**
  The request trackers of a submission queue: the stack of free trackers of
  include/vfn/nvme/rq.h, set up by src/nvme/core.c. Trackers are numbered by their command
  identifiers, and NULL is -1.
 */
module Trackers {
  import opened Common

  const NULL: int := -1

  ghost function Below(chain: seq<nat>, i: nat): (r: int) {
    if i + 1 < |chain| then chain[i+1] else NULL
  }

  /** `top` and the `next` links spell out `chain`, which visits no tracker twice. */
  ghost predicate IsChain(top: int, next: seq<int>, chain: seq<nat>) {
    && Distinct(chain) && (forall i | 0 <= i < |chain| :: chain[i] < |next|)
    && top == (if chain == [] then NULL else chain[0])
    && (forall i | 0 <= i < |chain| :: next[chain[i]] == Below(chain, i))
  }

  lemma PopChain(top: int, next: seq<int>, chain: seq<nat>)
    requires IsChain(top, next, chain) && chain != []
    ensures IsChain(next[chain[0]], next, chain[1..]) && chain[0] !in chain[1..]
  {
    var tail := chain[1..];
    assert next[chain[0]] == Below(chain, 0);
    forall i | 0 <= i < |tail| ensures next[tail[i]] == Below(tail, i) {
      assert tail[i] == chain[i+1] && next[chain[i+1]] == Below(chain, i + 1);
    }
  }

  lemma PushChain(top: int, next: seq<int>, chain: seq<nat>, r: nat)
    requires IsChain(top, next, chain) && r < |next| && r !in chain && next[r] == top
    ensures IsChain(r, next, [r] + chain)
  {
    var longer := [r] + chain;
    forall i | 0 <= i < |longer| ensures next[longer[i]] == Below(longer, i) {
      assert i > 0 ==> longer[i] == chain[i-1] && next[chain[i-1]] == Below(chain, i - 1);
    }
  }

  /** Links of trackers that are not on the stack do not matter. */
  lemma OffChain(top: int, next: seq<int>, chain: seq<nat>, r: nat, v: int)
    requires IsChain(top, next, chain) && r < |next| && r !in chain
    ensures IsChain(top, next[r := v], chain)
  {
  }

  /** nvme_rq_from_cqe: the index into the array of qsize - 1 trackers, or None for EINVAL. */
  function FromCqe(qsize: nat, cid: nat): (r: Option<nat>)
    requires qsize >= 2
  {
    if cid > qsize - 1 then None else Some(cid)
  }

  class RequestStack {
    const qsize: nat
    const rqNext: array<int>
    var top: int
    ghost var chain: seq<nat>

    ghost predicate Valid()
      reads this, rqNext
    {
      qsize >= 2 && rqNext.Length == qsize - 1 && IsChain(top, rqNext[..], chain)
    }

    /** The tracker loop of __nvme_configure_sq: qsize - 1 trackers, all free, the last one on top. */
    constructor (qsize: nat)
      requires qsize >= 2
      ensures Valid() && this.qsize == qsize && fresh(rqNext)
      ensures |chain| == qsize - 1 && forall i | 0 <= i < qsize - 1 :: chain[i] == qsize - 2 - i
    {
      this.qsize := qsize;
      rqNext := new int[qsize - 1](i => NULL);
      top := qsize - 2;
      chain := seq(qsize - 1, i requires 0 <= i < qsize - 1 => (qsize - 2 - i) as nat);
      new;
      for i := 0 to qsize - 1
        invariant top == qsize - 2 && |chain| == qsize - 1 && rqNext.Length == qsize - 1
        invariant forall j | 0 <= j < qsize - 1 :: chain[j] == qsize - 2 - j
        invariant forall j | 0 <= j < qsize - 1 :: rqNext[j] == if 0 < j < i then j - 1 else NULL
      {
        if i > 0 {
          rqNext[i] := i - 1;
        }
      }
    }

    /** nvme_rq_acquire */
    method Acquire() returns (r: int)
      requires Valid()
      modifies this
      ensures Valid() && (r == NULL <==> old(chain) == [])
      ensures r == NULL ==> chain == old(chain)
      ensures r != NULL ==> old(chain) == [r] + chain && r !in chain
    {
      r := top;
      if r == NULL {
        return;
      }
      PopChain(top, rqNext[..], chain);
      top := rqNext[r];
      chain := chain[1..];
    }

    /** nvme_rq_release of a tracker that is held. */
    method Release(r: nat)
      requires Valid() && r < rqNext.Length && r !in chain
      modifies this, rqNext
      ensures Valid() && chain == [r] + old(chain)
    {
      OffChain(top, rqNext[..], chain, r, top);
      rqNext[r] := top;
      assert rqNext[..] == old(rqNext[..])[r := top];
      PushChain(top, rqNext[..], chain, r);
      top := r;
      chain := [r] + chain;
    }
  }

  /**
    Every tracker is found by its identifier. But the guard lets through one identifier too many, the one
    past the last tracker, and that one only.
   */
  lemma FromCqeIff(s: RequestStack, cid: nat)
    requires s.Valid()
    ensures cid < s.rqNext.Length ==> FromCqe(s.qsize, cid) == Some(cid)
    ensures FromCqe(s.qsize, cid).Some? ==> (FromCqe(s.qsize, cid).value >= s.rqNext.Length <==> cid == s.qsize - 1)
    ensures FromCqe(s.qsize, cid) == None <==> cid >= s.qsize
  {
  }
}
