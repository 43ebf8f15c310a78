/**
  The completion queue of include/vfn/nvme/queue.h and src/nvme/queue.c: a ring that the device
  fills and the host empties, where a phase tag that alternates from lap to lap (section 4.6 of
  NVM Express 1.4) tells new entries from old ones.
 */
module CompletionQueues {
  import opened Common
  import opened Rings

  // struct nvme_cqe: the command identifier, the rest, and the phase tag of the status field
  datatype Cqe = Cqe(cid: nat, info: nat, tag: nat)

  /** The tag a device writes into its k-th completion. */
  function TagOf(n: nat, k: nat): (t: nat)
    requires n > 0
  {
    (Lap(n, k) + 1) % 2
  }

  // ----- the host's side

  datatype Cursor = Cursor(head: nat, phase: nat)

  /** The increment of `head`, a 16-bit counter, in nvme_cq_get_cqe. */
  function Advance(n: nat, c: Cursor): (r: Cursor) {
    var h := (c.head + 1) % UINT16;
    if h == n then Cursor(0, 1 - c.phase % 2) else Cursor(h, c.phase)
  }

  /** Where the host is after `r` completions. */
  function CursorAt(n: nat, r: nat): (c: Cursor)
    requires n > 0
  {
    Cursor(Slot(n, r), Lap(n, r) % 2)
  }

  /**
    The head and the phase follow the ring exactly for sizes up to 65535. At 65536 the counter wraps
    to zero before it can be compared with the size, and the phase never changes.
   */
  lemma AdvanceFollowsIff(n: nat)
    requires 2 <= n <= 65536
    ensures (forall r: nat :: Advance(n, CursorAt(n, r)) == CursorAt(n, r + 1)) <==> n < 65536
  {
    if n < UINT16 {
      forall r: nat ensures Advance(n, CursorAt(n, r)) == CursorAt(n, r + 1) { AdvanceFollows(n, r); }
    } else {
      SlotSmall(n, n - 1);
      SlotLap(n, 0);
      SlotSmall(n, 0);
      assert Advance(n, CursorAt(n, n - 1)) != CursorAt(n, n - 1 + 1);
    }
  }

  lemma AdvanceFollows(n: nat, r: nat)
    requires 2 <= n < UINT16
    ensures Advance(n, CursorAt(n, r)) == CursorAt(n, r + 1)
  {
    SlotStep(n, r);
  }

  // ----- the ring and its history

  /**
    `done` are all completions the device has posted so far. The ring holds the last lap of them,
    each slot that was never written still has a zero tag, and the host has read the first `reaped`.
   */
  ghost predicate Consistent(n: nat, ring: seq<Cqe>, done: seq<Cqe>, reaped: nat) {
    && 2 <= n == |ring| && reaped <= |done| <= reaped + n
    && (forall k | 0 <= k < |done| :: done[k].tag == TagOf(n, k))
    && (forall k | 0 <= k < |done| && |done| <= k + n :: ring[Slot(n, k)] == done[k])
    && (forall j | |done| <= j < n :: ring[j].tag == 0)
  }

  /** The device posts one more completion. */
  function Posted(n: nat, ring: seq<Cqe>, k: nat, cid: nat, info: nat): (r: seq<Cqe>)
    requires 2 <= n == |ring|
  {
    SlotStep(n, k);
    ring[Slot(n, k) := Cqe(cid, info, TagOf(n, k))]
  }

  lemma PostedConsistent(n: nat, ring: seq<Cqe>, done: seq<Cqe>, reaped: nat, cid: nat, info: nat)
    requires Consistent(n, ring, done, reaped) && |done| < reaped + n
    ensures Consistent(n, Posted(n, ring, |done|, cid, info), done + [Cqe(cid, info, TagOf(n, |done|))], reaped)
  {
    var ring' := Posted(n, ring, |done|, cid, info);
    var done' := done + [Cqe(cid, info, TagOf(n, |done|))];
    SlotStep(n, |done|);
    forall k | 0 <= k < |done'| && |done'| <= k + n ensures ring'[Slot(n, k)] == done'[k] {
      if k < |done| { SlotsDiffer(n, k, |done|); }
    }
    forall j | |done'| <= j < n ensures ring'[j].tag == 0 {
      SlotSmall(n, |done|);
    }
  }

  /** The test of nvme_cq_get_cqe: the head entry is new exactly when the device has posted more than was read. */
  lemma NewIff(n: nat, ring: seq<Cqe>, done: seq<Cqe>, reaped: nat)
    requires Consistent(n, ring, done, reaped)
    ensures Slot(n, reaped) < n
    ensures ring[Slot(n, reaped)].tag != Lap(n, reaped) % 2 <==> reaped < |done|
    ensures reaped < |done| ==> ring[Slot(n, reaped)] == done[reaped]
  {
    SlotStep(n, reaped);
    if reaped == |done| { OldAtHead(n, ring, done); }
  }

  /** With everything read, the head entry is the one of the previous lap, or was never written. */
  lemma OldAtHead(n: nat, ring: seq<Cqe>, done: seq<Cqe>)
    requires Consistent(n, ring, done, |done|)
    ensures Slot(n, |done|) < n && ring[Slot(n, |done|)].tag == Lap(n, |done|) % 2
  {
    SlotStep(n, |done|);
    if |done| < n {
      SlotSmall(n, |done|);
    } else {
      SlotLap(n, |done| - n);
      assert ring[Slot(n, |done| - n)] == done[|done| - n];
    }
  }

  /** The test in terms of the host's head and phase, and where they go next. */
  lemma HeadIff(n: nat, ring: seq<Cqe>, done: seq<Cqe>, reaped: nat, c: Cursor)
    requires Consistent(n, ring, done, reaped) && n < UINT16 && c == CursorAt(n, reaped)
    ensures c.head < n && c.phase < 2 && (ring[c.head].tag != c.phase <==> reaped < |done|)
    ensures reaped < |done| ==> ring[c.head] == done[reaped] && Consistent(n, ring, done, reaped + 1)
    ensures Advance(n, c) == CursorAt(n, reaped + 1)
  {
    NewIff(n, ring, done, reaped);
    AdvanceFollows(n, reaped);
  }

  /** Where the host really is after `r` completions. */
  function Advanced(n: nat, r: nat): (c: Cursor) {
    if r == 0 then Cursor(0, 0) else Advance(n, Advanced(n, r - 1))
  }

  lemma AdvanceAtLimit(n: nat, r: nat)
    requires n == UINT16
    ensures Advance(n, Cursor(Slot(n, r), 0)) == Cursor(Slot(n, r + 1), 0)
  {
    SlotStep(n, r);
  }

  lemma {:induction false} AdvancedFollows(n: nat, r: nat)
    requires 2 <= n <= UINT16
    ensures Advanced(n, r) == if n < UINT16 then CursorAt(n, r) else Cursor(Slot(n, r), 0)
  {
    if r == 0 {
      SlotSmall(n, 0);
    } else {
      AdvancedFollows(n, r - 1);
      if n < UINT16 { AdvanceFollows(n, r - 1); } else { AdvanceAtLimit(n, r - 1); }
    }
  }

  /**
    What the host makes of that: up to 65535 entries the test finds exactly the unread completions. With 65536
    it is inverted in every second lap: what was read already is taken for new, and what is new overlooked.
   */
  lemma TestFindsIff(n: nat, ring: seq<Cqe>, done: seq<Cqe>, reaped: nat)
    requires Consistent(n, ring, done, reaped) && n <= 65536
    ensures var c := Advanced(n, reaped);
            c.head < n && ((ring[c.head].tag != c.phase <==> reaped < |done|) <==> n < 65536 || Lap(n, reaped) % 2 == 0)
  {
    AdvancedFollows(n, reaped);
    NewIff(n, ring, done, reaped);
    if reaped == |done| { OldAtHead(n, ring, done); }
  }

  // ----- waiting

  function Min(a: nat, b: nat): (m: nat) { if a < b then a else b }

  /** How many polls read something, when `seen[t]` completions are there at poll `t` and `r` were read before. */
  function Reads(r: nat, seen: seq<nat>): (k: nat)
    ensures k <= |seen|
  {
    if seen == [] then 0
    else
      var k := Reads(r, seen[..|seen|-1]);
      if r + k < seen[|seen|-1] then k + 1 else k
  }

  lemma ReadsMore(r: nat, seen: seq<nat>, s: nat)
    ensures Reads(r, seen + [s]) == if r + Reads(r, seen) < s then Reads(r, seen) + 1 else Reads(r, seen)
  {
    assert (seen + [s])[..|seen|] == seen;
  }

  /** Completions that are there from the first poll on are read by the first polls. */
  lemma {:induction false} ReadsAtLeast(r: nat, seen: seq<nat>, k: nat)
    requires forall t | 0 <= t < |seen| :: r + k <= seen[t]
    ensures Reads(r, seen) >= Min(|seen|, k)
  {
    if seen != [] { ReadsAtLeast(r, seen[..|seen|-1], k); }
  }

  /** How many completions were there before poll `t`. */
  function Before(d: nat, seen: seq<nat>, t: nat): (k: nat)
    requires t <= |seen|
  {
    if t == 0 then d else seen[t-1]
  }

  /** `cqes` are the completions from `r` on, in order. */
  ghost predicate InOrder(done: seq<Cqe>, r: nat, cqes: seq<Cqe>) {
    r + |cqes| <= |done| && forall i | 0 <= i < |cqes| :: cqes[i] == done[r+i]
  }

  lemma InOrderMore(was: seq<Cqe>, done: seq<Cqe>, r: nat, cqes: seq<Cqe>)
    requires was <= done && InOrder(was, r, cqes)
    ensures InOrder(done, r, cqes)
    ensures r + |cqes| < |done| ==> InOrder(done, r, cqes + [done[r+|cqes|]])
  {
    forall i | 0 <= i < |cqes| ensures cqes[i] == done[r+i] { assert was[r+i] == done[r+i]; }
  }

  /** At each poll the device has posted what it had, as far as there was room in the ring. */
  ghost predicate Schedule(q: nat, d: nat, r: nat, seen: seq<nat>, news: seq<seq<(nat, nat)>>)
    requires |seen| <= |news|
    decreases |seen|
  {
    var t := |seen| - 1;
    seen == [] || (&& Schedule(q, d, r, seen[..t], news)
                   && seen[t] == Min(Before(d, seen, t) + |news[t]|, r + Reads(r, seen[..t]) + q))
  }

  /** So far: `posted` are there, and `k` were read. */
  ghost predicate Logged(q: nat, d: nat, r: nat, seen: seq<nat>, news: seq<seq<(nat, nat)>>, posted: nat, k: nat) {
    |seen| <= |news| && Schedule(q, d, r, seen, news) && Reads(r, seen) == k && Before(d, seen, |seen|) == posted
  }

  lemma LoggedMore(q: nat, d: nat, r: nat, seen: seq<nat>, news: seq<seq<(nat, nat)>>, posted: nat, k: nat, s: nat)
    requires |seen| < |news| && Logged(q, d, r, seen, news, posted, k) && s == Min(posted + |news[|seen|]|, r + k + q)
    ensures Logged(q, d, r, seen + [s], news, s, if r + k < s then k + 1 else k)
    ensures (seen + [s])[..|seen|] == seen && Reads(r, (seen + [s])[..|seen|]) == k
  {
    assert (seen + [s])[..|seen|] == seen;
    ReadsMore(r, seen, s);
  }

  lemma {:induction false} NeverFewer(q: nat, d: nat, r: nat, seen: seq<nat>, news: seq<seq<(nat, nat)>>)
    requires |seen| <= |news| && Schedule(q, d, r, seen, news) && d <= r + q
    ensures forall t | 0 <= t < |seen| :: d <= seen[t]
  {
    if seen != [] { NeverFewer(q, d, r, seen[..|seen|-1], news); }
  }

  /** What is unread when a wait begins is read by its first polls. */
  lemma WaitReads(q: nat, d: nat, r: nat, seen: seq<nat>, news: seq<seq<(nat, nat)>>)
    requires |seen| <= |news| && Schedule(q, d, r, seen, news) && r <= d <= r + q
    ensures Reads(r, seen) >= Min(|seen|, d - r)
  {
    NeverFewer(q, d, r, seen, news);
    ReadsAtLeast(r, seen, d - r);
  }

  /** If the device has something new before every poll, every poll reads. */
  lemma {:induction false} WaitReadsAll(q: nat, d: nat, r: nat, seen: seq<nat>, news: seq<seq<(nat, nat)>>)
    requires |seen| <= |news| && Schedule(q, d, r, seen, news) && r <= d <= r + q && q > 0
    requires forall t | 0 <= t < |seen| :: news[t] != []
    ensures Reads(r, seen) == |seen| && Before(d, seen, |seen|) >= r + |seen|
  {
    if seen != [] { WaitReadsAll(q, d, r, seen[..|seen|-1], news); }
  }

  // ----- the queue

  class CompletionQueue {
    const qsize: nat
    const mem: array<Cqe>
    var head: nat
    var phase: nat
    var ndone: nat             // how many completions the device has posted
    ghost var done: seq<Cqe>   // all of them
    var reaped: nat            // how many of them the host has read, as the head doorbell tells the device

    ghost predicate Valid()
      reads this, mem
    {
      && 2 <= qsize < UINT16 && mem.Length == qsize
      && Consistent(qsize, mem[..], done, reaped)
      && Cursor(head, phase) == CursorAt(qsize, reaped) && ndone == |done|
    }

    /** __nvme_configure_cq, on zeroed memory; a queue of 65536 entries is set up but cannot be followed. */
    constructor (qsize: nat)
      requires 2 <= qsize <= UINT16
      ensures (Valid() <==> qsize < UINT16) && done == [] && reaped == 0 && this.qsize == qsize && fresh(mem)
    {
      this.qsize := qsize;
      mem := new Cqe[qsize](i => Cqe(0, 0, 0));
      head, phase, ndone, done, reaped := 0, 0, 0, [], 0;
      new;
      SlotSmall(qsize, 0);
    }

    /** A completion arrives from the device. */
    method Arrive(cid: nat, info: nat)
      requires Valid() && |done| < reaped + qsize
      modifies mem, this`done, this`ndone
      ensures Valid() && reaped == old(reaped) && done == old(done) + [Cqe(cid, info, TagOf(qsize, |old(done)|))]
    {
      PostedConsistent(qsize, mem[..], done, reaped, cid, info);
      SlotStep(qsize, ndone);
      mem[Slot(qsize, ndone)] := Cqe(cid, info, TagOf(qsize, ndone));
      done := done + [Cqe(cid, info, TagOf(qsize, ndone))];
      ndone := ndone + 1;
      assert mem[..] == Posted(qsize, old(mem[..]), |old(done)|, cid, info);
    }

    /** nvme_cq_get_cqe: the next unread completion, if the device has posted one. */
    method GetCqe() returns (found: bool, cqe: Cqe)
      requires Valid()
      modifies this`head, this`phase, this`reaped
      ensures Valid()
      ensures found <==> old(reaped) < |done|
      ensures found ==> cqe == done[old(reaped)] && reaped == old(reaped) + 1
      ensures !found ==> reaped == old(reaped) && head == old(head) && phase == old(phase)
    {
      HeadIff(qsize, mem[..], done, reaped, Cursor(head, phase));
      cqe := mem[head];
      if cqe.tag == phase {
        return false, cqe;
      }
      head := (head + 1) % UINT16;
      if head == qsize {
        head := 0;
        phase := 1 - phase;
      }
      reaped := reaped + 1;
      return true, cqe;
    }

    /**
      nvme_cq_wait_cqes, and as long as the time is not up nvme_cq_get_cqes: polls until `n`
      completions were read. `news[t]` is what the device has for the host before poll `t`, `seen[t]` how
      many completions are there by then, and the time is up after |news| polls. The loop tests at its
      end, so it polls once even for n < 1.
     */
    method WaitCqes(n: int, news: seq<seq<(nat, nat)>>) returns (cqes: seq<Cqe>, polls: nat, ghost seen: seq<nat>)
      requires Valid() && |news| > 0
      modifies this, mem
      ensures Valid() && old(done) <= done && HasRead(old(reaped), cqes)
      ensures |cqes| <= (if n < 1 then 1 else n) && |cqes| <= polls
      ensures |cqes| < n ==> polls == |news|
      ensures 1 <= polls == |seen| && Logged(qsize, |old(done)|, old(reaped), seen, news, |done|, |cqes|)
      ensures polls > 1 ==> Reads(old(reaped), seen[..polls-1]) < n
    {
      cqes, polls, seen := [], 0, [];
      ghost var d, r := |done|, reaped;
      var more := true;
      while more
        invariant Valid() && old(done) <= done && HasRead(r, cqes)
        invariant polls == |seen| && |cqes| <= polls && Logged(qsize, d, r, seen, news, |done|, |cqes|)
        invariant if more then polls < |news| && (polls > 0 ==> |cqes| < n)
                  else polls > 0 && |cqes| <= (if n < 1 then 1 else n) && (|cqes| < n ==> polls == |news|)
        invariant polls > 1 ==> Reads(r, seen[..polls-1]) < n
        decreases |news| - polls, more
      {
        cqes, seen := Poll(cqes, news, polls, d, r, seen);
        polls := polls + 1;
        more := |cqes| < n && polls < |news|;
      }
    }

    /** `cqes` are what was read since `r` completions had been. */
    ghost predicate HasRead(r: nat, cqes: seq<Cqe>)
      reads this
    {
      reaped == r + |cqes| && InOrder(done, r, cqes)
    }

    method Poll(cqes: seq<Cqe>, news: seq<seq<(nat, nat)>>, polls: nat, ghost d: nat, ghost r: nat, ghost seen: seq<nat>)
      returns (cqes': seq<Cqe>, ghost seen': seq<nat>)
      requires Valid() && HasRead(r, cqes) && polls == |seen| < |news| && Logged(qsize, d, r, seen, news, |done|, |cqes|)
      modifies this, mem
      ensures Valid() && old(done) <= done && HasRead(r, cqes') && |cqes| <= |cqes'| <= |cqes| + 1
      ensures |seen'| == polls + 1 && Logged(qsize, d, r, seen', news, |done|, |cqes'|) && Reads(r, seen'[..polls]) == |cqes|
    {
      cqes' := ReadOne(cqes, news[polls], r);
      LoggedMore(qsize, d, r, seen, news, |old(done)|, |cqes|, |done|);
      seen' := seen + [|done|];
    }

    method ReadOne(cqes: seq<Cqe>, batch: seq<(nat, nat)>, ghost r: nat) returns (cqes': seq<Cqe>)
      requires Valid() && HasRead(r, cqes)
      modifies this, mem
      ensures Valid() && old(done) <= done && |done| == Min(|old(done)| + |batch|, r + |cqes| + qsize)
      ensures HasRead(r, cqes') && |cqes'| == if r + |cqes| < |done| then |cqes| + 1 else |cqes|
    {
      ArriveSome(batch);
      InOrderMore(old(done), done, r, cqes);
      var found, cqe := GetCqe();
      if !found {
        return cqes;
      }
      cqes' := cqes + [cqe];
      assert cqes' == cqes + [done[r+|cqes|]];
    }

    /** A device posts what it has, as long as there is room. */
    method ArriveSome(batch: seq<(nat, nat)>)
      requires Valid()
      modifies mem, this`done, this`ndone
      ensures Valid() && reaped == old(reaped) && old(done) <= done
      ensures |done| == Min(|old(done)| + |batch|, reaped + qsize)
      ensures forall i | |old(done)| <= i < |done| ::
                done[i] == Cqe(batch[i-|old(done)|].0, batch[i-|old(done)|].1, TagOf(qsize, i))
    {
      for i := 0 to |batch|
        invariant Valid() && reaped == old(reaped) && old(done) <= done && |done| == |old(done)| + i
        invariant forall j | |old(done)| <= j < |done| ::
                    done[j] == Cqe(batch[j-|old(done)|].0, batch[j-|old(done)|].1, TagOf(qsize, j))
      {
        if ndone == reaped + qsize {
          break;
        }
        Arrive(batch[i].0, batch[i].1);
      }
    }
  }
}
