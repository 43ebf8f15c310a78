/**
  The host's end of a submission queue: nvme_sq_post and nvme_sq_update_tail of
  include/vfn/nvme/queue.h, as the steps of QueuePairs and Doorbells take them.
 */
module SubmissionQueues {
  import opened Common
  import opened Rings
  import opened QueuePairs
  import opened Doorbells

  /** The 16-bit increment and the reset at the end of the ring, for every ring up to 65536 entries. */
  lemma TailStep(n: nat, k: nat, next: nat)
    requires 2 <= n <= UINT16 && next == (Slot(n, k) + 1) % UINT16
    ensures Slot(n, k) < n
    ensures Slot(n, k + 1) == (if next == n then 0 else next) == Rings.Step(n, Slot(n, k))
  {
    SlotStep(n, k);
  }

  class SubmissionQueue {
    const qsize: nat
    const mem: array<Cmd>
    var tail: nat
    var ptail: nat
    var register: nat        // the doorbell register, as last written
    const dbbuf: Dbbuf?
    ghost var posted: nat    // how many entries were posted
    ghost var rung: nat      // how many of them the last update announced

    ghost predicate Valid()
      reads this, mem, dbbuf
    {
      && 2 <= qsize <= UINT16 && mem.Length == qsize
      && rung <= posted && tail == Slot(qsize, posted) && ptail == Slot(qsize, rung)
      && (dbbuf != null ==> dbbuf.doorbell == ptail && dbbuf.eventidx < UINT16)
    }

    /** The queue of nvme_configure_sq: zeroed memory, nothing posted. */
    constructor (n: nat, zero: Cmd, shadow: Dbbuf?)
      requires 2 <= n <= UINT16
      requires shadow != null ==> shadow.doorbell == 0 && shadow.eventidx < UINT16
      ensures Valid() && qsize == n && dbbuf == shadow && posted == 0 && rung == 0 && fresh(mem)
    {
      qsize, tail, ptail, register := n, 0, 0, 0;
      mem := new Cmd[n](_ => zero);
      dbbuf := shadow;
      posted, rung := 0, 0;
      new;
      SlotSmall(n, 0);
    }

    /** nvme_sq_post */
    method Post(cmd: Cmd)
      requires Valid()
      modifies this`tail, this`posted, mem
      ensures Valid() && posted == old(posted) + 1
      ensures old(tail) < qsize && (mem[..], tail) == PostSq(old(mem[..]), qsize, old(tail), cmd)
    {
      var next := (tail + 1) % UINT16;
      TailStep(qsize, posted, next);
      mem[tail] := cmd;
      tail := next;
      if tail == qsize {
        tail := 0;
      }
      posted := posted + 1;
    }

    /** nvme_sq_update_tail: says whether the register was written. */
    method UpdateTail() returns (written: bool)
      requires Valid() && posted < rung + qsize
      modifies this`ptail, this`register, this`rung, dbbuf
      ensures Valid() && rung == posted
      ensures written <==> old(rung) < posted
                           && (dbbuf == null || OnTheWay(Slot(qsize, old(rung)), dbbuf.eventidx, Slot(qsize, posted)))
      ensures dbbuf != null ==> dbbuf.eventidx == old(dbbuf.eventidx)
      ensures register == if written then tail else old(register)
    {
      SlotStep(qsize, posted);
      SlotStep(qsize, rung);
      if rung < posted { SlotsDiffer(qsize, rung, posted); }
      if tail == ptail {
        return false;
      }
      written := true;
      if dbbuf != null {
        written := dbbuf.TryDbbuf(tail);
      }
      if written {
        register := tail;
      }
      ptail := tail;
      rung := posted;
    }
  }
}
