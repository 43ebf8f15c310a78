/**
  A submission queue with its completion queue and request trackers, used by a host that gives
  every command in flight a tracker of its own, and a device that fetches commands, executes them
  in any order and posts completions: sections 4.1 and 4.6 of NVM Express 1.4, with the host side
  of include/vfn/nvme/queue.h and include/vfn/nvme/rq.h.
 */
module QueuePairs {
  import opened Common
  import opened Rings
  import opened CompletionQueues
  import opened Trackers

  // a submission queue entry; only the command identifier matters here
  datatype Cmd = Cmd(cid: nat, payload: nat)

  /** Where a tracker is on its way around. */
  datatype Place = Free | Owned | Submitted | Executing | Completed

  datatype Pair = Pair(
    n: nat,              // qsize
    // host
    sq: seq<Cmd>, tail: nat, ptail: nat,
    cq: seq<Cqe>, cursor: Cursor,
    place: seq<Place>,   // by command identifier
    // device
    doorbell: nat,       // the tail it was last told
    dhead: nat, dtail: nat,
    // history
    posted: seq<Cmd>, rung: nat, fetched: nat,
    done: seq<Cqe>, reaped: nat
  )

  // ----- steps

  datatype Action =
    | Acquire(cid: nat) | Release(cid: nat)
    | Post(cid: nat, payload: nat) | UpdateTail
    | Fetch | Complete(cid: nat, info: nat)
    | Reap

  /** nvme_sq_post */
  function PostSq(sq: seq<Cmd>, n: nat, tail: nat, cmd: Cmd): (r: (seq<Cmd>, nat))
    requires tail < |sq|
  {
    (sq[tail := cmd], Step(n, tail))
  }

  ghost predicate Next(p: Pair, act: Action, p': Pair) {
    match act
    case Acquire(cid) => cid < |p.place| && p.place[cid] == Free && p' == p.(place := p.place[cid := Owned])
    case Release(cid) => cid < |p.place| && p.place[cid] == Owned && p' == p.(place := p.place[cid := Free])
    case Post(cid, payload) =>
      && cid < |p.place| && p.place[cid] == Owned && p.tail < |p.sq|
      && var (sq, tail) := PostSq(p.sq, p.n, p.tail, Cmd(cid, payload));
         p' == p.(sq := sq, tail := tail, place := p.place[cid := Submitted], posted := p.posted + [Cmd(cid, payload)])
    case UpdateTail =>
      p' == if p.tail == p.ptail then p else p.(doorbell := p.tail, ptail := p.tail, rung := |p.posted|)
    case Fetch =>
      && p.dhead != p.doorbell && p.dhead < |p.sq| && p.sq[p.dhead].cid < |p.place|
      && p' == p.(dhead := Step(p.n, p.dhead), fetched := p.fetched + 1, place := p.place[p.sq[p.dhead].cid := Executing])
    case Complete(cid, info) =>
      && cid < |p.place| && p.place[cid] == Executing && 2 <= p.n == |p.cq|
      && var cqe := Cqe(cid, info, TagOf(p.n, |p.done|));
         p' == p.(cq := Posted(p.n, p.cq, |p.done|, cid, info), dtail := Step(p.n, p.dtail),
                  place := p.place[cid := Completed], done := p.done + [cqe])
    case Reap =>
      && p.cursor.head < |p.cq|
      && var cqe := p.cq[p.cursor.head];
         if cqe.tag == p.cursor.phase then p' == p
         else cqe.cid < |p.place|
              && p' == p.(cursor := Advance(p.n, p.cursor), reaped := p.reaped + 1, place := p.place[cqe.cid := Owned])
  }

  // ----- the invariant

  /** The submission ring holds what was posted and not yet fetched. */
  ghost predicate SqOk(p: Pair) {
    && |p.sq| == p.n && p.fetched <= p.rung <= |p.posted| <= p.fetched + p.n - 1
    && p.tail == Slot(p.n, |p.posted|) && p.ptail == p.doorbell == Slot(p.n, p.rung) && p.dhead == Slot(p.n, p.fetched)
    && (forall k | p.fetched <= k < |p.posted| :: p.sq[Slot(p.n, k)] == p.posted[k])
  }

  ghost predicate CqOk(p: Pair) {
    && Consistent(p.n, p.cq, p.done, p.reaped) && |p.done| <= p.reaped + p.n - 1
    && p.cursor == CursorAt(p.n, p.reaped) && p.dtail == Slot(p.n, |p.done|)
  }

  /** The commands waiting in each ring are exactly the trackers on their way there, each one once. */
  ghost predicate PlacesOk(p: Pair) {
    && |p.place| == p.n - 1 && p.fetched <= |p.posted| && p.reaped <= |p.done|
    && (forall k | p.fetched <= k < |p.posted| :: p.posted[k].cid < |p.place| && p.place[p.posted[k].cid] == Submitted)
    && (forall j, k | p.fetched <= j < k < |p.posted| :: p.posted[j].cid != p.posted[k].cid)
    && (forall k | p.reaped <= k < |p.done| :: p.done[k].cid < |p.place| && p.place[p.done[k].cid] == Completed)
    && (forall j, k | p.reaped <= j < k < |p.done| :: p.done[j].cid != p.done[k].cid)
  }

  ghost predicate Inv(p: Pair) {
    2 <= p.n < UINT16 && SqOk(p) && CqOk(p) && PlacesOk(p)
  }

  ghost predicate Init(p: Pair) {
    && 2 <= p.n < UINT16 && |p.sq| == |p.cq| == p.n && |p.place| == p.n - 1
    && (forall j | 0 <= j < p.n :: p.cq[j].tag == 0) && (forall c | 0 <= c < p.n - 1 :: p.place[c] == Free)
    && p.tail == p.ptail == p.doorbell == p.dhead == p.dtail == 0 && p.cursor == Cursor(0, 0)
    && p.posted == [] && p.done == [] && p.rung == p.fetched == p.reaped == 0
  }

  lemma InitInv(p: Pair)
    requires Init(p)
    ensures Inv(p)
  {
    SlotSmall(p.n, 0);
  }

  // ----- there are only n - 1 trackers

  ghost function Cids(p: Pair): (s: seq<nat>)
    requires p.fetched <= |p.posted| && p.reaped <= |p.done|
  {
    seq<nat>(|p.posted| - p.fetched, i requires 0 <= i < |p.posted| - p.fetched => p.posted[p.fetched + i].cid)
    + seq<nat>(|p.done| - p.reaped, i requires 0 <= i < |p.done| - p.reaped => p.done[p.reaped + i].cid)
  }

  /** What waits in the two rings never exceeds the trackers, less one for any that is elsewhere. */
  lemma RingsFit(p: Pair, other: nat)
    requires PlacesOk(p) && p.n >= 2 && other < |p.place| && p.place[other] != Submitted && p.place[other] != Completed
    ensures (|p.posted| - p.fetched) + (|p.done| - p.reaped) <= p.n - 2
  {
    var s := Cids(p);
    var t := s + [other];
    assert forall i | 0 <= i < |s| :: s[i] < |p.place| && (p.place[s[i]] == Submitted || p.place[s[i]] == Completed);
    assert Distinct(s);
    Pigeonhole(t, p.n - 1);
  }

  // ----- every step keeps the invariant

  /** A tracker of the host's own changes hands without touching either ring. */
  lemma MovedInv(p: Pair, cid: nat, to: Place)
    requires Inv(p) && cid < |p.place| && to != Submitted && to != Completed
    requires p.place[cid] != Submitted && p.place[cid] != Completed
    ensures Inv(p.(place := p.place[cid := to]))
  {
  }

  lemma PostInv(p: Pair, cid: nat, payload: nat, p': Pair)
    requires Inv(p) && Next(p, Post(cid, payload), p')
    ensures Inv(p')
  {
    RingsFit(p, cid);
    PostRing(p, cid, payload, p');
    PostPlaces(p, cid, payload, p');
  }

  lemma PostRing(p: Pair, cid: nat, payload: nat, p': Pair)
    requires SqOk(p) && Next(p, Post(cid, payload), p') && p.n >= 2 && |p.posted| - p.fetched <= p.n - 2
    ensures SqOk(p')
  {
    SlotStep(p.n, |p.posted|);
    forall k | p'.fetched <= k < |p'.posted| ensures p'.sq[Slot(p.n, k)] == p'.posted[k] {
      SlotStep(p.n, k);
      if k < |p.posted| { SlotsDiffer(p.n, k, |p.posted|); }
    }
  }

  lemma PostPlaces(p: Pair, cid: nat, payload: nat, p': Pair)
    requires PlacesOk(p) && Next(p, Post(cid, payload), p')
    ensures PlacesOk(p')
  {
  }

  lemma UpdateTailInv(p: Pair, p': Pair)
    requires Inv(p) && Next(p, UpdateTail, p')
    ensures Inv(p')
  {
  }

  /** The device finds an entry to fetch exactly when one was announced and not fetched, and it is the next one. */
  lemma FetchFinds(p: Pair)
    requires Inv(p)
    ensures p.dhead != p.doorbell <==> p.fetched < p.rung
    ensures p.fetched < p.rung ==> p.dhead < p.n && p.sq[p.dhead] == p.posted[p.fetched]
  {
    SlotStep(p.n, p.fetched);
    if p.fetched < p.rung { SlotsDiffer(p.n, p.fetched, p.rung); }
  }

  lemma FetchInv(p: Pair, p': Pair)
    requires Inv(p) && Next(p, Fetch, p')
    ensures Inv(p')
  {
    FetchFinds(p);
    SlotStep(p.n, p.fetched);
    FetchPlaces(p, p');
  }

  lemma FetchPlaces(p: Pair, p': Pair)
    requires PlacesOk(p) && p.fetched < |p.posted| && p'.posted == p.posted && p'.done == p.done && p'.n == p.n
    requires p'.fetched == p.fetched + 1 && p'.reaped == p.reaped && p'.place == p.place[p.posted[p.fetched].cid := Executing]
    ensures PlacesOk(p')
  {
  }

  lemma CompleteInv(p: Pair, cid: nat, info: nat, p': Pair)
    requires Inv(p) && Next(p, Complete(cid, info), p')
    ensures Inv(p')
  {
    RingsFit(p, cid);
    CompleteRing(p, cid, info, p');
    CompletePlaces(p, cid, info, p');
  }

  lemma CompleteRing(p: Pair, cid: nat, info: nat, p': Pair)
    requires CqOk(p) && Next(p, Complete(cid, info), p') && |p.done| - p.reaped <= p.n - 2
    ensures CqOk(p')
  {
    PostedConsistent(p.n, p.cq, p.done, p.reaped, cid, info);
    SlotStep(p.n, |p.done|);
  }

  lemma CompletePlaces(p: Pair, cid: nat, info: nat, p': Pair)
    requires PlacesOk(p) && Next(p, Complete(cid, info), p')
    ensures PlacesOk(p')
  {
  }

  /** Reaping reads the completions in the order they were posted, each one once, and only those. */
  lemma ReapFinds(p: Pair)
    requires Inv(p)
    ensures p.cursor.head < p.n
    ensures p.cq[p.cursor.head].tag != p.cursor.phase <==> p.reaped < |p.done|
    ensures p.reaped < |p.done| ==> p.cq[p.cursor.head] == p.done[p.reaped]
  {
    NewIff(p.n, p.cq, p.done, p.reaped);
  }

  lemma ReapInv(p: Pair, p': Pair)
    requires Inv(p) && Next(p, Reap, p')
    ensures Inv(p')
  {
    ReapFinds(p);
    if p.reaped < |p.done| {
      AdvanceFollows(p.n, p.reaped);
      assert CqOk(p');
      ReapPlaces(p, p');
    }
  }

  lemma ReapPlaces(p: Pair, p': Pair)
    requires PlacesOk(p) && p.reaped < |p.done| && p'.posted == p.posted && p'.done == p.done && p'.n == p.n
    requires p'.reaped == p.reaped + 1 && p'.fetched == p.fetched && p'.place == p.place[p.done[p.reaped].cid := Owned]
    ensures PlacesOk(p')
  {
  }

  lemma StepInv(p: Pair, act: Action, p': Pair)
    requires Inv(p) && Next(p, act, p')
    ensures Inv(p')
  {
    match act
    case Acquire(cid) => MovedInv(p, cid, Owned);
    case Release(cid) => MovedInv(p, cid, Free);
    case Post(cid, payload) => PostInv(p, cid, payload, p');
    case UpdateTail => UpdateTailInv(p, p');
    case Fetch => FetchInv(p, p');
    case Complete(cid, info) => CompleteInv(p, cid, info, p');
    case Reap => ReapInv(p, p');
  }

  // ----- runs

  ghost predicate Run(ps: seq<Pair>, acts: seq<Action>) {
    |ps| == |acts| + 1 && Init(ps[0]) && forall k | 0 <= k < |acts| :: Next(ps[k], acts[k], ps[k+1])
  }

  /** Over every interleaving of host and device, every state satisfies the invariant. */
  lemma {:induction false} RunInv(ps: seq<Pair>, acts: seq<Action>)
    requires Run(ps, acts)
    ensures forall k | 0 <= k < |ps| :: Inv(ps[k])
  {
    var n := |acts|;
    if n == 0 {
      InitInv(ps[0]);
    } else {
      RunInv(ps[..n], acts[..n-1]);
      assert ps[..n][n-1] == ps[n-1] && Inv(ps[n-1]);
      assert Next(ps[n-1], acts[n-1], ps[n-1+1]);
      StepInv(ps[n-1], acts[n-1], ps[n]);
      forall k | 0 <= k < |ps| ensures Inv(ps[k]) {
        if k < n { assert ps[k] == ps[..n][k]; }
      }
    }
  }

  // ----- no request is lost

  ghost predicate InSq(p: Pair, cid: nat) {
    exists k :: p.fetched <= k < |p.posted| && p.posted[k].cid == cid
  }

  ghost predicate InCq(p: Pair, cid: nat) {
    exists k :: p.reaped <= k < |p.done| && p.done[k].cid == cid
  }

  /** A tracker on its way has an entry waiting in the ring it is on its way through. */
  ghost predicate NoneLost(p: Pair) {
    forall c | 0 <= c < |p.place| :: (p.place[c] == Submitted ==> InSq(p, c)) && (p.place[c] == Completed ==> InCq(p, c))
  }

  lemma PostNoneLost(p: Pair, cid: nat, payload: nat, p': Pair)
    requires Inv(p) && NoneLost(p) && Next(p, Post(cid, payload), p')
    ensures NoneLost(p')
  {
    forall c | 0 <= c < |p'.place|
      ensures (p'.place[c] == Submitted ==> InSq(p', c)) && (p'.place[c] == Completed ==> InCq(p', c))
    {
      if c == cid {
        assert p'.posted[|p.posted|].cid == c;
      } else if p.place[c] == Submitted {
        var k :| p.fetched <= k < |p.posted| && p.posted[k].cid == c;
        assert p'.posted[k].cid == c;
      } else if p.place[c] == Completed {
        assert InCq(p, c);
      }
    }
  }

  lemma FetchNoneLost(p: Pair, p': Pair)
    requires NoneLost(p) && p.fetched < |p.posted| && p.posted[p.fetched].cid < |p.place|
    requires p'.posted == p.posted && p'.done == p.done && p'.fetched == p.fetched + 1 && p'.reaped == p.reaped
    requires p'.place == p.place[p.posted[p.fetched].cid := Executing]
    ensures NoneLost(p')
  {
    forall c | 0 <= c < |p'.place|
      ensures (p'.place[c] == Submitted ==> InSq(p', c)) && (p'.place[c] == Completed ==> InCq(p', c))
    {
      if p'.place[c] == Submitted {
        var k :| p.fetched <= k < |p.posted| && p.posted[k].cid == c;
        assert p'.posted[k].cid == c;
      } else if p'.place[c] == Completed {
        assert InCq(p, c);
      }
    }
  }

  lemma CompleteNoneLost(p: Pair, cid: nat, info: nat, p': Pair)
    requires Inv(p) && NoneLost(p) && Next(p, Complete(cid, info), p')
    ensures NoneLost(p')
  {
    forall c | 0 <= c < |p'.place|
      ensures (p'.place[c] == Submitted ==> InSq(p', c)) && (p'.place[c] == Completed ==> InCq(p', c))
    {
      if c == cid {
        assert p'.done[|p.done|].cid == c;
      } else if p.place[c] == Completed {
        var k :| p.reaped <= k < |p.done| && p.done[k].cid == c;
        assert p'.done[k].cid == c;
      } else if p.place[c] == Submitted {
        assert InSq(p, c);
      }
    }
  }

  lemma ReapNoneLost(p: Pair, p': Pair)
    requires NoneLost(p) && p.reaped < |p.done| && p.done[p.reaped].cid < |p.place|
    requires p'.posted == p.posted && p'.done == p.done && p'.fetched == p.fetched && p'.reaped == p.reaped + 1
    requires p'.place == p.place[p.done[p.reaped].cid := Owned]
    ensures NoneLost(p')
  {
    forall c | 0 <= c < |p'.place|
      ensures (p'.place[c] == Submitted ==> InSq(p', c)) && (p'.place[c] == Completed ==> InCq(p', c))
    {
      if p'.place[c] == Completed {
        var k :| p.reaped <= k < |p.done| && p.done[k].cid == c;
        assert p'.done[k].cid == c;
      } else if p'.place[c] == Submitted {
        assert InSq(p, c);
      }
    }
  }

  lemma OtherNoneLost(p: Pair, act: Action, p': Pair)
    requires Inv(p) && NoneLost(p) && Next(p, act, p') && (act.Acquire? || act.Release? || act.UpdateTail?)
    ensures NoneLost(p')
  {
    forall c | 0 <= c < |p'.place|
      ensures (p'.place[c] == Submitted ==> InSq(p', c)) && (p'.place[c] == Completed ==> InCq(p', c))
    {
      assert p'.place[c] == Submitted ==> InSq(p, c);
      assert p'.place[c] == Completed ==> InCq(p, c);
    }
  }

  lemma StepNoneLost(p: Pair, act: Action, p': Pair)
    requires Inv(p) && NoneLost(p) && Next(p, act, p')
    ensures NoneLost(p')
  {
    match act
    case Post(cid, payload) => PostNoneLost(p, cid, payload, p');
    case Fetch =>
      FetchFinds(p);
      FetchNoneLost(p, p');
    case Complete(cid, info) => CompleteNoneLost(p, cid, info, p');
    case Reap =>
      ReapFinds(p);
      if p.reaped < |p.done| { ReapNoneLost(p, p'); }
    case _ => OtherNoneLost(p, act, p');
  }

  lemma RunAt(ps: seq<Pair>, acts: seq<Action>, k: nat)
    requires Run(ps, acts) && k < |acts|
    ensures Inv(ps[k]) && Next(ps[k], acts[k], ps[k+1])
  {
    RunInv(ps, acts);
  }

  lemma {:induction false} RunNoneLostUpTo(ps: seq<Pair>, acts: seq<Action>, n: nat)
    requires Run(ps, acts) && n <= |acts|
    ensures NoneLost(ps[n])
  {
    if n > 0 {
      RunNoneLostUpTo(ps, acts, n - 1);
      RunAt(ps, acts, n - 1);
      StepNoneLost(ps[n-1], acts[n-1], ps[n]);
    }
  }

  /** In every state of a run, the trackers on their way through a ring are exactly those with an entry waiting there. */
  lemma RunNoneLost(ps: seq<Pair>, acts: seq<Action>, n: nat, cid: nat)
    requires Run(ps, acts) && n < |ps| && cid < |ps[n].place|
    ensures ps[n].place[cid] == Submitted <==> InSq(ps[n], cid)
    ensures ps[n].place[cid] == Completed <==> InCq(ps[n], cid)
  {
    RunNoneLostUpTo(ps, acts, n);
    RunInv(ps, acts);
    assert Inv(ps[n]);
  }

  /** After the doorbell the device finds an entry exactly if any posted one is left. */
  lemma UpdateTailAnnounces(p: Pair, p': Pair)
    requires Inv(p) && Next(p, UpdateTail, p')
    ensures p'.dhead != p'.doorbell <==> p'.fetched < |p'.posted|
  {
    TailUnchangedIff(p);
    StepInv(p, UpdateTail, p');
    FetchFinds(p');
  }

  /** With idle rings a request makes it all the way around, and its tracker is free again. */
  lemma RoundTrip(p: Pair, cid: nat, payload: nat, info: nat)
    returns (p1: Pair, p2: Pair, p3: Pair, p4: Pair, p5: Pair, p6: Pair, q: Pair)
    requires Inv(p) && cid < |p.place| && p.place[cid] == Free && p.fetched == |p.posted| && p.reaped == |p.done|
    ensures Next(p, Acquire(cid), p1) && Next(p1, Post(cid, payload), p2) && Next(p2, UpdateTail, p3)
    ensures Next(p3, Fetch, p4) && Next(p4, Complete(cid, info), p5) && Next(p5, Reap, p6) && Next(p6, Release(cid), q)
    ensures q.place == p.place && q.posted == p.posted + [Cmd(cid, payload)] && q.fetched == |q.posted|
    ensures q.done == p.done + [Cqe(cid, info, TagOf(p.n, |p.done|))] && q.reaped == |q.done|
  {
    p1, p2, p3, p4, p5 := Answered(p, cid, payload, info);
    p6, q := Returned(p5, cid, info);
    assert p.place[cid := Completed][cid := Free] == p.place;
  }

  lemma Answered(p: Pair, cid: nat, payload: nat, info: nat) returns (p1: Pair, p2: Pair, p3: Pair, p4: Pair, p5: Pair)
    requires Inv(p) && cid < |p.place| && p.place[cid] == Free && p.fetched == |p.posted|
    ensures Next(p, Acquire(cid), p1) && Next(p1, Post(cid, payload), p2) && Next(p2, UpdateTail, p3)
    ensures Next(p3, Fetch, p4) && Next(p4, Complete(cid, info), p5) && Inv(p5)
    ensures p5.place == p.place[cid := Completed] && p5.posted == p.posted + [Cmd(cid, payload)] && p5.fetched == |p5.posted|
    ensures p5.done == p.done + [Cqe(cid, info, TagOf(p.n, |p.done|))] && p5.reaped == p.reaped
  {
    p1, p2, p3 := Announced(p, cid, payload);
    p4, p5 := Executed(p3, cid, payload, info);
    assert p.place[cid := Submitted][cid := Completed] == p.place[cid := Completed];
  }

  lemma Announced(p: Pair, cid: nat, payload: nat) returns (p1: Pair, p2: Pair, p3: Pair)
    requires Inv(p) && cid < |p.place| && p.place[cid] == Free && p.fetched == |p.posted|
    ensures Next(p, Acquire(cid), p1) && Next(p1, Post(cid, payload), p2) && Next(p2, UpdateTail, p3) && Inv(p3)
    ensures p3.place == p.place[cid := Submitted] && p3.posted == p.posted + [Cmd(cid, payload)] && p3.fetched == p.fetched
    ensures p3.rung == |p3.posted| && p3.done == p.done && p3.reaped == p.reaped && p3.n == p.n
  {
    p1 := p.(place := p.place[cid := Owned]);
    StepInv(p, Acquire(cid), p1);
    SlotStep(p.n, |p.posted|);
    var (sq, tail) := PostSq(p1.sq, p1.n, p1.tail, Cmd(cid, payload));
    p2 := p1.(sq := sq, tail := tail, place := p1.place[cid := Submitted], posted := p1.posted + [Cmd(cid, payload)]);
    StepInv(p1, Post(cid, payload), p2);
    TailUnchangedIff(p2);
    p3 := p2.(doorbell := p2.tail, ptail := p2.tail, rung := |p2.posted|);
    StepInv(p2, UpdateTail, p3);
  }

  lemma Executed(p: Pair, cid: nat, payload: nat, info: nat) returns (p1: Pair, p2: Pair)
    requires Inv(p) && p.fetched + 1 == p.rung == |p.posted| && p.posted[p.fetched] == Cmd(cid, payload) && cid < |p.place|
    ensures Next(p, Fetch, p1) && Next(p1, Complete(cid, info), p2) && Inv(p2)
    ensures p2.place == p.place[cid := Completed] && p2.done == p.done + [Cqe(cid, info, TagOf(p.n, |p.done|))]
    ensures p2.posted == p.posted && p2.fetched == p.fetched + 1 && p2.reaped == p.reaped && p2.n == p.n
  {
    FetchFinds(p);
    p1 := p.(dhead := Rings.Step(p.n, p.dhead), fetched := p.fetched + 1, place := p.place[cid := Executing]);
    StepInv(p, Fetch, p1);
    p2 := p1.(cq := Posted(p.n, p1.cq, |p1.done|, cid, info), dtail := Rings.Step(p.n, p1.dtail),
              place := p1.place[cid := Completed], done := p1.done + [Cqe(cid, info, TagOf(p.n, |p1.done|))]);
    StepInv(p1, Complete(cid, info), p2);
  }

  lemma Returned(p: Pair, cid: nat, info: nat) returns (p1: Pair, p2: Pair)
    requires Inv(p) && p.reaped + 1 == |p.done| && p.done[p.reaped].cid == cid < |p.place|
    ensures Next(p, Reap, p1) && Next(p1, Release(cid), p2)
    ensures p2.place == p.place[cid := Free] && p2.done == p.done && p2.reaped == |p2.done|
    ensures p2.posted == p.posted && p2.fetched == p.fetched
  {
    ReapFinds(p);
    p1 := p.(cursor := Advance(p.n, p.cursor), reaped := p.reaped + 1, place := p.place[cid := Owned]);
    p2 := p1.(place := p1.place[cid := Free]);
  }

  // ----- what the invariant means for the host

  /** A host that owns a tracker may post: the entry at the tail is not one the device has yet to fetch. */
  lemma PostOverwritesNothing(p: Pair, cid: nat)
    requires Inv(p) && cid < |p.place| && p.place[cid] == Owned
    ensures forall k | p.fetched <= k < |p.posted| :: Slot(p.n, k) != p.tail
  {
    RingsFit(p, cid);
    forall k | p.fetched <= k < |p.posted| ensures Slot(p.n, k) != p.tail { SlotsDiffer(p.n, k, |p.posted|); }
  }

  /** The doorbell is skipped exactly when nothing was posted since it was last written. */
  lemma TailUnchangedIff(p: Pair)
    requires Inv(p)
    ensures p.tail == p.ptail <==> p.rung == |p.posted|
  {
    if p.rung < |p.posted| { SlotsDiffer(p.n, p.rung, |p.posted|); }
  }

  /** A device that has executed a command may post its completion: no unread entry is in the way. */
  lemma CompleteOverwritesNothing(p: Pair, cid: nat)
    requires Inv(p) && cid < |p.place| && p.place[cid] == Executing
    ensures forall k | p.reaped <= k < |p.done| :: Slot(p.n, k) != p.dtail
  {
    RingsFit(p, cid);
    forall k | p.reaped <= k < |p.done| ensures Slot(p.n, k) != p.dtail { SlotsDiffer(p.n, k, |p.done|); }
  }

  /** A completion names the one request in flight with that identifier, which its tracker leads back to. */
  lemma CidIdentifies(p: Pair, k: nat)
    requires Inv(p) && p.reaped <= k < |p.done|
    ensures p.done[k].cid < p.n - 1 && p.place[p.done[k].cid] == Completed
    ensures FromCqe(p.n, p.done[k].cid) == Some(p.done[k].cid)
    ensures forall j | p.reaped <= j < |p.done| && p.done[j].cid == p.done[k].cid :: j == k
    ensures forall j | p.fetched <= j < |p.posted| :: p.posted[j].cid != p.done[k].cid
  {
  }
}
