/**
  nvme_rq_acquire_atomic and nvme_rq_release_atomic of include/vfn/nvme/rq.h: any number of
  threads push and pop the tracker stack with compare-and-swap, one memory access at a time.
 */
module TrackersAtomic {
  import opened Common
  import opened Rings
  import opened Trackers

  /** Where a thread is. */
  datatype Pc =
    | Idle
    | Releasing(r: nat)           // about to load `top` into the tracker's link
    | Pushing(r: nat)             // about to compare-and-swap `top` from that link to the tracker
    | Popping(rq: nat)            // has seen `rq` on top, about to read its link
    | Swapping(rq: nat, nx: int)  // about to compare-and-swap `top` from `rq` to that link

  const FREE: int := -1

  /** `owner` tells which thread holds a tracker, or that none does. */
  datatype State = State(top: int, next: seq<int>, owner: seq<int>, pcs: seq<Pc>)

  predicate InPop(pc: Pc) { pc.Popping? || pc.Swapping? }

  // ----- steps

  datatype Action =
    | Release(r: nat) | Load | TryPush
    | Acquire | ReadNext | TryPop
    | Give(r: nat, to: nat)  // another thread goes on with the request

  function AfterPop(top: int): (pc: Pc) {
    if top >= 0 then Popping(top) else Idle
  }

  ghost predicate Step(s: State, t: nat, act: Action, s': State)
    requires t < |s.pcs|
  {
    match act
    case Release(r) => s.pcs[t].Idle? && r < |s.owner| && s.owner[r] == t && s' == s.(pcs := s.pcs[t := Releasing(r)])
    case Load =>
      && s.pcs[t].Releasing? && s.pcs[t].r < |s.next|
      && s' == s.(next := s.next[s.pcs[t].r := s.top], pcs := s.pcs[t := Pushing(s.pcs[t].r)])
    case TryPush =>
      && s.pcs[t].Pushing? && s.pcs[t].r < |s.next| == |s.owner|
      && var r := s.pcs[t].r;
         s' == if s.next[r] == s.top then s.(top := r, owner := s.owner[r := FREE], pcs := s.pcs[t := Idle])
               else s.(next := s.next[r := s.top])
    case Acquire => s.pcs[t].Idle? && s' == s.(pcs := s.pcs[t := AfterPop(s.top)])
    case ReadNext =>
      && s.pcs[t].Popping? && s.pcs[t].rq < |s.next|
      && s' == s.(pcs := s.pcs[t := Swapping(s.pcs[t].rq, s.next[s.pcs[t].rq])])
    case TryPop =>
      && s.pcs[t].Swapping? && s.pcs[t].rq < |s.owner|
      && var (rq, nx) := (s.pcs[t].rq, s.pcs[t].nx);
         s' == if s.top == rq then s.(top := nx, owner := s.owner[rq := t], pcs := s.pcs[t := Idle])
               else s.(pcs := s.pcs[t := AfterPop(s.top)])
    case Give(r, to) =>
      && s.pcs[t].Idle? && r < |s.owner| && s.owner[r] == t && to < |s.pcs| && s' == s.(owner := s.owner[r := to])
  }

  /** A pop that succeeds with a link read from its tracker before that link changed. */
  predicate Stale(s: State, t: nat, act: Action)
    requires t < |s.pcs|
  {
    act.TryPop? && s.pcs[t].Swapping? && s.top == s.pcs[t].rq < |s.next| && s.pcs[t].nx != s.next[s.pcs[t].rq]
  }

  // ----- the invariant

  /** What a thread relies on; with `strict`, also that what it has seen of the stack is still so. */
  ghost predicate PcOk(s: State, chain: seq<nat>, strict: bool, t: nat)
    requires t < |s.pcs|
  {
    match s.pcs[t]
    case Idle => true
    case Releasing(r) => r < |s.owner| && s.owner[r] == t
    case Pushing(r) => r < |s.owner| && s.owner[r] == t
    case Popping(rq) => strict ==> rq in chain
    case Swapping(rq, nx) => strict ==> rq in chain && rq < |s.next| && nx == s.next[rq]
  }

  /** Every tracker is either on the stack, once, or held by exactly one thread. */
  ghost predicate Partition(s: State, chain: seq<nat>) {
    && |s.next| == |s.owner| && IsChain(s.top, s.next, chain)
    && (forall r | 0 <= r < |s.owner| :: r in chain <==> s.owner[r] == FREE)
  }

  ghost predicate Inv(s: State, chain: seq<nat>, strict: bool) {
    Partition(s, chain) && forall t | 0 <= t < |s.pcs| :: PcOk(s, chain, strict, t)
  }

  /** At most one thread is in the middle of an acquire. */
  ghost predicate Solo(s: State) {
    forall t, u | 0 <= t < u < |s.pcs| :: !(InPop(s.pcs[t]) && InPop(s.pcs[u]))
  }

  /** A change to the links of a tracker that is not on the stack disturbs no thread. */
  lemma LinkWritten(s: State, chain: seq<nat>, strict: bool, r: nat, v: int)
    requires Inv(s, chain, strict) && r < |s.owner| && s.owner[r] != FREE
    ensures Inv(s.(next := s.next[r := v]), chain, strict)
  {
    OffChain(s.top, s.next, chain, r, v);
    var s' := s.(next := s.next[r := v]);
    forall t | 0 <= t < |s'.pcs| ensures PcOk(s', chain, strict, t) {
      assert PcOk(s, chain, strict, t);
    }
  }

  lemma Pushed(s: State, chain: seq<nat>, strict: bool, t: nat, s': State)
    requires Inv(s, chain, strict) && t < |s.pcs| && s.pcs[t].Pushing?
    requires s.pcs[t].r < |s.next| && s.next[s.pcs[t].r] == s.top && Step(s, t, TryPush, s')
    ensures Inv(s', [s.pcs[t].r] + chain, strict)
  {
    assert PcOk(s, chain, strict, t);
    PushChain(s.top, s.next, chain, s.pcs[t].r);
    forall u | 0 <= u < |s'.pcs| ensures PcOk(s', [s.pcs[t].r] + chain, strict, u) {
      assert PcOk(s, chain, strict, u);
    }
  }

  lemma Popped(s: State, chain: seq<nat>, strict: bool, t: nat, s': State)
    requires Inv(s, chain, strict) && (strict ==> Solo(s)) && t < |s.pcs| && !Stale(s, t, TryPop)
    requires s.pcs[t].Swapping? && s.top == s.pcs[t].rq && Step(s, t, TryPop, s')
    ensures chain != [] && chain[0] == s.pcs[t].rq && s.owner[s.pcs[t].rq] == FREE
    ensures Inv(s', chain[1..], strict)
  {
    assert PcOk(s, chain, strict, t);
    PopChain(s.top, s.next, chain);
    assert forall r | r in chain :: r == chain[0] || r in chain[1..];
    forall u | 0 <= u < |s'.pcs| ensures PcOk(s', chain[1..], strict, u) {
      assert PcOk(s, chain, strict, u);
      assert strict && u != t ==> !InPop(s.pcs[u]);
    }
  }

  /** Every step but a stale pop keeps the partition. */
  lemma StepInv(s: State, chain: seq<nat>, strict: bool, t: nat, act: Action, s': State) returns (chain': seq<nat>)
    requires Inv(s, chain, strict) && t < |s.pcs| && Step(s, t, act, s')
    requires !Stale(s, t, act) && (strict ==> Solo(s))
    ensures Inv(s', chain', strict) && |s'.pcs| == |s.pcs|
  {
    chain' := chain;
    assert PcOk(s, chain, strict, t);
    match act
    case Load =>
      LinkWritten(s, chain, strict, s.pcs[t].r, s.top);
      Moved(s.(next := s.next[s.pcs[t].r := s.top]), chain, strict, t, Pushing(s.pcs[t].r));
    case TryPush =>
      if s.next[s.pcs[t].r] == s.top {
        Pushed(s, chain, strict, t, s');
        chain' := [s.pcs[t].r] + chain;
      } else {
        LinkWritten(s, chain, strict, s.pcs[t].r, s.top);
      }
    case TryPop =>
      if s.top == s.pcs[t].rq {
        Popped(s, chain, strict, t, s');
        chain' := chain[1..];
      } else {
        Moved(s, chain, strict, t, AfterPop(s.top));
      }
    case Release(r) => Moved(s, chain, strict, t, Releasing(r));
    case Acquire => Moved(s, chain, strict, t, AfterPop(s.top));
    case ReadNext => Moved(s, chain, strict, t, Swapping(s.pcs[t].rq, s.next[s.pcs[t].rq]));
    case Give(r, to) => Given(s, chain, strict, t, r, to);
  }

  /** A thread that only moves on disturbs nothing. */
  lemma Moved(s: State, chain: seq<nat>, strict: bool, t: nat, pc: Pc)
    requires Inv(s, chain, strict) && t < |s.pcs| && PcOk(s.(pcs := s.pcs[t := pc]), chain, strict, t)
    ensures Inv(s.(pcs := s.pcs[t := pc]), chain, strict)
  {
    var s' := s.(pcs := s.pcs[t := pc]);
    forall u | 0 <= u < |s'.pcs| ensures PcOk(s', chain, strict, u) {
      assert PcOk(s, chain, strict, u);
    }
  }

  lemma Given(s: State, chain: seq<nat>, strict: bool, t: nat, r: nat, to: nat)
    requires Inv(s, chain, strict) && t < |s.pcs| && to < |s.pcs| && s.pcs[t].Idle? && r < |s.owner| && s.owner[r] == t
    ensures Inv(s.(owner := s.owner[r := to]), chain, strict)
  {
    var s' := s.(owner := s.owner[r := to]);
    forall u | 0 <= u < |s'.pcs| ensures PcOk(s', chain, strict, u) {
      assert PcOk(s, chain, strict, u);
    }
  }

  // ----- runs

  datatype Event = Event(t: nat, act: Action)

  ghost predicate Init(s: State) {
    && (exists chain: seq<nat> :: IsChain(s.top, s.next, chain) && |chain| == |s.next|)
    && |s.owner| == |s.next| && (forall r | 0 <= r < |s.owner| :: s.owner[r] == FREE)
    && forall t | 0 <= t < |s.pcs| :: s.pcs[t].Idle?
  }

  ghost predicate Run(ss: seq<State>, es: seq<Event>) {
    && |ss| == |es| + 1 && Init(ss[0])
    && forall k | 0 <= k < |es| :: Happens(ss[k], es[k], ss[k+1])
  }

  ghost predicate Happens(s: State, e: Event, s': State) {
    e.t < |s.pcs| && Step(s, e.t, e.act, s')
  }

  lemma RunPrefix(ss: seq<State>, es: seq<Event>)
    requires Run(ss, es) && |es| > 0
    ensures Run(ss[..|es|], es[..|es|-1]) && Happens(ss[|es|-1], es[|es|-1], ss[|es|])
  {
    var n := |es|;
    assert Happens(ss[n-1], es[n-1], ss[n-1+1]);
    forall k | 0 <= k < n - 1 ensures Happens(ss[..n][k], es[..n-1][k], ss[..n][k+1]) {
      assert Happens(ss[k], es[k], ss[k+1]);
    }
  }

  lemma {:induction false} FullChain(chain: seq<nat>, m: nat)
    requires Distinct(chain) && |chain| == m && forall i | 0 <= i < m :: chain[i] < m
    ensures forall r | 0 <= r < m :: r in chain
  {
    forall r | 0 <= r < m ensures r in chain {
      if r !in chain {
        var longer := chain + [r];
        Pigeonhole(longer, m);
        assert false;
      }
    }
  }

  lemma {:induction false} RunKeeps(ss: seq<State>, es: seq<Event>, strict: bool) returns (chain: seq<nat>)
    requires Run(ss, es) && forall k | 0 <= k < |es| :: if strict then Solo(ss[k]) else Safe(ss[k], es[k])
    ensures Inv(ss[|ss|-1], chain, strict)
  {
    var n := |es|;
    if n == 0 {
      chain := InitKeeps(ss[0], strict);
    } else {
      RunPrefix(ss, es);
      chain := RunKeeps(ss[..n], es[..n-1], strict);
      chain := HappensKeeps(ss[n-1], chain, strict, es[n-1], ss[n]);
    }
  }

  lemma InitKeeps(s: State, strict: bool) returns (chain: seq<nat>)
    requires Init(s)
    ensures Inv(s, chain, strict)
  {
    chain :| IsChain(s.top, s.next, chain) && |chain| == |s.next|;
    FullChain(chain, |chain|);
  }

  lemma HappensKeeps(s: State, chain: seq<nat>, strict: bool, e: Event, s': State) returns (chain': seq<nat>)
    requires Inv(s, chain, strict) && Happens(s, e, s') && if strict then Solo(s) else Safe(s, e)
    ensures Inv(s', chain', strict)
  {
    assert PcOk(s, chain, strict, e.t);
    chain' := StepInv(s, chain, strict, e.t, e.act, s');
  }

  /** In every run in which acquires do not overlap, no tracker is ever lost, duplicated or held twice. */
  lemma RunPartition(ss: seq<State>, es: seq<Event>) returns (chain: seq<nat>)
    requires Run(ss, es) && forall k | 0 <= k < |es| :: Solo(ss[k])
    ensures Partition(ss[|ss|-1], chain)
  {
    chain := RunKeeps(ss, es, true);
  }

  ghost predicate Safe(s: State, e: Event) {
    e.t < |s.pcs| ==> !Stale(s, e.t, e.act)
  }

  ghost predicate Partitioned(s: State) {
    exists chain: seq<nat> :: Partition(s, chain)
  }

  /** Links are followed in one way only: a chain that starts on another one is the rest of it. */
  lemma {:induction false} ChainSuffix(top: int, next: seq<int>, a: seq<nat>, i: nat, b: seq<nat>)
    requires IsChain(top, next, a) && i < |a| && IsChain(a[i], next, b)
    ensures b == a[i..]
    decreases |a| - i
  {
    assert next[a[i]] == Below(a, i) && next[b[0]] == Below(b, 0);
    if i + 1 < |a| {
      PopChain(a[i], next, b);
      ChainSuffix(top, next, a, i + 1, b[1..]);
    }
    assert a[i..] == [a[i]] + a[i+1..];
    assert b == [b[0]] + b[1..];
  }

  /** A chain with all trackers of another but its first begins where the first one's link points. */
  lemma RestIsBelow(next: seq<int>, rq: nat, nx: int, chain: seq<nat>, chain': seq<nat>)
    requires IsChain(rq, next, chain) && IsChain(nx, next, chain') && forall r: nat :: r in chain' <==> r in chain && r != rq
    ensures next[rq] == nx
  {
    assert chain[0] == rq && next[rq] == Below(chain, 0);
    if |chain| > 1 {
      assert chain[1] in chain && chain[1] in chain' && nx == chain'[0] && chain'[0] in chain';
      var i :| 0 <= i < |chain| && chain[i] == nx;
      ChainSuffix(rq, next, chain, i, chain');
      var k :| 0 <= k < |chain'| && chain'[k] == chain[1];
      assert chain[i+k] == chain[1] && i + k == 1;
    } else {
      assert forall k | 0 <= k < |chain'| :: chain'[k] in chain';
    }
  }

  /** After a stale pop the stack and the trackers held no longer make up all trackers. */
  lemma StalePopBreaks(s: State, chain: seq<nat>, t: nat, s': State, chain': seq<nat>)
    requires Partition(s, chain) && t < |s.pcs| && Stale(s, t, TryPop) && Step(s, t, TryPop, s')
    ensures !Partition(s', chain')
  {
    if Partition(s', chain') {
      var rq, nx := s.pcs[t].rq, s.pcs[t].nx;
      assert forall r | r in chain' :: r < |s'.owner|;
      assert forall r | 0 <= r < |s.owner| :: s'.owner[r] == FREE <==> s.owner[r] == FREE && r != rq;
      RestIsBelow(s.next, rq, nx, chain, chain');
      assert false;
    }
  }

  /**
    No tracker is lost, duplicated or held twice in any state of a run exactly when none of its pops
    is stale, however the threads overlap.
   */
  lemma RunPartitionIff(ss: seq<State>, es: seq<Event>)
    requires Run(ss, es)
    ensures (forall k | 0 <= k < |ss| :: Partitioned(ss[k])) <==> (forall k | 0 <= k < |es| :: Safe(ss[k], es[k]))
  {
    if forall k | 0 <= k < |es| :: Safe(ss[k], es[k]) {
      forall k | 0 <= k < |ss| ensures Partitioned(ss[k]) {
        RunTo(ss, es, k);
        var chain := RunKeeps(ss[..k+1], es[..k], false);
      }
    }
    if forall k | 0 <= k < |ss| :: Partitioned(ss[k]) {
      forall k | 0 <= k < |es| ensures Safe(ss[k], es[k]) {
        assert Partitioned(ss[k]) && Partitioned(ss[k+1]) && Happens(ss[k], es[k], ss[k+1]);
        StaleShows(ss[k], es[k], ss[k+1]);
      }
    }
  }

  lemma StaleShows(s: State, e: Event, s': State)
    requires Partitioned(s) && Happens(s, e, s') && Partitioned(s')
    ensures Safe(s, e)
  {
    var chain: seq<nat> :| Partition(s, chain);
    var chain': seq<nat> :| Partition(s', chain');
    if !Safe(s, e) { StalePopBreaks(s, chain, e.t, s', chain'); }
  }

  lemma RunTo(ss: seq<State>, es: seq<Event>, k: nat)
    requires Run(ss, es) && k <= |es|
    ensures Run(ss[..k+1], es[..k])
  {
    forall j | 0 <= j < k ensures Happens(ss[..k+1][j], es[..k][j], ss[..k+1][j+1]) {
      assert Happens(ss[j], es[j], ss[j+1]);
    }
  }

  // ----- what the steps of one call amount to

  /** A release whose accesses nothing comes between does what nvme_rq_release does. */
  lemma ReleaseAlone(s: State, t: nat, r: nat) returns (s1: State, s2: State, s3: State)
    requires t < |s.pcs| && s.pcs[t].Idle? && r < |s.next| == |s.owner| && s.owner[r] == t
    ensures Step(s, t, Release(r), s1) && |s1.pcs| == |s.pcs| && Step(s1, t, Load, s2)
    ensures |s2.pcs| == |s.pcs| && Step(s2, t, TryPush, s3)
    ensures s3 == s.(top := r, next := s.next[r := s.top], owner := s.owner[r := FREE])
  {
    s1 := s.(pcs := s.pcs[t := Releasing(r)]);
    s2 := s1.(next := s.next[r := s.top], pcs := s1.pcs[t := Pushing(r)]);
    s3 := s.(top := r, next := s.next[r := s.top], owner := s.owner[r := FREE]);
    assert s.pcs[t := Releasing(r)][t := Pushing(r)][t := Idle] == s.pcs;
  }

  /** An acquire whose accesses nothing comes between does what nvme_rq_acquire does. */
  lemma AcquireAlone(s: State, t: nat) returns (s1: State, s2: State, s3: State)
    requires t < |s.pcs| && s.pcs[t].Idle? && |s.next| == |s.owner| && -1 <= s.top < |s.next|
    ensures Step(s, t, Acquire, s1) && |s1.pcs| == |s.pcs| && (s.top == NULL ==> s1 == s)
    ensures s.top != NULL ==> && Step(s1, t, ReadNext, s2) && |s2.pcs| == |s.pcs| && Step(s2, t, TryPop, s3)
                              && s3 == s.(top := s.next[s.top], owner := s.owner[s.top := t])
  {
    s1, s2, s3 := s.(pcs := s.pcs[t := AfterPop(s.top)]), s, s;
    if s.top == NULL {
      assert s.pcs[t := Idle] == s.pcs;
    } else {
      var rq, nx := s.top, s.next[s.top];
      s2 := s1.(pcs := s1.pcs[t := Swapping(rq, nx)]);
      s3 := s.(top := nx, owner := s.owner[rq := t]);
      assert s.pcs[t := Popping(rq)][t := Swapping(rq, nx)][t := Idle] == s.pcs;
    }
  }

  /** A call that gives up its turn has done its work, or found the stack empty; otherwise it is still at it. */
  lemma CallEnds(s: State, t: nat, act: Action, s': State)
    requires t < |s.pcs| == |s'.pcs| && |s.next| == |s.owner| && Step(s, t, act, s') && s'.pcs[t].Idle?
    ensures s.pcs[t].Releasing? || s.pcs[t].Pushing? ==>
              s.pcs[t].Pushing? && s.pcs[t].r < |s'.owner| && s'.top == s.pcs[t].r && s'.owner[s.pcs[t].r] == FREE
    ensures act.Acquire? || InPop(s.pcs[t]) ==>
              s.top < 0 || (s.pcs[t].Swapping? && s.top == s.pcs[t].rq < |s'.owner| && s'.owner[s.top] == t)
  {
  }

  /** A failed swap leaves the thread with what it has just seen on top. */
  lemma RetryIsFresh(s: State, t: nat, act: Action, s': State)
    requires t < |s.pcs| == |s'.pcs| && |s.next| == |s.owner| && (act.TryPush? || act.TryPop?) && Step(s, t, act, s') && !s'.pcs[t].Idle?
    ensures s'.top == s.top && s'.owner == s.owner
    ensures act.TryPush? ==> s'.pcs[t] == s.pcs[t] && s'.next[s.pcs[t].r] == s'.top
    ensures act.TryPop? ==> s'.pcs[t] == Popping(s'.top) && s'.next == s.next
  {
  }

  // ----- overlapping acquires

  function Aba(next2: int, top: int, owner1: int, owner2: int, pc0: Pc, pc1: Pc): (s: State) {
    State(top, [NULL, 0, next2], [FREE, owner1, owner2], [pc0, pc1])
  }

  /** Thread 0 looks at the top two trackers and is held up; thread 1 takes both and puts the first one back. */
  ghost function AbaStates(): (ss: seq<State>) {
    var w := Swapping(2, 1);
    [ Aba(1, 2, FREE, FREE, Idle, Idle),
      Aba(1, 2, FREE, FREE, Popping(2), Idle),
      Aba(1, 2, FREE, FREE, w, Idle),
      Aba(1, 2, FREE, FREE, w, Popping(2)),
      Aba(1, 2, FREE, FREE, w, Swapping(2, 1)),
      Aba(1, 1, FREE, 1, w, Idle),
      Aba(1, 1, FREE, 1, w, Popping(1)),
      Aba(1, 1, FREE, 1, w, Swapping(1, 0)),
      Aba(1, 0, 1, 1, w, Idle),
      Aba(1, 0, 1, 1, w, Releasing(2)),
      Aba(0, 0, 1, 1, w, Pushing(2)),
      Aba(0, 2, 1, FREE, w, Idle),
      Aba(0, 1, 1, 0, Idle, Idle) ]
  }

  ghost function AbaEvents(): (es: seq<Event>) {
    [ Event(0, Acquire), Event(0, ReadNext), Event(1, Acquire), Event(1, ReadNext), Event(1, TryPop),
      Event(1, Acquire), Event(1, ReadNext), Event(1, TryPop), Event(1, Release(2)), Event(1, Load),
      Event(1, TryPush), Event(0, TryPop) ]
  }

  /** After this run tracker 1 is on top of the stack although thread 1 holds it. */
  lemma OverlappingAcquiresBreakPartition()
    ensures Run(AbaStates(), AbaEvents())
    ensures forall chain: seq<nat> :: !Partition(AbaStates()[12], chain)
  {
    var ss, es := AbaStates(), AbaEvents();
    AbaStarts();
    forall k | 0 <= k < |es| ensures Happens(ss[k], es[k], ss[k+1]) {
      if k < 6 { AbaBegins(k); } else { AbaEnds(k); }
    }
    forall chain: seq<nat> ensures !Partition(ss[12], chain) { AbaBreaks(chain); }
  }

  lemma AbaStarts()
    ensures Init(AbaStates()[0])
  {
    assert IsChain(2, [NULL, 0, 1], [2, 1, 0]);
  }

  lemma AbaBreaks(chain: seq<nat>)
    ensures !Partition(AbaStates()[12], chain)
  {
    var s := AbaStates()[12];
    assert s.top == 1 && s.owner[1] == 1;
  }

  lemma AbaBegins(k: nat)
    requires k < 6
    ensures Happens(AbaStates()[k], AbaEvents()[k], AbaStates()[k+1])
  {
  }

  lemma AbaEnds(k: nat)
    requires 6 <= k < 12
    ensures Happens(AbaStates()[k], AbaEvents()[k], AbaStates()[k+1])
  {
  }
}
