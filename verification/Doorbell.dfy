/**
  Shadow doorbells (section 5.7 of NVM Express 1.4) with the host side of
  include/vfn/nvme/queue.h: the host stores a new tail in memory and writes the doorbell register
  only if the device's event index asks for it; the device publishes an event index and looks
  at the shadow once more before it goes idle. Memory accesses interleave one at a time.
 */
module Doorbells {
  import opened Common
  import opened Align
  import opened Rings

  // 16-bit unsigned subtraction
  function Sub16(a: nat, b: nat): (c: nat)
    requires a < UINT16 && b < UINT16
  {
    if a >= b then a - b else a + UINT16 - b
  }

  /** __nvme_need_mmio */
  predicate NeedMmio(eventidx: nat, val: nat, old_: nat)
    requires eventidx < UINT16 && val < UINT16 && old_ < UINT16
  {
    Sub16(val, eventidx) <= Sub16(val, old_)
  }

  /** `e` lies on the way around the ring from `a` to `b`, both included. */
  predicate OnTheWay(a: nat, e: nat, b: nat) {
    if a <= b then a <= e <= b else e >= a || e <= b
  }

  /**
    The test is exactly whether the event index lies on the way from the old value to the new one,
    whatever the size of the ring: positions are all that is compared.
   */
  lemma NeedMmioIff(eventidx: nat, val: nat, old_: nat)
    requires eventidx < UINT16 && val < UINT16 && old_ < UINT16
    ensures NeedMmio(eventidx, val, old_) <==> OnTheWay(old_, eventidx, val)
  {
  }

  /** In terms of entries: of those within a lap of the old tail, exactly the ones up to the new tail are on the way. */
  lemma CountsOnTheWay(n: nat, o: nat, e: nat, v: nat)
    requires n > 1 && o <= e < o + n && o <= v < o + n
    ensures OnTheWay(Slot(n, o), Slot(n, e), Slot(n, v)) <==> e <= v
  {
    Ahead(n, o, e);
    Ahead(n, o, v);
  }

  lemma Ahead(n: nat, o: nat, e: nat)
    requires n > 1 && o <= e < o + n
    ensures Slot(n, o) < n
    ensures Slot(n, e) == if Slot(n, o) + (e - o) < n then Slot(n, o) + (e - o) else Slot(n, o) + (e - o) - n
  {
    SlotStep(n, o);
    AheadBy(n, o / n, o % n, e - o, e);
  }

  lemma AheadBy(n: nat, q: int, r: int, d: nat, e: int)
    requires n > 0 && 0 <= r < n && d < n && e == n * q + r + d
    ensures e % n == if r + d < n then r + d else r + d - n
  {
    if r + d < n {
      ModUnique(e, n, q, r + d);
    } else {
      assert n * (q + 1) == n * q + n;
      ModUnique(e, n, q + 1, r + d - n);
    }
  }

  class Dbbuf {
    var doorbell: nat
    var eventidx: nat

    /** nvme_try_dbbuf with shadow doorbells in use: says whether the register must be written too. */
    method TryDbbuf(v: nat) returns (mmio: bool)
      requires doorbell < UINT16 && eventidx < UINT16 && v < UINT16
      modifies this`doorbell
      ensures doorbell == v && (mmio <==> OnTheWay(old(doorbell), eventidx, v))
    {
      var was := doorbell;
      doorbell := v;
      NeedMmioIff(eventidx, v, was);
      mmio := NeedMmio(eventidx, v, was);
    }
  }

  // ----- host and device

  datatype Host =
    | Ready
    | Loaded(o: nat)   // has read the shadow, about to store the new tail
    | Stored(o: nat)   // has stored it, about to read the event index
    | Due              // has decided to write the register

  datatype Device = Running | Checking | Asleep

  /** Positions are kept as counts of entries; memory holds their slots. */
  datatype State = State(
    n: nat,
    tail: nat,       // entries posted by the host
    shadow: nat,     // the shadow doorbell
    event: nat,      // the event index
    pos: nat,        // entries the device has processed
    seen: nat,       // the last tail the device has read
    host: Host,
    device: Device,
    pending: bool    // a register write on its way to the device
  )

  datatype Action =
    | Post | Begin | Store | Decide | Write            // host
    | Process | Look | Publish | Check | Wake          // device

  ghost predicate Step(s: State, act: Action, s': State)
    requires 2 <= s.n <= UINT16
  {
    match act
    case Post => s.host.Ready? && s.tail + 1 < s.pos + s.n && s' == s.(tail := s.tail + 1)
    case Begin => s.host.Ready? && Slot(s.n, s.tail) != Slot(s.n, s.shadow) && s' == s.(host := Loaded(s.shadow))
    case Store => s.host.Loaded? && s' == s.(shadow := s.tail, host := Stored(s.host.o))
    case Decide =>
      s.host.Stored? && s' == s.(host := if Wanted(s, s.host.o) then Due else Ready)
    case Write => s.host.Due? && s' == s.(host := Ready, pending := true)
    case Process => s.device.Running? && s.pos < s.seen && s' == s.(pos := s.pos + 1)
    case Look => s.device.Running? && s.pos == s.seen && s' == s.(seen := s.shadow)
    case Publish => s.device.Running? && s.pos == s.seen && s' == s.(event := s.pos, device := Checking)
    case Check =>
      s.device.Checking? && s' == if Slot(s.n, s.shadow) != Slot(s.n, s.event) then s.(seen := s.shadow, device := Running)
                                  else s.(device := Asleep)
    case Wake => s.device.Asleep? && s.pending && s' == s.(pending := false, device := Running)
  }

  /** The host's test, on what memory holds. */
  ghost predicate Wanted(s: State, o: nat)
    requires 2 <= s.n <= UINT16
  {
    SlotStep(s.n, s.event); SlotStep(s.n, s.shadow); SlotStep(s.n, o);
    NeedMmio(Slot(s.n, s.event), Slot(s.n, s.shadow), Slot(s.n, o))
  }

  // ----- no wakeup is lost

  ghost predicate Ordered(s: State) {
    && 2 <= s.n <= UINT16
    && s.event <= s.pos <= s.seen <= s.shadow <= s.tail < s.pos + s.n
    && (s.host.Loaded? ==> s.host.o == s.shadow) && (s.host.Stored? ==> s.host.o <= s.shadow)
    && (!s.device.Running? ==> s.event == s.pos == s.seen)
  }

  /** A sleeping device has nothing to do, or will be woken. */
  ghost predicate WillWake(s: State)
    requires 2 <= s.n <= UINT16
  {
    s.pending || s.host.Due? || (s.host.Stored? && s.host.o == s.event)
  }

  ghost predicate Inv(s: State) {
    Ordered(s) && (s.device.Asleep? ==> s.shadow == s.pos || WillWake(s))
  }

  lemma DecideWakes(s: State)
    requires Inv(s) && s.device.Asleep? && s.host.Stored? && s.host.o == s.event
    ensures Wanted(s, s.host.o)
  {
    var o := s.host.o;
    SlotStep(s.n, s.event); SlotStep(s.n, s.shadow); SlotStep(s.n, o);
    NeedMmioIff(Slot(s.n, s.event), Slot(s.n, s.shadow), Slot(s.n, o));
    CountsOnTheWay(s.n, o, s.event, s.shadow);
  }

  lemma StepInv(s: State, act: Action, s': State)
    requires Inv(s) && Step(s, act, s')
    ensures Inv(s')
  {
    match act
    case Decide => if s.device.Asleep? && s.host.o == s.event { DecideWakes(s); }
    case Check => if s.event < s.shadow { SlotsDiffer(s.n, s.event, s.shadow); }
    case _ =>
  }

  /** The host has something to announce exactly if it posted entries since the last time. */
  lemma BeginIff(s: State)
    requires Inv(s)
    ensures Slot(s.n, s.tail) != Slot(s.n, s.shadow) <==> s.shadow < s.tail
  {
    if s.shadow < s.tail { SlotsDiffer(s.n, s.shadow, s.tail); }
  }

  /** An entry posted while the device sleeps with nothing to do wakes it up and is processed. */
  lemma SleeperProcesses(s: State) returns (ss: seq<State>, acts: seq<Action>)
    requires Inv(s) && s.host.Ready? && s.device.Asleep? && !s.pending && s.pos == s.tail
    ensures acts == [Post, Begin, Store, Decide, Write, Wake, Look, Process] && |ss| == 9 && ss[0] == s
    ensures forall k | 0 <= k < 8 :: ss[k].n == s.n && Step(ss[k], acts[k], ss[k+1])
    ensures ss[8].tail == ss[8].pos == s.tail + 1 && ss[8].host.Ready? && ss[8].device.Running? && !ss[8].pending
  {
    var s1 := s.(tail := s.tail + 1);
    StepInv(s, Post, s1);
    BeginIff(s1);
    var s2 := s1.(host := Loaded(s1.shadow));
    var s3 := s2.(shadow := s2.tail, host := Stored(s1.shadow));
    StepInv(s1, Begin, s2);
    StepInv(s2, Store, s3);
    DecideWakes(s3);
    var s4 := s3.(host := Due);
    var s5 := s4.(host := Ready, pending := true);
    var s6 := s5.(pending := false, device := Running);
    var s7 := s6.(seen := s6.shadow);
    var s8 := s7.(pos := s7.pos + 1);
    ss, acts := [s, s1, s2, s3, s4, s5, s6, s7, s8], [Post, Begin, Store, Decide, Write, Wake, Look, Process];
  }

  // ----- runs

  ghost predicate Init(s: State) {
    && 2 <= s.n <= UINT16 && s.tail == s.shadow == s.event == s.pos == s.seen == 0
    && s.host.Ready? && s.device.Asleep? && !s.pending
  }

  ghost predicate Run(ss: seq<State>, acts: seq<Action>) {
    && |ss| == |acts| + 1 && Init(ss[0])
    && forall k | 0 <= k < |acts| :: 2 <= ss[k].n <= UINT16 && Step(ss[k], acts[k], ss[k+1])
  }

  lemma {:induction false} RunInv(ss: seq<State>, acts: seq<Action>)
    requires Run(ss, acts)
    ensures forall k | 0 <= k < |ss| :: Inv(ss[k])
  {
    var n := |acts|;
    if n > 0 {
      RunInv(ss[..n], acts[..n-1]);
      assert ss[..n][n-1] == ss[n-1] && Inv(ss[n-1]);
      assert Step(ss[n-1], acts[n-1], ss[n-1+1]);
      StepInv(ss[n-1], acts[n-1], ss[n]);
      forall k | 0 <= k < |ss| ensures Inv(ss[k]) {
        if k < n { assert ss[k] == ss[..n][k]; }
      }
    }
  }

  /**
    In every run, whenever the device sleeps with announced entries unprocessed, a register write is
    on its way, or the host has decided to make one, or it is about to decide and will.
   */
  lemma NoLostWakeup(ss: seq<State>, acts: seq<Action>, k: nat)
    requires Run(ss, acts) && k < |ss|
    requires ss[k].device.Asleep? && ss[k].pos < ss[k].shadow
    ensures 2 <= ss[k].n <= UINT16
    ensures ss[k].pending || ss[k].host.Due? || (ss[k].host.Stored? && Wanted(ss[k], ss[k].host.o))
  {
    RunInv(ss, acts);
    assert Inv(ss[k]);
    if ss[k].host.Stored? && ss[k].host.o == ss[k].event { DecideWakes(ss[k]); }
  }
}
