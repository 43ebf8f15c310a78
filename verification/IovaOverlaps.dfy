/**
  Runs in which the ephemeral addresses are recycled too early: with the flag that aligned mappings do not
  support, or with more calls than the counter can follow.
 */
module IovaOverlaps {
  import opened Align
  import opened SkipLists
  import opened IovaReserve
  import opened IovaSpace

  function EphemeralMapped(s: State, m: Mapping): (s': State) {
    s.(nextEphemeral := m.iova + m.len, nephemerals := Increment(s.nephemerals), maps := s.maps + [m])
  }

  lemma MapEphemeralStep(s: State, m: Mapping)
    requires m.ephemeral && m.len > 0 && BuffersApart(s.maps + [m])
    requires m.iova == Max(s.nextEphemeral, s.ephemerals.start) && Inside(s.ephemerals, m.iova, m.len)
    ensures Step(s, Map(m, true), EphemeralMapped(s, m))
  {
    var t := s.(nextEphemeral := m.iova + m.len, nephemerals := Increment(s.nephemerals), lost := s.lost + 1);
    assert ReservedEphemeral(s, m.Iovas(), t);
    assert s.maps + [m] == Inserted(s.maps, |s.maps|, m);
    assert Added(t, m, EphemeralMapped(s, m));
  }

  function AlignedMapped(s: State, m: Mapping): (s': State) {
    s.(next := m.iova + m.len, maps := s.maps + [m], lost := if m.ephemeral then s.lost - 1 else s.lost)
  }

  lemma MapAlignedStep(s: State, m: Mapping, align: nat)
    requires m.len > 0 && BuffersApart(s.maps + [m]) && m.iova + m.len < TWO64
    requires |s.windows| == 1 && Inside(s.windows[0], m.iova, m.len) && s.next <= m.iova
    requires align > 0 && m.iova % align == 0
    ensures Step(s, MapAligned(m, align, true), AlignedMapped(s, m))
  {
    var t := s.(next := m.iova + m.len);
    assert Reserved(s, m.Iovas(), Granted(align), t);
    assert s.maps + [m] == Inserted(s.maps, |s.maps|, m);
    assert Added(t, m, AlignedMapped(s, m));
  }

  /**
    Why the aligned variant must not be asked for ephemeral mappings: the flag is recorded but the
    reservation is not counted, so unmapping recycles addresses that are still in use.
   */
  lemma AlignedEphemeralOverlaps() returns (ss: seq<State>, acts: seq<Action>)
    ensures Run(ss, acts) && |acts| == 4 && !Supported(acts[1]) && Hazard(ss[2], acts[2])
    ensures !IovasApart(ss[4].maps)
  {
    var m1, m2 := Mapping(0x1000, 0x1000, 0x10000, true), Mapping(0x3000, 0x1000, 0x20000, true);
    var s0, s1, s2 := OverlapBegins(m1, m2);
    var m3, s3, s4 := OverlapEnds(m1, m2, s2);
    ss, acts := RunOfFour(s0, Map(m1, true), s1, MapAligned(m2, 0x1000, true), s2, Unmap(1), s3, Map(m3, true), s4);
    assert InEphemerals(s2, s2.maps[0].iova);
  }

  lemma RunOfFour(s0: State, a0: Action, s1: State, a1: Action, s2: State, a2: Action, s3: State, a3: Action, s4: State)
    returns (ss: seq<State>, acts: seq<Action>)
    requires Init(s0) && Step(s0, a0, s1) && Step(s1, a1, s2) && Step(s2, a2, s3) && Step(s3, a3, s4)
    ensures Run(ss, acts) && ss == [s0, s1, s2, s3, s4] && acts == [a0, a1, a2, a3]
  {
    ss, acts := FourSteps(Step, s0, a0, s1, a1, s2, a2, s3, a3, s4);
  }

  // The step is a parameter here, so that the verifier does not have to look into it.
  lemma FourSteps<S, A>(step: (S, A, S) -> bool, s0: S, a0: A, s1: S, a1: A, s2: S, a2: A, s3: S, a3: A, s4: S)
    returns (ss: seq<S>, acts: seq<A>)
    requires step(s0, a0, s1) && step(s1, a1, s2) && step(s2, a2, s3) && step(s3, a3, s4)
    ensures ss == [s0, s1, s2, s3, s4] && acts == [a0, a1, a2, a3]
    ensures forall k | 0 <= k < 4 :: step(ss[k], acts[k], ss[k+1])
  {
    ss, acts := [s0, s1, s2, s3, s4], [a0, a1, a2, a3];
    forall k | 0 <= k < 4 ensures step(ss[k], acts[k], ss[k+1]) {
      assert k == 0 || k == 1 || k == 2 || k == 3;
    }
  }

  lemma OverlapBegins(m1: Mapping, m2: Mapping) returns (s0: State, s1: State, s2: State)
    requires m1 == Mapping(0x1000, 0x1000, 0x10000, true) && m2 == Mapping(0x3000, 0x1000, 0x20000, true)
    ensures Init(s0) && Step(s0, Map(m1, true), s1) && Step(s1, MapAligned(m2, 0x1000, true), s2)
    ensures s2.maps == [m1, m2] && s2.nephemerals == 1 && s2.ephemerals == Window(0x10000, 0x1_FFFF)
  {
    s0 := State([], [], 0x20000, 0, 0, Window(0x10000, 0x1_FFFF), [Window(0x10000, 0xF_FFFF)], 0);
    assert Inside(s0.windows[0], 0x10000, 0x10000);
    s1 := EphemeralMapped(s0, m1);
    MapEphemeralStep(s0, m1);
    s2 := AlignedMapped(s1, m2);
    MapAlignedStep(s1, m2, 0x1000);
  }

  lemma OverlapEnds(m1: Mapping, m2: Mapping, s2: State) returns (m3: Mapping, s3: State, s4: State)
    requires m1 == Mapping(0x1000, 0x1000, 0x10000, true) && m2 == Mapping(0x3000, 0x1000, 0x20000, true)
    requires s2.maps == [m1, m2] && s2.nephemerals == 1 && s2.ephemerals == Window(0x10000, 0x1_FFFF)
    ensures Step(s2, Unmap(1), s3) && Step(s3, Map(m3, true), s4) && !IovasApart(s4.maps)
  {
    m3, s3 := Mapping(0x5000, 0x1000, 0x10000, true), Unmapped(s2, 1);
    assert s3.maps == [m1];
    s4 := EphemeralMapped(s3, m3);
    MapEphemeralStep(s3, m3);
    assert s4.maps[0].Has(0x10000) && s4.maps[1].Has(0x10000);
  }

  /**
    Nor does it help to unmap it before the next ephemeral mapping: the counter has gone below zero by then,
    and comes back to one while two mappings lie in the 64k.
   */
  lemma WrappedCountRecycles() returns (ss: seq<State>, acts: seq<Action>)
    ensures Run(ss, acts) && |acts| == 4 && !Supported(acts[0]) && ss[2].nephemerals == SIZE_MAX && ss[4].nephemerals == 1
    ensures Hazard(ss[4], Unmap(1))
  {
    var m0 := Mapping(0x1000, 0x1000, 0x20000, true);
    var m1, m2 := Mapping(0x1000, 0x1000, 0x10000, true), Mapping(0x3000, 0x1000, 0x11000, true);
    var s0, s1, s2 := CountBelowZero(m0);
    var s3, s4 := CountBackToOne(s2, m1, m2);
    ss, acts := RunOfFour(s0, MapAligned(m0, 0x1000, true), s1, Unmap(0), s2, Map(m1, true), s3, Map(m2, true), s4);
  }

  lemma CountBackToOne(s2: State, m1: Mapping, m2: Mapping) returns (s3: State, s4: State)
    requires m1 == Mapping(0x1000, 0x1000, 0x10000, true) && m2 == Mapping(0x3000, 0x1000, 0x11000, true)
    requires s2.maps == [] && s2.nephemerals == SIZE_MAX && s2.ephemerals == Window(0x10000, 0x1_FFFF) && s2.nextEphemeral == 0
    ensures Step(s2, Map(m1, true), s3) && Step(s3, Map(m2, true), s4)
    ensures s4.nephemerals == 1 && Hazard(s4, Unmap(1))
  {
    s3 := EphemeralMapped(s2, m1);
    MapEphemeralStep(s2, m1);
    s4 := EphemeralMapped(s3, m2);
    MapEphemeralStep(s3, m2);
    assert s4.maps == [m1, m2] && InEphemerals(s4, s4.maps[0].iova);
  }

  lemma CountBelowZero(m0: Mapping) returns (s0: State, s1: State, s2: State)
    requires m0 == Mapping(0x1000, 0x1000, 0x20000, true)
    ensures Init(s0) && Step(s0, MapAligned(m0, 0x1000, true), s1) && Step(s1, Unmap(0), s2)
    ensures s2.maps == [] && s2.nephemerals == SIZE_MAX && s2.ephemerals == Window(0x10000, 0x1_FFFF) && s2.nextEphemeral == 0
  {
    s0 := State([], [], 0x20000, 0, 0, Window(0x10000, 0x1_FFFF), [Window(0x10000, 0xF_FFFF)], 0);
    assert Inside(s0.windows[0], 0x10000, 0x10000);
    s1 := AlignedMapped(s0, m0);
    MapAlignedStep(s0, m0, 0x1000);
    s2 := Unmapped(s1, 0);
    LastUncounted(s1, m0);
  }

  lemma LastUncounted(s: State, m: Mapping)
    requires s.maps == [m] && m.ephemeral && s.nephemerals == 0
    ensures var t := Unmapped(s, 0);
            t.maps == [] && t.nephemerals == SIZE_MAX && t.ephemerals == s.ephemerals && t.nextEphemeral == s.nextEphemeral
  {
  }

  // ----- too many calls

  /** `s` after `k` ephemeral mappings of nothing, which the kernel refuses. */
  function Refused(s: State, k: nat): (s': State) {
    s.(nephemerals := (s.nephemerals + k) % TWO64, lost := s.lost + k)
  }

  lemma RefusedStep(s: State, k: nat, m: Mapping)
    requires s.nextEphemeral == m.iova >= s.ephemerals.start && m.iova <= s.ephemerals.last && m.len == 0 && m.ephemeral
    ensures Step(Refused(s, k), Map(m, false), Refused(s, k + 1))
  {
    CountsUp(s.nephemerals + k, Refused(s, k).nephemerals);
    assert ReservedEphemeral(Refused(s, k), m.Iovas(), Refused(s, k + 1));
  }

  lemma RefusedNone(s: State)
    requires s.nephemerals < TWO64
    ensures Refused(s, 0) == s
  {
  }

  lemma Extended(ss: seq<State>, acts: seq<Action>, act: Action, s': State) returns (ss': seq<State>, acts': seq<Action>)
    requires Run(ss, acts) && Step(ss[|acts|], act, s')
    ensures ss' == ss + [s'] && acts' == acts + [act] && Run(ss', acts')
  {
    ss', acts' := ss + [s'], acts + [act];
    forall k | 0 <= k < |acts'| ensures Step(ss'[k], acts'[k], ss'[k+1]) {
      if k < |acts| { assert Step(ss[k], acts[k], ss[k+1]); }
    }
  }

  lemma {:induction false} ManyRefused(ss: seq<State>, acts: seq<Action>, s: State, m: Mapping, n: nat)
    returns (ss': seq<State>, acts': seq<Action>)
    requires Run(ss, acts) && AllSupported(acts) && ss[|acts|] == s && s.nephemerals < TWO64
    requires s.nextEphemeral == m.iova >= s.ephemerals.start && m.iova <= s.ephemerals.last && m.len == 0 && m.ephemeral
    ensures Run(ss', acts') && AllSupported(acts') && |acts'| == |acts| + n && ss'[|acts'|] == Refused(s, n)
    decreases n
  {
    if n == 0 {
      ss', acts' := ss, acts;
      RefusedNone(s);
    } else {
      ss', acts' := ManyRefused(ss, acts, s, m, n - 1);
      RefusedStep(s, n - 1, m);
      ss', acts' := Extended(ss', acts', Map(m, false), Refused(s, n));
    }
  }

  /** One more step than that is too many: the counter of the source has wrapped around to one. */
  lemma LongRunRecycles() returns (ss: seq<State>, acts: seq<Action>)
    ensures Run(ss, acts) && |acts| == TWO64 + 2 && AllSupported(acts)
    ensures Hazard(ss[TWO64+1], acts[TWO64+1])
  {
    var s2;
    ss, acts, s2 := TwoMapped();
    ss, acts := ManyRefused(ss, acts, s2, Mapping(0x5000, 0, 0x12000, true), TWO64 - 1);
    RefusedHazard(s2, TWO64 - 1);
    ss, acts := Unmapping(ss, acts, 1);
  }

  lemma TwoMapped() returns (ss: seq<State>, acts: seq<Action>, s2: State)
    ensures Run(ss, acts) && |acts| == 2 && AllSupported(acts) && ss[2] == s2 && s2.nephemerals == 2 && |s2.maps| == 2
    ensures s2.maps[1].ephemeral && InEphemerals(s2, s2.maps[0].iova)
    ensures s2.ephemerals == Window(0x10000, 0x1_FFFF) && s2.nextEphemeral == 0x12000
  {
    var m1, m2 := Mapping(0x1000, 0x1000, 0x10000, true), Mapping(0x3000, 0x1000, 0x11000, true);
    var s0, s1;
    s0, s1, s2 := TwoEphemerals(m1, m2);
    ss, acts := RunOfTwo(s0, Map(m1, true), s1, Map(m2, true), s2);
    MapsSupported(Map(m1, true), Map(m2, true));
  }

  lemma MapsSupported(a0: Action, a1: Action)
    requires a0.Map? && a1.Map?
    ensures AllSupported([a0, a1])
  {
  }

  lemma RunOfTwo(s0: State, a0: Action, s1: State, a1: Action, s2: State) returns (ss: seq<State>, acts: seq<Action>)
    requires Init(s0) && Step(s0, a0, s1) && Step(s1, a1, s2)
    ensures Run(ss, acts) && ss == [s0, s1, s2] && acts == [a0, a1]
  {
    ss, acts := TwoSteps(Step, s0, a0, s1, a1, s2);
  }

  lemma TwoSteps<S, A>(step: (S, A, S) -> bool, s0: S, a0: A, s1: S, a1: A, s2: S) returns (ss: seq<S>, acts: seq<A>)
    requires step(s0, a0, s1) && step(s1, a1, s2)
    ensures ss == [s0, s1, s2] && acts == [a0, a1] && forall k | 0 <= k < 2 :: step(ss[k], acts[k], ss[k+1])
  {
    ss, acts := [s0, s1, s2], [a0, a1];
    forall k | 0 <= k < 2 ensures step(ss[k], acts[k], ss[k+1]) { assert k == 0 || k == 1; }
  }

  lemma Unmapping(ss: seq<State>, acts: seq<Action>, i: nat) returns (ss': seq<State>, acts': seq<Action>)
    requires Run(ss, acts) && AllSupported(acts) && i < |ss[|acts|].maps|
    ensures Run(ss', acts') && AllSupported(acts') && |acts'| == |acts| + 1 && ss'[|acts|] == ss[|acts|] && acts'[|acts|] == Unmap(i)
  {
    ss', acts' := Extended(ss, acts, Unmap(i), Unmapped(ss[|acts|], i));
  }

  lemma TwoEphemerals(m1: Mapping, m2: Mapping) returns (s0: State, s1: State, s2: State)
    requires m1 == Mapping(0x1000, 0x1000, 0x10000, true) && m2 == Mapping(0x3000, 0x1000, 0x11000, true)
    ensures Init(s0) && Step(s0, Map(m1, true), s1) && Step(s1, Map(m2, true), s2)
    ensures |s2.maps| == 2 && s2.maps[1].ephemeral && InEphemerals(s2, s2.maps[0].iova)
    ensures s2.nephemerals == 2 && s2.ephemerals == Window(0x10000, 0x1_FFFF) && s2.nextEphemeral == 0x12000
  {
    s0 := State([], [], 0x20000, 0, 0, Window(0x10000, 0x1_FFFF), [Window(0x10000, 0xF_FFFF)], 0);
    assert Inside(s0.windows[0], 0x10000, 0x10000);
    s1 := EphemeralMapped(s0, m1);
    MapEphemeralStep(s0, m1);
    s2 := EphemeralMapped(s1, m2);
    MapEphemeralStep(s1, m2);
    assert s2.maps == [m1, m2];
  }

  lemma RefusedHazard(s: State, n: nat)
    requires s.nephemerals == 2 && |s.maps| == 2 && InEphemerals(s, s.maps[0].iova) && s.maps[1].ephemeral && n == TWO64 - 1
    ensures Hazard(Refused(s, n), Unmap(1))
  {
    assert InEphemerals(Refused(s, n), Refused(s, n).maps[0].iova);
  }
}
