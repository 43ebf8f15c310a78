/**
  Whether an I/O address that is still mapped can be handed out again: exactly if some unmap recycled
  the ephemeral addresses too early.
 */
module IovaReuse {
  import opened FreeRanges
  import opened IovaReserve
  import opened IovaSpace

  // ----- handing out what is still mapped

  /** A reservation is possible that takes an address of some mapping. */
  ghost predicate Reuses(s: State) {
    exists r: Range, t: State :: (ReservedEphemeral(s, r, t) || Reserved(s, r, 1, t)) && Clashes(s, r)
  }

  ghost predicate Clashes(s: State, r: Range) {
    exists i, a :: 0 <= i < |s.maps| && r.Has(a) && s.maps[i].Has(a)
  }

  lemma InvNoReuse(s: State)
    requires Inv(s)
    ensures !Reuses(s)
  {
    forall r: Range, t: State | ReservedEphemeral(s, r, t) || Reserved(s, r, 1, t) ensures !Clashes(s, r) {
      var m := Mapping(0, r.len, r.start, false);
      assert m.Iovas() == r && forall a :: m.Has(a) <==> r.Has(a);
      if ReservedEphemeral(s, r, t) { ReservedEphemeralInv(s, m, t); } else { ReservedInv(s, m, 1, t); }
    }
  }

  /** Once they are recycled, asking for all of the 64k yields the addresses in use as well. */
  lemma HazardReuses(s: State, i: nat, s': State)
    requires Inv(s) && i < |s.maps| && s' == Unmapped(s, i) && Hazard(s, Unmap(i))
    ensures Reuses(s')
  {
    var j :| 0 <= j < |s.maps| && j != i && InEphemerals(s, s.maps[j].iova);
    var k := if j < i then j else j - 1;
    var r := Range(s.ephemerals.start, s.ephemerals.last - s.ephemerals.start + 1);
    assert s'.maps[k] == s.maps[j] && s'.maps[k].Has(s.maps[j].iova) && r.Has(s.maps[j].iova);
    assert Clashes(s', r);
    assert ReservedEphemeral(s', r, s'.(nextEphemeral := r.End(), nephemerals := Increment(s'.nephemerals), lost := s'.lost + 1));
  }

  /** Unmapping is a hazard exactly when some address still mapped can be handed out again afterwards. */
  lemma HazardIff(s: State, i: nat)
    requires Inv(s) && i < |s.maps|
    ensures Hazard(s, Unmap(i)) <==> Reuses(Unmapped(s, i))
  {
    UnmappedInv(s, i);
    if Hazard(s, Unmap(i)) { HazardReuses(s, i, Unmapped(s, i)); } else { InvNoReuse(Unmapped(s, i)); }
  }

  lemma StepReuses(s: State, act: Action, s': State)
    requires Inv(s) && Step(s, act, s')
    ensures Reuses(s') <==> Hazard(s, act)
  {
    StepInv(s, act, s');
    if act.Unmap? { HazardIff(s, act.i); } else { InvNoReuse(s'); }
  }

  ghost predicate NoReuse(ss: seq<State>, n: nat)
    requires n <= |ss|
  {
    forall k | 0 <= k < n :: !Reuses(ss[k])
  }

  lemma {:induction false} RunReusesUpTo(ss: seq<State>, acts: seq<Action>, n: nat)
    requires Run(ss, acts) && n <= |acts|
    ensures NoReuse(ss, n + 1) <==> NoHazard(ss, acts, n)
  {
    RunInvUpTo(ss, acts, n);
    if n == 0 {
      InvNoReuse(ss[0]);
    } else {
      RunReusesUpTo(ss, acts, n - 1);
      RunInvUpTo(ss, acts, n - 1);
      assert Step(ss[n-1], acts[n-1], ss[n-1+1]);
      if Inv(ss[n-1]) { StepReuses(ss[n-1], acts[n-1], ss[n]); }
      assert NoReuse(ss, n + 1) <==> NoReuse(ss, n) && !Reuses(ss[n]);
    }
  }

  /** No state of a run allows handing out an address that is still mapped exactly when no step recycles addresses in use. */
  lemma RunReusesIff(ss: seq<State>, acts: seq<Action>)
    requires Run(ss, acts)
    ensures (forall k | 0 <= k < |ss| :: !Reuses(ss[k])) <==> (forall k | 0 <= k < |acts| :: !Hazard(ss[k], acts[k]))
  {
    RunReusesUpTo(ss, acts, |acts|);
  }
}
