/**
  Conservation of I/O addresses: what becomes of every address that was handed out, and exactly which
  steps lose some.
 */
module IovaLeaks {
  import opened Align
  import opened SkipLists
  import opened FreeRanges
  import opened IovaReserve
  import opened IovaSpace

  ghost predicate Mapped(maps: seq<Mapping>, a: int) {
    exists i :: 0 <= i < |maps| && maps[i].Has(a)
  }

  /** An allowed address outside the 64k set aside. */
  ghost predicate Ordinary(s: State, a: int) {
    Allowed(s.windows, a) && !InEphemerals(s, a)
  }

  /** It was passed by the bump allocator, but is neither mapped nor free, and can never be handed out again. */
  ghost predicate Leaked(s: State, a: int) {
    Ordinary(s, a) && a < s.next && !Free(s.free, a) && !Mapped(s.maps, a)
  }

  /** The bump allocator skips addresses, or the kernel refuses those that were reserved. */
  ghost predicate Wasted(s: State, m: Mapping, mapped: bool, a: int) {
    Ordinary(s, a) && (s.next <= a < m.iova || (!mapped && m.Has(a)))
  }

  /** What one step loses. */
  ghost predicate Lost(s: State, act: Action, a: int) {
    match act
    case Map(m, mapped) => !m.ephemeral && Wasted(s, m, mapped, a)
    case MapAligned(m, _, mapped) => Wasted(s, m, mapped, a)
    case Unmap(_) => false
    case UnmapAll => Ordinary(s, a) && (Free(s.free, a) || Mapped(s.maps, a))
  }

  lemma MappedInserted(maps: seq<Mapping>, i: nat, m: Mapping, a: int)
    requires i <= |maps|
    ensures Mapped(Inserted(maps, i, m), a) <==> Mapped(maps, a) || m.Has(a)
  {
    var t := Inserted(maps, i, m);
    assert t[i] == m;
    if Mapped(maps, a) {
      var j :| 0 <= j < |maps| && maps[j].Has(a);
      assert t[if j < i then j else j + 1] == maps[j];
    }
    if Mapped(t, a) {
      var j :| 0 <= j < |t| && t[j].Has(a);
      assert j == i || t[j] == maps[if j < i then j else j - 1];
    }
  }

  lemma MappedRemoved(maps: seq<Mapping>, i: nat, a: int)
    requires i < |maps|
    ensures Mapped(maps, a) <==> Mapped(Removed(maps, i), a) || maps[i].Has(a)
  {
    assert Inserted(Removed(maps, i), i, maps[i]) == maps;
    MappedInserted(Removed(maps, i), i, maps[i], a);
  }

  /** A mapped ordinary address was handed out and is not free. */
  lemma MappedPlaced(s: State, a: int)
    requires Inv(s) && Mapped(s.maps, a)
    ensures !Free(s.free, a) && a < s.next
  {
    var i :| 0 <= i < |s.maps| && s.maps[i].Has(a);
    assert PlacedAt(s, s.maps[i], a);
  }

  lemma FinishedMaps(t: State, m: Mapping, mapped: bool, s': State, a: int)
    requires Finished(t, m, mapped, s')
    ensures s'.free == t.free && s'.next == t.next && s'.windows == t.windows && s'.ephemerals == t.ephemerals
    ensures Mapped(s'.maps, a) <==> Mapped(t.maps, a) || (mapped && m.Has(a))
  {
    if mapped {
      var i :| 0 <= i <= |t.maps| && s'.maps == Inserted(t.maps, i, m);
      MappedInserted(t.maps, i, m, a);
    }
  }

  lemma OrdinaryMapLeaks(s: State, m: Mapping, align: nat, t: State, mapped: bool, s': State, a: int)
    requires Inv(s) && align > 0 && Reserved(s, m.Iovas(), align, t) && Finished(t, m, mapped, s')
    ensures Leaked(s', a) <==> Leaked(s, a) || Wasted(s, m, mapped, a)
  {
    FinishedMaps(t, m, mapped, s', a);
    var r := m.Iovas();
    assert r.Has(a) <==> m.Has(a);
    if Mapped(s.maps, a) { MappedPlaced(s, a); }
    assert Free(s.free, a) ==> Ordinary(s, a) && a < s.next;
    if t.next == s.next && Taken(s.free, r, t.free) {
      assert Free(t.free, a) <==> Free(s.free, a) && !m.Has(a);
    } else {
      assert t == s.(next := r.End()) && s.next <= m.iova;
    }
  }

  lemma EphemeralMapLeaks(s: State, m: Mapping, t: State, mapped: bool, s': State, a: int)
    requires Inv(s) && ReservedEphemeral(s, m.Iovas(), t) && Finished(t, m, mapped, s')
    ensures Leaked(s', a) <==> Leaked(s, a)
  {
    FinishedMaps(t, m, mapped, s', a);
  }

  lemma UnmapLeaks(s: State, i: nat, a: int)
    requires Inv(s) && i < |s.maps|
    ensures Leaked(Unmapped(s, i), a) <==> Leaked(s, a)
  {
    MappedRemoved(s.maps, i, a);
    UnmappedFree(s, i, Unmapped(s, i));
    if s.maps[i].Has(a) { assert PlacedAt(s, s.maps[i], a); }
  }

  lemma UnmapAllLeaks(s: State, a: int)
    requires Inv(s)
    ensures Leaked(AllUnmapped(s), a) <==> Leaked(s, a) || (Ordinary(s, a) && (Free(s.free, a) || Mapped(s.maps, a)))
  {
    if Mapped(s.maps, a) { MappedPlaced(s, a); }
    assert Free(s.free, a) ==> a < s.next;
  }

  /** Addresses are conserved by every step but for what the step is said to lose, and lost ones stay lost. */
  lemma StepLeaks(s: State, act: Action, s': State, a: int)
    requires Inv(s) && Step(s, act, s')
    ensures Leaked(s', a) <==> Leaked(s, a) || Lost(s, act, a)
  {
    match act
    case Map(m, mapped) =>
      var t :| (if m.ephemeral then ReservedEphemeral(s, m.Iovas(), t) else Reserved(s, m.Iovas(), 1, t))
                  && Finished(t, m, mapped, s');
      if m.ephemeral { EphemeralMapLeaks(s, m, t, mapped, s', a); } else { OrdinaryMapLeaks(s, m, 1, t, mapped, s', a); }
    case MapAligned(m, align, mapped) =>
      var t :| Reserved(s, m.Iovas(), Granted(align), t) && Finished(t, m, mapped, s');
      OrdinaryMapLeaks(s, m, Granted(align), t, mapped, s', a);
    case Unmap(i) => UnmapLeaks(s, i, a);
    case UnmapAll => UnmapAllLeaks(s, a);
  }

  ghost predicate LostBefore(ss: seq<State>, acts: seq<Action>, n: nat, a: int)
    requires n <= |acts| && n < |ss|
  {
    exists k :: 0 <= k < n && Lost(ss[k], acts[k], a)
  }

  lemma {:induction false} RunLeaksUpTo(ss: seq<State>, acts: seq<Action>, n: nat, a: int)
    requires Run(ss, acts) && n <= |acts| && NoHazard(ss, acts, |acts|)
    ensures Leaked(ss[n], a) <==> Leaked(ss[0], a) || LostBefore(ss, acts, n, a)
  {
    if n > 0 {
      RunLeaksUpTo(ss, acts, n - 1, a);
      RunInv(ss, acts);
      assert Inv(ss[n-1]) && Step(ss[n-1], acts[n-1], ss[n-1+1]);
      StepLeaks(ss[n-1], acts[n-1], ss[n], a);
      assert LostBefore(ss, acts, n, a) <==> LostBefore(ss, acts, n - 1, a) || Lost(ss[n-1], acts[n-1], a);
    }
  }

  /**
    At the end of a run, an ordinary address below the bump pointer is mapped or free, unless it lay
    below the 64k from the start or some step of the run lost it.
   */
  lemma Conserved(ss: seq<State>, acts: seq<Action>, a: int)
    requires Run(ss, acts) && NoHazard(ss, acts, |acts|)
    requires var s := ss[|acts|]; Ordinary(s, a) && a < s.next
    ensures var s := ss[|acts|];
            Free(s.free, a) || Mapped(s.maps, a)
            <==> a >= ss[0].ephemerals.start && !LostBefore(ss, acts, |acts|, a)
  {
    RunLeaksUpTo(ss, acts, |acts|, a);
    FixedUpTo(ss, acts, |acts|);
  }

  lemma {:induction false} FixedUpTo(ss: seq<State>, acts: seq<Action>, n: nat)
    requires Run(ss, acts) && n <= |acts|
    ensures ss[n].windows == ss[0].windows && ss[n].ephemerals == ss[0].ephemerals
  {
    if n > 0 {
      FixedUpTo(ss, acts, n - 1);
      assert Step(ss[n-1], acts[n-1], ss[n-1+1]);
    }
  }
}
