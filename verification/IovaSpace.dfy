/**
  The I/O address space of one container as a state machine: which addresses are mapped, free,
  set aside for ephemeral mappings or not yet handed out, over every run of the map and unmap
  operations of src/iommu/dma.c with the vfio backend of src/iommu/vfio.c.
 */
module IovaSpace {
  import opened Align
  import opened SkipLists
  import opened FreeRanges
  import opened IovaReserve

  // struct iova_mapping; of the flags only IOMMU_MAP_EPHEMERAL matters here
  datatype Mapping = Mapping(vaddr: nat, len: nat, iova: nat, ephemeral: bool) {
    function VEnd(): (e: nat) { vaddr + len }
    function Iovas(): (r: Range) { Range(iova, len) }
    predicate Has(a: int) { iova <= a < iova + len }
  }

  datatype State = State(
    maps: seq<Mapping>,        // ctx->map, in order of virtual address
    free: seq<Range>,          // free_iovas
    next: nat,                 // addresses from here on were never handed out
    nextEphemeral: nat,
    nephemerals: nat,
    ephemerals: Window,
    windows: seq<Window>,      // ctx->iova_ranges
    lost: int                  // ephemeral reservations that no mapping accounts for any more
  )

  // ----- the invariant

  ghost predicate Allowed(ws: seq<Window>, a: int) {
    exists i :: 0 <= i < |ws| && ws[i].start <= a <= ws[i].last
  }

  predicate InEphemerals(s: State, a: int) {
    s.ephemerals.start <= a <= s.ephemerals.last
  }

  /** Buffers in ascending order, none empty, no two overlapping. */
  ghost predicate BuffersApart(maps: seq<Mapping>) {
    && (forall i | 0 <= i < |maps| :: maps[i].len > 0 && maps[i].VEnd() < TWO64)
    && (forall i, j | 0 <= i < j < |maps| :: maps[i].VEnd() <= maps[j].vaddr)
  }

  /** No I/O address is mapped twice. */
  ghost predicate IovasApart(maps: seq<Mapping>) {
    forall i, j, a | 0 <= i < j < |maps| && maps[i].Has(a) :: !maps[j].Has(a)
  }

  /**
    A mapping in the 64k stays there, below what is handed out next. Any other uses allowed addresses
    that were handed out, are not free and not set aside.
   */
  ghost predicate PlacedAt(s: State, m: Mapping, a: int) {
    if InEphemerals(s, m.iova) then InEphemerals(s, a) && a < s.nextEphemeral
    else Allowed(s.windows, a) && a < s.next && !Free(s.free, a) && !InEphemerals(s, a)
  }

  ghost predicate Placed(s: State) {
    forall i, a | 0 <= i < |s.maps| && s.maps[i].Has(a) :: PlacedAt(s, s.maps[i], a)
  }

  ghost predicate FreeOk(s: State) {
    && Coalesced(s.free)
    && (forall a | Free(s.free, a) :: Allowed(s.windows, a) && 0 <= a < s.next && !InEphemerals(s, a))
  }

  ghost predicate EphemeralsOk(s: State) {
    && s.ephemerals.start <= s.ephemerals.last < s.next && s.nextEphemeral <= s.ephemerals.last + 1
    && (forall a | InEphemerals(s, a) :: Allowed(s.windows, a))
  }

  /** Ephemeral mappings, and reservations that no mapping accounts for. */
  ghost function Reservations(s: State): (n: int) {
    Outstanding(s.maps) + s.lost
  }

  /** The 64-bit counter tells their number. */
  ghost predicate Balanced(s: State) {
    s.nephemerals == Reservations(s) % TWO64
  }

  /** So few that the counter is at one only if there is one. */
  ghost predicate Few(s: State) {
    Reservations(s) <= TWO64
  }

  /** The counter accounts for every reservation in the 64k, and the flag says which mappings are there. */
  ghost predicate Counted(s: State) {
    s.lost >= 0 && Balanced(s) && Flagged(s)
  }

  ghost predicate Flagged(s: State) {
    forall i | 0 <= i < |s.maps| :: s.maps[i].ephemeral <==> InEphemerals(s, s.maps[i].iova)
  }

  function Outstanding(maps: seq<Mapping>): (n: nat) {
    if maps == [] then 0 else Outstanding(maps[1..]) + if maps[0].ephemeral then 1 else 0
  }

  ghost predicate Inv(s: State) {
    && WellFormed(s.windows) && s.next < TWO64
    && BuffersApart(s.maps) && IovasApart(s.maps) && Placed(s)
    && FreeOk(s) && EphemeralsOk(s)
  }

  // ----- steps

  /** vfio_iommu_type1_init: the first 64k that fit are set aside. */
  ghost predicate Init(s: State) {
    && s.maps == [] && s.free == [] && s.nextEphemeral == s.nephemerals == s.lost == 0
    && WellFormed(s.windows) && Place(s.windows, 0, 0x10000, 1, s.ephemerals.start)
    && s.ephemerals.last == s.ephemerals.start + 0x10000 - 1 && s.next == s.ephemerals.start + 0x10000
  }

  /** Addresses were reserved for an ordinary mapping: from the free list, or from above `next`. */
  ghost predicate Reserved(s: State, r: Range, align: nat, s': State)
    requires align > 0
  {
    && r.start % align == 0
    && (|| (r.start < s.next && Taken(s.free, r, s'.free) && s' == s.(free := s'.free))
        || (Place(s.windows, s.next, r.len, align, r.start) && s' == s.(next := r.End()) && r.End() < TWO64))
  }

  /** Addresses were reserved for an ephemeral mapping. */
  ghost predicate ReservedEphemeral(s: State, r: Range, s': State) {
    && r.start == Max(s.nextEphemeral, s.ephemerals.start) && Inside(s.ephemerals, r.start, r.len)
    && s' == s.(nextEphemeral := r.End(), nephemerals := Increment(s.nephemerals), lost := s.lost + 1)
  }

  /** iova_map_add of a buffer that overlaps no mapped one. */
  ghost predicate Added(s: State, m: Mapping, s': State) {
    && (exists i :: 0 <= i <= |s.maps| && s'.maps == Inserted(s.maps, i, m)) && BuffersApart(s'.maps)
    && s' == s.(maps := s'.maps, lost := if m.ephemeral then s.lost - 1 else s.lost)
  }

  // atomic_inc and atomic_dec_fetch on a 64-bit counter
  function Increment(n: nat): (r: nat) {
    if n == SIZE_MAX then 0 else n + 1
  }

  function Decrement(n: nat): (r: nat) {
    if n == 0 then SIZE_MAX else n - 1
  }

  /** iommu_unmap_vaddr of the mapping at index `i`, once the kernel has unmapped it. */
  function Unmapped(s: State, i: nat): (s': State)
    requires i < |s.maps|
  {
    var m := s.maps[i];
    var t := s.(maps := Removed(s.maps, i), free := if InEphemerals(s, m.iova) then s.free else Put(s.free, m.Iovas()));
    if !m.ephemeral then t
    else
      var n := Decrement(s.nephemerals);
      t.(nephemerals := n, nextEphemeral := if n == 0 then s.ephemerals.start else s.nextEphemeral)
  }

  /** iommu_unmap_all: the kernel drops every mapping; both lists are cleared and nothing else changes. */
  function AllUnmapped(s: State): (s': State) {
    s.(maps := [], free := [], lost := s.lost + Outstanding(s.maps))
  }

  datatype Action =
    | Map(m: Mapping, mapped: bool)                      // iommu_map_vaddr; `mapped`: the kernel agreed
    | MapAligned(m: Mapping, align: nat, mapped: bool)   // iommu_map_vaddr_align
    | Unmap(i: nat)
    | UnmapAll

  ghost predicate Step(s: State, act: Action, s': State) {
    match act
    case Map(m, mapped) =>
      exists t :: (if m.ephemeral then ReservedEphemeral(s, m.Iovas(), t) else Reserved(s, m.Iovas(), 1, t))
                  && Finished(t, m, mapped, s')
    case MapAligned(m, align, mapped) =>
      align > 0 && exists t :: Reserved(s, m.Iovas(), Granted(align), t) && Finished(t, m, mapped, s')
    case Unmap(i) => i < |s.maps| && s' == Unmapped(s, i)
    case UnmapAll => s' == AllUnmapped(s)
  }

  /** The alignment that a request for `align` is sure to get. */
  function Granted(align: nat): (g: nat)
    requires align > 0
    ensures g > 0
  {
    if IsPow2(align) then align else 1
  }

  /** The reservation is followed by the mapping, or, when the kernel refuses, by nothing. */
  ghost predicate Finished(t: State, m: Mapping, mapped: bool, s': State) {
    if mapped then Added(t, m, s') else s' == t
  }

  /** IOMMU_MAP_EPHEMERAL is documented as not supported for aligned mappings. */
  predicate Supported(act: Action) {
    act.MapAligned? ==> !act.m.ephemeral
  }

  // ----- every step keeps the invariant

  lemma InitInv(s: State)
    requires Init(s)
    ensures Inv(s) && Counted(s)
  {
    var i :| 0 <= i < |s.windows| && Inside(s.windows[i], s.ephemerals.start, 0x10000);
    forall a | InEphemerals(s, a) ensures Allowed(s.windows, a) {
      assert s.windows[i].start <= a <= s.windows[i].last;
    }
  }

  lemma {:induction false} OutstandingConcat(a: seq<Mapping>, b: seq<Mapping>)
    ensures Outstanding(a + b) == Outstanding(a) + Outstanding(b)
  {
    if a == [] {
      assert a + b == b;
    } else {
      assert (a + b)[1..] == a[1..] + b;
      OutstandingConcat(a[1..], b);
    }
  }

  lemma OutstandingSplit(maps: seq<Mapping>, i: nat, m: Mapping)
    requires i <= |maps|
    ensures Outstanding(Inserted(maps, i, m)) == Outstanding(maps) + if m.ephemeral then 1 else 0
    ensures i < |maps| ==> Outstanding(maps) == Outstanding(Removed(maps, i)) + if maps[i].ephemeral then 1 else 0
  {
    OutstandingConcat(maps[..i] + [m], maps[i..]);
    OutstandingConcat(maps[..i], [m]);
    OutstandingConcat(maps[..i], maps[i..]);
    assert maps[..i] + maps[i..] == maps;
    if i < |maps| {
      OutstandingConcat(maps[..i], maps[i+1..]);
      assert maps[i..][1..] == maps[i+1..];
    }
  }

  /** What a reservation promises about its addresses before they are mapped. */
  ghost predicate Unclaimed(s: State, m: Mapping) {
    && (forall a | m.Has(a) :: PlacedAt(s, m, a))
    && (forall i, a | 0 <= i < |s.maps| && m.Has(a) :: !s.maps[i].Has(a))
  }

  lemma ReservedInv(s: State, m: Mapping, align: nat, t: State)
    requires Inv(s) && align > 0 && Reserved(s, m.Iovas(), align, t)
    ensures Inv(t) && Unclaimed(t, m) && (m.len > 0 ==> !InEphemerals(t, m.iova))
  {
    if Taken(s.free, m.Iovas(), t.free) && t == s.(free := t.free) {
      TakenInv(s, m, t);
    } else {
      BumpedInv(s, m, t);
    }
  }

  lemma TakenInv(s: State, m: Mapping, t: State)
    requires Inv(s) && Taken(s.free, m.Iovas(), t.free) && t == s.(free := t.free)
    ensures Inv(t) && Unclaimed(t, m) && (m.len > 0 ==> !InEphemerals(t, m.iova))
  {
    assert forall a :: m.Has(a) <==> m.Iovas().Has(a);
    assert m.len > 0 ==> m.Has(m.iova) && Free(s.free, m.iova);
  }

  lemma BumpedInv(s: State, m: Mapping, t: State)
    requires Inv(s) && Place(s.windows, s.next, m.len, 1, m.iova) && t == s.(next := m.iova + m.len) && t.next < TWO64
    ensures Inv(t) && Unclaimed(t, m) && (m.len > 0 ==> !InEphemerals(t, m.iova))
  {
    var i :| 0 <= i < |s.windows| && Inside(s.windows[i], m.iova, m.len);
    forall a | m.Has(a) ensures Allowed(s.windows, a) {
      assert s.windows[i].start <= a <= s.windows[i].last;
    }
  }

  lemma ReservedEphemeralInv(s: State, m: Mapping, t: State)
    requires Inv(s) && ReservedEphemeral(s, m.Iovas(), t)
    ensures Inv(t) && Unclaimed(t, m) && InEphemerals(t, m.iova)
  {
  }

  lemma AddedInv(t: State, m: Mapping, s': State)
    requires Inv(t) && Unclaimed(t, m) && Added(t, m, s')
    ensures Inv(s')
  {
    var i :| 0 <= i <= |t.maps| && s'.maps == Inserted(t.maps, i, m);
    InsertedApart(t.maps, i, m);
    InsertedPlaced(t, i, m, s');
  }

  lemma InsertedApart(maps: seq<Mapping>, i: nat, m: Mapping)
    requires IovasApart(maps) && i <= |maps| && forall j, a | 0 <= j < |maps| && m.Has(a) :: !maps[j].Has(a)
    ensures IovasApart(Inserted(maps, i, m))
  {
    var t := Inserted(maps, i, m);
    forall j, k, a | 0 <= j < k < |t| && t[j].Has(a) ensures !t[k].Has(a) {
      assert t[j] == (if j < i then maps[j] else if j == i then m else maps[j-1]);
      assert t[k] == (if k < i then maps[k] else if k == i then m else maps[k-1]);
    }
  }

  lemma InsertedPlaced(t: State, i: nat, m: Mapping, s': State)
    requires Placed(t) && i <= |t.maps| && (forall a | m.Has(a) :: PlacedAt(t, m, a))
    requires s'.maps == Inserted(t.maps, i, m) && s' == t.(maps := s'.maps, lost := s'.lost)
    ensures Placed(s')
  {
    forall j, a | 0 <= j < |s'.maps| && s'.maps[j].Has(a) ensures PlacedAt(s', s'.maps[j], a) {
      assert s'.maps[j] == (if j < i then t.maps[j] else if j == i then m else t.maps[j-1]);
      assert PlacedAt(t, s'.maps[j], a);
    }
  }

  lemma RemovedApart(maps: seq<Mapping>, i: nat)
    requires IovasApart(maps) && BuffersApart(maps) && i < |maps|
    ensures IovasApart(Removed(maps, i)) && BuffersApart(Removed(maps, i))
    ensures forall j | 0 <= j < |maps| - 1 :: Removed(maps, i)[j] == maps[if j < i then j else j + 1]
    ensures forall j, a | 0 <= j < |maps| - 1 && Removed(maps, i)[j].Has(a) :: !maps[i].Has(a)
  {
    var t := Removed(maps, i);
    assert forall j | 0 <= j < |t| :: t[j] == maps[if j < i then j else j + 1];
  }

  /** Unmapping recycles the 64k although another mapping still lies there. */
  ghost predicate Hazard(s: State, act: Action) {
    && act.Unmap? && act.i < |s.maps| && s.maps[act.i].ephemeral && s.nephemerals == 1
    && exists j :: 0 <= j < |s.maps| && j != act.i && InEphemerals(s, s.maps[j].iova)
  }

  lemma UnmappedFree(s: State, i: nat, s': State)
    requires Inv(s) && i < |s.maps| && s' == Unmapped(s, i)
    ensures FreeOk(s')
    ensures forall a :: Free(s'.free, a) <==> Free(s.free, a) || (!InEphemerals(s, s.maps[i].iova) && s.maps[i].Has(a))
  {
    var m := s.maps[i];
    if !InEphemerals(s, m.iova) {
      OrdinaryPlaced(s, i);
      PutIsUnion(s.free, m.Iovas());
      assert forall a :: m.Has(a) <==> m.Iovas().Has(a);
    }
  }

  /** What the invariant says about a mapping outside the 64k. */
  lemma OrdinaryPlaced(s: State, i: nat)
    requires Inv(s) && i < |s.maps| && !InEphemerals(s, s.maps[i].iova)
    ensures forall a | s.maps[i].Has(a) :: Allowed(s.windows, a) && a < s.next && !Free(s.free, a) && !InEphemerals(s, a)
    ensures var r := s.maps[i].Iovas(); r.len > 0 && r.End() < TWO64 && Apart(s.free, r)
  {
    var m := s.maps[i];
    forall a | m.Has(a) ensures Allowed(s.windows, a) && a < s.next && !Free(s.free, a) && !InEphemerals(s, a) {
      assert PlacedAt(s, m, a);
    }
    assert m.Has(m.iova + m.len - 1);
    assert forall a :: m.Iovas().Has(a) <==> m.Has(a);
  }

  lemma UnmappedPlaced(s: State, i: nat, s': State)
    requires Inv(s) && i < |s.maps| && s' == Unmapped(s, i) && !Hazard(s, Unmap(i))
    ensures Placed(s')
  {
    UnmappedFree(s, i, s');
    RemovedApart(s.maps, i);
    forall j, a | 0 <= j < |s'.maps| && s'.maps[j].Has(a) ensures PlacedAt(s', s'.maps[j], a) {
      assert PlacedAt(s, s'.maps[j], a);
    }
  }

  lemma HazardMisplaces(s: State, i: nat, s': State)
    requires Inv(s) && i < |s.maps| && s' == Unmapped(s, i) && Hazard(s, Unmap(i))
    ensures !Placed(s')
  {
    var j :| 0 <= j < |s.maps| && j != i && InEphemerals(s, s.maps[j].iova);
    var k := if j < i then j else j - 1;
    assert s'.maps[k] == s.maps[j] && s'.maps[k].Has(s'.maps[k].iova);
    assert !PlacedAt(s', s'.maps[k], s'.maps[k].iova);
  }

  /** Unmapping keeps the address space in order exactly when it does not recycle addresses in use. */
  lemma UnmappedInv(s: State, i: nat)
    requires Inv(s) && i < |s.maps|
    ensures Inv(Unmapped(s, i)) <==> !Hazard(s, Unmap(i))
  {
    var s' := Unmapped(s, i);
    UnmappedFree(s, i, s');
    RemovedApart(s.maps, i);
    if Hazard(s, Unmap(i)) { HazardMisplaces(s, i, s'); } else { UnmappedPlaced(s, i, s'); }
  }

  lemma AllUnmappedInv(s: State)
    requires Inv(s)
    ensures Inv(AllUnmapped(s))
  {
  }

  lemma MapInv(s: State, act: Action, s': State)
    requires Inv(s) && Step(s, act, s') && (act.Map? || act.MapAligned?)
    ensures Inv(s')
  {
    match act
    case Map(m, mapped) =>
      var t :| (if m.ephemeral then ReservedEphemeral(s, m.Iovas(), t) else Reserved(s, m.Iovas(), 1, t))
                  && Finished(t, m, mapped, s');
      if m.ephemeral { ReservedEphemeralInv(s, m, t); } else { ReservedInv(s, m, 1, t); }
      if mapped { AddedInv(t, m, s'); }
    case MapAligned(m, align, mapped) =>
      var t :| Reserved(s, m.Iovas(), Granted(align), t) && Finished(t, m, mapped, s');
      ReservedInv(s, m, Granted(align), t);
      if mapped { AddedInv(t, m, s'); }
  }

  /** Every step keeps the address space in order, but for one that recycles addresses in use. */
  lemma StepInv(s: State, act: Action, s': State)
    requires Inv(s) && Step(s, act, s')
    ensures Inv(s') <==> !Hazard(s, act)
  {
    match act
    case Unmap(i) => UnmappedInv(s, i);
    case UnmapAll => AllUnmappedInv(s);
    case _ => MapInv(s, act, s');
  }

  // ----- the counter

  lemma CountsUp(r: int, n: nat)
    requires n == r % TWO64
    ensures Increment(n) == (r + 1) % TWO64
  {
  }

  lemma CountsDown(r: int, n: nat)
    requires n == r % TWO64
    ensures Decrement(n) == (r - 1) % TWO64
  {
  }

  lemma AddedReservations(t: State, m: Mapping, s': State)
    requires Added(t, m, s')
    ensures Reservations(s') == Reservations(t) && s'.nephemerals == t.nephemerals
  {
    var i :| 0 <= i <= |t.maps| && s'.maps == Inserted(t.maps, i, m);
    OutstandingSplit(t.maps, i, m);
  }

  lemma UnmappedBalanced(s: State, i: nat)
    requires Balanced(s) && i < |s.maps|
    ensures Balanced(Unmapped(s, i)) && Reservations(Unmapped(s, i)) == Reservations(s) - if s.maps[i].ephemeral then 1 else 0
  {
    OutstandingSplit(s.maps, i, s.maps[i]);
    CountsDown(Reservations(s), s.nephemerals);
  }

  /** Whatever its flags, a step keeps the counter in step with the reservations, and adds one at most. */
  lemma StepBalanced(s: State, act: Action, s': State)
    requires Balanced(s) && Step(s, act, s')
    ensures Balanced(s') && Reservations(s') <= Reservations(s) + 1
  {
    match act
    case Map(m, mapped) =>
      var t :| (if m.ephemeral then ReservedEphemeral(s, m.Iovas(), t) else Reserved(s, m.Iovas(), 1, t))
                  && Finished(t, m, mapped, s');
      CountsUp(Reservations(s), s.nephemerals);
      if mapped { AddedReservations(t, m, s'); }
    case MapAligned(m, align, mapped) =>
      var t :| Reserved(s, m.Iovas(), Granted(align), t) && Finished(t, m, mapped, s');
      if mapped { AddedReservations(t, m, s'); }
    case Unmap(i) => UnmappedBalanced(s, i);
    case UnmapAll =>
  }

  // ----- supported actions are never hazards, unless there are too many of them

  lemma AddedCounted(t: State, m: Mapping, s': State)
    requires Counted(t) && Added(t, m, s') && (m.ephemeral <==> InEphemerals(t, m.iova)) && (m.ephemeral ==> t.lost > 0)
    ensures Counted(s')
  {
    var i :| 0 <= i <= |t.maps| && s'.maps == Inserted(t.maps, i, m);
    AddedReservations(t, m, s');
    InsertedFlagged(t, i, m, s');
  }

  lemma InsertedFlagged(t: State, i: nat, m: Mapping, s': State)
    requires Flagged(t) && i <= |t.maps| && (m.ephemeral <==> InEphemerals(t, m.iova))
    requires s'.maps == Inserted(t.maps, i, m) && s'.ephemerals == t.ephemerals
    ensures Flagged(s')
  {
    forall j | 0 <= j < |s'.maps| ensures s'.maps[j].ephemeral <==> InEphemerals(s', s'.maps[j].iova) {
      assert s'.maps[j] == (if j < i then t.maps[j] else if j == i then m else t.maps[j-1]);
    }
  }

  lemma UnmappedCounted(s: State, i: nat)
    requires Inv(s) && Counted(s) && i < |s.maps|
    ensures Counted(Unmapped(s, i)) && (Few(s) ==> !Hazard(s, Unmap(i)))
  {
    UnmappedBalanced(s, i);
    RemovedFlagged(s, i, Unmapped(s, i));
    if Few(s) { CountedNoHazard(s, i); }
  }

  lemma RemovedFlagged(s: State, i: nat, s': State)
    requires Flagged(s) && i < |s.maps| && s'.maps == Removed(s.maps, i) && s'.ephemerals == s.ephemerals
    ensures Flagged(s')
  {
    forall j | 0 <= j < |s'.maps| ensures s'.maps[j].ephemeral <==> InEphemerals(s', s'.maps[j].iova) {
      assert s'.maps[j] == s.maps[if j < i then j else j + 1];
    }
  }

  lemma CountedNoHazard(s: State, i: nat)
    requires Counted(s) && Few(s) && i < |s.maps|
    ensures !Hazard(s, Unmap(i))
  {
    if s.maps[i].ephemeral { RecyclesIff(s, i); }
  }

  lemma AddedNotEmpty(t: State, m: Mapping, s': State)
    requires Added(t, m, s')
    ensures m.len > 0
  {
    var i :| 0 <= i <= |t.maps| && s'.maps == Inserted(t.maps, i, m);
    assert s'.maps[i] == m;
  }

  lemma OrdinaryCounted(s: State, m: Mapping, align: nat, t: State, mapped: bool, s': State)
    requires Inv(s) && Counted(s) && align > 0 && !m.ephemeral && Reserved(s, m.Iovas(), align, t) && Finished(t, m, mapped, s')
    ensures Counted(s')
  {
    ReservedCounted(s, m, align, t);
    if mapped {
      ReservedInv(s, m, align, t);
      AddedNotEmpty(t, m, s');
      AddedCounted(t, m, s');
    }
  }

  lemma ReservedCounted(s: State, m: Mapping, align: nat, t: State)
    requires Counted(s) && align > 0 && Reserved(s, m.Iovas(), align, t)
    ensures Counted(t)
  {
    assert t.maps == s.maps && t.nephemerals == s.nephemerals && t.lost == s.lost && t.ephemerals == s.ephemerals;
  }

  lemma EphemeralCounted(s: State, m: Mapping, t: State, mapped: bool, s': State)
    requires Inv(s) && Counted(s) && m.ephemeral && ReservedEphemeral(s, m.Iovas(), t) && Finished(t, m, mapped, s')
    ensures Counted(s')
  {
    ReservedEphemeralInv(s, m, t);
    CountsUp(Reservations(s), s.nephemerals);
    if mapped { AddedCounted(t, m, s'); }
  }

  lemma StepCounted(s: State, act: Action, s': State)
    requires Inv(s) && Counted(s) && Step(s, act, s') && Supported(act)
    ensures Counted(s') && (Few(s) ==> !Hazard(s, act))
  {
    match act
    case Map(m, mapped) =>
      var t :| (if m.ephemeral then ReservedEphemeral(s, m.Iovas(), t) else Reserved(s, m.Iovas(), 1, t))
                  && Finished(t, m, mapped, s');
      if m.ephemeral { EphemeralCounted(s, m, t, mapped, s'); } else { OrdinaryCounted(s, m, 1, t, mapped, s'); }
    case MapAligned(m, align, mapped) =>
      var t :| Reserved(s, m.Iovas(), Granted(align), t) && Finished(t, m, mapped, s');
      OrdinaryCounted(s, m, Granted(align), t, mapped, s');
    case Unmap(i) => UnmappedCounted(s, i);
    case UnmapAll =>
  }

  lemma SupportedStep(s: State, act: Action, s': State)
    requires Inv(s) && Counted(s) && Step(s, act, s') && Supported(act)
    ensures Counted(s') && (Few(s) ==> Inv(s') && !Hazard(s, act))
  {
    StepCounted(s, act, s');
    StepInv(s, act, s');
  }

  // ----- runs

  ghost predicate Run(ss: seq<State>, acts: seq<Action>) {
    |ss| == |acts| + 1 && Init(ss[0]) && forall k | 0 <= k < |acts| :: Step(ss[k], acts[k], ss[k+1])
  }

  ghost predicate AllSupported(acts: seq<Action>) {
    forall k | 0 <= k < |acts| :: Supported(acts[k])
  }

  ghost predicate InOrder(ss: seq<State>, n: nat)
    requires n <= |ss|
  {
    forall k | 0 <= k < n :: Inv(ss[k])
  }

  ghost predicate NoHazard(ss: seq<State>, acts: seq<Action>, n: nat)
    requires n <= |ss| && n <= |acts|
  {
    forall k | 0 <= k < n :: !Hazard(ss[k], acts[k])
  }

  lemma {:induction false} RunInvUpTo(ss: seq<State>, acts: seq<Action>, n: nat)
    requires Run(ss, acts) && n <= |acts|
    ensures InOrder(ss, n + 1) <==> NoHazard(ss, acts, n)
  {
    if n == 0 {
      InitInv(ss[0]);
    } else {
      RunInvUpTo(ss, acts, n - 1);
      assert Step(ss[n-1], acts[n-1], ss[n-1+1]);
      if Inv(ss[n-1]) { StepInv(ss[n-1], acts[n-1], ss[n]); }
      assert InOrder(ss, n + 1) <==> InOrder(ss, n) && Inv(ss[n]);
    }
  }

  /** The address space is in order in every state of a run exactly when no step recycles addresses in use. */
  lemma RunInv(ss: seq<State>, acts: seq<Action>)
    requires Run(ss, acts)
    ensures (forall k | 0 <= k < |ss| :: Inv(ss[k])) <==> (forall k | 0 <= k < |acts| :: !Hazard(ss[k], acts[k]))
  {
    RunInvUpTo(ss, acts, |acts|);
  }

  /** The address space is in order, and the counter right, after `k` steps. */
  ghost predicate Followed(s: State, k: nat) {
    Inv(s) && Counted(s) && Reservations(s) <= k
  }

  lemma FollowedStep(s: State, k: nat, act: Action, s': State)
    requires Followed(s, k) && k <= TWO64 && Step(s, act, s') && Supported(act)
    ensures Followed(s', k + 1)
  {
    SupportedStep(s, act, s');
    StepBalanced(s, act, s');
  }

  lemma {:induction false} SupportedUpTo(ss: seq<State>, acts: seq<Action>, n: nat)
    requires Run(ss, acts) && n <= |acts| && n < TWO64 + 2 && AllSupported(acts)
    ensures Followed(ss[n], n)
  {
    if n == 0 {
      InitInv(ss[0]);
    } else {
      SupportedUpTo(ss, acts, n - 1);
      assert Step(ss[n-1], acts[n-1], ss[n-1+1]);
      FollowedStep(ss[n-1], n - 1, acts[n-1], ss[n]);
    }
  }

  /** Supported actions never do that in a run that the 64-bit counter can follow. */
  lemma SupportedRun(ss: seq<State>, acts: seq<Action>)
    requires Run(ss, acts) && |acts| < TWO64 + 2 && AllSupported(acts)
    ensures forall k | 0 <= k < |ss| :: Inv(ss[k]) && Counted(ss[k])
  {
    forall k | 0 <= k < |ss| ensures Inv(ss[k]) && Counted(ss[k]) {
      SupportedUpTo(ss, acts, k);
    }
  }

  /** Mapping a buffer at recycled addresses and unmapping it again restores the whole state. */
  lemma UnmapUndoesMap(s: State, m: Mapping, t: State, i: nat, s': State)
    requires Inv(s) && !m.ephemeral && m.len > 0 && Reserved(s, m.Iovas(), 1, t) && t.next == s.next
    requires i <= |t.maps| && s' == t.(maps := Inserted(t.maps, i, m)) && m.iova + m.len < TWO64
    ensures Unmapped(s', i) == s
  {
    var r := m.Iovas();
    assert Taken(s.free, r, t.free) by {
      assert !Place(s.windows, s.next, r.len, 1, r.start) || r.End() != s.next;
    }
    PutUndoesTaken(s.free, r, t.free);
    assert r.Has(m.iova) && Free(s.free, m.iova);
    assert Removed(Inserted(t.maps, i, m), i) == t.maps;
  }

  // ----- recycling the ephemeral addresses

  /**
    Unmapping an ephemeral buffer recycles exactly when the counter says so: when it was the last one and none
    was ever lost, or there are 2^64 more.
   */
  lemma RecyclesIff(s: State, i: nat)
    requires Counted(s) && i < |s.maps| && s.maps[i].ephemeral
    ensures Unmapped(s, i).nephemerals == 0 <==> Reservations(s) % TWO64 == 1
    ensures Few(s) ==> (Unmapped(s, i).nephemerals == 0
                        <==> s.lost == 0 && forall j | 0 <= j < |s.maps| && j != i :: !s.maps[j].ephemeral)
  {
    OutstandingSplit(s.maps, i, s.maps[i]);
    OutstandingIff(Removed(s.maps, i));
    RemovedNoneEphemeral(s.maps, i);
  }

  ghost predicate CanReserve(s: State, r: Range) {
    exists t :: ReservedEphemeral(s, r, t)
  }

  lemma CanReserveIff(s: State, r: Range)
    ensures CanReserve(s, r) <==> r.start == Max(s.nextEphemeral, s.ephemerals.start) && Inside(s.ephemerals, r.start, r.len)
  {
    if r.start == Max(s.nextEphemeral, s.ephemerals.start) && Inside(s.ephemerals, r.start, r.len) {
      assert ReservedEphemeral(s, r, s.(nextEphemeral := r.End(), nephemerals := Increment(s.nephemerals), lost := s.lost + 1));
    }
  }

  /**
    Where the next ephemeral mapping goes, if there is room: behind the last one, and back at the start of the 64k after
    the unmap of the only one left, if none was ever lost. Nothing else moves it, unmap-all included.
   */
  lemma EphemeralsNext(s: State, act: Action, s': State, r: Range)
    requires Inv(s) && Counted(s) && Few(s) && Step(s, act, s')
    ensures var start := if act.Map? && act.m.ephemeral then act.m.iova + act.m.len
                         else if act.Unmap? && s.maps[act.i].ephemeral && s.lost == 0
                                 && (forall j | 0 <= j < |s.maps| && j != act.i :: !s.maps[j].ephemeral) then s.ephemerals.start
                         else Max(s.nextEphemeral, s.ephemerals.start);
            CanReserve(s', r) <==> r.start == start && Inside(s.ephemerals, start, r.len)
  {
    CanReserveIff(s', r);
    if act.Unmap? && s.maps[act.i].ephemeral { RecyclesIff(s, act.i); }
  }

  lemma RemovedNoneEphemeral(maps: seq<Mapping>, i: nat)
    requires i < |maps|
    ensures (forall j | 0 <= j < |maps| - 1 :: !Removed(maps, i)[j].ephemeral)
       <==> (forall j | 0 <= j < |maps| && j != i :: !maps[j].ephemeral)
  {
    var t := Removed(maps, i);
    if forall j | 0 <= j < |t| :: !t[j].ephemeral {
      forall j | 0 <= j < |maps| && j != i ensures !maps[j].ephemeral {
        assert maps[j] == t[if j < i then j else j - 1];
      }
    }
    if forall j | 0 <= j < |maps| && j != i :: !maps[j].ephemeral {
      forall j | 0 <= j < |t| ensures !t[j].ephemeral {
        assert t[j] == maps[if j < i then j else j + 1];
      }
    }
  }

  lemma {:induction false} OutstandingIff(maps: seq<Mapping>)
    ensures Outstanding(maps) == 0 <==> forall i | 0 <= i < |maps| :: !maps[i].ephemeral
  {
    if maps != [] {
      OutstandingIff(maps[1..]);
      assert forall i | 1 <= i < |maps| :: maps[i] == maps[1..][i-1];
    }
  }

  /**
    A reservation the kernel then refused to map, or one dropped by unmap-all, is never counted down:
    from then on the ephemeral addresses are used up once and never recycled. Only an aligned mapping with
    the ephemeral flag can make up for the loss, or 2^64 reservations.
   */
  lemma NoRecycleAfterLoss(s: State, act: Action, s': State)
    requires Balanced(s) && s.lost > 0 && Step(s, act, s')
    ensures Balanced(s') && (Few(s) ==> s'.nextEphemeral >= s.nextEphemeral) && (Supported(act) ==> s'.lost > 0)
  {
    StepBalanced(s, act, s');
    match act
    case Unmap(i) => UnmappedAfterLoss(s, i);
    case UnmapAll =>
    case Map(m, mapped) =>
    case MapAligned(m, align, mapped) =>
  }

  lemma UnmappedAfterLoss(s: State, i: nat)
    requires Balanced(s) && s.lost > 0 && i < |s.maps|
    ensures (Few(s) ==> Unmapped(s, i).nextEphemeral == s.nextEphemeral) && Unmapped(s, i).lost == s.lost
  {
    OutstandingSplit(s.maps, i, s.maps[i]);
  }
}
