/**
  An IOMMU context with the vfio backend: the map, unmap and translate entry points of
  src/iommu/dma.c over the allocator of src/iommu/vfio.c. Each method is proved to take one
  step of the state machine in IovaSpace.
 */
module IommuContexts {
  import opened Common
  import opened Align
  import opened SkipLists
  import opened FreeRanges
  import opened FreeLists
  import opened IovaReserve
  import opened IovaSpace
  import IovaMaps

  // VFIO_IOMMU_TYPE1_IOVA_RESERVED
  const RESERVED: nat := 0x10000

  datatype Error = EINVAL | ENOMEM | ENOENT | KERNEL  // KERNEL: whatever the kernel answered
  datatype Result<T> = Ok(value: T) | Err(error: Error)

  // ----- when a reservation fails, and where it ends up

  ghost predicate Exhausted(s: State, len: nat) {
    (forall i | 0 <= i < |s.free| :: !Fits(s.free[i], len)) && forall a: nat :: !Place(s.windows, s.next, len, 1, a)
  }

  /** The best fitting free range if one fits, and else the lowest place above `next`. */
  ghost predicate OrdinaryAt(s: State, len: nat, iova: nat) {
    || (exists b: nat :: BestFit(s.free, len, b) && iova == s.free[b].start)
    || (&& (forall i | 0 <= i < |s.free| :: !Fits(s.free[i], len))
        && Place(s.windows, s.next, len, 1, iova) && forall a: nat | Place(s.windows, s.next, len, 1, a) :: iova <= a)
  }

  ghost predicate EphemeralsExhausted(s: State, len: nat) {
    !Inside(s.ephemerals, Max(s.nextEphemeral, s.ephemerals.start), len)
  }

  ghost predicate NoneUsable(s: State, len: nat, up: Rounding) {
    forall i | 0 <= i < |s.free| :: !Usable(s.free[i], len, up)
  }

  ghost predicate NoneServes(s: State, len: nat, up: Rounding) {
    forall i | 0 <= i < |s.windows| :: !Serves(s.windows[i], s.next, len, up)
  }

  /** The best usable free range if there is one, and else the first window that serves. */
  ghost predicate AlignedAt(s: State, len: nat, up: Rounding, iova: nat) {
    || (exists b: nat :: BestAligned(s.free, len, up, b) && iova == up(s.free[b].start))
    || (NoneUsable(s, len, up)
        && exists i: nat :: FirstServing(s.windows, s.next, len, up, i) && iova == Candidate(s.windows[i], s.next, up))
  }

  /** What comes from the free list was handed out before. */
  lemma FreeBelowNext(s: State, len: nat, iova: nat)
    requires FreeOk(s) && exists b: nat :: BestFit(s.free, len, b) && iova == s.free[b].start
    ensures iova < s.next
  {
    var b: nat :| BestFit(s.free, len, b) && iova == s.free[b].start;
    assert s.free[b].Has(iova) && Free(s.free, iova);
  }

  lemma AlignedBelowNext(s: State, len: nat, up: Rounding, iova: nat)
    requires FreeOk(s) && exists b: nat :: BestAligned(s.free, len, up, b) && iova == up(s.free[b].start)
    ensures iova < s.next
  {
    var b: nat :| BestAligned(s.free, len, up, b) && iova == up(s.free[b].start);
    assert s.free[b].Has(iova) && Free(s.free, iova);
  }

  lemma Bumped(s: State, len: nat, align: nat, i: nat, iova: nat)
    requires WellFormed(s.windows) && s.next < TWO64 && 0 < align < TWO64
    requires FirstServing(s.windows, s.next, len, RoundUp(align), i)
    requires iova == Candidate(s.windows[i], s.next, RoundUp(align)) && Place(s.windows, s.next, len, 1, iova) && iova + len < TWO64
    ensures Reserved(s, Range(iova, len), Granted(align), s.(next := iova + len))
  {
    if IsPow2(align) { ServingIsLowest(s.windows, s.next, len, align); }
  }

  class IommuContext {
    const windows: seq<Window>
    const pagesize: nat
    const mappings: SkipList<Mapping>
    const frees: SkipList<Range>
    var next: nat
    var nextEphemeral: nat
    var nephemerals: nat
    var ephemerals: Window
    ghost var lost: int

    ghost function View(): (s: State)
      reads this, mappings, frees
    {
      State(mappings.contents, frees.contents, next, nextEphemeral, nephemerals, ephemerals, windows, lost)
    }

    ghost predicate Sound()
      reads this, mappings, frees
    {
      (mappings as object) != frees && IsAlign(pagesize) && mappings.Valid() && frees.Valid()
    }

    /** Both lists are sound, and the address space they make up is in order. */
    ghost predicate Valid()
      reads this, mappings, frees
    {
      Sound() && Inv(View())
    }

    /** iommu_ctx_init, vfio_init_container and vfio_iommu_type1_init once `next` is known. */
    constructor (windows: seq<Window>, pagesize: nat, iova: nat)
      requires WellFormed(windows) && IsAlign(pagesize) && Place(windows, 0, RESERVED, 1, iova) && iova + RESERVED < TWO64
      ensures Valid() && Init(View()) && Counted(View()) && fresh(mappings) && fresh(frees)
      ensures this.windows == windows && this.pagesize == pagesize && ephemerals.start == iova
    {
      this.windows, this.pagesize := windows, pagesize;
      mappings := new SkipList<Mapping>();
      frees := new SkipList<Range>();
      next, nextEphemeral, nephemerals := iova + RESERVED, 0, 0;
      ephemerals := Window(iova, iova + RESERVED - 1);
      lost := 0;
      new;
      InitInv(View());
    }

    /** vfio_iommu_type1_iova_reserve for an ordinary mapping. */
    method ReserveOrdinary(len: nat) returns (r: Result<nat>)
      requires Valid()
      modifies this, frees
      ensures Sound() && View().maps == old(View()).maps
      ensures r.Ok? ==> OrdinaryAt(old(View()), len, r.value) && Reserved(old(View()), Range(r.value, len), 1, View())
      ensures r.Err? ==> View() == old(View()) && (r.error == EINVAL || r.error == ENOMEM)
      ensures r == Err(EINVAL) <==> !Aligned(len, pagesize)
      ensures r == Err(ENOMEM) <==> Aligned(len, pagesize) && Exhausted(old(View()), len)
    {
      if !Aligned(len, pagesize) {
        return Err(EINVAL);
      }
      var ok, iova := GetFree(frees, len);
      if ok {
        FreeBelowNext(old(View()), len, iova);
        return Ok(iova);
      }
      var next';
      ok, iova, next' := Reserve(windows, next, len);
      next := next';
      return if ok then Ok(iova) else Err(ENOMEM);
    }

    /** vfio_iommu_type1_iova_reserve_align */
    method ReserveAligned(len: nat, align: nat, level: nat, level': nat) returns (r: Result<nat>)
      requires Valid() && align < TWO64 && level < LEVELS && level' < LEVELS
      modifies this, frees
      ensures Sound() && View().maps == old(View()).maps
      ensures r == Err(EINVAL) <==> !Aligned(len, pagesize) || align == 0 || !Aligned(align, pagesize)
      ensures r.Ok? ==> Reserved(old(View()), Range(r.value, len), Granted(align), View())
      ensures r.Ok? ==> AlignedAt(old(View()), len, RoundUp(align), r.value)
      ensures r.Err? ==> View() == old(View()) && (r.error == EINVAL || r.error == ENOMEM)
      ensures r != Err(EINVAL) ==>
                (r == Err(ENOMEM) <==> NoneUsable(old(View()), len, RoundUp(align)) && NoneServes(old(View()), len, RoundUp(align)))
    {
      if !Aligned(len, pagesize) || align == 0 || !Aligned(align, pagesize) {
        return Err(EINVAL);
      }
      var ok, iova := GetFreeAlign(frees, len, align, level, level');
      if ok {
        AlignedBelowNext(old(View()), len, RoundUp(align), iova);
        return Ok(iova);
      }
      ok, iova := BumpAligned(len, align);
      return if ok then Ok(iova) else Err(ENOMEM);
    }

    /** Its second half, the bump allocator. */
    method BumpAligned(len: nat, align: nat) returns (ok: bool, iova: nat)
      requires Valid() && 0 < align < TWO64 && NoneUsable(View(), len, RoundUp(align))
      modifies this`next
      ensures ok ==> Reserved(old(View()), Range(iova, len), Granted(align), View())
      ensures ok ==> AlignedAt(old(View()), len, RoundUp(align), iova)
      ensures !ok ==> View() == old(View())
      ensures !ok <==> NoneServes(old(View()), len, RoundUp(align))
    {
      var next';
      ghost var i;
      ok, iova, next', i := ReserveAlign(windows, next, len, align);
      if ok { Bumped(View(), len, align, i, iova); }
      next := next';
    }

    /** vfio_iommu_type1_iova_reserve for an ephemeral mapping. */
    method ReserveFromEphemerals(len: nat) returns (r: Result<nat>)
      requires Valid()
      modifies this
      ensures Sound() && View().maps == old(View()).maps
      ensures r.Ok? ==> ReservedEphemeral(old(View()), Range(r.value, len), View())
      ensures r.Err? ==> View() == old(View()) && (r.error == EINVAL || r.error == ENOMEM)
      ensures r == Err(EINVAL) <==> !Aligned(len, pagesize)
      ensures r == Err(ENOMEM) <==> Aligned(len, pagesize) && EphemeralsExhausted(old(View()), len)
    {
      if !Aligned(len, pagesize) {
        return Err(EINVAL);
      }
      OneWindow(ephemerals, nextEphemeral, len);
      var ok, iova, next' := Reserve([ephemerals], nextEphemeral, len);
      if !ok {
        return Err(ENOMEM);
      }
      nextEphemeral := next';
      nephemerals := Increment(nephemerals);
      lost := lost + 1;
      return Ok(iova);
    }

    /** The kernel call and iova_map_add that follow a reservation. */
    method Finish(m: Mapping, kernel: bool, level: nat) returns (r: Result<nat>)
      requires Valid() && Aligned(m.len, pagesize) && level < LEVELS && m.VEnd() < TWO64
      requires IovaMaps.ToIova(mappings.contents, m.vaddr) == None && (m.len > 0 ==> IovaMaps.NoOverlap(mappings.contents, m))
      requires Unclaimed(View(), m)
      modifies this, mappings
      ensures Valid() && Answers(r, m.vaddr, m.len, m.iova, kernel) && Finished(old(View()), m, r.Ok?, View())
    {
      if !Aligned(m.vaddr, pagesize) || !Aligned(m.len, pagesize) || !Aligned(m.iova, pagesize) {
        return Err(EINVAL);
      }
      if !kernel {
        return Err(KERNEL);
      }
      var ok := Enter(m, level);
      if ok { AddedInv(old(View()), m, View()); }
      return if ok then Ok(m.iova) else Err(EINVAL);
    }

    /** iova_map_add */
    method Enter(m: Mapping, level: nat) returns (ok: bool)
      requires Sound() && BuffersApart(mappings.contents) && level < LEVELS && m.VEnd() < TWO64
      requires IovaMaps.ToIova(mappings.contents, m.vaddr) == None && (m.len > 0 ==> IovaMaps.NoOverlap(mappings.contents, m))
      modifies this`lost, mappings
      ensures Sound() && (ok <==> m.len > 0) && Finished(old(View()), m, ok, View())
    {
      var error := IovaMaps.Add(mappings, m, level);
      if error.Some? {
        return false;
      }
      if m.ephemeral {
        lost := lost - 1;
      }
      return true;
    }

    /** What a caller of the map entry points must see to: the buffer does not run into a mapped one. */
    ghost predicate BufferOk(vaddr: nat, len: nat)
      reads mappings
    {
      && vaddr + len < TWO64
      && (len > 0 && IovaMaps.ToIova(mappings.contents, vaddr) == None ==>
            IovaMaps.NoOverlap(mappings.contents, Mapping(vaddr, len, 0, false)))
    }

    /** What a caller is told once addresses of the right length are reserved. */
    ghost predicate Answers(r: Result<nat>, vaddr: nat, len: nat, iova: nat, kernel: bool)
      requires IsAlign(pagesize)
    {
      && (r == Ok(iova) <==> Aligned(vaddr, pagesize) && Aligned(iova, pagesize) && kernel && len > 0)
      && (r == Err(EINVAL) <==> !Aligned(vaddr, pagesize) || !Aligned(iova, pagesize) || (kernel && len == 0))
      && (r == Err(KERNEL) <==> Aligned(vaddr, pagesize) && Aligned(iova, pagesize) && !kernel)
    }

    /** iommu_map_vaddr without IOMMU_MAP_FIXED_IOVA. */
    method MapVaddr(vaddr: nat, len: nat, ephemeral: bool, kernel: bool, level: nat) returns (r: Result<nat>)
      requires Valid() && BufferOk(vaddr, len) && level < LEVELS
      modifies this, mappings, frees
      ensures Valid() && (old(Counted(View())) ==> Counted(View()))
      ensures old(IovaMaps.ToIova(mappings.contents, vaddr)).Some? ==>
                View() == old(View()) && r == Ok(old(IovaMaps.ToIova(mappings.contents, vaddr)).value)
      ensures old(IovaMaps.ToIova(mappings.contents, vaddr)).None? ==>
                if !Aligned(len, pagesize) then r == Err(EINVAL) && View() == old(View())
                else if (if ephemeral then EphemeralsExhausted(old(View()), len) else Exhausted(old(View()), len)) then
                  r == Err(ENOMEM) && View() == old(View())
                else
                  exists iova: nat ::
                    && (!ephemeral ==> OrdinaryAt(old(View()), len, iova))
                    && Answers(r, vaddr, len, iova, kernel)
                    && Step(old(View()), Map(Mapping(vaddr, len, iova, ephemeral), r.Ok?), View())
    {
      var known := IovaMaps.TranslateVaddr(mappings, vaddr);
      if known.Some? {
        return Ok(known.value);
      }
      if ephemeral {
        r := ReserveFromEphemerals(len);
      } else {
        r := ReserveOrdinary(len);
      }
      if r.Err? {
        return;
      }
      r := MapReserved(vaddr, len, r.value, ephemeral, kernel, level, old(View()));
    }

    /** The rest of iommu_map_vaddr once addresses are reserved. */
    method MapReserved(vaddr: nat, len: nat, iova: nat, ephemeral: bool, kernel: bool, level: nat, ghost s: State)
      returns (r: Result<nat>)
      requires Sound() && Inv(s) && View().maps == s.maps && BufferOk(vaddr, len) && level < LEVELS
      requires IovaMaps.ToIova(mappings.contents, vaddr) == None && Aligned(len, pagesize)
      requires if ephemeral then ReservedEphemeral(s, Range(iova, len), View()) else Reserved(s, Range(iova, len), 1, View())
      modifies this, mappings
      ensures Valid() && (Counted(s) ==> Counted(View()))
      ensures Answers(r, vaddr, len, iova, kernel)
      ensures Step(s, Map(Mapping(vaddr, len, iova, ephemeral), r.Ok?), View())
    {
      var m := Mapping(vaddr, len, iova, ephemeral);
      ghost var t := View();
      if ephemeral { ReservedEphemeralInv(s, m, t); } else { ReservedInv(s, m, 1, t); }
      r := Finish(m, kernel, level);
      assert Step(s, Map(m, r.Ok?), View());
      if Counted(s) { StepCounted(s, Map(m, r.Ok?), View()); }
    }

    /** iommu_map_vaddr_align; it records the ephemeral flag although it does not support it. */
    method MapVaddrAlign(vaddr: nat, len: nat, align: nat, ephemeral: bool, kernel: bool,
                         level: nat, level': nat, level'': nat)
      returns (r: Result<nat>)
      requires Valid() && BufferOk(vaddr, len) && align < TWO64 && level < LEVELS && level' < LEVELS && level'' < LEVELS
      modifies this, mappings, frees
      ensures Valid() && (old(Counted(View())) && !ephemeral ==> Counted(View()))
      ensures old(IovaMaps.ToIova(mappings.contents, vaddr)).Some? ==>
                View() == old(View()) && r == Ok(old(IovaMaps.ToIova(mappings.contents, vaddr)).value)
      ensures old(IovaMaps.ToIova(mappings.contents, vaddr)).None? ==>
                if !Aligned(len, pagesize) || align == 0 || !Aligned(align, pagesize) then r == Err(EINVAL) && View() == old(View())
                else if NoneUsable(old(View()), len, RoundUp(align)) && NoneServes(old(View()), len, RoundUp(align)) then
                  r == Err(ENOMEM) && View() == old(View())
                else
                  exists iova: nat ::
                    && AlignedAt(old(View()), len, RoundUp(align), iova) && (IsPow2(align) ==> iova % align == 0)
                    && Answers(r, vaddr, len, iova, kernel)
                    && Step(old(View()), MapAligned(Mapping(vaddr, len, iova, ephemeral), align, r.Ok?), View())
    {
      var known := IovaMaps.TranslateVaddr(mappings, vaddr);
      if known.Some? {
        return Ok(known.value);
      }
      r := ReserveAligned(len, align, level, level');
      if r.Err? {
        return;
      }
      r := MapReservedAligned(vaddr, len, align, r.value, ephemeral, kernel, level'', old(View()));
    }

    /** The rest of iommu_map_vaddr_align once addresses are reserved. */
    method MapReservedAligned(vaddr: nat, len: nat, align: nat, iova: nat, ephemeral: bool, kernel: bool, level: nat, ghost s: State)
      returns (r: Result<nat>)
      requires Sound() && Inv(s) && View().maps == s.maps && BufferOk(vaddr, len) && level < LEVELS && align > 0
      requires IovaMaps.ToIova(mappings.contents, vaddr) == None && Aligned(len, pagesize)
      requires Reserved(s, Range(iova, len), Granted(align), View())
      modifies this, mappings
      ensures Valid() && (Counted(s) && !ephemeral ==> Counted(View()))
      ensures Answers(r, vaddr, len, iova, kernel)
      ensures Step(s, MapAligned(Mapping(vaddr, len, iova, ephemeral), align, r.Ok?), View())
    {
      var m := Mapping(vaddr, len, iova, ephemeral);
      ghost var t := View();
      ReservedInv(s, m, Granted(align), t);
      r := Finish(m, kernel, level);
      assert Step(s, MapAligned(m, align, r.Ok?), View());
      if Counted(s) && !ephemeral { StepCounted(s, MapAligned(m, align, r.Ok?), View()); }
    }

    /** iommu_unmap_vaddr, with vfio_iova_put and the count of ephemerals. */
    method UnmapVaddr(vaddr: nat, kernel: bool, level: nat) returns (r: Result<nat>)
      requires Valid() && level < LEVELS
      modifies this, mappings, frees
      ensures Sound() && (old(Counted(View())) ==> Counted(View()) && (old(Few(View())) ==> Valid()))
      ensures r.Err? ==> View() == old(View())
      ensures r == Err(ENOENT) <==> old(IovaMaps.ToIova(mappings.contents, vaddr)).None?
      ensures r == Err(KERNEL) <==> old(IovaMaps.ToIova(mappings.contents, vaddr)).Some? && !kernel
      ensures r.Err? ==> r.error == ENOENT || r.error == KERNEL
      ensures r.Ok? ==> exists i :: 0 <= i < |old(View()).maps| && IovaMaps.Compare(vaddr, old(View()).maps[i]) == 0
                          && r.value == old(View()).maps[i].len && View() == Unmapped(old(View()), i)
                          && (Valid() <==> !Hazard(old(View()), Unmap(i)))
    {
      var n, m, _, i := IovaMaps.FindMapping(mappings, vaddr);
      if n == HEAD {
        return Err(ENOENT);
      }
      if !kernel {
        return Err(KERNEL);
      }
      UnmapFound(m, level, i);
      return Ok(m.len);
    }

    /** The rest of iommu_unmap_vaddr, once the mapping is found and the kernel has unmapped it. */
    method UnmapFound(m: Mapping, level: nat, ghost i: nat)
      requires Valid() && level < LEVELS && i < |mappings.contents| && mappings.contents[i] == m
      modifies this, mappings, frees
      ensures Sound() && View() == Unmapped(old(View()), i)
      ensures Valid() <==> !Hazard(old(View()), Unmap(i))
      ensures old(Counted(View())) ==> Counted(View()) && (old(Few(View())) ==> Valid())
    {
      UnmappedInv(View(), i);
      if Counted(View()) { UnmappedCounted(View(), i); }
      Put(m, level, i);
      if m.ephemeral {
        nephemerals := Decrement(nephemerals);
        if nephemerals == 0 {
          nextEphemeral := ephemerals.start;
        }
      }
      IovaMaps.Remove(mappings, m.vaddr, i);
    }

    /** vfio_iova_put */
    method Put(m: Mapping, level: nat, ghost i: nat)
      requires Valid() && level < LEVELS && i < |mappings.contents| && mappings.contents[i] == m
      modifies frees
      ensures frees.Valid()
      ensures frees.contents
              == if InEphemerals(old(View()), m.iova) then old(frees.contents) else FreeRanges.Put(old(frees.contents), m.Iovas())
    {
      if !(m.iova >= ephemerals.start && m.iova <= ephemerals.last) {
        OrdinaryPlaced(View(), i);
        PutFree(frees, m.iova, m.len, level);
      }
    }

    /** iommu_unmap_all with the vfio backend's dma_unmap_all. */
    method UnmapAll(kernel: bool) returns (ok: bool)
      requires Valid()
      modifies this, mappings, frees
      ensures Valid() && ok == kernel && (old(Counted(View())) ==> Counted(View()))
      ensures View() == if ok then AllUnmapped(old(View())) else old(View())
    {
      if !kernel {
        return false;
      }
      AllUnmappedInv(View());
      lost := lost + Outstanding(mappings.contents);
      var _ := frees.Clear();
      var _ := mappings.Clear();
      return true;
    }
  }

  /** Setting up: fails exactly when the page size or the windows leave no room for the 64k. */
  method Create(windows: seq<Window>, pagesize: nat) returns (r: Option<IommuContext>)
    requires WellFormed(windows) && IsAlign(pagesize)
    ensures r.Some? <==> Aligned(RESERVED, pagesize) && exists a: nat :: Place(windows, 0, RESERVED, 1, a)
    ensures r.Some? ==> fresh(r.value) && fresh(r.value.mappings) && fresh(r.value.frees)
    ensures r.Some? ==> r.value.Valid() && Init(r.value.View()) && Counted(r.value.View())
    ensures r.Some? ==> r.value.windows == windows && r.value.pagesize == pagesize
    ensures r.Some? ==> forall a: nat | Place(windows, 0, RESERVED, 1, a) :: r.value.ephemerals.start <= a
  {
    if !Aligned(RESERVED, pagesize) {
      return None;
    }
    var ok, iova, _ := Reserve(windows, 0, RESERVED);
    if !ok {
      return None;
    }
    var c := new IommuContext(windows, pagesize, iova);
    return Some(c);
  }

  /** A context with the default window, asked for a page aligned to three pages, hands out 128k: no multiple of 12288. */
  method ThreePagesInContext() returns (r: Result<nat>)
    ensures r == Ok(0x20000) && 0x20000 % 0x3000 != 0
  {
    var windows := [Window(0x10000, 0x7F_FFFF_FFFF)];
    PageSize();
    DefaultRoom(windows);
    var c := Create(windows, 0x1000);
    DefaultStart(c.value.View());
    DefaultAligned(c.value.View());
    r := c.value.ReserveAligned(0x1000, 0x3000, 0, 0);
  }

  lemma DefaultRoom(windows: seq<Window>)
    requires windows == [Window(0x10000, 0x7F_FFFF_FFFF)]
    ensures WellFormed(windows) && Place(windows, 0, RESERVED, 1, 0x10000)
  {
    assert Inside(windows[0], 0x10000, RESERVED);
  }

  lemma DefaultStart(s: State)
    requires Init(s) && s.windows == [Window(0x10000, 0x7F_FFFF_FFFF)] && s.ephemerals.start <= 0x10000
    ensures s.free == [] && s.next == 0x20000
  {
  }

  lemma DefaultAligned(s: State)
    requires s.windows == [Window(0x10000, 0x7F_FFFF_FFFF)] && s.free == [] && s.next == 0x20000
    ensures !NoneServes(s, 0x1000, RoundUp(0x3000))
    ensures forall iova: nat | AlignedAt(s, 0x1000, RoundUp(0x3000), iova) :: iova == 0x20000
  {
    ThreePagesHigh();
    assert Candidate(s.windows[0], s.next, RoundUp(0x3000)) == 0x20000;
    assert Serves(s.windows[0], s.next, 0x1000, RoundUp(0x3000));
  }

  lemma PageSize()
    ensures IsAlign(0x1000) && Aligned(RESERVED, 0x1000) && Aligned(0x1000, 0x1000) && Aligned(0x3000, 0x1000)
  {
    TwelveBits(1);
    ScaledIsPow2(12, 1);
    AlignedIsMultiple(RESERVED, 0x1000);
    AlignedIsMultiple(0x1000, 0x1000);
    AlignedIsMultiple(0x3000, 0x1000);
  }
}
