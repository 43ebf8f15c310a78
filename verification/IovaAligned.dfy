/**
  The promise of iommu_map_vaddr_align (include/vfn/iommu/dma.h) that its addresses are aligned, for the
  two allocators of src/iommu/vfio.c behind it: it holds exactly for powers of two.
 */
module IovaAligned {
  import opened Align
  import opened FreeRanges
  import opened FreeLists
  import opened IovaReserve

  ghost predicate PageStarts(page: nat, s: seq<Range>)
    requires page > 0
  {
    forall i | 0 <= i < |s| :: s[i].start % page == 0
  }

  ghost predicate PageWindows(page: nat, ws: seq<Window>)
    requires page > 0
  {
    forall i | 0 <= i < |ws| :: ws[i].start % page == 0
  }

  /** An alignment of whole pages that is no power of two misses the page it starts from. */
  lemma PageStays(page: nat, align: nat)
    requires IsPow2(page) && page < TWO64 && 0 < align < TWO64 && align % page == 0 && !IsPow2(align)
    ensures page % page == 0 && page <= AlignUp(page, align) <= align - page && AlignUp(page, align) % align != 0
  {
    var s := Pow2Exponent(page);
    var b := PagesIn(s, align);
    PageMisses(s, b);
    ModUnique(AlignUp(page, align), align, 0, AlignUp(page, align));
    ModUnique(page, page, 1, 0);
  }

  /** The free list gives out multiples of the alignment, whatever is free, exactly for powers of two. */
  lemma FreeAlignedIff(page: nat, align: nat)
    requires IsPow2(page) && page < TWO64 && 0 < align < TWO64 && align % page == 0
    ensures (forall s: seq<Range>, len: nat, b: nat
               | Coalesced(s) && PageStarts(page, s) && BestAligned(s, len, RoundUp(align), b) ::
               RoundUp(align)(s[b].start) % align == 0)
            <==> IsPow2(align)
  {
    if IsPow2(align) {
      forall s: seq<Range>, len: nat, b: nat
        | Coalesced(s) && PageStarts(page, s) && BestAligned(s, len, RoundUp(align), b)
        ensures RoundUp(align)(s[b].start) % align == 0
      {
        AlignUpIsCeiling(s[b].start, align);
      }
    } else {
      PageStays(page, align);
      var v := AlignUp(page, align);
      var s := [Range(page, v)];
      assert Usable(s[0], page, RoundUp(align));
      assert Coalesced(s) && PageStarts(page, s) && BestAligned(s, page, RoundUp(align), 0);
      assert RoundUp(align)(s[0].start) == v;
    }
  }

  /** So does the bump allocator, whatever the windows. */
  lemma WindowAlignedIff(page: nat, align: nat)
    requires IsPow2(page) && page < TWO64 && 0 < align < TWO64 && align % page == 0
    ensures (forall ws: seq<Window>, next: nat, len: nat, i: nat
               | WellFormed(ws) && PageWindows(page, ws) && next < TWO64 && next % page == 0
                 && FirstServing(ws, next, len, RoundUp(align), i) ::
               Candidate(ws[i], next, RoundUp(align)) % align == 0)
            <==> IsPow2(align)
  {
    if IsPow2(align) {
      forall ws: seq<Window>, next: nat, len: nat, i: nat
        | WellFormed(ws) && PageWindows(page, ws) && next < TWO64 && next % page == 0
          && FirstServing(ws, next, len, RoundUp(align), i)
        ensures Candidate(ws[i], next, RoundUp(align)) % align == 0
      {
        AlignUpIsCeiling(Max(next, ws[i].start), align);
      }
    } else {
      PageStays(page, align);
      var v := AlignUp(page, align);
      var ws := [Window(page, v + page - 1)];
      assert Candidate(ws[0], 0, RoundUp(align)) == v;
      assert Serves(ws[0], 0, page, RoundUp(align));
      ModUnique(0, page, 0, 0);
      assert WellFormed(ws) && PageWindows(page, ws) && FirstServing(ws, 0, page, RoundUp(align), 0);
    }
  }
}
