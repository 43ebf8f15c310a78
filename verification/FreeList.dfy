/**
  The free list of src/iommu/vfio.c: best-fit allocation, aligned best-fit allocation and
  coalescing free, on a skiplist of ranges whose keys are rewritten in place.
 */
module FreeLists {
  import opened Align
  import opened SkipLists
  import opened FreeRanges

  // iova_free_range_cmp
  function Compare(start: nat, r: Range): (c: int) {
    if start < r.start then -1 else if start > r.start then 1 else 0
  }

  // 64-bit unsigned addition
  function Add64(a: nat, b: nat): (c: nat)
    requires a < TWO64 && b < TWO64
  {
    if a + b < TWO64 then a + b else a + b - TWO64
  }

  ghost predicate Valid(list: SkipList<Range>)
    reads list
  {
    list.Valid() && Coalesced(list.contents)
  }

  /** The starts are in order and nothing reaches past the top: all a search or an edit in place needs. */
  ghost predicate InOrder(s: seq<Range>) {
    && (forall i | 0 <= i < |s| :: s[i].End() < TWO64)
    && (forall i, j | 0 <= i < j < |s| :: s[i].start < s[j].start)
  }

  /** A search for the start of a range of the list finds it. */
  lemma FoundAt(s: seq<Range>, b: nat)
    requires InOrder(s) && b < |s|
    ensures Ordered(s, s[b].start, Compare)
    ensures forall f: nat | FirstGe(s, s[b].start, Compare, f) :: f == b
  {
    forall f: nat | FirstGe(s, s[b].start, Compare, f) ensures f == b {
      assert Compare(s[b].start, s[b]) == 0 && (f < |s| ==> Compare(s[b].start, s[f]) <= 0);
    }
  }

  /** Looks up a range known to be at index `b` by its start, and unlinks it. */
  method EraseRange(list: SkipList<Range>, n: Ref, start: nat, ghost b: nat)
    requires list.Valid() && InOrder(list.contents)
    requires b < |list.contents| && list.nodes[b+1] == n && list.contents[b].start == start
    modifies list
    ensures list.Valid() && list.contents == Removed(old(list.contents), b)
  {
    FoundAt(list.contents, b);
    var _, update, _ := list.Find(start, Compare);
    list.Erase(n, update, b + 1);
  }

  ghost predicate CanPut(s: seq<Range>, r: Range) {
    Coalesced(s) && r.len > 0 && r.End() < TWO64 && Apart(s, r)
  }

  /** What the three searches of __iova_put_free rely on: `i` ranges lie before `r`, the others after. */
  ghost predicate Between(s: seq<Range>, i: nat, r: Range) {
    && InOrder(s) && i <= |s| && 0 < r.len && r.End() < TWO64
    && (i > 0 ==> s[i-1].len > 0 && s[i-1].End() <= r.start)
    && (i < |s| ==> r.End() <= s[i].start)
  }

  lemma PutBetween(s: seq<Range>, r: Range)
    requires CanPut(s, r)
    ensures Between(s, Index(s, r.start), r) && Coalesced(Put(s, r))
  {
    PutIsUnion(s, r);
    ApartNeighbours(s, r);
  }

  lemma BetweenSearch(s: seq<Range>, i: nat, r: Range)
    requires Between(s, i, r)
    ensures Ordered(s, r.start, Compare)
    ensures forall f: nat | FirstGe(s, r.start, Compare, f) :: f == i
    ensures forall f: nat | CountLe(s, r.start, Compare, f) :: f == i
  {
    assert (i > 0 ==> Compare(r.start, s[i-1]) > 0) && (i < |s| ==> Compare(r.start, s[i]) < 0);
    assert forall j | 0 <= j < i :: s[j].start <= s[i-1].start;
    assert forall j | i <= j < |s| :: s[i].start <= s[j].start;
    forall f: nat | FirstGe(s, r.start, Compare, f) || CountLe(s, r.start, Compare, f) ensures f == i {
      assert (f > 0 ==> Compare(r.start, s[f-1]) >= 0) && (f < |s| ==> Compare(r.start, s[f]) <= 0);
    }
  }

  /** __iova_put_free; `level` is what the skiplist's coin flips give if a node is inserted. */
  method PutFree(list: SkipList<Range>, start: nat, len: nat, level: nat)
    requires Valid(list) && CanPut(list.contents, Range(start, len)) && level < LEVELS
    modifies list
    ensures Valid(list) && list.contents == Put(old(list.contents), Range(start, len))
  {
    PutBetween(list.contents, Range(start, len));
    PutInto(list, start, len, level, Index(list.contents, start));
  }

  method PutInto(list: SkipList<Range>, start: nat, len: nat, level: nat, ghost i: nat)
    requires list.Valid() && Between(list.contents, i, Range(start, len)) && level < LEVELS
    modifies list
    ensures list.Valid() && list.contents == PutAt(old(list.contents), i, Range(start, len))
  {
    var joined := JoinPrevious(list, start, len, i);
    if !joined {
      joined := JoinNext(list, start, len, i);
      if !joined {
        InsertRange(list, start, len, level, i);
      }
    }
  }

  /** Finds the range before, and grows it if it ends where the freed one starts. */
  method JoinPrevious(list: SkipList<Range>, start: nat, len: nat, ghost i: nat) returns (joined: bool)
    requires list.Valid() && Between(list.contents, i, Range(start, len))
    modifies list
    ensures list.Valid() && (joined <==> JoinsBefore(old(list.contents), i, Range(start, len)))
    ensures list.contents == if joined then Extended(old(list.contents), i, len) else old(list.contents)
  {
    BetweenSearch(list.contents, i, Range(start, len));
    var prev, _, x := list.FindLe(start, Compare);
    joined := false;
    if prev != HEAD {
      var p := list.Get(prev, i - 1);
      if Add64(p.start, p.len) == start {
        ExtendPrevious(list, prev, len, i);
        joined := true;
      }
    }
  }

  /** Finds the range after, and moves its start down if the freed one ends there. */
  method JoinNext(list: SkipList<Range>, start: nat, len: nat, ghost i: nat) returns (joined: bool)
    requires list.Valid() && Between(list.contents, i, Range(start, len))
    modifies list
    ensures list.Valid() && (joined <==> JoinsAfter(old(list.contents), i, Range(start, len)))
    ensures joined ==> list.contents == old(list.contents)[i := Range(start, old(list.contents)[i].len + len)]
    ensures !joined ==> list.contents == old(list.contents)
  {
    BetweenSearch(list.contents, i, Range(start, len));
    var next, _, x := list.FindGe(start, Compare);
    joined := false;
    if next != HEAD {
      var n := list.Get(next, i);
      if Add64(start, len) == n.start {
        ExtendNext(list, next, start, len, i);
        joined := true;
      }
    }
  }

  /** Links a new range at its place. */
  method InsertRange(list: SkipList<Range>, start: nat, len: nat, level: nat, ghost i: nat)
    requires list.Valid() && Between(list.contents, i, Range(start, len)) && level < LEVELS
    modifies list
    ensures list.Valid() && list.contents == Inserted(old(list.contents), i, Range(start, len))
  {
    BetweenSearch(list.contents, i, Range(start, len));
    var n := list.New(Range(start, len));
    var _, update, x := list.Find(start, Compare);
    list.Link(n, update, level, i + 1);
  }

  /** The previous range ends where the freed one starts; the next one may follow on as well. */
  method ExtendPrevious(list: SkipList<Range>, prev: Ref, len: nat, ghost i: nat)
    requires list.Valid() && InOrder(list.contents) && 0 < i <= |list.contents| && list.nodes[i] == prev
    requires list.contents[i-1].End() + len < TWO64
    modifies list
    ensures list.Valid() && list.contents == Extended(old(list.contents), i, len)
  {
    var p := list.Get(prev, i - 1);
    var extended := Range(p.start, Add64(p.len, len));
    list.Rewrite(prev, extended, i);
    var next := list.NextNode(prev, i);
    if next != HEAD {
      var n := list.Get(next, i);
      if Add64(extended.start, extended.len) == n.start {
        MergeNext(list, prev, next, i);
      }
    }
  }

  /** The previous range swallows the next one. */
  method MergeNext(list: SkipList<Range>, prev: Ref, next: Ref, ghost i: nat)
    requires list.Valid() && InOrder(list.contents) && 0 < i < |list.contents|
    requires list.nodes[i] == prev && list.nodes[i+1] == next
    requires list.contents[i-1].End() == list.contents[i].start
    modifies list
    ensures list.Valid() && list.contents == Merged(old(list.contents), i)
  {
    var p := list.Get(prev, i - 1);
    var n := list.Get(next, i);
    var merged := Range(p.start, Add64(p.len, n.len));
    list.Rewrite(prev, merged, i);
    EraseRange(list, next, n.start, i);
  }

  /** The freed range ends where the next one starts: that node's key moves down, in place. */
  method ExtendNext(list: SkipList<Range>, next: Ref, start: nat, len: nat, ghost i: nat)
    requires list.Valid() && InOrder(list.contents) && i < |list.contents| && list.nodes[i+1] == next
    requires start + len == list.contents[i].start
    modifies list
    ensures list.Valid()
    ensures list.contents == old(list.contents)[i := Range(start, old(list.contents)[i].len + len)]
  {
    var n := list.Get(next, i);
    list.Rewrite(next, Range(start, Add64(n.len, len)), i + 1);
  }

  // ----- allocation

  /** What best-fit search may pick: a range of at least `len`. One of length SIZE_MAX is never picked. */
  predicate Fits(r: Range, len: nat) {
    len <= r.len < SIZE_MAX
  }

  /** `b` is the first of the smallest ranges that fit. */
  ghost predicate BestFit(s: seq<Range>, len: nat, b: nat) {
    && b < |s| && Fits(s[b], len)
    && (forall i | 0 <= i < |s| && Fits(s[i], len) :: s[b].len <= s[i].len)
    && (forall i | 0 <= i < b && Fits(s[i], len) :: s[b].len < s[i].len)
  }

  /** No other range that is long enough is shorter, and of those as long none comes earlier: so there is only one. */
  lemma BestFitIsFirstSmallest(s: seq<Range>, len: nat, b: nat, i: nat)
    requires BestFit(s, len, b) && i < |s| && len <= s[i].len < SIZE_MAX
    ensures len <= s[b].len <= s[i].len && (s[i].len == s[b].len ==> b <= i)
    ensures BestFit(s, len, i) ==> i == b
  {
  }

  /** __iova_get_free_range */
  method GetFreeRange(list: SkipList<Range>, len: nat) returns (best: Ref, ghost b: nat)
    requires list.Valid()
    ensures best == HEAD <==> forall i | 0 <= i < |list.contents| :: !Fits(list.contents[i], len)
    ensures best != HEAD ==> BestFit(list.contents, len, b) && best == list.nodes[b+1]
  {
    ghost var s := list.contents;
    best, b := HEAD, 0;
    var size := SIZE_MAX;
    ghost var x := 0;
    var n := list.NextNode(HEAD, -1);
    while n != HEAD
      invariant 0 <= x <= |list.nodes| && n == At(list.nodes, x)
      invariant (n == HEAD <==> x == |list.nodes|) && (n == SENTINEL <==> x == 0)
      invariant best == HEAD ==> size == SIZE_MAX
      invariant best != HEAD ==> b + 1 < x && Fits(s[b], len) && size == s[b].len && best == list.nodes[b+1]
      invariant forall i | 0 <= i < x - 1 && Fits(s[i], len) :: best != HEAD && size <= s[i].len && (i < b ==> size < s[i].len)
      decreases |list.nodes| - x
    {
      if n != SENTINEL {
        var r := list.Get(n, x - 1);
        if r.len >= len && r.len < size {
          best, size, b := n, r.len, x - 1;
          if r.len == len {
            break;
          }
        }
      }
      n := list.NextNode(n, x);
      x := x + 1;
    }
  }

  /** __iova_get_free: the front of the first smallest range that fits. */
  method GetFree(list: SkipList<Range>, len: nat) returns (ok: bool, iova: nat)
    requires Valid(list)
    modifies list
    ensures Valid(list)
    ensures ok <==> exists i :: 0 <= i < |old(list.contents)| && Fits(old(list.contents)[i], len)
    ensures !ok ==> list.contents == old(list.contents)
    ensures ok ==> Taken(old(list.contents), Range(iova, len), list.contents)
    ensures ok ==> exists b: nat :: BestFit(old(list.contents), len, b) && iova == old(list.contents)[b].start
  {
    var n, b := GetFreeRange(list, len);
    ok := n != HEAD;
    if !ok {
      iova := 0;
      return;
    }
    var r := list.Get(n, b);
    iova := r.start;
    TakeFront(list, n, r, len, b);
  }

  /** Unlinks the range, or moves its key up in place. */
  method TakeFront(list: SkipList<Range>, n: Ref, r: Range, len: nat, ghost b: nat)
    requires Valid(list) && b < |list.contents| && list.nodes[b+1] == n && list.contents[b] == r && len <= r.len
    modifies list
    ensures Valid(list) && Taken(old(list.contents), Range(r.start, len), list.contents)
  {
    if r.len == len {
      RemovedCoalesced(list.contents, b);
      EraseRange(list, n, r.start, b);
    } else {
      ShortenedCoalesced(list.contents, b, len);
      list.Rewrite(n, Range(Add64(r.start, len), r.len - len), b + 1);
    }
  }

  // ----- aligned allocation

  /** What ALIGN_UP is made for. */
  predicate IsAlign(align: nat) {
    align < TWO64 && IsPow2(align)
  }

  /** A request for `len` at a multiple of `align` can be served from `r` at address `m`. */
  ghost predicate Holds(r: Range, m: nat, len: nat, align: nat)
    requires align > 0
  {
    m % align == 0 && r.start <= m && m + len <= r.End()
  }

  /** ALIGN_UP to a fixed alignment, as the search uses it. */
  type Rounding = nat -> nat

  function RoundUp(align: nat): (up: Rounding)
    requires 0 < align < TWO64
  {
    (x: nat) => AlignUp(x, align)
  }

  /** The tests of the search loop on one range. */
  predicate Usable(r: Range, len: nat, up: Rounding) {
    var aligned := up(r.start);
    aligned >= r.start && aligned - r.start < r.len && len <= Remainder(r, up) < SIZE_MAX
  }

  function Remainder(r: Range, up: Rounding): (n: int) {
    r.len - (up(r.start) - r.start)
  }

  /** Those tests accept exactly the ranges that can serve the request, and find the lowest place in them. */
  lemma UsableMeansHolds(r: Range, len: nat, align: nat)
    requires IsAlign(align) && r.End() < TWO64
    ensures len > 0 ==> (Usable(r, len, RoundUp(align)) <==> r.len < SIZE_MAX && exists m: nat :: Holds(r, m, len, align))
    ensures Usable(r, len, RoundUp(align)) ==> Holds(r, RoundUp(align)(r.start), len, align)
    ensures forall m: nat | Holds(r, m, len, align) :: RoundUp(align)(r.start) <= m
  {
    AlignUpIsCeiling(r.start, align);
    CeilingMeansHolds(r, len, align, RoundUp(align));
  }

  lemma CeilingMeansHolds(r: Range, len: nat, align: nat, up: Rounding)
    requires align > 0 && r.End() < TWO64
    requires up(r.start) % align == 0 && up(r.start) < TWO64
    requires forall m | r.start <= m < TWO64 && m % align == 0 :: r.start <= up(r.start) <= m
    ensures len > 0 ==> (Usable(r, len, up) <==> r.len < SIZE_MAX && exists m: nat :: Holds(r, m, len, align))
    ensures Usable(r, len, up) ==> Holds(r, up(r.start), len, align)
    ensures forall m: nat | Holds(r, m, len, align) :: up(r.start) <= m
  {
    assert 0 % align == 0;
    if Usable(r, len, up) {
      assert Holds(r, up(r.start), len, align);
    }
  }

  ghost predicate BestAligned(s: seq<Range>, len: nat, up: Rounding, b: nat) {
    && b < |s| && Usable(s[b], len, up)
    && (forall i | 0 <= i < |s| && Usable(s[i], len, up) :: Remainder(s[b], up) <= Remainder(s[i], up))
    && (forall i | 0 <= i < b && Usable(s[i], len, up) :: Remainder(s[b], up) < Remainder(s[i], up))
  }

  /** The same for what is left behind the padding. */
  lemma BestAlignedIsFirstSmallest(s: seq<Range>, len: nat, up: Rounding, b: nat, i: nat)
    requires BestAligned(s, len, up, b) && i < |s| && Usable(s[i], len, up)
    ensures len <= s[b].End() - up(s[b].start) <= s[i].End() - up(s[i].start)
    ensures s[b].End() - up(s[b].start) == s[i].End() - up(s[i].start) ==> b <= i
    ensures BestAligned(s, len, up, i) ==> i == b
  {
  }

  /** The search loop of __iova_get_free_align. */
  method GetAlignedRange(list: SkipList<Range>, len: nat, up: Rounding) returns (best: Ref, aligned: nat, ghost b: nat)
    requires list.Valid()
    ensures best == HEAD <==> forall i | 0 <= i < |list.contents| :: !Usable(list.contents[i], len, up)
    ensures best != HEAD ==> BestAligned(list.contents, len, up, b) && best == list.nodes[b+1]
    ensures best != HEAD ==> aligned == up(list.contents[b].start)
  {
    ghost var s := list.contents;
    best, aligned, b := HEAD, 0, 0;
    var size: int := SIZE_MAX;
    ghost var x := 0;
    var n := list.NextNode(HEAD, -1);
    while n != HEAD
      invariant 0 <= x <= |list.nodes| && n == At(list.nodes, x)
      invariant (n == HEAD <==> x == |list.nodes|) && (n == SENTINEL <==> x == 0)
      invariant best == HEAD ==> size == SIZE_MAX
      invariant best != HEAD ==> b + 1 < x && Usable(s[b], len, up) && size == Remainder(s[b], up)
      invariant best != HEAD ==> best == list.nodes[b+1] && aligned == up(s[b].start)
      invariant forall i | 0 <= i < x - 1 && Usable(s[i], len, up) ::
                  best != HEAD && size <= Remainder(s[i], up) && (i < b ==> size < Remainder(s[i], up))
      decreases |list.nodes| - x
    {
      if n != SENTINEL {
        var r := list.Get(n, x - 1);
        var a := up(r.start);
        if a >= r.start && a - r.start < r.len && r.len - (a - r.start) >= len && r.len - (a - r.start) < size {
          best, aligned, size, b := n, a, r.len - (a - r.start), x - 1;
          if size == len {
            break;
          }
        }
      }
      n := list.NextNode(n, x);
      x := x + 1;
    }
  }

  /** Giving back what lies before and after the allocation leaves the list with just the allocation taken. */
  lemma CarvedIsTaken(s: seq<Range>, b: nat, iova: nat, len: nat, t: seq<Range>)
    requires Coalesced(s) && b < |s| && s[b].start <= iova && iova + len <= s[b].End() && Coalesced(t)
    requires forall a :: Free(t, a) <==> Free(Removed(s, b), a) || s[b].start <= a < iova || iova + len <= a < s[b].End()
    ensures Taken(s, Range(iova, len), t)
  {
    RemovedCoalesced(s, b);
    assert forall a | s[b].Has(a) :: Free(s, a);
  }

  /** __iova_get_free_align, with the coin flips of the two nodes it may insert. */
  method GetFreeAlign(list: SkipList<Range>, len: nat, align: nat, level: nat, level': nat) returns (ok: bool, iova: nat)
    requires Valid(list) && 0 < align < TWO64 && level < LEVELS && level' < LEVELS
    modifies list
    ensures Valid(list)
    ensures ok <==> exists i :: 0 <= i < |old(list.contents)| && Usable(old(list.contents)[i], len, RoundUp(align))
    ensures !ok ==> list.contents == old(list.contents)
    ensures ok ==> Taken(old(list.contents), Range(iova, len), list.contents)
    ensures ok ==> exists b: nat :: BestAligned(old(list.contents), len, RoundUp(align), b)
                                    && iova == RoundUp(align)(old(list.contents)[b].start)
    ensures ok && IsPow2(align) ==> iova % align == 0
  {
    var n, aligned, b := GetAlignedRange(list, len, RoundUp(align));
    ok, iova := n != HEAD, aligned;
    if ok {
      var r := list.Get(n, b);
      if IsPow2(align) { UsableMeansHolds(r, len, align); }
      Carve(list, n, r, iova, len, level, level', b);
    }
  }

  /** Puts back a stretch of what was just taken out, if it is not empty. */
  lemma GivenBack(s: seq<Range>, start: nat, end: nat)
    requires Coalesced(s) && start < end < TWO64 && forall a | start <= a < end :: !Free(s, a)
    ensures CanPut(s, Range(start, end - start))
    ensures forall a :: Free(Put(s, Range(start, end - start)), a) <==> Free(s, a) || start <= a < end
  {
    var r := Range(start, end - start);
    assert r.End() == end;
    PutIsUnion(s, r);
    forall a ensures Free(Put(s, r), a) <==> Free(s, a) || start <= a < end {
      assert r.Has(a) <==> start <= a < end;
    }
  }

  method GiveBack(list: SkipList<Range>, start: nat, end: nat, level: nat)
    requires Valid(list) && level < LEVELS && start <= end < TWO64 && forall a | start <= a < end :: !Free(list.contents, a)
    modifies list
    ensures Valid(list)
    ensures forall a :: Free(list.contents, a) <==> Free(old(list.contents), a) || start <= a < end
  {
    if start < end {
      ghost var s := list.contents;
      ghost var t := Put(s, Range(start, end - start));
      assert CanPut(s, Range(start, end - start)) && forall a :: Free(t, a) <==> Free(s, a) || start <= a < end by {
        GivenBack(s, start, end);
      }
      PutFree(list, start, end - start, level);
      assert list.contents == t;
    }
  }

  method Carve(list: SkipList<Range>, n: Ref, r: Range, iova: nat, len: nat, level: nat, level': nat, ghost b: nat)
    requires Valid(list) && level < LEVELS && level' < LEVELS
    requires b < |list.contents| && list.nodes[b+1] == n && list.contents[b] == r
    requires r.start <= iova && iova + len <= r.End()
    modifies list
    ensures Valid(list) && Taken(old(list.contents), Range(iova, len), list.contents)
  {
    ghost var s := list.contents;
    assert Coalesced(Removed(s, b)) && forall a | Free(Removed(s, b), a) :: !r.Has(a) by { RemovedCoalesced(s, b); }
    EraseRange(list, n, r.start, b);
    GiveBack(list, r.start, iova, level);
    GiveBack(list, Add64(iova, len), Add64(r.start, r.len), level');
    CarvedIsTaken(s, b, iova, len, list.contents);
  }
}
