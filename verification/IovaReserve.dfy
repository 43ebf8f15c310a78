/**
  The bump allocators of src/iommu/vfio.c, which hand out addresses at or above `next`
  from a list of allowed ranges.
 */
module IovaReserve {
  import opened Align
  import opened FreeLists

  // struct iommu_iova_range
  datatype Window = Window(start: nat, last: nat)

  /** Ascending, disjoint, and ending below the last 64-bit address. */
  ghost predicate WellFormed(ws: seq<Window>) {
    && (forall i | 0 <= i < |ws| :: ws[i].start <= ws[i].last < SIZE_MAX)
    && (forall i, j | 0 <= i < j < |ws| :: ws[i].last < ws[j].start)
  }

  ghost predicate Inside(w: Window, a: nat, len: nat) {
    w.start <= a <= w.last && a + len <= w.last + 1
  }

  /** A request for `len` at a multiple of `align`, not below `next`, can be served at `a`. */
  ghost predicate Place(ws: seq<Window>, next: nat, len: nat, align: nat, a: nat)
    requires align > 0
  {
    next <= a && a % align == 0 && exists i :: 0 <= i < |ws| && Inside(ws[i], a, len)
  }

  /** None of the first `n` windows can serve the request. */
  ghost predicate NoPlace(ws: seq<Window>, n: nat, next: nat, len: nat, align: nat)
    requires n <= |ws| && align > 0
  {
    forall i, a: nat | 0 <= i < n && next <= a && a % align == 0 :: !Inside(ws[i], a, len)
  }

  /** The first window with a place has the lowest one. */
  lemma LowestPlace(ws: seq<Window>, n: nat, next: nat, len: nat, align: nat, a: nat)
    requires WellFormed(ws) && n < |ws| && align > 0 && NoPlace(ws, n, next, len, align)
    requires next <= a && a % align == 0 && Inside(ws[n], a, len)
    requires forall b: nat | next <= b && b % align == 0 && Inside(ws[n], b, len) :: a <= b
    ensures Place(ws, next, len, align, a)
    ensures forall b: nat | Place(ws, next, len, align, b) :: a <= b
  {
    forall b: nat | Place(ws, next, len, align, b) ensures a <= b {
      var i :| 0 <= i < |ws| && Inside(ws[i], b, len);
      assert i >= n;
      assert i > n ==> ws[n].last < ws[i].start;
    }
  }

  function Max(a: nat, b: nat): (m: nat) { if a < b then b else a }

  /** In a single window the lowest place is `next` or the window's start. */
  lemma OneWindow(w: Window, next: nat, len: nat)
    ensures (exists a: nat :: Place([w], next, len, 1, a)) <==> Inside(w, Max(next, w.start), len)
    ensures Inside(w, Max(next, w.start), len) ==> Place([w], next, len, 1, Max(next, w.start))
    ensures forall a: nat | Place([w], next, len, 1, a) :: Max(next, w.start) <= a
  {
    var low := Max(next, w.start);
    forall a: nat | Place([w], next, len, 1, a) ensures low <= a && Inside(w, low, len) {
      var i :| 0 <= i < |[w]| && Inside([w][i], a, len);
    }
    if Inside(w, low, len) {
      assert Inside([w][0], low, len);
      assert Place([w], next, len, 1, low);
    }
  }

  /** __iova_reserve: the lowest place, or none if there is none. */
  method Reserve(ws: seq<Window>, next: nat, len: nat) returns (ok: bool, iova: nat, next': nat)
    requires WellFormed(ws) && next < TWO64
    ensures ok <==> exists a: nat :: Place(ws, next, len, 1, a)
    ensures ok ==> Place(ws, next, len, 1, iova) && next' == iova + len < TWO64
    ensures ok ==> forall a: nat | Place(ws, next, len, 1, a) :: iova <= a
    ensures !ok ==> next' == next
  {
    var from := next;
    for i := 0 to |ws|
      invariant next <= from < TWO64 && NoPlace(ws, i, next, len, 1)
      invariant from == next || exists j :: 0 <= j < i && from == ws[j].start
    {
      var w := ws[i];
      if w.last < from {
        continue;
      }
      from := if from < w.start then w.start else from;
      if from > w.last || w.last - from + 1 < len {
        continue;
      }
      LowestPlace(ws, i, next, len, 1, from);
      return true, from, from + len;
    }
    return false, 0, next;
  }

  /** Where the search for an aligned place begins and ends up in one window. */
  function Candidate(w: Window, next: nat, up: Rounding): (a: nat) {
    up(Max(next, w.start))
  }

  /** The tests of the loop on one window. */
  ghost predicate Serves(w: Window, next: nat, len: nat, up: Rounding) {
    next <= w.last && Max(next, w.start) <= Candidate(w, next, up) && Inside(w, Candidate(w, next, up), len)
  }

  ghost predicate FirstServing(ws: seq<Window>, next: nat, len: nat, up: Rounding, i: nat) {
    i < |ws| && Serves(ws[i], next, len, up) && forall j | 0 <= j < i :: !Serves(ws[j], next, len, up)
  }

  /** For a power of two, a window serves a request exactly if it has an aligned place. */
  lemma ServesIff(w: Window, next: nat, len: nat, align: nat)
    requires IsAlign(align) && w.start <= w.last < SIZE_MAX && next < TWO64
    ensures Serves(w, next, len, RoundUp(align)) <==> exists a: nat :: next <= a && a % align == 0 && Inside(w, a, len)
    ensures Serves(w, next, len, RoundUp(align)) ==> Candidate(w, next, RoundUp(align)) % align == 0
    ensures forall a: nat | next <= a && a % align == 0 && Inside(w, a, len) :: Candidate(w, next, RoundUp(align)) <= a
  {
    var x := Max(next, w.start);
    AlignUpIsCeiling(x, align);
    assert RoundUp(align)(x) == AlignUp(x, align);
    if Serves(w, next, len, RoundUp(align)) {
      assert next <= AlignUp(x, align) && Inside(w, AlignUp(x, align), len);
    }
  }

  /**
    __iova_reserve_align: ALIGN_UP of `next` or of a window's start, whichever is larger, in the first window
    where that fits, and failure exactly when it fits in none.
   */
  method ReserveAlign(ws: seq<Window>, next: nat, len: nat, align: nat) returns (ok: bool, iova: nat, next': nat, ghost i: nat)
    requires WellFormed(ws) && next < TWO64 && 0 < align < TWO64
    ensures ok <==> exists k :: 0 <= k < |ws| && Serves(ws[k], next, len, RoundUp(align))
    ensures ok ==> FirstServing(ws, next, len, RoundUp(align), i) && iova == Candidate(ws[i], next, RoundUp(align))
    ensures ok ==> Place(ws, next, len, 1, iova) && next' == iova + len < TWO64
    ensures !ok ==> next' == next
  {
    var from, up := next, RoundUp(align);
    for k := 0 to |ws|
      invariant next <= from < TWO64 && (from == next || exists j :: 0 <= j < k && from == ws[j].start)
      invariant forall j | 0 <= j < k :: !Serves(ws[j], next, len, up)
    {
      var w := ws[k];
      assert from == next || from < w.start;
      if w.last < from {
        continue;
      }
      from := if from < w.start then w.start else from;
      var aligned := up(from);
      assert from == Max(next, w.start);
      if aligned < from || aligned > w.last || w.last - aligned + 1 < len {
        continue;
      }
      i := k;
      return true, aligned, aligned + len, i;
    }
    return false, 0, next, 0;
  }

  /** For a power of two the address is the lowest aligned place, and there is one exactly if some window serves. */
  lemma ServingIsLowest(ws: seq<Window>, next: nat, len: nat, align: nat)
    requires WellFormed(ws) && next < TWO64 && IsAlign(align)
    ensures (exists k :: 0 <= k < |ws| && Serves(ws[k], next, len, RoundUp(align)))
            <==> exists a: nat :: Place(ws, next, len, align, a)
    ensures forall i: nat | FirstServing(ws, next, len, RoundUp(align), i) ::
              var a := Candidate(ws[i], next, RoundUp(align));
              Place(ws, next, len, align, a) && forall b: nat | Place(ws, next, len, align, b) :: a <= b
  {
    forall k | 0 <= k < |ws|
      ensures Serves(ws[k], next, len, RoundUp(align)) <==> exists a: nat :: next <= a && a % align == 0 && Inside(ws[k], a, len)
    {
      ServesIff(ws[k], next, len, align);
    }
    if exists a: nat :: Place(ws, next, len, align, a) {
      var a: nat :| Place(ws, next, len, align, a);
      var k :| 0 <= k < |ws| && Inside(ws[k], a, len);
      assert Serves(ws[k], next, len, RoundUp(align));
    }
    if k: nat :| k < |ws| && Serves(ws[k], next, len, RoundUp(align)) {
      var a: nat :| next <= a && a % align == 0 && Inside(ws[k], a, len);
      assert Place(ws, next, len, align, a);
    }
    forall i: nat | FirstServing(ws, next, len, RoundUp(align), i)
      ensures var a := Candidate(ws[i], next, RoundUp(align));
              Place(ws, next, len, align, a) && forall b: nat | Place(ws, next, len, align, b) :: a <= b
    {
      ServesIff(ws[i], next, len, align);
      LowestPlace(ws, i, next, len, align, Candidate(ws[i], next, RoundUp(align)));
    }
  }
}
