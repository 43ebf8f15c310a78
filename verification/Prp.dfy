/**
  nvme_map_prp, nvme_mapv_prp and nvme_mapv_iova_prp of src/nvme/util.c: PRP1, PRP2 and the
  chained list pages for a buffer or a vector of buffers.
 */
module Prps {
  import opened Common
  import opened Align
  import opened PrpWalk
  import opened PrpEntries
  import opened PrpCursors

  lemma UntouchedTransitive(a: seq<seq<nat>>, b: seq<seq<nat>>, c: seq<seq<nat>>, p: nat, q: nat, r: nat)
    requires Untouched(a, b, p, q) && Untouched(b, c, q, r)
    ensures Untouched(a, c, p, r)
  {
  }

  lemma PutStep(g: Geometry, a: nat, k: nat, done: seq<nat>, left: seq<nat>, rest: seq<nat>, all: seq<nat>) returns (tail: seq<nat>)
    requires k > 0 && left == Pages(g, a, k) && done + left == all
    ensures tail == Pages(g, a + g.page, k - 1) && |tail| == k - 1
    ensures left + rest == [a] + (tail + rest) && (done + [a]) + tail == all
  {
    tail := Pages(g, a + g.page, k - 1);
    PagesLength(g, a + g.page, k - 1);
    AddressesAssociate([a], tail, rest);
    AddressesAssociate(done, [a], tail);
  }

  /** The loops of __map_prp_first and __map_prp_append: one entry per page from `a` on. */
  method PutPages(c: PrpCursor, a: nat, n: nat, last: bool, ghost es: seq<nat>, ghost rest: seq<nat>) returns (ok: bool)
    requires c.Holds(es) && (last <==> rest == []) && n > 0
    modifies c, c.lists
    ensures ok <==> |es| + n <= Capacity(|c.pages|, c.g.slots)
    ensures ok ==> c.Has(es + Pages(c.g, a, n), rest)
    ensures Untouched(old(c.pages), c.pages, old(c.page), c.page)
    ensures ok ==> old(c.Outcome(Pages(c.g, a, n) + rest)) == c.Outcome(rest)
  {
    var g := c.g;
    ghost var start, from, all, target := c.pages, c.page, es + Pages(g, a, n), c.Outcome(Pages(g, a, n) + rest);
    ghost var done: seq<nat>, left: seq<nat>, k: nat := es, Pages(g, a, n), n;
    var addr: nat, i: nat := a, 0;
    while i < n
      invariant 0 <= i <= n && k == n - i && left == Pages(g, addr, k)
      invariant |done| == |es| + i && (i > 0 ==> |done| <= Capacity(|c.pages|, g.slots)) && done + left == all
      invariant c.Has(done, left + rest) && c.Outcome(left + rest) == target
      invariant Untouched(start, c.pages, from, c.page)
    {
      ghost var before, page := c.pages, c.page;
      ghost var tail := PutStep(g, addr, k, done, left, rest, all);
      ok := c.Put(addr, last && i == n - 1, done, tail + rest);
      UntouchedTransitive(start, before, c.pages, from, page, c.page);
      if !ok {
        return;
      }
      done, left, k, addr, i := done + [addr], tail, k - 1, addr + g.page, i + 1;
    }
    assert done + [] == all && [] + rest == rest;
    ok := true;
  }

  /** C's conversion to a 32-bit int. */
  function Int32(x: nat): (i: int) {
    var y := x % 0x1_0000_0000;
    if y < 0x8000_0000 then y else y - 0x1_0000_0000
  }

  /** Page counts are computed in an int: what is left of a first segment must fit into one when rounded up. */
  ghost predicate FirstSafe(g: Geometry, s: Segment)
    requires g.Valid()
  {
    s.len - FirstChunk(g, s) + g.page <= 0x8000_0000
  }

  /** And so must a later segment as it is. */
  ghost predicate AppendSafe(s: Segment) {
    s.len < 0x8000_0000
  }

  ghost predicate IntSafe(g: Geometry, iov: seq<Segment>)
    requires g.Valid() && iov != []
  {
    FirstSafe(g, iov[0]) && forall i | 1 <= i < |iov| :: AppendSafe(iov[i])
  }

  lemma Int32Small(x: nat)
    ensures if x < 0x8000_0000 then Int32(x) == x else Int32(x) <= x - 0x1_0000_0000
  {
  }

  lemma RoundedUp(g: Geometry, left: nat)
    requires g.Valid()
    ensures left <= Size(g, Ceil(g, left)) < left + g.page && Size(g, Ceil(g, left)) / g.page == Ceil(g, left)
  {
    var k, x := Split(g, left);
    assert Size(g, k + 1) == g.page + Size(g, k);
    var n := Ceil(g, left);
    SizeIsProduct(g, n);
    ModUnique(Size(g, n), g.page, n, 0);
  }

  /** The residual of a first segment is counted right exactly when it fits. */
  lemma FirstSafeIff(g: Geometry, left: nat)
    requires g.Valid() && g.page <= 0x800_0000 && 0x8000_0000 % g.page == 0
    ensures Int32(Size(g, Ceil(g, left))) / g.page == Ceil(g, left) <==> left + g.page <= 0x8000_0000
  {
    var n := Size(g, Ceil(g, left));
    RoundedUp(g, left);
    Int32Small(n);
    if n < 0x8000_0000 {
      SizeBelow(g, Ceil(g, left));
    } else {
      SmallerQuotient(Int32(n), n, g.page);
    }
  }

  lemma SizeBelow(g: Geometry, k: nat)
    requires g.Valid() && 0x8000_0000 % g.page == 0 && Size(g, k) < 0x8000_0000
    ensures Size(g, k) + g.page <= 0x8000_0000
  {
    SizeIsProduct(g, k);
    ModUnique(Size(g, k), g.page, k, 0);
    if Size(g, k) + g.page > 0x8000_0000 { MultiplesApart(Size(g, k), 0x8000_0000, g.page); }
  }

  lemma SmallerQuotient(x: int, y: int, d: nat)
    requires d > 0 && x <= y - d
    ensures x / d < y / d
  {
    var q, r := x / d, x % d;
    assert x == d * q + r;
    var p, s := y / d, y % d;
    assert y == d * p + s;
    if p <= q { ProductAtMost(d, p, q); }
  }

  lemma ProductAtMost(d: nat, p: int, q: int)
    requires p <= q
    ensures d * p <= d * q
  {
  }

  /** A later segment is counted right exactly when its length fits. */
  lemma AppendSafeIff(g: Geometry, len: nat)
    requires g.Valid() && g.page <= 0x800_0000
    ensures (if Int32(len) / g.page < 1 then 1 else Int32(len) / g.page) == AppendCount(g, len) <==> len < 0x8000_0000
  {
    Int32Small(len);
    CeilIsDivision(g, len);
    if len >= 0x8000_0000 {
      SmallerQuotient(Int32(len), len, g.page);
      SmallerQuotient(g.page, len, g.page);
      ModUnique(g.page, g.page, 1, 0);
    }
  }

  lemma Int32Exact(g: Geometry, left: nat)
    requires g.Valid() && left + g.page <= 0x8000_0000
    ensures Int32(Size(g, Ceil(g, left))) / g.page == Ceil(g, left)
  {
    RoundedUp(g, left);
    Int32Small(Size(g, Ceil(g, left)));
  }

  /** __map_prp_first */
  method MapFirst(c: PrpCursor, s: Segment, last: bool, ghost rest: seq<nat>) returns (ok: bool, prp1: nat, count: nat)
    requires c.Holds([]) && c.page == 0 && (last <==> rest == []) && FirstSafe(c.g, s)
    modifies c, c.lists
    ensures ok <==> |FirstEntries(c.g, s)| <= Capacity(|c.pages|, c.g.slots)
    ensures ok ==> prp1 == s.iova && count == 1 + |FirstEntries(c.g, s)| && c.Has(FirstEntries(c.g, s), rest)
    ensures Untouched(old(c.pages), c.pages, 0, c.page)
    ensures ok ==> old(c.Outcome(FirstEntries(c.g, s) + rest)) == c.Outcome(rest)
  {
    var g := c.g;
    prp1, count := s.iova, 1;
    var left := s.len - Min(s.len, g.page - s.iova % g.page);
    CeilSmall(g, 0);
    Int32Exact(g, left);
    if left > 0 {
      count := count + Int32(Size(g, Ceil(g, left))) / g.page;
    }
    ghost var es := FirstEntries(g, s);
    PagesLength(g, s.iova - s.iova % g.page + g.page, Ceil(g, left));
    if count - 1 > Capacity(c.lists.Length0, g.slots) {
      return false, prp1, count;
    }
    if count > 1 {
      assert [] + es == es;
      ok := PutPages(c, s.iova - s.iova % g.page + g.page, count - 1, last, [], rest);
    } else {
      assert es == [] && [] + rest == rest;
      ok := true;
    }
  }

  /** __map_prp_append */
  method MapAppend(c: PrpCursor, s: Segment, last: bool, ghost es: seq<nat>, ghost rest: seq<nat>) returns (ok: bool, count: nat)
    requires c.Holds(es) && (last <==> rest == []) && AppendSafe(s)
    modifies c, c.lists
    ensures ok <==> s.iova % c.g.page == 0 && |es| + AppendCount(c.g, s.len) <= Capacity(|c.pages|, c.g.slots)
    ensures count == AppendCount(c.g, s.len)
    ensures ok ==> c.Has(es + Pages(c.g, s.iova, count), rest)
    ensures Untouched(old(c.pages), c.pages, old(c.page), c.page)
    ensures ok ==> old(c.Outcome(Pages(c.g, s.iova, count) + rest)) == c.Outcome(rest)
  {
    Int32Small(s.len);
    CeilIsDivision(c.g, s.len);
    count := if Int32(s.len) / c.g.page < 1 then 1 else Int32(s.len) / c.g.page;
    if s.iova % c.g.page != 0 {
      return false, count;
    }
    ok := PutPages(c, s.iova, count, last, es, rest);
  }

  /** __set_prp2 */
  function Prp2(base: nat, es: seq<nat>): (prp2: nat) {
    if |es| == 1 then es[0] else if |es| > 1 then base else 0
  }

  method SetPrp2(c: PrpCursor, count: nat, ghost es: seq<nat>) returns (prp2: nat)
    requires c.Complete(es) && count == 1 + |es|
    ensures prp2 == Prp2(c.base, es)
    ensures count == 1 ==> prp2 == 0
    ensures count == 2 ==> [prp2] == es
    ensures count > 2 ==> prp2 == c.base
  {
    if count == 2 {
      prp2 := c.First();
      OneStored(c.g, c.base, c.pages, c.page, c.slot, es);
    } else if count > 2 {
      prp2 := c.base;
    } else {
      prp2 := 0;
    }
  }

  lemma OneStored(g: Geometry, base: nat, pages: seq<seq<nat>>, page: nat, slot: nat, es: seq<nat>)
    requires g.Valid() && Laid(g, base, pages, page, slot, es) && (page > 0 ==> slot >= 2) && |es| == 1
    ensures es[0] == pages[0][0]
  {
    StoredLength(pages, g.slots, 0, page, slot);
    if page > 0 {
      ProductMonotone(1, page, g.slots - 1);
      assert false;
    }
  }

  // ----- entry points

  datatype Result = Ok(prp1: nat, prp2: nat) | EINVAL | EFAULT

  /**
    The pages hold the list entries of `iov`: exactly what writing them alone makes of the pages
    as they were, with no page touched past the last one used.
   */
  ghost predicate Encoded(g: Geometry, base: nat, before: seq<seq<nat>>, after: seq<seq<nat>>, iov: seq<Segment>, prp2: nat)
    requires g.Valid() && iov != []
  {
    var es := ListEntries(g, iov);
    && prp2 == Prp2(base, es)
    && |before| > 0 && Rows(before, g.slots) && after == Fill(g, base, before, 0, 0, es)
    && exists page: nat, slot: nat ::
         Laid(g, base, after, page, slot, es) && (page > 0 ==> slot >= 2) && Untouched(before, after, 0, page)
  }

  /** nvme_map_prp; `base` is what iommu_translate_vaddr says about the list pages. */
  method MapPrp(lists: array2<nat>, base: Option<nat>, g: Geometry, iova: nat, len: nat) returns (r: Result)
    requires g.Valid() && lists.Length1 == g.slots && FirstSafe(g, Segment(iova, len))
    modifies lists
    ensures r.EFAULT? <==> lists.Length0 >= 1 && base == None
    ensures r.Ok? <==> lists.Length0 >= 1 && base.Some?
                       && |FirstEntries(g, Segment(iova, len))| <= Capacity(lists.Length0, g.slots)
    ensures r.Ok? && PrpCount(g, iova, len) == 1 ==> r.prp2 == 0
    ensures r.Ok? && PrpCount(g, iova, len) == 2 ==> r.prp2 == iova - iova % g.page + g.page
    ensures r.Ok? && PrpCount(g, iova, len) > 2 ==> r.prp2 == base.value
    ensures r.Ok? ==> r.prp1 == iova
                      && Encoded(g, base.value, old(Contents(lists)), Contents(lists), [Segment(iova, len)], r.prp2)
  {
    if lists.Length0 < 1 {
      return EINVAL;
    }
    if base.None? {
      return EFAULT;
    }
    var s := Segment(iova, len);
    OneSegment(g, s);
    FirstAlone(g, s);
    var c := new PrpCursor(lists, base.value, g);
    assert FirstEntries(g, s) + [] == FirstEntries(g, s);
    var ok, prp1, count := MapFirst(c, s, true, []);
    if !ok {
      return EINVAL;
    }
    var prp2 := SetPrp2(c, count, FirstEntries(g, s));
    assert InMemory(0);
    return Ok(prp1, prp2);
  }

  /** How far a vector has been mapped before its segment `i`. */
  ghost function EntriesBefore(g: Geometry, iov: seq<Segment>, i: nat): (es: seq<nat>)
    requires g.Valid() && 1 <= i <= |iov|
  {
    FirstEntries(g, iov[0]) + AppendEntries(g, iov[1..i])
  }

  lemma EntriesStep(g: Geometry, iov: seq<Segment>, i: nat)
    requires g.Valid() && 1 <= i < |iov|
    ensures EntriesBefore(g, iov, i) + Pages(g, iov[i].iova, AppendCount(g, iov[i].len)) == EntriesBefore(g, iov, i + 1)
    ensures Pages(g, iov[i].iova, AppendCount(g, iov[i].len)) + AppendEntries(g, iov[i+1..]) == AppendEntries(g, iov[i..])
    ensures EntriesBefore(g, iov, i) + AppendEntries(g, iov[i..]) == ListEntries(g, iov)
    ensures |AppendEntries(g, iov[i..])| >= AppendCount(g, iov[i].len) > 0
  {
    var s, first := iov[i], FirstEntries(g, iov[0]);
    assert iov[1..i+1] == iov[1..i] + [s] && iov[1..i] + iov[i..] == iov[1..] && iov[i..][1..] == iov[i+1..];
    AppendConcat(g, iov[1..i], [s]);
    AppendConcat(g, iov[1..i], iov[i..]);
    assert AppendEntries(g, [s]) == Pages(g, s.iova, AppendCount(g, s.len)) by { assert AppendEntries(g, [s][1..]) == []; }
    AddressesAssociate(first, AppendEntries(g, iov[1..i]), AppendEntries(g, [s]));
    AddressesAssociate(first, AppendEntries(g, iov[1..i]), AppendEntries(g, iov[i..]));
    PagesLength(g, s.iova, AppendCount(g, s.len));
  }

  ghost function EntriesAfter(g: Geometry, iov: seq<Segment>, i: nat): (es: seq<nat>)
    requires g.Valid() && 1 <= i <= |iov|
  {
    AppendEntries(g, iov[i..])
  }

  lemma EntriesLeft(g: Geometry, iov: seq<Segment>, i: nat)
    requires g.Valid() && 1 <= i < |iov|
    ensures EntriesAfter(g, iov, i) != []
  {
    EntriesStep(g, iov, i);
  }

  lemma {:induction false} EntriesGrow(g: Geometry, iov: seq<Segment>, i: nat, j: nat)
    requires g.Valid() && 1 <= i <= j <= |iov|
    ensures |EntriesBefore(g, iov, i)| <= |EntriesBefore(g, iov, j)|
    decreases j - i
  {
    if i < j {
      EntriesStep(g, iov, i);
      EntriesGrow(g, iov, i + 1, j);
    }
  }

  lemma EntriesEnds(g: Geometry, iov: seq<Segment>)
    requires g.Valid() && iov != []
    ensures EntriesBefore(g, iov, 1) == FirstEntries(g, iov[0])
    ensures EntriesBefore(g, iov, |iov|) == ListEntries(g, iov) && EntriesAfter(g, iov, |iov|) == []
  {
    assert iov[1..1] == [] && iov[1..|iov|] == iov[1..] && iov[|iov|..] == [];
  }

  /** One round of the loop over the remaining segments. */
  method MapSegment(c: PrpCursor, iov: seq<Segment>, i: nat) returns (ok: bool, count: nat)
    requires c.g.Valid() && 1 <= i < |iov| && c.Holds(EntriesBefore(c.g, iov, i)) && AppendSafe(iov[i])
    modifies c, c.lists
    ensures ok ==> SegmentAccepted(c.g, iov, i) && c.Has(EntriesBefore(c.g, iov, i + 1), EntriesAfter(c.g, iov, i + 1))
    ensures ok ==> |EntriesBefore(c.g, iov, i + 1)| == |EntriesBefore(c.g, iov, i)| + count <= Capacity(|c.pages|, c.g.slots)
    ensures !ok ==> !SegmentAccepted(c.g, iov, i) || |EntriesBefore(c.g, iov, i + 1)| > Capacity(|c.pages|, c.g.slots)
    ensures Untouched(old(c.pages), c.pages, old(c.page), c.page)
    ensures ok ==> old(c.Outcome(EntriesAfter(c.g, iov, i))) == c.Outcome(EntriesAfter(c.g, iov, i + 1))
  {
    EntriesStep(c.g, iov, i);
    if i < |iov| - 1 && iov[i].len % c.g.page != 0 {
      return false, 0;
    }
    PagesLength(c.g, iov[i].iova, AppendCount(c.g, iov[i].len));
    if i + 1 < |iov| { EntriesStep(c.g, iov, i + 1); }
    ok, count := MapAppend(c, iov[i], i == |iov| - 1, EntriesBefore(c.g, iov, i), AppendEntries(c.g, iov[i+1..]));
  }

  /** iommu_translate_vaddr of a fixed context, or the identity for vectors of I/O addresses. */
  type Translation = nat -> Option<nat>

  /** The segments at their I/O addresses. */
  function Resolve(tr: Translation, iov: seq<Segment>): (r: seq<Segment>)
    ensures |r| == |iov|
    ensures forall i | 0 <= i < |iov| :: r[i].len == iov[i].len && (tr(iov[i].iova).Some? ==> r[i].iova == tr(iov[i].iova).value)
  {
    seq(|iov|, i requires 0 <= i < |iov| =>
      match tr(iov[i].iova) case Some(a) => Segment(a, iov[i].len) case None => Segment(0, iov[i].len))
  }

  ghost predicate AllResolve(tr: Translation, iov: seq<Segment>) {
    forall i | 0 <= i < |iov| :: tr(iov[i].iova).Some?
  }

  ghost predicate AllTrue(known: seq<bool>) {
    forall i | 0 <= i < |known| :: known[i]
  }

  ghost predicate TakenUpTo(g: Geometry, known: seq<bool>, segs: seq<Segment>, n: nat)
    requires g.Valid() && n <= |segs| == |known|
  {
    (forall i | 0 <= i < n :: known[i]) && (forall i | 1 <= i < n :: SegmentAccepted(g, segs, i))
  }

  lemma TakenNext(g: Geometry, known: seq<bool>, segs: seq<Segment>, n: nat)
    requires g.Valid() && n < |segs| == |known| && TakenUpTo(g, known, segs, n) && known[n] && SegmentAccepted(g, segs, n)
    ensures TakenUpTo(g, known, segs, n + 1)
  {
  }

  /** A later segment has no I/O address, and nothing is wrong with those before it, for which there is room. */
  ghost predicate FaultAt(g: Geometry, known: seq<bool>, segs: seq<Segment>, room: int, i: nat)
    requires g.Valid() && |segs| == |known|
  {
    1 <= i < |segs| && !known[i] && TakenUpTo(g, known, segs, i) && |EntriesBefore(g, segs, i)| <= room
  }

  lemma NoLaterFault(g: Geometry, known: seq<bool>, segs: seq<Segment>, room: int, i: nat)
    requires g.Valid() && 1 <= i < |segs| == |known| && TakenUpTo(g, known, segs, i) && known[i]
    requires !SegmentAccepted(g, segs, i) || |EntriesBefore(g, segs, i + 1)| > room
    ensures forall j: nat :: !FaultAt(g, known, segs, room, j)
    ensures SegmentAccepted(g, segs, i) ==> |ListEntries(g, segs)| > room
  {
    forall j: nat ensures !FaultAt(g, known, segs, room, j) {
      if i < j <= |segs| { EntriesGrow(g, segs, i + 1, j); }
    }
    EntriesGrow(g, segs, i + 1, |segs|);
    EntriesEnds(g, segs);
  }

  /** The loop over the segments after the first; `known` says which of them have an I/O address. */
  method MapRest(c: PrpCursor, known: seq<bool>, segs: seq<Segment>, count0: nat)
    returns (ok: bool, fault: bool, count: nat)
    requires c.g.Valid() && 1 <= |segs| == |known| && known[0] && IntSafe(c.g, segs)
    requires c.Has(FirstEntries(c.g, segs[0]), AppendEntries(c.g, segs[1..]))
    requires count0 == 1 + |FirstEntries(c.g, segs[0])| <= 1 + Capacity(|c.pages|, c.g.slots)
    modifies c, c.lists
    ensures ok <==> AllTrue(known) && (forall i | 1 <= i < |segs| :: SegmentAccepted(c.g, segs, i))
                    && |ListEntries(c.g, segs)| <= Capacity(|c.pages|, c.g.slots)
    ensures fault <==> exists i: nat :: FaultAt(c.g, known, segs, Capacity(|c.pages|, c.g.slots), i)
    ensures ok ==> c.Complete(ListEntries(c.g, segs)) && count == 1 + |ListEntries(c.g, segs)|
    ensures Untouched(old(c.pages), c.pages, old(c.page), c.page)
    ensures ok ==> old(c.Outcome(AppendEntries(c.g, segs[1..]))) == c.Outcome([])
  {
    var g := c.g;
    ghost var start, from, target := c.pages, c.page, c.Outcome(EntriesAfter(g, segs, 1));
    EntriesEnds(g, segs);
    count, fault := count0, false;
    var i := 1;
    while i < |segs|
      invariant 1 <= i <= |segs| && c.Has(EntriesBefore(g, segs, i), EntriesAfter(g, segs, i))
      invariant count == 1 + |EntriesBefore(g, segs, i)| <= 1 + Capacity(|c.pages|, g.slots)
      invariant TakenUpTo(g, known, segs, i)
      invariant Untouched(start, c.pages, from, c.page) && c.Outcome(EntriesAfter(g, segs, i)) == target
    {
      if !known[i] {
        assert FaultAt(g, known, segs, Capacity(|c.pages|, g.slots), i);
        return false, true, count;
      }
      EntriesLeft(g, segs, i);
      ghost var before, page := c.pages, c.page;
      var n;
      ok, n := MapSegment(c, segs, i);
      UntouchedTransitive(start, before, c.pages, from, page, c.page);
      if !ok {
        NoLaterFault(g, known, segs, Capacity(|c.pages|, g.slots), i);
        return false, false, count;
      }
      TakenNext(g, known, segs, i);
      count, i := count + n, i + 1;
    }
    ok := true;
  }

  /** nvme_mapv_prp, and with the identity for a translation nvme_mapv_iova_prp. */
  method MapvPrp(lists: array2<nat>, base: Option<nat>, g: Geometry, tr: Translation, iov: seq<Segment>) returns (r: Result)
    requires g.Valid() && lists.Length1 == g.slots && iov != [] && IntSafe(g, Resolve(tr, iov))
    modifies lists
    ensures r.EFAULT? <==>
              && lists.Length0 >= 1
              && (base == None || tr(iov[0].iova) == None
                  || (FirstAccepted(g, Resolve(tr, iov))
                      && exists i: nat :: FaultAt(g, Known(tr, iov), Resolve(tr, iov), Capacity(lists.Length0, g.slots), i)))
    ensures r.Ok? <==> lists.Length0 >= 1 && base.Some? && AllResolve(tr, iov) && Accepted(g, Resolve(tr, iov))
                       && |ListEntries(g, Resolve(tr, iov))| <= Capacity(lists.Length0, g.slots)
    ensures r.Ok? ==> var es := ListEntries(g, Resolve(tr, iov));
                      && (es == [] ==> r.prp2 == 0) && (|es| == 1 ==> [r.prp2] == es) && (|es| > 1 ==> r.prp2 == base.value)
    ensures r.Ok? ==> r.prp1 == tr(iov[0].iova).value
                      && Encoded(g, base.value, old(Contents(lists)), Contents(lists), Resolve(tr, iov), r.prp2)
  {
    if lists.Length0 < 1 {
      return EINVAL;
    }
    if tr(iov[0].iova).None? || base.None? {
      return EFAULT;
    }
    var segs, known := Resolve(tr, iov), Known(tr, iov);
    var c := new PrpCursor(lists, base.value, g);
    var ok, fault, count := BuildList(c, known, segs);
    if !ok {
      return if fault then EFAULT else EINVAL;
    }
    var prp2 := SetPrp2(c, count, ListEntries(g, segs));
    assert InMemory(0);
    return Ok(segs[0].iova, prp2);
  }

  function Known(tr: Translation, iov: seq<Segment>): (known: seq<bool>)
    ensures |known| == |iov| && (forall i | 0 <= i < |iov| :: known[i] == tr(iov[i].iova).Some?)
    ensures AllTrue(known) <==> AllResolve(tr, iov)
  {
    seq(|iov|, i requires 0 <= i < |iov| => tr(iov[i].iova).Some?)
  }

  lemma NoRoomNoFault(g: Geometry, known: seq<bool>, segs: seq<Segment>, room: int)
    requires g.Valid() && 1 <= |segs| == |known| && |FirstEntries(g, segs[0])| > room
    ensures forall j: nat :: !FaultAt(g, known, segs, room, j)
  {
    EntriesEnds(g, segs);
    forall j: nat ensures !FaultAt(g, known, segs, room, j) {
      if 1 <= j <= |segs| { EntriesGrow(g, segs, 1, j); }
    }
  }

  /** The first segment, the check that it ends where it has to, and the others. */
  method BuildList(c: PrpCursor, known: seq<bool>, segs: seq<Segment>) returns (ok: bool, fault: bool, count: nat)
    requires c.Holds([]) && c.page == 0 && 1 <= |segs| == |known| && known[0]
    requires IntSafe(c.g, segs)
    modifies c, c.lists
    ensures ok <==> AllTrue(known) && Accepted(c.g, segs) && |ListEntries(c.g, segs)| <= Capacity(|c.pages|, c.g.slots)
    ensures fault <==> FirstAccepted(c.g, segs) && exists i: nat :: FaultAt(c.g, known, segs, Capacity(|c.pages|, c.g.slots), i)
    ensures ok ==> c.Complete(ListEntries(c.g, segs)) && count == 1 + |ListEntries(c.g, segs)|
    ensures Untouched(old(c.pages), c.pages, 0, c.page)
    ensures ok ==> old(c.Outcome(ListEntries(c.g, segs))) == c.pages
  {
    FirstAlone(c.g, segs[0]);
    TailAcceptedIff(c.g, segs, 1);
    if |segs| > 1 { EntriesStep(c.g, segs, 1); }
    var prp1;
    ok, prp1, count := MapFirst(c, segs[0], |segs| == 1, AppendEntries(c.g, segs[1..]));
    if !ok {
      NoRoomNoFault(c.g, known, segs, Capacity(|c.pages|, c.g.slots));
      return false, false, count;
    }
    if !(count == 1 || |segs| == 1 || (segs[0].iova + segs[0].len) % c.g.page == 0) {
      return false, false, count;
    }
    ghost var before, page := c.pages, c.page;
    ok, fault, count := MapRest(c, known, segs, count);
    UntouchedTransitive(old(c.pages), before, c.pages, 0, page, c.page);
  }

  // ----- the controller reads back what was mapped

  /** The walk finds PRP1 and the list entries again. */
  lemma WalkFindsEntries(g: Geometry, base: nat, before: seq<seq<nat>>, after: seq<seq<nat>>, iov: seq<Segment>, prp2: nat, len: nat)
    requires g.Valid() && iov != [] && base % g.page == 0 && Encoded(g, base, before, after, iov, prp2)
    requires PrpCount(g, iov[0].iova, len) == |AllEntries(g, iov)|
    ensures WalkEntries(g, after, base, iov[0].iova, prp2, len) == Some(AllEntries(g, iov))
  {
    var es, prps := ListEntries(g, iov), AllEntries(g, iov);
    var page: nat, slot: nat :| Laid(g, base, after, page, slot, es) && (page > 0 ==> slot >= 2) && Untouched(before, after, 0, page);
    WalkReadsStored(g, base, after, 0, page, slot);
    assert PageAddress(g, base, 0) == base;
    if |es| == 0 {
      assert prps == [iov[0].iova];
    } else if |es| == 1 {
      assert prps == [iov[0].iova, es[0]];
    }
  }

  /**
    The round trip: for every vector that meets the contract, the controller, told the total
    length, transfers exactly the bytes of the segments in order.
   */
  lemma WalkReadsBytes(g: Geometry, base: nat, before: seq<seq<nat>>, after: seq<seq<nat>>, iov: seq<Segment>, prp2: nat)
    requires g.Valid() && base % g.page == 0 && Contract(g, iov) && Encoded(g, base, before, after, iov, prp2)
    ensures Walk(g, after, base, iov[0].iova, prp2, Total(iov)) == Some(Bytes(iov))
  {
    ContractDescribes(g, iov);
    ContractAccepted(g, iov);
    WalkFindsEntries(g, base, before, after, iov, prp2, Total(iov));
    ListAligned(g, iov);
  }

  /** A buffer in one piece and any split of it at page boundaries give the same PRP2 and the same pages. */
  lemma SplitSameMemory(g: Geometry, base: nat, before: seq<seq<nat>>, iov: seq<Segment>,
                        split: seq<seq<nat>>, prp2: nat, whole: seq<seq<nat>>, prp2': nat)
    requires g.Valid() && Contract(g, iov) && Contiguous(iov) && Encoded(g, base, before, split, iov, prp2)
    requires Encoded(g, base, before, whole, [Segment(iov[0].iova, Total(iov))], prp2')
    ensures split == whole && prp2 == prp2'
  {
    SplitSameEntries(g, iov);
    OneSegment(g, Segment(iov[0].iova, Total(iov)));
  }
}
