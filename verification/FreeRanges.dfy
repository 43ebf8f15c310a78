/**
  Lists of free address ranges: what the free list of src/iommu/vfio.c denotes,
  and what putting a range back and taking one out do to it.
 */
module FreeRanges {
  import opened Align
  import opened SkipLists

  // struct vfio_iova_free_range, without its list node
  datatype Range = Range(start: nat, len: nat) {
    function End(): (e: nat) { start + len }
    predicate Has(a: int) { start <= a < End() }
  }

  /** Ascending, disjoint, no two ranges adjacent, and all below the top of the address space. */
  ghost predicate Coalesced(s: seq<Range>) {
    && (forall i | 0 <= i < |s| :: s[i].len > 0 && s[i].End() < TWO64)
    && (forall i, j | 0 <= i < j < |s| :: s[i].End() < s[j].start)
  }

  /** Address `a` is free. */
  ghost predicate Free(s: seq<Range>, a: int) {
    exists i :: 0 <= i < |s| && s[i].Has(a)
  }

  /** No address of `r` is free. */
  ghost predicate Apart(s: seq<Range>, r: Range) {
    forall a | r.Has(a) :: !Free(s, a)
  }

  // ----- canonicity

  lemma FreeConcat(s: seq<Range>, t: seq<Range>)
    ensures forall a :: Free(s + t, a) <==> Free(s, a) || Free(t, a)
  {
    forall a ensures Free(s + t, a) <==> Free(s, a) || Free(t, a) {
      if Free(s, a) {
        var i :| 0 <= i < |s| && s[i].Has(a);
        assert (s + t)[i].Has(a);
      }
      if Free(t, a) {
        var i :| 0 <= i < |t| && t[i].Has(a);
        assert (s + t)[|s| + i].Has(a);
      }
    }
  }

  lemma FreeHead(s: seq<Range>)
    requires s != [] && Coalesced(s)
    ensures forall a :: Free(s, a) <==> s[0].Has(a) || Free(s[1..], a)
    ensures forall a | Free(s[1..], a) :: a > s[0].End()
    ensures Free(s, s[0].start) && !Free(s, s[0].End()) && Coalesced(s[1..])
  {
    assert s == [s[0]] + s[1..];
    FreeConcat([s[0]], s[1..]);
    assert forall a :: Free([s[0]], a) <==> [s[0]][0].Has(a);
    assert s[0].Has(s[0].start);
  }

  /** A coalesced list is determined by the set of addresses that are free. */
  lemma {:induction false} Canonical(s: seq<Range>, t: seq<Range>)
    requires Coalesced(s) && Coalesced(t) && forall a :: Free(s, a) <==> Free(t, a)
    ensures s == t
  {
    if s != [] && t != [] {
      FreeHead(s);
      FreeHead(t);
      assert Free(t, s[0].start) && Free(s, t[0].start);
      assert s[0].start == t[0].start;
      assert !t[0].Has(s[0].End()) && !s[0].Has(t[0].End());
      Canonical(s[1..], t[1..]);
    } else if s != [] {
      FreeHead(s);
    } else if t != [] {
      FreeHead(t);
    }
  }

  // ----- putting a range back

  /** How many ranges start at or below `key`. */
  function Index(s: seq<Range>, key: nat): (i: nat)
    ensures i <= |s|
    ensures forall j | 0 <= j < i :: s[j].start <= key
    ensures i < |s| ==> s[i].start > key
  {
    if s == [] || s[0].start > key then 0 else 1 + Index(s[1..], key)
  }

  /** `s` with the ranges from `lo` up to `hi` replaced by `m`. */
  function Splice(s: seq<Range>, lo: nat, hi: nat, m: seq<Range>): (t: seq<Range>)
    requires lo <= hi <= |s|
  {
    s[..lo] + m + s[hi..]
  }

  predicate JoinsBefore(s: seq<Range>, i: nat, r: Range) {
    0 < i <= |s| && s[i-1].End() == r.start
  }

  predicate JoinsAfter(s: seq<Range>, i: nat, r: Range) {
    i < |s| && r.End() == s[i].start
  }

  /** The range before index `i` swallows the one at `i`. */
  function Merged(s: seq<Range>, i: nat): (t: seq<Range>)
    requires 0 < i < |s|
  {
    Removed(s[i-1 := Range(s[i-1].start, s[i-1].len + s[i].len)], i)
  }

  /** The range before index `i` grown by `len`, swallowing the one at `i` if it then touches it. */
  function Extended(s: seq<Range>, i: nat, len: nat): (t: seq<Range>)
    requires 0 < i <= |s|
  {
    var p := Range(s[i-1].start, s[i-1].len + len);
    if i < |s| && p.End() == s[i].start then Merged(s[i-1 := p], i) else s[i-1 := p]
  }

  /** The free list after `r` was put back: merged with both neighbours, one of them, or inserted. */
  function PutAt(s: seq<Range>, i: nat, r: Range): (t: seq<Range>)
    requires i <= |s|
  {
    if JoinsBefore(s, i, r) then Extended(s, i, r.len)
    else if JoinsAfter(s, i, r) then s[i := Range(r.start, s[i].len + r.len)]
    else Inserted(s, i, r)
  }

  function Put(s: seq<Range>, r: Range): (t: seq<Range>) {
    PutAt(s, Index(s, r.start), r)
  }

  lemma CoalescedConcat(s: seq<Range>, t: seq<Range>)
    requires Coalesced(s) && Coalesced(t)
    requires s != [] && t != [] ==> s[|s|-1].End() < t[0].start
    ensures Coalesced(s + t)
  {
    forall i, j | 0 <= i < |s| && 0 <= j < |t| ensures s[i].End() < t[j].start {
      assert s[i].End() <= s[|s|-1].End() && t[0].start <= t[j].start;
    }
  }

  lemma SpliceCoalesced(s: seq<Range>, lo: nat, hi: nat, m: Range)
    requires Coalesced(s) && lo <= hi <= |s| && m.len > 0 && m.End() < TWO64
    requires lo > 0 ==> s[lo-1].End() < m.start
    requires hi < |s| ==> m.End() < s[hi].start
    ensures Coalesced(Splice(s, lo, hi, [m]))
  {
    CoalescedConcat(s[..lo], [m]);
    CoalescedConcat(s[..lo] + [m], s[hi..]);
  }

  lemma SpliceFree(s: seq<Range>, lo: nat, hi: nat, m: seq<Range>)
    requires lo <= hi <= |s|
    ensures forall a :: Free(Splice(s, lo, hi, m), a) <==> Free(s[..lo], a) || Free(m, a) || Free(s[hi..], a)
    ensures forall a :: Free(s, a) <==> Free(s[..lo], a) || Free(s[lo..hi], a) || Free(s[hi..], a)
  {
    FreeConcat(s[..lo] + m, s[hi..]);
    FreeConcat(s[..lo], m);
    FreeConcat(s[..lo] + s[lo..hi], s[hi..]);
    FreeConcat(s[..lo], s[lo..hi]);
    assert s == s[..lo] + s[lo..hi] + s[hi..];
  }

  /** A range that is apart from the list fits between its neighbours. */
  lemma ApartNeighbours(s: seq<Range>, r: Range)
    requires Coalesced(s) && Apart(s, r) && r.len > 0
    ensures forall j | 0 <= j < |s| :: if j < Index(s, r.start) then s[j].End() <= r.start else r.End() <= s[j].start
    ensures forall j | 0 <= j < |s| && s[j].start == r.start :: false
  {
    var i := Index(s, r.start);
    forall j | 0 <= j < |s| ensures if j < i then s[j].End() <= r.start else r.End() <= s[j].start {
      if j < i && s[j].End() > r.start {
        assert s[j].Has(r.start) && r.Has(r.start);
        assert Free(s, r.start);
      }
      if j >= i && r.End() > s[j].start {
        assert s[j].Has(s[j].start) && r.Has(s[j].start);
        assert Free(s, s[j].start);
      }
    }
  }

  lemma FreeOne(r: Range, a: int)
    ensures Free([r], a) <==> r.Has(a)
  {
    assert [r][0] == r;
  }

  lemma FreeTwo(r: Range, q: Range, a: int)
    ensures Free([r, q], a) <==> r.Has(a) || q.Has(a)
  {
    assert [r, q][0] == r && [r, q][1] == q;
  }

  /** Replacing `s[lo..hi]` by one range that covers them and `r` adds exactly `r`. */
  lemma SpliceIsUnion(s: seq<Range>, lo: nat, hi: nat, m: Range, r: Range)
    requires lo <= hi <= |s|
    requires forall a :: m.Has(a) <==> Free(s[lo..hi], a) || r.Has(a)
    ensures forall a :: Free(Splice(s, lo, hi, [m]), a) <==> Free(s, a) || r.Has(a)
  {
    SpliceFree(s, lo, hi, [m]);
    forall a ensures Free([m], a) <==> m.Has(a) { FreeOne(m, a); }
  }

  lemma PairSlice<T>(s: seq<T>, i: nat)
    requires i + 2 <= |s|
    ensures s[i..i+2] == [s[i], s[i+1]]
  {
  }

  /** `r` lies in the gap before index `i`, and the ranges around the gap are apart from theirs. */
  ghost predicate InGap(s: seq<Range>, i: nat, r: Range) {
    && i <= |s| && r.len > 0 && r.End() < TWO64
    && (i > 0 ==> s[i-1].len > 0 && s[i-1].End() <= r.start)
    && (i > 1 ==> s[i-2].End() < s[i-1].start)
    && (i < |s| ==> s[i].len > 0 && s[i].End() < TWO64 && r.End() <= s[i].start)
    && (i + 1 < |s| ==> s[i].End() < s[i+1].start)
  }

  /** The one range `Put` leaves in place of the ranges it merged. */
  lemma PutSplices(s: seq<Range>, i: nat, r: Range) returns (lo: nat, hi: nat, m: Range)
    requires InGap(s, i, r)
    ensures lo <= hi <= |s| && PutAt(s, i, r) == Splice(s, lo, hi, [m])
    ensures m.len > 0 && m.End() < TWO64
    ensures (lo > 0 ==> s[lo-1].End() < m.start) && (hi < |s| ==> m.End() < s[hi].start)
    ensures forall a :: m.Has(a) <==> Free(s[lo..hi], a) || r.Has(a)
  {
    if JoinsBefore(s, i, r) && JoinsAfter(s, i, r) {
      lo, hi, m := i - 1, i + 1, Range(s[i-1].start, s[i-1].len + r.len + s[i].len);
      MergedSplices(s, i, r.len);
      PairSlice(s, i - 1);
      JoinsTwo(s[i-1], r, s[i], m);
    } else if JoinsBefore(s, i, r) {
      lo, hi, m := i - 1, i, Range(s[i-1].start, s[i-1].len + r.len);
      ReplaceSplices(s, i - 1, m);
      JoinsOne(s[i-1], r, m);
    } else if JoinsAfter(s, i, r) {
      lo, hi, m := i, i + 1, Range(r.start, s[i].len + r.len);
      ReplaceSplices(s, i, m);
      JoinsOne(s[i], r, m);
    } else {
      lo, hi, m := i, i, r;
    }
  }

  lemma JoinsOne(p: Range, r: Range, m: Range)
    requires (p.End() == r.start && m == Range(p.start, p.len + r.len)) || (r.End() == p.start && m == Range(r.start, p.len + r.len))
    ensures forall a :: m.Has(a) <==> Free([p], a) || r.Has(a)
  {
    forall a ensures m.Has(a) <==> Free([p], a) || r.Has(a) { FreeOne(p, a); }
  }

  lemma JoinsTwo(p: Range, r: Range, q: Range, m: Range)
    requires p.End() == r.start && r.End() == q.start && m == Range(p.start, p.len + r.len + q.len)
    ensures forall a :: m.Has(a) <==> Free([p, q], a) || r.Has(a)
  {
    forall a ensures m.Has(a) <==> Free([p, q], a) || r.Has(a) { FreeTwo(p, q, a); }
  }

  lemma ReplaceSplices(s: seq<Range>, i: nat, m: Range)
    requires i < |s|
    ensures s[i := m] == Splice(s, i, i + 1, [m]) && s[i..i+1] == [s[i]]
  {
  }

  lemma MergedSplices(s: seq<Range>, i: nat, len: nat)
    requires 0 < i < |s|
    ensures Merged(s[i-1 := Range(s[i-1].start, s[i-1].len + len)], i)
         == Splice(s, i - 1, i + 1, [Range(s[i-1].start, s[i-1].len + len + s[i].len)])
  {
    var p := Range(s[i-1].start, s[i-1].len + len);
    var m := Range(p.start, p.len + s[i].len);
    assert s[i-1 := p][i-1 := m] == s[i-1 := m];
    assert s[i-1 := m][..i] == s[..i-1] + [m];
  }

  /** Putting back an apart range frees exactly its addresses and keeps the list coalesced. */
  lemma PutIsUnion(s: seq<Range>, r: Range)
    requires Coalesced(s) && r.len > 0 && r.End() < TWO64 && Apart(s, r)
    ensures Coalesced(Put(s, r))
    ensures forall a :: Free(Put(s, r), a) <==> Free(s, a) || r.Has(a)
  {
    assert InGap(s, Index(s, r.start), r) by { ApartNeighbours(s, r); }
    var lo, hi, m := PutSplices(s, Index(s, r.start), r);
    SpliceCoalesced(s, lo, hi, m);
    SpliceIsUnion(s, lo, hi, m, r);
  }

  function PutAll(s: seq<Range>, rs: seq<Range>): (t: seq<Range>) {
    if rs == [] then s else Put(PutAll(s, rs[..|rs|-1]), rs[|rs|-1])
  }

  ghost predicate Placeable(s: seq<Range>, rs: seq<Range>) {
    && (forall i | 0 <= i < |rs| :: rs[i].len > 0 && rs[i].End() < TWO64 && Apart(s, rs[i]))
    && (forall i, j, a | 0 <= i < j < |rs| && rs[i].Has(a) :: !rs[j].Has(a))
  }

  lemma {:induction false} PutAllIsUnion(s: seq<Range>, rs: seq<Range>)
    requires Coalesced(s) && Placeable(s, rs)
    ensures Coalesced(PutAll(s, rs))
    ensures forall a :: Free(PutAll(s, rs), a) <==> Free(s, a) || Free(rs, a)
  {
    if rs != [] {
      var n := |rs| - 1;
      assert Placeable(s, rs[..n]);
      PutAllIsUnion(s, rs[..n]);
      FreeLast(rs);
      PutIsUnion(PutAll(s, rs[..n]), rs[n]);
    }
  }

  lemma FreeLast(rs: seq<Range>)
    requires rs != []
    ensures forall a :: Free(rs, a) <==> Free(rs[..|rs|-1], a) || rs[|rs|-1].Has(a)
  {
    var n := |rs| - 1;
    assert rs == rs[..n] + [rs[n]];
    FreeConcat(rs[..n], [rs[n]]);
    forall a ensures Free([rs[n]], a) <==> rs[n].Has(a) { FreeOne(rs[n], a); }
  }

  /** Putting the same ranges back in any order leaves the same list. */
  lemma PutOrderIrrelevant(s: seq<Range>, rs: seq<Range>, qs: seq<Range>)
    requires Coalesced(s) && Placeable(s, rs) && multiset(rs) == multiset(qs)
    ensures PutAll(s, rs) == PutAll(s, qs)
  {
    PlaceableInAnyOrder(s, rs, qs);
    PutAllIsUnion(s, rs);
    PutAllIsUnion(s, qs);
    SameMembers(rs, qs);
    SameMembers(qs, rs);
    Canonical(PutAll(s, rs), PutAll(s, qs));
  }

  lemma SameMembers(rs: seq<Range>, qs: seq<Range>)
    requires multiset(rs) == multiset(qs)
    ensures forall a | Free(rs, a) :: Free(qs, a)
  {
    forall a | Free(rs, a) ensures Free(qs, a) {
      var i :| 0 <= i < |rs| && rs[i].Has(a);
      assert rs[i] in multiset(qs);
      var j :| 0 <= j < |qs| && qs[j] == rs[i];
    }
  }

  lemma {:induction false} OnlyOnce<T>(s: seq<T>, v: T)
    requires forall i, j | 0 <= i < j < |s| :: s[i] != s[j]
    ensures multiset(s)[v] <= 1
  {
    if s != [] {
      var n := |s| - 1;
      assert s == s[..n] + [s[n]];
      OnlyOnce(s[..n], v);
      assert v == s[n] ==> v !in s[..n];
    }
  }

  lemma Twice<T>(s: seq<T>, i: nat, j: nat)
    requires i < j < |s| && s[i] == s[j]
    ensures multiset(s)[s[i]] >= 2
  {
    assert s == s[..i] + [s[i]] + s[i+1..j] + [s[j]] + s[j+1..];
  }

  lemma PlaceableInAnyOrder(s: seq<Range>, rs: seq<Range>, qs: seq<Range>)
    requires Placeable(s, rs) && multiset(rs) == multiset(qs)
    ensures Placeable(s, qs)
  {
    forall i | 0 <= i < |qs| ensures qs[i] in rs { assert qs[i] in multiset(rs); }
    assert forall i, j | 0 <= i < j < |rs| :: rs[i] != rs[j] by {
      assert forall i | 0 <= i < |rs| :: rs[i].Has(rs[i].start);
    }
    forall i, j, a | 0 <= i < j < |qs| && qs[i].Has(a) ensures !qs[j].Has(a) {
      if qs[i] == qs[j] {
        Twice(qs, i, j);
        OnlyOnce(rs, qs[i]);
      } else {
        var k :| 0 <= k < |rs| && rs[k] == qs[i];
        var l :| 0 <= l < |rs| && rs[l] == qs[j];
        assert k < l || l < k;
      }
    }
  }

  // ----- taking addresses out

  /** `t` is the coalesced list of what stays free once the addresses of `r` are taken. */
  ghost predicate Taken(s: seq<Range>, r: Range, t: seq<Range>) {
    && Coalesced(t)
    && (forall a | r.Has(a) :: Free(s, a))
    && (forall a :: Free(t, a) <==> Free(s, a) && !r.Has(a))
  }

  /** Taking addresses and putting them back restores the list exactly. */
  lemma PutUndoesTaken(s: seq<Range>, r: Range, t: seq<Range>)
    requires Coalesced(s) && Taken(s, r, t) && r.len > 0 && r.End() < TWO64
    ensures Put(t, r) == s
  {
    PutIsUnion(t, r);
    Canonical(Put(t, r), s);
  }

  lemma RemovedCoalesced(s: seq<Range>, i: nat)
    requires Coalesced(s) && i < |s|
    ensures Taken(s, s[i], Removed(s, i))
  {
    assert Removed(s, i) == Splice(s, i, i + 1, []) && s[i..i+1] == [s[i]];
    SpliceFree(s, i, i + 1, []);
    forall a ensures Free(s[i..i+1], a) <==> s[i].Has(a) { FreeOne(s[i], a); }
  }

  /** Shortening one range from the front takes exactly the addresses in front. */
  lemma ShortenedCoalesced(s: seq<Range>, i: nat, len: nat)
    requires Coalesced(s) && i < |s| && len < s[i].len
    ensures Taken(s, Range(s[i].start, len), s[i := Range(s[i].start + len, s[i].len - len)])
  {
    var m := Range(s[i].start + len, s[i].len - len);
    assert s[i := m] == Splice(s, i, i + 1, [m]) && s[i..i+1] == [s[i]];
    SpliceCoalesced(s, i, i + 1, m);
    SpliceFree(s, i, i + 1, [m]);
    forall a ensures Free(s[i..i+1], a) <==> s[i].Has(a) { FreeOne(s[i], a); }
    forall a ensures Free([m], a) <==> m.Has(a) { FreeOne(m, a); }
  }
}
