/**
  What a controller makes of the vectors that src/nvme/util.c accepts although their entries do not
  describe them.
 */
module PrpMisreads {
  import opened Common
  import opened Align
  import opened PrpWalk
  import opened PrpEntries
  import opened PrpCursors
  import opened Prps

  // ----- a first segment that ends inside a page

  /** Whatever PRP2 and the list pages are, the controller does not transfer these bytes. */
  lemma InsideFirstMisread(g: Geometry, pages: seq<seq<nat>>, base: nat, iov: seq<Segment>, prp2: nat)
    requires g.Valid() && |iov| > 1 && Accepted(g, iov) && (iov[0].iova + iov[0].len) % g.page != 0
    requires Total(iov[1..]) > 0
    ensures Walk(g, pages, base, iov[0].iova, prp2, Total(iov)) != Some(Bytes(iov))
  {
    match WalkEntries(g, pages, base, iov[0].iova, prp2, Total(iov))
    case None =>
    case Some(prps) => FirstRunsOn(g, iov, prps);
  }

  // ----- a short last segment

  /** Every slot holds something that is no page address. */
  ghost predicate Stale(g: Geometry, pages: seq<seq<nat>>)
    requires g.Valid()
  {
    forall p, j | 0 <= p < |pages| && 0 <= j < |pages[p]| :: pages[p][j] % g.page != 0
  }

  /** None of these is the address of a list page. */
  ghost predicate NoListPages(g: Geometry, pages: seq<seq<nat>>, base: nat, es: seq<nat>)
    requires g.Valid()
  {
    forall i | 0 <= i < |es| :: PageAt(g, pages, base, es[i]) == None
  }

  /** How many entries there are before a slot of a page, if all pages before it are full and linked. */
  function Place(m: nat, page: nat, slot: nat): (n: nat)
    requires m >= 1
  {
    if page == 0 then slot else m - 1 + Place(m, page - 1, slot)
  }

  lemma {:induction false} PlaceShift(m: nat, page: nat, slot: nat, k: nat)
    requires m >= 1
    ensures Place(m, page, slot + k) == Place(m, page, slot) + k
    decreases page
  {
    if page > 0 { PlaceShift(m, page - 1, slot, k); }
  }

  lemma {:induction false} PlaceIsProduct(m: nat, page: nat, slot: nat)
    requires m >= 1
    ensures Place(m, page, slot) == page * (m - 1) + slot
    decreases page
  {
    if page > 0 {
      PlaceIsProduct(m, page - 1, slot);
      assert page * (m - 1) == (page - 1) * (m - 1) + (m - 1);
    }
  }

  /** Filling leaves the slots behind the last entry as they were. */
  lemma {:induction false} FillKeeps(g: Geometry, base: nat, pages: seq<seq<nat>>, page: nat, slot: nat, es: seq<nat>)
    returns (p: nat, s: nat)
    requires g.Valid() && page < |pages| && Rows(pages, g.slots) && slot <= g.slots
    requires Place(g.slots, page, slot) + |es| <= Place(g.slots, |pages| - 1, g.slots)
    requires (slot == g.slots && es != [] ==> page == |pages| - 1) && (page > 0 ==> slot + |es| >= 2)
    ensures page <= p < |pages| && s <= g.slots && (p == page ==> s >= slot) && (p > 0 ==> s >= 2)
    ensures Place(g.slots, p, s) == Place(g.slots, page, slot) + |es|
    ensures var r := Fill(g, base, pages, page, slot, es);
            Rows(r, g.slots) && |r| == |pages| && forall y | s <= y < g.slots :: r[p][y] == pages[p][y]
    decreases |es|, |pages| - page
  {
    if es == [] {
      p, s := page, slot;
    } else if slot == g.slots - 1 && page + 1 < |pages| && |es| > 1 {
      var v := PageAddress(g, base, page + 1);
      WriteAt(pages, page, slot, v);
      PlaceShift(g.slots, page, 0, slot);
      p, s := FillKeeps(g, base, Write(pages, page, slot, v), page + 1, 0, es);
    } else {
      WriteAt(pages, page, slot, es[0]);
      PlaceShift(g.slots, page, slot, 1);
      p, s := FillKeeps(g, base, Write(pages, page, slot, es[0]), page, slot + 1, es[1..]);
    }
  }

  /** A number of entries ends at one place only. */
  lemma {:induction false} SamePlace(p: nat, s: nat, q: nat, r: nat, m: nat)
    requires m >= 2 && Place(m, p, s) == Place(m, q, r) && s <= m && r <= m
    requires (p > 0 ==> s >= 2) && (q > 0 ==> r >= 2)
    ensures p == q && s == r
    decreases p
  {
    if p > 0 && q > 0 {
      SamePlace(p - 1, s, q - 1, r, m);
    } else if p > 0 {
      PlaceShift(m, p - 1, 2, s - 2);
    } else if q > 0 {
      PlaceShift(m, q - 1, 2, r - 2);
    }
  }

  /** A controller that wants one entry more than was stored takes an old one, or a data page for a list page. */
  lemma {:induction false} WalkReadsPast(g: Geometry, base: nat, pages: seq<seq<nat>>, q: nat, page: nat, slot: nat)
    requires g.Valid() && base % g.page == 0 && q <= page < |pages| && slot <= g.slots && (page > q ==> slot >= 2)
    requires Rows(pages, g.slots) && (slot == g.slots ==> PageAt(g, pages, base, pages[page][g.slots-1]) == None)
    requires forall p | q <= p < page :: pages[p][g.slots-1] == PageAddress(g, base, p + 1)
    ensures var es := StoredFrom(pages, g.slots, q, page, slot);
            WalkList(g, pages, base, PageAddress(g, base, q), |es| + 1)
            == if slot < g.slots then Some(es + [pages[page][slot]]) else None
    decreases page - q
  {
    var es := StoredFrom(pages, g.slots, q, page, slot);
    if q < page {
      var rest := StoredFrom(pages, g.slots, q + 1, page, slot);
      WalkReadsPast(g, base, pages, q + 1, page, slot);
      assert |rest| >= 2 by {
        StoredLength(pages, g.slots, q + 1, page, slot);
        assert (page - (q + 1)) * (g.slots - 1) >= 0;
      }
      LinkFollowed(g, base, pages, q, |es| + 1);
      AddressesAssociate(pages[q][..g.slots-1], rest, [pages[page][Min(slot, g.slots - 1)]]);
    } else {
      LastPagePast(g, base, pages, page, slot);
    }
  }

  lemma LinkFollowed(g: Geometry, base: nat, pages: seq<seq<nat>>, q: nat, n: nat)
    requires g.Valid() && base % g.page == 0 && q < |pages| && |pages[q]| == g.slots && n > g.slots
    ensures WalkList(g, pages, base, PageAddress(g, base, q), n)
            == match WalkList(g, pages, base, pages[q][g.slots-1], n - (g.slots - 1))
               case None => None
               case Some(rest) => Some(pages[q][..g.slots-1] + rest)
  {
    PageAtAddress(g, pages, base, q);
  }

  lemma LastPagePast(g: Geometry, base: nat, pages: seq<seq<nat>>, page: nat, slot: nat)
    requires g.Valid() && base % g.page == 0 && page < |pages| && slot <= g.slots && |pages[page]| == g.slots
    requires slot == g.slots ==> PageAt(g, pages, base, pages[page][g.slots-1]) == None
    ensures WalkList(g, pages, base, PageAddress(g, base, page), slot + 1)
            == if slot < g.slots then Some(pages[page][..slot] + [pages[page][slot]]) else None
  {
    PageAtAddress(g, pages, base, page);
    if slot < g.slots {
      assert pages[page][..slot+1] == pages[page][..slot] + [pages[page][slot]];
    }
  }

  /** One entry is missing, and the controller looks for it: with stale list pages it finds none. */
  lemma ShortMisread(g: Geometry, base: nat, before: seq<seq<nat>>, after: seq<seq<nat>>, iov: seq<Segment>, prp2: nat)
    requires g.Valid() && base % g.page == 0 && |iov| > 1 && Accepted(g, iov) && Encoded(g, base, before, after, iov, prp2)
    requires iov[0].len > 0 && (iov[0].iova + iov[0].len) % g.page == 0
    requires Short(g, iov[1..]) && Empties(iov[1..]) == 0
    requires Stale(g, before) && NoListPages(g, before, base, ListEntries(g, iov))
    ensures Walk(g, after, base, iov[0].iova, prp2, Total(iov)) == None
  {
    OneMissing(g, iov);
    PoisonedWalk(g, base, before, after, iov[0].iova, prp2, Total(iov), ListEntries(g, iov));
  }

  lemma PoisonedWalk(g: Geometry, base: nat, before: seq<seq<nat>>, after: seq<seq<nat>>,
                     prp1: nat, prp2: nat, len: nat, es: seq<nat>)
    requires g.Valid() && base % g.page == 0 && es != [] && PrpCount(g, prp1, len) == |es| + 2 && prp2 == Prp2(base, es)
    requires |before| > 0 && Rows(before, g.slots) && after == Fill(g, base, before, 0, 0, es)
    requires exists page: nat, slot: nat ::
               Laid(g, base, after, page, slot, es) && (page > 0 ==> slot >= 2) && Untouched(before, after, 0, page)
    requires Stale(g, before) && NoListPages(g, before, base, es)
    ensures Walk(g, after, base, prp1, prp2, len) == None
  {
    var page: nat, slot: nat :| Laid(g, base, after, page, slot, es) && (page > 0 ==> slot >= 2) && Untouched(before, after, 0, page);
    StalePlace(g, base, before, after, es, page, slot);
    if slot == g.slots {
      StoredLast(after, g.slots, 0, page, slot);
      SamePages(g, before, after, base, es[|es|-1]);
    }
    SamePages(g, before, after, base, es[0]);
    OneTooMany(g, after, base, prp1, prp2, len, es, page, slot);
  }

  lemma SamePages(g: Geometry, before: seq<seq<nat>>, after: seq<seq<nat>>, base: nat, addr: nat)
    requires g.Valid() && |before| == |after| && PageAt(g, before, base, addr) == None
    ensures PageAt(g, after, base, addr) == None
  {
  }

  /** The walk for one entry more than the list has. */
  lemma OneTooMany(g: Geometry, pages: seq<seq<nat>>, base: nat, prp1: nat, prp2: nat, len: nat,
                   es: seq<nat>, page: nat, slot: nat)
    requires g.Valid() && base % g.page == 0 && Laid(g, base, pages, page, slot, es) && (page > 0 ==> slot >= 2)
    requires es != [] && PrpCount(g, prp1, len) == |es| + 2 && prp2 == Prp2(base, es)
    requires if slot < g.slots then pages[page][slot] % g.page != 0 else PageAt(g, pages, base, pages[page][g.slots-1]) == None
    requires PageAt(g, pages, base, es[0]) == None
    ensures Walk(g, pages, base, prp1, prp2, len) == None
  {
    if |es| > 1 {
      assert PageAddress(g, base, 0) == base;
      WalkReadsPast(g, base, pages, 0, page, slot);
      if slot < g.slots {
        var prps := [prp1] + (es + [pages[page][slot]]);
        assert prps[|es|+1] == pages[page][slot];
      }
    }
  }

  lemma OneMissing(g: Geometry, iov: seq<Segment>)
    requires g.Valid() && |iov| > 1 && Accepted(g, iov) && iov[0].len > 0 && (iov[0].iova + iov[0].len) % g.page == 0
    requires Short(g, iov[1..]) && Empties(iov[1..]) == 0
    ensures PrpCount(g, iov[0].iova, Total(iov)) == |ListEntries(g, iov)| + 2 && |ListEntries(g, iov)| > 0
  {
    TailCount(g, iov[1..]);
    FirstCount(g, iov[0], Total(iov[1..]));
    var k, x := ShortLast(g, iov[1..]);
  }

  lemma StalePlace(g: Geometry, base: nat, before: seq<seq<nat>>, after: seq<seq<nat>>, es: seq<nat>, page: nat, slot: nat)
    requires g.Valid() && |before| > 0 && Rows(before, g.slots) && Stale(g, before) && after == Fill(g, base, before, 0, 0, es)
    requires Laid(g, base, after, page, slot, es) && (page > 0 ==> slot >= 2) && |after| == |before|
    ensures slot < g.slots ==> after[page][slot] % g.page != 0
  {
    EndsWithin(g, base, after, es, page, slot);
    var p, s := FillKeeps(g, base, before, 0, 0, es);
    SamePlace(p, s, page, slot, g.slots);
    assert slot < g.slots ==> after[page][slot] == before[page][slot];
  }

  lemma EndsWithin(g: Geometry, base: nat, pages: seq<seq<nat>>, es: seq<nat>, page: nat, slot: nat)
    requires g.Valid() && Laid(g, base, pages, page, slot, es)
    ensures |es| == Place(g.slots, page, slot) <= Place(g.slots, |pages| - 1, g.slots)
  {
    StoredLength(pages, g.slots, 0, page, slot);
    PlaceIsProduct(g.slots, page, slot);
    PlaceIsProduct(g.slots, |pages| - 1, g.slots);
    ProductMonotone(page, |pages| - 1, g.slots - 1);
  }

  lemma {:induction false} StoredLast(pages: seq<seq<nat>>, m: nat, q: nat, page: nat, slot: nat)
    requires q <= page < |pages| && m >= 1 && 0 < slot <= m && forall p | 0 <= p < |pages| :: |pages[p]| == m
    ensures var es := StoredFrom(pages, m, q, page, slot); es != [] && es[|es|-1] == pages[page][slot-1]
    decreases page - q
  {
    if q < page { StoredLast(pages, m, q + 1, page, slot); }
  }

  // ----- one vector of each kind

  lemma SmallCounts(g: Geometry)
    requires g == Geometry(4096, 512)
    ensures Ceil(g, 0) == 0 && Ceil(g, g.page) == 1 && Ceil(g, g.page + g.page) == 2
    ensures AppendCount(g, 0) == 1 && AppendCount(g, g.page) == 1 && 0x1000000 % g.page == 0 && 0x1000200 % g.page == 0x200
  {
    assert Ceil(g, g.page + g.page - g.page) == 1;
    assert Whole(g, g.page) == 1 + Whole(g, g.page - g.page) && Whole(g, 0) == 0;
  }

  /** A first segment of half a kilobyte, followed by another page. */
  lemma FirstEndsInsidePage(g: Geometry, pages: seq<seq<nat>>, base: nat, iov: seq<Segment>, prp2: nat)
    requires g == Geometry(4096, 512) && iov == [Segment(0x1000000, 0x200), Segment(0x2000000, 0x1000)]
    ensures Accepted(g, iov) && !Describes(g, AllEntries(g, iov), iov)
    ensures Walk(g, pages, base, iov[0].iova, prp2, Total(iov)) != Some(Bytes(iov))
  {
    SmallCounts(g);
    assert PrpCount(g, iov[0].iova, iov[0].len) == 1;
    TailAcceptedIff(g, iov, 1);
    AcceptedDescribesIff(g, iov);
    assert Total(iov[1..]) > 0;
    InsideFirstMisread(g, pages, base, iov, prp2);
  }

  /** A last segment of a page and eight bytes. */
  lemma LastRoundedDown(g: Geometry, iov: seq<Segment>)
    requires g == Geometry(4096, 512) && iov == [Segment(0x1000000, 0x1000), Segment(0x2000000, 0x1008)]
    ensures Accepted(g, iov) && !Describes(g, AllEntries(g, iov), iov)
  {
    TailAcceptedIff(g, iov, 1);
    AcceptedDescribesIff(g, iov);
  }

  /** An empty segment between two pages: three entries for two pages, and the list is read as data. */
  lemma EmptyGetsEntry(g: Geometry, base: nat, before: seq<seq<nat>>, after: seq<seq<nat>>, iov: seq<Segment>, prp2: nat)
    requires g == Geometry(4096, 512) && base % g.page == 0 && base != 0x3000000
    requires iov == [Segment(0x1000000, 0x1000), Segment(0x2000000, 0), Segment(0x3000000, 0x1000)]
    requires Encoded(g, base, before, after, iov, prp2)
    ensures Accepted(g, iov) && !Describes(g, AllEntries(g, iov), iov)
    ensures Walk(g, after, base, iov[0].iova, prp2, Total(iov)) != Some(Bytes(iov))
  {
    TailAcceptedIff(g, iov, 1);
    AcceptedDescribesIff(g, iov);
    var bytes := Bytes(iov);
    assert |bytes| == g.page + g.page && bytes[g.page] == 0x3000000 by { SecondByte(iov); }
    assert prp2 == base by { ThreeEntries(g, iov); }
    assert PrpCount(g, iov[0].iova, |bytes|) == 2 && iov[0].iova % g.page == 0 by {
      SmallCounts(g);
      AlignedCount(g, 0x1000000, g.page + g.page);
    }
    WrongSecond(g, after, base, iov[0].iova, prp2, bytes);
  }

  lemma SecondByte(iov: seq<Segment>)
    requires iov == [Segment(0x1000000, 0x1000), Segment(0x2000000, 0), Segment(0x3000000, 0x1000)]
    ensures |Bytes(iov)| == 0x2000 && Bytes(iov)[0x1000] == 0x3000000
  {
    assert iov[1..][1..] == [Segment(0x3000000, 0x1000)];
    assert Bytes(iov[1..][1..]) == Span(0x3000000, 0x1000) + Bytes([]);
    SpanAt(0x3000000, 0x1000, 0);
    assert Bytes(iov[1..]) == [] + Bytes(iov[1..][1..]);
  }

  lemma ThreeEntries(g: Geometry, iov: seq<Segment>)
    requires g == Geometry(4096, 512)
    requires iov == [Segment(0x1000000, 0x1000), Segment(0x2000000, 0), Segment(0x3000000, 0x1000)]
    ensures |ListEntries(g, iov)| == 2
  {
    assert iov[1..][1..] == [Segment(0x3000000, 0x1000)];
    PagesLength(g, 0x2000000, 1);
    PagesLength(g, 0x3000000, 1);
    SmallCounts(g);
    assert |AppendEntries(g, iov[1..][1..])| == 1 by { assert AppendEntries(g, iov[1..][1..][1..]) == []; }
    assert |AppendEntries(g, iov[1..])| == 2;
    assert FirstEntries(g, iov[0]) == [];
  }
}
