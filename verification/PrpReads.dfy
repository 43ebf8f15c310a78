/**
  Exactly which of the vectors that src/nvme/util.c accepts a controller reads right, whatever the list
  pages held before.
 */
module PrpReads {
  import opened Common
  import opened Align
  import opened PrpWalk
  import opened PrpEntries
  import opened PrpCursors
  import opened Prps
  import opened PrpMisreads

  // ----- a controller that wants fewer entries than the list has

  /** The slot of entry `w` holds a link if more entries follow. */
  predicate AtLink(m: nat, w: nat)
    requires m >= 2
  {
    w == m || (w > m && AtLink(m, w - (m - 1)))
  }

  lemma {:induction false} AtLinkIff(m: nat, w: nat)
    requires m >= 2
    ensures AtLink(m, w) <==> w > 1 && (w - 1) % (m - 1) == 0
    decreases w
  {
    if w == m {
      ModUnique(w - 1, m - 1, 1, 0);
    } else if w > m {
      AtLinkIff(m, w - (m - 1));
      var q, r := (w - m) / (m - 1), (w - m) % (m - 1);
      assert (m - 1) * (q + 1) == (m - 1) * q + (m - 1);
      ModUnique(w - 1, m - 1, q + 1, r);
    } else if w > 1 {
      ModUnique(w - 1, m - 1, 0, w - 1);
    }
  }

  /** It finds the first ones, but takes a link for an entry if the last one it wants lies behind it. */
  lemma {:induction false} WalkReadsFewer(g: Geometry, base: nat, pages: seq<seq<nat>>, q: nat, page: nat, slot: nat, w: nat)
    returns (p: nat)
    requires g.Valid() && base % g.page == 0 && q <= page < |pages| && slot <= g.slots && Rows(pages, g.slots)
    requires forall x | q <= x < page :: pages[x][g.slots-1] == PageAddress(g, base, x + 1)
    requires 1 <= w < |StoredFrom(pages, g.slots, q, page, slot)|
    ensures p < |pages|
    ensures var es := StoredFrom(pages, g.slots, q, page, slot);
            WalkList(g, pages, base, PageAddress(g, base, q), w)
            == Some(if AtLink(g.slots, w) then es[..w-1] + [PageAddress(g, base, p)] else es[..w])
    decreases page - q
  {
    var m, es := g.slots, StoredFrom(pages, g.slots, q, page, slot);
    PageAtAddress(g, pages, base, q);
    p := page;
    if w < m {
      assert pages[q][..w] == es[..w];
    } else {
      assert q < page;
      var rest := StoredFrom(pages, m, q + 1, page, slot);
      if w == m {
        p := q + 1;
        assert pages[q][..m] == es[..m-1] + [pages[q][m-1]];
      } else {
        p := WalkReadsFewer(g, base, pages, q + 1, page, slot, w - (m - 1));
        LinkFollowed(g, base, pages, q, w);
        FrontOf(pages[q][..m-1], rest, es, w, PageAddress(g, base, p));
      }
    }
  }

  lemma FrontOf(a: seq<nat>, b: seq<nat>, c: seq<nat>, w: nat, x: nat)
    requires c == a + b && |a| < w <= |c|
    ensures c[..w] == a + b[..w-|a|] && c[..w-1] + [x] == a + (b[..w-|a|-1] + [x])
  {
  }

  // ----- what is read of an entry

  lemma {:induction false} ReadPagesFront(g: Geometry, es: seq<nat>, k: nat, len: nat)
    requires g.Valid() && Ceil(g, len) <= k <= |es|
    ensures ReadPages(g, es[..k], len) == ReadPages(g, es, len)
    decreases k
  {
    if k > 0 && len > 0 {
      CeilStep(g, len);
      assert es[..k][1..] == es[1..][..k-1];
      ReadPagesFront(g, es[1..], k - 1, len - Min(len, g.page));
    }
  }

  /** Entries past those the length calls for do not matter. */
  lemma ReadFront(g: Geometry, prps: seq<nat>, c: nat, len: nat)
    requires g.Valid() && prps != [] && PrpCount(g, prps[0], len) <= c <= |prps|
    ensures ReadBytes(g, prps[..c], len) == ReadBytes(g, prps, len)
  {
    var k := Min(len, g.page - prps[0] % g.page);
    assert prps[..c][1..] == prps[1..][..c-1];
    ReadPagesFront(g, prps[1..], c - 1, len - k);
  }

  lemma {:induction false} LastPageRead(g: Geometry, es: seq<nat>, len: nat)
    requires g.Valid() && es != [] && |es| == Ceil(g, len)
    ensures es[|es|-1] in ReadPages(g, es, len)
    decreases |es|
  {
    CeilSmall(g, 0);
    CeilStep(g, len);
    var k := Min(len, g.page);
    var rest := ReadPages(g, es[1..], len - k);
    assert ReadPages(g, es, len) == Span(es[0], k) + rest;
    if |es| == 1 {
      SpanAt(es[0], k, 0);
      assert Span(es[0], k)[0] in Span(es[0], k);
    } else {
      LastPageRead(g, es[1..], len - k);
      assert es[|es|-1] == es[1..][|es|-2] && es[|es|-1] in rest;
    }
  }

  /** The address in the last entry is among the bytes. */
  lemma LastEntryRead(g: Geometry, prps: seq<nat>, len: nat)
    requires g.Valid() && |prps| > 1 && |prps| == PrpCount(g, prps[0], len)
    ensures prps[|prps|-1] in ReadBytes(g, prps, len)
  {
    var k := Min(len, g.page - prps[0] % g.page);
    LastPageRead(g, prps[1..], len - k);
    assert prps[|prps|-1] == prps[1..][|prps|-2];
  }

  // ----- the walk of an accepted vector

  /** The controller finds the entries it wants as they were written. */
  ghost predicate Readable(g: Geometry, iov: seq<Segment>)
    requires g.Valid() && iov != []
  {
    var c, n := PrpCount(g, iov[0].iova, Total(iov)), |AllEntries(g, iov)|;
    c == 1 || c == n || (2 < c < n && !AtLink(g.slots, c - 1))
  }

  lemma ReadableWalk(g: Geometry, base: nat, before: seq<seq<nat>>, after: seq<seq<nat>>, iov: seq<Segment>, prp2: nat)
    requires g.Valid() && base % g.page == 0 && iov != [] && Accepted(g, iov) && Encoded(g, base, before, after, iov, prp2)
    requires Readable(g, iov)
    ensures Walk(g, after, base, iov[0].iova, prp2, Total(iov)) == Some(ReadBytes(g, AllEntries(g, iov), Total(iov)))
  {
    var c, prps := PrpCount(g, iov[0].iova, Total(iov)), AllEntries(g, iov);
    ListAligned(g, iov);
    if c == 1 {
      assert prps[..1] == [iov[0].iova];
      ReadFront(g, prps, 1, Total(iov));
    } else if c == |prps| {
      WalkFindsEntries(g, base, before, after, iov, prp2, Total(iov));
    } else {
      FrontFound(g, base, before, after, iov, prp2, c);
      ReadFront(g, prps, c, Total(iov));
    }
  }

  lemma FrontFound(g: Geometry, base: nat, before: seq<seq<nat>>, after: seq<seq<nat>>, iov: seq<Segment>, prp2: nat, c: nat)
    requires g.Valid() && base % g.page == 0 && iov != [] && Encoded(g, base, before, after, iov, prp2)
    requires 2 < c == PrpCount(g, iov[0].iova, Total(iov)) < |AllEntries(g, iov)| && !AtLink(g.slots, c - 1)
    ensures WalkEntries(g, after, base, iov[0].iova, prp2, Total(iov)) == Some(AllEntries(g, iov)[..c])
  {
    var es := ListEntries(g, iov);
    var p := ListFound(g, base, before, after, iov, prp2, c - 1);
    assert [iov[0].iova] + es[..c-1] == AllEntries(g, iov)[..c];
  }

  lemma ListFound(g: Geometry, base: nat, before: seq<seq<nat>>, after: seq<seq<nat>>, iov: seq<Segment>, prp2: nat, w: nat)
    returns (p: nat)
    requires g.Valid() && base % g.page == 0 && iov != [] && Encoded(g, base, before, after, iov, prp2)
    requires 1 <= w < |ListEntries(g, iov)|
    ensures p < |after| == |before| && prp2 == base
    ensures var es := ListEntries(g, iov);
            WalkList(g, after, base, prp2, w) == Some(if AtLink(g.slots, w) then es[..w-1] + [PageAddress(g, base, p)] else es[..w])
  {
    var es := ListEntries(g, iov);
    var page: nat, slot: nat :| Laid(g, base, after, page, slot, es) && (page > 0 ==> slot >= 2) && Untouched(before, after, 0, page);
    p := WalkReadsFewer(g, base, after, 0, page, slot, w);
    assert PageAddress(g, base, 0) == base;
  }

  /** A vector gets fewer entries than it needs only if its first segment ends too early or its last is rounded. */
  lemma FewerEntries(g: Geometry, iov: seq<Segment>)
    requires g.Valid() && iov != [] && Accepted(g, iov) && |AllEntries(g, iov)| < PrpCount(g, iov[0].iova, Total(iov))
    ensures |iov| > 1
    ensures if (iov[0].iova + iov[0].len) % g.page != 0 then Total(iov[1..]) > 0
            else iov[0].len > 0 && Short(g, iov[1..]) && Empties(iov[1..]) == 0
  {
    if |iov| == 1 {
      OneSegmentCount(g, iov);
    } else if (iov[0].iova + iov[0].len) % g.page == 0 {
      BoundaryCount(g, iov);
    } else {
      CeilSmall(g, 0);
    }
  }

  lemma OneSegmentCount(g: Geometry, iov: seq<Segment>)
    requires g.Valid() && |iov| == 1
    ensures |AllEntries(g, iov)| == PrpCount(g, iov[0].iova, Total(iov))
  {
    FirstAlone(g, iov[0]);
    assert Total(iov) == iov[0].len && ListEntries(g, iov) == FirstEntries(g, iov[0]);
  }

  lemma BoundaryCount(g: Geometry, iov: seq<Segment>)
    requires g.Valid() && |iov| > 1 && Accepted(g, iov) && (iov[0].iova + iov[0].len) % g.page == 0
    ensures iov[0].len > 0 ==> |AllEntries(g, iov)| + (if Short(g, iov[1..]) then 1 else 0)
                               == PrpCount(g, iov[0].iova, Total(iov)) + Empties(iov[1..])
    ensures iov[0].len == 0 ==> |AllEntries(g, iov)| >= PrpCount(g, iov[0].iova, Total(iov))
  {
    var s, tail := iov[0], iov[1..];
    CeilSmall(g, 0);
    TailCount(g, tail);
    if s.len > 0 {
      FirstCount(g, s, Total(tail));
    } else if Total(tail) > 0 {
      AlignedCount(g, s.iova, Total(tail));
    }
  }

  /** Otherwise it reads a list page as data, or reads on in the first page, or looks for an entry in vain. */
  lemma UnreadableWalk(g: Geometry, base: nat, before: seq<seq<nat>>, after: seq<seq<nat>>, iov: seq<Segment>, prp2: nat)
    requires g.Valid() && base % g.page == 0 && iov != [] && Accepted(g, iov) && Encoded(g, base, before, after, iov, prp2)
    requires !Readable(g, iov) && Stale(g, before)
    requires NoListPages(g, before, base, Bytes(iov)) && NoListPages(g, before, base, ListEntries(g, iov))
    ensures Walk(g, after, base, iov[0].iova, prp2, Total(iov)) != Some(Bytes(iov))
  {
    var c, prps := PrpCount(g, iov[0].iova, Total(iov)), AllEntries(g, iov);
    if |prps| < c {
      FewerEntries(g, iov);
      if (iov[0].iova + iov[0].len) % g.page != 0 {
        InsideFirstMisread(g, after, base, iov, prp2);
      } else {
        ShortMisread(g, base, before, after, iov, prp2);
      }
    } else {
      var front, p := LinkTaken(g, base, before, after, iov, prp2, c);
      LinkRead(g, before, base, p, front, Bytes(iov));
    }
  }

  /** The last entry the controller finds is the address of a list page. */
  lemma LinkTaken(g: Geometry, base: nat, before: seq<seq<nat>>, after: seq<seq<nat>>, iov: seq<Segment>, prp2: nat, c: nat)
    returns (front: seq<nat>, p: nat)
    requires g.Valid() && base % g.page == 0 && iov != [] && Encoded(g, base, before, after, iov, prp2)
    requires 2 <= c == PrpCount(g, iov[0].iova, Total(iov)) < |AllEntries(g, iov)| && (c > 2 ==> AtLink(g.slots, c - 1))
    ensures p < |after| == |before| && |front| + 1 == c && front[0] == iov[0].iova
    ensures WalkEntries(g, after, base, iov[0].iova, prp2, Total(iov)) == Some(front + [PageAddress(g, base, p)])
  {
    p := ListFound(g, base, before, after, iov, prp2, c - 1);
    if c == 2 {
      front, p := [iov[0].iova], 0;
      assert PageAddress(g, base, 0) == base && front + [base] == [iov[0].iova, base];
    } else {
      var es, link := ListEntries(g, iov), PageAddress(g, base, p);
      front := [iov[0].iova] + es[..c-2];
      AddressesAssociate([iov[0].iova], es[..c-2], [link]);
      assert WalkList(g, after, base, prp2, c - 1) == Some(es[..c-2] + [link]);
    }
  }

  lemma LinkRead(g: Geometry, pages: seq<seq<nat>>, base: nat, p: nat, front: seq<nat>, data: seq<nat>)
    requires g.Valid() && base % g.page == 0 && p < |pages| && front != [] && |front| + 1 == PrpCount(g, front[0], |data|)
    requires NoListPages(g, pages, base, data)
    ensures ReadBytes(g, front + [PageAddress(g, base, p)], |data|) != data
  {
    PageAtAddress(g, pages, base, p);
    LastEntryRead(g, front + [PageAddress(g, base, p)], |data|);
  }

  /** The entries wanted are found, and stand for the bytes of the vector. */
  ghost predicate Right(g: Geometry, iov: seq<Segment>)
    requires g.Valid() && iov != []
  {
    Readable(g, iov) && ReadBytes(g, AllEntries(g, iov), Total(iov)) == Bytes(iov)
  }

  /**
    The controller transfers the bytes of the vector if it is right. If it is not, some old contents of the list
    pages make it transfer others, or none: all that hold no page address, unless data lies in the list pages.
   */
  lemma WalkRightIff(g: Geometry, base: nat, before: seq<seq<nat>>, after: seq<seq<nat>>, iov: seq<Segment>, prp2: nat)
    requires g.Valid() && base % g.page == 0 && iov != [] && Accepted(g, iov) && Encoded(g, base, before, after, iov, prp2)
    ensures Right(g, iov) ==> Walk(g, after, base, iov[0].iova, prp2, Total(iov)) == Some(Bytes(iov))
    ensures Stale(g, before) && NoListPages(g, before, base, Bytes(iov)) && NoListPages(g, before, base, ListEntries(g, iov)) ==>
              (Walk(g, after, base, iov[0].iova, prp2, Total(iov)) == Some(Bytes(iov)) <==> Right(g, iov))
  {
    if Readable(g, iov) {
      ReadableWalk(g, base, before, after, iov, prp2);
    } else if Stale(g, before) && NoListPages(g, before, base, Bytes(iov)) && NoListPages(g, before, base, ListEntries(g, iov)) {
      UnreadableWalk(g, base, before, after, iov, prp2);
    }
  }

  // ----- which vectors those are

  /** Without empty segments, those that meet the contract. */
  lemma RightIffContract(g: Geometry, iov: seq<Segment>)
    requires g.Valid() && iov != [] && Accepted(g, iov) && (|iov| > 1 ==> Empties(iov) == 0)
    ensures Right(g, iov) <==> Contract(g, iov)
  {
    AcceptedDescribesIff(g, iov);
    EnoughEntries(g, iov);
  }

  /** Too many entries there are none, and if too few, the bytes are not the right ones. */
  lemma EnoughEntries(g: Geometry, iov: seq<Segment>)
    requires g.Valid() && iov != [] && Accepted(g, iov) && (|iov| > 1 ==> Empties(iov) == 0)
    ensures |AllEntries(g, iov)| <= PrpCount(g, iov[0].iova, Total(iov))
            || ReadBytes(g, AllEntries(g, iov), Total(iov)) != Bytes(iov)
  {
    if |iov| == 1 {
      OneSegmentCount(g, iov);
    } else if (iov[0].iova + iov[0].len) % g.page != 0 {
      assert Total(iov[1..]) > 0 by { assert Empties(iov[1..]) == 0; }
      FirstRunsOn(g, iov, AllEntries(g, iov));
    } else {
      BoundaryCount(g, iov);
    }
  }

  lemma {:induction false} EmptyEntries(g: Geometry, e: seq<Segment>)
    requires g.Valid() && Empties(e) == |e|
    ensures |AppendEntries(g, e)| == |e| && Bytes(e) == [] && Total(e) == 0
  {
    if e != [] {
      EmptiesAtMost(e[1..]);
      EmptyEntries(g, e[1..]);
      PagesLength(g, e[0].iova, 1);
      ModUnique(0, g.page, 0, 0);
    }
  }

  lemma {:induction false} EmptiesAtMost(e: seq<Segment>)
    ensures Empties(e) <= |e|
  {
    if e != [] { EmptiesAtMost(e[1..]); }
  }

  lemma {:induction false} BytesConcat(a: seq<Segment>, b: seq<Segment>)
    ensures Bytes(a + b) == Bytes(a) + Bytes(b)
  {
    if a == [] {
      assert a + b == b;
    } else {
      assert (a + b)[1..] == a[1..] + b;
      BytesConcat(a[1..], b);
    }
  }

  /**
    Empty segments after a vector that meets the contract do no harm exactly if all of it lies in one page, or
    in more than two and the last entry it needs is not where their entries make the list go on in another page.
   */
  lemma EmptyTailIff(g: Geometry, p: seq<Segment>, e: seq<Segment>)
    requires g.Valid() && Contract(g, p) && e != [] && Empties(e) == |e|
    ensures var c := PrpCount(g, p[0].iova, Total(p));
            Right(g, p + e) <==> c == 1 || (c > 2 && !AtLink(g.slots, c - 1))
  {
    var iov, c := p + e, PrpCount(g, p[0].iova, Total(p));
    EmptyEntries(g, e);
    BytesConcat(p, e);
    assert Bytes(iov) == Bytes(p) && Total(iov) == Total(p);
    ContractDescribes(g, p);
    assert AllEntries(g, iov) == AllEntries(g, p) + AppendEntries(g, e) by { EntriesConcat(g, p, e); }
    assert AllEntries(g, iov)[..c] == AllEntries(g, p);
    ReadFront(g, AllEntries(g, iov), c, Total(p));
  }

  lemma EntriesConcat(g: Geometry, p: seq<Segment>, e: seq<Segment>)
    requires g.Valid() && p != []
    ensures AllEntries(g, p + e) == AllEntries(g, p) + AppendEntries(g, e)
  {
    assert (p + e)[1..] == p[1..] + e;
    AppendConcat(g, p[1..], e);
  }
}
