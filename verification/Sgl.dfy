/**
  The SGL builders nvme_mapv_sgl and nvme_mapv_iova_sgl of src/nvme/util.c, what a controller
  makes of their descriptors (section 4.4 of NVM Express 1.4), and that it is what it makes of
  the PRP entries for the same vector.
 */
module Sgls {
  import opened Align
  import opened Common
  import opened PrpWalk
  import opened PrpEntries
  import opened Prps

  // struct nvme_sgld; the descriptor types are in the high four bits of the last byte
  datatype Sgld = Sgld(addr: nat, len: nat, kind: nat)

  const DATA_BLOCK: nat := 0x0 * 16
  const LAST_SEGMENT: nat := 0x3 * 16

  function Uint32(x: nat): (y: nat) {
    x % 0x1_0000_0000
  }

  // __sgl_data, __sgl_segment
  function DataDescriptor(s: Segment): (d: Sgld) {
    Sgld(s.iova, Uint32(s.len), DATA_BLOCK)
  }

  function SegmentDescriptor(iova: nat, n: nat): (d: Sgld) {
    Sgld(iova, Uint32(n * 16), LAST_SEGMENT)
  }

  // ----- the walk

  /** Data blocks, one after the other; their type is 0. */
  function ReadBlocks(ds: seq<Sgld>): (r: Option<seq<nat>>) {
    if ds == [] then Some([])
    else if ds[0].kind != 0x00 then None
    else
      match ReadBlocks(ds[1..])
      case None => None
      case Some(rest) => Some(Span(ds[0].addr, ds[0].len) + rest)
  }

  /** The descriptor in the command is a data block, type 0, or of type 3 and leads to a last segment of sixteen-byte descriptors. */
  function WalkSgl(d: Sgld, table: seq<Sgld>, tableIova: nat): (r: Option<seq<nat>>) {
    if d.kind == 0x00 then ReadBlocks([d])
    else if d.kind == 0x30 && d.addr == tableIova && d.len % 16 == 0 && d.len / 16 <= |table|
    then ReadBlocks(table[..d.len / 16])
    else None
  }

  lemma {:induction false} BlocksAreBytes(ds: seq<Sgld>, iov: seq<Segment>)
    requires |ds| == |iov| && forall i | 0 <= i < |iov| :: ds[i] == Sgld(iov[i].iova, iov[i].len, 0x00)
    ensures ReadBlocks(ds) == Some(Bytes(iov))
  {
    if iov != [] {
      BlocksAreBytes(ds[1..], iov[1..]);
    }
  }

  /** `flagged` says whether the command's PSDT field calls its data pointer an SGL. */
  datatype Result = Ok(sgl: Sgld, flagged: bool) | EINVAL | EFAULT

  /**
    One segment is described in the command itself. For any other number there is one data descriptor
    per segment, and a descriptor in the command that leads to them.
   */
  ghost predicate SglEncoded(d: Sgld, table: seq<Sgld>, tableIova: nat, iov: seq<Segment>) {
    if |iov| == 1 then d == DataDescriptor(iov[0])
    else
      && d == SegmentDescriptor(tableIova, |iov|) && |iov| <= |table|
      && forall i | 0 <= i < |iov| :: table[i] == DataDescriptor(iov[i])
  }

  ghost predicate LengthsFit(iov: seq<Segment>) {
    forall i | 0 <= i < |iov| :: iov[i].len < 0x1_0000_0000
  }

  /** Descriptors never stand for more bytes than the segments have, and for fewer if a length was cut off. */
  lemma {:induction false} BlocksLength(ds: seq<Sgld>, iov: seq<Segment>)
    requires |ds| == |iov| && forall i | 0 <= i < |iov| :: ds[i] == DataDescriptor(iov[i])
    ensures ReadBlocks(ds).Some? && |ReadBlocks(ds).value| <= Total(iov)
    ensures !LengthsFit(iov) ==> |ReadBlocks(ds).value| < Total(iov)
  {
    if iov != [] {
      BlocksLength(ds[1..], iov[1..]);
      assert ds[0].len <= iov[0].len && (iov[0].len >= 0x1_0000_0000 ==> ds[0].len < iov[0].len);
      assert iov[0].len < 0x1_0000_0000 && LengthsFit(iov[1..]) ==> LengthsFit(iov) by {
        assert forall i | 1 <= i < |iov| :: iov[i] == iov[1..][i-1];
      }
    }
  }

  lemma BlocksIff(ds: seq<Sgld>, iov: seq<Segment>)
    requires |ds| == |iov| && forall i | 0 <= i < |iov| :: ds[i] == DataDescriptor(iov[i])
    ensures ReadBlocks(ds) == Some(Bytes(iov)) <==> LengthsFit(iov)
  {
    if LengthsFit(iov) { BlocksAreBytes(ds, iov); } else { BlocksLength(ds, iov); }
  }

  /**
    The round trip: the controller transfers exactly the bytes of the segments in order, if and only if
    their lengths fit into the descriptors' 32 bits; longer ones are cut off.
   */
  lemma SglWalkReadsBytes(d: Sgld, table: seq<Sgld>, tableIova: nat, iov: seq<Segment>)
    requires SglEncoded(d, table, tableIova, iov) && |table| < 0x1000_0000
    ensures WalkSgl(d, table, tableIova) == Some(Bytes(iov)) <==> LengthsFit(iov)
  {
    if |iov| == 1 {
      BlocksIff([d], iov);
    } else {
      assert d.len == |iov| * 16;
      BlocksIff(table[..|iov|], iov);
    }
  }

  ghost predicate DwordAligned(segs: seq<Segment>) {
    forall i | 0 <= i < |segs| :: segs[i].iova % 4 == 0
  }

  /** The first segment without an I/O address comes before any with an unaligned one. */
  ghost predicate FaultAt(tr: Translation, iov: seq<Segment>, dwordAlign: bool, i: nat) {
    i < |iov| && tr(iov[i].iova).None? && forall j | 0 <= j < i :: Passes(tr, iov[j], dwordAlign)
  }

  ghost predicate Passes(tr: Translation, s: Segment, dwordAlign: bool) {
    tr(s.iova).Some? && (dwordAlign ==> tr(s.iova).value % 4 == 0)
  }

  /**
    nvme_mapv_sgl, and with the identity for a translation nvme_mapv_iova_sgl. `table` is the page of
    descriptors at `tableIova`. The flag is set for any number of segments but one, and the alignment
    of a single segment is not looked at.
   */
  method MapvSgl(table: array<Sgld>, tableIova: nat, dwordAlign: bool, flagged: bool, tr: Translation, iov: seq<Segment>)
    returns (r: Result)
    modifies table
    ensures r.Ok? <==> AllResolve(tr, iov) && (|iov| != 1 ==> |iov| <= table.Length
                                                              && (dwordAlign ==> DwordAligned(Resolve(tr, iov))))
    ensures r.EFAULT? <==> (|iov| == 1 || |iov| <= table.Length)
                           && exists i: nat :: FaultAt(tr, iov, dwordAlign, i)
    ensures r.Ok? ==> SglEncoded(r.sgl, table[..], tableIova, Resolve(tr, iov))
    ensures r.Ok? ==> (r.flagged <==> flagged || |iov| != 1)
    ensures r.Ok? && |iov| != 1 ==> table[|iov|..] == old(table[|iov|..])
    ensures |iov| == 1 ==> table[..] == old(table[..])
  {
    if |iov| == 1 {
      match tr(iov[0].iova)
      case None =>
        assert FaultAt(tr, iov, dwordAlign, 0);
        return Result.EFAULT;
      case Some(a) => return Result.Ok(DataDescriptor(Segment(a, iov[0].len)), flagged);
    }
    if |iov| > table.Length {
      return Result.EINVAL;
    }
    var d := SegmentDescriptor(tableIova, |iov|);
    ghost var segs := Resolve(tr, iov);
    var i := 0;
    while i < |iov|
      invariant 0 <= i <= |iov| && d == SegmentDescriptor(tableIova, |iov|)
      invariant forall j | 0 <= j < i :: tr(iov[j].iova).Some? && table[j] == DataDescriptor(segs[j])
      invariant dwordAlign ==> forall j | 0 <= j < i :: segs[j].iova % 4 == 0
      invariant forall j | 0 <= j < i :: Passes(tr, iov[j], dwordAlign)
      invariant table[|iov|..] == old(table[|iov|..])
    {
      var a := tr(iov[i].iova);
      if a.None? {
        assert FaultAt(tr, iov, dwordAlign, i);
        return Result.EFAULT;
      }
      if dwordAlign && a.value % 4 != 0 {
        assert !Passes(tr, iov[i], dwordAlign);
        return Result.EINVAL;
      }
      table[i] := DataDescriptor(Segment(a.value, iov[i].len));
      i := i + 1;
    }
    return Result.Ok(d, true);
  }

  /** Under the PRP contract both encodings of a vector lead a controller to the same bytes. */
  lemma SglAgreesWithPrp(g: Geometry, base: nat, before: seq<seq<nat>>, after: seq<seq<nat>>, iov: seq<Segment>, prp2: nat,
                         d: Sgld, table: seq<Sgld>, tableIova: nat)
    requires g.Valid() && base % g.page == 0 && Contract(g, iov) && Encoded(g, base, before, after, iov, prp2)
    requires SglEncoded(d, table, tableIova, iov) && |table| < 0x1000_0000 && LengthsFit(iov)
    ensures WalkSgl(d, table, tableIova) == Walk(g, after, base, iov[0].iova, prp2, Total(iov))
  {
    WalkReadsBytes(g, base, before, after, iov, prp2);
    SglWalkReadsBytes(d, table, tableIova, iov);
  }

  // ----- the flag

  /** How a controller reads the data pointer: as a descriptor if so flagged, and else as PRP1 and PRP2. */
  function ReadPointer(g: Geometry, pages: seq<seq<nat>>, base: nat, table: seq<Sgld>, tableIova: nat,
                       d: Sgld, flagged: bool, len: nat): (r: Option<seq<nat>>)
    requires g.Valid()
  {
    if flagged then WalkSgl(d, table, tableIova)
    else Walk(g, pages, base, d.addr, d.len + d.kind * 0x100_0000_0000_0000, len)
  }

  lemma SecondPage(g: Geometry, s: Segment)
    requires g.Valid() && PrpCount(g, s.iova, s.len) <= 2
    ensures FirstEntries(g, s) == if PrpCount(g, s.iova, s.len) == 1 then [] else [s.iova - s.iova % g.page + g.page]
    ensures PrpCount(g, s.iova, s.len) == 2 ==> FirstChunk(g, s) == g.page - s.iova % g.page < s.len
  {
    FirstAlone(g, s);
    PagesLength(g, s.iova - s.iova % g.page + g.page, Ceil(g, s.len - FirstChunk(g, s)));
  }

  /** One or two PRP entries for one buffer: the second one, if needed, must be the address of its second page. */
  lemma TwoEntriesIff(g: Geometry, pages: seq<seq<nat>>, base: nat, s: Segment, prp2: nat)
    requires g.Valid() && PrpCount(g, s.iova, s.len) <= 2
    ensures Walk(g, pages, base, s.iova, prp2, s.len) == Some(Span(s.iova, s.len))
            <==> PrpCount(g, s.iova, s.len) == 1 || prp2 == s.iova + FirstChunk(g, s)
  {
    var n, next := PrpCount(g, s.iova, s.len), s.iova - s.iova % g.page + g.page;
    assert n == 2 ==> next == s.iova + FirstChunk(g, s) by { SecondPage(g, s); }
    NextPageStarts(g, s.iova);
    FewEntries(g, pages, base, s.iova, prp2, s.len);
    assert ReadBytes(g, if n == 1 then [s.iova] else [s.iova, next], s.len) == Span(s.iova, s.len) by {
      FirstAlone(g, s);
      SecondPage(g, s);
      assert [s.iova] + FirstEntries(g, s) == if n == 1 then [s.iova] else [s.iova, next];
    }
    if n == 2 && prp2 != next {
      SecondPage(g, s);
      SpanAt(s.iova, s.len, FirstChunk(g, s));
      WrongSecond(g, pages, base, s.iova, prp2, Span(s.iova, s.len));
    }
  }

  lemma NextPageStarts(g: Geometry, a: nat)
    requires g.Valid()
    ensures (a - a % g.page + g.page) % g.page == 0
  {
    var q := a / g.page;
    assert a - a % g.page + g.page == g.page * (q + 1);
    ModUnique(a - a % g.page + g.page, g.page, q + 1, 0);
  }

  /** More than two: the list at PRP2 must hold the addresses of the other pages. */
  lemma ManyEntriesIff(g: Geometry, pages: seq<seq<nat>>, base: nat, s: Segment, prp2: nat)
    requires g.Valid() && PrpCount(g, s.iova, s.len) > 2
    ensures Walk(g, pages, base, s.iova, prp2, s.len) == Some(Span(s.iova, s.len))
            <==> WalkList(g, pages, base, prp2, PrpCount(g, s.iova, s.len) - 1) == Some(FirstEntries(g, s))
  {
    var n, es := PrpCount(g, s.iova, s.len), FirstEntries(g, s);
    FirstAlone(g, s);
    match WalkList(g, pages, base, prp2, n - 1)
    case None =>
    case Some(found) =>
      if found == es {
        FirstAligned(g, s);
      } else {
        assert |found| == n - 1 by { WalkLength(g, pages, base, prp2, n - 1); }
        OtherPages(g, s, found);
      }
  }

  lemma {:induction false} WalkLength(g: Geometry, pages: seq<seq<nat>>, base: nat, addr: nat, n: nat)
    requires g.Valid() && WalkList(g, pages, base, addr, n).Some?
    ensures |WalkList(g, pages, base, addr, n).value| == n
    decreases n
  {
    var page := PageAt(g, pages, base, addr).value;
    if n > g.slots { WalkLength(g, pages, base, page[g.slots-1], n - (g.slots - 1)); }
  }

  lemma FirstAligned(g: Geometry, s: Segment)
    requires g.Valid()
    ensures OffsetsOk(g, [s.iova] + FirstEntries(g, s))
  {
    NextPageStarts(g, s.iova);
    PagesAligned(g, s.iova - s.iova % g.page + g.page, Ceil(g, s.len - FirstChunk(g, s)));
  }

  lemma OtherPages(g: Geometry, s: Segment, found: seq<nat>)
    requires g.Valid() && |found| == |FirstEntries(g, s)| && found != FirstEntries(g, s)
    ensures ReadBytes(g, [s.iova] + found, s.len) != Span(s.iova, s.len)
  {
    var k, es := FirstChunk(g, s), FirstEntries(g, s);
    FirstAlone(g, s);
    assert ([s.iova] + found)[1..] == found && ([s.iova] + es)[1..] == es;
    if ReadBytes(g, [s.iova] + found, s.len) == Span(s.iova, s.len) {
      SameParts(Span(s.iova, k), ReadPages(g, found, s.len - k), Span(s.iova, k), ReadPages(g, es, s.len - k));
      PagesDetermined(g, found, es, s.len - k);
      assert false;
    }
  }

  /**
    A single segment leaves the flag to the caller. If the caller has not set it, the descriptor's address
    is taken for PRP1 and its length for PRP2. The right bytes are transferred exactly when PRP2 is not
    needed, or the length happens to be the address of the second of two pages, or that of a list of all
    pages but the first.
   */
  lemma UnflaggedSegmentIff(g: Geometry, pages: seq<seq<nat>>, base: nat, table: seq<Sgld>, tableIova: nat, s: Segment)
    requires g.Valid()
    ensures var n, prp2 := PrpCount(g, s.iova, s.len), Uint32(s.len);
            ReadPointer(g, pages, base, table, tableIova, DataDescriptor(s), false, s.len) == Some(Span(s.iova, s.len))
            <==> n == 1 || (n == 2 && prp2 == s.iova + FirstChunk(g, s))
                 || (n > 2 && WalkList(g, pages, base, prp2, n - 1) == Some(FirstEntries(g, s)))
  {
    var prp2 := Uint32(s.len);
    assert DataDescriptor(s) == Sgld(s.iova, prp2, 0);
    if PrpCount(g, s.iova, s.len) <= 2 { TwoEntriesIff(g, pages, base, s, prp2); } else { ManyEntriesIff(g, pages, base, s, prp2); }
  }

  /** Two pages in one segment: the second one is looked for at the address 0x2000. */
  lemma UnflaggedTwoPages(g: Geometry, pages: seq<seq<nat>>, base: nat, table: seq<Sgld>, tableIova: nat, s: Segment)
    requires g == Geometry(4096, 512) && s == Segment(0x1000000, 0x2000)
    ensures ReadPointer(g, pages, base, table, tableIova, DataDescriptor(s), false, s.len) != Some(Span(s.iova, s.len))
  {
    UnflaggedSegmentIff(g, pages, base, table, tableIova, s);
  }
}
