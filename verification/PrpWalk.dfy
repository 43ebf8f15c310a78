/**
  What a controller makes of a PRP data pointer (section 4.3 of NVM Express 1.4): told only the
  length of the transfer, it finds the PRP entries in the command and in the chained list pages,
  and from them the addresses it transfers to, byte by byte.
 */
module PrpWalk {
  import opened Common
  import opened Align

  /** A memory page of `page` bytes holds `slots` eight-byte entries. */
  datatype Geometry = Geometry(page: nat, slots: nat) {
    predicate Valid() { page == 8 * slots && slots >= 2 }
  }

  // ----- bytes

  // Contracts name `Span` and `ReadPages`, which are not recursive, so that the verifier compares them as
  // they stand. The recursions behind them are unfolded only where a proof follows them.

  /** The addresses of `n` consecutive bytes. */
  function Span(a: nat, n: nat): (s: seq<nat>)
    ensures |s| == n
  {
    SpanFrom(a, n)
  }

  function SpanFrom(a: nat, n: nat): (s: seq<nat>)
    ensures |s| == n
    decreases n
  {
    if n == 0 then [] else [a] + SpanFrom(a + 1, n - 1)
  }

  lemma {:induction false} SpanAt(a: nat, n: nat, i: nat)
    requires i < n
    ensures Span(a, n)[i] == a + i
    decreases n
  {
    if i > 0 { SpanAt(a + 1, n - 1, i - 1); }
  }

  lemma {:induction false} SpanConcat(a: nat, m: nat, n: nat)
    ensures Span(a, m) + Span(a + m, n) == Span(a, m + n)
    decreases m
  {
    if m > 0 {
      SpanConcat(a + 1, m - 1, n);
      AddressesAssociate([a], Span(a + 1, m - 1), Span(a + m, n));
    }
  }

  lemma AddressesAssociate(a: seq<nat>, b: seq<nat>, c: seq<nat>)
    ensures a + (b + c) == a + b + c
  {
  }

  function Min(a: nat, b: nat): (m: nat) { if a < b then a else b }

  /** The bytes of whole pages, the last one possibly in part. */
  function ReadPages(g: Geometry, es: seq<nat>, len: nat): (s: seq<nat>) {
    PagesRead(g, es, len)
  }

  function PagesRead(g: Geometry, es: seq<nat>, len: nat): (s: seq<nat>) {
    if es == [] || len == 0 then []
    else Span(es[0], Min(len, g.page)) + PagesRead(g, es[1..], len - Min(len, g.page))
  }

  /** The first entry may have an offset into its page and then stands for the bytes up to the page's end. */
  function ReadBytes(g: Geometry, prps: seq<nat>, len: nat): (s: seq<nat>)
    requires g.Valid() && prps != []
  {
    var k := Min(len, g.page - prps[0] % g.page);
    Span(prps[0], k) + ReadPages(g, prps[1..], len - k)
  }

  /** Every other entry must be the address of a page. */
  predicate OffsetsOk(g: Geometry, prps: seq<nat>)
    requires g.Valid()
  {
    forall i | 1 <= i < |prps| :: prps[i] % g.page == 0
  }

  /** How many pages `x` bytes from the start of a page take. */
  function Ceil(g: Geometry, x: nat): (n: nat)
    requires g.Valid()
  {
    if x == 0 then 0 else if x <= g.page then 1 else 1 + Ceil(g, x - g.page)
  }

  /** How many entries a transfer of `len` bytes from `prp1` needs. */
  function PrpCount(g: Geometry, prp1: nat, len: nat): (n: nat)
    requires g.Valid()
    ensures n >= 1
  {
    var first := Min(len, g.page - prp1 % g.page);
    1 + Ceil(g, len - first)
  }

  // ----- the list pages

  function PageAddress(g: Geometry, base: nat, p: nat): (a: nat) {
    base + p * g.page
  }

  function PageIndex(g: Geometry, offset: nat): (p: nat)
    requires g.Valid()
  {
    DivNonNegative(offset, g.page);
    offset / g.page
  }

  /** The list page at an address, if the address is that of one. */
  function PageAt(g: Geometry, pages: seq<seq<nat>>, base: nat, addr: nat): (r: Option<seq<nat>>)
    requires g.Valid()
  {
    if addr % g.page == 0 && addr >= base && PageIndex(g, addr - base) < |pages| then Some(pages[PageIndex(g, addr - base)]) else None
  }

  /** The last slot of a page is a link exactly when more entries are wanted than the page has slots. */
  function WalkList(g: Geometry, pages: seq<seq<nat>>, base: nat, addr: nat, n: nat): (r: Option<seq<nat>>)
    requires g.Valid()
    decreases n
  {
    match PageAt(g, pages, base, addr)
    case None => None
    case Some(page) =>
      if |page| != g.slots then None
      else if n <= g.slots then Some(page[..n])
      else
        match WalkList(g, pages, base, page[g.slots-1], n - (g.slots - 1))
        case None => None
        case Some(rest) => Some(page[..g.slots-1] + rest)
  }

  /** The entries of a command: one, two, or one and a list. */
  function WalkEntries(g: Geometry, pages: seq<seq<nat>>, base: nat, prp1: nat, prp2: nat, len: nat): (r: Option<seq<nat>>)
    requires g.Valid()
    ensures r.Some? ==> r.value != []
  {
    var n := PrpCount(g, prp1, len);
    if n == 1 then Some([prp1])
    else if n == 2 then Some([prp1, prp2])
    else
      match WalkList(g, pages, base, prp2, n - 1)
      case None => None
      case Some(rest) => Some([prp1] + rest)
  }

  /** The whole walk. */
  function Walk(g: Geometry, pages: seq<seq<nat>>, base: nat, prp1: nat, prp2: nat, len: nat): (r: Option<seq<nat>>)
    requires g.Valid()
  {
    match WalkEntries(g, pages, base, prp1, prp2, len)
    case None => None
    case Some(prps) => if OffsetsOk(g, prps) then Some(ReadBytes(g, prps, len)) else None
  }

  lemma PageAtAddress(g: Geometry, pages: seq<seq<nat>>, base: nat, p: nat)
    requires g.Valid() && base % g.page == 0 && p < |pages|
    ensures PageAt(g, pages, base, PageAddress(g, base, p)) == Some(pages[p])
  {
    var a := PageAddress(g, base, p);
    assert a == g.page * (base / g.page + p);
    ModUnique(a, g.page, base / g.page + p, 0);
    ModUnique(a - base, g.page, p, 0);
  }

  /** One or two entries are found in the command itself. */
  lemma FewEntries(g: Geometry, pages: seq<seq<nat>>, base: nat, prp1: nat, prp2: nat, len: nat)
    requires g.Valid() && PrpCount(g, prp1, len) <= 2
    ensures Walk(g, pages, base, prp1, prp2, len)
            == if PrpCount(g, prp1, len) == 1 then Some(ReadBytes(g, [prp1], len))
               else if prp2 % g.page == 0 then Some(ReadBytes(g, [prp1, prp2], len)) else None
  {
  }

  /** The byte behind the first page comes from the second entry. */
  lemma SecondRead(g: Geometry, prp1: nat, prp2: nat, len: nat)
    requires g.Valid() && g.page - prp1 % g.page < len
    ensures var r := ReadBytes(g, [prp1, prp2], len);
            var k := g.page - prp1 % g.page;
            k < |r| && r[k] == prp2
  {
    var k := g.page - prp1 % g.page;
    var rest := ReadPages(g, [prp2], len - k);
    assert [prp1, prp2][1..] == [prp2];
    SpanAt(prp2, Min(len - k, g.page), 0);
    assert rest[0] == prp2;
    assert (Span(prp1, k) + rest)[k] == rest[0];
  }

  /** Two entries, of which the second is not where the second page of the data is. */
  lemma WrongSecond(g: Geometry, pages: seq<seq<nat>>, base: nat, prp1: nat, prp2: nat, data: seq<nat>)
    requires g.Valid() && PrpCount(g, prp1, |data|) == 2 && g.page - prp1 % g.page < |data|
    requires data[g.page - prp1 % g.page] != prp2
    ensures Walk(g, pages, base, prp1, prp2, |data|) != Some(data)
  {
    FewEntries(g, pages, base, prp1, prp2, |data|);
    SecondRead(g, prp1, prp2, |data|);
  }
}
