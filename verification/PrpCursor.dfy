/**
  The PRP list cursor of src/nvme/util.c: entries are written into list pages one after the
  other, and the last slot of a page becomes the link to the next one when it has to.
 */
module PrpCursors {
  import opened Common
  import opened PrpWalk

  // ----- what the pages hold

  function Write(pages: seq<seq<nat>>, p: nat, j: nat, v: nat): (r: seq<seq<nat>>)
    requires p < |pages| && j < |pages[p]|
  {
    var row: seq<nat> := pages[p][..j] + [v] + pages[p][j+1..];
    pages[..p] + [row] + pages[p+1..]
  }

  lemma WriteAt(pages: seq<seq<nat>>, p: nat, j: nat, v: nat)
    requires p < |pages| && j < |pages[p]|
    ensures |Write(pages, p, j, v)| == |pages|
    ensures forall x | 0 <= x < |pages| :: |Write(pages, p, j, v)[x]| == |pages[x]|
    ensures forall x | 0 <= x < |pages| && x != p :: Write(pages, p, j, v)[x] == pages[x]
    ensures forall y | 0 <= y < |pages[p]| :: Write(pages, p, j, v)[p][y] == if y == j then v else pages[p][y]
  {
  }

  /** The data entries from page `q` on, of a list that ends before slot `slot` of page `page`. */
  function StoredFrom(pages: seq<seq<nat>>, m: nat, q: nat, page: nat, slot: nat): (es: seq<nat>)
    requires q <= page < |pages| && m >= 1 && slot <= m && forall p | 0 <= p < |pages| :: |pages[p]| == m
    decreases page - q
  {
    if q == page then pages[q][..slot] else pages[q][..m-1] + StoredFrom(pages, m, q + 1, page, slot)
  }

  /** The first pages are full and linked, and with the slots used of page `page` they hold `es`. */
  ghost predicate Laid(g: Geometry, base: nat, pages: seq<seq<nat>>, page: nat, slot: nat, es: seq<nat>)
    requires g.Valid()
  {
    && page < |pages| && slot <= g.slots
    && (forall p | 0 <= p < |pages| :: |pages[p]| == g.slots)
    && (forall p | 0 <= p < page :: pages[p][g.slots-1] == PageAddress(g, base, p + 1))
    && StoredFrom(pages, g.slots, 0, page, slot) == es
  }

  lemma {:induction false} StoredLength(pages: seq<seq<nat>>, m: nat, q: nat, page: nat, slot: nat)
    requires q <= page < |pages| && m >= 1 && slot <= m && forall p | 0 <= p < |pages| :: |pages[p]| == m
    ensures |StoredFrom(pages, m, q, page, slot)| == (page - q) * (m - 1) + slot
    decreases page - q
  {
    if q < page {
      StoredLength(pages, m, q + 1, page, slot);
      assert (page - q) * (m - 1) == (page - (q + 1)) * (m - 1) + (m - 1);
    }
  }

  /** Changing a slot that is not in use yet changes nothing that is stored. */
  lemma {:induction false} StoredFrame(pages: seq<seq<nat>>, m: nat, q: nat, page: nat, slot: nat, x: nat, v: nat)
    requires q <= page < |pages| && m >= 1 && slot <= x < m && forall p | 0 <= p < |pages| :: |pages[p]| == m
    ensures |Write(pages, page, x, v)| == |pages| && forall p | 0 <= p < |pages| :: |Write(pages, page, x, v)[p]| == m
    ensures StoredFrom(Write(pages, page, x, v), m, q, page, slot) == StoredFrom(pages, m, q, page, slot)
    decreases page - q
  {
    WriteAt(pages, page, x, v);
    if q < page {
      StoredFrame(pages, m, q + 1, page, slot, x, v);
    } else {
      assert Write(pages, page, x, v)[q][..slot] == pages[q][..slot];
    }
  }

  lemma {:induction false} StoredGrows(pages: seq<seq<nat>>, m: nat, q: nat, page: nat, slot: nat)
    requires q <= page < |pages| && m >= 1 && slot < m && forall p | 0 <= p < |pages| :: |pages[p]| == m
    ensures StoredFrom(pages, m, q, page, slot + 1) == StoredFrom(pages, m, q, page, slot) + [pages[page][slot]]
    decreases page - q
  {
    if q < page {
      StoredGrows(pages, m, q + 1, page, slot);
    } else {
      assert pages[q][..slot+1] == pages[q][..slot] + [pages[q][slot]];
    }
  }

  /** Moving on to the next page, with the last slot given up. */
  lemma {:induction false} StoredMoves(pages: seq<seq<nat>>, m: nat, q: nat, page: nat)
    requires q <= page && page + 1 < |pages| && m >= 1 && forall p | 0 <= p < |pages| :: |pages[p]| == m
    ensures StoredFrom(pages, m, q, page + 1, 0) == StoredFrom(pages, m, q, page, m - 1)
    decreases page - q
  {
    if q < page { StoredMoves(pages, m, q + 1, page); }
  }

  lemma LaidPut(g: Geometry, base: nat, pages: seq<seq<nat>>, page: nat, slot: nat, es: seq<nat>, v: nat)
    requires g.Valid() && Laid(g, base, pages, page, slot, es) && slot < g.slots
    ensures Laid(g, base, Write(pages, page, slot, v), page, slot + 1, es + [v])
  {
    WriteAt(pages, page, slot, v);
    StoredFrame(pages, g.slots, 0, page, slot, slot, v);
    StoredGrows(Write(pages, page, slot, v), g.slots, 0, page, slot);
  }

  lemma LaidLink(g: Geometry, base: nat, pages: seq<seq<nat>>, page: nat, es: seq<nat>)
    requires g.Valid() && Laid(g, base, pages, page, g.slots - 1, es) && page + 1 < |pages|
    ensures Laid(g, base, Write(pages, page, g.slots - 1, PageAddress(g, base, page + 1)), page + 1, 0, es)
  {
    var v := PageAddress(g, base, page + 1);
    WriteAt(pages, page, g.slots - 1, v);
    StoredFrame(pages, g.slots, 0, page, g.slots - 1, g.slots - 1, v);
    StoredMoves(Write(pages, page, g.slots - 1, v), g.slots, 0, page);
  }

  ghost predicate Rows(pages: seq<seq<nat>>, m: nat) {
    forall p | 0 <= p < |pages| :: |pages[p]| == m
  }

  /** What writing `es`, and nothing after it, from slot `slot` of page `page` on makes of the pages. */
  ghost function Fill(g: Geometry, base: nat, pages: seq<seq<nat>>, page: nat, slot: nat, es: seq<nat>): (r: seq<seq<nat>>)
    requires g.Valid() && page < |pages| && Rows(pages, g.slots)
    decreases |es|, |pages| - page
  {
    if es == [] || slot >= g.slots then pages
    else if slot == g.slots - 1 && page + 1 < |pages| && |es| > 1 then
      var v := PageAddress(g, base, page + 1);
      WriteAt(pages, page, slot, v);
      Fill(g, base, Write(pages, page, slot, v), page + 1, 0, es)
    else
      WriteAt(pages, page, slot, es[0]);
      Fill(g, base, Write(pages, page, slot, es[0]), page, slot + 1, es[1..])
  }

  /** The cursor is at the end exactly when the pages hold all they can. */
  lemma RoomIff(g: Geometry, base: nat, pages: seq<seq<nat>>, page: nat, slot: nat, es: seq<nat>)
    requires g.Valid() && Laid(g, base, pages, page, slot, es) && (slot == g.slots ==> page == |pages| - 1)
    ensures slot < g.slots <==> |es| < Capacity(|pages|, g.slots)
  {
    StoredLength(pages, g.slots, 0, page, slot);
    ProductMonotone(page, |pages| - 1, g.slots - 1);
  }

  lemma ProductMonotone(a: nat, b: nat, c: nat)
    requires a <= b
    ensures a * c <= b * c
  {
    assert b * c == a * c + (b - a) * c;
  }

  /**
    A controller that wants as many entries as are stored reads exactly those, provided the page
    after the last link holds at least two: otherwise it would take the link for data.
   */
  lemma {:induction false} WalkReadsStored(g: Geometry, base: nat, pages: seq<seq<nat>>, q: nat, page: nat, slot: nat)
    requires g.Valid() && base % g.page == 0 && q <= page < |pages| && slot <= g.slots && (page > q ==> slot >= 2)
    requires forall p | 0 <= p < |pages| :: |pages[p]| == g.slots
    requires forall p | q <= p < page :: pages[p][g.slots-1] == PageAddress(g, base, p + 1)
    ensures var es := StoredFrom(pages, g.slots, q, page, slot);
            WalkList(g, pages, base, PageAddress(g, base, q), |es|) == Some(es)
    decreases page - q
  {
    PageAtAddress(g, pages, base, q);
    if q < page {
      WalkReadsStored(g, base, pages, q + 1, page, slot);
      StoredLength(pages, g.slots, q + 1, page, slot);
      assert |StoredFrom(pages, g.slots, q + 1, page, slot)| >= 2 by {
        assert (page - (q + 1)) * (g.slots - 1) >= 0;
      }
    }
  }

  /** __prplist_capacity */
  function Capacity(n: nat, m: nat): (c: int) {
    (n - 1) * (m - 1) + m
  }

  /** Pages past the one the cursor has reached are as they were. */
  ghost predicate Untouched(before: seq<seq<nat>>, after: seq<seq<nat>>, from: nat, reached: nat) {
    from <= reached && |before| == |after| && forall p | reached < p < |after| :: after[p] == before[p]
  }

  lemma ChainPages(g: Geometry, base: nat, pages: seq<seq<nat>>, page: nat, es: seq<nat>, todo: seq<nat>)
    requires g.Valid() && Laid(g, base, pages, page, g.slots - 1, es) && page + 1 < |pages| && |todo| > 1
    ensures var pages' := Write(pages, page, g.slots - 1, PageAddress(g, base, page + 1));
            && Laid(g, base, pages', page + 1, 0, es) && Untouched(pages, pages', page, page + 1)
            && Fill(g, base, pages, page, g.slots - 1, todo) == Fill(g, base, pages', page + 1, 0, todo)
  {
    LaidLink(g, base, pages, page, es);
    WriteAt(pages, page, g.slots - 1, PageAddress(g, base, page + 1));
  }

  // ----- the cursor

  /** The contents of the list pages. */
  ghost function Contents(lists: array2<nat>): (ps: seq<seq<nat>>)
    reads lists
  {
    seq(lists.Length0, p requires 0 <= p < lists.Length0 reads lists =>
      seq(lists.Length1, j requires 0 <= j < lists.Length1 reads lists => lists[p, j]))
  }

  /** A proof that has to relate `pages` to the memory itself says so by mentioning this. */
  ghost predicate InMemory(x: int) { true }

  class PrpCursor {
    const lists: array2<nat>
    const base: nat
    const g: Geometry
    var page: nat
    var slot: nat
    ghost var pages: seq<seq<nat>>  // the contents of `lists`

    ghost predicate Synced()
      reads this, lists
    {
      && g.Valid() && lists.Length1 == g.slots && |pages| == lists.Length0
      && forall x {:trigger InMemory(x)} :: InMemory(x) ==> pages == Contents(lists)
    }

    /** Holds `es`, and may take more. */
    ghost predicate Holds(es: seq<nat>)
      reads this, lists
    {
      && Synced() && Laid(g, base, pages, page, slot, es)
      && (page > 0 ==> slot >= 1) && (slot == g.slots ==> page == |pages| - 1)
    }

    /** Holds `es`, which is complete: a page reached by a link holds at least two entries. */
    ghost predicate Complete(es: seq<nat>)
      reads this, lists
    {
      Synced() && Laid(g, base, pages, page, slot, es) && (page > 0 ==> slot >= 2)
    }

    /** The one or the other, depending on whether anything is still to come. */
    ghost predicate Has(es: seq<nat>, todo: seq<nat>)
      reads this, lists
    {
      if todo == [] then Complete(es) else Holds(es)
    }

    /** What the pages will be once `todo` has been written too. */
    ghost function Outcome(todo: seq<nat>): (ps: seq<seq<nat>>)
      requires g.Valid() && page < |pages| && Rows(pages, g.slots)
      reads this
    {
      Fill(g, base, pages, page, slot, todo)
    }

    /** __prp_cursor_init */
    constructor (lists: array2<nat>, base: nat, g: Geometry)
      requires g.Valid() && lists.Length0 >= 1 && lists.Length1 == g.slots
      ensures Holds([]) && this.lists == lists && this.base == base && this.g == g && page == 0 && slot == 0
      ensures pages == Contents(lists)
    {
      this.lists, this.base, this.g := lists, base, g;
      page, slot := 0, 0;
      pages := Contents(lists);
    }

    method Store(p: nat, j: nat, v: nat)
      requires Synced() && p < |pages| && j < g.slots && |pages[p]| == g.slots
      modifies this`pages, lists
      ensures Synced() && pages == Write(old(pages), p, j, v)
    {
      assert InMemory(0);
      lists[p, j] := v;
      pages := Write(pages, p, j, v);
      WriteAt(old(pages), p, j, v);
      forall x | 0 <= x < |pages| ensures pages[x] == Contents(lists)[x] {
        assert |pages[x]| == |old(pages)[x]| == lists.Length1;
      }
    }

    /** The first slot of the first page. */
    method First() returns (v: nat)
      requires Synced() && |pages| > 0
      ensures |pages[0]| > 0 && v == pages[0][0]
    {
      assert InMemory(0);
      v := lists[0, 0];
    }

    /**
      __prp_cursor_put: fails exactly when all pages are full; pages past the one reached stay as
      they are. `rest` is what is still to come, so the entry is the last one when there is none.
     */
    method Put(iova: nat, isLast: bool, ghost es: seq<nat>, ghost rest: seq<nat>) returns (ok: bool)
      requires Holds(es) && (isLast <==> rest == [])
      modifies this, lists
      ensures ok <==> |es| < Capacity(|pages|, g.slots)
      ensures ok ==> Has(es + [iova], rest)
      ensures Untouched(old(pages), pages, old(page), page)
      ensures ok ==> old(Outcome([iova] + rest)) == Outcome(rest)
    {
      ghost var todo := [iova] + rest;
      assert todo[1..] == rest;
      if slot == g.slots - 1 && page + 1 < lists.Length0 && !isLast {
        Chain(es, todo);
      }
      RoomIff(g, base, pages, page, slot, es);
      ok := !(page >= lists.Length0 || slot >= g.slots);
      if ok {
        Append(iova, es, todo);
      }
    }

    /** The last slot of the page becomes the link to the next one. */
    method Chain(ghost es: seq<nat>, ghost todo: seq<nat>)
      requires Synced() && Laid(g, base, pages, page, slot, es) && slot == g.slots - 1 && page + 1 < |pages|
      requires |todo| > 1
      modifies this, lists
      ensures Synced() && Laid(g, base, pages, page, slot, es) && page == old(page) + 1 && slot == 0
      ensures Untouched(old(pages), pages, old(page), page)
      ensures old(Outcome(todo)) == Outcome(todo)
    {
      ChainPages(g, base, pages, page, es, todo);
      Store(page, g.slots - 1, PageAddress(g, base, page + 1));
      page := page + 1;
      slot := 0;
    }

    method Append(iova: nat, ghost es: seq<nat>, ghost todo: seq<nat>)
      requires Synced() && Laid(g, base, pages, page, slot, es) && slot < g.slots
      requires |todo| > 0 && todo[0] == iova && (|todo| > 1 && slot == g.slots - 1 ==> page + 1 == |pages|)
      modifies this, lists
      ensures Synced() && Laid(g, base, pages, page, slot, es + [iova]) && page == old(page) && slot == old(slot) + 1
      ensures Untouched(old(pages), pages, old(page), page)
      ensures old(Outcome(todo)) == Outcome(todo[1..])
    {
      LaidPut(g, base, pages, page, slot, es, iova);
      WriteAt(pages, page, slot, iova);
      Store(page, slot, iova);
      slot := slot + 1;
    }
  }
}
