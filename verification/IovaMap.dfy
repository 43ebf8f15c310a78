/**
  The mapping index of src/iommu/dma.c: translation between virtual and I/O addresses over a
  skiplist of mappings, against a plain scan of the list of mappings.
 */
module IovaMaps {
  import opened Common
  import opened Align
  import opened SkipLists
  import opened IovaSpace

  // iova_cmp
  function Compare(vaddr: nat, m: Mapping): (c: int) {
    if vaddr < m.vaddr then -1 else if vaddr >= m.VEnd() then 1 else 0
  }

  // ----- what translation means

  function ToIova(maps: seq<Mapping>, vaddr: nat): (r: Option<nat>) {
    if maps == [] then None
    else if Compare(vaddr, maps[0]) == 0 then Some(maps[0].iova + (vaddr - maps[0].vaddr))
    else ToIova(maps[1..], vaddr)
  }

  /** A virtual address and how much of its mapping is left from there on. */
  datatype Located = Located(vaddr: nat, remaining: nat)

  function ToVaddr(maps: seq<Mapping>, iova: nat): (r: Option<Located>) {
    if maps == [] then None
    else if maps[0].Has(iova) then
      Some(Located(maps[0].vaddr + (iova - maps[0].iova), maps[0].len - (iova - maps[0].iova)))
    else ToVaddr(maps[1..], iova)
  }

  /** On mappings whose buffers do not overlap, only one mapping can answer. */
  lemma {:induction false} ToIovaAt(maps: seq<Mapping>, i: nat, vaddr: nat)
    requires BuffersApart(maps) && i < |maps| && Compare(vaddr, maps[i]) == 0
    ensures ToIova(maps, vaddr) == Some(maps[i].iova + (vaddr - maps[i].vaddr))
  {
    if i > 0 { ToIovaAt(maps[1..], i - 1, vaddr); }
  }

  lemma {:induction false} ToIovaNone(maps: seq<Mapping>, vaddr: nat)
    ensures ToIova(maps, vaddr) == None <==> forall i | 0 <= i < |maps| :: Compare(vaddr, maps[i]) != 0
  {
    if maps != [] {
      ToIovaNone(maps[1..], vaddr);
      assert forall i | 1 <= i < |maps| :: maps[i] == maps[1..][i-1];
    }
  }

  lemma {:induction false} ToVaddrAt(maps: seq<Mapping>, i: nat, iova: nat)
    requires IovasApart(maps) && i < |maps| && maps[i].Has(iova)
    ensures ToVaddr(maps, iova) == Some(Located(maps[i].vaddr + (iova - maps[i].iova), maps[i].len - (iova - maps[i].iova)))
  {
    if i > 0 {
      assert !maps[0].Has(iova);
      assert IovasApart(maps[1..]) by {
        forall j, k, a | 0 <= j < k < |maps| - 1 && maps[1..][j].Has(a) ensures !maps[1..][k].Has(a) {
          assert maps[j+1].Has(a);
        }
      }
      ToVaddrAt(maps[1..], i - 1, iova);
    }
  }

  lemma {:induction false} ToVaddrNone(maps: seq<Mapping>, iova: nat)
    ensures ToVaddr(maps, iova) == None <==> forall i | 0 <= i < |maps| :: !maps[i].Has(iova)
  {
    if maps != [] {
      ToVaddrNone(maps[1..], iova);
      assert forall i | 1 <= i < |maps| :: maps[i] == maps[1..][i-1];
    }
  }

  lemma ToIovaInverts(maps: seq<Mapping>, vaddr: nat)
    requires BuffersApart(maps) && IovasApart(maps) && ToIova(maps, vaddr).Some?
    ensures ToVaddr(maps, ToIova(maps, vaddr).value).Some?
    ensures ToVaddr(maps, ToIova(maps, vaddr).value).value.vaddr == vaddr
  {
    ToIovaNone(maps, vaddr);
    var i :| 0 <= i < |maps| && Compare(vaddr, maps[i]) == 0;
    ToIovaAt(maps, i, vaddr);
    ToVaddrAt(maps, i, maps[i].iova + (vaddr - maps[i].vaddr));
  }

  lemma ToVaddrInverts(maps: seq<Mapping>, iova: nat)
    requires BuffersApart(maps) && IovasApart(maps) && ToVaddr(maps, iova).Some?
    ensures ToIova(maps, ToVaddr(maps, iova).value.vaddr) == Some(iova)
  {
    ToVaddrNone(maps, iova);
    var i :| 0 <= i < |maps| && maps[i].Has(iova);
    ToVaddrAt(maps, i, iova);
    ToIovaAt(maps, i, maps[i].vaddr + (iova - maps[i].iova));
  }

  /** The two translations are inverses of each other on mapped addresses. */
  lemma TranslationsInvert(maps: seq<Mapping>, vaddr: nat, iova: nat)
    requires BuffersApart(maps) && IovasApart(maps)
    ensures ToIova(maps, vaddr) == Some(iova) <==> ToVaddr(maps, iova).Some? && ToVaddr(maps, iova).value.vaddr == vaddr
  {
    if ToIova(maps, vaddr).Some? { ToIovaInverts(maps, vaddr); }
    if ToVaddr(maps, iova).Some? { ToVaddrInverts(maps, iova); }
  }

  /** Every byte of the remaining length translates on, and the mapping's end is where it stops. */
  lemma RemainingReachesEnd(maps: seq<Mapping>, iova: nat, k: nat)
    requires IovasApart(maps) && ToVaddr(maps, iova).Some? && k < ToVaddr(maps, iova).value.remaining
    ensures ToVaddr(maps, iova + k)
         == Some(Located(ToVaddr(maps, iova).value.vaddr + k, ToVaddr(maps, iova).value.remaining - k))
    ensures exists i :: 0 <= i < |maps| && iova + ToVaddr(maps, iova).value.remaining == maps[i].iova + maps[i].len
  {
    ToVaddrNone(maps, iova);
    var i :| 0 <= i < |maps| && maps[i].Has(iova);
    ToVaddrAt(maps, i, iova);
    ToVaddrAt(maps, i, iova + k);
  }

  lemma {:induction false} TranslateConcat(a: seq<Mapping>, b: seq<Mapping>, addr: nat)
    ensures ToIova(a + b, addr) == if ToIova(a, addr).Some? then ToIova(a, addr) else ToIova(b, addr)
    ensures ToVaddr(a + b, addr) == if ToVaddr(a, addr).Some? then ToVaddr(a, addr) else ToVaddr(b, addr)
  {
    if a == [] {
      assert a + b == b;
    } else {
      assert (a + b)[1..] == a[1..] + b;
      TranslateConcat(a[1..], b, addr);
    }
  }

  /** Removing one mapping ends exactly its own translations, in both directions. */
  lemma RemovedTranslates(maps: seq<Mapping>, i: nat, addr: nat)
    requires BuffersApart(maps) && IovasApart(maps) && i < |maps|
    ensures ToIova(Removed(maps, i), addr) == if Compare(addr, maps[i]) == 0 then None else ToIova(maps, addr)
    ensures ToVaddr(Removed(maps, i), addr) == if maps[i].Has(addr) then None else ToVaddr(maps, addr)
  {
    var a, b := maps[..i], maps[i+1..];
    TranslateConcat(a, b, addr);
    TranslateConcat(a + [maps[i]], b, addr);
    TranslateConcat(a, [maps[i]], addr);
    assert maps == a + [maps[i]] + b;
    OthersSilent(maps, i, addr);
  }

  lemma OthersSilent(maps: seq<Mapping>, i: nat, addr: nat)
    requires BuffersApart(maps) && IovasApart(maps) && i < |maps|
    ensures Compare(addr, maps[i]) == 0 ==> ToIova(maps[..i], addr) == None == ToIova(maps[i+1..], addr)
    ensures maps[i].Has(addr) ==> ToVaddr(maps[..i], addr) == None == ToVaddr(maps[i+1..], addr)
  {
    ToIovaNone(maps[..i], addr);
    ToIovaNone(maps[i+1..], addr);
    ToVaddrNone(maps[..i], addr);
    ToVaddrNone(maps[i+1..], addr);
  }

  // ----- the index

  ghost predicate Valid(list: SkipList<Mapping>)
    reads list
  {
    list.Valid() && BuffersApart(list.contents)
  }

  lemma ComparatorOrdered(maps: seq<Mapping>, vaddr: nat)
    requires BuffersApart(maps)
    ensures Ordered(maps, vaddr, Compare)
  {
  }

  /** iova_map_find, with the path that iova_map_add and iova_map_remove use. */
  method FindMapping(list: SkipList<Mapping>, vaddr: nat) returns (n: Ref, m: Mapping, path: seq<Ref>, ghost i: nat)
    requires Valid(list)
    ensures FirstGe(list.contents, vaddr, Compare, i) && list.IsPath(path, i + 1)
    ensures n == HEAD <==> ToIova(list.contents, vaddr) == None
    ensures n != HEAD ==> i < |list.contents| && list.nodes[i+1] == n && m == list.contents[i] && Compare(vaddr, m) == 0
    ensures n != HEAD ==> ToIova(list.contents, vaddr) == Some(m.iova + (vaddr - m.vaddr))
  {
    ComparatorOrdered(list.contents, vaddr);
    n, path, i := list.Find(vaddr, Compare);
    ToIovaNone(list.contents, vaddr);
    if n != HEAD {
      m := list.Get(n, i);
      ToIovaAt(list.contents, i, vaddr);
    } else {
      m := Mapping(0, 0, 0, false);
    }
  }

  /** iommu_translate_vaddr */
  method TranslateVaddr(list: SkipList<Mapping>, vaddr: nat) returns (r: Option<nat>)
    requires Valid(list)
    ensures r == ToIova(list.contents, vaddr)
  {
    var n, m, _, _ := FindMapping(list, vaddr);
    r := if n != HEAD then Some(m.iova + (vaddr - m.vaddr)) else None;
  }

  /** iommu_translate_iova; the scan passes over the sentinel. */
  method TranslateIova(list: SkipList<Mapping>, iova: nat) returns (r: Option<Located>)
    requires list.Valid()
    ensures r == ToVaddr(list.contents, iova)
  {
    ghost var x := 0;
    var n := list.NextNode(HEAD, -1);
    while n != HEAD
      invariant 0 <= x <= |list.nodes| && n == At(list.nodes, x)
      invariant (n == HEAD <==> x == |list.nodes|) && (n == SENTINEL <==> x == 0)
      invariant ToVaddr(list.contents, iova) == ToVaddr(list.contents[(if x == 0 then 0 else x - 1)..], iova)
      decreases |list.nodes| - x
    {
      if n != SENTINEL {
        var m := list.Get(n, x - 1);
        if iova >= m.iova && iova < m.iova + m.len {
          return Some(Located(m.vaddr + (iova - m.iova), m.len - (iova - m.iova)));
        }
        assert list.contents[x-1..][1..] == list.contents[x..];
      }
      n := list.NextNode(n, x);
      x := x + 1;
    }
    return None;
  }

  /** The new buffer ends before the next mapped one starts: what iova_map_add itself does not check. */
  ghost predicate NoOverlap(maps: seq<Mapping>, m: Mapping) {
    forall i | 0 <= i < |maps| :: m.VEnd() <= maps[i].vaddr || maps[i].VEnd() <= m.vaddr
  }

  lemma BuffersConcat(a: seq<Mapping>, b: seq<Mapping>)
    requires BuffersApart(a) && BuffersApart(b)
    requires forall i, j | 0 <= i < |a| && 0 <= j < |b| :: a[i].VEnd() <= b[j].vaddr
    ensures BuffersApart(a + b)
  {
  }

  lemma InsertedBuffers(maps: seq<Mapping>, i: nat, m: Mapping)
    requires BuffersApart(maps) && FirstGe(maps, m.vaddr, Compare, i) && m.len > 0 && m.VEnd() < TWO64
    requires ToIova(maps, m.vaddr) == None
    ensures BuffersApart(Inserted(maps, i, m)) <==> NoOverlap(maps, m)
  {
    PointBetween(maps, i, m.vaddr);
    if NoOverlap(maps, m) { BuffersAround(maps, i, m); } else { BuffersClash(maps, i, m); }
  }

  lemma PointBetween(maps: seq<Mapping>, i: nat, vaddr: nat)
    requires FirstGe(maps, vaddr, Compare, i) && ToIova(maps, vaddr) == None
    ensures forall j | 0 <= j < i :: maps[j].VEnd() <= vaddr
    ensures forall j | i <= j < |maps| :: vaddr < maps[j].vaddr
  {
    ToIovaNone(maps, vaddr);
    forall j | 0 <= j < |maps| ensures Compare(vaddr, maps[j]) != 0 {}
    forall j | 0 <= j < i ensures maps[j].VEnd() <= vaddr { assert Compare(vaddr, maps[j]) > 0; }
    forall j | i <= j < |maps| ensures vaddr < maps[j].vaddr { assert Compare(vaddr, maps[j]) <= 0; }
  }

  lemma BuffersClash(maps: seq<Mapping>, i: nat, m: Mapping)
    requires i <= |maps| && !NoOverlap(maps, m)
    requires (forall j | 0 <= j < i :: maps[j].VEnd() <= m.vaddr) && (forall j | i <= j < |maps| :: m.vaddr < maps[j].vaddr)
    ensures !BuffersApart(Inserted(maps, i, m))
  {
    var j :| 0 <= j < |maps| && m.VEnd() > maps[j].vaddr && maps[j].VEnd() > m.vaddr;
    var t := Inserted(maps, i, m);
    assert t[i] == m && t[j+1] == maps[j];
  }

  lemma BuffersAround(maps: seq<Mapping>, i: nat, m: Mapping)
    requires BuffersApart(maps) && i <= |maps| && m.len > 0 && m.VEnd() < TWO64 && NoOverlap(maps, m)
    requires (forall j | 0 <= j < i :: maps[j].VEnd() <= m.vaddr) && (forall j | i <= j < |maps| :: m.vaddr < maps[j].vaddr)
    ensures BuffersApart(Inserted(maps, i, m))
  {
    assert forall j | i <= j < |maps| :: m.VEnd() <= maps[j].vaddr;
    BuffersConcat(maps[..i], [m]);
    BuffersConcat(maps[..i] + [m], maps[i..]);
  }

  datatype Errno = EINVAL | EEXIST

  /** iova_map_add: it looks up the first byte only, so the buffers stay apart exactly if the new one overlaps none. */
  method Add(list: SkipList<Mapping>, m: Mapping, level: nat) returns (r: Option<Errno>)
    requires Valid(list) && m.VEnd() < TWO64 && level < LEVELS
    modifies list
    ensures list.Valid() && (Valid(list) <==> r.Some? || NoOverlap(old(list.contents), m))
    ensures r == if m.len == 0 then Some(EINVAL) else if ToIova(old(list.contents), m.vaddr).Some? then Some(EEXIST) else None
    ensures r.Some? ==> list.contents == old(list.contents)
    ensures r.None? ==> exists i :: 0 <= i <= |old(list.contents)| && list.contents == Inserted(old(list.contents), i, m)
  {
    if m.len == 0 {
      return Some(EINVAL);
    }
    var n, _, update, i := FindMapping(list, m.vaddr);
    if n != HEAD {
      return Some(EEXIST);
    }
    InsertedBuffers(list.contents, i, m);
    var node := list.New(m);
    list.Link(node, update, level, i + 1);
    r := None;
  }

  /** iova_map_remove */
  method Remove(list: SkipList<Mapping>, vaddr: nat, ghost b: nat)
    requires Valid(list) && b < |list.contents| && Compare(vaddr, list.contents[b]) == 0
    modifies list
    ensures list.Valid() && list.contents == Removed(old(list.contents), b)
  {
    ToIovaNone(list.contents, vaddr);
    var n, _, update, i := FindMapping(list, vaddr);
    assert Compare(vaddr, list.contents[i]) == 0 == Compare(vaddr, list.contents[b]);
    list.Erase(n, update, i + 1);
  }
}
