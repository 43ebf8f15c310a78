/**
  The PRP entries that src/nvme/util.c derives from a buffer or a vector of buffers, and when
  they describe the same bytes.
 */
module PrpEntries {
  import opened Align
  import opened PrpWalk

  // struct iova_vec
  datatype Segment = Segment(iova: nat, len: nat)

  // ----- the entries

  /** Entries for `n` consecutive pages. */
  function Pages(g: Geometry, a: nat, n: nat): (s: seq<nat>)
    decreases n
  {
    if n == 0 then [] else [a] + Pages(g, a + g.page, n - 1)
  }

  /** The bytes in `k` pages. */
  function Size(g: Geometry, k: nat): (n: nat)
    decreases k
  {
    if k == 0 then 0 else g.page + Size(g, k - 1)
  }

  function FirstChunk(g: Geometry, s: Segment): (n: nat)
    requires g.Valid()
  {
    Min(s.len, g.page - s.iova % g.page)
  }

  /** __map_prp_first: the list entries after prp1. */
  function FirstEntries(g: Geometry, s: Segment): (es: seq<nat>)
    requires g.Valid()
  {
    Pages(g, s.iova - s.iova % g.page + g.page, Ceil(g, s.len - FirstChunk(g, s)))
  }

  /** How many whole pages `len` bytes fill. */
  function Whole(g: Geometry, len: nat): (n: nat)
    requires g.Valid()
  {
    if len < g.page then 0 else 1 + Whole(g, len - g.page)
  }

  /** __map_prp_append: the number of entries rounds down, but is at least one. */
  function AppendCount(g: Geometry, len: nat): (n: nat)
    requires g.Valid()
  {
    if Whole(g, len) < 1 then 1 else Whole(g, len)
  }

  function AppendEntries(g: Geometry, iov: seq<Segment>): (es: seq<nat>)
    requires g.Valid()
  {
    if iov == [] then [] else Pages(g, iov[0].iova, AppendCount(g, iov[0].len)) + AppendEntries(g, iov[1..])
  }

  /** All entries that go into the list. */
  function ListEntries(g: Geometry, iov: seq<Segment>): (es: seq<nat>)
    requires g.Valid() && iov != []
  {
    FirstEntries(g, iov[0]) + AppendEntries(g, iov[1..])
  }

  // ----- the bytes

  function Total(iov: seq<Segment>): (n: nat) {
    if iov == [] then 0 else iov[0].len + Total(iov[1..])
  }

  function Bytes(iov: seq<Segment>): (s: seq<nat>)
    ensures |s| == Total(iov)
  {
    if iov == [] then [] else Span(iov[0].iova, iov[0].len) + Bytes(iov[1..])
  }

  /** The entries are as many as the length calls for, and stand for these bytes. */
  ghost predicate Describes(g: Geometry, prps: seq<nat>, iov: seq<Segment>)
    requires g.Valid() && prps != []
  {
    |prps| == PrpCount(g, prps[0], Total(iov)) && ReadBytes(g, prps, Total(iov)) == Bytes(iov)
  }

  // ----- arithmetic

  lemma {:induction false} PagesLength(g: Geometry, a: nat, n: nat)
    ensures |Pages(g, a, n)| == n
    decreases n
  {
    if n > 0 { PagesLength(g, a + g.page, n - 1); }
  }

  lemma {:induction false} SizeIsProduct(g: Geometry, k: nat)
    ensures Size(g, k) == k * g.page
    decreases k
  {
    if k > 0 {
      SizeIsProduct(g, k - 1);
      assert k * g.page == (k - 1) * g.page + g.page;
    }
  }

  lemma {:induction false} SizeAligned(g: Geometry, a: nat, k: nat)
    requires g.Valid()
    ensures (a + Size(g, k)) % g.page == a % g.page
    decreases k
  {
    if k > 0 {
      SizeAligned(g, a, k - 1);
      NextPage(g, a + Size(g, k - 1));
    }
  }

  lemma NextPage(g: Geometry, a: nat)
    requires g.Valid()
    ensures (a + g.page) % g.page == a % g.page
  {
    ModUnique(a + g.page, g.page, a / g.page + 1, a % g.page);
  }

  lemma {:induction false} CeilMultiple(g: Geometry, k: nat, x: nat)
    requires g.Valid()
    ensures Ceil(g, Size(g, k) + x) == k + Ceil(g, x)
    decreases k
  {
    if k > 0 { CeilMultiple(g, k - 1, x); }
  }

  lemma CeilSmall(g: Geometry, x: nat)
    requires g.Valid() && x <= g.page
    ensures Ceil(g, x) == if x == 0 then 0 else 1
  {
  }

  lemma {:induction false} WholeMultiple(g: Geometry, k: nat, x: nat)
    requires g.Valid() && x < g.page
    ensures Whole(g, Size(g, k) + x) == k
    decreases k
  {
    if k > 0 { WholeMultiple(g, k - 1, x); }
  }

  /** `len` as whole pages and a remainder. */
  lemma Split(g: Geometry, len: nat) returns (k: nat, x: nat)
    requires g.Valid()
    ensures len == Size(g, k) + x && x < g.page && k == Whole(g, len) == len / g.page && x == len % g.page
    ensures Ceil(g, len) == if x == 0 then k else k + 1
  {
    DivNonNegative(len, g.page);
    k, x := len / g.page, len % g.page;
    SizeIsProduct(g, k);
    CeilMultiple(g, k, x);
    WholeMultiple(g, k, x);
  }

  /** Rounding up and down are the divisions that the source does with shifts. */
  lemma CeilIsDivision(g: Geometry, x: nat)
    requires g.Valid()
    ensures Ceil(g, x) == (x + g.page - 1) / g.page && Whole(g, x) == x / g.page
  {
    var k, r := Split(g, x);
    SizeIsProduct(g, k);
    if r == 0 {
      ModUnique(x + g.page - 1, g.page, k, g.page - 1);
    } else {
      ModUnique(x + g.page - 1, g.page, k + 1, r - 1);
    }
  }

  // ----- reading entries back

  // What is read is a parameter here, so that the verifier does not have to look into it.
  lemma Glue(x: seq<nat>, y: seq<nat>, z: seq<nat>, all: seq<nat>, rest: seq<nat>, front: seq<nat>)
    requires all == x + rest && rest == y + z && front == x + y
    ensures all == front + z
  {
    AddressesAssociate(x, y, z);
  }

  lemma ReadOne(g: Geometry, a: nat, es: seq<nat>, more: nat)
    requires g.Valid()
    ensures ReadPages(g, [a] + es, g.page + more) == Span(a, g.page) + ReadPages(g, es, more)
  {
    assert ([a] + es)[1..] == es;
  }

  lemma WholeStep(g: Geometry, a: nat, es: seq<nat>, n: nat, rest: seq<nat>, more: nat, ps: seq<nat>, size: nat, len: nat)
    requires g.Valid() && ps == [a] + es && size == g.page + n && len == size + more
    requires ReadPages(g, es + rest, n + more) == Span(a + g.page, n) + ReadPages(g, rest, more)
    ensures ReadPages(g, ps + rest, len) == Span(a, size) + ReadPages(g, rest, more)
  {
    AddressesAssociate([a], es, rest);
    ReadOne(g, a, es + rest, n + more);
    SpanConcat(a, g.page, n);
    Glue(Span(a, g.page), Span(a + g.page, n), ReadPages(g, rest, more),
         ReadPages(g, ps + rest, len), ReadPages(g, es + rest, n + more), Span(a, size));
  }

  /** Whole pages followed by more. */
  lemma {:induction false} ReadWhole(g: Geometry, a: nat, k: nat, rest: seq<nat>, more: nat)
    requires g.Valid()
    ensures ReadPages(g, Pages(g, a, k) + rest, Size(g, k) + more) == Span(a, Size(g, k)) + ReadPages(g, rest, more)
    decreases k
  {
    if k == 0 {
      assert Pages(g, a, 0) + rest == rest;
      assert [] + ReadPages(g, rest, more) == ReadPages(g, rest, more);
    } else {
      ReadWhole(g, a + g.page, k - 1, rest, more);
      WholeStep(g, a, Pages(g, a + g.page, k - 1), Size(g, k - 1), rest, more, Pages(g, a, k), Size(g, k), Size(g, k) + more);
    }
  }

  lemma {:induction false} PagesConcat(g: Geometry, a: nat, m: nat, n: nat)
    ensures Pages(g, a, m + n) == Pages(g, a, m) + Pages(g, a + Size(g, m), n)
    decreases m
  {
    if m > 0 { PagesConcat(g, a + g.page, m - 1, n); }
  }

  lemma ReadPart(g: Geometry, b: nat, x: nat)
    requires 0 < x <= g.page
    ensures Pages(g, b, 1) == [b] && ReadPages(g, [b], x) == Span(b, x)
  {
    assert Pages(g, b + g.page, 0) == [];
    assert ReadPages(g, [b][1..], 0) == [];
  }

  /** A run of bytes, the last page possibly in part. */
  lemma ReadRun(g: Geometry, a: nat, len: nat)
    requires g.Valid()
    ensures ReadPages(g, Pages(g, a, Ceil(g, len)), len) == Span(a, len)
  {
    var k, x := Split(g, len);
    if x == 0 {
      ReadWhole(g, a, k, [], 0);
      assert Pages(g, a, k) + [] == Pages(g, a, k);
    } else {
      var b := a + Size(g, k);
      PagesConcat(g, a, k, 1);
      ReadPart(g, b, x);
      ReadWhole(g, a, k, [b], x);
      SpanConcat(a, Size(g, k), x);
    }
  }

  // ----- the documented contract

  /** Segments after the first: page aligned, not empty, and of whole pages; the last may be less than a page. */
  ghost predicate TailOk(g: Geometry, iov: seq<Segment>)
    requires g.Valid()
  {
    iov == [] ||
    (&& iov[0].iova % g.page == 0 && iov[0].len > 0
     && (iov[0].len % g.page == 0 || (|iov| == 1 && iov[0].len <= g.page))
     && TailOk(g, iov[1..]))
  }

  /** The first segment may start anywhere, but must end on a page boundary if another one follows. */
  ghost predicate Contract(g: Geometry, iov: seq<Segment>)
    requires g.Valid()
  {
    && iov != [] && TailOk(g, iov[1..])
    && (|iov| > 1 ==> iov[0].len > 0 && (iov[0].iova + iov[0].len) % g.page == 0)
  }

  /** A segment of whole pages, followed by more. */
  lemma WholeSegment(g: Geometry, s: Segment, rest: seq<nat>, more: nat)
    requires g.Valid() && s.len > 0 && s.len % g.page == 0
    ensures AppendCount(g, s.len) + Ceil(g, more) == Ceil(g, s.len + more)
    ensures ReadPages(g, Pages(g, s.iova, AppendCount(g, s.len)) + rest, s.len + more) == Span(s.iova, s.len) + ReadPages(g, rest, more)
  {
    var k, x := Split(g, s.len);
    assert k >= 1;
    CeilMultiple(g, k, more);
    ReadWhole(g, s.iova, k, rest, more);
  }

  /** A last segment of less than a page. */
  lemma PartSegment(g: Geometry, s: Segment)
    requires g.Valid() && 0 < s.len < g.page
    ensures AppendCount(g, s.len) == 1 == Ceil(g, s.len)
    ensures ReadPages(g, Pages(g, s.iova, 1), s.len) == Span(s.iova, s.len)
  {
    CeilSmall(g, s.len);
    ModUnique(s.len, g.page, 0, s.len);
    ReadPart(g, s.iova, s.len);
  }

  lemma {:induction false} TailReads(g: Geometry, iov: seq<Segment>)
    requires g.Valid() && TailOk(g, iov)
    ensures |AppendEntries(g, iov)| == Ceil(g, Total(iov))
    ensures ReadPages(g, AppendEntries(g, iov), Total(iov)) == Bytes(iov)
  {
    if iov == [] {
      CeilSmall(g, 0);
    } else {
      var s, rest := iov[0], iov[1..];
      PagesLength(g, s.iova, AppendCount(g, s.len));
      TailReads(g, rest);
      if s.len % g.page == 0 {
        WholeSegment(g, s, AppendEntries(g, rest), Total(rest));
      } else {
        assert s.len < g.page by { ModUnique(g.page, g.page, 1, 0); }
        PartSegment(g, s);
        assert AppendEntries(g, iov) == Pages(g, s.iova, 1) && Bytes(iov) == Span(s.iova, s.len);
      }
    }
  }

  /** The first segment when nothing follows. */
  lemma FirstAlone(g: Geometry, s: Segment)
    requires g.Valid()
    ensures |FirstEntries(g, s)| + 1 == PrpCount(g, s.iova, s.len)
    ensures ReadBytes(g, [s.iova] + FirstEntries(g, s), s.len) == Span(s.iova, s.len)
  {
    var k := FirstChunk(g, s);
    var next := s.iova - s.iova % g.page + g.page;
    var es := FirstEntries(g, s);
    PagesLength(g, next, Ceil(g, s.len - k));
    assert ([s.iova] + es)[1..] == es;
    ReadRun(g, next, s.len - k);
    if k < s.len { SpanConcat(s.iova, k, s.len - k); } else { assert Span(s.iova, k) + [] == Span(s.iova, k); }
  }

  /** The first segment when it ends on a page boundary: what is left after the first chunk. */
  lemma FirstLeft(g: Geometry, s: Segment) returns (next: nat, k: nat)
    requires g.Valid() && s.len > 0 && (s.iova + s.len) % g.page == 0
    ensures FirstChunk(g, s) == g.page - s.iova % g.page && next == s.iova + FirstChunk(g, s)
    ensures s.len == FirstChunk(g, s) + Size(g, k) && FirstEntries(g, s) == Pages(g, next, k) && |FirstEntries(g, s)| == k
  {
    EndsOnBoundary(g, s);
    next := s.iova + FirstChunk(g, s);
    var x;
    k, x := Split(g, s.len - FirstChunk(g, s));
    PagesLength(g, next, k);
  }

  lemma FirstCount(g: Geometry, s: Segment, more: nat)
    requires g.Valid() && s.len > 0 && (s.iova + s.len) % g.page == 0
    ensures |FirstEntries(g, s)| + 1 + Ceil(g, more) == PrpCount(g, s.iova, s.len + more)
  {
    var next, k := FirstLeft(g, s);
    CeilMultiple(g, k, more);
  }

  /** The first segment when it ends on a page boundary and more follows. */
  lemma FirstThenMore(g: Geometry, s: Segment, rest: seq<nat>, more: nat)
    requires g.Valid() && s.len > 0 && (s.iova + s.len) % g.page == 0
    ensures ReadBytes(g, [s.iova] + (FirstEntries(g, s) + rest), s.len + more) == Span(s.iova, s.len) + ReadPages(g, rest, more)
  {
    var next, k := FirstLeft(g, s);
    var first, es := FirstChunk(g, s), FirstEntries(g, s);
    assert ([s.iova] + (es + rest))[1..] == es + rest;
    assert Min(s.len + more, first) == first;
    ReadWhole(g, next, k, rest, more);
    SpanTriple(s.iova, first, Size(g, k), ReadPages(g, rest, more));
  }

  lemma SpanTriple(a: nat, m: nat, n: nat, rest: seq<nat>)
    ensures Span(a, m) + (Span(a + m, n) + rest) == Span(a, m + n) + rest
  {
    SpanConcat(a, m, n);
    AddressesAssociate(Span(a, m), Span(a + m, n), rest);
  }

  lemma EndsOnBoundary(g: Geometry, s: Segment)
    requires g.Valid() && s.len > 0 && (s.iova + s.len) % g.page == 0
    ensures s.len >= g.page - s.iova % g.page && (s.len - (g.page - s.iova % g.page)) % g.page == 0
  {
    var off, q, e := s.iova % g.page, s.iova / g.page, (s.iova + s.len) / g.page;
    assert s.iova == g.page * q + off && s.iova + s.len == g.page * e;
    assert s.len == g.page * (e - q) - off;
    if e - q < 1 { ProductAtLeast(g.page, 1 - (e - q)); }
    ModUnique(s.len - (g.page - off), g.page, e - q - 1, 0);
  }

  /** prp1 and the list entries. */
  function AllEntries(g: Geometry, iov: seq<Segment>): (prps: seq<nat>)
    requires g.Valid() && iov != []
  {
    [iov[0].iova] + ListEntries(g, iov)
  }

  /** Vectors that meet the contract are described by their entries. */
  lemma ContractDescribes(g: Geometry, iov: seq<Segment>)
    requires g.Valid() && Contract(g, iov)
    ensures Describes(g, AllEntries(g, iov), iov)
  {
    var s, tail := iov[0], iov[1..];
    TailReads(g, tail);
    if tail == [] {
      FirstAlone(g, s);
      assert ListEntries(g, iov) == FirstEntries(g, s);
      assert Bytes(iov) == Span(s.iova, s.len) && Total(iov) == s.len;
    } else {
      FirstCount(g, s, Total(tail));
      FirstThenMore(g, s, AppendEntries(g, tail), Total(tail));
    }
  }

  // ----- what the checks in the code admit

  ghost predicate TailAccepted(g: Geometry, iov: seq<Segment>)
    requires g.Valid()
  {
    iov == [] ||
    (iov[0].iova % g.page == 0 && (|iov| == 1 || iov[0].len % g.page == 0) && TailAccepted(g, iov[1..]))
  }

  ghost predicate Accepted(g: Geometry, iov: seq<Segment>)
    requires g.Valid() && iov != []
  {
    FirstAccepted(g, iov) && TailAccepted(g, iov[1..])
  }

  ghost predicate FirstAccepted(g: Geometry, iov: seq<Segment>)
    requires g.Valid() && iov != []
  {
    PrpCount(g, iov[0].iova, iov[0].len) == 1 || |iov| == 1 || (iov[0].iova + iov[0].len) % g.page == 0
  }

  lemma {:induction false} TailOkAccepted(g: Geometry, iov: seq<Segment>)
    requires g.Valid() && TailOk(g, iov)
    ensures TailAccepted(g, iov)
  {
    if iov != [] { TailOkAccepted(g, iov[1..]); }
  }

  /** The documented contract passes the checks. */
  lemma ContractAccepted(g: Geometry, iov: seq<Segment>)
    requires g.Valid() && Contract(g, iov)
    ensures Accepted(g, iov)
  {
    TailOkAccepted(g, iov[1..]);
  }

  // ----- which of them their entries describe

  function Empties(iov: seq<Segment>): (n: nat) {
    if iov == [] then 0 else Empties(iov[1..]) + if iov[0].len == 0 then 1 else 0
  }

  /** The last segment is more than a page and not whole pages. */
  ghost predicate Short(g: Geometry, iov: seq<Segment>)
    requires g.Valid()
  {
    iov != [] && if |iov| == 1 then iov[0].len > g.page && iov[0].len % g.page != 0 else Short(g, iov[1..])
  }

  lemma WholeCount(g: Geometry, len: nat, more: nat)
    requires g.Valid() && len % g.page == 0
    ensures AppendCount(g, len) + Ceil(g, more) == Ceil(g, len + more) + if len == 0 then 1 else 0
  {
    if len == 0 {
      ModUnique(0, g.page, 0, 0);
    } else {
      var k, x := Split(g, len);
      assert k >= 1;
      CeilMultiple(g, k, more);
    }
  }

  lemma LastCount(g: Geometry, len: nat)
    requires g.Valid() && len % g.page != 0
    ensures AppendCount(g, len) + (if len > g.page then 1 else 0) == Ceil(g, len)
  {
    var k, x := Split(g, len);
    if len < g.page {
      ModUnique(len, g.page, 0, len);
    } else {
      assert len != g.page by { ModUnique(g.page, g.page, 1, 0); }
      assert k >= 1 by { assert k == 0 ==> Size(g, k) == 0; }
    }
  }

  /** An empty segment gets an entry it has no bytes for, and a short last one is short of one. */
  lemma {:induction false} TailCount(g: Geometry, iov: seq<Segment>)
    requires g.Valid() && TailAccepted(g, iov)
    ensures |AppendEntries(g, iov)| + (if Short(g, iov) then 1 else 0) == Ceil(g, Total(iov)) + Empties(iov)
    ensures TailOk(g, iov) <==> Empties(iov) == 0 && !Short(g, iov)
  {
    if iov == [] {
      CeilSmall(g, 0);
    } else {
      var s, rest := iov[0], iov[1..];
      PagesLength(g, s.iova, AppendCount(g, s.len));
      TailCount(g, rest);
      if s.len % g.page == 0 {
        WholeCount(g, s.len, Total(rest));
      } else {
        LastCount(g, s.len);
        assert s.len > 0 by { ModUnique(0, g.page, 0, 0); }
        assert rest == [] && Total(iov) == s.len && Empties(iov) == 0;
      }
    }
  }

  /** The last byte of `k` pages and `x` bytes comes from the last entry. */
  lemma {:induction false} LastRead(g: Geometry, es: seq<nat>, k: nat, x: nat)
    requires g.Valid() && |es| == k + 1 && 0 < x <= g.page
    ensures |ReadPages(g, es, Size(g, k) + x)| == Size(g, k) + x
    ensures ReadPages(g, es, Size(g, k) + x)[Size(g, k) + x - 1] == es[k] + x - 1
    decreases k
  {
    if k == 0 {
      assert es == [es[0]];
      ReadPart(g, es[0], x);
      SpanAt(es[0], x, x - 1);
    } else {
      LastRead(g, es[1..], k - 1, x);
      LastStep(g, es, es[1..], Size(g, k - 1) + x, Size(g, k) + x, es[k] + x - 1);
    }
  }

  lemma LastStep(g: Geometry, es: seq<nat>, rest: seq<nat>, n: nat, len: nat, last: nat)
    requires g.Valid() && es != [] && rest == es[1..] && len == g.page + n && n > 0
    requires |ReadPages(g, rest, n)| == n && ReadPages(g, rest, n)[n-1] == last
    ensures |ReadPages(g, es, len)| == len && ReadPages(g, es, len)[len-1] == last
  {
    assert es == [es[0]] + rest;
    ReadOne(g, es[0], rest, n);
    LastOf(Span(es[0], g.page), ReadPages(g, rest, n), ReadPages(g, es, len));
  }

  lemma LastOf(a: seq<nat>, b: seq<nat>, c: seq<nat>)
    requires c == a + b && b != []
    ensures |c| == |a| + |b| && c[|c|-1] == b[|b|-1]
  {
  }

  lemma {:induction false} SizeAdd(g: Geometry, j: nat, k: nat)
    ensures Size(g, j + k) == Size(g, j) + Size(g, k)
    decreases j
  {
    if j > 0 { SizeAdd(g, j - 1, k); }
  }

  /** The last byte of a short vector is a page past what the last entry stands for. */
  lemma {:induction false} ShortLast(g: Geometry, iov: seq<Segment>) returns (k: nat, x: nat)
    requires g.Valid() && TailAccepted(g, iov) && Short(g, iov)
    ensures Total(iov) == Size(g, k) + x && 0 < x < g.page && AppendEntries(g, iov) != []
    ensures Bytes(iov)[Total(iov)-1] == AppendEntries(g, iov)[|AppendEntries(g, iov)|-1] + g.page + x - 1
  {
    var s, rest := iov[0], iov[1..];
    if rest == [] {
      k, x := ShortSegment(g, s);
      assert AppendEntries(g, iov) == Pages(g, s.iova, k) && Bytes(iov) == Span(s.iova, s.len);
    } else {
      var j, y := Split(g, s.len);
      k, x := ShortLast(g, rest);
      SizeAdd(g, j, k);
      k := j + k;
    }
  }

  lemma ShortSegment(g: Geometry, s: Segment) returns (k: nat, x: nat)
    requires g.Valid() && s.len > g.page && s.len % g.page != 0
    ensures s.len == Size(g, k) + x && 0 < x < g.page && k >= 1 && AppendCount(g, s.len) == k == |Pages(g, s.iova, k)|
    ensures Span(s.iova, s.len)[s.len-1] == Pages(g, s.iova, k)[k-1] + g.page + x - 1
  {
    k, x := Split(g, s.len);
    assert k >= 1 by { assert k == 0 ==> Size(g, k) == 0; }
    PagesAt(g, s.iova, k, k - 1);
    SpanAt(s.iova, s.len, s.len - 1);
  }

  /** Even if some other entry makes up the number, the bytes read are not those of a short vector. */
  lemma ShortDiffers(g: Geometry, iov: seq<Segment>, before: seq<nat>)
    requires g.Valid() && TailAccepted(g, iov) && Short(g, iov)
    requires |before + AppendEntries(g, iov)| == Ceil(g, Total(iov))
    ensures ReadPages(g, before + AppendEntries(g, iov), Total(iov)) != Bytes(iov)
  {
    var k, x := ShortLast(g, iov);
    CeilMultiple(g, k, x);
    CeilSmall(g, x);
    LastRead(g, before + AppendEntries(g, iov), k, x);
  }

  /** The first segment ends on a page boundary. */
  lemma BoundaryFirst(g: Geometry, iov: seq<Segment>)
    requires g.Valid() && |iov| > 1 && Accepted(g, iov) && !TailOk(g, iov[1..])
    requires iov[0].len > 0 && (iov[0].iova + iov[0].len) % g.page == 0
    ensures !Describes(g, AllEntries(g, iov), iov)
  {
    var s, tail := iov[0], iov[1..];
    var es := AppendEntries(g, tail);
    assert |AllEntries(g, iov)| == PrpCount(g, s.iova, Total(iov)) ==> |es| == Ceil(g, Total(tail)) by {
      FirstCount(g, s, Total(tail));
    }
    if |es| == Ceil(g, Total(tail)) {
      TailCount(g, tail);
      assert [] + es == es;
      ShortDiffers(g, tail, []);
      FirstThenMore(g, s, es, Total(tail));
      SameFront(Span(s.iova, s.len), ReadPages(g, es, Total(tail)), Bytes(tail));
    }
  }

  lemma SameFront(a: seq<nat>, b: seq<nat>, c: seq<nat>)
    requires b != c
    ensures a + b != a + c
  {
    assert b == (a + b)[|a|..] && c == (a + c)[|a|..];
  }

  lemma ReadAligned(g: Geometry, prps: seq<nat>, len: nat)
    requires g.Valid() && prps != [] && prps[0] % g.page == 0
    ensures ReadBytes(g, prps, len) == ReadPages(g, prps, len)
  {
    var k := Min(len, g.page);
    assert ReadBytes(g, prps, len) == Span(prps[0], k) + ReadPages(g, prps[1..], len - k);
    if len == 0 { assert ReadPages(g, prps[1..], 0) == []; }
  }

  lemma AlignedCount(g: Geometry, a: nat, len: nat)
    requires g.Valid() && a % g.page == 0 && len > 0
    ensures PrpCount(g, a, len) == Ceil(g, len)
  {
    if len <= g.page {
      CeilSmall(g, len);
      CeilSmall(g, 0);
    } else {
      CeilMultiple(g, 1, len - g.page);
    }
  }

  /** The first segment is empty, at a page boundary, and yet PRP1 points there. */
  lemma EmptyFirst(g: Geometry, iov: seq<Segment>)
    requires g.Valid() && |iov| > 1 && Accepted(g, iov) && iov[0].len == 0 && iov[0].iova % g.page == 0
    ensures !Describes(g, AllEntries(g, iov), iov)
  {
    var s, tail := iov[0], iov[1..];
    var es := AppendEntries(g, tail);
    TailCount(g, tail);
    assert FirstEntries(g, s) == [] by { CeilSmall(g, 0); }
    assert AllEntries(g, iov) == [s.iova] + es && Bytes(iov) == Bytes(tail);
    CeilSmall(g, 0);
    if Total(tail) > 0 {
      AlignedCount(g, s.iova, Total(tail));
      if 1 + |es| == Ceil(g, Total(tail)) {
        ShortDiffers(g, tail, [s.iova]);
        ReadAligned(g, [s.iova] + es, Total(tail));
      }
    } else {
      AllEmpty(g, tail);
    }
  }

  lemma {:induction false} AllEmpty(g: Geometry, iov: seq<Segment>)
    requires g.Valid() && Total(iov) == 0
    ensures Empties(iov) == |iov| && !Short(g, iov)
  {
    if iov != [] { AllEmpty(g, iov[1..]); }
  }

  /** The first byte of the later segments, if they have any, is the start of a page. */
  lemma {:induction false} TailStarts(g: Geometry, iov: seq<Segment>)
    requires g.Valid() && TailAccepted(g, iov) && Total(iov) > 0
    ensures Bytes(iov)[0] % g.page == 0
  {
    if iov[0].len > 0 { SpanAt(iov[0].iova, iov[0].len, 0); } else { TailStarts(g, iov[1..]); }
  }

  /** A first segment that ends inside a page: the byte after it is read from the same page, whatever the other entries. */
  lemma FirstRunsOn(g: Geometry, iov: seq<Segment>, prps: seq<nat>)
    requires g.Valid() && |iov| > 1 && Accepted(g, iov) && (iov[0].iova + iov[0].len) % g.page != 0
    requires Total(iov[1..]) > 0 && prps != [] && prps[0] == iov[0].iova
    ensures ReadBytes(g, prps, Total(iov)) != Bytes(iov)
  {
    OnePrpFits(g, iov[0]);
    TailStarts(g, iov[1..]);
    RunsOn(g, iov[0], Bytes(iov[1..]), prps);
  }

  lemma RunsOn(g: Geometry, s: Segment, tail: seq<nat>, prps: seq<nat>)
    requires g.Valid() && s.len < g.page - s.iova % g.page && (s.iova + s.len) % g.page != 0
    requires tail != [] && tail[0] % g.page == 0 && prps != [] && prps[0] == s.iova
    ensures ReadBytes(g, prps, s.len + |tail|) != Span(s.iova, s.len) + tail
  {
    ReadsOn(g, prps, s.len + |tail|, s.len);
    OtherByte(Span(s.iova, s.len), tail, Span(s.iova, s.len) + tail, ReadBytes(g, prps, s.len + |tail|), s.iova + s.len, g.page);
  }

  lemma OtherByte(front: seq<nat>, tail: seq<nat>, all: seq<nat>, read: seq<nat>, next: nat, page: nat)
    requires all == front + tail && tail != [] && page > 0 && tail[0] % page == 0 && next % page != 0
    requires |front| < |read| && read[|front|] == next
    ensures read != all
  {
  }

  lemma InsideFirst(g: Geometry, iov: seq<Segment>)
    requires g.Valid() && |iov| > 1 && Accepted(g, iov) && (iov[0].iova + iov[0].len) % g.page != 0
    ensures !Describes(g, AllEntries(g, iov), iov)
  {
    if Total(iov[1..]) > 0 {
      FirstRunsOn(g, iov, AllEntries(g, iov));
    } else {
      TailCount(g, iov[1..]);
      AllEmpty(g, iov[1..]);
      CeilSmall(g, 0);
    }
  }

  lemma ReadsOn(g: Geometry, prps: seq<nat>, len: nat, i: nat)
    requires g.Valid() && prps != [] && i < Min(len, g.page - prps[0] % g.page)
    ensures i < |ReadBytes(g, prps, len)| && ReadBytes(g, prps, len)[i] == prps[0] + i
  {
    SpanAt(prps[0], Min(len, g.page - prps[0] % g.page), i);
  }

  lemma OnePrpFits(g: Geometry, s: Segment)
    requires g.Valid() && PrpCount(g, s.iova, s.len) == 1 && (s.iova + s.len) % g.page != 0
    ensures s.len < g.page - s.iova % g.page
  {
    var off := s.iova % g.page;
    if s.len >= g.page - off {
      var k, x := Split(g, s.len - (g.page - off));
      ModUnique(s.iova + (g.page - off), g.page, s.iova / g.page + 1, 0);
    }
  }

  /**
    What the code accepts is described by its entries exactly when the contract holds. The check of the
    first segment lets through one that ends inside a page or is empty, the last segment is rounded
    down, and every empty segment after the first gets an entry.
   */
  lemma AcceptedDescribesIff(g: Geometry, iov: seq<Segment>)
    requires g.Valid() && iov != [] && Accepted(g, iov)
    ensures Describes(g, AllEntries(g, iov), iov) <==> Contract(g, iov)
  {
    if Contract(g, iov) {
      ContractDescribes(g, iov);
    } else if (iov[0].iova + iov[0].len) % g.page != 0 {
      InsideFirst(g, iov);
    } else if iov[0].len > 0 {
      BoundaryFirst(g, iov);
    } else {
      EmptyFirst(g, iov);
    }
  }

  /** What is read of as many pages as the length takes determines which ones they are. */
  lemma {:induction false} PagesDetermined(g: Geometry, es: seq<nat>, fs: seq<nat>, len: nat)
    requires g.Valid() && |es| == |fs| == Ceil(g, len) && ReadPages(g, es, len) == ReadPages(g, fs, len)
    ensures es == fs
    decreases len
  {
    if len > 0 {
      CeilStep(g, len);
      var k := Min(len, g.page);
      SpanAt(es[0], k, 0);
      SpanAt(fs[0], k, 0);
      SameParts(Span(es[0], k), ReadPages(g, es[1..], len - k), Span(fs[0], k), ReadPages(g, fs[1..], len - k));
      PagesDetermined(g, es[1..], fs[1..], len - k);
      assert es == [es[0]] + es[1..] && fs == [fs[0]] + fs[1..];
    }
  }

  lemma CeilStep(g: Geometry, len: nat)
    requires g.Valid() && len > 0
    ensures Ceil(g, len) == 1 + Ceil(g, len - Min(len, g.page))
  {
    CeilSmall(g, 0);
  }

  lemma SameParts(a: seq<nat>, b: seq<nat>, c: seq<nat>, d: seq<nat>)
    requires |a| == |c| && a + b == c + d
    ensures a == c && b == d
  {
    assert a == (a + b)[..|a|] && b == (a + b)[|a|..] && c == (c + d)[..|c|] && d == (c + d)[|c|..];
  }

  // ----- every list entry is a page address

  ghost predicate AllAligned(g: Geometry, es: seq<nat>)
    requires g.Valid()
  {
    forall i | 0 <= i < |es| :: es[i] % g.page == 0
  }

  lemma {:induction false} PagesAligned(g: Geometry, a: nat, n: nat)
    requires g.Valid() && a % g.page == 0
    ensures AllAligned(g, Pages(g, a, n))
    decreases n
  {
    if n > 0 {
      NextPage(g, a);
      PagesAligned(g, a + g.page, n - 1);
    }
  }

  lemma {:induction false} AppendAligned(g: Geometry, iov: seq<Segment>)
    requires g.Valid() && TailAccepted(g, iov)
    ensures AllAligned(g, AppendEntries(g, iov))
  {
    if iov != [] {
      PagesAligned(g, iov[0].iova, AppendCount(g, iov[0].len));
      AppendAligned(g, iov[1..]);
    }
  }

  lemma ListAligned(g: Geometry, iov: seq<Segment>)
    requires g.Valid() && iov != [] && Accepted(g, iov)
    ensures AllAligned(g, ListEntries(g, iov))
  {
    var s := iov[0];
    ModUnique(s.iova - s.iova % g.page + g.page, g.page, s.iova / g.page + 1, 0);
    PagesAligned(g, s.iova - s.iova % g.page + g.page, Ceil(g, s.len - FirstChunk(g, s)));
    AppendAligned(g, iov[1..]);
  }

  // ----- splitting a contiguous buffer

  ghost predicate Contiguous(iov: seq<Segment>) {
    |iov| <= 1 || (iov[1].iova == iov[0].iova + iov[0].len && Contiguous(iov[1..]))
  }

  lemma {:induction false} ContiguousTail(g: Geometry, iov: seq<Segment>)
    requires g.Valid() && iov != [] && TailOk(g, iov) && Contiguous(iov)
    ensures AppendEntries(g, iov) == Pages(g, iov[0].iova, Ceil(g, Total(iov)))
  {
    var s, rest := iov[0], iov[1..];
    if s.len % g.page == 0 {
      var k, _ := Split(g, s.len);
      assert k >= 1 && AppendCount(g, s.len) == k;
      CeilMultiple(g, k, Total(rest));
      if rest == [] {
        CeilSmall(g, 0);
        assert Pages(g, s.iova, k) + [] == Pages(g, s.iova, k);
      } else {
        assert rest[0].iova == s.iova + s.len;
        ContiguousTail(g, rest);
        PagesConcat(g, s.iova, k, Ceil(g, Total(rest)));
      }
    } else {
      assert s.len < g.page by { ModUnique(g.page, g.page, 1, 0); }
      PartSegment(g, s);
      assert AppendEntries(g, iov) == Pages(g, s.iova, 1) && Total(iov) == s.len;
    }
  }

  /** However a contiguous buffer is split at page boundaries, the entries are those of the whole. */
  lemma SplitSameEntries(g: Geometry, iov: seq<Segment>)
    requires g.Valid() && Contract(g, iov) && Contiguous(iov)
    ensures ListEntries(g, iov) == FirstEntries(g, Segment(iov[0].iova, Total(iov)))
  {
    var s, tail := iov[0], iov[1..];
    if tail == [] {
      assert iov == [s] && s == Segment(s.iova, Total(iov));
      OneSegment(g, s);
    } else {
      TailEntries(g, s, tail);
      FirstAndRest(g, s, AppendEntries(g, tail), Total(tail), Total(iov));
    }
  }

  lemma TailEntries(g: Geometry, s: Segment, tail: seq<Segment>)
    requires g.Valid() && TailOk(g, tail) && tail != [] && Contiguous(tail) && tail[0].iova == s.iova + s.len
    ensures AppendEntries(g, tail) == Pages(g, s.iova + s.len, Ceil(g, Total(tail)))
  {
    ContiguousTail(g, tail);
  }

  lemma FirstAndRest(g: Geometry, s: Segment, es: seq<nat>, more: nat, total: nat)
    requires g.Valid() && s.len > 0 && (s.iova + s.len) % g.page == 0
    requires es == Pages(g, s.iova + s.len, Ceil(g, more)) && total == s.len + more
    ensures FirstEntries(g, s) + es == FirstEntries(g, Segment(s.iova, total))
  {
    FirstExtended(g, s, more);
  }

  lemma OneSegment(g: Geometry, s: Segment)
    requires g.Valid()
    ensures ListEntries(g, [s]) == FirstEntries(g, s)
  {
    assert AppendEntries(g, [s][1..]) == [];
  }

  lemma FirstExtended(g: Geometry, s: Segment, more: nat)
    requires g.Valid() && s.len > 0 && (s.iova + s.len) % g.page == 0
    ensures FirstEntries(g, Segment(s.iova, s.len + more)) == FirstEntries(g, s) + Pages(g, s.iova + s.len, Ceil(g, more))
  {
    var next, k := FirstLeft(g, s);
    CeilMultiple(g, k, more);
    PagesConcat(g, next, k, Ceil(g, more));
    assert FirstChunk(g, Segment(s.iova, s.len + more)) == FirstChunk(g, s);
  }

  // ----- prefixes, for the loops that build the list

  lemma {:induction false} PagesAt(g: Geometry, a: nat, n: nat, i: nat)
    requires i < n
    ensures |Pages(g, a, n)| == n && Pages(g, a, n)[i] == a + Size(g, i)
    decreases n
  {
    PagesLength(g, a, n);
    if i > 0 { PagesAt(g, a + g.page, n - 1, i - 1); }
  }

  lemma {:induction false} AppendConcat(g: Geometry, a: seq<Segment>, b: seq<Segment>)
    requires g.Valid()
    ensures AppendEntries(g, a + b) == AppendEntries(g, a) + AppendEntries(g, b)
  {
    if a == [] {
      assert a + b == b;
    } else {
      assert (a + b)[1..] == a[1..] + b;
      AppendConcat(g, a[1..], b);
    }
  }

  predicate SegmentAccepted(g: Geometry, iov: seq<Segment>, i: nat)
    requires g.Valid() && i < |iov|
  {
    iov[i].iova % g.page == 0 && (i < |iov| - 1 ==> iov[i].len % g.page == 0)
  }

  lemma {:induction false} TailAcceptedIff(g: Geometry, iov: seq<Segment>, from: nat)
    requires g.Valid() && from <= |iov|
    ensures TailAccepted(g, iov[from..]) <==> forall i | from <= i < |iov| :: SegmentAccepted(g, iov, i)
    decreases |iov| - from
  {
    if from < |iov| {
      TailAcceptedIff(g, iov, from + 1);
      assert iov[from..][1..] == iov[from+1..] && iov[from..][0] == iov[from];
      assert TailAccepted(g, iov[from..]) <==> SegmentAccepted(g, iov, from) && TailAccepted(g, iov[from+1..]);
    }
  }
}
