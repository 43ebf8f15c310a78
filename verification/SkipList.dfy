/**
  The multi-level skiplist of src/util/skiplist.c.

  Every level is a ring of nodes through a list head, with the sentinel as its first
  node. Nodes are addresses, and the two links of a node on a level are kept in maps,
  one pair of maps per level, which the list operations rewrite. Which payload a node
  carries, and how payloads compare with a key, is up to the user of the list, as in
  the original.
 */
module SkipLists {
  import opened Common

  // SKIPLIST_LEVELS
  const LEVELS: nat := 8

  // A node's address. HEAD stands for the list head of a level, which is no node.
  type Ref = nat
  const HEAD: Ref := 0
  const SENTINEL: Ref := 1

  // ----- sequences of nodes, independent of the heap

  /** The members of `s` whose top level is at least `k`, in order. */
  ghost function OnLevel<T>(s: seq<T>, tops: seq<nat>, k: nat): (r: seq<T>)
    requires |s| == |tops|
    ensures |r| <= |s|
  {
    if s == [] then []
    else (if tops[0] >= k then [s[0]] else []) + OnLevel(s[1..], tops[1..], k)
  }

  lemma {:induction false} OnLevelConcat<T>(s: seq<T>, t: seq<T>, sTops: seq<nat>, tTops: seq<nat>, k: nat)
    requires |s| == |sTops| && |t| == |tTops|
    ensures OnLevel(s + t, sTops + tTops, k) == OnLevel(s, sTops, k) + OnLevel(t, tTops, k)
  {
    if s == [] {
      assert s + t == t && sTops + tTops == tTops;
    } else {
      assert (s + t)[1..] == s[1..] + t && (sTops + tTops)[1..] == sTops[1..] + tTops;
      OnLevelConcat(s[1..], t, sTops[1..], tTops, k);
      var h := if sTops[0] >= k then [s[0]] else [];
      assert h + (OnLevel(s[1..], sTops[1..], k) + OnLevel(t, tTops, k)) == h + OnLevel(s[1..], sTops[1..], k) + OnLevel(t, tTops, k);
    }
  }

  /** Splits a level around the member at index `i`. */
  lemma OnLevelSplit<T>(s: seq<T>, tops: seq<nat>, k: nat, i: nat)
    requires |s| == |tops| && i < |s|
    ensures OnLevel(s, tops, k)
         == OnLevel(s[..i], tops[..i], k) + (if tops[i] >= k then [s[i]] else []) + OnLevel(s[i+1..], tops[i+1..], k)
  {
    OnLevelConcat(s[..i], s[i..], tops[..i], tops[i..], k);
    assert s[..i] + s[i..] == s && tops[..i] + tops[i..] == tops;
    assert s[i..][1..] == s[i+1..] && tops[i..][1..] == tops[i+1..];
  }

  lemma {:induction false} OnLevelMembers<T>(s: seq<T>, tops: seq<nat>, k: nat)
    requires |s| == |tops|
    ensures forall x | x in OnLevel(s, tops, k) :: x in s
    ensures Distinct(s) ==> Distinct(OnLevel(s, tops, k))
  {
    if s != [] {
      OnLevelMembers(s[1..], tops[1..], k);
      if Distinct(s) {
        assert Distinct(s[1..]);
        assert s[0] !in s[1..];
      }
    }
  }

  /** A stretch without members of level `k` contributes nothing to it. */
  lemma {:induction false} OnLevelEmpty<T>(s: seq<T>, tops: seq<nat>, k: nat)
    requires |s| == |tops|
    ensures (forall i | 0 <= i < |s| :: tops[i] < k) <==> OnLevel(s, tops, k) == []
  {
    if s != [] {
      OnLevelEmpty(s[1..], tops[1..], k);
    }
  }

  lemma {:induction false} OnLevelZero<T>(s: seq<T>, tops: seq<nat>)
    requires |s| == |tops|
    ensures OnLevel(s, tops, 0) == s
  {
    if s != [] {
      OnLevelZero(s[1..], tops[1..]);
    }
  }

  /** The last member of level `k` before index `q`, when it sits at index `i`. */
  lemma LastOnLevel<T>(s: seq<T>, tops: seq<nat>, k: nat, q: nat, i: nat)
    requires |s| == |tops| && i < q <= |s| && tops[i] >= k
    requires forall x | i < x < q :: tops[x] < k
    ensures OnLevel(s[..q], tops[..q], k) == OnLevel(s[..i], tops[..i], k) + [s[i]]
  {
    OnLevelSplit(s[..q], tops[..q], k, i);
    assert s[..q][..i] == s[..i] && tops[..q][..i] == tops[..i];
    OnLevelEmpty(s[..q][i+1..], tops[..q][i+1..], k);
  }

  /** The first member of level `k` at or after index `from`. */
  lemma {:induction false} FirstOnLevel<T>(s: seq<T>, tops: seq<nat>, k: nat, from: nat) returns (j: nat)
    requires |s| == |tops| && from <= |s|
    ensures from <= j <= |s|
    ensures forall x | from <= x < j :: tops[x] < k
    ensures j < |s| ==> tops[j] >= k && OnLevel(s[from..], tops[from..], k) != [] && OnLevel(s[from..], tops[from..], k)[0] == s[j]
    ensures j == |s| ==> OnLevel(s[from..], tops[from..], k) == []
    decreases |s| - from
  {
    if from == |s| || tops[from] >= k {
      j := from;
    } else {
      j := FirstOnLevel(s, tops, k, from + 1);
      assert s[from..][1..] == s[from+1..] && tops[from..][1..] == tops[from+1..];
    }
  }

  /** `p` is the last member of level `k` before index `q`. */
  ghost predicate IsPred<T>(s: seq<T>, tops: seq<nat>, p: T, k: nat, q: nat)
    requires |s| == |tops| && q <= |s|
  {
    exists i :: 0 <= i < q && s[i] == p && tops[i] >= k && forall x | i < x < q :: tops[x] < k
  }

  // ----- one level: a circular doubly linked list

  datatype Links = Links(next: map<Ref, Ref>, prev: map<Ref, Ref>)

  ghost function At(s: seq<Ref>, i: int): (n: Ref) {
    if 0 <= i < |s| then s[i] else HEAD
  }

  ghost predicate Joined(l: Links, a: Ref, b: Ref) {
    a in l.next && l.next[a] == b && b in l.prev && l.prev[b] == a
  }

  /** `l` is a ring through the list head whose other members are `s`, in order. */
  ghost predicate Ring(l: Links, s: seq<Ref>) {
    && Distinct(s) && HEAD !in s
    && forall i | 0 <= i <= |s| :: Joined(l, At(s, i - 1), At(s, i))
  }

  lemma RingNext(l: Links, s: seq<Ref>, x: int)
    requires Ring(l, s) && -1 <= x < |s|
    ensures At(s, x) in l.next && l.next[At(s, x)] == At(s, x + 1)
  {
    assert Joined(l, At(s, x + 1 - 1), At(s, x + 1));
  }

  function Join(l: Links, a: Ref, b: Ref): (r: Links) {
    Links(l.next[a := b], l.prev[b := a])
  }

  /** list_add_after */
  function AddAfter(l: Links, p: Ref, n: Ref): (r: Links)
    requires p in l.next
  {
    Join(Join(l, n, l.next[p]), p, n)
  }

  /** list_del_from */
  function DelFrom(l: Links, n: Ref): (r: Links)
    requires n in l.next && n in l.prev
  {
    Join(l, l.prev[n], l.next[n])
  }

  lemma AddAfterRing(l: Links, s: seq<Ref>, x: nat, n: Ref)
    requires Ring(l, s) && x < |s| && n !in s && n != HEAD
    ensures s[x] in l.next
    ensures Ring(AddAfter(l, s[x], n), s[..x+1] + [n] + s[x+1..])
  {
    assert Joined(l, At(s, x), At(s, x + 1));
    var t, m := s[..x+1] + [n] + s[x+1..], AddAfter(l, s[x], n);
    forall i | 0 <= i <= |t| ensures Joined(m, At(t, i - 1), At(t, i)) {
      if i <= x {
        assert Joined(l, At(s, i - 1), At(s, i));
      } else if i > x + 2 {
        assert Joined(l, At(s, i - 2), At(s, i - 1));
      }
    }
  }

  lemma DelFromRing(l: Links, s: seq<Ref>, x: nat)
    requires Ring(l, s) && x < |s|
    ensures s[x] in l.next && s[x] in l.prev
    ensures Ring(DelFrom(l, s[x]), s[..x] + s[x+1..])
  {
    assert Joined(l, At(s, x - 1), At(s, x)) && Joined(l, At(s, x), At(s, x + 1));
    var t, m := s[..x] + s[x+1..], DelFrom(l, s[x]);
    forall i | 0 <= i <= |t| ensures Joined(m, At(t, i - 1), At(t, i)) {
      if i < x {
        assert Joined(l, At(s, i - 1), At(s, i));
      } else if i > x {
        assert Joined(l, At(s, i), At(s, i + 1));
      }
    }
  }

  function Inserted<T>(s: seq<T>, q: nat, x: T): (r: seq<T>)
    requires q <= |s|
  {
    s[..q] + [x] + s[q..]
  }

  function Removed<T>(s: seq<T>, q: nat): (r: seq<T>)
    requires q < |s|
  {
    s[..q] + s[q+1..]
  }

  lemma OnLevelInserted<T>(s: seq<T>, tops: seq<nat>, q: nat, x: T, top: nat, k: nat)
    requires |s| == |tops| && q <= |s|
    ensures OnLevel(Inserted(s, q, x), Inserted(tops, q, top), k)
         == OnLevel(s[..q], tops[..q], k) + (if top >= k then [x] else []) + OnLevel(s[q..], tops[q..], k)
    ensures OnLevel(s, tops, k) == OnLevel(s[..q], tops[..q], k) + OnLevel(s[q..], tops[q..], k)
  {
    OnLevelConcat(s[..q] + [x], s[q..], tops[..q] + [top], tops[q..], k);
    OnLevelConcat(s[..q], [x], tops[..q], [top], k);
    OnLevelConcat(s[..q], s[q..], tops[..q], tops[q..], k);
    assert s[..q] + s[q..] == s && tops[..q] + tops[q..] == tops;
  }

  /** Linking a node after its predecessor on level `k` gives that level of the longer list. */
  lemma LinkLevel(l: Links, s: seq<Ref>, tops: seq<nat>, p: Ref, n: Ref, top: nat, k: nat, q: nat)
    requires |s| == |tops| && q <= |s| && IsPred(s, tops, p, k, q) && k <= top
    requires Ring(l, OnLevel(s, tops, k)) && n !in s && n != HEAD
    ensures p in l.next && Ring(AddAfter(l, p, n), OnLevel(Inserted(s, q, n), Inserted(tops, q, top), k))
  {
    var i :| 0 <= i < q && s[i] == p && tops[i] >= k && forall x | i < x < q :: tops[x] < k;
    LastOnLevel(s, tops, k, q, i);
    OnLevelInserted(s, tops, q, n, top, k);
    OnLevelMembers(s, tops, k);
    var level, x := OnLevel(s, tops, k), |OnLevel(s[..i], tops[..i], k)|;
    AddAfterRing(l, level, x, n);
    assert level[..x+1] == OnLevel(s[..q], tops[..q], k) && level[x+1..] == OnLevel(s[q..], tops[q..], k);
  }

  /** Every level is a ring of exactly the nodes that reach it. */
  ghost predicate Rings(links: seq<Links>, nodes: seq<Ref>, tops: seq<nat>) {
    |links| == LEVELS && |nodes| == |tops| && forall k | 0 <= k < LEVELS :: Ring(links[k], OnLevel(nodes, tops, k))
  }

  /** The loop of skiplist_link: from level `top` down, link `n` after its recorded predecessor. */
  method LinkLevels(links: seq<Links>, update: seq<Ref>, n: Ref, top: nat,
                    ghost nodes: seq<Ref>, ghost tops: seq<nat>, ghost q: nat)
    returns (r: seq<Links>)
    requires Rings(links, nodes, tops) && q <= |nodes| && top < LEVELS && |update| == LEVELS
    requires forall k | 0 <= k <= top :: IsPred(nodes, tops, update[k], k, q)
    requires n !in nodes && n != HEAD
    ensures Rings(r, Inserted(nodes, q, n), Inserted(tops, q, top))
  {
    r := links;
    ghost var nodes', tops' := Inserted(nodes, q, n), Inserted(tops, q, top);
    var k: int := top;
    while k >= 0
      invariant -1 <= k <= top && |r| == LEVELS
      invariant forall j | k < j <= top :: Ring(r[j], OnLevel(nodes', tops', j))
      invariant forall j | 0 <= j < LEVELS && !(k < j <= top) :: r[j] == links[j]
    {
      LinkLevel(r[k], nodes, tops, update[k], n, top, k, q);
      r := r[k := AddAfter(r[k], update[k], n)];
      k := k - 1;
    }
    forall j | top < j < LEVELS ensures OnLevel(nodes', tops', j) == OnLevel(nodes, tops, j) {
      OnLevelInserted(nodes, tops, q, n, top, j);
    }
  }

  /** The successor on a level is the first later node that reaches that level. */
  lemma NextOnLevel(links: seq<Links>, nodes: seq<Ref>, tops: seq<nat>, i: nat, k: nat) returns (j: nat)
    requires Rings(links, nodes, tops) && i < |nodes| && k <= tops[i] && k < LEVELS
    ensures i < j <= |nodes| && nodes[i] in links[k].next
    ensures forall x | i < x < j :: tops[x] < k
    ensures (j < |nodes| ==> tops[j] >= k) && (k == 0 ==> j == i + 1)
    ensures links[k].next[nodes[i]] == if j < |nodes| then nodes[j] else HEAD
  {
    j := FirstOnLevel(nodes, tops, k, i + 1);
    OnLevelSplit(nodes, tops, k, i);
    var s, x := OnLevel(nodes, tops, k), |OnLevel(nodes[..i], tops[..i], k)|;
    assert Ring(links[k], s) && s[x] == nodes[i];
    assert Joined(links[k], At(s, x), At(s, x + 1));
    assert k == 0 ==> j == |nodes| || !(tops[j-1] < k);
  }

  lemma OnLevelRemoved<T>(s: seq<T>, tops: seq<nat>, q: nat, k: nat)
    requires |s| == |tops| && q < |s|
    ensures OnLevel(Removed(s, q), Removed(tops, q), k) == OnLevel(s[..q], tops[..q], k) + OnLevel(s[q+1..], tops[q+1..], k)
  {
    OnLevelConcat(s[..q], s[q+1..], tops[..q], tops[q+1..], k);
  }

  lemma UnlinkLevel(l: Links, s: seq<Ref>, tops: seq<nat>, k: nat, q: nat)
    requires |s| == |tops| && q < |s| && k <= tops[q]
    requires Ring(l, OnLevel(s, tops, k))
    ensures s[q] in l.next && s[q] in l.prev && Ring(DelFrom(l, s[q]), OnLevel(Removed(s, q), Removed(tops, q), k))
  {
    OnLevelSplit(s, tops, k, q);
    OnLevelRemoved(s, tops, q, k);
    var level, x := OnLevel(s, tops, k), |OnLevel(s[..q], tops[..q], k)|;
    DelFromRing(l, level, x);
    assert level[..x] == OnLevel(s[..q], tops[..q], k) && level[x+1..] == OnLevel(s[q+1..], tops[q+1..], k);
  }

  /** The node after the recorded predecessor is `s[q]` exactly when `s[q]` reaches the level. */
  lemma NextOfPred(links: seq<Links>, nodes: seq<Ref>, tops: seq<nat>, p: Ref, k: nat, q: nat)
    requires Rings(links, nodes, tops) && q < |nodes| && k < LEVELS && IsPred(nodes, tops, p, k, q)
    requires Distinct(nodes) && nodes[q] != HEAD
    ensures p in links[k].next && (links[k].next[p] == nodes[q] <==> k <= tops[q])
  {
    var i :| 0 <= i < q && nodes[i] == p && tops[i] >= k && forall x | i < x < q :: tops[x] < k;
    var j := NextOnLevel(links, nodes, tops, i, k);
  }

  /** The loop of skiplist_erase: from level 0 up, until a level does not hold `n`. */
  method UnlinkLevels(links: seq<Links>, update: seq<Ref>, n: Ref, height: nat,
                      ghost nodes: seq<Ref>, ghost tops: seq<nat>, ghost q: nat)
    returns (r: seq<Links>)
    requires Rings(links, nodes, tops) && q < |nodes| && nodes[q] == n != HEAD && Distinct(nodes)
    requires tops[q] <= height < LEVELS && |update| == LEVELS
    requires forall k | 0 <= k <= height :: IsPred(nodes, tops, update[k], k, q)
    ensures Rings(r, Removed(nodes, q), Removed(tops, q))
  {
    r := links;
    ghost var nodes', tops' := Removed(nodes, q), Removed(tops, q);
    var k := 0;
    while k <= height
      invariant 0 <= k <= tops[q] + 1 && |r| == LEVELS
      invariant forall j | 0 <= j < k :: Ring(r[j], OnLevel(nodes', tops', j))
      invariant forall j | k <= j < LEVELS :: r[j] == links[j]
    {
      NextOfPred(links, nodes, tops, update[k], k, q);
      if r[k].next[update[k]] != n {
        break;
      }
      UnlinkLevel(r[k], nodes, tops, k, q);
      r := r[k := DelFrom(r[k], n)];
      k := k + 1;
    }
    assert k == tops[q] + 1;
    forall j | k <= j < LEVELS ensures OnLevel(nodes', tops', j) == OnLevel(nodes, tops, j) {
      OnLevelSplit(nodes, tops, j, q);
      OnLevelRemoved(nodes, tops, q, j);
    }
  }

  /** The loop of skiplist_clear_with on one level; `visited` is what it took off, in order. */
  method ClearLevel(l: Links, ghost s: seq<Ref>) returns (r: Links, visited: seq<Ref>)
    requires Ring(l, s) && |s| > 0 && s[0] == SENTINEL
    ensures Ring(r, [SENTINEL]) && visited == s[1..]
  {
    r, visited := l, [];
    ghost var t, m := s, 0;  // the ring so far, and where n is in it
    RingNext(r, t, -1);
    RingNext(r, t, 0);
    var n := r.next[HEAD];
    var next := r.next[n];
    while n != HEAD
      invariant Ring(r, t) && |t| > 0 && t[0] == SENTINEL && 0 <= m <= 1 && n == At(t, m)
      invariant n in r.next && next == r.next[n]
      invariant visited + t[1..] == s[1..]
      decreases |t| - m
    {
      RingNext(r, t, m);
      if n != SENTINEL {
        DelFromRing(r, t, 1);
        r, visited, t := DelFrom(r, n), visited + [n], t[..1] + t[2..];
      } else {
        m := 1;
      }
      n := next;
      RingNext(r, t, if |t| == 1 then -1 else 1);
      next := r.next[n];
    }
    assert t == [SENTINEL];
  }

  /** The last loop of skiplist_erase. */
  method Shrink(links: seq<Links>, height: nat, ghost nodes: seq<Ref>, ghost tops: seq<nat>) returns (h: nat)
    requires Rings(links, nodes, tops) && height < LEVELS
    requires |nodes| > 0 && nodes[0] == SENTINEL && tops[0] == LEVELS - 1 && forall i | 0 <= i < |nodes| :: nodes[i] != HEAD
    requires forall i | 1 <= i < |tops| :: tops[i] <= height
    ensures Tall(h, tops) && h <= height
  {
    h := height;
    ghost var j := NextOnLevel(links, nodes, tops, 0, h);
    while h > 0 && links[h].next[SENTINEL] == HEAD
      invariant 0 <= h <= height
      invariant forall i | 1 <= i < |tops| :: tops[i] <= h
      invariant 0 < j <= |nodes| && (forall x | 0 < x < j :: tops[x] < h) && (j < |nodes| ==> tops[j] >= h)
      invariant SENTINEL in links[h].next && links[h].next[SENTINEL] == if j < |nodes| then nodes[j] else HEAD
    {
      h := h - 1;
      j := NextOnLevel(links, nodes, tops, 0, h);
    }
  }

  /** skiplist_clear_with over all levels in use, from the top down. */
  method ClearLevels(links: seq<Links>, height: nat, ghost nodes: seq<Ref>, ghost tops: seq<nat>)
    returns (r: seq<Links>, visited: seq<Ref>)
    requires Rings(links, nodes, tops) && Tall(height, tops) && nodes[0] == SENTINEL
    ensures |r| == LEVELS && (forall k | 0 <= k < LEVELS :: Ring(r[k], [SENTINEL]))
    ensures visited == nodes[1..]
  {
    forall k | height < k < LEVELS ensures OnLevel(nodes, tops, k) == [SENTINEL] {
      OnLevelEmpty(nodes[1..], tops[1..], k);
    }
    OnLevelZero(nodes, tops);
    r, visited := links, [];
    var k: int := height;
    while k >= 0
      invariant -1 <= k <= height && |r| == LEVELS
      invariant forall j | k < j < LEVELS :: Ring(r[j], [SENTINEL])
      invariant forall j | 0 <= j <= k :: r[j] == links[j]
      invariant k == -1 ==> visited == nodes[1..]
    {
      var l;
      l, visited := ClearLevel(r[k], OnLevel(nodes, tops, k));
      r := r[k := l];
      k := k - 1;
    }
  }

  // ----- the list

  /** The sentinel and the members: distinct allocated nodes, the members with payloads. */
  ghost predicate Members<V>(nodes: seq<Ref>, val: map<Ref, V>, brk: Ref) {
    && |nodes| > 0 && nodes[0] == SENTINEL < brk && Distinct(nodes)
    && (forall i | 0 <= i < |nodes| :: SENTINEL <= nodes[i] < brk)
    && (forall i | 1 <= i < |nodes| :: nodes[i] in val)
  }

  /** `height` is the highest level any member is linked on; the sentinel is on all of them. */
  ghost predicate Tall(height: nat, tops: seq<nat>) {
    && height < LEVELS && |tops| > 0 && tops[0] == LEVELS - 1
    && (forall i | 1 <= i < |tops| :: tops[i] <= height)
    && (height > 0 ==> exists i :: 1 <= i < |tops| && tops[i] == height)
  }

  lemma MembersInserted<V>(nodes: seq<Ref>, val: map<Ref, V>, brk: Ref, q: nat, n: Ref)
    requires Members(nodes, val, brk) && 1 <= q <= |nodes| && SENTINEL < n < brk && n !in nodes && n in val
    ensures Members(Inserted(nodes, q, n), val, brk)
    ensures Payloads(Inserted(nodes, q, n), val) == Inserted(Payloads(nodes, val), q - 1, val[n])
  {
  }

  lemma MembersRemoved<V>(nodes: seq<Ref>, val: map<Ref, V>, brk: Ref, q: nat)
    requires Members(nodes, val, brk) && 1 <= q < |nodes|
    ensures Members(Removed(nodes, q), val, brk)
    ensures Payloads(Removed(nodes, q), val) == Removed(Payloads(nodes, val), q - 1)
  {
  }

  /** The comparator agrees with the order of the payloads: once it turns it does not turn back. */
  ghost predicate Ordered<V>(s: seq<V>, key: nat, cmp: (nat, V) -> int) {
    forall i, j | 0 <= i < j < |s| ::
      (cmp(key, s[j]) > 0 ==> cmp(key, s[i]) > 0) && (cmp(key, s[j]) >= 0 ==> cmp(key, s[i]) >= 0)
  }

  /** `i` is where a linear search for the first payload not below `key` stops. */
  ghost predicate FirstGe<V>(s: seq<V>, key: nat, cmp: (nat, V) -> int, i: nat) {
    && i <= |s| && (forall j | 0 <= j < i :: cmp(key, s[j]) > 0)
    && (forall j | i <= j < |s| :: cmp(key, s[j]) <= 0)
  }

  /** The payloads before `i` are exactly those not above `key`. */
  ghost predicate CountLe<V>(s: seq<V>, key: nat, cmp: (nat, V) -> int, i: nat) {
    && i <= |s| && (forall j | 0 <= j < i :: cmp(key, s[j]) >= 0)
    && (forall j | i <= j < |s| :: cmp(key, s[j]) < 0)
  }

  lemma TallInserted(height: nat, tops: seq<nat>, q: nat, top: nat)
    requires Tall(height, tops) && 1 <= q <= |tops| && top < LEVELS && top <= height + 1
    ensures Tall(if top > height then top else height, Inserted(tops, q, top))
  {
    var tops' := Inserted(tops, q, top);
    assert tops'[q] == top;
    if top <= height && height > 0 {
      var i :| 1 <= i < |tops| && tops[i] == height;
      assert tops'[if i < q then i else i + 1] == height;
    }
  }

  ghost function Payloads<V>(nodes: seq<Ref>, val: map<Ref, V>): (s: seq<V>)
    requires |nodes| > 0 && forall i | 1 <= i < |nodes| :: nodes[i] in val
    ensures |s| == |nodes| - 1 && forall i | 1 <= i < |nodes| :: s[i-1] == val[nodes[i]]
  {
    seq(|nodes| - 1, i requires 0 <= i < |nodes| - 1 => val[nodes[i+1]])
  }

  /** Where the payloads that a search passes over end. */
  ghost predicate Cut<V>(s: seq<V>, advance: V -> bool, q: nat) {
    q <= |s| && forall i | 0 <= i < |s| :: advance(s[i]) <==> i < q
  }

  ghost predicate PrefixClosed<V>(s: seq<V>, advance: V -> bool) {
    forall i, j | 0 <= i < j < |s| :: advance(s[j]) ==> advance(s[i])
  }

  lemma {:induction false} CutExists<V>(s: seq<V>, advance: V -> bool) returns (q: nat)
    requires PrefixClosed(s, advance)
    ensures Cut(s, advance, q)
  {
    if s == [] || advance(s[|s|-1]) {
      q := |s|;
    } else {
      q := CutExists(s[..|s|-1], advance);
    }
  }

  /**
    The invariant of a list is long, and its users need none of it. It is stated under a
    quantifier over this predicate, so that only proofs which mention it look inside.
   */
  ghost predicate Unseal(x: int) { true }

  class SkipList<V(0)> {
    var height: nat
    var links: seq<Links>
    var val: map<Ref, V>
    var brk: Ref  // the next address an allocation returns

    ghost var nodes: seq<Ref>   // the sentinel, then the members in list order
    ghost var tops: seq<nat>    // the highest level each of them is linked on
    ghost var contents: seq<V>  // the payloads of the members: what the list represents

    ghost predicate Invariant()
      reads this
    {
      && Members(nodes, val, brk) && Tall(height, tops) && Rings(links, nodes, tops)
      && contents == Payloads(nodes, val)
    }

    ghost predicate Valid()
      reads this
    {
      && |nodes| == |tops| == |contents| + 1
      && forall x {:trigger Unseal(x)} :: Unseal(x) ==> Invariant()
    }

    /** skiplist_init */
    constructor ()
      ensures Valid() && contents == [] && height == 0
    {
      height := 0;
      links := [];
      val := map[];
      brk := SENTINEL + 1;
      nodes, tops, contents := [SENTINEL], [LEVELS - 1], [];
      new;
      var k := 0;
      while k < LEVELS
        invariant 0 <= k <= LEVELS && |links| == k && contents == []
        invariant height == 0 && val == map[] && brk == SENTINEL + 1 && nodes == [SENTINEL] && tops == [LEVELS - 1]
        invariant forall j | 0 <= j < k :: Ring(links[j], [SENTINEL])
      {
        var empty := Links(map[HEAD := HEAD], map[HEAD := HEAD]);
        var l := AddAfter(empty, HEAD, SENTINEL);
        assert forall i | 0 <= i <= 1 :: Joined(l, At([SENTINEL], i - 1), At([SENTINEL], i));
        links := links + [l];
        k := k + 1;
      }
      assert forall j | 0 <= j < LEVELS :: OnLevel(nodes, tops, j) == [SENTINEL];
    }

    /** What the invariant says about the members, for users of the list. */
    lemma MemberFacts()
      requires Valid()
      ensures forall i | 1 <= i < |nodes| :: nodes[i] != HEAD && nodes[i] != SENTINEL && nodes[i] in val && val[nodes[i]] == contents[i-1]
      ensures nodes[0] == SENTINEL
    {
      assert Unseal(0);
    }

    /** skiplist_next; HEAD plays the part of NULL. */
    function Next(p: Ref, k: nat): (n: Ref)
      requires k < |links| && p in links[k].next
      reads this
    {
      links[k].next[p]
    }

    /** One step of an iteration over level 0, which starts at the list head and visits every node in order. */
    method NextNode(p: Ref, ghost x: int) returns (n: Ref)
      requires Valid() && -1 <= x < |nodes| && p == At(nodes, x)
      ensures n == At(nodes, x + 1) && (n == HEAD <==> x + 1 == |nodes|) && (n == SENTINEL <==> x + 1 == 0)
    {
      assert Unseal(0);
      OnLevelZero(nodes, tops);
      RingNext(links[0], nodes, x);
      n := Next(p, 0);
    }

    /** The payload of a member. */
    method Get(n: Ref, ghost i: nat) returns (v: V)
      requires Valid() && i < |contents| && nodes[i+1] == n
      ensures v == contents[i]
    {
      assert Unseal(0);
      v := val[n];
    }

    /** `path` names, for every level in use, the last node before position `q` on that level. */
    ghost predicate IsPath(path: seq<Ref>, q: nat)
      requires 1 <= q <= |nodes| == |tops|
      reads this
    {
      && |path| == LEVELS
      && forall k | 0 <= k <= height && k < LEVELS :: IsPred(nodes, tops, path[k], k, q)
    }

    /** Moves right on level `k` from `nodes[i]` while `advance` holds of the next payload. */
    method Advance(from: Ref, k: nat, advance: V -> bool, ghost i: nat, ghost q: nat)
      returns (p: Ref, next: Ref, ghost i': nat)
      requires Invariant() && 1 <= q <= |nodes| && Cut(contents, advance, q - 1)
      requires k < LEVELS && i < q && nodes[i] == from && tops[i] >= k
      ensures i <= i' < q && nodes[i'] == p && tops[i'] >= k && forall x | i' < x < q :: tops[x] < k
      ensures k == 0 ==> i' == q - 1 && next == if q < |nodes| then nodes[q] else HEAD
    {
      i' := i;
      ghost var j := NextOnLevel(links, nodes, tops, i, k);
      p, next := from, Next(from, k);
      while next != HEAD && advance(val[next])
        invariant i <= i' < q && nodes[i'] == p && tops[i'] >= k
        invariant i' < j <= |nodes| && next == (if j < |nodes| then nodes[j] else HEAD)
        invariant forall x | i' < x < j :: tops[x] < k
        invariant (j < |nodes| ==> tops[j] >= k) && (k == 0 ==> j == i' + 1)
        decreases |nodes| - i'
      {
        assert contents[j-1] == val[next];
        p, i' := next, j;
        j := NextOnLevel(links, nodes, tops, i', k);
        next := Next(p, k);
      }
      if j < |nodes| {
        assert nodes[j] in nodes;
        assert contents[j-1] == val[next];
      }
      assert j >= q;
    }

    /**
      The search shared by skiplist_find, skiplist_find_le and skiplist_find_ge: move right while
      `advance` holds of the next payload, then drop a level and record the node.
     */
    method Descend(advance: V -> bool) returns (p: Ref, next: Ref, path: seq<Ref>, ghost q: nat)
      requires Valid() && PrefixClosed(contents, advance)
      ensures 1 <= q <= |nodes| && Cut(contents, advance, q - 1)
      ensures p == nodes[q-1] && next == if q < |nodes| then nodes[q] else HEAD
      ensures IsPath(path, q)
    {
      assert Unseal(0);
      q := CutExists(contents, advance);
      q := q + 1;
      p, next, path := SENTINEL, HEAD, seq(LEVELS, i => HEAD);
      ghost var i := 0;
      var k: int := height;
      while k >= 0
        invariant -1 <= k <= height
        invariant 0 <= i < q && nodes[i] == p && (k >= 0 ==> tops[i] >= k)
        invariant |path| == LEVELS && forall j | k < j <= height :: IsPred(nodes, tops, path[j], j, q)
        invariant k == -1 ==> i == q - 1 && next == if q < |nodes| then nodes[q] else HEAD
      {
        p, next, i := Advance(p, k, advance, i, q);
        path := path[k := p];
        assert IsPred(nodes, tops, path[k], k, q);
        k := k - 1;
      }
    }

    /** A freshly allocated node, not yet linked. */
    method New(v: V) returns (n: Ref)
      requires Valid()
      modifies this
      ensures Valid() && nodes == old(nodes) && tops == old(tops) && height == old(height) && contents == old(contents)
      ensures SENTINEL < n < brk && n !in nodes && n in val && val[n] == v
    {
      assert Unseal(0);
      n := brk;
      brk := brk + 1;
      assert n !in nodes;
      val := val[n := v];
      assert contents == Payloads(nodes, val);
    }

    /** skiplist_link, for whatever level the coin flips gave. */
    method Link(n: Ref, path: seq<Ref>, level: nat, ghost q: nat)
      requires Valid() && 1 <= q <= |nodes| && IsPath(path, q) && level < LEVELS
      requires SENTINEL < n < brk && n !in nodes && n in val
      modifies this
      ensures Valid() && val == old(val) && brk == old(brk)
      ensures nodes == Inserted(old(nodes), q, n)
      ensures contents == Inserted(old(contents), q - 1, val[n])
    {
      assert Unseal(0);
      var k, update := level, path;
      if k > height {
        height := height + 1;
        k := height;
        update := update[k := SENTINEL];
        assert IsPred(nodes, tops, SENTINEL, k, q);
      }
      TallInserted(old(height), tops, q, k);
      MembersInserted(nodes, val, brk, q, n);
      links := LinkLevels(links, update, n, k, nodes, tops, q);
      nodes, tops := Inserted(nodes, q, n), Inserted(tops, q, k);
      contents := Inserted(contents, q - 1, val[n]);
    }

    /** skiplist_find: the match if there is one, and the path to where it is or would go. */
    method Find(key: nat, cmp: (nat, V) -> int) returns (r: Ref, path: seq<Ref>, ghost i: nat)
      requires Valid() && Ordered(contents, key, cmp)
      ensures FirstGe(contents, key, cmp, i) && IsPath(path, i + 1)
      ensures r != HEAD ==> i < |contents| && cmp(key, contents[i]) == 0 && r == nodes[i+1]
      ensures r == HEAD ==> forall j | 0 <= j < |contents| :: cmp(key, contents[j]) != 0
    {
      var p, next;
      p, next, path, i := Descend(v => cmp(key, v) > 0);
      i := i - 1;
      MemberFacts();
      if next != HEAD && cmp(key, val[next]) == 0 {
        r := next;
      } else {
        r := HEAD;
        assert i < |contents| ==> cmp(key, contents[i]) < 0;
      }
    }

    /** skiplist_find_le: the last payload not above `key`. */
    method FindLe(key: nat, cmp: (nat, V) -> int) returns (r: Ref, path: seq<Ref>, ghost i: nat)
      requires Valid() && Ordered(contents, key, cmp)
      ensures CountLe(contents, key, cmp, i) && IsPath(path, i + 1)
      ensures (r == HEAD <==> i == 0) && (i > 0 ==> r == nodes[i])
      ensures r == HEAD <==> forall j | 0 <= j < |contents| :: cmp(key, contents[j]) < 0
    {
      var p, next;
      p, next, path, i := Descend(v => cmp(key, v) >= 0);
      i := i - 1;
      MemberFacts();
      r := if p != SENTINEL then p else HEAD;
    }

    /** skiplist_find_ge: the first payload not below `key`. */
    method FindGe(key: nat, cmp: (nat, V) -> int) returns (r: Ref, path: seq<Ref>, ghost i: nat)
      requires Valid() && Ordered(contents, key, cmp)
      ensures FirstGe(contents, key, cmp, i) && IsPath(path, i + 1)
      ensures (r == HEAD <==> i == |contents|) && (i < |contents| ==> r == nodes[i+1])
      ensures r == HEAD <==> forall j | 0 <= j < |contents| :: cmp(key, contents[j]) > 0
    {
      var p;
      p, r, path, i := Descend(v => cmp(key, v) > 0);
      i := i - 1;
      MemberFacts();
    }

    /** skiplist_erase: `n` leaves every level it is on, and empty top levels are given up. */
    method Erase(n: Ref, path: seq<Ref>, ghost q: nat)
      requires Valid() && 1 <= q < |nodes| && nodes[q] == n && IsPath(path, q)
      modifies this
      ensures Valid() && val == old(val) && brk == old(brk)
      ensures nodes == Removed(old(nodes), q)
      ensures contents == Removed(old(contents), q - 1)
    {
      assert Unseal(0);
      MembersRemoved(nodes, val, brk, q);
      links := UnlinkLevels(links, path, n, height, nodes, tops, q);
      nodes, tops, contents := Removed(nodes, q), Removed(tops, q), Removed(contents, q - 1);
      height := Shrink(links, height, nodes, tops);
    }

    /** skiplist_clear_with: `visited` are the nodes handed to the callback, in order. */
    method Clear() returns (visited: seq<Ref>)
      requires Valid()
      modifies this
      ensures Valid() && contents == [] && height == 0
      ensures visited == old(nodes)[1..] && val == old(val) && brk == old(brk)
    {
      assert Unseal(0);
      links, visited := ClearLevels(links, height, nodes, tops);
      height := 0;
      nodes, tops, contents := [SENTINEL], [LEVELS - 1], [];
      assert forall k | 0 <= k < LEVELS :: OnLevel(nodes, tops, k) == [SENTINEL];
    }

    /** Rewrites the payload of a linked node in place. */
    method Rewrite(n: Ref, v: V, ghost q: nat)
      requires Valid() && 1 <= q < |nodes| && nodes[q] == n
      modifies this
      ensures Valid() && nodes == old(nodes) && tops == old(tops) && height == old(height)
      ensures contents == old(contents)[q - 1 := v]
    {
      assert Unseal(0);
      val := val[n := v];
      contents := contents[q - 1 := v];
      assert contents == Payloads(nodes, val);
    }
  }
}
