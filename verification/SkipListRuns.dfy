/**
  Runs of the skiplist used as an ordered set of numbers, the way its unit test drives it:
  find-then-link, find-then-erase and clear, with arbitrary coin flips.
 */
module SkipListRuns {
  import opened SkipLists

  ghost predicate Subsequence<T>(a: seq<T>, b: seq<T>) {
    if a == [] then true
    else if b == [] then false
    else if a[0] == b[0] then Subsequence(a[1..], b[1..])
    else Subsequence(a, b[1..])
  }

  lemma {:induction false} SkipHead<T>(a: seq<T>, b: seq<T>)
    requires b != [] && Subsequence(a, b[1..])
    ensures Subsequence(a, b)
  {
    if a != [] && a[0] == b[0] {
      DropHead(a, b[1..]);
    }
  }

  lemma {:induction false} DropHead<T>(a: seq<T>, b: seq<T>)
    requires a != [] && Subsequence(a, b)
    ensures Subsequence(a[1..], b)
  {
    if a[0] == b[0] {
      SkipHead(a[1..], b);
    } else {
      DropHead(a, b[1..]);
      SkipHead(a[1..], b);
    }
  }

  /** Each level of the list is a subsequence of the level below it. */
  lemma {:induction false} LevelsNest<T>(s: seq<T>, tops: seq<nat>, k: nat)
    requires |s| == |tops|
    ensures Subsequence(OnLevel(s, tops, k + 1), OnLevel(s, tops, k))
  {
    if s != [] {
      LevelsNest(s[1..], tops[1..], k);
      var above, below := OnLevel(s[1..], tops[1..], k + 1), OnLevel(s[1..], tops[1..], k);
      if tops[0] > k {
        assert ([s[0]] + above)[1..] == above && ([s[0]] + below)[1..] == below;
      } else if tops[0] == k {
        assert ([s[0]] + below)[1..] == below && [] + above == above;
        SkipHead(above, [s[0]] + below);
      } else {
        assert [] + above == above && [] + below == below;
      }
    }
  }

  datatype Op = Add(v: nat, level: nat) | Remove(v: nat) | Clear

  function Compare(key: nat, v: nat): (c: int) {
    if key < v then -1 else if key > v then 1 else 0
  }

  ghost predicate Ascending(s: seq<nat>) {
    forall i, j | 0 <= i < j < |s| :: s[i] < s[j]
  }

  ghost function Elements(s: seq<nat>): (e: set<nat>) {
    set v | v in s
  }

  /** What a run of operations leaves in the set. */
  ghost function After(ops: seq<Op>): (r: set<nat>) {
    if ops == [] then {}
    else match ops[|ops|-1]
      case Add(v, _) => After(ops[..|ops|-1]) + {v}
      case Remove(v) => After(ops[..|ops|-1]) - {v}
      case Clear => {}
  }

  lemma ElementsInserted(s: seq<nat>, i: nat, v: nat)
    requires Ascending(s) && FirstGe(s, v, Compare, i) && v !in s
    ensures Elements(Inserted(s, i, v)) == Elements(s) + {v} && Ascending(Inserted(s, i, v))
  {
    var t := Inserted(s, i, v);
    assert t[i] == v;
    forall j | 0 <= j < |s| ensures s[j] in t {
      assert t[if j < i then j else j + 1] == s[j];
    }
  }

  lemma ElementsRemoved(s: seq<nat>, i: nat)
    requires i < |s| && Ascending(s)
    ensures Elements(Removed(s, i)) == Elements(s) - {s[i]} && Ascending(Removed(s, i))
  {
    var t := Removed(s, i);
    forall j | 0 <= j < |s| && j != i ensures s[j] in t {
      assert t[if j < i then j else j - 1] == s[j];
    }
  }

  method Insert(list: SkipList<nat>, v: nat, level: nat) returns (added: bool)
    requires list.Valid() && Ascending(list.contents)
    modifies list
    ensures list.Valid() && Ascending(list.contents)
    ensures added <==> v !in old(list.contents)
    ensures Elements(list.contents) == old(Elements(list.contents)) + {v}
  {
    ghost var was := list.contents;
    var r, path, i := list.Find(v, Compare);
    added := r == HEAD;
    if added {
      assert v !in was;
      ElementsInserted(was, i, v);
      var n := list.New(v);
      list.Link(n, path, level % LEVELS, i + 1);
    }
  }

  method Delete(list: SkipList<nat>, v: nat)
    requires list.Valid() && Ascending(list.contents)
    modifies list
    ensures list.Valid() && Ascending(list.contents)
    ensures Elements(list.contents) == old(Elements(list.contents)) - {v}
  {
    ghost var was := list.contents;
    var r, path, i := list.Find(v, Compare);
    if r != HEAD {
      ElementsRemoved(was, i);
      list.Erase(r, path, i + 1);
    }
  }

  /** After any run, whatever the coin flips, the list is a valid skiplist of exactly the right set in order. */
  method Run(ops: seq<Op>) returns (list: SkipList<nat>)
    ensures fresh(list) && list.Valid()
    ensures Ascending(list.contents) && Elements(list.contents) == After(ops)
  {
    list := new SkipList<nat>();
    for k := 0 to |ops|
      invariant fresh(list) && list.Valid()
      invariant Ascending(list.contents) && Elements(list.contents) == After(ops[..k])
    {
      assert ops[..k+1][..k] == ops[..k];
      match ops[k] {
        case Add(v, level) => var _ := Insert(list, v, level);
        case Remove(v) => Delete(list, v);
        case Clear => var _ := list.Clear();
      }
    }
    assert ops[..|ops|] == ops;
  }
}
