/**
 The walk of a tree: its entries in the order of the iterator of `GenericTrieDB`, and the
 part of it that a search for a key leaves.
 */
module TrieWalk {
  import opened Bytes
  import opened HexPrefix
  import opened Trie
  import opened TrieBuild

  // ---- the walk ----

  /** The entries below a node in the order of iteration: a branch's own value, then its
      children from 0 to 15. */
  function Walk(t: Trie, path: Nibbles): seq<Pair>
    decreases t, 0
  {
    match t
    case Nil => []
    case Leaf(key, value) => [Pair(path + key, value)]
    case Ext(key, child) => Walk(child, path + key)
    case Branch(kids, value) =>
      (if value != [] then [Pair(path, value)] else []) + WalkKids(kids, 0, path)
  }

  /** The entries below the children from `i` on. */
  function WalkKids(kids: seq<Trie>, i: nat, path: Nibbles): seq<Pair>
    decreases kids, 1, |kids| - i
  {
    if i >= |kids| || i >= 16 then [] else Walk(kids[i], path + [i]) + WalkKids(kids, i + 1, path)
  }

  lemma LessAfter(a: Nibbles, b: Nibbles, path: Nibbles)
    ensures Less(path + a, path + b) == Less(a, b)
  {
    assert (path + a)[..|path|] == path == (path + b)[..|path|];
    LessBelow(path + a, path + b, |path|);
    assert (path + a)[|path|..] == a && (path + b)[|path|..] == b;
  }

  ghost predicate HasEntry(es: seq<Pair>, k: Nibbles, v: Bytes)
  {
    exists i :: 0 <= i < |es| && es[i] == Pair(k, v)
  }

  /** Everything in a list lies at or behind `path`, below nibble `lo` at least. */
  ghost predicate Below(es: seq<Pair>, path: Nibbles)
  {
    forall i | 0 <= i < |es| :: path <= es[i].key
  }

  ghost predicate FromNibble(es: seq<Pair>, path: Nibbles, lo: nat)
  {
    Below(es, path) && forall i | 0 <= i < |es| :: |es[i].key| > |path| && es[i].key[|path|] >= lo
  }

  /** All keys of the walk extend the path. */
  lemma {:induction false} WalkBelow(t: Trie, path: Nibbles)
    ensures Below(Walk(t, path), path)
    decreases t, 0
  {
    match t
    case Nil =>
    case Leaf(_, _) =>
    case Ext(key, child) =>
      WalkBelow(child, path + key);
      BelowShorter(Walk(child, path + key), path, path + key);
    case Branch(kids, value) =>
      WalkKidsFrom(kids, 0, path);
  }

  lemma BelowShorter(es: seq<Pair>, a: Nibbles, b: Nibbles)
    requires Below(es, b) && a <= b
    ensures Below(es, a)
  {
  }

  lemma {:induction false} WalkKidsFrom(kids: seq<Trie>, i: nat, path: Nibbles)
    ensures FromNibble(WalkKids(kids, i, path), path, i)
    decreases kids, 1, |kids| - i
  {
    if i < |kids| && i < 16 {
      WalkBelow(kids[i], path + [i]);
      var es := Walk(kids[i], path + [i]);
      forall j | 0 <= j < |es|
        ensures path <= es[j].key && |es[j].key| > |path| && es[j].key[|path|] == i
      {
        assert path + [i] <= es[j].key;
      }
      WalkKidsFrom(kids, i + 1, path);
    }
  }

  lemma SortedConcat(a: seq<Pair>, b: seq<Pair>)
    requires Sorted(a) && Sorted(b)
    requires forall i, j | 0 <= i < |a| && 0 <= j < |b| :: Less(a[i].key, b[j].key)
    ensures Sorted(a + b)
  {
  }

  lemma FirstThenRest(path: Nibbles, a: Nibbles)
    requires path <= a && |a| > |path|
    ensures Less(path, a)
  {
    assert a == path + a[|path|..];
    assert path + [] == path;
    LessAfter([], a[|path|..], path);
  }

  lemma SmallerNibble(path: Nibbles, a: Nibbles, b: Nibbles)
    requires path <= a && path <= b && |a| > |path| && |b| > |path| && a[|path|] < b[|path|]
    ensures Less(a, b)
  {
    assert a == path + a[|path|..] && b == path + b[|path|..];
    LessAfter(a[|path|..], b[|path|..], path);
  }

  /** The walk is in lexicographic order, so no key comes twice. */
  lemma {:induction false} WalkSorted(t: Trie, path: Nibbles)
    ensures Sorted(Walk(t, path))
    decreases t, 0
  {
    match t
    case Nil =>
    case Leaf(_, _) =>
    case Ext(key, child) => WalkSorted(child, path + key);
    case Branch(kids, value) =>
      WalkKidsSorted(kids, 0, path);
      WalkKidsFrom(kids, 0, path);
      var own := if value != [] then [Pair(path, value)] else [];
      var rest := WalkKids(kids, 0, path);
      forall i, j | 0 <= i < |own| && 0 <= j < |rest|
        ensures Less(own[i].key, rest[j].key)
      {
        FirstThenRest(path, rest[j].key);
      }
      SortedConcat(own, rest);
  }

  lemma {:induction false} WalkKidsSorted(kids: seq<Trie>, i: nat, path: Nibbles)
    ensures Sorted(WalkKids(kids, i, path))
    decreases kids, 1, |kids| - i
  {
    if i < |kids| && i < 16 {
      WalkSorted(kids[i], path + [i]);
      WalkBelow(kids[i], path + [i]);
      WalkKidsSorted(kids, i + 1, path);
      WalkKidsFrom(kids, i + 1, path);
      var a, b := Walk(kids[i], path + [i]), WalkKids(kids, i + 1, path);
      forall x, y | 0 <= x < |a| && 0 <= y < |b|
        ensures Less(a[x].key, b[y].key)
      {
        assert path + [i] <= a[x].key;
        SmallerNibble(path, a[x].key, b[y].key);
      }
      SortedConcat(a, b);
    }
  }

  /** The walk has an entry for a key exactly when the tree has a value for it, and it is that value. */
  lemma {:induction false} WalkHas(t: Trie, path: Nibbles, k: Nibbles, v: Bytes)
    requires WellShaped(t)
    ensures HasEntry(Walk(t, path), path + k, v) <==> v != [] && Get(t, k) == v
    decreases t, 0
  {
    match t
    case Nil =>
    case Leaf(key, value) =>
      assert (path + k)[|path|..] == k && (path + key)[|path|..] == key;
      assert Walk(t, path)[0] == Pair(path + key, value);
    case Ext(key, child) =>
      WalkBelow(child, path + key);
      if key <= k {
        var r := k[|key|..];
        assert path + k == path + key + r;
        WalkHas(child, path + key, r, v);
      } else {
        PathPrefix(path, key, k);
      }
    case Branch(kids, value) =>
      var own := if value != [] then [Pair(path, value)] else [];
      var rest := WalkKids(kids, 0, path);
      HasEntryConcat(own, rest, path + k, v);
      WalkKidsFrom(kids, 0, path);
      if k == [] {
        assert path + k == path;
        assert value != [] ==> own[0] == Pair(path, value);
      } else {
        assert |path + k| > |path|;
        WalkKidsHas(kids, 0, path, k, v);
      }
  }

  lemma PathPrefix(path: Nibbles, a: Nibbles, b: Nibbles)
    ensures path + a <= path + b <==> a <= b
  {
    assert (path + a)[|path|..] == a && (path + b)[|path|..] == b;
    if path + a <= path + b {
      assert (path + b)[..|path + a|][|path|..] == b[..|a|];
    }
  }

  lemma HasEntryConcat(a: seq<Pair>, b: seq<Pair>, k: Nibbles, v: Bytes)
    ensures HasEntry(a + b, k, v) <==> HasEntry(a, k, v) || HasEntry(b, k, v)
  {
    if i :| 0 <= i < |a| && a[i] == Pair(k, v) {
      assert (a + b)[i] == a[i];
    }
    if i :| 0 <= i < |b| && b[i] == Pair(k, v) {
      assert (a + b)[|a| + i] == b[i];
    }
  }

  lemma {:induction false} WalkKidsHas(kids: seq<Trie>, i: nat, path: Nibbles, k: Nibbles, v: Bytes)
    requires |kids| == 16 && k != [] && forall j | 0 <= j < 16 :: WellShaped(kids[j])
    ensures HasEntry(WalkKids(kids, i, path), path + k, v) <==> k[0] >= i && v != [] && Get(kids[k[0]], k[1..]) == v
    decreases kids, 1, |kids| - i
  {
    if i < 16 {
      var a, b := Walk(kids[i], path + [i]), WalkKids(kids, i + 1, path);
      HasEntryConcat(a, b, path + k, v);
      WalkKidsHas(kids, i + 1, path, k, v);
      if k[0] == i {
        assert path + k == path + [i] + k[1..];
        WalkHas(kids[i], path + [i], k[1..], v);
      } else {
        WalkBelow(kids[i], path + [i]);
        PathPrefix(path, [i], k);
      }
    }
  }

  // ---- the part of a walk from a key on ----

  /** The entries from the first that is not before `k` on. */
  function NotBefore(es: seq<Pair>, k: Nibbles): seq<Pair>
  {
    if es == [] || !Less(es[0].key, k) then es else NotBefore(es[1..], k)
  }

  /** In ascending entries what is dropped is exactly what lies before the key. */
  lemma {:induction false} NotBeforeIs(es: seq<Pair>, k: Nibbles) returns (n: nat)
    requires Sorted(es)
    ensures n <= |es| && NotBefore(es, k) == es[n..]
    ensures forall i | 0 <= i < |es| :: Less(es[i].key, k) <==> i < n
  {
    if es == [] || !Less(es[0].key, k) {
      n := 0;
      forall i | 0 < i < |es|
        ensures !Less(es[i].key, k)
      {
        if Less(es[i].key, k) {
          LessTransitive(es[0].key, es[i].key, k);
        }
      }
    } else {
      var m := NotBeforeIs(es[1..], k);
      n := m + 1;
      forall i | 0 < i < |es|
        ensures Less(es[i].key, k) <==> i < n
      {
        assert es[i] == es[1..][i - 1];
      }
      assert es[1..][m..] == es[n..];
    }
  }

  lemma {:induction false} AllBefore(a: seq<Pair>, b: seq<Pair>, k: Nibbles)
    requires forall i | 0 <= i < |a| :: Less(a[i].key, k)
    ensures NotBefore(a + b, k) == NotBefore(b, k)
  {
    if a == [] {
      assert a + b == b;
    } else {
      assert (a + b)[1..] == a[1..] + b && (a + b)[0] == a[0];
      AllBefore(a[1..], b, k);
    }
  }

  lemma {:induction false} NoneBefore(a: seq<Pair>, b: seq<Pair>, k: Nibbles)
    requires forall i | 0 <= i < |b| :: !Less(b[i].key, k)
    ensures NotBefore(a + b, k) == NotBefore(a, k) + b
  {
    if a == [] {
      assert a + b == b;
    } else {
      assert (a + b)[1..] == a[1..] + b && (a + b)[0] == a[0];
      NoneBefore(a[1..], b, k);
    }
  }

  lemma PrefixOfCons(q: Nibbles, k: Nibbles)
    requires q != [] && k != [] && q[0] == k[0] && q[1..] <= k[1..]
    ensures q <= k
  {
    assert q == [q[0]] + q[1..] && k == [k[0]] + k[1..];
  }

  /** A key that neither continues `q` nor is before it is behind everything that continues `q`. */
  lemma {:induction false} LessExtends(q: Nibbles, more: Nibbles, k: Nibbles)
    requires !(q <= k)
    ensures Less(q + more, k) == !Less(k, q) && Less(k, q + more) == Less(k, q)
  {
    if q != [] && k != [] && q[0] == k[0] {
      assert (q + more)[1..] == q[1..] + more;
      if q[1..] <= k[1..] {
        PrefixOfCons(q, k);
        assert false;
      }
      LessExtends(q[1..], more, k[1..]);
    }
  }

  /** Nothing below a path is before it. */
  lemma WalkFromPath(t: Trie, path: Nibbles)
    ensures NotBefore(Walk(t, path), path + []) == Walk(t, path)
  {
    var es := Walk(t, path);
    WalkBelow(t, path);
    assert path + [] == path;
    if es != [] {
      var a := es[0].key;
      assert a == path + a[|path|..];
      LessAfter(a[|path|..], [], path);
    }
  }

  /** At a leaf or an extension with key `q`: what a search for `k` goes on with. */
  function AfterKey(q: Nibbles, k: Nibbles): Nibbles
  {
    if q <= k then k[|q|..] else []
  }

  lemma TwoItemFrom(t: Trie, path: Nibbles, k: Nibbles)
    requires TwoItem(t)
    ensures !(t.key <= k) && !Less(k, t.key) ==> NotBefore(Walk(t, path), path + k) == []
    ensures (t.key <= k || Less(k, t.key)) && t.Ext? ==>
              NotBefore(Walk(t, path), path + k) ==
              NotBefore(Walk(t.child, path + t.key), path + t.key + AfterKey(t.key, k))
    ensures (t.key <= k || Less(k, t.key)) && t.Leaf? ==>
              NotBefore(Walk(t, path), path + k) ==
              if AfterKey(t.key, k) == [] then [Pair(path + t.key, t.value)] else []
  {
    hide WalkKids, Less;
    var es, q := Walk(t, path), t.key;
    if q <= k {
      assert path + k == path + q + k[|q|..];
      if t.Leaf? {
        LeafFrom(path + q, k[|q|..], t.value);
      }
    } else {
      forall i | 0 <= i < |es|
        ensures Less(es[i].key, path + k) == !Less(k, q)
      {
        if t.Ext? {
          WalkBelow(t.child, path + q);
        }
        var more := es[i].key[|path + q|..];
        assert es[i].key == path + (q + more);
        LessAfter(q + more, k, path);
        LessExtends(q, more, k);
      }
      if t.Ext? {
        WalkFromPath(t.child, path + q);
      }
      if !Less(k, q) {
        AllBefore(es, [], path + k);
        assert es + [] == es;
      }
    }
  }

  lemma LeafFrom(path: Nibbles, k: Nibbles, value: Bytes)
    ensures NotBefore([Pair(path, value)], path + k) == if k == [] then [Pair(path, value)] else []
  {
    assert path + [] == path;
    LessAfter([], k, path);
  }

  /** At a branch: the search goes on in one child, and all of the children after it follow. */
  lemma BranchFrom(t: Trie, path: Nibbles, n: nibble, k: Nibbles)
    requires t.Branch? && |t.kids| == 16
    ensures NotBefore(Walk(t, path), path + ([n] + k)) ==
            NotBefore(Walk(t.kids[n], path + [n]), path + [n] + k) + WalkKids(t.kids, n + 1, path)
  {
    hide WalkKids, NotBefore;
    var own := if t.value != [] then [Pair(path, t.value)] else [];
    var g := path + [n] + k;
    assert g == path + ([n] + k);
    FirstThenRest(path, g);
    AllBefore(own, WalkKids(t.kids, 0, path), g);
    KidsFrom(t.kids, 0, path, n, g);
  }

  lemma {:induction false} KidsFrom(kids: seq<Trie>, i: nat, path: Nibbles, n: nibble, g: Nibbles)
    requires |kids| == 16 && i <= n && path + [n] <= g
    ensures NotBefore(WalkKids(kids, i, path), g) ==
            NotBefore(Walk(kids[n], path + [n]), g) + WalkKids(kids, n + 1, path)
    decreases n - i
  {
    hide Walk, NotBefore, Less;
    var a, b := Walk(kids[i], path + [i]), WalkKids(kids, i + 1, path);
    assert g[|path|] == n;
    WalkBelow(kids[i], path + [i]);
    WalkKidsFrom(kids, i + 1, path);
    if i < n {
      forall x | 0 <= x < |a|
        ensures Less(a[x].key, g)
      {
        assert path + [i] <= a[x].key;
        SmallerNibble(path, a[x].key, g);
      }
      AllBefore(a, b, g);
      KidsFrom(kids, i + 1, path, n, g);
    } else {
      forall y | 0 <= y < |b|
        ensures !Less(b[y].key, g)
      {
        SmallerNibble(path, g, b[y].key);
        LessAsymmetric(g, b[y].key);
      }
      NoneBefore(a, b, g);
    }
  }

  /** `isEarlierThan`. */
  method IsEarlierThan(a: Nibbles, b: Nibbles) returns (r: bool)
    ensures r == Less(a, b)
  {
    var i := 0;
    while i < |b| && i < |a|
      invariant i <= |a| && i <= |b| && Less(a, b) == Less(a[i..], b[i..])
    {
      if a[i] < b[i] {
        return true;
      } else if a[i] > b[i] {
        return false;
      }
      assert a[i..][1..] == a[i + 1..] && b[i..][1..] == b[i + 1..];
      i := i + 1;
    }
    return i < |b|;
  }
}
