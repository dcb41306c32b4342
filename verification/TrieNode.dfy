/**
 Trie nodes as RLP items: a node shorter than 32 bytes is written into its parent, a
 longer one is kept in the store and its parent holds the hash.
 */
module TrieNode {
  import opened Bytes
  import opened Rlp
  import opened RlpReader
  import opened HexPrefix
  import opened Trie
  import opened StateCacheDB

  function NodeItem(H: Hasher, t: Trie): Item
    decreases t, 0
  {
    match t
    case Nil => Data([])
    case Leaf(key, value) => List([Data(HexEncode(key, true)), Data(value)])
    case Ext(key, child) => List([Data(HexEncode(key, false)), Ref(H, child)])
    case Branch(kids, value) => List(Refs(H, kids) + [Data(value)])
  }

  /** The bytes of a node. */
  function Blob(H: Hasher, t: Trie): Bytes
    decreases t, 1
  {
    Encode(NodeItem(H, t))
  }

  predicate Hashed(H: Hasher, t: Trie)
    decreases t, 2
  {
    |Blob(H, t)| >= 32
  }

  /** How a parent refers to a node. */
  function Ref(H: Hasher, t: Trie): Item
    decreases t, 3
  {
    if Hashed(H, t) then Data(H(Blob(H, t))) else NodeItem(H, t)
  }

  function Refs(H: Hasher, kids: seq<Trie>): (r: seq<Item>)
    ensures |r| == |kids| && forall i | 0 <= i < |kids| :: r[i] == Ref(H, kids[i])
    decreases kids, 4
  {
    seq(|kids|, i requires 0 <= i < |kids| => Ref(H, kids[i]))
  }

  // ---- references ----

  function OwnCount(H: Hasher, t: Trie, h: Hash): nat
  {
    if Hashed(H, t) && H(Blob(H, t)) == h then 1 else 0
  }

  /** How often a hash is referred to by a node and what hangs below it. */
  function RefCount(H: Hasher, t: Trie, h: Hash): nat
    decreases t, 1
  {
    OwnCount(H, t, h) + ChildCount(H, t, h)
  }

  /** The same without the reference to the node itself. */
  function ChildCount(H: Hasher, t: Trie, h: Hash): nat
    decreases t, 0
  {
    match t
    case Nil => 0
    case Leaf(_, _) => 0
    case Ext(_, child) => RefCount(H, child, h)
    case Branch(kids, _) => KidCount(H, kids, h)
  }

  function KidCount(H: Hasher, kids: seq<Trie>, h: Hash): nat
    decreases kids, 2
  {
    if kids == [] then 0 else RefCount(H, kids[0], h) + KidCount(H, kids[1..], h)
  }

  /** Replacing one child changes the count by the difference of the two. */
  lemma {:induction false} KidCountUpdate(H: Hasher, kids: seq<Trie>, i: nat, t: Trie, h: Hash)
    requires i < |kids|
    ensures KidCount(H, kids, h) >= RefCount(H, kids[i], h)
    ensures KidCount(H, kids[i := t], h) == KidCount(H, kids, h) - RefCount(H, kids[i], h) + RefCount(H, t, h)
    decreases i
  {
    hide RefCount;
    if i == 0 {
      assert kids[0 := t][1..] == kids[1..];
    } else {
      KidCountUpdate(H, kids[1..], i - 1, t, h);
      assert kids[i := t][1..] == kids[1..][i - 1 := t];
    }
  }

  lemma {:induction false} KidCountNil(H: Hasher, kids: seq<Trie>, h: Hash)
    requires forall i | 0 <= i < |kids| :: kids[i] == Nil
    ensures KidCount(H, kids, h) == 0
  {
    if kids != [] {
      KidCountNil(H, kids[1..], h);
    }
  }

  // ---- the store holds a tree ----

  /** The store has the bytes of every node that is referred to by hash. */
  ghost predicate Stored(main: Main, H: Hasher, t: Trie)
    decreases t, 0
  {
    match t
    case Nil => true
    case Leaf(_, _) => true
    case Ext(_, child) => StoredRef(main, H, child)
    case Branch(kids, _) => forall i | 0 <= i < |kids| :: StoredRef(main, H, kids[i])
  }

  ghost predicate StoredRef(main: Main, H: Hasher, t: Trie)
    decreases t, 1
  {
    && (Hashed(H, t) ==> Lookup(main, H(Blob(H, t))) == Blob(H, t))
    && Stored(main, H, t)
  }

  /** The second store has all the bytes of the first. */
  ghost predicate Grows(main: Main, main': Main)
  {
    forall h | h in main :: h in main' && main'[h].bytes == main[h].bytes
  }

  lemma {:induction false} StoredGrows(main: Main, main': Main, H: Hasher, t: Trie)
    requires Stored(main, H, t) && Grows(main, main')
    ensures Stored(main', H, t)
    decreases t
  {
    hide Blob, Hashed;
    match t
    case Nil =>
    case Leaf(_, _) =>
    case Ext(_, child) =>
      StoredGrows(main, main', H, child);
      LookupGrows(main, main', H, child);
    case Branch(kids, _) =>
      forall i | 0 <= i < |kids|
        ensures StoredRef(main', H, kids[i])
      {
        assert StoredRef(main, H, kids[i]);
        StoredGrows(main, main', H, kids[i]);
        LookupGrows(main, main', H, kids[i]);
      }
  }

  lemma LookupGrows(main: Main, main': Main, H: Hasher, t: Trie)
    requires Grows(main, main')
    ensures Lookup(main, H(Blob(H, t))) == Blob(H, t) ==> Lookup(main', H(Blob(H, t))) == Blob(H, t)
  {
    assert Blob(H, t) != [];
  }

  /** `purge` only forgets what nothing refers to: a tree whose references are counted stays. */
  lemma {:induction false} StoredPurged(main: Main, H: Hasher, t: Trie)
    requires Stored(main, H, t) && forall h: Hash :: Count(main, h) >= ChildCount(H, t, h)
    ensures Stored(Purged(main), H, t)
    decreases t, 0
  {
    hide Blob, Hashed;
    match t
    case Nil =>
    case Leaf(_, _) =>
    case Ext(_, child) =>
      StoredRefPurged(main, H, child);
    case Branch(kids, _) =>
      forall i | 0 <= i < |kids|
        ensures StoredRef(Purged(main), H, kids[i])
      {
        forall h: Hash
          ensures Count(main, h) >= RefCount(H, kids[i], h)
        {
          KidCountUpdate(H, kids, i, Nil, h);
        }
        StoredRefPurged(main, H, kids[i]);
      }
  }

  lemma {:induction false} StoredRefPurged(main: Main, H: Hasher, t: Trie)
    requires StoredRef(main, H, t) && forall h: Hash :: Count(main, h) >= RefCount(H, t, h)
    ensures StoredRef(Purged(main), H, t)
    decreases t, 1
  {
    StoredPurged(main, H, t);
    if Hashed(H, t) {
      assert Count(main, H(Blob(H, t))) >= OwnCount(H, t, H(Blob(H, t)));
    }
  }

  // ---- what a walk of the tree meets ----

  lemma {:induction false} KidCountTake(H: Hasher, kids: seq<Trie>, i: nat, h: Hash)
    requires i < |kids|
    ensures KidCount(H, kids[..i + 1], h) == KidCount(H, kids[..i], h) + RefCount(H, kids[i], h)
    decreases i
  {
    hide RefCount;
    if i == 0 {
      assert kids[..1][1..] == [] && kids[..0] == [];
    } else {
      KidCountTake(H, kids[1..], i - 1, h);
      assert kids[..i + 1][1..] == kids[1..][..i] && kids[..i][1..] == kids[1..][..i - 1];
    }
  }

  // ---- sizes ----

  /** Keys of less than 2^30 bytes (the code counts nibbles in `int`) and values of less
      than 2^63 bytes. */
  const KEY_LIMIT: nat := INT_MAX - 1
  const VALUE_LIMIT: nat := 0x8000_0000_0000_0000

  /** No key below the node exceeds `n` nibbles, no value the limit. */
  ghost predicate Fits(t: Trie, n: int)
    decreases t
  {
    match t
    case Nil => true
    case Leaf(key, value) => |key| <= n && |value| < VALUE_LIMIT
    case Ext(key, child) => |key| <= n && Fits(child, n - |key|)
    case Branch(kids, value) =>
      n >= 0 && |kids| <= 16 && |value| < VALUE_LIMIT && forall i | 0 <= i < |kids| :: Fits(kids[i], n - 1)
  }

  lemma KeyFitsNode(t: Trie, n: int)
    requires TwoItem(t) && Fits(t, n)
    ensures |t.key| <= n
  {
  }

  lemma {:induction false} EncodeAllBound(items: seq<Item>, bound: nat)
    requires forall i | 0 <= i < |items| :: |Encode(items[i])| <= bound
    ensures |EncodeAll(items)| <= bound * |items|
  {
    hide Encode;
    if items != [] {
      EncodeAllBound(items[1..], bound);
      assert bound * |items| == bound + bound * (|items| - 1);
    }
  }

  lemma HexEncodeLength(n: Nibbles, leaf: bool)
    ensures |HexEncode(n, leaf)| <= 1 + |n|
  {
  }

  lemma HashSize(h: Hash)
    ensures |Encode(Data(h))| == 33
  {
  }

  lemma RefSize(H: Hasher, t: Trie)
    ensures |Encode(Ref(H, t))| <= 33
  {
    if Hashed(H, t) {
      HashSize(H(Blob(H, t)));
    } else {
      assert Encode(Ref(H, t)) == Blob(H, t);
    }
  }

  /** Two strings, or a string and a reference, make an item the reader takes. */
  lemma PairEncodable(a: Bytes, b: Item)
    requires |a| <= KEY_LIMIT + 1 && Encodable(b) && |Encode(b)| <= VALUE_LIMIT + 9
    ensures Encodable(List([Data(a), b]))
  {
    hide Encode;
    EncodeLength(Data(a));
    var items := [Data(a), b];
    assert EncodeAll(items[1..]) == Encode(b) + EncodeAll([]) by {
      assert items[1..] == [b] && [b][1..] == [];
    }
  }

  lemma {:induction false} FitsEncodable(H: Hasher, t: Trie, n: int)
    requires Fits(t, n) && n <= KEY_LIMIT
    ensures Encodable(NodeItem(H, t)) && Encodable(Ref(H, t))
    decreases t
  {
    hide Encode, HexEncode, Blob;
    match t
    case Nil =>
    case Leaf(key, value) =>
      HexEncodeLength(key, true);
      EncodeLength(Data(value));
      PairEncodable(HexEncode(key, true), Data(value));
    case Ext(key, child) =>
      HexEncodeLength(key, false);
      FitsEncodable(H, child, n - |key|);
      RefSize(H, child);
      PairEncodable(HexEncode(key, false), Ref(H, child));
    case Branch(kids, value) =>
      forall i | 0 <= i < |kids|
        ensures Encodable(Ref(H, kids[i])) && |Encode(Ref(H, kids[i]))| <= 33
      {
        FitsEncodable(H, kids[i], n - 1);
        RefSize(H, kids[i]);
      }
      BranchEncodable(Refs(H, kids), value);
  }

  lemma BranchEncodable(refs: seq<Item>, value: Bytes)
    requires forall i | 0 <= i < |refs| :: Encodable(refs[i]) && |Encode(refs[i])| <= 33
    requires |refs| <= 16 && |value| < VALUE_LIMIT
    ensures Encodable(List(refs + [Data(value)]))
  {
    hide Encode;
    var last := [Data(value)];
    EncodeAllConcat(refs, last);
    EncodeAllBound(refs, 33);
    EncodeLength(Data(value));
    assert last[1..] == [] && EncodeAll([]) == [];
    assert EncodeAll(last) == Encode(Data(value)) + [];
  }

  /** Only the empty trie has the bytes of the empty trie. */
  lemma NilBlobOnly(H: Hasher, t: Trie, n: int)
    requires Fits(t, n) && n <= KEY_LIMIT
    ensures Blob(H, t) == Blob(H, Nil) ==> t == Nil
  {
    DecodeBlob(H, t, n);
    DecodeBlob(H, Nil, 0);
    hide Blob;
  }

  /** What is stored for a node reads back as the node. */
  lemma DecodeBlob(H: Hasher, t: Trie, n: int)
    requires Fits(t, n) && n <= KEY_LIMIT
    ensures Decode(Blob(H, t)) == Ok(NodeItem(H, t))
  {
    FitsEncodable(H, t, n);
    DecodeEncode(NodeItem(H, t));
  }

  lemma {:induction false} FitsMore(t: Trie, n: int, n': int)
    requires Fits(t, n) && n <= n'
    ensures Fits(t, n')
    decreases t
  {
    match t
    case Nil =>
    case Leaf(_, _) =>
    case Ext(key, child) => FitsMore(child, n - |key|, n' - |key|);
    case Branch(kids, _) =>
      forall i | 0 <= i < |kids|
        ensures Fits(kids[i], n' - 1)
      {
        FitsMore(kids[i], n - 1, n' - 1);
      }
  }

  lemma FitsCleved(t: Trie, n: int, s: nat)
    requires Fits(t, n) && TwoItem(t) && s <= |t.key|
    ensures Fits(Cleved(t, s), n) && Fits(t.(key := t.key[s..]), n - s)
  {
  }

  lemma FitsBranched(t: Trie, n: int)
    requires Fits(t, n) && TwoItem(t)
    ensures t.key != [] ==> Fits(AfterNibble(t), n - 1)
    ensures t.Leaf? || t.key != [] ==> Fits(Branched(t), n)
  {
  }

  /** Insertion makes no key longer than the old keys and the new one. */
  lemma {:induction false} FitsInsert(t: Trie, n: int, k: Nibbles, v: Bytes)
    requires WellShaped(t) && Fits(t, n) && |k| <= n && |v| < VALUE_LIMIT
    ensures Fits(Inserted(t, k, v), n)
    decreases |k|, Rank(t, k)
  {
    hide Shared;
    if t.Nil? {
    } else if t.Branch? {
      if k != [] {
        FitsInsert(t.kids[k[0]], n - 1, k[1..], v);
      }
    } else if t.Leaf? && t.key == k {
    } else if t.Ext? && t.key <= k {
      FitsInsert(t.child, n - |t.key|, k[|t.key|..], v);
    } else {
      var s := Shared(k, t.key);
      WellShapedSteps(t);
      FitsCleved(t, n, s);
      FitsBranched(t, n);
      if s > 0 {
        assert t.key[..s] <= k;
        FitsInsert(Cleved(t, s), n, k, v);
      } else {
        FitsInsert(Branched(t), n, k, v);
      }
    }
  }

  lemma FitsGrafted(key: Nibbles, t: Trie, n: int)
    requires Fits(t, n - |key|) && |key| <= n
    ensures Fits(Grafted(key, t), n)
  {
  }

  lemma FitsMerged(t: Trie, n: int)
    requires t.Branch? && |t.kids| == 16 && Fits(t, n)
    ensures Fits(Merged(t), n)
  {
    if exists i: nat :: OnlySlot(t, i) {
      var i: nat :| OnlySlot(t, i) && Merged(t) == MergedAt(t, i);
      if i < 16 {
        FitsGrafted([i], t.kids[i], n);
      }
    }
  }

  /** Deletion makes no key longer. */
  lemma {:induction false} FitsDelete(t: Trie, n: int, k: Nibbles)
    requires WellShaped(t) && Fits(t, n) && |k| <= n
    ensures Fits(Deleted(t, k), n)
    decreases t
  {
    match t
    case Nil =>
    case Leaf(_, _) =>
    case Ext(key, child) =>
      if key <= k {
        FitsDelete(child, n - |key|, k[|key|..]);
        FitsGrafted(key, Deleted(child, k[|key|..]), n);
      }
    case Branch(kids, value) =>
      if k != [] {
        FitsDelete(kids[k[0]], n - 1, k[1..]);
        FitsMerged(Branch(kids[k[0] := Deleted(kids[k[0]], k[1..])], value), n);
      } else {
        FitsMerged(Branch(kids, []), n);
      }
  }
}
