/**
 What an edit of the stored trie does to the store: which byte strings it may hold, which
 references each step gives up and takes on, and how the steps add up.
 */
module TrieEdit {
  import opened Bytes
  import opened Rlp
  import opened RlpReader
  import opened HexPrefix
  import opened Trie
  import opened TrieNode
  import opened StateCacheDB

  // ---- what the store may hold ----

  /** The hash function keeps these byte strings apart. */
  ghost predicate NoCollision(H: Hasher, seen: set<Bytes>)
  {
    forall a, b | a in seen && b in seen :: H(a) == H(b) ==> a == b
  }

  /** It does for any set on which it is injective, and for no other. */
  lemma KeptApart(H: Hasher, seen: set<Bytes>)
    ensures NoCollision(H, seen) <==> !exists a, b :: a in seen && b in seen && a != b && H(a) == H(b)
    ensures NoCollision(H, {}) && forall a: Bytes :: NoCollision(H, {a})
  {
  }

  predicate Used(item: Item) { item != Data([]) }

  ghost predicate OtherUsed(items: seq<Item>, i: nat)
  {
    exists j | 0 <= j < |items| && j != i :: Used(items[j])
  }

  /** A branch with one slot in use: a node no tree at rest contains. */
  ghost predicate LoneItem(item: Item)
  {
    && item.List? && |item.items| == 17
    && exists i | 0 <= i < 17 :: Used(item.items[i]) && !OtherUsed(item.items, i)
  }

  ghost predicate LoneBytes(b: Bytes)
  {
    Decode(b).Ok? && LoneItem(Decode(b).value)
  }

  /** Entries are filed under their own hash, were seen before, and none that is alive is a
      branch with one slot. */
  ghost predicate EntryOk(H: Hasher, main: Main, seen: set<Bytes>, h: Hash)
    requires h in main
  {
    H(main[h].bytes) == h && main[h].bytes in seen && (main[h].refs > 0 ==> !LoneBytes(main[h].bytes))
  }

  ghost predicate StoreOk(H: Hasher, main: Main, seen: set<Bytes>)
  {
    forall h | h in main :: EntryOk(H, main, seen, h)
  }

  lemma NilBlob(H: Hasher)
    ensures Blob(H, Nil) == [DATA_IMM_LEN_START]
  {
  }

  lemma RefUsed(H: Hasher, t: Trie)
    ensures Used(Ref(H, t)) == (t != Nil)
  {
    NilBlob(H);
    hide Blob;
  }

  lemma SlotUsed(H: Hasher, t: Trie, i: nat)
    requires t.Branch? && |t.kids| == 16 && i <= 16
    ensures Used(NodeItem(H, t).items[i]) == Slot(t, i)
  {
    hide Ref;
    if i < 16 {
      RefUsed(H, t.kids[i]);
    }
  }

  /** A branch item shows which slots of the branch are in use. */
  lemma OtherSlotUsed(H: Hasher, t: Trie, i: nat)
    requires t.Branch? && |t.kids| == 16 && i <= 16
    ensures OtherUsed(NodeItem(H, t).items, i) == UsedBeside(t, i)
  {
    hide NodeItem;
    assert |NodeItem(H, t).items| == 17 by { BranchItem(H, t); }
    if UsedBeside(t, i) {
      var j: nat :| j != i && Slot(t, j);
      SlotUsed(H, t, j);
    }
    if OtherUsed(NodeItem(H, t).items, i) {
      var j :| 0 <= j < 17 && j != i && Used(NodeItem(H, t).items[j]);
      SlotUsed(H, t, j);
    }
  }

  lemma BranchItem(H: Hasher, t: Trie)
    requires t.Branch?
    ensures NodeItem(H, t).List? && |NodeItem(H, t).items| == |t.kids| + 1
  {
  }

  lemma TwoItemItem(H: Hasher, t: Trie)
    requires !t.Branch?
    ensures t.Nil? ==> NodeItem(H, t) == Data([])
    ensures !t.Nil? ==> NodeItem(H, t).List? && |NodeItem(H, t).items| == 2
  {
  }

  /** Nodes at rest, and two-item nodes on the way, are not branches with one slot. */
  lemma NotLone(H: Hasher, t: Trie, n: int)
    requires Fits(t, n) && n <= KEY_LIMIT && (Canon(t) || TwoItem(t))
    ensures !LoneBytes(Blob(H, t))
  {
    DecodeBlob(H, t, n);
    hide Decode, Blob, NodeItem;
    if t.Branch? {
      forall i: nat | i < 17
        ensures OtherUsed(NodeItem(H, t).items, i)
      {
        assert UsedBeside(t, i);
        OtherSlotUsed(H, t, i);
      }
    } else {
      TwoItemItem(H, t);
    }
  }

  /** The branch that `branch` makes is one. */
  lemma FreshBranchIsLone(H: Hasher, t: Trie, k: Nibbles, n: int)
    requires t.Branch? && Ready(t, k) && !Canon(t) && Fits(t, n) && n <= KEY_LIMIT
    ensures LoneBytes(Blob(H, t))
  {
    DecodeBlob(H, t, n);
    hide Decode, Blob, NodeItem;
    var i: nat :| i <= 16 && !UsedBeside(t, i);
    var j: nat :| j != SlotOf(k) && Slot(t, j);
    assert i == j;
    BranchItem(H, t);
    OtherSlotUsed(H, t, i);
    SlotUsed(H, t, i);
  }

  // ---- reference counts across an edit ----

  /** The references a node holds, its own among them when it is one of the tree's nodes. */
  ghost function Held(H: Hasher, t: Trie, h: Hash): nat
  {
    (if Canon(t) then OwnCount(H, t, h) else 0) + ChildCount(H, t, h)
  }

  ghost predicate Covers(H: Hasher, main: Main, t: Trie)
  {
    forall h: Hash :: Count(main, h) >= Held(H, t, h)
  }

  /** The references of `t` were given up for those below `t'`; all other counts stand. */
  ghost predicate Rewired(H: Hasher, main: Main, main': Main, t: Trie, t': Trie)
  {
    forall h: Hash :: Count(main', h) + Held(H, t, h) == Count(main, h) + ChildCount(H, t', h)
  }

  /** The byte strings an insertion hashes: what it stores, and the fresh branch that
      `place` takes for one of the tree's nodes. */
  ghost function InsertTouch(H: Hasher, t: Trie, k: Nibbles, v: Bytes): set<Bytes>
    requires WellShaped(t)
    decreases |k|, Rank(t, k)
  {
    if t.Nil? then {}
    else if t.Branch? then
      if k == [] then {Blob(H, t)}
      else InsertTouch(H, t.kids[k[0]], k[1..], v) + {Blob(H, Inserted(t.kids[k[0]], k[1..], v))}
    else if t.Leaf? && t.key == k then {}
    else if t.Ext? && t.key <= k then
      InsertTouch(H, t.child, k[|t.key|..], v) + {Blob(H, Inserted(t.child, k[|t.key|..], v))}
    else
      var s := Shared(k, t.key);
      WellShapedSteps(t);
      if s > 0 then
        assert t.key[..s] <= k;
        InsertTouch(H, Cleved(t, s), k, v) + {Blob(H, t.(key := t.key[s..]))}
      else
        InsertTouch(H, Branched(t), k, v) + if t.key != [] then {Blob(H, AfterNibble(t))} else {}
  }

  /** What `mergeAt` is entered with, beside the node: a node of the tree is in line exactly
      when it is short, a node made on the way is always in line. */
  ghost predicate InLineOk(H: Hasher, t: Trie, inLine: bool)
  {
    if Canon(t) then inLine ==> !Hashed(H, t) else inLine
  }

  lemma CleveCounts(H: Hasher, t: Trie, s: nat, h: Hash)
    requires Canon(t) && TwoItem(t) && s <= |t.key|
    ensures ChildCount(H, t.(key := t.key[s..]), h) == ChildCount(H, t, h)
    ensures ChildCount(H, Cleved(t, s), h) == RefCount(H, t.(key := t.key[s..]), h)
  {
  }

  lemma OneKidCount(H: Hasher, i: nat, c: Trie, h: Hash)
    requires i < 16
    ensures KidCount(H, NO_KIDS, h) == 0 && KidCount(H, NO_KIDS[i := c], h) == RefCount(H, c, h)
  {
    hide KidCount, RefCount;
    KidCountNil(H, NO_KIDS, h);
    KidCountUpdate(H, NO_KIDS, i, c, h);
    RefCountNil(H, h);
  }

  /** `branch` gives a node of its own to what follows the nibble, unless that is the child. */
  predicate SplitsOff(t: Trie)
    requires TwoItem(t)
  {
    t.key != [] && (t.Leaf? || |t.key| > 1)
  }

  lemma BranchCounts(H: Hasher, t: Trie, h: Hash)
    requires Canon(t) && TwoItem(t)
    ensures ChildCount(H, Branched(t), h) ==
              ChildCount(H, t, h) + if SplitsOff(t) then OwnCount(H, AfterNibble(t), h) else 0
  {
    if t.key == [] {
      OneKidCount(H, 0, Nil, h);
    } else {
      OneKidCount(H, t.key[0], AfterNibble(t), h);
    }
    hide KidCount;
  }

  lemma RefCountNil(H: Hasher, h: Hash)
    ensures RefCount(H, Nil, h) == 0
  {
    NilBlob(H);
  }

  // ---- items of nodes ----

  lemma TwoItemParts(H: Hasher, t: Trie)
    requires TwoItem(t)
    ensures NodeItem(H, t).List? && |NodeItem(H, t).items| == 2
    ensures NodeItem(H, t) == List([NodeItem(H, t).items[0], NodeItem(H, t).items[1]])
    ensures NodeItem(H, t).items[0] == Data(HexEncode(t.key, t.Leaf?))
    ensures NodeItem(H, t).items[1] == if t.Leaf? then Data(t.value) else Ref(H, t.child)
    ensures KeyOf(HexEncode(t.key, t.Leaf?)) == t.key && IsLeafKey(HexEncode(t.key, t.Leaf?)) == t.Leaf?
  {
    RoundTrip(t.key, t.Leaf?);
  }

  lemma BranchParts(H: Hasher, t: Trie)
    requires t.Branch?
    ensures NodeItem(H, t).List? && |NodeItem(H, t).items| == |t.kids| + 1
    ensures NodeItem(H, t).items[..|t.kids|] == Refs(H, t.kids)
    ensures NodeItem(H, t).items[|t.kids|] == Data(t.value)
  {
  }

  /** A branch item with one reference replaced. */
  lemma BranchItemUpdate(H: Hasher, t: Trie, i: nat, c: Trie)
    requires t.Branch? && i < |t.kids|
    ensures NodeItem(H, t).List? && |NodeItem(H, t).items| == |t.kids| + 1
    ensures NodeItem(H, t).items[i] == Ref(H, t.kids[i])
    ensures NodeItem(H, Branch(t.kids[i := c], t.value)) == List(NodeItem(H, t).items[i := Ref(H, c)])
  {
    assert Refs(H, t.kids[i := c]) == Refs(H, t.kids)[i := Ref(H, c)];
    assert (Refs(H, t.kids) + [Data(t.value)])[i := Ref(H, c)] == Refs(H, t.kids)[i := Ref(H, c)] + [Data(t.value)];
  }

  const EMPTY_SLOTS: seq<Item> :=
    [Data([]), Data([]), Data([]), Data([]), Data([]), Data([]), Data([]), Data([]),
     Data([]), Data([]), Data([]), Data([]), Data([]), Data([]), Data([]), Data([])]

  lemma BranchedItem(H: Hasher, t: Trie)
    requires TwoItem(t) && (t.Ext? ==> t.key != [])
    ensures NodeItem(H, Branched(t)) ==
              if t.key == [] then List(EMPTY_SLOTS + [Data(t.value)])
              else List(EMPTY_SLOTS[t.key[0] := Ref(H, AfterNibble(t))] + [Data([])])
  {
    NilBlob(H);
    assert Ref(H, Nil) == Data([]);
    hide Ref;
    assert Refs(H, NO_KIDS) == EMPTY_SLOTS;
    if t.key != [] {
      assert Refs(H, NO_KIDS[t.key[0] := AfterNibble(t)]) == EMPTY_SLOTS[t.key[0] := Ref(H, AfterNibble(t))];
    }
  }

  /** What `cleve` has done once the old node is killed and the lower part is stored. */
  lemma CleveDone(H: Hasher, before: Main, main: Main, t: Trie, s: nat)
    requires Canon(t) && TwoItem(t) && s <= |t.key| && Stored(before, H, t) && Grows(before, main)
    requires var lower := t.(key := t.key[s..]);
             && (forall h: Hash :: Count(main, h) + OwnCount(H, t, h) == Count(before, h) + OwnCount(H, lower, h))
             && (Hashed(H, lower) ==> Lookup(main, H(Blob(H, lower))) == Blob(H, lower))
    ensures Stored(main, H, Cleved(t, s)) && Rewired(H, before, main, t, Cleved(t, s))
  {
    StoredGrows(before, main, H, t);
    assert Stored(main, H, t.(key := t.key[s..]));
    hide OwnCount, Blob;
    forall h: Hash
      ensures Count(main, h) + Held(H, t, h) == Count(before, h) + ChildCount(H, Cleved(t, s), h)
    {
      CleveCounts(H, t, s, h);
    }
  }

  lemma StoredNil(H: Hasher, main: Main)
    ensures StoredRef(main, H, Nil)
  {
    NilBlob(H);
  }

  lemma BranchedStored(H: Hasher, main: Main, t: Trie)
    requires Canon(t) && TwoItem(t) && Stored(main, H, t)
    requires SplitsOff(t) && Hashed(H, AfterNibble(t)) ==>
               Lookup(main, H(Blob(H, AfterNibble(t)))) == Blob(H, AfterNibble(t))
    ensures Stored(main, H, Branched(t))
  {
    hide Blob;
    StoredNil(H, main);
    if t.key != [] {
      assert StoredRef(main, H, AfterNibble(t));
      hide StoredRef;
    }
  }

  /** What `branch` has done once the old node is killed and the split-off one is stored. */
  lemma BranchedDone(H: Hasher, before: Main, main: Main, t: Trie)
    requires Canon(t) && TwoItem(t) && Stored(before, H, t) && Grows(before, main)
    requires forall h: Hash :: Count(main, h) + OwnCount(H, t, h) ==
               Count(before, h) + if SplitsOff(t) then OwnCount(H, AfterNibble(t), h) else 0
    requires SplitsOff(t) && Hashed(H, AfterNibble(t)) ==>
               Lookup(main, H(Blob(H, AfterNibble(t)))) == Blob(H, AfterNibble(t))
    ensures Stored(main, H, Branched(t)) && Rewired(H, before, main, t, Branched(t))
  {
    StoredGrows(before, main, H, t);
    BranchedStored(H, main, t);
    hide Blob, OwnCount, ChildCount, Stored, Branched;
    forall h: Hash
      ensures Count(main, h) + Held(H, t, h) == Count(before, h) + ChildCount(H, Branched(t), h)
    {
      BranchCounts(H, t, h);
    }
  }

  /** The fresh branch that `place` takes for one of the tree's nodes is not alive. */
  lemma FreshBranchNotAlive(H: Hasher, main: Main, seen: set<Bytes>, t: Trie, k: Nibbles, n: int)
    requires StoreOk(H, main, seen) && NoCollision(H, seen) && Blob(H, t) in seen
    requires t.Branch? && Ready(t, k) && !Canon(t) && Fits(t, n) && n <= KEY_LIMIT
    ensures Count(main, H(Blob(H, t))) == 0
  {
    var h := H(Blob(H, t));
    FreshBranchIsLone(H, t, k, n);
    assert h in main ==> EntryOk(H, main, seen, h);
  }

  /** The shape of an item tells the kind of its node. */
  lemma Shape(H: Hasher, t: Trie)
    requires t.Branch? ==> |t.kids| == 16
    ensures var item := NodeItem(H, t);
            && (item == Data([])) == t.Nil?
            && (!t.Nil? ==> item.List? && (|item.items| == 2) == TwoItem(t))
            && (t.Branch? ==> |item.items| == 17)
            && (TwoItem(t) ==> item.items[0].Data?)
            && (TwoItem(t) ==> KeyOf(item.items[0].bytes) == t.key && IsLeafKey(item.items[0].bytes) == t.Leaf?)
            && (t.Ext? ==> item.items[1] == Ref(H, t.child))
  {
    if TwoItem(t) {
      TwoItemParts(H, t);
    }
  }

  /** A reference is a hash, a node written in place, or nothing, and tells which. */
  lemma RefShape(H: Hasher, t: Trie)
    ensures var ref := Ref(H, t);
            && (!ref.List? && ref != Data([])) == Hashed(H, t)
            && (Hashed(H, t) ==> ref == Data(H(Blob(H, t))))
            && (!Hashed(H, t) ==> ref == NodeItem(H, t))
  {
    if t.Nil? {
      NilBlob(H);
    }
  }

  lemma RewiredTrans(H: Hasher, before: Main, mid: Main, main: Main, t: Trie, s: Trie, t': Trie)
    requires !Canon(s) && Rewired(H, before, mid, t, s) && Rewired(H, mid, main, s, t')
    ensures Rewired(H, before, main, t, t')
  {
    forall h: Hash
      ensures Count(main, h) + Held(H, t, h) == Count(before, h) + ChildCount(H, t', h)
    {
      assert Count(mid, h) + Held(H, t, h) == Count(before, h) + ChildCount(H, s, h);
      assert Count(main, h) + Held(H, s, h) == Count(mid, h) + ChildCount(H, t', h);
    }
  }

  lemma RewiredCovers(H: Hasher, before: Main, mid: Main, t: Trie, s: Trie)
    requires !Canon(s) && Covers(H, before, t) && Rewired(H, before, mid, t, s)
    ensures Covers(H, mid, s)
  {
    forall h: Hash
      ensures Count(mid, h) >= Held(H, s, h)
    {
      assert Count(mid, h) + Held(H, t, h) == Count(before, h) + ChildCount(H, s, h);
    }
  }

  /** The nodes `cleve` and `branch` make are not at rest. */
  lemma StepsAreNotCanon(t: Trie)
    requires Canon(t) && TwoItem(t)
    ensures forall s: nat | s <= |t.key| :: !Canon(Cleved(t, s))
    ensures !Canon(Branched(t))
  {
    var b := Branched(t);
    var i := if t.key == [] then 16 else t.key[0];
    assert forall j: nat | j != i :: !Slot(b, j);
    assert !UsedBeside(b, i);
  }

  /** An extension whose child was rewritten. */
  lemma ChildRewired(H: Hasher, before: Main, mid: Main, main: Main, t: Trie, c: Trie)
    requires t.Ext? && StoredRef(main, H, c)
    requires Released(H, before, mid, t) && RewiredRef(H, mid, main, t.child, c)
    ensures Stored(main, H, Ext(t.key, c)) && Rewired(H, before, main, t, Ext(t.key, c))
  {
    hide RefCount, OwnCount;
  }

  /** References to a child are all that a rewrite below it changes. */
  ghost predicate RewiredRef(H: Hasher, main: Main, main': Main, c: Trie, c': Trie)
  {
    forall h: Hash :: Count(main', h) + RefCount(H, c, h) == Count(main, h) + RefCount(H, c', h)
  }

  ghost predicate CoversRef(H: Hasher, main: Main, c: Trie)
  {
    forall h: Hash :: Count(main, h) >= RefCount(H, c, h)
  }

  /** The node itself has been given up: `killNode`, or nothing to do for a node made on the way. */
  ghost predicate Released(H: Hasher, before: Main, main: Main, t: Trie)
  {
    forall h: Hash :: Count(main, h) + (if Canon(t) then OwnCount(H, t, h) else 0) == Count(before, h)
  }

  /** A branch whose child i was rewritten. */
  lemma KidRewired(H: Hasher, before: Main, mid: Main, main: Main, t: Trie, i: nat, c: Trie)
    requires t.Branch? && i < |t.kids| && Stored(before, H, t) && StoredRef(main, H, c)
    requires Grows(before, mid) && Grows(mid, main)
    requires Released(H, before, mid, t) && RewiredRef(H, mid, main, t.kids[i], c)
    ensures var t' := Branch(t.kids[i := c], t.value);
            Stored(main, H, t') && Rewired(H, before, main, t, t')
  {
    StoredGrows(before, main, H, t);
    hide RefCount, OwnCount;
    var t' := Branch(t.kids[i := c], t.value);
    forall h: Hash
      ensures Count(main, h) + Held(H, t, h) == Count(before, h) + ChildCount(H, t', h)
    {
      KidCountUpdate(H, t.kids, i, c, h);
    }
  }

  lemma KidCovered(H: Hasher, main: Main, t: Trie, i: nat)
    requires t.Branch? && i < |t.kids|
    requires forall h: Hash :: Count(main, h) >= ChildCount(H, t, h)
    ensures CoversRef(H, main, t.kids[i])
  {
    forall h: Hash
      ensures Count(main, h) >= RefCount(H, t.kids[i], h)
    {
      KidCountUpdate(H, t.kids, i, Nil, h);
    }
  }

  /** All byte strings that inserting into a tree hashes. */
  ghost function InsertSeen(H: Hasher, t: Trie, k: Nibbles, v: Bytes): set<Bytes>
  {
    if WellShaped(t) then InsertTouch(H, t, k, v) + {Blob(H, Inserted(t, k, v))} else {}
  }

  lemma SeenMore(H: Hasher, main: Main, seen: set<Bytes>, seen': set<Bytes>)
    requires StoreOk(H, main, seen) && seen <= seen'
    ensures StoreOk(H, main, seen')
  {
    forall h | h in main
      ensures EntryOk(H, main, seen', h)
    {
      assert EntryOk(H, main, seen, h);
    }
  }

  // ---- deletion ----

  lemma SecondNibble(i: nibble)
    ensures AsNibbles([i])[1..] == Window(AsNibbles([i])[0..], 1, 2) == [i]
  {
    assert AsNibbles([i])[1] == NibbleAt([i], 1);
  }

  /** Joining a key to a two-item node changes nothing below the node. */
  lemma GraftedBelow(H: Hasher, main: Main, key: Nibbles, c: Trie)
    requires TwoItem(c)
    ensures NodeItem(H, Grafted(key, c)) == List([Data(HexEncode(key + c.key, c.Leaf?)), NodeItem(H, c).items[1]])
    ensures Stored(main, H, Grafted(key, c)) == Stored(main, H, c)
    ensures forall h: Hash :: ChildCount(H, Grafted(key, c), h) == ChildCount(H, c, h)
  {
  }

  /** The byte strings a deletion stores on its way back up. */
  ghost function DeleteTouch(H: Hasher, t: Trie, k: Nibbles): set<Bytes>
    requires WellShaped(t)
    decreases t
  {
    match t
    case Nil => {}
    case Leaf(_, _) => {}
    case Ext(key, child) =>
      if key <= k then
        DeleteTouch(H, child, k[|key|..]) + {Blob(H, Deleted(child, k[|key|..]))}
      else {}
    case Branch(kids, _) =>
      if k == [] then {}
      else DeleteTouch(H, kids[k[0]], k[1..]) + {Blob(H, Deleted(kids[k[0]], k[1..]))}
  }

  ghost function DeleteSeen(H: Hasher, t: Trie, k: Nibbles): set<Bytes>
  {
    if WellShaped(t) then DeleteTouch(H, t, k) + {Blob(H, Deleted(t, k))} else {}
  }

  /** `toHash`: at most 32 bytes, with zeros in front. */
  function ToHash(b: Bytes): Result<Hash>
  {
    if |b| > 32 then Throws(BadCast) else Ok(Padded(b))
  }

  function Padded(b: Bytes): Hash
    requires |b| <= 32
  {
    seq(32 - |b|, i requires 0 <= i < 32 - |b| => 0) + b
  }

  /** A string read as a hash is the last bytes of it, behind zeros. */
  lemma PaddedBytes(b: Bytes, i: nat)
    requires |b| <= 32 && i < 32
    ensures Padded(b)[i] == if i < 32 - |b| then 0 else b[i - (32 - |b|)]
  {
  }

  /** Read as a hash, a value is the hash of nothing that was hashed so far. */
  ghost predicate NotAHash(H: Hasher, seen: set<Bytes>, v: Bytes)
  {
    |v| <= 32 ==> forall b | b in seen :: H(b) != Padded(v)
  }

  lemma ReadAsHash(H: Hasher, seen: set<Bytes>, v: Bytes)
    ensures |v| > 32 ==> NotAHash(H, seen, v)
    ensures |v| <= 32 ==>
              (NotAHash(H, seen, v) <==> !exists b :: b in seen && H(b) == seq(32 - |v|, _ => 0) + v)
  {
  }

  /** That is so for the values stored under the proper prefixes of a key, the ones that
      `deleteAt` can take for references. */
  ghost predicate Apart(H: Hasher, seen: set<Bytes>, t: Trie, k: Nibbles)
  {
    forall p | p <= k && p != k && Has(t, p) :: NotAHash(H, seen, Get(t, p))
  }

  lemma NamesNothing(H: Hasher, main: Main, seen: set<Bytes>, v: Bytes)
    requires StoreOk(H, main, seen) && NotAHash(H, seen, v) && |v| <= 32
    ensures Lookup(main, Padded(v)) == []
  {
    var h := Padded(v);
    assert h in main ==> EntryOk(H, main, seen, h);
  }

  lemma ApartBelow(H: Hasher, seen: set<Bytes>, t: Trie, front: Nibbles, c: Trie, k: Nibbles)
    requires Apart(H, seen, t, k) && Below(t, front, c) && front <= k
    ensures Apart(H, seen, c, k[|front|..])
  {
    hide Get, NotAHash;
    var r := k[|front|..];
    assert k == front + r;
    forall p | p <= r && p != r && Has(c, p)
      ensures NotAHash(H, seen, Get(c, p))
    {
      PrefixUnderFront(front, p, r);
      assert Has(t, front + p);
    }
  }

  /** The references a failing deletion has given up when it fails: those of the branch that
      is left with its value, and of what was below it. */
  ghost function Lost(H: Hasher, t: Trie, k: Nibbles, h: Hash): nat
    requires WellShaped(t)
    decreases t
  {
    match t
    case Nil => 0
    case Leaf(_, _) => 0
    case Ext(key, child) => if key <= k then Lost(H, child, k[|key|..], h) else 0
    case Branch(kids, _) =>
      if k == [] then 0
      else if Fault(kids[k[0]], k[1..]).Some? then Lost(H, kids[k[0]], k[1..], h)
      else RefCount(H, kids[k[0]], h) + OwnCount(H, t, h)
  }

  ghost predicate LostBy(H: Hasher, before: Main, main: Main, t: Trie, k: Nibbles)
    requires WellShaped(t)
  {
    forall h: Hash :: Count(main, h) + Lost(H, t, k, h) == Count(before, h)
  }

  lemma LongItemsEncoded(items: seq<Item>, i: nat)
    requires i < |items|
    ensures |EncodeAll(items)| >= |Encode(items[i])|
  {
    if i > 0 {
      LongItemsEncoded(items[1..], i - 1);
    }
  }

  /** A branch with a value longer than a hash has a hash of its own. */
  lemma LongValueHashed(H: Hasher, t: Trie)
    requires t.Branch? && |t.kids| == 16 && |t.value| > 32
    ensures Hashed(H, t)
  {
    var items := NodeItem(H, t).items;
    assert items[16] == Data(t.value);
    LongItemsEncoded(items, 16);
  }

  /** A deletion that fails although the key is there has lost a reference to a node that is
      still needed; otherwise it has lost nothing. */
  lemma {:induction false} LostWhenStored(H: Hasher, t: Trie, k: Nibbles) returns (h: Hash)
    requires Canon(t) && WellShaped(t) && Fault(t, k).Some?
    ensures if Get(t, k) != [] then Lost(H, t, k, h) > 0 else forall x: Hash :: Lost(H, t, k, x) == 0
    decreases t
  {
    h := H([]);
    match t
    case Nil =>
    case Leaf(_, _) =>
    case Ext(key, child) =>
      h := LostWhenStored(H, child, k[|key|..]);
    case Branch(kids, value) =>
      if k != [] {
        if Fault(kids[k[0]], k[1..]).Some? {
          h := LostWhenStored(H, kids[k[0]], k[1..]);
        } else {
          h := H(Blob(H, t));
          LongValueHashed(H, t);
          LastBelowValue(t, k);
        }
      }
  }

  /** `uniqueInUse`: the only slot in use, slot `except` aside; 255 when there is no such slot. */
  method UniqueInUse(items: seq<Item>, except: nat) returns (used: nat)
    requires |items| == 17
    ensures var others := if except < 17 then items[except := Data([])] else items;
            if used == 255 then
              forall i: nat | i < 17 && Used(others[i]) :: OtherUsed(others, i)
            else
              used < 17 && Used(others[used]) && !OtherUsed(others, used)
  {
    ghost var others := if except < 17 then items[except := Data([])] else items;
    used := 255;
    for i := 0 to 17
      invariant if used == 255 then forall j | 0 <= j < i :: !Used(others[j])
                else used < i && Used(others[used]) && forall j | 0 <= j < i && j != used :: !Used(others[j])
    {
      if i != except && Used(items[i]) {
        if used == 255 {
          used := i;
        } else {
          assert Used(others[used]) && Used(others[i]);
          return 255;
        }
      }
    }
  }

  /** The slots of a branch, read off its item. */
  lemma UniqueSlot(H: Hasher, t: Trie, used: nat)
    requires t.Branch? && |t.kids| == 16
    requires var items := NodeItem(H, t).items;
             && |items| == 17
             && if used == 255 then forall i: nat | i < 17 && Used(items[i]) :: OtherUsed(items, i)
                else used < 17 && Used(items[used]) && !OtherUsed(items, used)
    ensures used == 255 ==> Merged(t) == t
    ensures used != 255 ==> OnlySlot(t, used) && Merged(t) == MergedAt(t, used)
  {
    BranchItem(H, t);
    hide NodeItem;
    forall i: nat | i < 17
      ensures OtherUsed(NodeItem(H, t).items, i) == UsedBeside(t, i)
      ensures Used(NodeItem(H, t).items[i]) == Slot(t, i)
    {
      OtherSlotUsed(H, t, i);
      SlotUsed(H, t, i);
    }
    if used != 255 {
      assert OnlySlot(t, used);
    }
  }

  /** All references below a branch with one child are that child's. */
  lemma {:induction false} OnlyKidCount(H: Hasher, kids: seq<Trie>, i: nat, h: Hash)
    requires i < |kids| && forall j | 0 <= j < |kids| && j != i :: kids[j] == Nil
    ensures KidCount(H, kids, h) == RefCount(H, kids[i], h)
  {
    hide RefCount;
    RefCountNil(H, h);
    if i == 0 {
      KidCountNil(H, kids[1..], h);
    } else {
      OnlyKidCount(H, kids[1..], i - 1, h);
    }
  }

  /** A kid has taken the place of the branch above it, or of the extension above it. */
  ghost predicate RewiredTo(H: Hasher, main: Main, main': Main, c: Trie, t': Trie)
  {
    forall h: Hash :: Count(main', h) + RefCount(H, c, h) == Count(main, h) + ChildCount(H, t', h)
  }

  /** The reference to the node below has been given up, if it had one of its own. */
  lemma GraftedCounts(H: Hasher, before: Main, main: Main, key: Nibbles, c: Trie)
    requires TwoItem(c) && CoversRef(H, before, c)
    requires forall h: Hash :: Count(main, h) ==
               Count(before, h) - if Hashed(H, c) && h == H(Blob(H, c)) && Count(before, h) > 0 then 1 else 0
    ensures RewiredTo(H, before, main, c, Grafted(key, c))
  {
    GraftedBelow(H, main, key, c);
    hide Blob, ChildCount;
    forall h: Hash
      ensures Count(main, h) + RefCount(H, c, h) == Count(before, h) + ChildCount(H, Grafted(key, c), h)
    {
      assert Count(before, h) >= RefCount(H, c, h);
    }
  }

  /** Child rewritten, node killed, child drawn up where it was due. */
  lemma ExtDeleted(H: Hasher, before: Main, mid: Main, killed: Main, main: Main, t: Trie, c: Trie, t': Trie)
    requires t.Ext? && Canon(t)
    requires RewiredRef(H, before, mid, t.child, c) && RewiredTo(H, killed, main, c, t')
    requires Released(H, mid, killed, t)
    ensures Rewired(H, before, main, t, t')
  {
    hide RefCount, OwnCount;
    forall h: Hash
      ensures Count(main, h) + Held(H, t, h) == Count(before, h) + ChildCount(H, t', h)
    {
      assert Count(mid, h) + RefCount(H, t.child, h) == Count(before, h) + RefCount(H, c, h);
      assert Count(main, h) + RefCount(H, c, h) == Count(killed, h) + ChildCount(H, t', h);
    }
  }

  lemma BranchDeleted(H: Hasher, before: Main, mid: Main, killed: Main, t: Trie, i: nat, c: Trie)
    requires t.Branch? && Canon(t) && i < 16
    requires RewiredRef(H, before, mid, t.kids[i], c) && Released(H, mid, killed, t)
    ensures Rewired(H, before, killed, t, Branch(t.kids[i := c], t.value))
  {
    hide RefCount, OwnCount;
    forall h: Hash
      ensures Count(killed, h) + Held(H, t, h) == Count(before, h) + ChildCount(H, Branch(t.kids[i := c], t.value), h)
    {
      KidCountUpdate(H, t.kids, i, c, h);
      assert Count(mid, h) + RefCount(H, t.kids[i], h) == Count(before, h) + RefCount(H, c, h);
    }
  }

  /** Rewriting a child leaves the branch's own reference in place. */
  lemma StillCovers(H: Hasher, before: Main, mid: Main, t: Trie, i: nat, c: Trie)
    requires t.Branch? && Canon(t) && i < 16
    requires Covers(H, before, t) && RewiredRef(H, before, mid, t.kids[i], c)
    ensures forall h: Hash :: Count(mid, h) >= OwnCount(H, t, h)
  {
    hide RefCount, OwnCount;
    forall h: Hash
      ensures Count(mid, h) >= OwnCount(H, t, h)
    {
      KidCountUpdate(H, t.kids, i, c, h);
      assert Count(before, h) >= Held(H, t, h);
      assert Count(mid, h) + RefCount(H, t.kids[i], h) == Count(before, h) + RefCount(H, c, h);
    }
  }

  /** The same for an extension, and the new child is covered. */
  lemma ChildStillCovers(H: Hasher, before: Main, mid: Main, t: Trie, c: Trie)
    requires t.Ext? && Canon(t)
    requires Covers(H, before, t) && RewiredRef(H, before, mid, t.child, c)
    ensures forall h: Hash :: Count(mid, h) >= OwnCount(H, t, h) + RefCount(H, c, h)
  {
    hide RefCount, OwnCount;
    forall h: Hash
      ensures Count(mid, h) >= OwnCount(H, t, h) + RefCount(H, c, h)
    {
      assert Count(before, h) >= Held(H, t, h);
      assert Count(mid, h) + RefCount(H, t.child, h) == Count(before, h) + RefCount(H, c, h);
    }
  }

  /** What a deletion through an extension comes down to. */
  lemma ChildToDelete(H: Hasher, seen: set<Bytes>, t: Trie, k: Nibbles, n: int)
    requires Canon(t) && WellShaped(t) && Apart(H, seen, t, k) && t.Ext? && t.key <= k
    requires Fits(t, n) && |k| <= n
    ensures WellShaped(t.child)
    ensures var rest := k[|t.key|..];
            var c := Deleted(t.child, rest);
            && Canon(t.child) && WellShaped(t.child) && Apart(H, seen, t.child, rest) && Fits(t.child, n - |t.key|)
            && Fault(t, k) == Fault(t.child, rest) && (forall h: Hash :: Lost(H, t, k, h) == Lost(H, t.child, rest, h))
            && c != Nil && Canon(c) && WellShaped(c) && Fits(c, n - |t.key|)
            && Get(t, k) == Get(t.child, rest) && Deleted(t, k) == Grafted(t.key, c)
            && DeleteTouch(H, t, k) == DeleteTouch(H, t.child, rest) + {Blob(H, c)}
  {
    var rest := k[|t.key|..];
    BelowExt(t);
    ApartBelow(H, seen, t, t.key, t.child, k);
    DeleteCanon(t.child, rest);
    CanonIsWellShaped(Deleted(t.child, rest));
    FitsDelete(t.child, n - |t.key|, rest);
  }

  /** What a deletion below a branch comes down to. */
  lemma KidToDelete(H: Hasher, seen: set<Bytes>, t: Trie, k: Nibbles, n: int)
    requires Canon(t) && WellShaped(t) && Apart(H, seen, t, k) && t.Branch? && k != []
    requires Fits(t, n) && |k| <= n
    ensures |t.kids| == 16 && WellShaped(t.kids[k[0]])
    ensures var kid, rest := t.kids[k[0]], k[1..];
            var c := Deleted(kid, rest);
            var t' := KidDeleted(t, k);
            && Canon(kid) && WellShaped(kid) && Apart(H, seen, kid, rest) && Fits(kid, n - 1)
            && t' == Branch(t.kids[k[0] := c], t.value)
            && Canon(c) && WellShaped(c) && Fits(t', n)
            && Get(t, k) == Get(kid, rest) && Deleted(t, k) == Merged(t')
            && (t.value != [] ==> NotAHash(H, seen, t.value))
            && DeleteTouch(H, t, k) == DeleteTouch(H, kid, rest) + {Blob(H, c)}
  {
    BelowKid(t, k[0]);
    ApartBelow(H, seen, t, [k[0]], t.kids[k[0]], k);
    assert Get(t, []) == t.value;
    assert [] <= k && (t.value != [] ==> Has(t, []));
    DeleteCanon(t.kids[k[0]], k[1..]);
    CanonIsWellShaped(Deleted(t.kids[k[0]], k[1..]));
    FitsDelete(t.kids[k[0]], n - 1, k[1..]);
  }

  /** A branch whose child has been deleted, and with it the last key beside its value. */
  lemma AllBelowLost(H: Hasher, before: Main, mid: Main, main: Main, t: Trie, i: nat, c: Trie)
    requires t.Branch? && |t.kids| == 16 && i < 16 && OnlySlot(Branch(t.kids[i := c], t.value), 16)
    requires Canon(t) && RewiredRef(H, before, mid, t.kids[i], c) && Released(H, mid, main, t)
    ensures forall h: Hash :: Count(main, h) + RefCount(H, t.kids[i], h) + OwnCount(H, t, h) == Count(before, h)
  {
    var s := Branch(t.kids[i := c], t.value);
    assert !Slot(s, i);
    hide RefCount, OwnCount;
    forall h: Hash
      ensures Count(main, h) + RefCount(H, t.kids[i], h) + OwnCount(H, t, h) == Count(before, h)
    {
      RefCountNil(H, h);
      assert Count(mid, h) + RefCount(H, t.kids[i], h) == Count(before, h) + RefCount(H, c, h);
    }
  }

  /** A branch with nothing but its value becomes a leaf. */
  lemma ValueDrawnUp(H: Hasher, before: Main, main: Main, t: Trie, s: Trie)
    requires s.Branch? && |s.kids| == 16 && OnlySlot(s, 16) && Rewired(H, before, main, t, s)
    ensures Rewired(H, before, main, t, Leaf([], s.value))
  {
    forall j | 0 <= j < 16
      ensures s.kids[j] == Nil
    {
      assert !Slot(s, j);
    }
    hide Held;
    forall h: Hash
      ensures Count(main, h) + Held(H, t, h) == Count(before, h) + ChildCount(H, Leaf([], s.value), h)
    {
      KidCountNil(H, s.kids, h);
      assert Count(main, h) + Held(H, t, h) == Count(before, h) + ChildCount(H, s, h);
    }
  }

  /** The last child of a branch drawn up in its place. */
  lemma KidDrawnUp(H: Hasher, before: Main, mid: Main, main: Main, t: Trie, s: Trie, i: nat, t': Trie)
    requires s.Branch? && |s.kids| == 16 && i < 16 && OnlySlot(s, i)
    requires Rewired(H, before, mid, t, s) && RewiredTo(H, mid, main, s.kids[i], t')
    ensures Rewired(H, before, main, t, t')
  {
    forall j | 0 <= j < 16 && j != i
      ensures s.kids[j] == Nil
    {
      assert !Slot(s, j);
    }
    hide RefCount, Held;
    forall h: Hash
      ensures Count(main, h) + Held(H, t, h) == Count(before, h) + ChildCount(H, t', h)
    {
      OnlyKidCount(H, s.kids, i, h);
      assert Count(main, h) + RefCount(H, s.kids[i], h) == Count(mid, h) + ChildCount(H, t', h);
      assert Count(mid, h) + Held(H, t, h) == Count(before, h) + ChildCount(H, s, h);
    }
  }

  lemma KidDrawnUpCovers(H: Hasher, before: Main, mid: Main, t: Trie, s: Trie, i: nat)
    requires s.Branch? && i < |s.kids| && Canon(t) && Covers(H, before, t) && Rewired(H, before, mid, t, s)
    ensures CoversRef(H, mid, s.kids[i])
  {
    hide RefCount, Held;
    forall h: Hash
      ensures Count(mid, h) >= RefCount(H, s.kids[i], h)
    {
      KidCountUpdate(H, s.kids, i, Nil, h);
      assert Count(mid, h) + Held(H, t, h) == Count(before, h) + ChildCount(H, s, h);
    }
  }
}
