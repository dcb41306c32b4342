/**
 The iterator of `GenericTrieDB`: a trail of nodes from the root to the current entry, moved
 in place from entry to entry.
 */
module TrieIterator {
  import opened Bytes
  import opened Rlp
  import opened HexPrefix
  import opened Trie
  import opened TrieNode
  import opened TrieEdit
  import opened StateCacheDB
  import opened TrieDB
  import opened TrieBuild
  import opened TrieMap
  import opened TrieWalk

  // ---- the trail ----

  const ENTERING: nat := 255
  const AT_VALUE: nat := 16
  const FINISHED: nat := 17

  /** A node of the trail: its bytes, read as an item; its key, hex-prefix encoded; and the
      child it stands at. */
  datatype Node = Node(rlp: Item, key: Bytes, child: nat)

  /** `incrementChild`. */
  function NextChild(child: nat): nat
  {
    if child == 16 then 0 else if child == 15 then 17 else child + 1
  }

  /** What a branch has to give from a child on, when the search below that child is for `k`. */
  function FromChild(t: Trie, path: Nibbles, child: nat, k: Nibbles): seq<Pair>
    requires t.Branch? && |t.kids| == 16
  {
    if child == AT_VALUE then Walk(t, path)
    else if child < 16 then
      NotBefore(Walk(t.kids[child], path + [child]), path + [child] + k) + WalkKids(t.kids, child + 1, path)
    else []
  }

  /** What a node on the trail still has to give, beside the entry it stands at. */
  function Pending(t: Trie, path: Nibbles, child: nat, k: Nibbles): seq<Pair>
  {
    if child == ENTERING then NotBefore(Walk(t, path), path + k)
    else if t.Branch? && |t.kids| == 16 then FromChild(t, path, NextChild(child), [])
    else []
  }

  /** What the whole trail still has to give, the innermost node first. */
  function Rest(trail: seq<Node>, nodes: seq<Trie>, k: Nibbles): seq<Pair>
    requires |trail| == |nodes|
  {
    if trail == [] then []
    else
      var last := |trail| - 1;
      Pending(nodes[last], KeyOf(trail[last].key), trail[last].child, k) + Rest(trail[..last], nodes[..last], [])
  }

  /** The steps left below a node. */
  function Weight(t: Trie): nat
    decreases t, 0
  {
    match t
    case Nil => 1
    case Leaf(_, _) => 2
    case Ext(_, child) => 1 + Weight(child)
    case Branch(kids, _) => 3 + KidWeight(kids, 0)
  }

  function KidWeight(kids: seq<Trie>, i: nat): nat
    decreases kids, 1, |kids| - i
  {
    if i >= |kids| then 0 else Weight(kids[i]) + 1 + KidWeight(kids, i + 1)
  }

  function PendingWeight(t: Trie, child: nat): nat
  {
    if child == ENTERING then Weight(t)
    else if !t.Branch? then 1
    else if child == AT_VALUE then 1 + KidWeight(t.kids, 0)
    else 1 + KidWeight(t.kids, child + 1)
  }

  function TrailWeight(trail: seq<Node>, nodes: seq<Trie>): nat
    requires |trail| == |nodes|
  {
    if trail == [] then 0
    else
      var last := |trail| - 1;
      PendingWeight(nodes[last], trail[last].child) + TrailWeight(trail[..last], nodes[..last])
  }

  lemma RestOfPush(trail: seq<Node>, nodes: seq<Trie>, x: Node, t: Trie, k: Nibbles)
    requires |trail| == |nodes|
    ensures Rest(trail + [x], nodes + [t], k) == Pending(t, KeyOf(x.key), x.child, k) + Rest(trail, nodes, [])
    ensures TrailWeight(trail + [x], nodes + [t]) == PendingWeight(t, x.child) + TrailWeight(trail, nodes)
  {
    assert (trail + [x])[..|trail|] == trail && (nodes + [t])[..|trail|] == nodes;
  }

  lemma {:induction false} KidWeightFrom(kids: seq<Trie>, i: nat, j: nat)
    requires i <= j < |kids|
    ensures KidWeight(kids, i) >= Weight(kids[j]) + 1 + KidWeight(kids, j + 1)
    decreases j - i
  {
    if i < j {
      KidWeightFrom(kids, i + 1, j);
    }
  }

  lemma PositiveWeight(t: Trie, child: nat)
    ensures PendingWeight(t, child) > 0
  {
  }

  /** A child still to come weighs less than what its branch has left. */
  lemma ScanWeight(t: Trie, was: nat, child: nat)
    requires t.Branch? && |t.kids| == 16 && child < 16
    requires was == ENTERING || was == AT_VALUE || was < child
    ensures PendingWeight(t, child) + Weight(t.kids[child]) < PendingWeight(t, was)
  {
    hide Weight;
    if was == AT_VALUE || was == ENTERING {
      KidWeightFrom(t.kids, 0, child);
      BranchWeight(t);
    } else {
      KidWeightFrom(t.kids, was + 1, child);
    }
  }

  lemma BranchWeight(t: Trie)
    requires t.Branch?
    ensures Weight(t) == 3 + KidWeight(t.kids, 0)
  {
  }

  /** Standing at an empty slot gives nothing: go on to the next, with nothing left to look for. */
  lemma FromEmptySlot(t: Trie, path: Nibbles, child: nat, k: Nibbles)
    requires t.Branch? && |t.kids| == 16 && child <= 16 && !Slot(t, child)
    ensures FromChild(t, path, child, k) == FromChild(t, path, NextChild(child), [])
  {
    hide NotBefore;
    if child == AT_VALUE {
      KidsAsChild(t, path, 0);
      assert [] + WalkKids(t.kids, 0, path) == WalkKids(t.kids, 0, path);
    } else {
      NothingBefore(path + [child] + k);
      assert [] + WalkKids(t.kids, child + 1, path) == WalkKids(t.kids, child + 1, path);
      if child < 15 {
        KidsAsChild(t, path, child + 1);
      }
    }
  }

  lemma NothingBefore(k: Nibbles)
    ensures NotBefore([], k) == []
  {
  }

  lemma KidsAsChild(t: Trie, path: Nibbles, child: nat)
    requires t.Branch? && |t.kids| == 16 && child < 16
    ensures FromChild(t, path, child, []) == WalkKids(t.kids, child, path)
  {
    hide NotBefore, Walk;
    WalkFromPath(t.kids[child], path + [child]);
  }

  /** Entering a child: its entries come before what follows it. */
  lemma FromChildSlot(t: Trie, path: Nibbles, child: nat, k: Nibbles)
    requires t.Branch? && |t.kids| == 16 && child < 16
    ensures FromChild(t, path, child, k) ==
            NotBefore(Walk(t.kids[child], path + [child]), path + [child] + k) + Pending(t, path, child, [])
  {
    hide NotBefore, Walk;
    if child < 15 {
      KidsAsChild(t, path, child + 1);
    }
  }

  /** Standing at a branch's own value. */
  lemma FromValue(t: Trie, path: Nibbles)
    requires t.Branch? && |t.kids| == 16 && t.value != []
    ensures FromChild(t, path, AT_VALUE, []) == [Pair(path, t.value)] + Pending(t, path, AT_VALUE, [])
  {
    hide NotBefore;
    KidsAsChild(t, path, 0);
  }

  /** Entering a branch. */
  lemma EnterBranch(t: Trie, path: Nibbles, k: Nibbles)
    requires t.Branch? && |t.kids| == 16
    ensures Pending(t, path, ENTERING, k) ==
            if k == [] then FromChild(t, path, AT_VALUE, []) else FromChild(t, path, k[0], k[1..])
  {
    hide Walk, WalkKids, NotBefore;
    if k == [] {
      WalkFromPath(t, path);
    } else {
      assert [k[0]] + k[1..] == k;
      BranchFrom(t, path, k[0], k[1..]);
    }
  }

  /** The key that led to the node, with any key below it, is within the limit. */
  ghost predicate HasRoom(x: Node, t: Trie)
  {
    && |KeyOf(x.key)| <= KEY_LIMIT
    && Fits(t, if t.Leaf? && x.child == 0 then KEY_LIMIT else KEY_LIMIT - |KeyOf(x.key)|)
  }

  ghost predicate NodeOk(H: Hasher, main: Main, x: Node, t: Trie)
  {
    && x.rlp == NodeItem(H, t) && Canon(t) && Stored(main, H, t) && HasRoom(x, t)
    && x.key == HexEncode(KeyOf(x.key), false)
    && (x.child == ENTERING || (t.Leaf? && x.child == 0) || (t.Branch? && x.child <= 16))
  }

  ghost predicate TrailOk(H: Hasher, main: Main, trail: seq<Node>, nodes: seq<Trie>)
  {
    |trail| == |nodes| && forall i | 0 <= i < |trail| :: NodeOk(H, main, trail[i], nodes[i])
  }

  lemma TrailOkPush(H: Hasher, main: Main, trail: seq<Node>, nodes: seq<Trie>, x: Node, t: Trie)
    requires TrailOk(H, main, trail, nodes) && NodeOk(H, main, x, t)
    ensures TrailOk(H, main, trail + [x], nodes + [t])
  {
    hide NodeOk;
  }

  lemma TrailOkPop(H: Hasher, main: Main, trail: seq<Node>, nodes: seq<Trie>)
    requires TrailOk(H, main, trail, nodes) && trail != []
    ensures var last := |trail| - 1;
            && TrailOk(H, main, trail[..last], nodes[..last]) && NodeOk(H, main, trail[last], nodes[last])
            && trail == trail[..last] + [trail[last]] && nodes == nodes[..last] + [nodes[last]]
  {
    hide NodeOk;
  }

  /** A key that went through one more piece. */
  lemma LongerKey(path: Nibbles, more: Nibbles)
    ensures KeyOf(HexEncode(path + more, false)) == path + more
  {
    RoundTrip(path + more, false);
  }

  /** An even number of nibbles fills the bytes behind the flag. */
  lemma WholeBytes(n: Nibbles)
    requires !Odd(|n|)
    ensures HexEncode(n, false) != [] && AsNibbles(HexEncode(n, false)[1..]) == n
  {
    hide Pack;
    var all := Prefix(false, false) + n;
    AsNibblesOfPack(all);
    BehindFlag(Pack(all));
  }

  lemma BehindFlag(hpe: Bytes)
    ensures hpe != [] ==> AsNibbles(hpe[1..]) == AsNibbles(hpe)[2..]
  {
  }

  lemma EmptyKey()
    ensures HexEncode([], false) == [0] && KeyOf([0]) == []
  {
    RoundTrip([], false);
  }

  lemma NodeParts(H: Hasher, main: Main, x: Node, t: Trie)
    requires NodeOk(H, main, x, t)
    ensures x.rlp == NodeItem(H, t) && Canon(t) && Stored(main, H, t) && Fits(t, KEY_LIMIT)
    ensures x.key == HexEncode(KeyOf(x.key), false) && WellShaped(t)
    ensures t.Branch? ==> |t.kids| == 16
    ensures |KeyOf(x.key)| <= KEY_LIMIT
    ensures x.child == ENTERING || !t.Leaf? ==> Fits(t, KEY_LIMIT - |KeyOf(x.key)|)
  {
    hide KeyOf, HexEncode, NodeItem, Stored;
    CanonIsWellShaped(t);
    if x.child == ENTERING || !t.Leaf? {
      FitsMore(t, KEY_LIMIT - |KeyOf(x.key)|, KEY_LIMIT);
    }
  }

  lemma BranchOk(H: Hasher, main: Main, x: Node, y: Node, t: Trie)
    requires NodeOk(H, main, x, t) && t.Branch? && y.child <= 16
    requires y.rlp == x.rlp && y.key == x.key
    ensures NodeOk(H, main, y, t)
  {
  }

  lemma LeafOk(H: Hasher, main: Main, x: Node, y: Node, t: Trie)
    requires NodeOk(H, main, x, t) && t.Leaf?
    requires y.rlp == x.rlp && y.child == 0 && y.key == HexEncode(KeyOf(y.key), false)
    requires |KeyOf(y.key)| <= KEY_LIMIT
    ensures NodeOk(H, main, y, t)
  {
    NodeParts(H, main, x, t);
  }

  /** What a child reached through its reference, by a key of some length, brings along. */
  ghost predicate ChildOk(main: Main, H: Hasher, c: Trie, depth: nat)
  {
    && c != Nil && Canon(c) && WellShaped(c) && StoredRef(main, H, c)
    && depth <= KEY_LIMIT && Fits(c, KEY_LIMIT - depth) && Fits(c, KEY_LIMIT)
  }

  lemma ExtChildOk(main: Main, H: Hasher, t: Trie, depth: nat)
    requires t.Ext? && Canon(t) && Stored(main, H, t) && Fits(t, KEY_LIMIT - depth)
    ensures ChildOk(main, H, t.child, depth + |t.key|)
  {
    CanonIsWellShaped(t.child);
    FitsMore(t.child, KEY_LIMIT - depth - |t.key|, KEY_LIMIT);
  }

  lemma KidOk(main: Main, H: Hasher, t: Trie, i: nat, depth: nat)
    requires t.Branch? && Canon(t) && Stored(main, H, t) && Fits(t, KEY_LIMIT - depth) && i < |t.kids| && Slot(t, i)
    ensures ChildOk(main, H, t.kids[i], depth + 1)
  {
    CanonIsWellShaped(t.kids[i]);
    FitsMore(t.kids[i], KEY_LIMIT - depth - 1, KEY_LIMIT);
  }

  lemma EnteringOk(H: Hasher, main: Main, x: Node, c: Trie, path: Nibbles)
    requires ChildOk(main, H, c, |path|) && x == Node(NodeItem(H, c), HexEncode(path, false), ENTERING)
    ensures NodeOk(H, main, x, c) && KeyOf(x.key) == path
  {
    RoundTrip(path, false);
  }

  /** The node stands at an entry. */
  predicate AtEntry(x: Node, t: Trie)
  {
    (t.Leaf? && x.child == 0) || (t.Branch? && x.child == AT_VALUE && t.value != [])
  }

  function EntryOf(x: Node, t: Trie): Pair
    requires AtEntry(x, t)
  {
    Pair(KeyOf(x.key), t.value)
  }

  /** The iterator stands at the first of these entries and the others are to come; or it
      has ended, and there are none. */
  ghost predicate StandsAt(trail: seq<Node>, nodes: seq<Trie>, es: seq<Pair>)
    requires |trail| == |nodes|
  {
    if es == [] then trail == []
    else
      && trail != []
      && AtEntry(trail[|trail| - 1], nodes[|trail| - 1])
      && es == [EntryOf(trail[|trail| - 1], nodes[|trail| - 1])] + Rest(trail, nodes, [])
  }

  lemma StopHere(trail: seq<Node>, nodes: seq<Trie>, x: Node, t: Trie, p: Pair, es: seq<Pair>)
    requires |trail| == |nodes| && AtEntry(x, t) && p == EntryOf(x, t)
    requires es == [p] + Pending(t, KeyOf(x.key), x.child, []) + Rest(trail, nodes, [])
    ensures StandsAt(trail + [x], nodes + [t], es)
  {
    hide Pending, Rest, KeyOf, EntryOf, AtEntry, TrailWeight, PendingWeight;
    RestOfPush(trail, nodes, x, t, []);
    FirstOfThree([p], Pending(t, KeyOf(x.key), x.child, []), Rest(trail, nodes, []));
  }

  lemma FirstOfThree(a: seq<Pair>, b: seq<Pair>, c: seq<Pair>)
    ensures a + b + c == a + (b + c)
  {
  }

  /** A search is under way only at a node just entered. */
  predicate Searching(trail: seq<Node>, k: Nibbles)
  {
    k == [] || (trail != [] && trail[|trail| - 1].child == ENTERING)
  }

  class Iterator {
    const that: TrieDB
    var trail: seq<Node>
    ghost var nodes: seq<Trie>

    ghost predicate Valid()
      reads this, that, that.db
    {
      that.Valid() && TrailOk(that.sha3, that.db.main, trail, nodes)
    }

    /** `pop_back`. */
    method Pop()
      requires Valid() && trail != []
      modifies this
      ensures Valid()
      ensures trail == old(trail)[..|old(trail)| - 1] && nodes == old(nodes)[..|old(trail)| - 1]
      ensures TrailWeight(trail, nodes) < old(TrailWeight(trail, nodes))
    {
      hide NodeOk, Weight, KidWeight;
      TrailOkPop(that.sha3, that.db.main, trail, nodes);
      PositiveWeight(nodes[|trail| - 1], trail[|trail| - 1].child);
      trail, nodes := trail[..|trail| - 1], nodes[..|trail| - 1];
    }

    /** Entering a leaf or an extension, with `k` to be looked for below it. */
    method EnterTwoItem(k: Nibbles) returns (found: bool, k': Nibbles)
      requires Valid() && trail != []
      requires TwoItem(nodes[|trail| - 1]) && trail[|trail| - 1].child == ENTERING
      modifies this
      ensures Valid() && Searching(trail, k')
      ensures found ==> StandsAt(trail, nodes, old(Rest(trail, nodes, k)))
      ensures !found ==>
                && Rest(trail, nodes, k') == old(Rest(trail, nodes, k))
                && TrailWeight(trail, nodes) < old(TrailWeight(trail, nodes))
    {
      hide NodeOk, NodeItem, Ref, Stored, Canon, WellShaped, Fits, HexEncode, KeyOf, IsLeafKey;
      hide Walk, WalkKids, NotBefore, Less, Rest, TrailWeight, StandsAt;
      var last := |trail| - 1;
      var b := trail[last];
      ghost var t := nodes[last];
      var lower := trail[..last];
      ghost var below := nodes[..last];
      TrailOkPop(that.sha3, that.db.main, trail, nodes);
      RestOfPush(lower, below, b, t, k);
      NodeParts(that.sha3, that.db.main, b, t);
      Shape(that.sha3, t);
      TwoItemFrom(t, KeyOf(b.key), k);
      var q := KeyOf(b.rlp.items[0].bytes);
      k' := k;
      if !(q <= k') {
        var earlier := IsEarlierThan(k', q);
        if !earlier {
          Pop();
          return false, [];
        }
        k' := [];
      }
      k' := k'[if |k'| < |q| then |k'| else |q|..];
      assert k' == AfterKey(q, k);
      KeyFitsNode(t, KEY_LIMIT - |KeyOf(b.key)|);
      var key := EncodeKeys(b.key, b.rlp.items[0].bytes, false);
      LongerKey(KeyOf(b.key), q);
      if IsLeafKey(b.rlp.items[0].bytes) {
        if k' == [] {
          StopAtLeaf(b, key, t);
          return true, [];
        }
        Pop();
        return false, [];
      }
      EnterChild(b, key, k', t);
      return false, k';
    }

    /** A leaf is the next entry itself. */
    method StopAtLeaf(b: Node, key: Bytes, ghost t: Trie)
      requires Valid() && trail != [] && b == trail[|trail| - 1] && t == nodes[|trail| - 1] && t.Leaf?
      requires key == HexEncode(KeyOf(key), false) && |KeyOf(key)| <= KEY_LIMIT
      modifies this
      ensures Valid() && trail != []
      ensures StandsAt(trail, nodes, [Pair(KeyOf(key), t.value)]
                                     + Rest(old(trail[..|trail| - 1]), old(nodes[..|trail| - 1]), []))
    {
      hide NodeOk, NodeItem, Stored, Canon, Fits, HexEncode, KeyOf, Rest, TrailWeight;
      var lower := trail[..|trail| - 1];
      ghost var below := nodes[..|trail| - 1];
      var here := Node(b.rlp, key, 0);
      TrailOkPop(that.sha3, that.db.main, trail, nodes);
      LeafOk(that.sha3, that.db.main, b, here, t);
      TrailOkPush(that.sha3, that.db.main, lower, below, here, t);
      PendingAt(t, KeyOf(key), 0);
      var p := Pair(KeyOf(key), t.value);
      assert [p] + [] == [p];
      StopHere(lower, below, here, t, p, [p] + Rest(lower, below, []));
      trail, nodes := lower + [here], below + [t];
    }

    /** The child of an extension takes its place. */
    method EnterChild(b: Node, key: Bytes, ghost k: Nibbles, ghost t: Trie)
      requires Valid() && trail != [] && b == trail[|trail| - 1] && t == nodes[|trail| - 1]
      requires t.Ext? && b.child == ENTERING
      requires KeyOf(key) == KeyOf(b.key) + t.key && key == HexEncode(KeyOf(b.key) + t.key, false)
      modifies this
      ensures Valid() && trail != [] && trail[|trail| - 1].child == ENTERING
      ensures Rest(trail, nodes, k) == NotBefore(Walk(t.child, KeyOf(key)), KeyOf(key) + k)
                                       + Rest(old(trail[..|trail| - 1]), old(nodes[..|trail| - 1]), [])
      ensures TrailWeight(trail, nodes) < old(TrailWeight(trail, nodes))
    {
      hide NodeOk, NodeItem, Ref, Stored, Canon, Fits, HexEncode, KeyOf;
      hide Walk, WalkKids, NotBefore, Less, Rest, TrailWeight;
      var lower := trail[..|trail| - 1];
      ghost var below := nodes[..|trail| - 1];
      TrailOkPop(that.sha3, that.db.main, trail, nodes);
      RestOfPush(lower, below, b, t, k);
      NodeParts(that.sha3, that.db.main, b, t);
      TwoItemParts(that.sha3, t);
      ExtChildOk(that.db.main, that.sha3, t, |KeyOf(b.key)|);
      var x := Node(that.Deref(b.rlp.items[1], t.child, KEY_LIMIT), key, ENTERING);
      EnteringOk(that.sha3, that.db.main, x, t.child, KeyOf(key));
      trail, nodes := lower + [x], below + [t.child];
      TrailOkPush(that.sha3, that.db.main, lower, below, x, t.child);
      RestOfPush(lower, below, x, t.child, k);
    }

    /** `begin`: at the first entry of the whole tree. */
    constructor Begin(that: TrieDB)
      requires that.Valid()
      ensures Valid() && this.that == that && StandsAt(trail, nodes, Walk(that.trie, []))
    {
      this.that := that;
      trail, nodes := [], [];
      new;
      PushRoot([]);
      WalkFromPath(that.trie, []);
      Next([]);
    }

    /** `lower_bound`: at the first entry that is not before a key. */
    constructor LowerBound(that: TrieDB, fullKey: Bytes)
      requires that.Valid()
      ensures Valid() && this.that == that
      ensures StandsAt(trail, nodes, NotBefore(Walk(that.trie, []), AsNibbles(Counted(fullKey))))
    {
      this.that := that;
      trail, nodes := [], [];
      new;
      var key := AsNibbles(Counted(fullKey));
      PushRoot(key);
      assert [] + key == key;
      Next(key);
    }

    /** `at`: the bytes of the key, and the value. */
    method Entry() returns (key: Bytes, value: Bytes)
      requires Valid() && trail != [] && AtEntry(trail[|trail| - 1], nodes[|trail| - 1])
      requires !Odd(|KeyOf(trail[|trail| - 1].key)|)
      ensures Pair(AsNibbles(key), value) == EntryOf(trail[|trail| - 1], nodes[|trail| - 1])
    {
      hide NodeItem, Stored, Canon, Fits, HexEncode, KeyOf, AsNibbles;
      var b := trail[|trail| - 1];
      ghost var t := nodes[|trail| - 1];
      NodeParts(that.sha3, that.db.main, b, t);
      WholeBytes(KeyOf(b.key));
      if t.Leaf? {
        TwoItemParts(that.sha3, t);
      } else {
        BranchParts(that.sha3, t);
      }
      return b.key[1..], b.rlp.items[if |b.rlp.items| == 2 then 1 else 16].bytes;
    }

    /** One null byte is the hex-prefix encoding of the empty key. */
    method PushRoot(ghost k: Nibbles)
      requires Valid() && trail == []
      modifies this
      ensures Valid() && trail != [] && trail[|trail| - 1].child == ENTERING
      ensures Rest(trail, nodes, k) == NotBefore(Walk(that.trie, []), [] + k)
    {
      var item := that.Node(that.root, that.trie, KEY_LIMIT);
      EmptyKey();
      var x := Node(item, [0], ENTERING);
      trail, nodes := [] + [x], [] + [that.trie];
      RestOfPush([], [], x, that.trie, k);
    }

    /** `next`, with the key to look for; the iteration step looks for the empty key. */
    method Next(key: Nibbles)
      requires Valid() && Searching(trail, key)
      modifies this
      ensures Valid() && StandsAt(trail, nodes, old(Rest(trail, nodes, key)))
    {
      hide NodeOk, Rest, TrailWeight;
      var k := key;
      ghost var es := Rest(trail, nodes, k);
      while trail != []
        invariant Valid() && Searching(trail, k) && Rest(trail, nodes, k) == es
        decreases TrailWeight(trail, nodes)
      {
        var found;
        found, k := Round(k);
        if found {
          return;
        }
      }
      NothingLeft(k);
    }

    lemma NothingLeft(k: Nibbles)
      requires trail == [] && nodes == []
      ensures Rest(trail, nodes, k) == []
    {
    }

    /** One round of the outer loop: true when it comes to stand at an entry. */
    method Round(k: Nibbles) returns (found: bool, k': Nibbles)
      requires Valid() && trail != [] && Searching(trail, k)
      modifies this
      ensures Valid() && Searching(trail, k')
      ensures found ==> StandsAt(trail, nodes, old(Rest(trail, nodes, k)))
      ensures !found ==>
                && Rest(trail, nodes, k') == old(Rest(trail, nodes, k))
                && TrailWeight(trail, nodes) < old(TrailWeight(trail, nodes))
    {
      hide NodeOk, NodeItem, Stored, Canon, WellShaped, Fits, Walk, WalkKids, NotBefore, Rest, TrailWeight, FromChild;
      hide Pending, HexEncode, KeyOf, IsLeafKey, Ref, NextChild;
      var b := trail[|trail| - 1];
      ghost var t := nodes[|trail| - 1];
      TrailOkPop(that.sha3, that.db.main, trail, nodes);
      RestOfPush(trail[..|trail| - 1], nodes[..|trail| - 1], b, t, k);
      NodeParts(that.sha3, that.db.main, b, t);
      Shape(that.sha3, t);
      if b.child == ENTERING {
        if b.rlp == Data([]) {
          NothingAtNil(t, KeyOf(b.key), k);
          Pop();
          return false, [];
        }
        if |b.rlp.items| == 2 {
          found, k' := EnterTwoItem(k);
          return;
        }
        EnterBranch(t, KeyOf(b.key), k);
        if k != [] {
          found, k' := Scan(k[0], k[1..]);
        } else {
          found, k' := Scan(AT_VALUE, []);
        }
      } else {
        ChildRange(that.sha3, that.db.main, b, t);
        PendingAt(t, KeyOf(b.key), b.child);
        if b.rlp == Data([]) || |b.rlp.items| != 17 {
          Pop();
          return false, [];
        }
        found, k' := Scan(NextChild(b.child), []);
      }
    }

    /** The inner loop: at the innermost branch, the first child from `from` on that is in use. */
    method Scan(from: nat, k: Nibbles) returns (found: bool, k': Nibbles)
      requires Valid() && trail != [] && from <= FINISHED
      requires nodes[|trail| - 1].Branch? && |nodes[|trail| - 1].kids| == 16
      requires from == AT_VALUE ==> k == [] && trail[|trail| - 1].child == ENTERING
      requires var was := trail[|trail| - 1].child; was == ENTERING || was == AT_VALUE || was < from
      modifies this
      ensures Valid() && Searching(trail, k')
      ensures var es := FromChild(old(nodes[|trail| - 1]), KeyOf(old(trail[|trail| - 1].key)), from, k)
                        + Rest(old(trail[..|trail| - 1]), old(nodes[..|trail| - 1]), []);
              if found then StandsAt(trail, nodes, es)
              else Rest(trail, nodes, k') == es && TrailWeight(trail, nodes) < old(TrailWeight(trail, nodes))
    {
      hide NodeOk, NodeItem, Stored, Canon, WellShaped, Fits, Walk, WalkKids, NotBefore, Rest, TrailWeight, FromChild;
      var b := trail[|trail| - 1];
      ghost var t := nodes[|trail| - 1];
      var child: nat := from;
      k' := k;
      TrailOkPop(that.sha3, that.db.main, trail, nodes);
      NodeParts(that.sha3, that.db.main, b, t);
      Shape(that.sha3, t);
      while child != FINISHED
        invariant child <= FINISHED && (child == AT_VALUE ==> from == AT_VALUE && k' == [])
        invariant b.child == ENTERING || b.child == AT_VALUE || b.child < child
        invariant trail == old(trail) && nodes == old(nodes)
        invariant FromChild(t, KeyOf(b.key), child, k') == FromChild(t, KeyOf(b.key), from, k)
        decreases if child == AT_VALUE then 20 else FINISHED - child
      {
        SlotUsed(that.sha3, t, child);
        if b.rlp.items[child] != Data([]) {
          if child == AT_VALUE {
            StopAtValue(b, t);
            return true, [];
          }
          PushChild(child, k', t);
          return false, k';
        }
        FromEmptySlot(t, KeyOf(b.key), child, k');
        k', child := [], NextChild(child);
      }
      FinishedGivesNothing(t, KeyOf(b.key), k');
      Pop();
      return false, [];
    }

    method StopAtValue(b: Node, ghost t: Trie)
      requires Valid() && trail != [] && b == trail[|trail| - 1] && t == nodes[|trail| - 1]
      requires t.Branch? && |t.kids| == 16 && t.value != []
      modifies this
      ensures Valid()
      ensures StandsAt(trail, nodes, FromChild(t, KeyOf(b.key), AT_VALUE, [])
                                     + Rest(old(trail[..|trail| - 1]), old(nodes[..|trail| - 1]), []))
    {
      hide NodeItem, Stored, Canon, Fits, Walk, WalkKids, NotBefore, Rest, TrailWeight, FromChild, HexEncode, KeyOf;
      var here := Node(b.rlp, b.key, AT_VALUE);
      var lower := trail[..|trail| - 1];
      ghost var below := nodes[..|trail| - 1];
      TrailOkPop(that.sha3, that.db.main, trail, nodes);
      TrailOkPush(that.sha3, that.db.main, lower, below, here, t);
      FromValue(t, KeyOf(b.key));
      StopHere(lower, below, here, t, Pair(KeyOf(b.key), t.value),
               FromChild(t, KeyOf(b.key), AT_VALUE, []) + Rest(lower, below, []));
      trail, nodes := lower + [here], below + [t];
    }

    method PushChild(child: nat, k: Nibbles, ghost t: Trie)
      requires Valid() && trail != [] && t == nodes[|trail| - 1]
      requires t.Branch? && |t.kids| == 16 && child < 16 && Slot(t, child)
      requires var was := trail[|trail| - 1].child; was == ENTERING || was == AT_VALUE || was < child
      modifies this
      ensures Valid() && trail != [] && trail[|trail| - 1].child == ENTERING
      ensures Rest(trail, nodes, k) == FromChild(t, KeyOf(old(trail[|trail| - 1].key)), child, k)
                                       + Rest(old(trail[..|trail| - 1]), old(nodes[..|trail| - 1]), [])
      ensures TrailWeight(trail, nodes) < old(TrailWeight(trail, nodes))
    {
      hide NodeOk, NodeItem, Ref, Stored, Canon, WellShaped, Fits, HexEncode, KeyOf, ChildOk, Slot;
      hide Walk, WalkKids, NotBefore, Rest, FromChild, TrailWeight, Weight, PendingWeight, Pending;
      var b := trail[|trail| - 1];
      var lower := trail[..|trail| - 1];
      ghost var below := nodes[..|trail| - 1];
      TrailOkPop(that.sha3, that.db.main, trail, nodes);
      RestOfPush(lower, below, b, t, []);
      BranchItemUpdate(that.sha3, t, child, Nil);
      NodeParts(that.sha3, that.db.main, b, t);
      KidOk(that.db.main, that.sha3, t, child, |KeyOf(b.key)|);
      ghost var path := KeyOf(b.key);
      var here := Node(b.rlp, b.key, child);
      SecondNibble(child);
      var key := EncodeTwo(b.key, KeyOffset(b.key), [child], 1, false);
      var next := Node(that.Deref(b.rlp.items[child], t.kids[child], KEY_LIMIT), key, ENTERING);
      EnteringOk(that.sha3, that.db.main, next, t.kids[child], path + [child]);
      trail, nodes := lower + [here] + [next], below + [t] + [t.kids[child]];
      BranchOk(that.sha3, that.db.main, b, here, t);
      TrailOkPush(that.sha3, that.db.main, lower, below, here, t);
      TrailOkPush(that.sha3, that.db.main, lower + [here], below + [t], next, t.kids[child]);
      RestOfPush(lower, below, here, t, []);
      RestOfPush(lower + [here], below + [t], next, t.kids[child], k);
      FromChildSlot(t, path, child, k);
      ScanWeight(t, b.child, child);
      KidEntering(t, path, child, k);
    }
  }

  lemma KidEntering(t: Trie, path: Nibbles, child: nat, k: Nibbles)
    requires t.Branch? && |t.kids| == 16 && child < 16
    ensures Pending(t.kids[child], path + [child], ENTERING, k) ==
            NotBefore(Walk(t.kids[child], path + [child]), path + [child] + k)
    ensures PendingWeight(t.kids[child], ENTERING) == Weight(t.kids[child])
  {
  }

  lemma NothingAtNil(t: Trie, path: Nibbles, k: Nibbles)
    requires t == Nil
    ensures Pending(t, path, ENTERING, k) == []
  {
  }

  lemma PendingAt(t: Trie, path: Nibbles, child: nat)
    requires child != ENTERING
    ensures !t.Branch? ==> Pending(t, path, child, []) == []
    ensures t.Branch? && |t.kids| == 16 ==> Pending(t, path, child, []) == FromChild(t, path, NextChild(child), [])
  {
  }

  lemma ChildRange(H: Hasher, main: Main, x: Node, t: Trie)
    requires NodeOk(H, main, x, t) && x.child != ENTERING
    ensures t.Branch? ==> x.child <= 16 && NextChild(x.child) <= FINISHED && NextChild(x.child) != AT_VALUE
    ensures t.Branch? && x.child != AT_VALUE ==> x.child < NextChild(x.child)
  {
  }

  lemma FinishedGivesNothing(t: Trie, path: Nibbles, k: Nibbles)
    requires t.Branch? && |t.kids| == 16
    ensures FromChild(t, path, FINISHED, k) == []
  {
  }

  // ---- iterating over a map ----

  /** Every key of a tree that represents a map is a whole number of bytes. */
  lemma WalkOfBytes(t: Trie, m: map<Bytes, Bytes>)
    requires WellShaped(t) && Represents(t, m)
    ensures forall k: Bytes, v: Bytes :: HasEntry(Walk(t, []), AsNibbles(k), v) <==> k in m && m[k] == v
    ensures WholeByteKeys(Walk(t, []))
  {
    hide AsNibbles;
    forall k: Bytes, v: Bytes
      ensures HasEntry(Walk(t, []), AsNibbles(k), v) <==> k in m && m[k] == v
    {
      assert [] + AsNibbles(k) == AsNibbles(k);
      WalkHas(t, [], AsNibbles(k), v);
    }
    forall i | 0 <= i < |Walk(t, [])|
      ensures !Odd(|Walk(t, [])[i].key|)
    {
      var e := Walk(t, [])[i];
      assert [] + e.key == e.key;
      assert e == Pair(e.key, e.value);
      WalkHas(t, [], e.key, e.value);
      var b: Bytes :| b in m && AsNibbles(b) == e.key;
      OddOfTwice(|b|);
    }
  }

  lemma OddOfTwice(n: nat)
    ensures !Odd(2 * n)
  {
  }

  lemma NibbleEntriesPush(list: BytesMap, e: TrieMap.Entry, left: seq<Pair>)
    requires left != [] && left[0] == Pair(AsNibbles(e.key), e.value)
    ensures NibbleEntries(list + [e]) + left[1..] == NibbleEntries(list) + left
  {
    hide AsNibbles;
    assert NibbleEntries(list + [e]) == NibbleEntries(list) + [left[0]];
  }

  ghost predicate WholeByteKeys(es: seq<Pair>)
  {
    forall i | 0 <= i < |es| :: !Odd(|es[i].key|)
  }

  /** From where it stands to the end. */
  method Drain(it: Iterator, ghost es: seq<Pair>) returns (list: BytesMap)
    requires it.Valid() && StandsAt(it.trail, it.nodes, es) && WholeByteKeys(es)
    modifies it
    ensures NibbleEntries(list) == es && it.trail == []
  {
    hide Walk, NibbleEntries, WholeByteKeys;
    list := [];
    ghost var left := es;
    NoEntries(es);
    while it.trail != []
      invariant it.Valid() && StandsAt(it.trail, it.nodes, left) && WholeByteKeys(left)
      invariant NibbleEntries(list) + left == es
      decreases |left|
    {
      var e := TakeEntry(it, left);
      NibbleEntriesPush(list, e, left);
      list := list + [e];
      left := left[1..];
    }
  }

  lemma NoEntries(es: seq<Pair>)
    ensures NibbleEntries([]) + es == es
  {
    assert NibbleEntries([]) == [];
  }

  /** The entry it stands at, and a step. */
  method TakeEntry(it: Iterator, ghost es: seq<Pair>) returns (e: TrieMap.Entry)
    requires it.Valid() && StandsAt(it.trail, it.nodes, es) && es != [] && WholeByteKeys(es)
    modifies it
    ensures it.Valid() && StandsAt(it.trail, it.nodes, es[1..]) && WholeByteKeys(es[1..])
    ensures Pair(AsNibbles(e.key), e.value) == es[0]
  {
    hide Walk, Rest, AsNibbles, KeyOf, Odd, NodeOk;
    assert es[0] == EntryOf(it.trail[|it.trail| - 1], it.nodes[|it.trail| - 1]);
    assert es[1..] == Rest(it.trail, it.nodes, []);
    var key, value := it.Entry();
    e := TrieMap.Entry(key, value);
    it.Next([]);
  }

  /** Iterating from `begin` to `end` gives every entry of the map once, keys ascending. */
  method All(trie: TrieDB, ghost m: map<Bytes, Bytes>) returns (list: BytesMap)
    requires trie.Valid() && Represents(trie.trie, m)
    ensures Ascending(list)
    ensures forall k: Bytes, v: Bytes :: TrieMap.Entry(k, v) in list <==> k in m && m[k] == v
  {
    hide AsNibbles;
    CanonIsWellShaped(trie.trie);
    WalkOfBytes(trie.trie, m);
    WalkSorted(trie.trie, []);
    var it := new Iterator.Begin(trie);
    list := Drain(it, Walk(trie.trie, []));
    SortedBytes(list);
    forall k: Bytes, v: Bytes
      ensures TrieMap.Entry(k, v) in list <==> k in m && m[k] == v
    {
      EntryInBytes(list, k, v);
    }
  }

  /** Iterating from `lower_bound` gives the entries whose keys are not before the given one. */
  method From(trie: TrieDB, key: Bytes, ghost m: map<Bytes, Bytes>) returns (list: BytesMap)
    requires trie.Valid() && Represents(trie.trie, m)
    ensures Ascending(list)
    ensures forall k: Bytes, v: Bytes ::
              TrieMap.Entry(k, v) in list <==> k in m && m[k] == v && !Less(k, Counted(key))
  {
    hide AsNibbles, NotBefore, Counted;
    CanonIsWellShaped(trie.trie);
    WalkOfBytes(trie.trie, m);
    WalkSorted(trie.trie, []);
    ghost var all := Walk(trie.trie, []);
    ghost var n := NotBeforeIs(all, AsNibbles(Counted(key)));
    var it := new Iterator.LowerBound(trie, key);
    list := Drain(it, all[n..]);
    SortedBytes(list);
    forall k: Bytes, v: Bytes
      ensures TrieMap.Entry(k, v) in list <==> k in m && m[k] == v && !Less(k, Counted(key))
    {
      EntryInBytes(list, k, v);
      AsNibblesOrder(k, Counted(key));
      HasEntryFrom(all, n, AsNibbles(Counted(key)), AsNibbles(k), v);
    }
  }

  lemma HasEntryFrom(all: seq<Pair>, n: nat, key: Nibbles, k: Nibbles, v: Bytes)
    requires n <= |all| && forall i | 0 <= i < |all| :: Less(all[i].key, key) <==> i < n
    ensures HasEntry(all[n..], k, v) <==> HasEntry(all, k, v) && !Less(k, key)
  {
    if i :| 0 <= i < |all| && all[i] == Pair(k, v) && !Less(k, key) {
      assert all[n..][i - n] == Pair(k, v);
    }
    if i :| 0 <= i < |all| - n && all[n..][i] == Pair(k, v) {
      assert all[n + i] == Pair(k, v);
    }
  }

  lemma SortedBytes(list: BytesMap)
    requires Sorted(NibbleEntries(list))
    ensures Ascending(list)
  {
    hide AsNibbles, Less;
    forall i, j | 0 <= i < j < |list|
      ensures Less(list[i].key, list[j].key)
    {
      assert Less(NibbleEntries(list)[i].key, NibbleEntries(list)[j].key);
      AsNibblesOrder(list[i].key, list[j].key);
    }
  }

  lemma EntryInBytes(list: BytesMap, k: Bytes, v: Bytes)
    ensures HasEntry(NibbleEntries(list), AsNibbles(k), v) <==> TrieMap.Entry(k, v) in list
  {
    var es := NibbleEntries(list);
    if i :| 0 <= i < |es| && es[i] == Pair(AsNibbles(k), v) {
      AsNibblesInjective(list[i].key, k);
      assert list[i] == TrieMap.Entry(k, v);
    }
    if i :| 0 <= i < |list| && list[i] == TrieMap.Entry(k, v) {
      assert es[i] == Pair(AsNibbles(k), v);
    }
  }
}
