/**
 The Merkle Patricia trie as a tree of nodes (Appendix D of the Ethereum Yellow Paper):
 what it maps, its canonical form, and the edits of `GenericTrieDB` as functions on trees.
 */
module Trie {
  import opened Bytes
  import opened HexPrefix

  /** A branch has sixteen children, Nil where there is none, and a value, empty where there is none. */
  datatype Trie =
    | Nil
    | Leaf(key: Nibbles, value: Bytes)
    | Ext(key: Nibbles, child: Trie)
    | Branch(kids: seq<Trie>, value: Bytes)

  /** The value stored under a key; empty stands for absent, as in `contains`. */
  function Get(t: Trie, k: Nibbles): Bytes
    decreases t
  {
    match t
    case Nil => []
    case Leaf(key, value) => if k == key then value else []
    case Ext(key, child) => if key <= k then Get(child, k[|key|..]) else []
    case Branch(kids, value) =>
      if k == [] then value
      else if k[0] < |kids| then Get(kids[k[0]], k[1..]) else []
  }

  predicate TwoItem(t: Trie) { t.Leaf? || t.Ext? }

  /** Slot i of a branch is in use: child i, or the value as slot 16. */
  predicate Slot(t: Trie, i: nat)
    requires t.Branch? && |t.kids| == 16
  {
    if i < 16 then t.kids[i] != Nil else i == 16 && t.value != []
  }

  /** The slot a key selects. */
  function SlotOf(k: Nibbles): nat
  {
    if k == [] then 16 else k[0]
  }

  ghost predicate UsedBeside(t: Trie, i: nat)
    requires t.Branch? && |t.kids| == 16
  {
    exists j: nat :: j != i && Slot(t, j)
  }

  ghost predicate OnlySlot(t: Trie, i: nat)
    requires t.Branch? && |t.kids| == 16
  {
    Slot(t, i) && !UsedBeside(t, i)
  }

  /** What every node the code builds keeps, canonical or on the way there. */
  ghost predicate WellShaped(t: Trie)
    decreases t
  {
    match t
    case Nil => true
    case Leaf(key, value) => value != []
    case Ext(key, child) => key != [] && child != Nil && WellShaped(child)
    case Branch(kids, value) =>
      && |kids| == 16
      && (forall i | 0 <= i < 16 :: WellShaped(kids[i]))
      && exists i: nat :: Slot(t, i)
  }

  /** No extension over a two-item node, no empty extension key, every branch with two slots in use. */
  ghost predicate Canon(t: Trie)
    decreases t
  {
    match t
    case Nil => true
    case Leaf(key, value) => value != []
    case Ext(key, child) => key != [] && child.Branch? && Canon(child)
    case Branch(kids, value) =>
      && |kids| == 16
      && (forall i | 0 <= i < 16 :: Canon(kids[i]))
      && forall i: nat | i <= 16 :: UsedBeside(t, i)
  }

  lemma {:induction false} CanonIsWellShaped(t: Trie)
    requires Canon(t)
    ensures WellShaped(t)
    decreases t
  {
    match t
    case Nil =>
    case Leaf(_, _) =>
    case Ext(key, child) => CanonIsWellShaped(child);
    case Branch(kids, value) =>
      forall i | 0 <= i < 16
        ensures WellShaped(kids[i])
      {
        CanonIsWellShaped(kids[i]);
      }
      assert UsedBeside(t, 0);
  }

  // ---- insertion ----

  const NO_KIDS: seq<Trie> :=
    [Nil, Nil, Nil, Nil, Nil, Nil, Nil, Nil, Nil, Nil, Nil, Nil, Nil, Nil, Nil, Nil]

  /** `cleve`: cut a two-item node after `s` nibbles of its key. */
  function Cleved(t: Trie, s: nat): Trie
    requires TwoItem(t) && s <= |t.key|
  {
    Ext(t.key[..s], t.(key := t.key[s..]))
  }

  /** `branch`: turn a two-item node into a branch with its first nibble as the only slot. */
  function Branched(t: Trie): Trie
    requires TwoItem(t) && (t.Ext? ==> t.key != [])
  {
    if t.key == [] then Branch(NO_KIDS, t.value)
    else Branch(NO_KIDS[t.key[0] := AfterNibble(t)], [])
  }

  function AfterNibble(t: Trie): Trie
    requires TwoItem(t) && t.key != []
  {
    if t.Leaf? || |t.key| > 1 then t.(key := t.key[1..]) else t.child
  }

  /** How many rewrites of the node under hand are still to come before the key is descended into. */
  function Rank(t: Trie, k: Nibbles): nat
  {
    match t
    case Nil => 0
    case Branch(_, _) => 0
    case Leaf(key, _) => if key == k then 0 else 2
    case Ext(key, _) => if key <= k then 1 else 2
  }

  lemma WellShapedSteps(t: Trie)
    requires WellShaped(t) && TwoItem(t)
    ensures forall s: nat | 0 < s <= |t.key| && (t.Ext? ==> s < |t.key|) :: WellShaped(Cleved(t, s))
    ensures WellShaped(Branched(t))
  {
    BranchedWellShaped(t);
  }

  lemma BranchedWellShaped(t: Trie)
    requires WellShaped(t) && TwoItem(t)
    ensures WellShaped(Branched(t))
  {
    var b := Branched(t);
    if t.key == [] {
      assert Slot(b, 16);
    } else {
      assert Slot(b, t.key[0]);
    }
  }

  /** `mergeAt`: the tree after inserting a value, by the steps the code takes. A two-item
      node that disagrees with the key is rewritten and entered again with the same key. */
  ghost function Inserted(t: Trie, k: Nibbles, v: Bytes): Trie
    requires WellShaped(t)
    decreases |k|, Rank(t, k)
  {
    if t.Nil? then Leaf(k, v)
    else if t.Branch? then
      if k == [] then Branch(t.kids, v)
      else Branch(t.kids[k[0] := Inserted(t.kids[k[0]], k[1..], v)], t.value)
    else if t.Leaf? && t.key == k then Leaf(k, v)
    else if t.Ext? && t.key <= k then Ext(t.key, Inserted(t.child, k[|t.key|..], v))
    else
      var s := Shared(k, t.key);
      WellShapedSteps(t);
      if s > 0 then
        assert t.key[..s] <= k;
        Inserted(Cleved(t, s), k, v)
      else Inserted(Branched(t), k, v)
  }

  /** A key matched in two parts. */
  lemma KeyInTwoParts(key: Nibbles, s: nat, k: Nibbles)
    requires s <= |key|
    ensures key == k <==> key[..s] <= k && key[s..] == k[s..]
    ensures key <= k <==> key[..s] <= k && key[s..] <= k[s..]
    ensures key <= k ==> k[s..][|key| - s..] == k[|key|..]
  {
    assert key == key[..s] + key[s..];
    if key[..s] <= k {
      assert k == key[..s] + k[s..];
    }
    if key <= k {
      assert key[..s] == k[..|key|][..s];
      assert key[s..] == k[..|key|][s..] == k[s..][..|key| - s];
    }
  }

  lemma GetCleved(t: Trie, s: nat, k: Nibbles)
    requires TwoItem(t) && s <= |t.key|
    ensures Get(Cleved(t, s), k) == Get(t, k)
  {
    KeyInTwoParts(t.key, s, k);
  }

  lemma GetBranched(t: Trie, k: Nibbles)
    requires TwoItem(t) && (t.Ext? ==> t.key != [])
    ensures Get(Branched(t), k) == Get(t, k)
  {
    if t.key != [] && k != [] && k[0] == t.key[0] {
      assert k == [k[0]] + k[1..] && t.key == [k[0]] + t.key[1..];
      assert t.key <= k <==> t.key[1..] <= k[1..];
      if t.Ext? && t.key <= k {
        assert k[1..][|t.key| - 1..] == k[|t.key|..];
      }
    }
  }

  /** Map refinement of insertion: the new key has the new value, all others keep theirs. */
  lemma {:induction false} GetInsert(t: Trie, k: Nibbles, v: Bytes, k': Nibbles)
    requires WellShaped(t)
    ensures Get(Inserted(t, k, v), k') == if k' == k then v else Get(t, k')
    decreases |k|, Rank(t, k)
  {
    if t.Nil? {
    } else if t.Branch? {
      if k != [] && k' != [] {
        assert k == k' <==> k[0] == k'[0] && k[1..] == k'[1..] by {
          assert k == [k[0]] + k[1..] && k' == [k'[0]] + k'[1..];
        }
        GetInsert(t.kids[k[0]], k[1..], v, k'[1..]);
      }
    } else if t.Leaf? && t.key == k {
    } else if t.Ext? && t.key <= k {
      if t.key <= k' {
        assert k == t.key + k[|t.key|..] && k' == t.key + k'[|t.key|..];
        GetInsert(t.child, k[|t.key|..], v, k'[|t.key|..]);
      }
    } else {
      var s := Shared(k, t.key);
      WellShapedSteps(t);
      if s > 0 {
        assert t.key[..s] <= k;
        GetInsert(Cleved(t, s), k, v, k');
        GetCleved(t, s, k');
      } else {
        GetInsert(Branched(t), k, v, k');
        GetBranched(t, k');
      }
    }
  }

  /** Canonical, or one of the two nodes `mergeAt` makes and enters again with the same key:
      an extension over a node that disagrees with the rest of the key, or a branch with
      only one slot in use and the key selecting another. */
  ghost predicate Ready(t: Trie, k: Nibbles)
  {
    match t
    case Nil => true
    case Leaf(key, value) => value != []
    case Ext(key, child) =>
      && key != [] && Canon(child)
      && (child.Branch? || (key <= k && Disagrees(child, k[|key|..])))
    case Branch(kids, value) =>
      && |kids| == 16
      && (forall i | 0 <= i < 16 :: Canon(kids[i]))
      && UsedBeside(t, SlotOf(k))
  }

  predicate Disagrees(t: Trie, k: Nibbles)
  {
    TwoItem(t) && t.key != k && Shared(k, t.key) == 0
  }

  lemma ReadyIsWellShaped(t: Trie, k: Nibbles)
    requires Ready(t, k)
    ensures WellShaped(t)
  {
    if t.Ext? {
      CanonIsWellShaped(t.child);
    } else if t.Branch? {
      forall i | 0 <= i < 16
        ensures WellShaped(t.kids[i])
      {
        CanonIsWellShaped(t.kids[i]);
      }
    }
  }

  lemma CanonIsReady(t: Trie, k: Nibbles)
    requires Canon(t)
    ensures Ready(t, k)
  {
  }

  /** The nodes `mergeAt` makes on the way are ready for the key they are entered with. */
  lemma StepsAreReady(t: Trie, k: Nibbles)
    requires Canon(t) && TwoItem(t) && t.key != k && !(t.Ext? && t.key <= k)
    ensures var s := Shared(k, t.key);
            if s > 0 then Ready(Cleved(t, s), k) && t.key[..s] <= k else Ready(Branched(t), k)
  {
    var s := Shared(k, t.key);
    if s > 0 {
      RestsDisagree(t, k, s);
    } else if t.key == [] {
      assert Slot(Branched(t), 16);
    } else {
      assert Slot(Branched(t), t.key[0]);
    }
  }

  lemma RestsDisagree(t: Trie, k: Nibbles, s: nat)
    requires TwoItem(t) && t.key != k && !(t.Ext? && t.key <= k) && s == Shared(k, t.key)
    ensures t.key[..s] <= k && Disagrees(t.(key := t.key[s..]), k[s..])
    ensures t.Ext? ==> s < |t.key|
  {
    assert k == k[..s] + k[s..] && t.key == t.key[..s] + t.key[s..];
    SharedIs(k[s..], t.key[s..], 0);
  }

  /** Insertion into a canonical tree gives a canonical tree. */
  lemma {:induction false} InsertCanon(t: Trie, k: Nibbles, v: Bytes)
    requires Ready(t, k) && v != []
    ensures WellShaped(t) && Canon(Inserted(t, k, v)) && Inserted(t, k, v) != Nil
    ensures t.Branch? || Disagrees(t, k) ==> Inserted(t, k, v).Branch?
    decreases |k|, Rank(t, k)
  {
    ReadyIsWellShaped(t, k);
    if t.Nil? {
    } else if t.Branch? {
      var r := Inserted(t, k, v);
      if k != [] {
        CanonIsReady(t.kids[k[0]], k[1..]);
        InsertCanon(t.kids[k[0]], k[1..], v);
      }
      TwoSlotsAfter(t, r, SlotOf(k));
    } else if t.Leaf? && t.key == k {
    } else if t.Ext? && t.key <= k {
      CanonIsReady(t.child, k[|t.key|..]);
      InsertCanon(t.child, k[|t.key|..], v);
    } else {
      WellShapedSteps(t);
      StepsAreReady(t, k);
      var s := Shared(k, t.key);
      if s > 0 {
        InsertCanon(Cleved(t, s), k, v);
      } else {
        InsertCanon(Branched(t), k, v);
      }
    }
  }

  /** Filling a slot beside a used one makes two. */
  lemma TwoSlotsAfter(t: Trie, r: Trie, filled: nat)
    requires t.Branch? && |t.kids| == 16 && r.Branch? && |r.kids| == 16 && filled <= 16
    requires UsedBeside(t, filled)
    requires Slot(r, filled) && forall j: nat | j != filled :: Slot(r, j) == Slot(t, j)
    ensures forall i: nat | i <= 16 :: UsedBeside(r, i)
  {
    var j: nat :| j != filled && Slot(t, j);
    assert Slot(r, j);
    forall i: nat | i <= 16
      ensures UsedBeside(r, i)
    {
      if i != filled {
        assert Slot(r, filled);
      }
    }
  }

  // ---- deletion ----

  /** `graft`: join a key to the two-item node below it. */
  function Grafted(key: Nibbles, t: Trie): Trie
  {
    match t
    case Nil => Nil
    case Leaf(k, v) => Leaf(key + k, v)
    case Ext(k, c) => Ext(key + k, c)
    case Branch(_, _) => Ext(key, t)
  }

  /** `merge`, then `graft` where it is due: a branch left with one slot gives way to it. */
  ghost function Merged(t: Trie): Trie
    requires t.Branch? && |t.kids| == 16
  {
    if exists i: nat :: OnlySlot(t, i) then
      var i: nat :| OnlySlot(t, i);
      MergedAt(t, i)
    else t
  }

  function MergedAt(t: Trie, i: nat): Trie
    requires t.Branch? && |t.kids| == 16 && i <= 16
  {
    if i == 16 then Leaf([], t.value) else Grafted([i], t.kids[i])
  }

  /** `deleteAt`: the tree after a key is removed. */
  ghost function Deleted(t: Trie, k: Nibbles): Trie
    requires WellShaped(t)
    decreases t
  {
    match t
    case Nil => Nil
    case Leaf(key, value) => if key == k then Nil else t
    case Ext(key, child) => if key <= k then Grafted(key, Deleted(child, k[|key|..])) else t
    case Branch(kids, value) =>
      if k == [] then Merged(Branch(kids, []))
      else Merged(Branch(kids[k[0] := Deleted(kids[k[0]], k[1..])], value))
  }

  lemma GetGrafted(key: Nibbles, t: Trie, k: Nibbles)
    ensures Get(Grafted(key, t), k) == if key <= k then Get(t, k[|key|..]) else []
  {
    if TwoItem(t) {
      var g := Grafted(key, t);
      assert g.key[..|key|] == key && g.key[|key|..] == t.key;
      assert Cleved(g, |key|) == Ext(key, t);
      GetCleved(g, |key|, k);
    }
  }

  lemma GetMerged(t: Trie, k: Nibbles)
    requires t.Branch? && |t.kids| == 16
    ensures Get(Merged(t), k) == Get(t, k)
  {
    if exists i: nat :: OnlySlot(t, i) {
      var i: nat :| OnlySlot(t, i) && Merged(t) == MergedAt(t, i);
      if SlotOf(k) != i {
        assert !Slot(t, SlotOf(k));
      }
      if i < 16 {
        GetGrafted([i], t.kids[i], k);
        assert [i] <= k <==> k != [] && k[0] == i;
      }
    }
  }

  lemma SameInParts(a: Nibbles, b: Nibbles, n: nat)
    requires n <= |a| && n <= |b|
    ensures a == b <==> a[..n] == b[..n] && a[n..] == b[n..]
  {
    assert a == a[..n] + a[n..] && b == b[..n] + b[n..];
  }

  lemma GetKidUpdate(kids: seq<Trie>, value: Bytes, i: nibble, c: Trie, k: Nibbles)
    requires |kids| == 16
    ensures Get(Branch(kids[i := c], value), k) ==
            if k != [] && k[0] == i then Get(c, k[1..]) else Get(Branch(kids, value), k)
  {
  }

  lemma GetThroughKid(kids: seq<Trie>, value: Bytes, k: Nibbles)
    requires |kids| == 16 && k != []
    ensures Get(Branch(kids, value), k) == Get(kids[k[0]], k[1..])
  {
  }

  lemma GetOwnValue(kids: seq<Trie>, value: Bytes, k: Nibbles)
    requires |kids| == 16
    ensures Get(Branch(kids, []), k) == if k == [] then [] else Get(Branch(kids, value), k)
  {
  }

  /** Map refinement of deletion: the key is gone, all others keep their values. */
  lemma {:induction false} GetDelete(t: Trie, k: Nibbles, k': Nibbles)
    requires WellShaped(t)
    ensures Get(Deleted(t, k), k') == if k' == k then [] else Get(t, k')
    decreases t, 1
  {
    hide Grafted, Merged;
    match t
    case Nil =>
    case Leaf(_, _) =>
    case Ext(_, _) => GetDeleteExt(t, k, k');
    case Branch(_, _) => GetDeleteBranch(t, k, k');
  }

  lemma {:induction false} GetDeleteExt(t: Trie, k: Nibbles, k': Nibbles)
    requires WellShaped(t) && t.Ext?
    ensures Get(Deleted(t, k), k') == if k' == k then [] else Get(t, k')
    decreases t, 0
  {
    hide Grafted;
    var n := |t.key|;
    if t.key <= k {
      GetGrafted(t.key, Deleted(t.child, k[n..]), k');
      if t.key <= k' {
        SameInParts(k, k', n);
        GetDelete(t.child, k[n..], k'[n..]);
      }
    }
  }

  lemma {:induction false} GetDeleteBranch(t: Trie, k: Nibbles, k': Nibbles)
    requires WellShaped(t) && t.Branch?
    ensures Get(Deleted(t, k), k') == if k' == k then [] else Get(t, k')
    decreases t, 0
  {
    hide Grafted, Merged, Get;
    var kids, value := t.kids, t.value;
    if k == [] {
      GetMerged(Branch(kids, []), k');
      GetOwnValue(kids, value, k');
    } else {
      var c := Deleted(kids[k[0]], k[1..]);
      GetMerged(Branch(kids[k[0] := c], value), k');
      GetKidUpdate(kids, value, k[0], c, k');
      if k' != [] {
        SameInParts(k, k', 1);
        GetThroughKid(kids, value, k');
        GetDelete(kids[k[0]], k[1..], k'[1..]);
      }
    }
  }

  /** A branch with any slot left becomes canonical. */
  lemma MergedCanon(t: Trie)
    requires t.Branch? && |t.kids| == 16 && exists i: nat :: Slot(t, i)
    requires forall i | 0 <= i < 16 :: Canon(t.kids[i])
    ensures Canon(Merged(t)) && Merged(t) != Nil
  {
    if exists i: nat :: OnlySlot(t, i) {
      var i: nat :| OnlySlot(t, i) && Merged(t) == MergedAt(t, i);
    } else {
      var j: nat :| Slot(t, j);
      forall i: nat | i <= 16
        ensures UsedBeside(t, i)
      {
        assert !OnlySlot(t, i);
      }
    }
  }

  /** Deletion keeps the canonical form, and a branch never vanishes. */
  lemma {:induction false} DeleteCanon(t: Trie, k: Nibbles)
    requires Canon(t)
    ensures WellShaped(t) && Canon(Deleted(t, k))
    ensures t.Branch? ==> Deleted(t, k) != Nil
    decreases t
  {
    CanonIsWellShaped(t);
    match t
    case Nil =>
    case Leaf(_, _) =>
    case Ext(key, child) =>
      if key <= k {
        DeleteCanon(child, k[|key|..]);
      }
    case Branch(kids, value) =>
      assert UsedBeside(t, SlotOf(k));
      var j: nat :| j != SlotOf(k) && Slot(t, j);
      var rest := if k == [] then Branch(kids, [])
                  else Branch(kids[k[0] := Deleted(kids[k[0]], k[1..])], value);
      if k != [] {
        DeleteCanon(kids[k[0]], k[1..]);
      }
      assert Slot(rest, j);
      MergedCanon(rest);
  }

  /** Deleting a key that is not there changes nothing. */
  lemma {:induction false} DeleteAbsent(t: Trie, k: Nibbles)
    requires Canon(t) && WellShaped(t) && Get(t, k) == []
    ensures Deleted(t, k) == t
    decreases t
  {
    match t
    case Nil =>
    case Leaf(_, _) =>
    case Ext(key, child) =>
      if key <= k {
        DeleteAbsent(child, k[|key|..]);
      }
    case Branch(kids, value) =>
      if k != [] {
        DeleteAbsent(kids[k[0]], k[1..]);
        assert kids[k[0] := kids[k[0]]] == kids;
      }
      assert forall i: nat | i <= 16 :: !OnlySlot(t, i);
  }

  // ---- where deletion fails ----

  /** What `deleteAt` runs into. It goes on below a leaf whose key is a prefix of the one it
      looks for, as if the value were a reference; it reads a nibble behind the end of the key
      at a branch without a value; and it takes the value for a reference where nothing else is
      left of a branch. A reference has at most 32 bytes. */
  ghost function Fault(t: Trie, k: Nibbles): Option<Error>
    requires WellShaped(t)
    decreases t
  {
    match t
    case Nil => None
    case Leaf(key, value) => if key <= k && key != k then Some(if |value| > 32 then BadCast else BadRLP) else None
    case Ext(key, child) => if key <= k then Fault(child, k[|key|..]) else None
    case Branch(kids, value) =>
      if k == [] then (if value == [] then Some(NibblePastEnd) else None)
      else if Fault(kids[k[0]], k[1..]).Some? then Fault(kids[k[0]], k[1..])
      else if LeavesLongValue(t, k) then Some(BadCast)
      else None
  }

  /** A branch when the key has been deleted below it. */
  ghost function KidDeleted(t: Trie, k: Nibbles): Trie
    requires WellShaped(t) && t.Branch? && k != []
  {
    Branch(t.kids[k[0] := Deleted(t.kids[k[0]], k[1..])], t.value)
  }

  /** Below a branch a key is removed, and a value too long for a hash is left alone. */
  ghost predicate LeavesLongValue(t: Trie, k: Nibbles)
    requires WellShaped(t) && t.Branch? && k != []
  {
    |t.value| > 32 && OnlySlot(KidDeleted(t, k), 16)
  }

  ghost predicate Has(t: Trie, k: Nibbles)
  {
    Get(t, k) != []
  }

  /** A stored key is a proper prefix of `k`, and no other stored key extends it. */
  ghost predicate PastLeaf(t: Trie, k: Nibbles, p: Nibbles)
  {
    Has(t, p) && p <= k && p != k && forall a | Has(t, a) && p <= a :: a == p
  }

  /** Two stored keys extend `k` and part right behind it. */
  ghost predicate AtFork(t: Trie, k: Nibbles, x: Nibbles, y: Nibbles)
  {
    Has(t, x) && Has(t, y) && k <= x && k <= y && SlotOf(x[|k|..]) != SlotOf(y[|k|..])
  }

  /** A stored key with a value longer than a hash is a proper prefix of `k`, and is extended
      by no other stored key. */
  ghost predicate AboveLast(t: Trie, k: Nibbles, p: Nibbles)
  {
    |Get(t, p)| > 32 && p <= k && p != k && forall a | Has(t, a) && p <= a :: a == p || a == k
  }

  /** When a deletion fails, told by the stored keys alone. */
  ghost predicate Fails(t: Trie, k: Nibbles)
  {
    || (!Has(t, k) && exists p :: PastLeaf(t, k, p))
    || (!Has(t, k) && exists x, y :: AtFork(t, k, x, y))
    || (Has(t, k) && exists p :: AboveLast(t, k, p))
  }

  /** The keys of `c` are those of `t` that begin with `front`. */
  ghost predicate Below(t: Trie, front: Nibbles, c: Trie)
  {
    forall a :: Get(c, a) == Get(t, front + a)
  }

  lemma BelowExt(t: Trie)
    requires t.Ext?
    ensures Below(t, t.key, t.child)
  {
    forall a
      ensures Get(t.child, a) == Get(t, t.key + a)
    {
      assert (t.key + a)[|t.key|..] == a;
    }
  }

  lemma BelowKid(t: Trie, i: nibble)
    requires t.Branch? && i < |t.kids|
    ensures Below(t, [i], t.kids[i])
  {
    forall a
      ensures Get(t.kids[i], a) == Get(t, [i] + a)
    {
      assert ([i] + a)[1..] == a;
    }
  }

  /** A key under a front, taken apart. */
  lemma UnderFront(t: Trie, front: Nibbles, c: Trie, a: Nibbles)
    requires Below(t, front, c) && front <= a
    ensures a == front + a[|front|..] && Get(t, a) == Get(c, a[|front|..])
  {
  }

  lemma PrefixUnderFront(front: Nibbles, a: Nibbles, b: Nibbles)
    ensures front + a <= front + b <==> a <= b
    ensures front + a == front + b <==> a == b
    ensures (front + a)[|front|..] == a
    ensures a <= b ==> (front + b)[|front + a|..] == b[|a|..]
  {
    assert (front + a)[|front|..] == a && (front + b)[|front|..] == b;
    if front + a <= front + b {
      assert (front + b)[..|front + a|][|front|..] == a;
    }
  }

  lemma TakenApart(t: Trie, front: Nibbles, c: Trie, p: Nibbles, a: Nibbles) returns (b: Nibbles)
    requires Below(t, front, c) && Has(t, a) && front + p <= a
    ensures a == front + b && Has(c, b) && p <= b
  {
    assert front == (front + p)[..|front|];
    UnderFront(t, front, c, a);
    b := a[|front|..];
    PrefixUnderFront(front, p, b);
  }

  /** What is said about keys below a front can be said about the whole keys. */
  lemma PastLeafAbove(t: Trie, front: Nibbles, c: Trie, r: Nibbles, p: Nibbles)
    requires Below(t, front, c) && PastLeaf(c, r, p)
    ensures PastLeaf(t, front + r, front + p)
  {
    hide Get;
    PrefixUnderFront(front, p, r);
    forall a | Has(t, a) && front + p <= a
      ensures a == front + p
    {
      var b := TakenApart(t, front, c, p, a);
    }
  }

  lemma AboveLastAbove(t: Trie, front: Nibbles, c: Trie, r: Nibbles, p: Nibbles)
    requires Below(t, front, c) && AboveLast(c, r, p)
    ensures AboveLast(t, front + r, front + p)
  {
    hide Get;
    PrefixUnderFront(front, p, r);
    forall a | Has(t, a) && front + p <= a
      ensures a == front + p || a == front + r
    {
      var b := TakenApart(t, front, c, p, a);
    }
  }

  lemma AtForkAbove(t: Trie, front: Nibbles, c: Trie, r: Nibbles, x: Nibbles, y: Nibbles)
    requires Below(t, front, c) && AtFork(c, r, x, y)
    ensures AtFork(t, front + r, front + x, front + y)
  {
    hide Get;
    PrefixUnderFront(front, r, x);
    PrefixUnderFront(front, r, y);
  }

  lemma FailsAbove(t: Trie, front: Nibbles, c: Trie, r: Nibbles)
    requires Below(t, front, c) && Fails(c, r)
    ensures Fails(t, front + r)
  {
    assert Has(t, front + r) == Has(c, r);
    hide Get, PastLeaf, AtFork, AboveLast;
    if p :| !Has(c, r) && PastLeaf(c, r, p) {
      PastLeafAbove(t, front, c, r, p);
    } else if x, y :| !Has(c, r) && AtFork(c, r, x, y) {
      AtForkAbove(t, front, c, r, x, y);
    } else {
      var p :| Has(c, r) && AboveLast(c, r, p);
      AboveLastAbove(t, front, c, r, p);
    }
  }

  /** What is said about keys from `front` on can be said below it. */
  lemma FailsBelow(t: Trie, front: Nibbles, c: Trie, k: Nibbles)
    requires Below(t, front, c) && front <= k
    ensures forall p | front <= p && PastLeaf(t, k, p) :: PastLeaf(c, k[|front|..], p[|front|..])
    ensures forall x, y | AtFork(t, k, x, y) :: AtFork(c, k[|front|..], x[|front|..], y[|front|..])
    ensures forall p | front <= p && AboveLast(t, k, p) :: AboveLast(c, k[|front|..], p[|front|..])
  {
    hide Get;
    var r := k[|front|..];
    UnderFront(t, front, c, k);
    forall p | front <= p && PastLeaf(t, k, p)
      ensures PastLeaf(c, r, p[|front|..])
    {
      UnderFront(t, front, c, p);
      PrefixUnderFront(front, p[|front|..], r);
      forall a | Has(c, a) && p[|front|..] <= a
        ensures a == p[|front|..]
      {
        PrefixUnderFront(front, p[|front|..], a);
        assert Has(t, front + a);
      }
    }
    forall x, y | AtFork(t, k, x, y)
      ensures AtFork(c, r, x[|front|..], y[|front|..])
    {
      assert front == k[..|front|] == x[..|front|] == y[..|front|];
      UnderFront(t, front, c, x);
      UnderFront(t, front, c, y);
      PrefixUnderFront(front, r, x[|front|..]);
      PrefixUnderFront(front, r, y[|front|..]);
    }
    forall p | front <= p && AboveLast(t, k, p)
      ensures AboveLast(c, r, p[|front|..])
    {
      UnderFront(t, front, c, p);
      PrefixUnderFront(front, p[|front|..], r);
      forall a | Has(c, a) && p[|front|..] <= a
        ensures a == p[|front|..] || a == r
      {
        PrefixUnderFront(front, p[|front|..], a);
        PrefixUnderFront(front, r, a);
        assert Has(t, front + a);
      }
    }
  }

  lemma SlotBeforeEnd(key: Nibbles, k: Nibbles, x: Nibbles, y: Nibbles)
    ensures key <= x && key <= y && k <= x && k <= y && |k| < |key| ==> SlotOf(x[|k|..]) == SlotOf(y[|k|..])
    ensures key <= x && k <= x && |k| >= |key| ==> key <= k
  {
  }

  /** A deletion that goes through an extension fails exactly where it fails below. */
  lemma FailsThroughExt(t: Trie, k: Nibbles)
    requires t.Ext?
    ensures Fails(t, k) <==> t.key <= k && Fails(t.child, k[|t.key|..])
  {
    BelowExt(t);
    if x, y :| AtFork(t, k, x, y) {
      SlotBeforeEnd(t.key, k, x, y);
    }
    if t.key <= k {
      UnderFront(t, t.key, t.child, k);
      FailsBelow(t, t.key, t.child, k);
      if Fails(t.child, k[|t.key|..]) {
        FailsAbove(t, t.key, t.child, k[|t.key|..]);
      }
    }
  }

  lemma KidDeletedParts(t: Trie, k: Nibbles)
    requires Canon(t) && WellShaped(t) && t.Branch? && k != []
    ensures |t.kids| == 16 && forall i | 0 <= i < 16 :: Canon(KidDeleted(t, k).kids[i])
    ensures forall a: Nibbles :: Get(KidDeleted(t, k), a) == if a == k then [] else Get(t, a)
  {
    hide Canon, WellShaped, Deleted, Get;
    KidCanon(t, k[0]);
    DeleteCanon(t.kids[k[0]], k[1..]);
    forall a: Nibbles
      ensures Get(KidDeleted(t, k), a) == if a == k then [] else Get(t, a)
    {
      GetKidUpdate(t.kids, t.value, k[0], Deleted(t.kids[k[0]], k[1..]), a);
      if a != [] {
        GetThroughKid(t.kids, t.value, a);
        GetDelete(t.kids[k[0]], k[1..], a[1..]);
        SameInParts(a, k, 1);
      }
    }
  }

  lemma KidCanon(t: Trie, i: nibble)
    requires Canon(t) && WellShaped(t) && t.Branch?
    ensures |t.kids| == 16 && WellShaped(t.kids[i]) && forall j | 0 <= j < 16 :: Canon(t.kids[j])
  {
  }

  lemma KeyOfKid(s: Trie, i: nibble) returns (a: Nibbles)
    requires s.Branch? && |s.kids| == 16 && Canon(s.kids[i]) && s.kids[i] != Nil
    ensures a != [] && Has(s, a)
  {
    var r := SomeKey(s.kids[i]);
    a := [i] + r;
    assert a[1..] == r;
  }

  lemma SlotOfKey(s: Trie, a: Nibbles)
    requires s.Branch? && |s.kids| == 16
    ensures Has(s, a) ==> Slot(s, SlotOf(a))
  {
    if a != [] {
      assert Get(Nil, a[1..]) == [];
    }
  }

  /** Nothing is left beside the value of a branch exactly when it had no key but its own and
      the one removed. */
  lemma LastBelowValue(t: Trie, k: Nibbles)
    requires Canon(t) && WellShaped(t) && t.Branch? && k != []
    ensures LeavesLongValue(t, k) <==> Has(t, k) && AboveLast(t, k, [])
  {
    hide Canon, WellShaped, Deleted;
    KidDeletedParts(t, k);
    var s := KidDeleted(t, k);
    if LeavesLongValue(t, k) {
      forall a: Nibbles | Has(t, a)
        ensures a == [] || a == k
      {
        SlotOfKey(s, a);
      }
      var x, y := TwoKeys(t);
      assert Has(t, x) && Has(t, y);
    }
    if Has(t, k) && AboveLast(t, k, []) {
      assert forall a | Has(s, a) :: Has(t, a) && a != k;
      forall j: nat | j < 16
        ensures !Slot(s, j)
      {
        if Slot(s, j) {
          var a := KeyOfKid(s, j);
        }
      }
      assert Slot(s, 16);
    }
  }

  /** The same for a branch: below the child, or at the branch itself. */
  lemma FailsThroughKid(t: Trie, k: Nibbles)
    requires Canon(t) && WellShaped(t) && t.Branch? && k != []
    ensures |t.kids| == 16
    ensures Fails(t, k) <==> Fails(t.kids[k[0]], k[1..]) || LeavesLongValue(t, k)
  {
    hide Canon, WellShaped, Deleted, Get, LeavesLongValue, PastLeaf, AboveLast;
    LastBelowValue(t, k);
    KidCanon(t, k[0]);
    NotPastRoot(t, k);
    var front := [k[0]];
    BelowKid(t, k[0]);
    UnderFront(t, front, t.kids[k[0]], k);
    FailsBelow(t, front, t.kids[k[0]], k);
    FrontOfEnd(t, k);
    assert k[|front|..] == k[1..];
    if Fails(t.kids[k[0]], k[1..]) {
      FailsAbove(t, front, t.kids[k[0]], k[1..]);
    }
    if x, y :| AtFork(t, k, x, y) {
      assert AtFork(t.kids[k[0]], k[1..], x[1..], y[1..]);
    }
  }

  /** A branch has keys beside its own. */
  lemma NotPastRoot(t: Trie, k: Nibbles)
    requires Canon(t) && t.Branch?
    ensures !PastLeaf(t, k, [])
  {
    hide Canon;
    var x, y := TwoKeys(t);
    assert Has(t, x) && Has(t, y);
  }

  lemma FrontOfEnd(t: Trie, k: Nibbles)
    requires k != []
    ensures forall p | PastLeaf(t, k, p) :: p == [] || [k[0]] <= p
    ensures forall p | AboveLast(t, k, p) :: p == [] || [k[0]] <= p
  {
  }

  lemma FailsAtBranch(t: Trie)
    requires Canon(t) && t.Branch?
    ensures Fails(t, []) <==> t.value == []
  {
    var x, y := TwoKeys(t);
    assert AtFork(t, [], x, y);
  }

  /** `deleteAt` fails exactly when a stored key ends above the one to remove and is extended
      by no other; or that key is absent and two stored keys part where it ends; or it is the
      last key below one whose value is longer than a hash. */
  lemma {:induction false} FaultIff(t: Trie, k: Nibbles)
    requires Canon(t) && WellShaped(t)
    ensures Fault(t, k).Some? <==> Fails(t, k)
    decreases t
  {
    match t
    case Nil =>
    case Leaf(key, value) =>
      if key <= k && key != k {
        assert PastLeaf(t, k, key);
      }
    case Ext(key, child) =>
      FailsThroughExt(t, k);
      if key <= k {
        FaultIff(child, k[|key|..]);
      }
    case Branch(kids, value) =>
      if k != [] {
        FailsThroughKid(t, k);
        FaultIff(kids[k[0]], k[1..]);
      } else {
        FailsAtBranch(t);
      }
  }

  /** No stored key extends another. */
  ghost predicate KeysPrefixFree(t: Trie)
  {
    forall a, b :: Get(t, a) != [] && Get(t, b) != [] && a <= b ==> a == b
  }

  /** Nor does one extend the given key, or is extended by it. */
  ghost predicate PrefixFree(t: Trie, k: Nibbles)
  {
    KeysPrefixFree(t) && forall a :: Get(t, a) != [] && (a <= k || k <= a) ==> a == k
  }

  lemma KeysPrefixFreeBelow(t: Trie, c: Trie, front: Nibbles)
    requires KeysPrefixFree(t) && forall a :: Get(c, a) == Get(t, front + a)
    ensures KeysPrefixFree(c)
  {
    forall a, b | Get(c, a) != [] && Get(c, b) != [] && a <= b
      ensures a == b
    {
      assert Get(t, front + a) != [] && Get(t, front + b) != [];
      assert front + a <= front + b;
      assert (front + a)[|front|..] == a && (front + b)[|front|..] == b;
    }
  }

  lemma GetBelow(t: Trie, front: Nibbles, a: Nibbles)
    ensures t.Ext? && front == t.key ==> Get(t.child, a) == Get(t, front + a)
    ensures t.Branch? && |front| == 1 && front[0] < |t.kids| ==> Get(t.kids[front[0]], a) == Get(t, front + a)
  {
    assert (front + a)[|front|..] == a;
  }

  /** The empty key extends to every other, so a branch of prefix-free keys has no value. */
  lemma PrefixFreeBranch(t: Trie)
    requires Canon(t) && t.Branch? && KeysPrefixFree(t)
    ensures t.value == []
  {
    var a, b := TwoKeys(t);
    assert [] <= a && [] <= b;
    assert t.value != [] ==> Get(t, []) != [];
  }

  /** Slot 16 of every branch is empty. */
  ghost predicate NoBranchValues(t: Trie)
    decreases t
  {
    match t
    case Nil => true
    case Leaf(_, _) => true
    case Ext(_, child) => NoBranchValues(child)
    case Branch(kids, value) => value == [] && forall i | 0 <= i < |kids| :: NoBranchValues(kids[i])
  }

  lemma {:induction false} PrefixFreeNoValues(t: Trie)
    requires Canon(t) && KeysPrefixFree(t)
    ensures NoBranchValues(t)
    decreases t
  {
    match t
    case Nil =>
    case Leaf(_, _) =>
    case Ext(key, child) =>
      forall a
        ensures Get(child, a) == Get(t, key + a)
      {
        GetBelow(t, key, a);
      }
      KeysPrefixFreeBelow(t, child, key);
      PrefixFreeNoValues(child);
    case Branch(kids, value) =>
      PrefixFreeBranch(t);
      forall i | 0 <= i < 16
        ensures NoBranchValues(kids[i])
      {
        forall a
          ensures Get(kids[i], a) == Get(t, [i] + a)
        {
          GetBelow(t, [i], a);
        }
        KeysPrefixFreeBelow(t, kids[i], [i]);
        PrefixFreeNoValues(kids[i]);
      }
  }

  /** Removal never fails on prefix-free keys, whether the key is there or not. */
  lemma PrefixFreeNoFault(t: Trie, k: Nibbles)
    requires Canon(t) && PrefixFree(t, k)
    ensures WellShaped(t) && Fault(t, k) == None
  {
    CanonIsWellShaped(t);
    FaultIff(t, k);
    hide Get;
    assert forall a | Has(t, a) && (a <= k || k <= a) :: a == k;
  }

  /** Keys of one length are prefix-free. */
  lemma SameLengthPrefixFree(t: Trie, k: Nibbles)
    requires forall a :: Get(t, a) != [] ==> |a| == |k|
    ensures PrefixFree(t, k)
  {
  }

  // ---- the canonical form is determined by the map ----

  /** A canonical tree other than Nil holds a value. */
  lemma {:induction false} SomeKey(t: Trie) returns (k: Nibbles)
    requires Canon(t) && t != Nil
    ensures Get(t, k) != []
    decreases t
  {
    match t
    case Leaf(key, value) => k := key;
    case Ext(key, child) =>
      var r := SomeKey(child);
      k := key + r;
      assert k[|key|..] == r;
    case Branch(kids, value) =>
      assert UsedBeside(t, 16);
      var i: nat :| i != 16 && Slot(t, i);
      k := KeyInSlot(t, i);
  }

  lemma {:induction false} KeyInSlot(t: Trie, i: nat) returns (k: Nibbles)
    requires Canon(t) && t.Branch? && Slot(t, i)
    ensures Get(t, k) != [] && SlotOf(k) == i
    decreases t, 0
  {
    if i == 16 {
      k := [];
    } else {
      var r := SomeKey(t.kids[i]);
      k := [i] + r;
      assert k[1..] == r;
    }
  }

  ghost predicate SameMap(a: Trie, b: Trie)
  {
    forall k :: Get(a, k) == Get(b, k)
  }

  /** Every key of an extension goes through its key. */
  lemma KeysThroughExt(t: Trie, k: Nibbles)
    requires t.Ext? && Get(t, k) != []
    ensures t.key <= k
  {
  }

  /** A canonical branch holds two keys that part at the first nibble. */
  lemma TwoKeys(t: Trie) returns (a: Nibbles, b: Nibbles)
    requires Canon(t) && t.Branch?
    ensures Get(t, a) != [] && Get(t, b) != [] && SlotOf(a) != SlotOf(b)
  {
    assert UsedBeside(t, 16);
    var i: nat :| i != 16 && Slot(t, i);
    assert UsedBeside(t, i);
    var j: nat :| j != i && Slot(t, j);
    a := KeyInSlot(t, i);
    b := KeyInSlot(t, j);
  }

  /** An extension holds two keys that part right behind its key. */
  lemma TwoKeysOfExt(t: Trie) returns (a: Nibbles, b: Nibbles)
    requires Canon(t) && t.Ext?
    ensures Get(t, t.key + a) != [] && Get(t, t.key + b) != [] && SlotOf(a) != SlotOf(b)
    ensures t.key + a != t.key + b
  {
    a, b := TwoKeys(t.child);
    assert (t.key + a)[|t.key|..] == a && (t.key + b)[|t.key|..] == b;
  }

  lemma SameNextNibble(p: Nibbles, key: Nibbles, a: Nibbles, b: Nibbles)
    requires p <= key + a && p <= key + b && |p| > |key|
    ensures SlotOf(a) == SlotOf(b)
  {
    assert p[|key|] == (key + a)[|key|] == (key + b)[|key|];
  }

  /** Common prefixes stop where two keys part. */
  lemma PrefixOfBoth(p: Nibbles, key: Nibbles, a: Nibbles, b: Nibbles)
    requires p <= key + a && p <= key + b && SlotOf(a) != SlotOf(b)
    ensures p <= key
  {
    if |p| <= |key| {
      assert p == (key + a)[..|p|] == key[..|p|];
    } else {
      SameNextNibble(p, key, a, b);
    }
  }

  lemma SameMapExt(a: Trie, b: Trie)
    requires Canon(a) && Canon(b) && a.Ext? && b.Ext? && SameMap(a, b)
    ensures a.key == b.key && SameMap(a.child, b.child)
  {
    var x, y := TwoKeysOfExt(a);
    KeysThroughExt(b, a.key + x);
    KeysThroughExt(b, a.key + y);
    PrefixOfBoth(b.key, a.key, x, y);
    x, y := TwoKeysOfExt(b);
    KeysThroughExt(a, b.key + x);
    KeysThroughExt(a, b.key + y);
    PrefixOfBoth(a.key, b.key, x, y);
    forall k
      ensures Get(a.child, k) == Get(b.child, k)
    {
      var full := a.key + k;
      assert full[|a.key|..] == k;
      assert Get(a, full) == Get(b, full);
    }
  }

  lemma SameMapBranch(a: Trie, b: Trie)
    requires Canon(a) && Canon(b) && a.Branch? && b.Branch? && SameMap(a, b)
    ensures a.value == b.value && forall i | 0 <= i < 16 :: SameMap(a.kids[i], b.kids[i])
  {
    assert Get(a, []) == Get(b, []);
    forall i: nibble, k
      ensures Get(a.kids[i], k) == Get(b.kids[i], k)
    {
      var full := [i] + k;
      assert full[1..] == k;
      assert Get(a, full) == Get(b, full);
    }
  }

  /** All keys of an extension begin alike, and a leaf has one key. */
  lemma KeysBeginAlike(t: Trie, x: Nibbles, y: Nibbles)
    ensures t.Ext? && t.key != [] && Get(t, x) != [] && Get(t, y) != [] ==> SlotOf(x) == SlotOf(y)
    ensures t.Leaf? && Get(t, x) != [] && Get(t, y) != [] ==> x == y
  {
  }

  /** The kind of a canonical node is decided by its keys alone. */
  lemma SameMapSameKind(a: Trie, b: Trie)
    requires Canon(a) && Canon(b) && SameMap(a, b)
    ensures a.Nil? == b.Nil? && a.Leaf? == b.Leaf? && a.Ext? == b.Ext?
  {
    KindFollows(a, b);
    KindFollows(b, a);
  }

  lemma KindFollows(a: Trie, b: Trie)
    requires Canon(a) && Canon(b) && SameMap(a, b)
    ensures b.Branch? ==> a.Branch?
    ensures b.Ext? ==> a.Ext? || a.Branch?
    ensures b.Leaf? ==> !a.Nil?
  {
    if b.Branch? {
      var x, y := TwoKeys(b);
      assert Get(a, x) == Get(b, x) && Get(a, y) == Get(b, y);
      KeysBeginAlike(a, x, y);
    } else if b.Ext? {
      var x, y := TwoKeysOfExt(b);
      x, y := b.key + x, b.key + y;
      assert Get(a, x) == Get(b, x) && Get(a, y) == Get(b, y);
      KeysBeginAlike(a, x, y);
    } else if b.Leaf? {
      assert Get(a, b.key) == Get(b, b.key);
    }
  }

  /** History independence: canonical trees of the same map are the same tree. */
  lemma {:induction false} CanonicalUnique(a: Trie, b: Trie)
    requires Canon(a) && Canon(b) && SameMap(a, b)
    ensures a == b
    decreases a
  {
    SameMapSameKind(a, b);
    match a
    case Nil =>
    case Leaf(key, value) =>
      assert Get(a, key) == Get(b, key);
    case Ext(key, child) =>
      SameMapExt(a, b);
      CanonicalUnique(child, b.child);
    case Branch(kids, value) =>
      SameMapBranch(a, b);
      forall i | 0 <= i < 16
        ensures kids[i] == b.kids[i]
      {
        CanonicalUnique(kids[i], b.kids[i]);
      }
      assert kids == b.kids;
  }
}
