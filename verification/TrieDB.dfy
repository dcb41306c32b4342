/**
 `GenericTrieDB`: the trie kept as nodes in the store, edited a path at a time. A node the
 program reads is the item its bytes decode to; the node a method returns is the item
 whose encoding the program returns.
 */
module TrieDB {
  import opened Bytes
  import opened Rlp
  import opened RlpReader
  import opened HexPrefix
  import opened Trie
  import opened TrieNode
  import opened StateCacheDB
  import opened TrieEdit

  class TrieDB {
    const sha3: Hasher
    const db: StateCacheDB
    var root: Hash
    /** The tree the store represents, and the byte strings hashed so far. */
    ghost var trie: Trie
    ghost var seen: set<Bytes>

    ghost predicate StoreValid()
      reads this, db
    {
      StoreOk(sha3, db.main, seen) && NoCollision(sha3, seen)
    }

    ghost predicate Valid()
      reads this, db
    {
      && StoreValid()
      && Blob(sha3, Nil) in seen
      && Holds(root, trie)
    }

    /** The nodes of a tree are stored, its root under a hash. */
    ghost predicate Reads(h: Hash, t: Trie)
      reads this, db
    {
      && Canon(t) && Fits(t, KEY_LIMIT)
      && h == sha3(Blob(sha3, t)) && Lookup(db.main, h) == Blob(sha3, t)
      && Stored(db.main, sha3, t)
    }

    /** The tree of the trie can be read, whatever the counts are. */
    ghost predicate Readable()
      reads this, db
    {
      StoreValid() && Blob(sha3, Nil) in seen && Reads(root, trie)
    }

    /** The store holds a tree under a hash, and nothing else that is counted. */
    ghost predicate Holds(h: Hash, t: Trie)
      reads this, db
    {
      && Reads(h, t)
      && forall x: Hash :: Count(db.main, x) == (if x == h then 1 else 0) + ChildCount(sha3, t, x)
    }

    constructor (sha3: Hasher, db: StateCacheDB, root: Hash)
      ensures this.sha3 == sha3 && this.db == db && this.root == root
      ensures seen == {} && trie == Nil
    {
      this.sha3, this.db, this.root := sha3, db, root;
      trie, seen := Nil, {};
    }

    /** `init`: the empty trie becomes the root and is counted once more. */
    method Init(ghost known: set<Bytes>)
      requires StoreOk(sha3, db.main, known) && NoCollision(sha3, known) && Blob(sha3, Nil) in known
      modifies this, db
      ensures StoreValid() && Grows(old(db.main), db.main) && seen == known
      ensures root == sha3(Blob(sha3, Nil)) && trie == Nil && Lookup(db.main, root) == Blob(sha3, Nil)
      ensures forall x: Hash :: Count(db.main, x) == Count(old(db.main), x) + if x == root then 1 else 0
      ensures old(db.main) == map[] ==> Valid()
      decreases 1
    {
      NotLone(sha3, Nil, 0);
      NilBlob(sha3);
      seen := known;
      var h := ForceInsertNode([DATA_IMM_LEN_START]);
      var _ := SetRoot(h, Nil, known);
    }

    /** `setRoot`: opens the trie whose root is stored under a hash. An empty trie that is not
        stored yet is created; for any other hash with nothing under it there is no trie. A
        tree that the store holds there is the tree of the trie afterwards. */
    method SetRoot(h: Hash, ghost t: Trie, ghost known: set<Bytes>) returns (ok: Result<()>)
      requires StoreOk(sha3, db.main, known) && NoCollision(sha3, known) && Blob(sha3, Nil) in known
      modifies this, db
      ensures StoreValid() && seen == known && root == h
      ensures var created := h == sha3(Blob(sha3, Nil)) && h !in old(db.main);
              if created then
                && ok == Ok(()) && trie == Nil && Lookup(db.main, h) == Blob(sha3, Nil)
                && (forall x: Hash :: Count(db.main, x) == Count(old(db.main), x) + if x == h then 1 else 0)
                && (old(db.main) == map[] ==> Valid())
              else
                && db.main == old(db.main) && trie == t
                && ok == (if Lookup(db.main, h) == [] then Throws(RootNotFound) else Ok(()))
                && (old(Holds(h, t)) ==> ok == Ok(()) && Valid())
      decreases if h in db.main then 0 else 2
    {
      NilBlob(sha3);
      root, trie, seen := h, t, known;
      if root == sha3([DATA_IMM_LEN_START]) {
        var stored := db.Exists(root);
        if !stored {
          Init(known);
        }
      }
      var b := db.LookupNode(root);
      ok := if b == [] then Throws(RootNotFound) else Ok(());
    }

    /** `forceInsertNode`. */
    method ForceInsertNode(v: Bytes) returns (h: Hash)
      requires StoreValid() && v in seen && v != [] && !LoneBytes(v)
      modifies db
      ensures StoreValid() && Grows(old(db.main), db.main)
      ensures h == sha3(v) && Lookup(db.main, h) == v
      ensures forall x: Hash :: Count(db.main, x) == Count(old(db.main), x) + if x == h then 1 else 0
    {
      h := sha3(v);
      assert h in db.main ==> EntryOk(sha3, db.main, seen, h);
      ghost var was := db.main;
      db.Insert(h, v);
      forall x | x in db.main
        ensures EntryOk(sha3, db.main, seen, x)
      {
        assert x != h ==> EntryOk(sha3, was, seen, x);
      }
    }

    /** `forceKillNode`: a count that is zero stays zero. */
    method ForceKillNode(h: Hash)
      requires StoreValid()
      modifies db
      ensures StoreValid() && Grows(old(db.main), db.main)
      ensures forall x: Hash :: Count(db.main, x) ==
                Count(old(db.main), x) - if x == h && Count(old(db.main), x) > 0 then 1 else 0
    {
      ghost var was := db.main;
      var _ := db.Kill(h);
      forall x | x in db.main
        ensures EntryOk(sha3, db.main, seen, x)
      {
        assert EntryOk(sha3, was, seen, x);
      }
    }

    /** `killNode`: only nodes of 32 bytes and more are in the store on their own. */
    method KillNode(item: Item, ghost t: Trie)
      requires StoreValid() && item == NodeItem(sha3, t)
      modifies db
      ensures StoreValid() && Grows(old(db.main), db.main)
      ensures forall x: Hash :: Count(db.main, x) ==
                Count(old(db.main), x) - if Count(old(db.main), x) > 0 then OwnCount(sha3, t, x) else 0
    {
      var data := Encode(item);
      assert data == Blob(sha3, t);
      if |data| >= 32 {
        ForceKillNode(sha3(data));
      }
    }

    /** `node`, read as RLP. */
    method Node(h: Hash, ghost t: Trie, ghost n: int) returns (item: Item)
      requires Lookup(db.main, h) == Blob(sha3, t) && Fits(t, n) && n <= KEY_LIMIT
      ensures item == NodeItem(sha3, t)
    {
      var s := db.LookupNode(h);
      DecodeBlob(sha3, t, n);
      item := Decode(s).value;
    }

    /** `streamNode`: what the parent writes for a node, and the node stored when it is long. */
    method StreamNode(b: Item, ghost t: Trie, ghost n: int) returns (ref: Item)
      requires StoreValid() && b == NodeItem(sha3, t) && Blob(sha3, t) in seen
      requires Fits(t, n) && n <= KEY_LIMIT && (Canon(t) || TwoItem(t))
      modifies db
      ensures StoreValid() && Grows(old(db.main), db.main)
      ensures ref == Ref(sha3, t)
      ensures Hashed(sha3, t) ==> Lookup(db.main, sha3(Blob(sha3, t))) == Blob(sha3, t)
      ensures forall x: Hash :: Count(db.main, x) == Count(old(db.main), x) + OwnCount(sha3, t, x)
    {
      var data := Encode(b);
      assert data == Blob(sha3, t);
      NotLone(sha3, t, n);
      if |data| < 32 {
        ref := b;
      } else {
        var h := ForceInsertNode(data);
        ref := Data(h);
      }
    }

    /** `place`: put the value at the end of the key. */
    method Place(orig: Item, k: Nibbles, v: Bytes, ghost t: Trie, ghost n: int) returns (b: Item)
      requires StoreValid() && orig == NodeItem(sha3, t)
      requires Ready(t, k) && WellShaped(t) && Covers(sha3, db.main, t)
      requires t.Nil? || (t.Leaf? && t.key == k) || (t.Branch? && k == [] && Blob(sha3, t) in seen)
      requires Fits(t, n) && n <= KEY_LIMIT
      modifies db
      ensures StoreValid() && Grows(old(db.main), db.main)
      ensures b == NodeItem(sha3, Inserted(t, k, v))
      ensures Rewired(sha3, old(db.main), db.main, t, Inserted(t, k, v))
    {
      if t.Branch? && !Canon(t) {
        FreshBranchNotAlive(sha3, db.main, seen, t, k, n);
      }
      KillNode(orig, t);
      if orig == Data([]) {
        NilBlob(sha3);
        return List([Data(HexEncode(k, true)), Data(v)]);
      }
      if |orig.items| == 2 {
        TwoItemParts(sha3, t);
        return List([orig.items[0], Data(v)]);
      }
      BranchParts(sha3, t);
      b := List(orig.items[..16] + [Data(v)]);
    }

    /** `cleve`: cut the key and put the lower part into a node of its own. */
    method Cleve(orig: Item, s: nat, ghost t: Trie, ghost n: int) returns (top: Item)
      requires StoreValid() && orig == NodeItem(sha3, t)
      requires Canon(t) && TwoItem(t) && 0 < s <= |t.key| && (t.Ext? ==> s < |t.key|)
      requires Stored(db.main, sha3, t) && Covers(sha3, db.main, t)
      requires Fits(t, n) && n <= KEY_LIMIT && Blob(sha3, t.(key := t.key[s..])) in seen
      modifies db
      ensures StoreValid() && Grows(old(db.main), db.main)
      ensures top == NodeItem(sha3, Cleved(t, s)) && Stored(db.main, sha3, Cleved(t, s))
      ensures Rewired(sha3, old(db.main), db.main, t, Cleved(t, s))
    {
      hide NodeItem, Ref, Blob, HexEncode, KeyOf, IsLeafKey, OwnCount, StoreOk, NoCollision, Fits, Stored,
           Window, IsWindow;
      KeyFitsNode(t, n);
      Windows(t.key, 0, s);
      ghost var lower := t.(key := t.key[s..]);
      KillNode(orig, t);
      TwoItemParts(sha3, t);
      TwoItemParts(sha3, lower);
      TwoItemParts(sha3, Cleved(t, s));
      var leaf := IsLeafKey(orig.items[0].bytes);
      var bottomKey := EncodeKey(orig.items[0].bytes, 0, leaf, s, -1);
      var bottom := List([Data(bottomKey), orig.items[1]]);
      FitsCleved(t, n, s);
      assert Canon(lower) || TwoItem(lower);
      var ref := StreamNode(bottom, lower, n - s);
      var topKey := EncodeKey(orig.items[0].bytes, 0, false, 0, s);
      top := List([Data(topKey), ref]);
      CleveDone(sha3, old(db.main), db.main, t, s);
    }

    /** `branch`: spread a node out over sixteen slots, its first nibble choosing one. */
    method MakeBranch(orig: Item, ghost t: Trie, ghost n: int) returns (r: Item)
      requires StoreValid() && orig == NodeItem(sha3, t)
      requires Canon(t) && TwoItem(t)
      requires Stored(db.main, sha3, t) && Covers(sha3, db.main, t)
      requires Fits(t, n) && n <= KEY_LIMIT && (t.key != [] ==> Blob(sha3, AfterNibble(t)) in seen)
      modifies db
      ensures StoreValid() && Grows(old(db.main), db.main)
      ensures r == NodeItem(sha3, Branched(t)) && Stored(db.main, sha3, Branched(t))
      ensures Rewired(sha3, old(db.main), db.main, t, Branched(t))
    {
      hide NodeItem, Ref, Blob, HexEncode, KeyOf, IsLeafKey, Window, IsWindow, Fits, StoreOk, NoCollision, Stored;
      KillNode(orig, t);
      TwoItemParts(sha3, t);
      BranchedItem(sha3, t);
      FitsBranched(t, n);
      KeyFitsNode(t, n);
      var k, leaf := KeyOf(orig.items[0].bytes), IsLeafKey(orig.items[0].bytes);
      if k == [] {
        r := List(EMPTY_SLOTS + [orig.items[1]]);
      } else if leaf || |k| > 1 {
        Windows(k, 1, 0);
        var rest := EncodeKey(orig.items[0].bytes, 1, leaf, 0, -1);
        var below := List([Data(rest), orig.items[1]]);
        TwoItemParts(sha3, AfterNibble(t));
        var ref := StreamNode(below, AfterNibble(t), n - 1);
        r := List(EMPTY_SLOTS[k[0] := ref] + [Data([])]);
      } else {
        r := List(EMPTY_SLOTS[k[0] := orig.items[1]] + [Data([])]);
      }
      BranchedDone(sha3, old(db.main), db.main, t);
    }

    /** Gives up a node of the tree, unless it is in line. */
    method Release(orig: Item, inLine: bool, ghost t: Trie)
      requires StoreValid() && orig == NodeItem(sha3, t)
      requires InLineOk(sha3, t, inLine) && Covers(sha3, db.main, t)
      modifies db
      ensures StoreValid() && Grows(old(db.main), db.main)
      ensures Released(sha3, old(db.main), db.main, t)
    {
      if !inLine {
        KillNode(orig, t);
      }
    }

    /** `mergeAt`: put a value into the tree below a node that is in line or still to be
        killed; what it returns is for the caller to put in place. */
    method MergeAt(orig: Item, origHash: Hash, k: Nibbles, v: Bytes, inLine: bool, ghost t: Trie, ghost n: int)
      returns (b: Item)
      requires StoreValid() && orig == NodeItem(sha3, t) && origHash == sha3(Blob(sha3, t))
      requires Ready(t, k) && WellShaped(t) && InLineOk(sha3, t, inLine)
      requires Fits(t, n) && |k| <= n <= KEY_LIMIT && v != [] && |v| < VALUE_LIMIT
      requires Stored(db.main, sha3, t) && Covers(sha3, db.main, t)
      requires InsertTouch(sha3, t, k, v) <= seen
      modifies db
      ensures StoreValid() && Grows(old(db.main), db.main)
      ensures b == NodeItem(sha3, Inserted(t, k, v)) && Stored(db.main, sha3, Inserted(t, k, v))
      ensures Rewired(sha3, old(db.main), db.main, t, Inserted(t, k, v))
      decreases |k|, Rank(t, k), 1
    {
      Shape(sha3, t);
      hide NodeItem, OwnCount, Fits, Ref, Blob;
      if orig == Data([]) {
        b := Place(orig, k, v, t, n);
        return;
      }
      if |orig.items| == 17 {
        if k == [] {
          b := Place(orig, k, v, t, n);
          StoredGrows(old(db.main), db.main, sha3, t);
        } else {
          b := MergeIntoKid(orig, k, v, inLine, t, n);
        }
        return;
      }
      var key, leaf := KeyOf(orig.items[0].bytes), IsLeafKey(orig.items[0].bytes);
      if key == k && leaf {
        b := Place(orig, k, v, t, n);
      } else if key <= k && !leaf {
        b := MergeIntoChild(orig, k, v, inLine, t, n);
      } else if Shared(k, key) > 0 {
        b := MergeCleved(orig, k, v, t, n);
      } else {
        b := MergeBranched(orig, k, v, t, n);
      }
    }

    /** The key parts from a two-item node on the way: cleve there and enter again. */
    method MergeCleved(orig: Item, k: Nibbles, v: Bytes, ghost t: Trie, ghost n: int) returns (b: Item)
      requires StoreValid() && orig == NodeItem(sha3, t)
      requires Canon(t) && WellShaped(t) && TwoItem(t) && t.key != k && !(t.Ext? && t.key <= k)
      requires Shared(k, t.key) > 0
      requires Fits(t, n) && |k| <= n <= KEY_LIMIT && v != [] && |v| < VALUE_LIMIT
      requires Stored(db.main, sha3, t) && Covers(sha3, db.main, t)
      requires InsertTouch(sha3, t, k, v) <= seen
      modifies db
      ensures StoreValid() && Grows(old(db.main), db.main)
      ensures b == NodeItem(sha3, Inserted(t, k, v)) && Stored(db.main, sha3, Inserted(t, k, v))
      ensures Rewired(sha3, old(db.main), db.main, t, Inserted(t, k, v))
      decreases |k|, Rank(t, k), 0
    {
      WellShapedSteps(t);
      StepsAreReady(t, k);
      StepsAreNotCanon(t);
      FitsCleved(t, n, Shared(k, t.key));
      ghost var step := Cleved(t, Shared(k, t.key));
      Shape(sha3, t);
      var cleved := Cleve(orig, Shared(k, KeyOf(orig.items[0].bytes)), t, n);
      RewiredCovers(sha3, old(db.main), db.main, t, step);
      label cut:
      b := MergeAt(cleved, sha3(Encode(cleved)), k, v, true, step, n);
      RewiredTrans(sha3, old(db.main), old@cut(db.main), db.main, t, step, Inserted(t, k, v));
    }

    /** The key shares nothing with a two-item node: branch and enter again. */
    method MergeBranched(orig: Item, k: Nibbles, v: Bytes, ghost t: Trie, ghost n: int) returns (b: Item)
      requires StoreValid() && orig == NodeItem(sha3, t)
      requires Canon(t) && WellShaped(t) && TwoItem(t) && t.key != k && !(t.Ext? && t.key <= k)
      requires Shared(k, t.key) == 0
      requires Fits(t, n) && |k| <= n <= KEY_LIMIT && v != [] && |v| < VALUE_LIMIT
      requires Stored(db.main, sha3, t) && Covers(sha3, db.main, t)
      requires InsertTouch(sha3, t, k, v) <= seen
      modifies db
      ensures StoreValid() && Grows(old(db.main), db.main)
      ensures b == NodeItem(sha3, Inserted(t, k, v)) && Stored(db.main, sha3, Inserted(t, k, v))
      ensures Rewired(sha3, old(db.main), db.main, t, Inserted(t, k, v))
      decreases |k|, Rank(t, k), 0
    {
      WellShapedSteps(t);
      StepsAreReady(t, k);
      StepsAreNotCanon(t);
      FitsBranched(t, n);
      ghost var step := Branched(t);
      var branched := MakeBranch(orig, t, n);
      RewiredCovers(sha3, old(db.main), db.main, t, step);
      label spread:
      b := MergeAt(branched, sha3(Encode(branched)), k, v, true, step, n);
      RewiredTrans(sha3, old(db.main), old@spread(db.main), db.main, t, step, Inserted(t, k, v));
    }

    /** The key goes through an extension: move down. */
    method MergeIntoChild(orig: Item, k: Nibbles, v: Bytes, inLine: bool, ghost t: Trie, ghost n: int)
      returns (b: Item)
      requires StoreValid() && orig == NodeItem(sha3, t)
      requires Ready(t, k) && WellShaped(t) && InLineOk(sha3, t, inLine) && t.Ext? && t.key <= k
      requires Fits(t, n) && |k| <= n <= KEY_LIMIT && v != [] && |v| < VALUE_LIMIT
      requires Stored(db.main, sha3, t) && Covers(sha3, db.main, t)
      requires InsertTouch(sha3, t, k, v) <= seen
      modifies db
      ensures StoreValid() && Grows(old(db.main), db.main)
      ensures b == NodeItem(sha3, Inserted(t, k, v)) && Stored(db.main, sha3, Inserted(t, k, v))
      ensures Rewired(sha3, old(db.main), db.main, t, Inserted(t, k, v))
      decreases |k|, Rank(t, k), 0
    {
      Shape(sha3, t);
      TwoItemParts(sha3, t);
      ghost var rest := k[|t.key|..];
      Release(orig, inLine, t);
      StoredGrows(old(db.main), db.main, sha3, t);
      label released:
      var ref := MergeAtAux(orig.items[1], k[|KeyOf(orig.items[0].bytes)|..], v, t.child, n - |t.key|);
      b := List([orig.items[0], ref]);
      ChildRewired(sha3, old(db.main), old@released(db.main), db.main, t, Inserted(t.child, rest, v));
    }

    /** The key goes through a branch: move down at its first nibble. */
    method MergeIntoKid(orig: Item, k: Nibbles, v: Bytes, inLine: bool, ghost t: Trie, ghost n: int)
      returns (b: Item)
      requires StoreValid() && orig == NodeItem(sha3, t)
      requires Ready(t, k) && WellShaped(t) && InLineOk(sha3, t, inLine) && t.Branch? && k != []
      requires Fits(t, n) && |k| <= n <= KEY_LIMIT && v != [] && |v| < VALUE_LIMIT
      requires Stored(db.main, sha3, t) && Covers(sha3, db.main, t)
      requires InsertTouch(sha3, t, k, v) <= seen
      modifies db
      ensures StoreValid() && Grows(old(db.main), db.main)
      ensures b == NodeItem(sha3, Inserted(t, k, v)) && Stored(db.main, sha3, Inserted(t, k, v))
      ensures Rewired(sha3, old(db.main), db.main, t, Inserted(t, k, v))
      decreases |k|, Rank(t, k), 0
    {
      var i := k[0];
      ghost var c, c' := t.kids[i], Inserted(t.kids[i], k[1..], v);
      Release(orig, inLine, t);
      StoredGrows(old(db.main), db.main, sha3, t);
      BranchItemUpdate(sha3, t, i, c');
      KidCovered(sha3, db.main, t, i);
      label released:
      var ref := MergeAtAux(orig.items[i], k[1..], v, c, n - 1);
      b := List(orig.items[i := ref]);
      KidRewired(sha3, old(db.main), old@released(db.main), db.main, t, i, c');
    }

    /** `mergeAtAux`: below a reference; a hash is looked up and its node killed, a node in
        line goes with its parent. */
    method MergeAtAux(orig: Item, k: Nibbles, v: Bytes, ghost c: Trie, ghost n: int) returns (ref: Item)
      requires StoreValid() && orig == Ref(sha3, c)
      requires Canon(c) && WellShaped(c)
      requires Fits(c, n) && |k| <= n <= KEY_LIMIT && v != [] && |v| < VALUE_LIMIT
      requires StoredRef(db.main, sha3, c) && CoversRef(sha3, db.main, c)
      requires InsertTouch(sha3, c, k, v) + {Blob(sha3, Inserted(c, k, v))} <= seen
      modifies db
      ensures StoreValid() && Grows(old(db.main), db.main)
      ensures ref == Ref(sha3, Inserted(c, k, v)) && StoredRef(db.main, sha3, Inserted(c, k, v))
      ensures RewiredRef(sha3, old(db.main), db.main, c, Inserted(c, k, v))
      decreases |k|, Rank(c, k), 2
    {
      RefShape(sha3, c);
      CanonIsReady(c, k);
      InsertCanon(c, k, v);
      FitsInsert(c, n, k, v);
      var r, isRemovable := orig, false;
      if !r.List? && r != Data([]) {
        r := Node(orig.bytes, c, n);
        isRemovable := true;
      }
      var b := MergeAt(r, sha3(Encode(r)), k, v, !isRemovable, c, n);
      label merged:
      ref := StreamNode(b, Inserted(c, k, v), n);
      StoredGrows(old@merged(db.main), db.main, sha3, Inserted(c, k, v));
    }

    /** The root is in the store whatever its length: when it was short, the edit has not
        killed it yet. */
    method ReplaceRoot(b: Item, wasShort: bool, ghost t: Trie, ghost t': Trie)
      requires StoreValid() && Blob(sha3, Nil) in seen && Blob(sha3, t') in seen
      requires root == sha3(Blob(sha3, t)) && wasShort == !Hashed(sha3, t)
      requires b == NodeItem(sha3, t') && Canon(t') && Fits(t', KEY_LIMIT) && Stored(db.main, sha3, t')
      requires forall h: Hash :: Count(db.main, h) + OwnCount(sha3, t, h) ==
                 (if h == root then 1 else 0) + ChildCount(sha3, t', h)
      modifies this, db
      ensures Valid() && trie == t' && seen == old(seen)
    {
      hide NodeItem, Fits, Stored, ChildCount, StoreOk, NoCollision;
      NotLone(sha3, t', KEY_LIMIT);
      ghost var before := db.main;
      if wasShort {
        ForceKillNode(root);
      }
      assert forall h: Hash :: Count(db.main, h) == ChildCount(sha3, t', h);
      root := ForceInsertNode(Encode(b));
      trie := t';
      StoredGrows(before, db.main, sha3, t');
    }

    /** `insert`. The hypothesis is on the byte strings this call hashes and those before it. */
    method Insert(key: Bytes, value: Bytes)
      requires Valid()
      requires 2 * |key| <= KEY_LIMIT && value != [] && |value| < VALUE_LIMIT
      requires NoCollision(sha3, seen + InsertSeen(sha3, trie, AsNibbles(key), value))
      modifies this, db
      ensures Valid()
      ensures WellShaped(old(trie)) && trie == Inserted(old(trie), AsNibbles(key), value)
      ensures seen == old(seen) + InsertSeen(sha3, old(trie), AsNibbles(key), value)
    {
      ghost var t, k := trie, AsNibbles(key);
      CanonIsWellShaped(t);
      CanonIsReady(t, k);
      InsertCanon(t, k, value);
      FitsInsert(t, KEY_LIMIT, k, value);
      seen := seen + InsertSeen(sha3, t, k, value);
      SeenMore(sha3, db.main, old(seen), seen);
      var rootValue := db.LookupNode(root);
      var item := Node(root, t, KEY_LIMIT);
      hide Blob, NodeItem, Fits, Ready, Canon, Stored, StoreOk, NoCollision;
      var b := MergeAt(item, root, AsNibbles(key), value, false, t, KEY_LIMIT);
      ReplaceRoot(b, |rootValue| < 32, t, Inserted(t, k, value));
    }

    /** `isTwoItemNode`, for a reference. */
    method IsTwoItemNode(ref: Item, ghost c: Trie, ghost n: int) returns (r: bool)
      requires ref == Ref(sha3, c) && c != Nil && WellShaped(c) && StoredRef(db.main, sha3, c)
      requires Fits(c, n) && n <= KEY_LIMIT
      ensures r == TwoItem(c)
    {
      RefShape(sha3, c);
      Shape(sha3, c);
      var item := ref;
      if ref.Data? {
        item := Node(ref.bytes, c, n);
      }
      r := |item.items| == 2;
    }

    /** `graft`: join the keys; a node below that was stored is given up. */
    method Graft(orig: Item, ghost key: Nibbles, ghost c: Trie, ghost n: int) returns (b: Item)
      requires StoreValid() && orig == List([Data(HexEncode(key, false)), Ref(sha3, c)]) && |key| <= KEY_LIMIT
      requires TwoItem(c) && StoredRef(db.main, sha3, c) && CoversRef(sha3, db.main, c)
      requires Fits(c, n) && n <= KEY_LIMIT
      modifies db
      ensures StoreValid() && Grows(old(db.main), db.main)
      ensures b == NodeItem(sha3, Grafted(key, c)) && Stored(db.main, sha3, Grafted(key, c))
      ensures RewiredTo(sha3, old(db.main), db.main, c, Grafted(key, c))
    {
      hide NodeItem, HexEncode, Fits, Ref, KeyOf, IsLeafKey, RefCount, ChildCount, NoCollision, StoreOk;
      RoundTrip(key, false);
      RefShape(sha3, c);
      TwoItemParts(sha3, c);
      KeyFitsNode(c, n);
      var below := orig.items[1];
      if !below.List? {
        var h := below.bytes;
        below := Node(h, c, n);
        ForceKillNode(h);
      }
      StoredGrows(old(db.main), db.main, sha3, c);
      GraftedBelow(sha3, db.main, key, c);
      GraftedCounts(sha3, old(db.main), db.main, key, c);
      var leaf := IsLeafKey(below.items[0].bytes);
      var joined := EncodeKeys(orig.items[0].bytes, below.items[0].bytes, leaf);
      b := List([Data(joined), below.items[1]]);
    }

    /** `graft`, if the node below is a two-item node; otherwise the node as it stands. */
    method GraftIfDue(orig: Item, ghost key: Nibbles, ghost c: Trie, ghost n: int) returns (b: Item)
      requires StoreValid() && orig == List([Data(HexEncode(key, false)), Ref(sha3, c)]) && |key| <= KEY_LIMIT
      requires c != Nil && WellShaped(c) && StoredRef(db.main, sha3, c) && CoversRef(sha3, db.main, c)
      requires Fits(c, n) && n <= KEY_LIMIT
      modifies db
      ensures StoreValid() && Grows(old(db.main), db.main)
      ensures b == NodeItem(sha3, Grafted(key, c)) && Stored(db.main, sha3, Grafted(key, c))
      ensures RewiredTo(sha3, old(db.main), db.main, c, Grafted(key, c))
    {
      var two := IsTwoItemNode(orig.items[1], c, n);
      if two {
        b := Graft(orig, key, c, n);
      } else {
        b := orig;
      }
    }

    /** `isTwoItemNode`, for the value of a branch: it is looked up as if it were a hash. */
    method IsTwoItemValue(value: Bytes) returns (r: Result<bool>)
      requires StoreValid() && NotAHash(sha3, seen, value)
      ensures r == if |value| > 32 then Throws(BadCast) else Ok(false)
    {
      var h :- ToHash(value);
      NamesNothing(sha3, db.main, seen, value);
      var s := db.LookupNode(h);
      r := Ok(ItemCount(s) == Ok(2));
    }

    /** `merge`: a branch down to one slot becomes an extension to its child, or a leaf. */
    method Merge(orig: Item, i: nat) returns (b: Item)
      requires orig.List? && |orig.items| == 17 && i <= 16
      ensures b == List([Data(if i < 16 then HexEncode([i], false) else HexEncode([], true)), orig.items[i]])
    {
      var ret;
      if i != 16 {
        SecondNibble(i);
        ret := EncodeSlice([i], false, 1, 2, 0);
      } else {
        ret := EncodeVector([], true, 0, -1);
      }
      b := List([Data(ret), orig.items[i]]);
    }

    /** `deleteAt`: None when the key is not there; otherwise the node that remains, Data([])
        when none does. */
    method DeleteAt(orig: Item, k: Nibbles, ghost t: Trie, ghost n: int) returns (r: Result<Option<Item>>)
      requires StoreValid() && orig == NodeItem(sha3, t)
      requires Canon(t) && WellShaped(t) && Apart(sha3, seen, t, k)
      requires Fits(t, n) && |k| <= n <= KEY_LIMIT
      requires Stored(db.main, sha3, t) && Covers(sha3, db.main, t)
      requires DeleteTouch(sha3, t, k) <= seen
      modifies db
      ensures StoreValid() && Grows(old(db.main), db.main)
      ensures Get(t, k) == [] ==> db.main == old(db.main)
      ensures match Fault(t, k)
              case Some(e) => r == Throws(e) && LostBy(sha3, old(db.main), db.main, t, k)
              case None => r.Ok? && (r.value.None? <==> Get(t, k) == [])
      ensures r.Ok? && r.value.Some? ==>
                && r.value.value == NodeItem(sha3, Deleted(t, k)) && Stored(db.main, sha3, Deleted(t, k))
                && Rewired(sha3, old(db.main), db.main, t, Deleted(t, k))
      decreases t, 1
    {
      Shape(sha3, t);
      if orig == Data([]) {
        return Ok(None);
      }
      if |orig.items| == 2 {
        var key, leaf := KeyOf(orig.items[0].bytes), IsLeafKey(orig.items[0].bytes);
        if key == k && leaf {
          KillNode(orig, t);
          r := Ok(Some(Data([])));
        } else if key <= k && !leaf {
          r := DeleteFromChild(orig, k, t, n);
        } else if key <= k {
          r := DeleteBelowValue(orig.items[1].bytes, k, t);
        } else {
          r := Ok(None);
        }
      } else if k == [] && Used(orig.items[16]) {
        var b := DeleteValue(orig, t, n);
        r := Ok(Some(b));
      } else if k == [] {
        r := Throws(NibblePastEnd);
      } else {
        r := DeleteFromKid(orig, k, t, n);
      }
    }

    /** The key goes on behind a leaf: the value is taken for a reference, and the null node
        found there for a branch, whose children are no hashes either. */
    method DeleteBelowValue(value: Bytes, ghost k: Nibbles, ghost t: Trie) returns (r: Result<Option<Item>>)
      requires StoreValid() && t.Leaf? && t.value == value && value != []
      requires t.key <= k && t.key != k && Apart(sha3, seen, t, k)
      ensures r == Throws(Fault(t, k).value)
    {
      assert Has(t, t.key);
      var h :- ToHash(value);
      NamesNothing(sha3, db.main, seen, value);
      var s := db.LookupNode(h);
      r := Throws(RequireGood(s).error);
    }

    /** The key goes through an extension. */
    method DeleteFromChild(orig: Item, k: Nibbles, ghost t: Trie, ghost n: int) returns (r: Result<Option<Item>>)
      requires StoreValid() && orig == NodeItem(sha3, t)
      requires Canon(t) && WellShaped(t) && Apart(sha3, seen, t, k) && t.Ext? && t.key <= k
      requires Fits(t, n) && |k| <= n <= KEY_LIMIT
      requires Stored(db.main, sha3, t) && Covers(sha3, db.main, t)
      requires DeleteTouch(sha3, t, k) <= seen
      modifies db
      ensures StoreValid() && Grows(old(db.main), db.main)
      ensures Get(t, k) == [] ==> db.main == old(db.main)
      ensures match Fault(t, k)
              case Some(e) => r == Throws(e) && LostBy(sha3, old(db.main), db.main, t, k)
              case None => r.Ok? && (r.value.None? <==> Get(t, k) == [])
      ensures r.Ok? && r.value.Some? ==>
                && r.value.value == NodeItem(sha3, Deleted(t, k)) && Stored(db.main, sha3, Deleted(t, k))
                && Rewired(sha3, old(db.main), db.main, t, Deleted(t, k))
      decreases t, 0
    {
      hide NodeItem, Blob, Fits, Canon, WellShaped, Apart, Deleted, DeleteTouch, HexEncode, Get, Ref,
           RefCount, StoreOk, NoCollision, Grafted, Fault, Lost;
      TwoItemParts(sha3, t);
      KeyFitsNode(t, n);
      ChildToDelete(sha3, seen, t, k, n);
      ghost var c := Deleted(t.child, k[|t.key|..]);
      var key := KeyOf(orig.items[0].bytes);
      var ref :- DeleteAtAux(orig.items[1], k[|key|..], t.child, n - |t.key|);
      if ref.None? {
        return Ok(None);
      }
      var b := Rejoin(orig, List([orig.items[0], ref.value]), t, c, n, old(db.main));
      r := Ok(Some(b));
    }

    /** The child has been replaced: kill the extension, and join it to a two-item child. */
    method Rejoin(orig: Item, rlp: Item, ghost t: Trie, ghost c: Trie, ghost n: int, ghost before: Main)
      returns (b: Item)
      requires StoreValid() && orig == NodeItem(sha3, t) && t.Ext? && Canon(t)
      requires rlp == List([Data(HexEncode(t.key, false)), Ref(sha3, c)])
      requires c != Nil && WellShaped(c) && Fits(c, n - |t.key|) && |t.key| <= n <= KEY_LIMIT
      requires Covers(sha3, before, t) && RewiredRef(sha3, before, db.main, t.child, c)
      requires StoredRef(db.main, sha3, c)
      modifies db
      ensures StoreValid() && Grows(old(db.main), db.main)
      ensures b == NodeItem(sha3, Grafted(t.key, c)) && Stored(db.main, sha3, Grafted(t.key, c))
      ensures Rewired(sha3, before, db.main, t, Grafted(t.key, c))
    {
      hide NodeItem, Blob, Fits, Canon, WellShaped, HexEncode, Ref;
      ChildStillCovers(sha3, before, db.main, t, c);
      KillNode(orig, t);
      label killed:
      StoredGrows(old(db.main), db.main, sha3, c);
      b := GraftIfDue(rlp, t.key, c, n - |t.key|);
      ExtDeleted(sha3, before, old(db.main), old@killed(db.main), db.main, t, c, Grafted(t.key, c));
    }

    method DeleteAtAux(orig: Item, k: Nibbles, ghost c: Trie, ghost n: int) returns (ref: Result<Option<Item>>)
      requires StoreValid() && orig == Ref(sha3, c)
      requires Canon(c) && WellShaped(c) && Apart(sha3, seen, c, k)
      requires Fits(c, n) && |k| <= n <= KEY_LIMIT
      requires StoredRef(db.main, sha3, c) && CoversRef(sha3, db.main, c)
      requires DeleteTouch(sha3, c, k) + {Blob(sha3, Deleted(c, k))} <= seen
      modifies db
      ensures StoreValid() && Grows(old(db.main), db.main)
      ensures Get(c, k) == [] ==> db.main == old(db.main)
      ensures match Fault(c, k)
              case Some(e) => ref == Throws(e) && LostBy(sha3, old(db.main), db.main, c, k)
              case None => ref.Ok? && (ref.value.None? <==> Get(c, k) == [])
      ensures ref.Ok? && ref.value.Some? ==>
                && ref.value.value == Ref(sha3, Deleted(c, k)) && StoredRef(db.main, sha3, Deleted(c, k))
                && RewiredRef(sha3, old(db.main), db.main, c, Deleted(c, k))
      decreases c, 2
    {
      RefShape(sha3, c);
      if orig == Data([]) {
        return Ok(None);
      }
      DeleteCanon(c, k);
      FitsDelete(c, n, k);
      var r := orig;
      if !r.List? {
        r := Node(orig.bytes, c, n);
      }
      var b :- DeleteAt(r, k, c, n);
      if b.None? {
        return Ok(None);
      }
      label deleted:
      var s := StreamNode(b.value, Deleted(c, k), n);
      StoredGrows(old@deleted(db.main), db.main, sha3, Deleted(c, k));
      ref := Ok(Some(s));
    }

    /** A value at a branch. */
    method DeleteValue(orig: Item, ghost t: Trie, ghost n: int) returns (b: Item)
      requires StoreValid() && orig == NodeItem(sha3, t)
      requires Canon(t) && WellShaped(t) && t.Branch? && t.value != []
      requires Fits(t, n) && n <= KEY_LIMIT
      requires Stored(db.main, sha3, t) && Covers(sha3, db.main, t)
      modifies db
      ensures StoreValid() && Grows(old(db.main), db.main)
      ensures b == NodeItem(sha3, Deleted(t, [])) && Stored(db.main, sha3, Deleted(t, []))
      ensures Rewired(sha3, old(db.main), db.main, t, Deleted(t, []))
    {
      ghost var t' := Branch(t.kids, []);
      BranchParts(sha3, t);
      BranchParts(sha3, t');
      assert NodeItem(sha3, t').items == orig.items[16 := Data([])];
      KillNode(orig, t);
      StoredGrows(old(db.main), db.main, sha3, t);
      var used := UniqueInUse(orig.items, 16);
      UniqueSlot(sha3, t', used);
      if used != 255 {
        b := DrawUp(orig, used, t, t', n, old(db.main));
      } else {
        b := List(orig.items[..16] + [Data([])]);
      }
    }

    /** A child of a branch. */
    method DeleteFromKid(orig: Item, k: Nibbles, ghost t: Trie, ghost n: int) returns (r: Result<Option<Item>>)
      requires StoreValid() && orig == NodeItem(sha3, t)
      requires Canon(t) && WellShaped(t) && Apart(sha3, seen, t, k) && t.Branch? && k != []
      requires Fits(t, n) && |k| <= n <= KEY_LIMIT
      requires Stored(db.main, sha3, t) && Covers(sha3, db.main, t)
      requires DeleteTouch(sha3, t, k) <= seen
      modifies db
      ensures StoreValid() && Grows(old(db.main), db.main)
      ensures Get(t, k) == [] ==> db.main == old(db.main)
      ensures match Fault(t, k)
              case Some(e) => r == Throws(e) && LostBy(sha3, old(db.main), db.main, t, k)
              case None => r.Ok? && (r.value.None? <==> Get(t, k) == [])
      ensures r.Ok? && r.value.Some? ==>
                && r.value.value == NodeItem(sha3, Deleted(t, k)) && Stored(db.main, sha3, Deleted(t, k))
                && Rewired(sha3, old(db.main), db.main, t, Deleted(t, k))
      decreases t, 0
    {
      hide NodeItem, Blob, Fits, Canon, WellShaped, Apart, Deleted, DeleteTouch, Get, Ref, NotAHash,
           RefCount, StoreOk, NoCollision, Merged, OnlySlot, OwnCount, LeavesLongValue, Fault, Lost;
      var i := k[0];
      KidToDelete(sha3, seen, t, k, n);
      FaultAtKid(sha3, t, k);
      ghost var c := Deleted(t.kids[i], k[1..]);
      BranchItemUpdate(sha3, t, i, c);
      KidCovered(sha3, db.main, t, i);
      var ref :- DeleteAtAux(orig.items[i], k[1..], t.kids[i], n - 1);
      if ref.None? {
        return Ok(None);
      }
      StoredGrows(old(db.main), db.main, sha3, t);
      var b :- Rejig(orig, List(orig.items[i := ref.value]), i, t, c, n, old(db.main));
      r := Ok(Some(b));
    }

    /** A child has been replaced: kill the branch, and do away with it if only one slot is
        left. What is left may be a value, and too long to be taken for a hash. */
    method Rejig(orig: Item, rlp: Item, ghost i: nat, ghost t: Trie, ghost c: Trie, ghost n: int, ghost before: Main)
      returns (b: Result<Item>)
      requires StoreValid() && orig == NodeItem(sha3, t) && t.Branch? && |t.kids| == 16 && i < 16
      requires rlp == NodeItem(sha3, Branch(t.kids[i := c], t.value))
      requires Canon(t) && WellShaped(c) && (t.value != [] ==> NotAHash(sha3, seen, t.value))
      requires n <= KEY_LIMIT && Fits(Branch(t.kids[i := c], t.value), n)
      requires Covers(sha3, before, t) && RewiredRef(sha3, before, db.main, t.kids[i], c)
      requires Stored(db.main, sha3, t) && StoredRef(db.main, sha3, c)
      modifies db
      ensures StoreValid() && Grows(old(db.main), db.main)
      ensures var s := Branch(t.kids[i := c], t.value);
              if OnlySlot(s, 16) && |t.value| > 32 then
                && b == Throws(BadCast)
                && forall h: Hash :: Count(db.main, h) + RefCount(sha3, t.kids[i], h) + OwnCount(sha3, t, h) ==
                                     Count(before, h)
              else
                && b == Ok(NodeItem(sha3, Merged(s))) && Stored(db.main, sha3, Merged(s))
                && Rewired(sha3, before, db.main, t, Merged(s))
    {
      ghost var s := Branch(t.kids[i := c], t.value);
      BranchParts(sha3, s);
      OnlyOneSlot(s);
      hide NodeItem, Blob, NotAHash, RefCount, OwnCount, OnlySlot;
      StillCovers(sha3, before, db.main, t, i, c);
      KillNode(orig, t);
      BranchDeleted(sha3, before, old(db.main), db.main, t, i, c);
      assert Stored(old(db.main), sha3, s);
      StoredGrows(old(db.main), db.main, sha3, s);
      var used := UniqueInUse(rlp.items, 255);
      UniqueSlot(sha3, s, used);
      if used == 255 {
        return Ok(rlp);
      }
      CanonIsWellShaped(t);
      if used == 16 {
        if |t.value| > 32 {
          AllBelowLost(sha3, before, old(db.main), db.main, t, i, c);
        }
        var _ :- IsTwoItemValue(rlp.items[16].bytes);
        var leaf := Merge(rlp, 16);
        ValueDrawnUp(sha3, before, db.main, t, s);
        LeafItem(sha3, db.main, [], s.value);
        return Ok(leaf);
      }
      var drawn := DrawUp(rlp, used, t, s, n, before);
      b := Ok(drawn);
    }

    /** `merge`, and `graft` if it is due: the last child `used` of `s` takes its place. */
    method DrawUp(rlp: Item, used: nat, ghost t: Trie, ghost s: Trie, ghost n: int, ghost before: Main)
      returns (b: Item)
      requires StoreValid() && s.Branch? && |s.kids| == 16 && used < 16 && OnlySlot(s, used)
      requires rlp.List? && |rlp.items| == 17 && rlp.items[used] == Ref(sha3, s.kids[used])
      requires Canon(t) && Covers(sha3, before, t) && Rewired(sha3, before, db.main, t, s)
      requires WellShaped(s.kids[used]) && StoredRef(db.main, sha3, s.kids[used])
      requires Fits(s.kids[used], n - 1) && n <= KEY_LIMIT
      modifies db
      ensures StoreValid() && Grows(old(db.main), db.main)
      ensures b == NodeItem(sha3, MergedAt(s, used)) && Stored(db.main, sha3, MergedAt(s, used))
      ensures Rewired(sha3, before, db.main, t, MergedAt(s, used))
    {
      hide HexEncode, NodeItem, Ref, RefCount, Blob, StoreOk, NoCollision, Fits, WellShaped, Canon, Held;
      KidDrawnUpCovers(sha3, before, db.main, t, s, used);
      var merged := Merge(rlp, used);
      b := GraftIfDue(merged, [used], s.kids[used], n - 1);
      KidDrawnUp(sha3, before, old(db.main), db.main, t, s, used, MergedAt(s, used));
    }

    /** `remove`. Where it throws although the key is there, references to nodes that are
        still needed have been given up; every key can still be read. */
    method Remove(key: Bytes) returns (ok: Result<()>)
      requires Valid() && 2 * |key| <= KEY_LIMIT
      requires NoCollision(sha3, seen + DeleteSeen(sha3, trie, AsNibbles(key)))
      requires Apart(sha3, seen + DeleteSeen(sha3, trie, AsNibbles(key)), trie, AsNibbles(key))
      modifies this, db
      ensures WellShaped(old(trie))
      ensures match Fault(old(trie), AsNibbles(key))
              case Some(e) =>
                && ok == Throws(e) && trie == old(trie) && root == old(root)
                && LostBy(sha3, old(db.main), db.main, trie, AsNibbles(key))
                && Readable() && (Valid() <==> Get(trie, AsNibbles(key)) == [])
              case None => ok == Ok(()) && Valid() && trie == Deleted(old(trie), AsNibbles(key))
      ensures Get(old(trie), AsNibbles(key)) == [] ==> db.main == old(db.main) && trie == old(trie)
      ensures seen == old(seen) + DeleteSeen(sha3, old(trie), AsNibbles(key))
    {
      ghost var t, k := trie, AsNibbles(key);
      DeleteCanon(t, k);
      FitsDelete(t, KEY_LIMIT, k);
      seen := seen + DeleteSeen(sha3, t, k);
      SeenMore(sha3, db.main, old(seen), seen);
      var rv := db.LookupNode(root);
      var item := Node(root, t, KEY_LIMIT);
      hide Blob, NodeItem, Fits, Canon, Stored, StoreOk, NoCollision, Apart, Fault, Lost;
      var b := DeleteAt(item, AsNibbles(key), t, KEY_LIMIT);
      if b.Throws? {
        ghost var h := LostWhenStored(sha3, t, k);
        StoredGrows(old(db.main), db.main, sha3, t);
        return Throws(b.error);
      }
      if b.value.Some? {
        ReplaceRoot(b.value.value, |rv| < 32, t, Deleted(t, k));
      } else {
        DeleteAbsent(t, k);
      }
      ok := Ok(());
    }

    // ---- reading ----

    /** `deref`: the node a reference stands for. */
    function Deref(ref: Item, ghost t: Trie, ghost n: int): (item: Item)
      requires ref == Ref(sha3, t) && t != Nil && WellShaped(t) && StoredRef(db.main, sha3, t)
      requires Fits(t, n) && n <= KEY_LIMIT
      reads db
      ensures item == NodeItem(sha3, t)
    {
      RefShape(sha3, t);
      Shape(sha3, t);
      if ref.List? then ref
      else
        DecodeBlob(sha3, t, n);
        Decode(Lookup(db.main, ref.bytes)).value
    }

    /** `atAux`, at a node of any kind. */
    function AtAux(here: Item, key: Nibbles, ghost t: Trie, ghost n: int): (value: Bytes)
      requires here == NodeItem(sha3, t) && WellShaped(t) && Stored(db.main, sha3, t)
      requires Fits(t, n) && n <= KEY_LIMIT
      reads db
      ensures value == Get(t, key)
      decreases t, 1
    {
      Shape(sha3, t);
      if here == Data([]) then []
      else if |here.items| == 2 then AtPair(here, key, t, n)
      else AtBranch(here, key, t, n)
    }

    function AtPair(here: Item, key: Nibbles, ghost t: Trie, ghost n: int): (value: Bytes)
      requires here == NodeItem(sha3, t) && TwoItem(t) && WellShaped(t) && Stored(db.main, sha3, t)
      requires Fits(t, n) && n <= KEY_LIMIT
      reads db
      ensures value == Get(t, key)
      decreases t, 0
    {
      TwoItemParts(sha3, t);
      var k := KeyOf(here.items[0].bytes);
      if key == k && IsLeafKey(here.items[0].bytes) then here.items[1].bytes
      else if k <= key && !IsLeafKey(here.items[0].bytes) then
        AtAux(Deref(here.items[1], t.child, n - |t.key|), key[|k|..], t.child, n - |t.key|)
      else []
    }

    function AtBranch(here: Item, key: Nibbles, ghost t: Trie, ghost n: int): (value: Bytes)
      requires here == NodeItem(sha3, t) && t.Branch? && WellShaped(t) && Stored(db.main, sha3, t)
      requires Fits(t, n) && n <= KEY_LIMIT
      reads db
      ensures value == Get(t, key)
      decreases t, 0
    {
      BranchParts(sha3, t);
      if key == [] then here.items[16].bytes
      else
        BranchItemUpdate(sha3, t, key[0], Nil);
        RefUsed(sha3, t.kids[key[0]]);
        var next := here.items[key[0]];
        if next == Data([]) then []
        else AtAux(Deref(next, t.kids[key[0]], n - 1), key[1..], t.kids[key[0]], n - 1)
    }

    /** `at`: the value under a key, empty when there is none. */
    method At(key: Bytes) returns (value: Bytes)
      requires Readable()
      ensures value == Get(trie, AsNibbles(Counted(key)))
    {
      CanonIsWellShaped(trie);
      var item := Node(root, trie, KEY_LIMIT);
      value := AtAux(item, AsNibbles(Counted(key)), trie, KEY_LIMIT);
    }

    /** `purge` of the store between two operations. */
    method PurgeStore()
      requires Valid()
      modifies db
      ensures Valid()
    {
      StoredPurged(db.main, sha3, trie);
      assert Count(db.main, root) > 0;
      ghost var was := db.main;
      db.Purge();
      forall h | h in db.main
        ensures EntryOk(sha3, db.main, seen, h)
      {
        assert EntryOk(sha3, was, seen, h);
      }
      forall h: Hash
        ensures Count(db.main, h) == Count(was, h)
      {
      }
    }

    // ---- the whole-trie check ----

    /** The hashes left of a mask when those a tree refers to are taken away. */
    ghost predicate IsLeft(mask: set<Hash>, left: set<Hash>, t: Trie)
    {
      forall h: Hash :: h in left <==> h in mask && RefCount(sha3, t, h) == 0
    }

    /** `descendList`: a two-item node, not below an extension, or a branch. */
    method DescendList(r: Item, mask: set<Hash>, wasExt: bool, ghost t: Trie, ghost n: int)
      returns (left: Result<set<Hash>>)
      requires r == NodeItem(sha3, t) && Canon(t) && t != Nil && (wasExt ==> t.Branch?)
      requires Readable() && Stored(db.main, sha3, t) && Fits(t, n) && n <= KEY_LIMIT
      ensures left.Ok? && forall h: Hash :: h in left.value <==> h in mask && ChildCount(sha3, t, h) == 0
      decreases t, 0, 2
    {
      Shape(sha3, t);
      if |r.items| == 2 && !wasExt {
        TwoItemParts(sha3, t);
        if IsLeafKey(r.items[0].bytes) {
          left := Ok(mask);
        } else {
          left := DescendEntry(r.items[1], mask, true, t.child, n - |t.key|);
        }
      } else if |r.items| == 17 {
        var rest := DescendKids(r, mask, t, n);
        left := Ok(rest);
      } else {
        left := Throws(InvalidTrie);
      }
    }

    /** The loop of `descendList` over the children of a branch. */
    method DescendKids(r: Item, mask: set<Hash>, ghost t: Trie, ghost n: int) returns (rest: set<Hash>)
      requires r == NodeItem(sha3, t) && Canon(t) && t.Branch?
      requires Readable() && Stored(db.main, sha3, t) && Fits(t, n) && n <= KEY_LIMIT
      ensures forall h: Hash :: h in rest <==> h in mask && KidCount(sha3, t.kids, h) == 0
      decreases t, 0, 1
    {
      hide KidCount, RefCount, NodeItem, Ref;
      rest := mask;
      NoKidsCount(sha3, t.kids);
      Shape(sha3, t);
      for i := 0 to 16
        invariant forall h: Hash :: h in rest <==> h in mask && KidCount(sha3, t.kids[..i], h) == 0
      {
        rest := DescendKid(r, rest, i, t, n, mask);
      }
      assert t.kids[..16] == t.kids;
    }

    /** One child: an empty slot takes nothing off the mask. */
    method DescendKid(r: Item, mask: set<Hash>, i: nat, ghost t: Trie, ghost n: int, ghost all: set<Hash>)
      returns (rest: set<Hash>)
      requires r == NodeItem(sha3, t) && Canon(t) && t.Branch? && i < 16
      requires Readable() && Stored(db.main, sha3, t) && Fits(t, n) && n <= KEY_LIMIT
      requires forall h: Hash :: h in mask <==> h in all && KidCount(sha3, t.kids[..i], h) == 0
      ensures forall h: Hash :: h in rest <==> h in all && KidCount(sha3, t.kids[..i + 1], h) == 0
      decreases t, 0, 0
    {
      hide KidCount, RefCount, NodeItem, Ref;
      BranchItemUpdate(sha3, t, i, Nil);
      RefUsed(sha3, t.kids[i]);
      rest := mask;
      if r.items[i] != Data([]) {
        var below := DescendEntry(r.items[i], mask, false, t.kids[i], n - 1);
        rest := below.value;
      }
      forall h: Hash
        ensures h in rest <==> h in all && KidCount(sha3, t.kids[..i + 1], h) == 0
      {
        KidCountTake(sha3, t.kids, i, h);
        RefCountNil(sha3, h);
      }
    }

    /** `descendEntry`: a hash of 32 bytes, or a node in line. */
    method DescendEntry(r: Item, mask: set<Hash>, wasExt: bool, ghost t: Trie, ghost n: int)
      returns (left: Result<set<Hash>>)
      requires r == Ref(sha3, t) && Canon(t) && t != Nil && (wasExt ==> t.Branch?)
      requires Readable() && StoredRef(db.main, sha3, t) && Fits(t, n) && n <= KEY_LIMIT
      ensures left.Ok? && IsLeft(mask, left.value, t)
      decreases t, 2
    {
      RefShape(sha3, t);
      Shape(sha3, t);
      if r.Data? && |r.bytes| == 32 {
        left := DescendKey(r.bytes, mask, wasExt, t, n);
      } else if r.List? {
        left := DescendList(r, mask, wasExt, t, n);
      } else {
        left := Throws(InvalidTrie);
      }
    }

    /** `descendKey`: strike the hash off the mask and look at its node; the root may be the
        empty trie. */
    method DescendKey(k: Hash, mask: set<Hash>, wasExt: bool, ghost t: Trie, ghost n: int)
      returns (left: Result<set<Hash>>)
      requires k == sha3(Blob(sha3, t)) && Canon(t) && (wasExt ==> t.Branch?) && (t == Nil ==> k == root)
      requires Readable() && Lookup(db.main, k) == Blob(sha3, t) && Stored(db.main, sha3, t)
      requires Fits(t, n) && n <= KEY_LIMIT
      ensures left.Ok? && forall h: Hash :: h in left.value <==> h in mask && h != k && ChildCount(sha3, t, h) == 0
      decreases t, 1
    {
      NilBlob(sha3);
      Shape(sha3, t);
      var rest := mask - {k};
      if k == root {
        OnlyNilIsEmpty(t, n);
      }
      if k == root && k == sha3([DATA_IMM_LEN_START]) {
        return Ok(rest);
      }
      var r := Node(k, t, n);
      left := DescendList(r, rest, wasExt, t, n);
    }

    /** The hash of the empty trie belongs to the empty trie alone. */
    lemma OnlyNilIsEmpty(t: Trie, n: int)
      requires Fits(t, n) && n <= KEY_LIMIT && Readable()
      requires sha3(Blob(sha3, t)) == root && Lookup(db.main, root) == Blob(sha3, t)
      ensures root == sha3(Blob(sha3, Nil)) <==> t == Nil
    {
      assert Blob(sha3, t) != [];
      assert EntryOk(sha3, db.main, seen, root);
      NilBlobOnly(sha3, t, n);
    }

    /** Something else is kept alive than the nodes of the trie. */
    ghost predicate HasLeftOver(h: Hash)
      reads this, db
    {
      Count(db.main, h) > 0 && h != root && ChildCount(sha3, trie, h) == 0
    }

    /** `leftOvers`: what the store keeps alive beyond the nodes of the trie. */
    method LeftOvers() returns (left: Result<set<Hash>>)
      requires Readable()
      ensures left.Ok? && forall h: Hash :: h in left.value <==> HasLeftOver(h)
    {
      var k := db.Keys();
      left := DescendKey(root, k, false, trie, KEY_LIMIT);
    }

    /** `check`: false exactly when no leftovers are allowed and there are some. */
    method Check(requireNoLeftOvers: bool) returns (ok: bool)
      requires Readable()
      ensures ok <==> requireNoLeftOvers ==> forall h: Hash :: !HasLeftOver(h)
      ensures Valid() ==> ok
    {
      var left := LeftOvers();
      assert left.value != {} ==> exists h: Hash :: h in left.value && HasLeftOver(h);
      ok := match left
            case Ok(keys) => keys == {} || !requireNoLeftOvers
            case Throws(_) => false;
    }
  }

  /** Where a deletion below a branch fails. */
  lemma FaultAtKid(H: Hasher, t: Trie, k: Nibbles)
    requires Canon(t) && WellShaped(t) && t.Branch? && k != []
    ensures WellShaped(t.kids[k[0]])
    ensures Fault(t.kids[k[0]], k[1..]).Some? ==>
              Fault(t, k) == Fault(t.kids[k[0]], k[1..])
              && forall h: Hash :: Lost(H, t, k, h) == Lost(H, t.kids[k[0]], k[1..], h)
    ensures Fault(t.kids[k[0]], k[1..]).None? ==>
              && Fault(t, k) == (if |t.value| > 32 && OnlySlot(KidDeleted(t, k), 16) then Some(BadCast) else None)
              && forall h: Hash :: Lost(H, t, k, h) == RefCount(H, t.kids[k[0]], h) + OwnCount(H, t, h)
    ensures Fault(t, k).Some? && Get(t, k) == [] ==> Fault(t.kids[k[0]], k[1..]).Some?
  {
    LastBelowValue(t, k);
  }

  lemma OnlyOneSlot(t: Trie)
    requires t.Branch? && |t.kids| == 16
    ensures forall i: nat, j: nat | OnlySlot(t, i) && OnlySlot(t, j) :: i == j
    ensures OnlySlot(t, 16) ==> t.value != []
  {
  }

  lemma LeafItem(H: Hasher, main: Main, key: Nibbles, value: Bytes)
    ensures NodeItem(H, Leaf(key, value)) == List([Data(HexEncode(key, true)), Data(value)])
    ensures Stored(main, H, Leaf(key, value))
  {
  }

  lemma NoKidsCount(H: Hasher, kids: seq<Trie>)
    ensures forall h: Hash :: KidCount(H, kids[..0], h) == 0
  {
    assert kids[..0] == [];
  }
}
