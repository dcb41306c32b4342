/**
 Whole runs of the incremental trie, and its agreement with the batch construction.
 */
module TrieRun {
  import opened Bytes
  import opened Rlp
  import opened HexPrefix
  import opened Trie
  import opened TrieNode
  import opened StateCacheDB
  import opened TrieEdit
  import opened TrieDB
  import opened TrieBuild
  import opened TrieMap
  import opened TrieHash

  datatype Op =
    | Insert(key: Bytes, value: Bytes)
    | Remove(key: Bytes)
    | Purge

  /** What an operation does to the map the trie stands for. */
  function After(m: map<Bytes, Bytes>, op: Op): map<Bytes, Bytes>
  {
    match op
    case Insert(key, value) => m[key := value]
    case Remove(key) => m - {key}
    case Purge => m
  }

  function AfterAll(m: map<Bytes, Bytes>, ops: seq<Op>): map<Bytes, Bytes>
    decreases |ops|
  {
    if ops == [] then m else AfterAll(After(m, ops[0]), ops[1..])
  }

  /** No key of the map is a prefix of another, or of the key to remove, or the other way round. */
  ghost predicate PrefixFreeKeys(m: map<Bytes, Bytes>, key: Bytes)
  {
    && (forall a, b | a in m && b in m && a <= b :: a == b)
    && (forall a | a in m && (a <= key || key <= a) :: a == key)
  }

  /** Keys and values within their widths. */
  ghost predicate OpFits(op: Op)
  {
    match op
    case Insert(key, value) => KeyFits(key) && ValueFits(value)
    case Remove(key) => KeyFits(key)
    case Purge => true
  }

  /** Insertion takes any key; removal must not be one of those that fail. */
  ghost predicate OpOk(m: map<Bytes, Bytes>, op: Op)
  {
    OpFits(op) && (op.Remove? ==> !RemovalFails(m, op.key))
  }

  /** The operations that runs are made of. */
  lemma OpsCovered(m: map<Bytes, Bytes>, op: Op)
    ensures OpOk(m, op) <==>
              match op
              case Insert(key, value) => |key| < 0x4000_0000 && 1 <= |value| < 0x8000_0000_0000_0000
              case Remove(key) => |key| < 0x4000_0000 && !RemovalFails(m, key)
              case Purge => true
  {
    hide RemovalFails;
  }

  /** The values under proper prefixes of a key to remove, read as hashes, are no hashes of
      what was hashed so far. */
  ghost predicate OpApart(H: Hasher, seen: set<Bytes>, m: map<Bytes, Bytes>, op: Op)
  {
    op.Remove? ==> forall p | p in m && p <= op.key && p != op.key :: NotAHash(H, seen, m[p])
  }

  ghost predicate RunApart(H: Hasher, seen: set<Bytes>, m: map<Bytes, Bytes>, ops: seq<Op>)
    decreases |ops|
  {
    ops == [] || (OpApart(H, seen, m, ops[0]) && RunApart(H, seen, After(m, ops[0]), ops[1..]))
  }

  ghost predicate RunOk(m: map<Bytes, Bytes>, ops: seq<Op>)
    decreases |ops|
  {
    ops == [] || (OpOk(m, ops[0]) && RunOk(After(m, ops[0]), ops[1..]))
  }

  /** The same on trees, with the byte strings the run hashes. */
  ghost function TreeAfter(t: Trie, op: Op): Trie
  {
    if !WellShaped(t) then t
    else
      match op
      case Insert(key, value) => Inserted(t, AsNibbles(key), value)
      case Remove(key) => Deleted(t, AsNibbles(key))
      case Purge => t
  }

  ghost function OpSeen(H: Hasher, t: Trie, op: Op): set<Bytes>
  {
    match op
    case Insert(key, value) => InsertSeen(H, t, AsNibbles(key), value)
    case Remove(key) => DeleteSeen(H, t, AsNibbles(key))
    case Purge => {}
  }

  ghost function RunSeen(H: Hasher, t: Trie, ops: seq<Op>): set<Bytes>
    decreases |ops|
  {
    if ops == [] then {} else OpSeen(H, t, ops[0]) + RunSeen(H, TreeAfter(t, ops[0]), ops[1..])
  }

  /** Removal never fails where no key is a prefix of another, in particular not among keys of
      one length, and it then takes no value for a hash. */
  lemma PrefixFreeNeverFails(H: Hasher, seen: set<Bytes>, m: map<Bytes, Bytes>, key: Bytes)
    requires PrefixFreeKeys(m, key) || forall a | a in m :: |a| == |key|
    ensures !RemovalFails(m, key) && OpApart(H, seen, m, Remove(key))
  {
  }

  /** The three ways to fail: behind a leaf, at a fork, and above a long value. */
  lemma FailingRemovals(v: Bytes, w: Bytes)
    ensures RemovalFails(map[[1] := v], [1, 2])
    ensures RemovalFails(map[[0x10] := v, [0x20] := w], [])
    ensures |v| > 32 ==> RemovalFails(map[[1] := v, [1, 2] := w], [1, 2])
    ensures |v| <= 32 ==> !RemovalFails(map[[1] := v, [1, 2] := w], [1, 2])
  {
    assert EndsAbove(map[[1] := v], [1, 2], [1]);
    assert PartAt(map[[0x10] := v, [0x20] := w], [], [0x10], [0x20]);
    if |v| > 32 {
      assert LastBelow(map[[1] := v, [1, 2] := w], [1, 2], [1]);
    }
  }

  lemma ApartOnTree(H: Hasher, seen: set<Bytes>, t: Trie, m: map<Bytes, Bytes>, op: Op)
    requires Represents(t, m) && op.Remove? && OpApart(H, seen, m, op)
    ensures Apart(H, seen, t, AsNibbles(op.key))
  {
    hide NotAHash;
    forall p | p <= AsNibbles(op.key) && p != AsNibbles(op.key) && Has(t, p)
      ensures NotAHash(H, seen, Get(t, p))
    {
      var x := StoredKey(t, m, p);
      AsNibblesPrefixIff(x, op.key);
    }
  }

  /** One operation keeps the canonical form and the map. */
  lemma StepRepresents(t: Trie, m: map<Bytes, Bytes>, op: Op)
    requires Canon(t) && Represents(t, m) && OpFits(op)
    ensures WellShaped(t) && Canon(TreeAfter(t, op)) && Represents(TreeAfter(t, op), After(m, op))
    ensures op.Remove? ==> (Fault(t, AsNibbles(op.key)).Some? <==> RemovalFails(m, op.key))
  {
    CanonIsWellShaped(t);
    match op
    case Insert(key, value) =>
      CanonIsReady(t, AsNibbles(key));
      InsertCanon(t, AsNibbles(key), value);
      InsertRepresents(t, m, key, value);
    case Remove(key) =>
      FaultIff(t, AsNibbles(key));
      FailsOnMap(t, m, key);
      DeleteCanon(t, AsNibbles(key));
      DeleteRepresents(t, m, key);
    case Purge =>
  }

  /** Runs an operation on a stored trie. A removal that fails leaves everything readable;
      the store is no longer right exactly when the key was there. */
  method Perform(trie: TrieDB, op: Op, ghost m: map<Bytes, Bytes>) returns (ok: Result<()>)
    requires trie.Valid() && Represents(trie.trie, m) && OpFits(op)
    requires NoCollision(trie.sha3, trie.seen + OpSeen(trie.sha3, trie.trie, op))
    requires OpApart(trie.sha3, trie.seen + OpSeen(trie.sha3, trie.trie, op), m, op)
    modifies trie, trie.db
    ensures ok.Throws? <==> op.Remove? && RemovalFails(m, op.key)
    ensures ok.Ok? ==>
              && trie.Valid() && Represents(trie.trie, After(m, op))
              && trie.trie == TreeAfter(old(trie.trie), op)
    ensures ok.Throws? ==>
              && trie.Readable() && Represents(trie.trie, m)
              && trie.root == old(trie.root) && trie.trie == old(trie.trie)
              && (trie.Valid() <==> op.key !in m)
    ensures trie.seen == old(trie.seen) + OpSeen(trie.sha3, old(trie.trie), op)
  {
    hide Represents, RemovalFails, OpApart;
    StepRepresents(trie.trie, m, op);
    match op
    case Insert(key, value) =>
      trie.Insert(key, value);
      ok := Ok(());
    case Remove(key) =>
      ApartOnTree(trie.sha3, trie.seen + OpSeen(trie.sha3, trie.trie, op), trie.trie, m, op);
      HasKey(trie.trie, m, key);
      ok := trie.Remove(key);
    case Purge =>
      trie.PurgeStore();
      ok := Ok(());
  }

  /** The check does not notice that a failed removal has lost references: it looks for what is
      left over, not for what is missing. */
  method CheckAfterFailure(trie: TrieDB, key: Bytes, ghost m: map<Bytes, Bytes>) returns (checked: bool)
    requires trie.Valid() && Represents(trie.trie, m) && KeyFits(key) && RemovalFails(m, key)
    requires NoCollision(trie.sha3, trie.seen + OpSeen(trie.sha3, trie.trie, Remove(key)))
    requires OpApart(trie.sha3, trie.seen + OpSeen(trie.sha3, trie.trie, Remove(key)), m, Remove(key))
    modifies trie, trie.db
    ensures checked && (trie.Valid() <==> key !in m)
  {
    hide Represents, RemovalFails, OpApart;
    StepRepresents(trie.trie, m, Remove(key));
    ApartOnTree(trie.sha3, trie.seen + OpSeen(trie.sha3, trie.trie, Remove(key)), trie.trie, m, Remove(key));
    HasKey(trie.trie, m, key);
    var _ := trie.Remove(key);
    checked := trie.Check(true);
  }

  /** Fewer byte strings hashed are kept apart all the more. */
  lemma ApartFewer(H: Hasher, all: set<Bytes>, seen: set<Bytes>, m: map<Bytes, Bytes>, op: Op)
    requires OpApart(H, all, m, op) && seen <= all
    ensures OpApart(H, seen, m, op)
  {
  }

  /** After any run, the store check succeeds, every key reads as the map says, and the root
      is that of the batch construction over any list of the map's entries: it depends on
      the map alone. */
  method Replay(trie: TrieDB, ops: seq<Op>, ghost m: map<Bytes, Bytes>) returns (checked: bool)
    requires trie.Valid() && Represents(trie.trie, m) && RunOk(m, ops)
    requires NoCollision(trie.sha3, trie.seen + RunSeen(trie.sha3, trie.trie, ops))
    requires RunApart(trie.sha3, trie.seen + RunSeen(trie.sha3, trie.trie, ops), m, ops)
    modifies trie, trie.db
    ensures trie.Valid() && Represents(trie.trie, AfterAll(m, ops)) && checked
    ensures forall es: BytesMap | Ascending(es) && EntriesFit(es) && ToMap(es) == AfterAll(m, ops) ::
              Group(NibbleEntries(es), 0) && trie.root == trie.sha3(Blob(trie.sha3, Build(NibbleEntries(es), 0)))
  {
    ghost var current := m;
    ghost var all := trie.seen + RunSeen(trie.sha3, trie.trie, ops);
    var i := 0;
    while i < |ops|
      invariant 0 <= i <= |ops|
      invariant trie.Valid() && Represents(trie.trie, current) && RunOk(current, ops[i..])
      invariant RunApart(trie.sha3, all, current, ops[i..])
      invariant AfterAll(current, ops[i..]) == AfterAll(m, ops)
      invariant trie.seen + RunSeen(trie.sha3, trie.trie, ops[i..]) <= all
    {
      assert ops[i..][0] == ops[i] && ops[i..][1..] == ops[i + 1..];
      ApartFewer(trie.sha3, all, trie.seen + OpSeen(trie.sha3, trie.trie, ops[i]), current, ops[i]);
      var _ := Perform(trie, ops[i], current);
      current := After(current, ops[i]);
      i := i + 1;
    }
    assert ops[i..] == [];
    forall es: BytesMap | Ascending(es) && EntriesFit(es) && ToMap(es) == AfterAll(m, ops)
      ensures Group(NibbleEntries(es), 0) && trie.root == trie.sha3(Blob(trie.sha3, Build(NibbleEntries(es), 0)))
    {
      BatchAgrees(trie.trie, es);
    }
    checked := trie.Check(true);
  }

  /** Two stored tries of one map have one root, whatever runs led to them. */
  lemma SameMapSameRoot(a: TrieDB, b: TrieDB, m: map<Bytes, Bytes>)
    requires a.Valid() && b.Valid() && a.sha3 == b.sha3
    requires Represents(a.trie, m) && Represents(b.trie, m)
    ensures a.root == b.root
  {
    OneTreePerMap(a.trie, b.trie, m);
  }

  /** `at` reads the map, also after a removal that has failed. */
  method ReadMap(trie: TrieDB, key: Bytes, ghost m: map<Bytes, Bytes>) returns (value: Bytes)
    requires trie.Readable() && Represents(trie.trie, m)
    ensures value == var k := Counted(key); if k in m then m[k] else []
  {
    value := trie.At(key);
  }

  /** A second trie opened at the root over the same store represents the same map. */
  method Reopen(trie: TrieDB, ghost m: map<Bytes, Bytes>) returns (again: TrieDB, ok: Result<()>)
    requires trie.Valid() && Represents(trie.trie, m)
    modifies trie.db
    ensures fresh(again) && again.db == trie.db && again.root == trie.root
    ensures ok == Ok(()) && again.Valid() && Represents(again.trie, m)
    ensures trie.Valid() && trie.db.main == old(trie.db.main)
  {
    hide Represents, Canon, Fits, Blob, Stored, StoreOk, NoCollision;
    OpenIsStored(trie);
    again := new TrieDB(trie.sha3, trie.db, trie.root);
    ok := again.SetRoot(trie.root, trie.trie, trie.seen);
  }

  lemma OpenIsStored(trie: TrieDB)
    requires trie.Valid()
    ensures trie.root in trie.db.main && Blob(trie.sha3, Nil) in trie.seen
  {
    assert Count(trie.db.main, trie.root) > 0;
  }

  // ---- roots in bytes ----

  /** What a node puts into its parent. */
  function InParent(H: Hasher, node: Item): Item
  {
    if |Encode(node)| < 32 then node else Data(H(Encode(node)))
  }

  /** The tree of a canonical trie is any canonical tree of its map. */
  lemma RootIs(trie: TrieDB, t: Trie, m: map<Bytes, Bytes>)
    requires trie.Valid() && Represents(trie.trie, m) && Canon(t) && Represents(t, m)
    ensures trie.root == trie.sha3(Encode(NodeItem(trie.sha3, t)))
  {
    OneTreePerMap(trie.trie, t, m);
  }

  /** The empty trie is the string 0x80, hashed. */
  lemma EmptyRoot(trie: TrieDB)
    requires trie.Valid() && Represents(trie.trie, map[])
    ensures trie.root == trie.sha3([0x80])
  {
    NilRepresents();
    RootIs(trie, Nil, map[]);
    assert [0x80] == Encode(Data([]));
  }

  lemma LeafRepresents(key: Bytes, value: Bytes)
    requires value != []
    ensures Represents(Leaf(AsNibbles(key), value), map[key := value])
  {
    forall b: Bytes
      ensures AsNibbles(b) == AsNibbles(key) <==> b == key
    {
      AsNibblesPrefixIff(b, key);
    }
  }

  /** A key of whole bytes goes behind 0x20 in a leaf and behind 0x00 in an extension. */
  lemma EvenKey(key: Bytes, leaf: bool)
    ensures HexEncode(AsNibbles(key), leaf) == [if leaf then 0x20 else 0x00] + key
  {
    hide HexEncode, AsNibbles;
    HexEncodeBytes(AsNibbles(key), leaf);
    var e := HexEncode(AsNibbles(key), leaf);
    SameByte(e[0], if leaf then 0x20 else 0x00);
    forall i | 0 <= i < |key|
      ensures e[1 + i] == key[i]
    {
      NibblesOfByte(key, i);
      SameByte(e[1 + i], key[i]);
    }
  }

  lemma SameByte(a: byte, b: byte)
    ensures a == b <==> a / 16 == b / 16 && a % 16 == b % 16
  {
  }

  /** A key of which half a byte has been read goes behind that half, under 0x30. */
  lemma OddKey(low: nibble, rest: Bytes)
    ensures HexEncode([low] + AsNibbles(rest), true) == [0x30 + low] + rest
  {
    hide HexEncode, AsNibbles;
    var n := [low] + AsNibbles(rest);
    HexEncodeBytes(n, true);
    var e := HexEncode(n, true);
    SameByte(e[0], 0x30 + low);
    forall i | 0 <= i < |rest|
      ensures e[1 + i] == rest[i]
    {
      NibblesOfByte(rest, i);
      assert n[1 + 2 * i] == AsNibbles(rest)[2 * i] && n[2 + 2 * i] == AsNibbles(rest)[2 * i + 1];
      SameByte(e[1 + i], rest[i]);
    }
  }

  /** The root of one entry: a leaf with the whole key. */
  lemma OneEntryRoot(trie: TrieDB, key: Bytes, value: Bytes)
    requires trie.Valid() && value != [] && Represents(trie.trie, map[key := value])
    ensures trie.root == trie.sha3(Encode(List([Data([0x20] + key), Data(value)])))
  {
    hide Encode, HexEncode, AsNibbles;
    LeafRepresents(key, value);
    EvenKey(key, true);
    RootIs(trie, Leaf(AsNibbles(key), value), map[key := value]);
  }

  /** Two keys that part in the first nibble: a branch with a leaf for each, its other slots
      and its value empty. */
  function Forked(a: byte, x: Bytes, v: Bytes, b: byte, y: Bytes, w: Bytes): Trie
  {
    Branch(NO_KIDS[a / 16 := Leaf([a % 16] + AsNibbles(x), v)][b / 16 := Leaf([b % 16] + AsNibbles(y), w)], [])
  }

  lemma FirstByte(a: byte, x: Bytes)
    ensures AsNibbles([a] + x) == [a / 16] + ([a % 16] + AsNibbles(x))
  {
    AsNibblesFront([a] + x);
    assert ([a] + x)[1..] == x;
  }

  lemma ForkedHas(a: byte, x: Bytes, v: Bytes, b: byte, y: Bytes, w: Bytes, k: Nibbles)
    requires a / 16 != b / 16
    ensures Get(Forked(a, x, v, b, y, w), k) ==
            if k == AsNibbles([a] + x) then v else if k == AsNibbles([b] + y) then w else []
  {
    FirstByte(a, x);
    FirstByte(b, y);
    hide AsNibbles;
    if k != [] {
      assert k == [k[0]] + k[1..];
      ForkedKids(a, x, v, b, y, w, k[0]);
      assert Get(Nil, k[1..]) == [];
    }
  }

  lemma ForkedKids(a: byte, x: Bytes, v: Bytes, b: byte, y: Bytes, w: Bytes, i: nibble)
    requires a / 16 != b / 16
    ensures Forked(a, x, v, b, y, w).kids[i] ==
            if i == a / 16 then Leaf([a % 16] + AsNibbles(x), v)
            else if i == b / 16 then Leaf([b % 16] + AsNibbles(y), w) else Nil
  {
  }

  lemma TwoLeaves(a: byte, x: Bytes, v: Bytes, b: byte, y: Bytes, w: Bytes)
    requires a / 16 != b / 16 && v != [] && w != []
    ensures Canon(Forked(a, x, v, b, y, w))
  {
    hide AsNibbles;
    var t := Forked(a, x, v, b, y, w);
    forall i: nibble
      ensures Canon(t.kids[i])
    {
      ForkedKids(a, x, v, b, y, w, i);
    }
    ForkedKids(a, x, v, b, y, w, a / 16);
    ForkedKids(a, x, v, b, y, w, b / 16);
    assert Slot(t, a / 16) && Slot(t, b / 16);
  }

  lemma ForkedCanon(a: byte, x: Bytes, v: Bytes, b: byte, y: Bytes, w: Bytes)
    requires a / 16 != b / 16 && v != [] && w != []
    ensures Canon(Forked(a, x, v, b, y, w))
    ensures Represents(Forked(a, x, v, b, y, w), map[[a] + x := v, [b] + y := w])
  {
    hide AsNibbles, Forked, Get;
    var t := Forked(a, x, v, b, y, w);
    var m := map[[a] + x := v, [b] + y := w];
    assert ([a] + x)[0] != ([b] + y)[0];
    TwoLeaves(a, x, v, b, y, w);
    forall c: Bytes
      ensures Get(t, AsNibbles(c)) == if c in m then m[c] else []
    {
      ForkedHas(a, x, v, b, y, w, AsNibbles(c));
      AsNibblesPrefixIff(c, [a] + x);
      AsNibblesPrefixIff(c, [b] + y);
    }
    forall k: Nibbles | Get(t, k) != []
      ensures IsKeyOf(k, m)
    {
      ForkedHas(a, x, v, b, y, w, k);
      assert [a] + x in m && [b] + y in m;
    }
  }

  /** The root of two entries whose keys part in their first nibble. */
  lemma ForkRoot(trie: TrieDB, a: byte, x: Bytes, v: Bytes, b: byte, y: Bytes, w: Bytes)
    requires trie.Valid() && a / 16 != b / 16 && v != [] && w != []
    requires Represents(trie.trie, map[[a] + x := v, [b] + y := w])
    ensures var empty: seq<Item> := seq(17, _ => Data([]));
            var first := List([Data([0x30 + a % 16] + x), Data(v)]);
            var second := List([Data([0x30 + b % 16] + y), Data(w)]);
            trie.root == trie.sha3(Encode(List(
              empty[a / 16 := InParent(trie.sha3, first)][b / 16 := InParent(trie.sha3, second)])))
  {
    hide Encode, HexEncode, AsNibbles, Canon, Represents;
    var H := trie.sha3;
    var t := Forked(a, x, v, b, y, w);
    ForkedCanon(a, x, v, b, y, w);
    RootIs(trie, t, map[[a] + x := v, [b] + y := w]);
    OddKey(a % 16, x);
    OddKey(b % 16, y);
    ForkedItem(H, a, x, v, b, y, w);
  }

  lemma ForkedItem(H: Hasher, a: byte, x: Bytes, v: Bytes, b: byte, y: Bytes, w: Bytes)
    requires a / 16 != b / 16
    ensures var empty: seq<Item> := seq(17, _ => Data([]));
            var first := List([Data(HexEncode([a % 16] + AsNibbles(x), true)), Data(v)]);
            var second := List([Data(HexEncode([b % 16] + AsNibbles(y), true)), Data(w)]);
            NodeItem(H, Forked(a, x, v, b, y, w)) ==
            List(empty[a / 16 := InParent(H, first)][b / 16 := InParent(H, second)])
  {
    hide Encode, HexEncode, AsNibbles, Forked, Ref, NodeItem, InParent;
    var t := Forked(a, x, v, b, y, w);
    var first, second := Leaf([a % 16] + AsNibbles(x), v), Leaf([b % 16] + AsNibbles(y), w);
    ForkedShape(a, x, v, b, y, w);
    NoReference(H);
    LeafReference(H, first.key, v);
    LeafReference(H, second.key, w);
    SlotsOf(H, t.kids, t.value);
    forall i: nibble
      ensures t.kids[i] == if i == a / 16 then first else if i == b / 16 then second else Nil
    {
      ForkedKids(a, x, v, b, y, w, i);
    }
  }

  lemma ForkedShape(a: byte, x: Bytes, v: Bytes, b: byte, y: Bytes, w: Bytes)
    ensures var t := Forked(a, x, v, b, y, w); t.Branch? && |t.kids| == 16 && t.value == []
  {
  }

  lemma NoReference(H: Hasher)
    ensures Ref(H, Nil) == Data([])
  {
    NilBlob(H);
  }

  lemma LeafReference(H: Hasher, key: Nibbles, value: Bytes)
    ensures Ref(H, Leaf(key, value)) == InParent(H, List([Data(HexEncode(key, true)), Data(value)]))
  {
    hide Encode, HexEncode;
    var t := Leaf(key, value);
    assert NodeItem(H, t) == List([Data(HexEncode(key, true)), Data(value)]);
    assert Hashed(H, t) <==> |Encode(NodeItem(H, t))| >= 32;
  }

  lemma SlotsOf(H: Hasher, kids: seq<Trie>, value: Bytes)
    ensures NodeItem(H, Branch(kids, value)) ==
            List(seq(|kids|, i requires 0 <= i < |kids| => Ref(H, kids[i])) + [Data(value)])
  {
    hide Ref;
  }

  // ---- the transactions trie ----

  /** The insertions of a list under its index keys. */
  function IndexOps(txs: seq<Bytes>): seq<Op>
  {
    seq(|txs|, i requires 0 <= i < |txs| => Insert(IndexKey(i), txs[i]))
  }

  lemma {:induction false} IndexOpsGiveIndexMap(txs: seq<Bytes>, n: nat)
    requires n <= |txs|
    ensures AfterAll(IndexMap(txs[..n]), IndexOps(txs)[n..]) == IndexMap(txs)
    decreases |txs| - n
  {
    if n < |txs| {
      assert IndexOps(txs)[n..][0] == Insert(IndexKey(n), txs[n]) && IndexOps(txs)[n..][1..] == IndexOps(txs)[n + 1..];
      assert txs[..n + 1][..n] == txs[..n];
      IndexOpsGiveIndexMap(txs, n + 1);
    } else {
      assert txs[..n] == txs && IndexOps(txs)[n..] == [];
    }
  }

  lemma {:induction false} IndexOpsOk(txs: seq<Bytes>, m: map<Bytes, Bytes>, n: nat)
    requires ListFits(txs) && n <= |txs|
    ensures RunOk(m, IndexOps(txs)[n..])
    decreases |txs| - n
  {
    if n < |txs| {
      assert IndexOps(txs)[n..][0] == Insert(IndexKey(n), txs[n]) && IndexOps(txs)[n..][1..] == IndexOps(txs)[n + 1..];
      IndexKeyFits(n);
      IndexOpsOk(txs, m[IndexKey(n) := txs[n]], n + 1);
    }
  }

  /** `BlockHeader::verify` computes the transactions root over the map of the list and builds
      the same list into a stored trie, one insertion after the other: the roots agree. */
  method TransactionsRoots(H: Hasher, txs: seq<Bytes>)
    returns (batch: Hash, incremental: Hash, trie: TrieDB, ghost held: map<Bytes, Bytes>)
    requires ListFits(txs)
    requires NoCollision(H, {Blob(H, Nil)} + RunSeen(H, Nil, IndexOps(txs)))
    ensures batch == incremental == trie.root && fresh(trie)
    ensures trie.Valid() && Represents(trie.trie, held) && Files(held, txs)
  {
    hide Represents, Group, Build, NibbleEntries, Blob, Ascending, EntriesFit, ToMap, TreeAfter, OpSeen, IndexKey,
         Files;
    ghost var m;
    batch, m := OrderedTrieRoot(H, txs);
    var store := new StateCacheDB();
    trie := new TrieDB(H, store, batch);
    trie.Init({Blob(H, Nil)});
    NilRepresents();
    IndexOpsGiveIndexMap(txs, 0);
    assert txs[..0] == [] && IndexOps(txs)[0..] == IndexOps(txs);
    ghost var ops := IndexOps(txs);
    IndexOpsOk(txs, map[], 0);
    ghost var current: map<Bytes, Bytes> := map[];
    for i := 0 to |txs|
      invariant trie.Valid() && trie.sha3 == H && trie.db == store && fresh(trie) && fresh(store)
      invariant Represents(trie.trie, current) && RunOk(current, ops[i..])
      invariant AfterAll(current, ops[i..]) == IndexMap(txs)
      invariant trie.seen + RunSeen(H, trie.trie, ops[i..]) <= {Blob(H, Nil)} + RunSeen(H, Nil, ops)
    {
      assert ops[i..][0] == Insert(IndexKey(i), txs[i]) && ops[i..][1..] == ops[i + 1..];
      var k := MakeIndexKey(i);
      var _ := Perform(trie, Insert(k, txs[i]), current);
      current := After(current, Insert(k, txs[i]));
    }
    assert ops[|txs|..] == [];
    BatchAgrees(trie.trie, m);
    incremental, held := trie.root, ToMap(m);
  }
}
