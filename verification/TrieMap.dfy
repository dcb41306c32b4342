/**
 Byte-string maps and the trees that represent them: sorted entry lists, insertion and
 removal, and the runs of operations on a trie.
 */
module TrieMap {
  import opened Bytes
  import opened HexPrefix
  import opened Trie
  import opened TrieNode
  import opened TrieBuild

  datatype Entry = Entry(key: Bytes, value: Bytes)

  /** The entries of a `BytesMap` in the order of its iterators. */
  type BytesMap = seq<Entry>

  ghost predicate Ascending(m: BytesMap)
  {
    forall i, j | 0 <= i < j < |m| :: Less(m[i].key, m[j].key)
  }

  /** What the trie can take: keys within the width of `int`, values present. */
  predicate KeyFits(key: Bytes) { 2 * |key| <= KEY_LIMIT }

  predicate ValueFits(value: Bytes) { 0 < |value| < VALUE_LIMIT }

  lemma Widths(key: Bytes, value: Bytes)
    ensures KeyFits(key) <==> |key| < 0x4000_0000
    ensures ValueFits(value) <==> 1 <= |value| < 0x8000_0000_0000_0000
  {
  }

  ghost predicate EntriesFit(m: BytesMap)
  {
    forall i | 0 <= i < |m| :: KeyFits(m[i].key) && ValueFits(m[i].value)
  }

  /** The same entries under their nibbles. */
  function NibbleEntries(m: BytesMap): (es: HexMap)
    ensures |es| == |m|
  {
    seq(|m|, i requires 0 <= i < |m| => Pair(AsNibbles(m[i].key), m[i].value))
  }

  function ToMap(m: BytesMap): map<Bytes, Bytes>
  {
    if m == [] then map[] else ToMap(m[1..])[m[0].key := m[0].value]
  }

  // ---- the order of bytes is the order of their nibbles ----

  lemma AsNibblesFront(a: Bytes)
    requires a != []
    ensures AsNibbles(a) == [a[0] / 16, a[0] % 16] + AsNibbles(a[1..])
  {
    forall i | 2 <= i < 2 * |a|
      ensures AsNibbles(a)[i] == AsNibbles(a[1..])[i - 2]
    {
      assert a[i / 2] == a[1..][i / 2 - 1];
    }
  }

  lemma {:induction false} AsNibblesLess(a: Bytes, b: Bytes)
    requires Less(a, b)
    ensures Less(AsNibbles(a), AsNibbles(b))
  {
    AsNibblesFront(b);
    if a != [] {
      AsNibblesFront(a);
      hide AsNibbles;
      var x, y := AsNibbles(a), AsNibbles(b);
      assert x[1..][1..] == AsNibbles(a[1..]) && y[1..][1..] == AsNibbles(b[1..]);
      if a[0] == b[0] {
        AsNibblesLess(a[1..], b[1..]);
      } else {
        assert a[0] / 16 < b[0] / 16 || (a[0] / 16 == b[0] / 16 && a[0] % 16 < b[0] % 16);
      }
    }
  }

  lemma AsNibblesOrder(a: Bytes, b: Bytes)
    ensures Less(AsNibbles(a), AsNibbles(b)) == Less(a, b)
  {
    hide AsNibbles;
    LessTotal(a, b);
    if Less(a, b) {
      AsNibblesLess(a, b);
    } else if a == b {
      LessIrreflexive(a);
      LessIrreflexive(AsNibbles(a));
    } else {
      AsNibblesLess(b, a);
      LessAsymmetric(AsNibbles(b), AsNibbles(a));
    }
  }

  lemma NibbleEntriesGroup(m: BytesMap)
    requires Ascending(m) && EntriesFit(m)
    ensures Group(NibbleEntries(m), 0) && ValuesPresent(NibbleEntries(m))
  {
    var es := NibbleEntries(m);
    forall i, j | 0 <= i < j < |es|
      ensures Less(es[i].key, es[j].key)
    {
      AsNibblesLess(m[i].key, m[j].key);
    }
  }

  // ---- representation ----

  /** The tree holds exactly the map's values, none of them empty, under the nibbles of its keys. */
  ghost predicate Represents(t: Trie, m: map<Bytes, Bytes>)
  {
    && (forall b: Bytes :: Get(t, AsNibbles(b)) == if b in m then m[b] else [])
    && (forall k: Nibbles :: Get(t, k) != [] ==> IsKeyOf(k, m))
    && (forall b: Bytes | b in m :: m[b] != [])
  }

  ghost predicate IsKeyOf(k: Nibbles, m: map<Bytes, Bytes>)
  {
    exists b: Bytes :: b in m && AsNibbles(b) == k
  }

  lemma NilRepresents()
    ensures Represents(Nil, map[])
  {
  }

  /** Whatever the order of the operations that led there, one map has one canonical tree. */
  lemma OneTreePerMap(a: Trie, b: Trie, m: map<Bytes, Bytes>)
    requires Canon(a) && Canon(b) && Represents(a, m) && Represents(b, m)
    ensures a == b
  {
    forall k: Nibbles
      ensures Get(a, k) == Get(b, k)
    {
      if Get(a, k) != [] || Get(b, k) != [] {
        var x: Bytes :| x in m && AsNibbles(x) == k;
        assert Get(a, AsNibbles(x)) == m[x] == Get(b, AsNibbles(x));
      }
    }
    CanonicalUnique(a, b);
  }

  lemma InsertRepresents(t: Trie, m: map<Bytes, Bytes>, key: Bytes, value: Bytes)
    requires WellShaped(t) && Represents(t, m) && value != []
    ensures Represents(Inserted(t, AsNibbles(key), value), m[key := value])
  {
    var t', m' := Inserted(t, AsNibbles(key), value), m[key := value];
    forall b: Bytes
      ensures Get(t', AsNibbles(b)) == if b in m' then m'[b] else []
    {
      GetInsert(t, AsNibbles(key), value, AsNibbles(b));
      if AsNibbles(b) == AsNibbles(key) {
        AsNibblesInjective(b, key);
      }
    }
    forall k: Nibbles | Get(t', k) != []
      ensures IsKeyOf(k, m')
    {
      GetInsert(t, AsNibbles(key), value, k);
      if k == AsNibbles(key) {
        assert key in m';
      } else {
        var b: Bytes :| b in m && AsNibbles(b) == k;
        assert b in m';
      }
    }
  }

  lemma DeleteRepresents(t: Trie, m: map<Bytes, Bytes>, key: Bytes)
    requires WellShaped(t) && Represents(t, m)
    ensures Represents(Deleted(t, AsNibbles(key)), m - {key})
  {
    var t', m' := Deleted(t, AsNibbles(key)), m - {key};
    forall b: Bytes
      ensures Get(t', AsNibbles(b)) == if b in m' then m'[b] else []
    {
      GetDelete(t, AsNibbles(key), AsNibbles(b));
      if AsNibbles(b) == AsNibbles(key) {
        AsNibblesInjective(b, key);
      }
    }
    forall k: Nibbles | Get(t', k) != []
      ensures IsKeyOf(k, m')
    {
      GetDelete(t, AsNibbles(key), k);
      var b: Bytes :| b in m && AsNibbles(b) == k;
      assert b in m';
    }
  }

  // ---- where a removal fails, told on the map ----

  /** A key is a proper prefix of the one to remove, and no other key extends it. */
  ghost predicate EndsAbove(m: map<Bytes, Bytes>, key: Bytes, p: Bytes)
  {
    p in m && p <= key && p != key && forall a | a in m && p <= a :: a == p
  }

  /** Two keys extend the one to remove and differ in the nibble behind it. */
  ghost predicate PartAt(m: map<Bytes, Bytes>, key: Bytes, x: Bytes, y: Bytes)
  {
    && x in m && y in m && key <= x && key <= y && x != key && y != key
    && x[|key|] / 16 != y[|key|] / 16
  }

  /** The key to remove is the only one that extends a key whose value is longer than a hash. */
  ghost predicate LastBelow(m: map<Bytes, Bytes>, key: Bytes, p: Bytes)
  {
    p in m && |m[p]| > 32 && p <= key && p != key && forall a | a in m && p <= a :: a == p || a == key
  }

  /** `remove` throws, or leaves the key it reads, exactly for these keys. */
  ghost predicate RemovalFails(m: map<Bytes, Bytes>, key: Bytes)
  {
    || (key !in m && exists p :: EndsAbove(m, key, p))
    || (key !in m && exists x, y :: PartAt(m, key, x, y))
    || (key in m && exists p :: LastBelow(m, key, p))
  }

  lemma AsNibblesPrefixIff(a: Bytes, b: Bytes)
    ensures AsNibbles(a) <= AsNibbles(b) <==> a <= b
    ensures AsNibbles(a) == AsNibbles(b) <==> a == b
  {
    if AsNibbles(a) <= AsNibbles(b) {
      AsNibblesPrefix(a, b);
    }
    if AsNibbles(a) == AsNibbles(b) {
      AsNibblesInjective(a, b);
    }
  }

  lemma HasKey(t: Trie, m: map<Bytes, Bytes>, x: Bytes)
    requires Represents(t, m)
    ensures Has(t, AsNibbles(x)) ==> x in m
    ensures x in m ==> Has(t, AsNibbles(x)) && Get(t, AsNibbles(x)) == m[x]
  {
  }

  lemma StoredKey(t: Trie, m: map<Bytes, Bytes>, a: Nibbles) returns (x: Bytes)
    requires Represents(t, m) && Has(t, a)
    ensures x in m && AsNibbles(x) == a && Get(t, a) == m[x]
  {
    x :| x in m && AsNibbles(x) == a;
  }

  lemma PastLeafOnMap(t: Trie, m: map<Bytes, Bytes>, key: Bytes, p: Bytes)
    requires Represents(t, m)
    ensures PastLeaf(t, AsNibbles(key), AsNibbles(p)) <==> EndsAbove(m, key, p)
  {
    HasKey(t, m, p);
    AsNibblesPrefixIff(p, key);
    hide AsNibbles, Represents, Get;
    if EndsAbove(m, key, p) {
      forall a | Has(t, a) && AsNibbles(p) <= a
        ensures a == AsNibbles(p)
      {
        var x := StoredKey(t, m, a);
        AsNibblesPrefixIff(p, x);
      }
    }
    if PastLeaf(t, AsNibbles(key), AsNibbles(p)) {
      forall x | x in m && p <= x
        ensures x == p
      {
        HasKey(t, m, x);
        AsNibblesPrefixIff(p, x);
      }
    }
  }

  lemma AboveLastOnMap(t: Trie, m: map<Bytes, Bytes>, key: Bytes, p: Bytes)
    requires Represents(t, m)
    ensures AboveLast(t, AsNibbles(key), AsNibbles(p)) <==> LastBelow(m, key, p)
  {
    HasKey(t, m, p);
    AsNibblesPrefixIff(p, key);
    hide AsNibbles, Represents, Get;
    if LastBelow(m, key, p) {
      forall a | Has(t, a) && AsNibbles(p) <= a
        ensures a == AsNibbles(p) || a == AsNibbles(key)
      {
        var x := StoredKey(t, m, a);
        AsNibblesPrefixIff(p, x);
      }
    }
    if AboveLast(t, AsNibbles(key), AsNibbles(p)) {
      forall x | x in m && p <= x
        ensures x == p || x == key
      {
        HasKey(t, m, x);
        AsNibblesPrefixIff(p, x);
        AsNibblesPrefixIff(key, x);
      }
    }
  }

  lemma NibbleBehind(key: Bytes, x: Bytes)
    requires key <= x && key != x
    ensures SlotOf(AsNibbles(x)[|AsNibbles(key)|..]) == x[|key|] / 16
  {
    assert NibbleAt(x, 2 * |key|) == x[|key|] / 16;
  }

  lemma AtForkOnMap(t: Trie, m: map<Bytes, Bytes>, key: Bytes, x: Bytes, y: Bytes)
    requires Represents(t, m) && key !in m
    ensures AtFork(t, AsNibbles(key), AsNibbles(x), AsNibbles(y)) <==> PartAt(m, key, x, y)
  {
    HasKey(t, m, x);
    HasKey(t, m, y);
    AsNibblesPrefixIff(key, x);
    AsNibblesPrefixIff(key, y);
    if x in m && y in m && key <= x && key <= y {
      NibbleBehind(key, x);
      NibbleBehind(key, y);
    }
  }

  /** What makes a removal fail is a matter of the map's keys and the lengths of its values. */
  lemma FailsOnMap(t: Trie, m: map<Bytes, Bytes>, key: Bytes)
    requires Represents(t, m)
    ensures Fails(t, AsNibbles(key)) <==> RemovalFails(m, key)
  {
    var k := AsNibbles(key);
    HasKey(t, m, key);
    hide AsNibbles, Represents, PastLeaf, AboveLast, AtFork, EndsAbove, LastBelow, PartAt;
    if p: Nibbles :| PastLeaf(t, k, p) {
      var x := PastLeafKey(t, m, key, p);
    }
    if p: Nibbles :| AboveLast(t, k, p) {
      var x := AboveLastKey(t, m, key, p);
    }
    if a: Nibbles, b: Nibbles :| key !in m && AtFork(t, k, a, b) {
      var x, y := AtForkKeys(t, m, key, a, b);
    }
    forall p: Bytes
      ensures EndsAbove(m, key, p) ==> PastLeaf(t, k, AsNibbles(p))
      ensures LastBelow(m, key, p) ==> AboveLast(t, k, AsNibbles(p))
    {
      PastLeafOnMap(t, m, key, p);
      AboveLastOnMap(t, m, key, p);
    }
    forall x: Bytes, y: Bytes | key !in m && PartAt(m, key, x, y)
      ensures AtFork(t, k, AsNibbles(x), AsNibbles(y))
    {
      AtForkOnMap(t, m, key, x, y);
    }
  }

  lemma PastLeafKey(t: Trie, m: map<Bytes, Bytes>, key: Bytes, p: Nibbles) returns (x: Bytes)
    requires Represents(t, m) && PastLeaf(t, AsNibbles(key), p)
    ensures EndsAbove(m, key, x)
  {
    x := StoredKey(t, m, p);
    PastLeafOnMap(t, m, key, x);
  }

  lemma AboveLastKey(t: Trie, m: map<Bytes, Bytes>, key: Bytes, p: Nibbles) returns (x: Bytes)
    requires Represents(t, m) && AboveLast(t, AsNibbles(key), p)
    ensures LastBelow(m, key, x)
  {
    x := StoredKey(t, m, p);
    AboveLastOnMap(t, m, key, x);
  }

  lemma AtForkKeys(t: Trie, m: map<Bytes, Bytes>, key: Bytes, a: Nibbles, b: Nibbles) returns (x: Bytes, y: Bytes)
    requires Represents(t, m) && key !in m
    requires AtFork(t, AsNibbles(key), a, b)
    ensures PartAt(m, key, x, y)
  {
    x := StoredKey(t, m, a);
    y := StoredKey(t, m, b);
    AtForkOnMap(t, m, key, x, y);
  }

  // ---- the entry list of a map ----

  lemma {:induction false} ToMapHas(m: BytesMap, b: Bytes)
    ensures b in ToMap(m) ==> exists i :: 0 <= i < |m| && m[i].key == b && m[i].value == ToMap(m)[b]
    ensures Ascending(m) ==> forall i | 0 <= i < |m| && m[i].key == b :: b in ToMap(m) && ToMap(m)[b] == m[i].value
  {
    if m != [] {
      ToMapHas(m[1..], b);
      if b in ToMap(m) {
        if b == m[0].key {
          assert ToMap(m)[b] == m[0].value;
        } else {
          var i :| 0 <= i < |m| - 1 && m[1..][i].key == b && m[1..][i].value == ToMap(m[1..])[b];
          assert m[i + 1].key == b;
        }
      }
      if Ascending(m) {
        forall i | 0 <= i < |m| && m[i].key == b
          ensures b in ToMap(m) && ToMap(m)[b] == m[i].value
        {
          if i > 0 {
            assert Less(m[0].key, m[i].key);
            LessIrreflexive(b);
            assert m[1..][i - 1] == m[i];
          }
        }
      }
    }
  }

  /** The batch construction represents the map of its entries. */
  lemma BuildRepresents(m: BytesMap)
    requires Ascending(m) && EntriesFit(m)
    ensures Group(NibbleEntries(m), 0)
    ensures Represents(Build(NibbleEntries(m), 0), ToMap(m)) && Canon(Build(NibbleEntries(m), 0))
  {
    hide AsNibbles, Find, ToMap;
    var es := NibbleEntries(m);
    NibbleEntriesGroup(m);
    BuildCanon(es, 0);
    forall b: Bytes
      ensures Get(Build(es, 0), AsNibbles(b)) == if b in ToMap(m) then ToMap(m)[b] else []
    {
      GetBuild(es, 0, AsNibbles(b));
      FindInEntries(m, b);
    }
    forall k: Nibbles | Get(Build(es, 0), k) != []
      ensures IsKeyOf(k, ToMap(m))
    {
      GetBuild(es, 0, k);
      KeyAmongEntries(m, k);
    }
    ValuesFit(m);
  }

  lemma KeyAmongEntries(m: BytesMap, k: Nibbles)
    requires Ascending(m) && EntriesFit(m) && Group(NibbleEntries(m), 0) && Find(NibbleEntries(m), 0, k) != []
    ensures IsKeyOf(k, ToMap(m))
  {
    var es := NibbleEntries(m);
    if forall i | 0 <= i < |es| :: es[i].key[0..] != k {
      FindsNothing(es, 0, k);
    }
    var i :| 0 <= i < |es| && es[i].key[0..] == k;
    ToMapHas(m, m[i].key);
    assert AsNibbles(m[i].key) == es[i].key == k;
  }

  lemma ValuesFit(m: BytesMap)
    requires Ascending(m) && EntriesFit(m)
    ensures forall b: Bytes | b in ToMap(m) :: ToMap(m)[b] != []
  {
    forall b: Bytes | b in ToMap(m)
      ensures ToMap(m)[b] != []
    {
      ToMapHas(m, b);
    }
  }

  lemma FindInEntries(m: BytesMap, b: Bytes)
    requires Ascending(m) && EntriesFit(m)
    ensures Find(NibbleEntries(m), 0, AsNibbles(b)) == if b in ToMap(m) then ToMap(m)[b] else []
  {
    var es := NibbleEntries(m);
    NibbleEntriesGroup(m);
    ToMapHas(m, b);
    if b in ToMap(m) {
      var i :| 0 <= i < |m| && m[i].key == b && m[i].value == ToMap(m)[b];
      assert es[i].key[0..] == es[i].key;
      FindsMatch(es, 0, AsNibbles(b), i);
    } else {
      forall i | 0 <= i < |es|
        ensures es[i].key[0..] != AsNibbles(b)
      {
        if es[i].key[0..] == AsNibbles(b) {
          AsNibblesInjective(m[i].key, b);
        }
      }
      FindsNothing(es, 0, AsNibbles(b));
    }
  }

  /** A list of entries that represents the same map gives the same tree. */
  lemma BatchAgrees(t: Trie, m: BytesMap)
    requires Canon(t) && Ascending(m) && EntriesFit(m) && Represents(t, ToMap(m))
    ensures Group(NibbleEntries(m), 0) && Build(NibbleEntries(m), 0) == t
  {
    BuildRepresents(m);
    OneTreePerMap(Build(NibbleEntries(m), 0), t, ToMap(m));
  }

  // ---- filling a sorted map ----

  /** Assignment to a key of a sorted map. */
  function Put(m: BytesMap, key: Bytes, value: Bytes): BytesMap
  {
    if m == [] then [Entry(key, value)]
    else if m[0].key == key then [Entry(key, value)] + m[1..]
    else if Less(key, m[0].key) then [Entry(key, value)] + m
    else [m[0]] + Put(m[1..], key, value)
  }

  ghost predicate AllAbove(x: Bytes, m: BytesMap)
  {
    forall i | 0 <= i < |m| :: Less(x, m[i].key)
  }

  lemma AscendingCons(e: Entry, m: BytesMap)
    requires Ascending(m) && AllAbove(e.key, m)
    ensures Ascending([e] + m)
  {
  }

  lemma AboveHead(x: Bytes, m: BytesMap)
    requires Ascending(m) && m != [] && Less(x, m[0].key)
    ensures AllAbove(x, m)
  {
    forall i | 0 <= i < |m|
      ensures Less(x, m[i].key)
    {
      if i > 0 {
        LessTransitive(x, m[0].key, m[i].key);
      }
    }
  }

  lemma {:induction false} PutAbove(x: Bytes, m: BytesMap, key: Bytes, value: Bytes)
    requires AllAbove(x, m) && Less(x, key)
    ensures AllAbove(x, Put(m, key, value))
  {
    if m != [] {
      assert AllAbove(x, m[1..]);
      PutAbove(x, m[1..], key, value);
      assert Less(x, m[0].key);
    }
  }

  /** The list stays sorted and is that of the updated map. */
  lemma {:induction false} PutIsUpdate(m: BytesMap, key: Bytes, value: Bytes)
    requires Ascending(m)
    ensures Ascending(Put(m, key, value)) && ToMap(Put(m, key, value)) == ToMap(m)[key := value]
    ensures EntriesFit(m) && KeyFits(key) && ValueFits(value) ==> EntriesFit(Put(m, key, value))
  {
    if m != [] {
      var tail := m[1..];
      assert AllAbove(m[0].key, tail);
      if m[0].key == key {
        AscendingCons(Entry(key, value), tail);
      } else if Less(key, m[0].key) {
        AboveHead(key, m);
        AscendingCons(Entry(key, value), m);
      } else {
        LessTotal(key, m[0].key);
        PutIsUpdate(tail, key, value);
        PutAbove(m[0].key, tail, key, value);
        AscendingCons(m[0], Put(tail, key, value));
        assert ([m[0]] + Put(tail, key, value))[1..] == Put(tail, key, value);
      }
    }
  }
}
