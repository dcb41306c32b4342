/**
 TrieHash.cpp: the batch construction, which writes the node of a range of entries into a
 stream and recurses on runs of equal nibbles.
 */
module TrieHash {
  import opened Bytes
  import opened Rlp
  import opened RlpStream
  import opened HexPrefix
  import opened Trie
  import opened TrieNode
  import opened TrieEdit
  import opened TrieBuild
  import opened TrieMap
  import opened RlpReader

  ghost predicate ValuesFit(es: HexMap)
  {
    forall i | 0 <= i < |es| :: 0 < |es[i].value| < VALUE_LIMIT
  }

  /** No node of the tree is too large to encode. */
  lemma {:induction false} FitsBuild(es: HexMap, pre: nat)
    requires Group(es, pre) && ValuesFit(es)
    ensures Fits(Build(es, pre), KEY_LIMIT - pre)
    decreases KEY_LIMIT + 1 - pre
  {
    hide Build, Group, SharedPre, Run;
    BuildIsSmall(es, pre);
    if |es| >= 2 {
      var s := SharedPre(es, pre, |es|);
      if s > pre {
        BuildIsExt(es, pre);
        FitsBuild(es, s);
      } else {
        BuildIsBranch(es, pre);
        forall x | 0 <= x < 16
          ensures Fits(Build(es, pre).kids[x], KEY_LIMIT - pre - 1)
        {
          RunFits(es, pre, x);
          FitsBuild(Run(es, pre, x), pre + 1);
        }
      }
    }
  }

  lemma RunFits(es: HexMap, pre: nat, x: nat)
    requires Group(es, pre) && ValuesFit(es) && es != [] && x < 16
    ensures ValuesFit(Run(es, pre, x))
  {
    RunIsGroup(es, pre, x);
  }

  lemma AgreeBelow(a: Nibbles, b: Nibbles, pre: nat, j: nat)
    requires pre <= |a| && pre <= |b| && pre <= j < SharedFrom(a, b, pre)
    ensures a[j] == b[j]
  {
    var n := Shared(a[pre..], b[pre..]);
    assert a[j] == a[pre..][..n][j - pre] && b[j] == b[pre..][..n][j - pre];
  }

  lemma PartsAt(a: Nibbles, b: Nibbles, pre: nat)
    requires pre <= |a| && pre <= |b|
    ensures var s := SharedFrom(a, b, pre); s < |a| && s < |b| ==> a[s] != b[s]
  {
    var n := Shared(a[pre..], b[pre..]);
    if pre + n < |a| && pre + n < |b| {
      assert a[pre..][n] == a[pre + n] && b[pre..][n] == b[pre + n];
    }
  }

  /** The inner loop: how far two keys agree behind `pre`, looking no further than `x`. */
  method SharedUpTo(a: Nibbles, b: Nibbles, pre: nat, x: nat) returns (shared: nat)
    requires pre <= |a| && pre <= |b| && x <= |a| && x <= |b|
    ensures shared == if x <= pre then pre else Min(x, SharedFrom(a, b, pre))
  {
    hide SharedFrom;
    shared := pre;
    PartsAt(a, b, pre);
    while shared < x && a[shared] == b[shared]
      invariant pre <= shared <= SharedFrom(a, b, pre) && (shared <= x || x <= pre == shared)
    {
      shared := shared + 1;
    }
    if shared < SharedFrom(a, b, pre) {
      AgreeBelow(a, b, pre, shared);
    }
  }

  /** Looking no further than the least place so far loses nothing. */
  lemma MinStep(least: nat, sizeA: nat, sizeB: nat, parts: nat, pre: nat)
    requires pre <= parts <= sizeA && parts <= sizeB && least >= pre
    ensures var x := Min(least, Min(sizeA, sizeB));
            Min(if x <= pre then pre else Min(x, parts), least) == Min(least, parts)
  {
  }

  /** What the loop over the keys finds: how far they all agree with the first. */
  method FindSharedPre(s: HexMap, begin: nat, end: nat, preLen: nat) returns (sharedPre: nat)
    requires begin + 2 <= end <= |s| && Group(s[begin..end], preLen)
    ensures forall i | begin <= i < end :: preLen <= |s[i].key|
    ensures sharedPre == SharedPre(s[begin..end], preLen, end - begin)
  {
    hide Group, SharedFrom, Shared;
    ghost var es := s[begin..end];
    BuildIsSmall(es, preLen);
    assert forall i | begin <= i < end :: es[i - begin] == s[i];
    sharedPre := 0xffff_ffff;
    var i := begin + 1;
    while i != end && sharedPre != 0
      invariant begin < i <= end
      invariant sharedPre == SharedPre(es, preLen, i - begin)
      decreases end - i
    {
      var a, b := s[begin].key, s[i].key;
      assert es[i - begin] == s[i] && es[0] == s[begin];
      SharedPreLow(es, preLen, i - begin);
      var shared := SharedUpTo(a, b, preLen, Min(sharedPre, Min(|a|, |b|)));
      MinStep(sharedPre, |a|, |b|, SharedFrom(a, b, preLen), preLen);
      sharedPre := Min(shared, sharedPre);
      i := i + 1;
    }
    if i != end {
      SharedPreZero(es, preLen, i - begin, end - begin);
    }
  }

  lemma {:induction false} SharedPreLow(es: HexMap, pre: nat, j: nat)
    requires 1 <= j <= |es| && Group(es, pre)
    ensures SharedPre(es, pre, j) >= pre
  {
    if j > 1 {
      SharedPreLow(es, pre, j - 1);
    } else {
      assert |es[0].key| <= KEY_LIMIT;
    }
  }

  lemma {:induction false} SharedPreZero(es: HexMap, pre: nat, i: nat, j: nat)
    requires 1 <= i <= j <= |es| && Group(es, pre) && SharedPre(es, pre, i) == 0
    ensures SharedPre(es, pre, j) == 0
  {
    hide SharedFrom;
    if j > i {
      SharedPreZero(es, pre, i, j - 1);
    }
  }

  // ---- writing a range of entries ----

  lemma BuildEncodable(H: Hasher, es: HexMap, pre: nat)
    requires Group(es, pre) && ValuesFit(es)
    ensures Encodable(NodeItem(H, Build(es, pre))) && Encodable(Ref(H, Build(es, pre)))
  {
    hide Build, Group, ValuesFit, Encodable, NodeItem, Ref, Fits;
    FitsBuild(es, pre);
    FitsEncodable(H, Build(es, pre), KEY_LIMIT - pre);
  }

  /** A two-item list written item by item. */
  lemma PairOn(st: State, a: Item, b: Item)
    requires WellFormed(st) && Encodable(List([a, b]))
    ensures After(st, AppendList(2)).Ok? && Encodable(a) && Encodable(b)
    ensures var open := After(st, AppendList(2)).value;
            var first, whole := AppendItem(open, Encode(a)), AppendItem(st, Encode(List([a, b])));
            if first.Ok? then AppendItem(first.value, Encode(b)) == whole else first == whole
  {
    hide AppendItem, Encode, AfterAll, After;
    var items := [a, b];
    ListOn(st, items);
    var open := After(st, AppendList(2)).value;
    assert items[..0] == [] && items[..1] == [a] && items[..2] == items && items[0] == a && items[1] == b;
    NothingOn(open);
    EncodableParts(items);
    NextItem(open, items, 0);
    if AppendItem(open, Encode(a)).Ok? {
      NextItem(open, items, 1);
    }
  }

  /** `hash256rlp`: appends the node of the entries [begin, end), one item. */
  method Hash256Rlp(H: Hasher, s: HexMap, begin: nat, end: nat, preLen: nat, rlp: RlpStream) returns (r: Result<()>)
    requires rlp.Valid() && begin <= end <= |s| && Group(s[begin..end], preLen) && ValuesFit(s[begin..end])
    modifies rlp
    ensures Outcome(r, AppendItem(old(rlp.View()), Encode(NodeItem(H, Build(s[begin..end], preLen)))), rlp.View())
    ensures r.Ok? ==> rlp.Valid()
    decreases KEY_LIMIT + 1 - preLen, 2
  {
    hide Group, Build, Encode, AppendItem, After, SharedPre, ValuesFit, Encodable, HexEncode;
    ghost var es := s[begin..end];
    BuildIsSmall(es, preLen);
    BuildEncodable(H, es, preLen);
    TwoItemItem(H, Nil);
    if begin == end {
      r := AppendString(rlp, []);
    } else if begin + 1 == end {
      assert es[0] == s[begin];
      var key := EncodeVector(s[begin].key, true, preLen, -1);
      assert s[begin].key[preLen..|s[begin].key|] == s[begin].key[preLen..];
      PairOn(rlp.View(), Data(key), Data(s[begin].value));
      var _ := rlp.AppendList(2);
      var _ :- AppendString(rlp, key);
      r := AppendString(rlp, s[begin].value);
    } else {
      var sharedPre := FindSharedPre(s, begin, end, preLen);
      if sharedPre > preLen {
        BuildIsExt(es, preLen);
        assert es[0] == s[begin];
        var key := EncodeVector(s[begin].key, false, preLen, sharedPre);
        PairOn(rlp.View(), Data(key), Ref(H, Build(es, sharedPre)));
        var _ := rlp.AppendList(2);
        var _ :- AppendString(rlp, key);
        r := Hash256Aux(H, s, begin, end, sharedPre, rlp);
      } else {
        r := Hash256Branch(H, s, begin, end, preLen, rlp);
      }
    }
  }

  /** `append` of a string that is small enough, as one item. */
  method AppendString(rlp: RlpStream, b: Bytes) returns (r: Result<()>)
    requires rlp.Valid() && Encodable(Data(b))
    modifies rlp
    ensures Outcome(r, AppendItem(old(rlp.View()), Encode(Data(b))), rlp.View())
    ensures r.Ok? ==> rlp.Valid()
  {
    r := rlp.AppendData(b, false);
  }

  lemma FreshItem(encoding: Bytes)
    ensures AppendItem(EMPTY, encoding) == Ok(State(encoding, []))
  {
    assert [] + encoding == encoding;
  }

  lemma RawItem(st: State, encoding: Bytes)
    requires WellFormed(st)
    ensures AppendItem(st, encoding) == Note(State(st.out + encoding, st.stack), 1)
  {
  }

  lemma HashIsSmall(h: Hash)
    ensures Encodable(Data(h))
  {
  }

  lemma RefOf(H: Hasher, t: Trie)
    ensures Blob(H, t) == Encode(NodeItem(H, t))
    ensures Ref(H, t) == if |Blob(H, t)| < 32 then NodeItem(H, t) else Data(H(Blob(H, t)))
  {
  }

  /** `hash256aux`: the node in place when it is short, its hash otherwise. */
  method Hash256Aux(H: Hasher, s: HexMap, begin: nat, end: nat, preLen: nat, rlp: RlpStream) returns (r: Result<()>)
    requires rlp.Valid() && begin <= end <= |s| && Group(s[begin..end], preLen) && ValuesFit(s[begin..end])
    modifies rlp
    ensures Outcome(r, AppendItem(old(rlp.View()), Encode(Ref(H, Build(s[begin..end], preLen)))), rlp.View())
    ensures r.Ok? ==> rlp.Valid()
    decreases KEY_LIMIT + 1 - preLen, 3
  {
    hide Group, Build, ValuesFit, Encode, Encodable, AppendItem, NodeItem, Ref, Blob, Hashed;
    ghost var t := Build(s[begin..end], preLen);
    var inner := new RlpStream();
    FreshItem(Encode(NodeItem(H, t)));
    RefOf(H, t);
    var _ := Hash256Rlp(H, s, begin, end, preLen, inner);
    var out := inner.Out();
    if |out.value| < 32 {
      RawItem(rlp.View(), out.value);
      r := rlp.AppendRaw(out.value, 1);
    } else {
      HashIsSmall(H(out.value));
      r := AppendString(rlp, H(out.value));
    }
  }

  /** All 16 + 1 slots: the runs of the next nibble one after the other, then the value. */
  method Hash256Branch(H: Hasher, s: HexMap, begin: nat, end: nat, preLen: nat, rlp: RlpStream) returns (r: Result<()>)
    requires rlp.Valid() && begin + 2 <= end <= |s| && Group(s[begin..end], preLen) && ValuesFit(s[begin..end])
    requires SharedPre(s[begin..end], preLen, end - begin) == preLen
    modifies rlp
    ensures Outcome(r, AppendItem(old(rlp.View()), Encode(NodeItem(H, Build(s[begin..end], preLen)))), rlp.View())
    ensures r.Ok? ==> rlp.Valid()
    decreases KEY_LIMIT + 1 - preLen, 1
  {
    hide Group, Build, ValuesFit, Encode, Encodable, AppendItem, After;
    hide SharedPre, ItemsOn, RunStart, Run, Ref, NodeItem;
    ghost var es := s[begin..end];
    ghost var t := Build(es, preLen);
    BuildIsBranch(es, preLen);
    BuildEncodable(H, es, preLen);
    BranchParts(H, t);
    ghost var items := NodeItem(H, t).items;
    EncodableParts(items);
    ListOn(rlp.View(), items);
    ghost var open := After(rlp.View(), AppendList(17)).value;
    var _ := rlp.AppendList(17);
    NothingOn(open);
    assert items[..0] == [];
    var b := begin;
    b := SkipEnded(s, begin, end, preLen);
    for i := 0 to 16
      invariant rlp.Valid() && ItemsOn(open, items[..i]) == Ok(rlp.View())
      invariant b == begin + RunStart(es, preLen, i)
    {
      NextItem(open, items, i);
      BranchItemUpdate(H, t, i, Nil);
      var n := FindRunEnd(s, begin, end, preLen, i, b);
      var done;
      if b == n {
        EmptyRun(H, es, preLen, i);
        done := AppendString(rlp, []);
      } else {
        RunFits(es, preLen, i);
        done := Hash256Aux(H, s, b, n, preLen + 1, rlp);
      }
      var _ :- done;
      b := n;
    }
    NextItem(open, items, 16);
    assert items[..17] == items && es[0] == s[begin];
    if preLen == |s[begin].key| {
      r := AppendString(rlp, s[begin].value);
    } else {
      r := AppendString(rlp, []);
    }
  }

  lemma EmptyRun(H: Hasher, es: HexMap, pre: nat, x: nat)
    requires Group(es, pre) && es != [] && x < 16 && RunStart(es, pre, x) == RunStart(es, pre, x + 1)
    ensures Run(es, pre, x) == [] && Group([], pre + 1)
    ensures Ref(H, Build(Run(es, pre, x), pre + 1)) == Data([])
  {
    RefUsed(H, Nil);
  }

  /** The entry whose key ends here comes first and belongs to no run. */
  method SkipEnded(s: HexMap, begin: nat, end: nat, preLen: nat) returns (b: nat)
    requires begin + 2 <= end <= |s| && Group(s[begin..end], preLen)
    ensures b == begin + RunStart(s[begin..end], preLen, 0)
  {
    b := begin;
    assert s[begin..end][0] == s[begin];
    if preLen == |s[b].key| {
      b := b + 1;
    }
  }

  /** The loop over one run. */
  method FindRunEnd(s: HexMap, begin: nat, end: nat, preLen: nat, i: nat, b: nat) returns (n: nat)
    requires begin + 2 <= end <= |s| && Group(s[begin..end], preLen) && i < 16
    requires b == begin + RunStart(s[begin..end], preLen, i)
    ensures n == begin + RunStart(s[begin..end], preLen, i + 1)
    ensures b <= n <= end && s[b..n] == Run(s[begin..end], preLen, i) && Group(s[b..n], preLen + 1)
  {
    hide RunStart, Group, Run, RunEnd, Less;
    ghost var es := s[begin..end];
    RunStartNext(es, preLen, i);
    n := b;
    while n != end && s[n].key[preLen] == i
      invariant b <= n <= end
      invariant RunEnd(es, preLen, i, b - begin) == RunEnd(es, preLen, i, n - begin)
    {
      RunEndStep(es, preLen, i, n - begin);
      n := n + 1;
    }
    RunEndStep(es, preLen, i, n - begin);
    SliceOfPart(s, begin, end, b - begin, n - begin);
  }

  lemma RunEndStep(es: HexMap, pre: nat, x: nat, j: nat)
    requires j <= |es| && forall i | j <= i < |es| :: pre < |es[i].key|
    ensures RunEnd(es, pre, x, j) == if j < |es| && es[j].key[pre] == x then RunEnd(es, pre, x, j + 1) else j
  {
  }

  lemma SliceOfPart<T>(s: seq<T>, begin: nat, end: nat, b: nat, n: nat)
    requires begin <= end <= |s| && b <= n <= end - begin
    ensures s[begin..end][b..n] == s[begin + b..begin + n]
  {
    var part := s[begin..end];
    assert forall i | 0 <= i < |part| :: part[i] == s[begin + i];
  }

  lemma RunStartNext(es: HexMap, pre: nat, x: nat)
    requires Group(es, pre) && es != [] && x < 16
    ensures RunStart(es, pre, x) <= RunStart(es, pre, x + 1) <= |es|
    ensures forall i | RunStart(es, pre, x) <= i < |es| :: pre < |es[i].key|
    ensures RunStart(es, pre, x + 1) == RunEnd(es, pre, x, RunStart(es, pre, x))
    ensures Run(es, pre, x) == es[RunStart(es, pre, x)..RunStart(es, pre, x + 1)]
    ensures Group(Run(es, pre, x), pre + 1)
  {
    RunIsGroup(es, pre, x);
  }

  // ---- roots ----

  lemma EntriesValuesFit(m: BytesMap)
    requires EntriesFit(m)
    ensures ValuesFit(NibbleEntries(m))
  {
  }

  lemma NibbleEntriesFront(m: BytesMap, i: nat)
    requires i < |m|
    ensures NibbleEntries(m[i..]) == [Pair(AsNibbles(m[i].key), m[i].value)] + NibbleEntries(m[i + 1..])
  {
  }

  /** The keys come off the map last first, so each goes in front of those before it. */
  method ToHexMap(m: BytesMap) returns (hexMap: HexMap)
    ensures hexMap == NibbleEntries(m)
  {
    hide NibbleEntries, AsNibbles;
    hexMap := [];
    var i := |m|;
    assert m[i..] == [];
    while i > 0
      invariant 0 <= i <= |m| && hexMap == NibbleEntries(m[i..])
    {
      i := i - 1;
      NibbleEntriesFront(m, i);
      hexMap := [Pair(AsNibbles(m[i].key), m[i].value)] + hexMap;
    }
    assert m[0..] == m;
  }

  /** `rlp256`: the bytes of the root node of a map. */
  method Rlp256(H: Hasher, m: BytesMap) returns (r: Bytes)
    requires Ascending(m) && EntriesFit(m)
    ensures Group(NibbleEntries(m), 0) && r == Blob(H, Build(NibbleEntries(m), 0))
  {
    hide Group, Encode, ValuesFit, EntriesFit, Ascending, NibbleEntries, Build, ValuesPresent, NodeItem, AppendItem;
    NibbleEntriesGroup(m);
    EntriesValuesFit(m);
    BuildIsSmall(NibbleEntries(m), 0);
    ghost var t := Build(NibbleEntries(m), 0);
    OnEmpty(NodeItem(H, t));
    var s := new RlpStream();
    if m == [] {
      TwoItemItem(H, Nil);
      EmptyString();
      var _ := AppendString(s, []);
    } else {
      var hexMap := ToHexMap(m);
      assert hexMap[0..|hexMap|] == hexMap;
      var _ := Hash256Rlp(H, hexMap, 0, |hexMap|, 0, s);
    }
    var out := s.Out();
    r := out.value;
  }

  lemma OnEmpty(item: Item)
    ensures AppendItem(EMPTY, Encode(item)) == Ok(State(Encode(item), []))
  {
    assert [] + Encode(item) == Encode(item);
  }

  lemma EmptyString()
    ensures Encodable(Data([]))
  {
  }

  /** `hash256`. */
  method Hash256(H: Hasher, m: BytesMap) returns (h: Hash)
    requires Ascending(m) && EntriesFit(m)
    ensures Group(NibbleEntries(m), 0) && h == H(Blob(H, Build(NibbleEntries(m), 0)))
  {
    var b := Rlp256(H, m);
    h := H(b);
  }

  // ---- lists as maps ----

  /** The key of element `j`: its index, RLP-encoded. */
  function IndexKey(j: nat): Bytes
  {
    Encode(Data(BigEndian(j)))
  }

  function IndexMap(data: seq<Bytes>): map<Bytes, Bytes>
  {
    if data == [] then map[]
    else IndexMap(data[..|data| - 1])[IndexKey(|data| - 1) := data[|data| - 1]]
  }

  ghost predicate ListFits(data: seq<Bytes>)
  {
    |data| <= 0x1_0000_0000 && forall i | 0 <= i < |data| :: ValueFits(data[i])
  }

  lemma ListWidths(data: seq<Bytes>)
    ensures ListFits(data) <==>
              |data| <= 4294967296 && forall i | 0 <= i < |data| :: 1 <= |data[i]| < 0x8000_0000_0000_0000
  {
  }

  lemma IndexKeyFits(j: nat)
    requires j < 0x1_0000_0000
    ensures Encodable(Data(BigEndian(j))) && KeyFits(IndexKey(j))
  {
    SizeBytes(j);
    EncodeLength(Data(BigEndian(j)));
  }

  /** Index keys are pairwise not prefixes of one another. */
  lemma IndexKeysPrefixFree(i: nat, j: nat)
    requires i < 0x1_0000_0000 && j < 0x1_0000_0000 && IndexKey(i) <= IndexKey(j)
    ensures i == j
  {
    IndexKeyFits(i);
    IndexKeyFits(j);
    EncodingsPrefixFree(Data(BigEndian(i)), Data(BigEndian(j)));
    BigEndianRoundTrip(i);
    BigEndianRoundTrip(j);
  }

  /** Every element survives in the map, and nothing else is in it. */
  lemma {:induction false} IndexMapHasAll(data: seq<Bytes>)
    requires |data| <= 0x1_0000_0000
    ensures forall j | 0 <= j < |data| :: IndexKey(j) in IndexMap(data) && IndexMap(data)[IndexKey(j)] == data[j]
    ensures forall b | b in IndexMap(data) :: exists j: nat :: j < |data| && b == IndexKey(j)
  {
    if data != [] {
      var last := |data| - 1;
      IndexMapHasAll(data[..last]);
      forall j | 0 <= j < |data|
        ensures IndexKey(j) in IndexMap(data) && IndexMap(data)[IndexKey(j)] == data[j]
      {
        if j != last && IndexKey(j) == IndexKey(last) {
          IndexKeysPrefixFree(j, last);
        }
      }
    }
  }

  /** The bytes read back as the string of an index: its big-endian form without zeros in front. */
  predicate IsIndex(b: Bytes, j: nat)
  {
    && Decode(b).Ok? && Decode(b).value.Data?
    && var s := Decode(b).value.bytes;
       (s != [] ==> s[0] != 0) && FromBigEndian(s) == j
  }

  /** A map holds a list: under each index its element, and nothing else. */
  ghost predicate Files(m: map<Bytes, Bytes>, data: seq<Bytes>)
  {
    && (forall b: Bytes | b in m :: exists j: nat :: j < |data| && IsIndex(b, j))
    && (forall b: Bytes, j: nat | j < |data| && IsIndex(b, j) :: b in m && m[b] == data[j])
  }

  lemma IndexKeyIsIndex(b: Bytes, j: nat)
    requires j < 0x1_0000_0000
    ensures IsIndex(b, j) <==> b == IndexKey(j)
  {
    hide Decode, Encode, Encodable;
    IndexKeyFits(j);
    DecodeEncode(Data(BigEndian(j)));
    BigEndianRoundTrip(j);
    if IsIndex(b, j) {
      EncodeDecode(b);
      BigEndianCanonical(Decode(b).value.bytes);
    }
  }

  /** The first key is 0x80, the others up to 127 are single bytes. */
  lemma FirstIndexes(j: nat)
    requires j < 128
    ensures IsIndex([if j == 0 then 0x80 else j], j)
  {
    var b: Bytes := [if j == 0 then 0x80 else j];
    if j == 0 {
      assert b[1..1] == [];
    } else {
      FromBigEndianPush([], j);
      assert b == [] + [j] && b[0..1] == b;
    }
  }

  lemma IndexMapFiles(data: seq<Bytes>)
    requires |data| <= 0x1_0000_0000
    ensures Files(IndexMap(data), data)
  {
    hide IsIndex, IndexKey;
    IndexMapHasAll(data);
    forall b: Bytes | b in IndexMap(data)
      ensures exists j: nat :: j < |data| && IsIndex(b, j)
    {
      var j: nat :| j < |data| && b == IndexKey(j);
      IndexKeyIsIndex(b, j);
    }
    forall b: Bytes, j: nat | j < |data| && IsIndex(b, j)
      ensures b in IndexMap(data) && IndexMap(data)[b] == data[j]
    {
      IndexKeyIsIndex(b, j);
    }
  }

  /** A list is held by one map only. */
  lemma OneMapFiles(m: map<Bytes, Bytes>, m': map<Bytes, Bytes>, data: seq<Bytes>)
    requires Files(m, data) && Files(m', data)
    ensures m == m'
  {
    hide IsIndex;
    assert forall b: Bytes | b in m :: b in m' && m[b] == m'[b];
    assert forall b: Bytes | b in m' :: b in m;
  }

  /** In the trie of a list every branch has slot 16 empty. */
  lemma IndexTrieHasNoBranchValues(t: Trie, data: seq<Bytes>)
    requires Canon(t) && ListFits(data) && Represents(t, IndexMap(data))
    ensures KeysPrefixFree(t) && NoBranchValues(t)
  {
    hide Canon, NoBranchValues, AsNibbles, IndexKey;
    IndexMapHasAll(data);
    forall a, b | Get(t, a) != [] && Get(t, b) != [] && a <= b
      ensures a == b
    {
      var x: Bytes :| x in IndexMap(data) && AsNibbles(x) == a;
      var y: Bytes :| y in IndexMap(data) && AsNibbles(y) == b;
      AsNibblesPrefix(x, y);
      var i: nat :| i < |data| && x == IndexKey(i);
      var j: nat :| j < |data| && y == IndexKey(j);
      IndexKeysPrefixFree(i, j);
    }
    PrefixFreeNoValues(t);
  }

  /** `rlp` of an index. */
  method MakeIndexKey(j: nat) returns (key: Bytes)
    requires j < 0x1_0000_0000
    ensures key == IndexKey(j)
  {
    IndexKeyFits(j);
    hide Encode, BigEndian, Encodable;
    var s := new RlpStream();
    EncodableSize(Data(BigEndian(j)));
    var _ := s.AppendInt(j);
    assert [] + Encode(Data(BigEndian(j))) == Encode(Data(BigEndian(j)));
    var out := s.Out();
    key := out.value;
  }

  lemma EncodableSize(item: Item)
    requires Encodable(item) && item.Data?
    ensures |item.bytes| < SIZE_LIMIT
  {
  }

  /** `orderedTrieRoot`: the root over a list, for every sorted list of entries that holds it. */
  method OrderedTrieRoot(H: Hasher, data: seq<Bytes>) returns (root: Hash, ghost m: BytesMap)
    requires ListFits(data)
    ensures Ascending(m) && EntriesFit(m) && ToMap(m) == IndexMap(data) && Files(ToMap(m), data)
    ensures Group(NibbleEntries(m), 0) && root == H(Blob(H, Build(NibbleEntries(m), 0)))
    ensures forall es: BytesMap | Ascending(es) && EntriesFit(es) && Files(ToMap(es), data) ::
              Group(NibbleEntries(es), 0) && root == H(Blob(H, Build(NibbleEntries(es), 0)))
  {
    hide Group, Ascending, EntriesFit, IndexKey, ToMap, Put, ValueFits, KeyFits, Build, Blob, NibbleEntries, Files;
    var map': BytesMap := [];
    NothingToPut();
    assert data[..0] == [];
    for j := 0 to |data|
      invariant Ascending(map') && EntriesFit(map') && ToMap(map') == IndexMap(data[..j])
    {
      var key := MakeIndexKey(j);
      IndexKeyFits(j);
      PutIsUpdate(map', key, data[j]);
      assert data[..j + 1][..j] == data[..j];
      map' := Put(map', key, data[j]);
    }
    assert data[..|data|] == data;
    root := Hash256(H, map');
    m := map';
    AnyListBuilds(m);
    IndexMapFiles(data);
    forall es: BytesMap | Ascending(es) && EntriesFit(es) && Files(ToMap(es), data)
      ensures ToMap(es) == ToMap(m)
    {
      OneMapFiles(ToMap(es), ToMap(m), data);
    }
  }

  /** Whatever sorted list a map is given by, the tree built is the same. */
  lemma AnyListBuilds(m: BytesMap)
    requires Ascending(m) && EntriesFit(m)
    ensures Group(NibbleEntries(m), 0)
    ensures forall es: BytesMap | Ascending(es) && EntriesFit(es) && ToMap(es) == ToMap(m) ::
              Group(NibbleEntries(es), 0) && Build(NibbleEntries(es), 0) == Build(NibbleEntries(m), 0)
  {
    hide Group, Ascending, EntriesFit, ToMap, Build, NibbleEntries, Represents;
    BuildRepresents(m);
    forall es: BytesMap | Ascending(es) && EntriesFit(es) && ToMap(es) == ToMap(m)
      ensures Group(NibbleEntries(es), 0) && Build(NibbleEntries(es), 0) == Build(NibbleEntries(m), 0)
    {
      BatchAgrees(Build(NibbleEntries(m), 0), es);
    }
  }

  lemma NothingToPut()
    ensures Ascending([]) && EntriesFit([]) && ToMap([]) == map[]
  {
  }
}
