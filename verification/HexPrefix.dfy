/**
 Nibble views of bytes and the hex-prefix encoding (Appendix C of the Ethereum Yellow
 Paper), with the three encoders and the one decoder of TrieCommon.
 */
module HexPrefix {
  import opened Bytes

  type nibble = n: int | 0 <= n < 16

  type Nibbles = seq<nibble>

  function NibbleAt(data: Bytes, i: nat): nibble
    requires i < 2 * |data|
  {
    if i % 2 == 1 then data[i / 2] % 16 else data[i / 2] / 16
  }

  /** The nibbles of a byte string, high nibble first. */
  function AsNibbles(data: Bytes): (n: Nibbles)
    ensures |n| == 2 * |data|
  {
    seq(2 * |data|, i requires 0 <= i < 2 * |data| => NibbleAt(data, i))
  }

  /** What a `NibbleSlice` sees of a whole key: its size in nibbles is an `unsigned` of 32
      bits, so of 2^31 bytes and more only the remainder is counted. */
  function Counted(key: Bytes): Bytes
  {
    key[..|key| % 0x8000_0000]
  }

  function Join(high: nibble, low: nibble): (b: byte)
    ensures b / 16 == high && b % 16 == low
  {
    (high as int) * 16 + low
  }

  /** Nibbles two to a byte; a last nibble without a partner is the high half of its byte. */
  function Pack(n: Nibbles): Bytes
  {
    seq((|n| + 1) / 2, i requires 0 <= i < (|n| + 1) / 2 =>
      Join(n[2 * i], if 2 * i + 1 < |n| then n[2 * i + 1] else 0))
  }

  /** The flag nibble (2 for a leaf, 1 for an odd number of nibbles) and its padding. */
  function Prefix(odd: bool, leaf: bool): (p: Nibbles)
    ensures |p| == if odd then 1 else 2
  {
    if odd then [if leaf then 3 else 1] else [if leaf then 2 else 0, 0]
  }

  predicate Odd(n: nat)
  {
    n % 2 == 1
  }

  function HexEncode(n: Nibbles, leaf: bool): Bytes
  {
    Pack(Prefix(Odd(|n|), leaf) + n)
  }

  function KeyOf(hpe: Bytes): Nibbles
  {
    if hpe == [] then []
    else if hpe[0] / 16 % 2 == 1 then AsNibbles(hpe)[1..]
    else AsNibbles(hpe)[2..]
  }

  predicate IsLeafKey(hpe: Bytes)
  {
    hpe != [] && hpe[0] / 32 % 2 == 1
  }

  /** The encoding byte by byte: 2 for a leaf and 1 for an odd number of nibbles in the upper
      half of the first byte, the first nibble of an odd number in its lower half, and the
      others two to a byte. */
  lemma HexEncodeBytes(n: Nibbles, leaf: bool)
    ensures var e, odd := HexEncode(n, leaf), |n| % 2;
            && |e| == 1 + |n| / 2
            && e[0] / 16 == (if leaf then 2 else 0) + odd
            && e[0] % 16 == (if odd == 1 then n[0] else 0)
            && forall i | 0 <= i < |n| / 2 :: e[1 + i] / 16 == n[odd + 2 * i] && e[1 + i] % 16 == n[odd + 2 * i + 1]
  {
    var odd := |n| % 2;
    var all := Prefix(odd == 1, leaf) + n;
    PackedAt(all, 0);
    forall i | 0 <= i < |n| / 2
      ensures Pack(all)[1 + i] / 16 == n[odd + 2 * i] && Pack(all)[1 + i] % 16 == n[odd + 2 * i + 1]
    {
      PackedAt(all, 1 + i);
      assert all[2 + 2 * i] == n[odd + 2 * i] && all[3 + 2 * i] == n[odd + 2 * i + 1];
    }
  }

  lemma PackedAt(all: Nibbles, i: nat)
    requires |all| % 2 == 0 && 2 * i < |all|
    ensures |Pack(all)| == |all| / 2 && Pack(all)[i] / 16 == all[2 * i] && Pack(all)[i] % 16 == all[2 * i + 1]
  {
  }

  /** The flags are bits 0x20 and 0x10 of the first byte, whatever the others are. */
  lemma FlagBits(hpe: Bytes)
    requires hpe != []
    ensures IsLeafKey(hpe) <==> hpe[0] % 64 >= 32
    ensures KeyOf(hpe) == AsNibbles(hpe)[if hpe[0] % 32 >= 16 then 1 else 2..]
  {
    hide AsNibbles;
    BitOf(hpe[0]);
  }

  lemma BitOf(b: byte)
    ensures b / 32 % 2 == 1 <==> b % 64 >= 32
    ensures b / 16 % 2 == 1 <==> b % 32 >= 16
  {
  }

  /** The nibbles of a byte string, two of each byte. */
  lemma NibblesOfByte(data: Bytes, i: nat)
    requires i < |data|
    ensures |AsNibbles(data)| == 2 * |data|
    ensures AsNibbles(data)[2 * i] == data[i] / 16 && AsNibbles(data)[2 * i + 1] == data[i] % 16
  {
  }

  /** As much of a key is counted as its number of nibbles, taken modulo 2^32, says: all of a
      key below 2^31 bytes. */
  lemma CountedSize(key: Bytes)
    ensures Counted(key) <= key && 2 * |Counted(key)| == 2 * |key| % 0x1_0000_0000
    ensures |key| < 0x8000_0000 ==> Counted(key) == key
  {
  }

  lemma AsNibblesOfPack(n: Nibbles)
    requires |n| % 2 == 0
    ensures AsNibbles(Pack(n)) == n
  {
    forall i | 0 <= i < |n|
      ensures AsNibbles(Pack(n))[i] == n[i]
    {
      assert Pack(n)[i / 2] == Join(n[2 * (i / 2)], n[2 * (i / 2) + 1]);
    }
  }

  lemma FirstByte(n: Nibbles)
    requires n != []
    ensures Pack(n)[0] / 16 == n[0]
  {
  }

  /** Decoding recovers the nibbles and the leaf flag, for odd and even lengths. */
  lemma RoundTrip(n: Nibbles, leaf: bool)
    ensures KeyOf(HexEncode(n, leaf)) == n
    ensures IsLeafKey(HexEncode(n, leaf)) == leaf
  {
    hide Pack, AsNibbles, Join;
    var odd := Odd(|n|);
    var all := Prefix(odd, leaf) + n;
    FirstByte(all);
    AsNibblesOfPack(all);
    assert if odd then all[1..] == n else all[2..] == n;
  }

  /** Different keys or kinds never share an encoding. */
  lemma Injective(n: Nibbles, leaf: bool, n': Nibbles, leaf': bool)
    requires HexEncode(n, leaf) == HexEncode(n', leaf')
    ensures n == n' && leaf == leaf'
  {
    RoundTrip(n, leaf);
    RoundTrip(n', leaf');
  }

  lemma AsNibblesInjective(a: Bytes, b: Bytes)
    requires AsNibbles(a) == AsNibbles(b)
    ensures a == b
  {
    assert |a| == |b|;
    forall i | 0 <= i < |a|
      ensures a[i] == b[i]
    {
      assert AsNibbles(a)[2 * i] == a[i] / 16 && AsNibbles(a)[2 * i + 1] == a[i] % 16;
      assert AsNibbles(b)[2 * i] == b[i] / 16 && AsNibbles(b)[2 * i + 1] == b[i] % 16;
    }
  }

  /** A byte string is a prefix of another exactly when its nibbles are. */
  lemma AsNibblesPrefix(a: Bytes, b: Bytes)
    requires AsNibbles(a) <= AsNibbles(b)
    ensures a <= b
  {
    var c := b[..|a|];
    assert AsNibbles(c) == AsNibbles(b)[..2 * |a|];
    AsNibblesInjective(a, c);
  }

  // ---- the encoders ----

  /** One more nibble: onto the low half of the last byte, or the high half of a new one. */
  lemma PackStep(n: Nibbles, x: nibble)
    ensures n != [] ==> Pack(n) != []
    ensures var was := Pack(n);
            Pack(n + [x]) == if Odd(|n|) then was[..|was| - 1] + [was[|was| - 1] + x] else was + [Join(x, 0)]
  {
  }

  lemma FirstHalf(p: Nibbles, x: nibble)
    requires |p| == 1
    ensures Pack(p)[0] % 16 == 0 && Pack(p + [x]) == Pack(p)[0 := Pack(p)[0] + x]
  {
  }

  lemma PackTwoSteps(n: Nibbles, x: nibble, y: nibble)
    requires |n| % 2 == 0
    ensures Pack(n + [x] + [y]) == Pack(n) + [Join(x, y)]
  {
  }

  lemma PackPair(front: Nibbles, v: Nibbles, begin: nat, i: nat, pairs: nat)
    requires begin <= i && i + 1 < |v| && |front| + i - begin == 2 * pairs
    ensures Pack(front + v[begin..i + 2]) == Pack(front + v[begin..i]) + [Join(v[i], v[i + 1])]
  {
    hide Pack, Join;
    SliceGrows(front, v, begin, i);
    SliceGrows(front, v, begin, i + 1);
    PackTwoSteps(front + v[begin..i], v[i], v[i + 1]);
  }

  lemma PackPrefix(odd: bool, leaf: bool)
    ensures Odd(|Prefix(odd, leaf)|) == odd && Odd(1) && !Odd(2)
    ensures Pack(Prefix(odd, leaf)) == [Join(Prefix(odd, leaf)[0], 0)]
  {
  }

  lemma ByParity(n: Nibbles, odd: bool, leaf: bool)
    requires odd == Odd(|n|)
    ensures HexEncode(n, leaf) == Pack(Prefix(odd, leaf) + n)
  {
  }

  lemma OddNext(n: nat)
    ensures Odd(n + 1) == !Odd(n)
  {
  }

  lemma AsNibblesAt(data: Bytes, i: nat)
    requires i < 2 * |data|
    ensures AsNibbles(data)[i] == NibbleAt(data, i)
  {
  }

  /** The loop the encoders share: `d` odd puts the nibble onto the last byte, `d` even
      starts a new byte. */
  method AppendNibbles(ret: Bytes, d: nat, data: Bytes, begin: nat, end: nat, ghost n: Nibbles)
    returns (ret': Bytes, d': nat)
    requires begin <= end <= 2 * |data|
    requires ret == Pack(n) != [] && n != [] && Odd(d) == Odd(|n|)
    ensures ret' == Pack(n + AsNibbles(data)[begin..end])
    ensures d' == d + (end - begin) && ret' != []
  {
    hide Pack, Join, Odd, AsNibbles;
    ret', d' := ret, d;
    SliceGrows(n, AsNibbles(data), begin, begin);
    for i := begin to end
      invariant ret' != [] && d' == d + (i - begin) && Odd(d') == Odd(|n| + (i - begin))
      invariant ret' == Pack(n + AsNibbles(data)[begin..i])
    {
      var x := NibbleAt(data, i);
      AsNibblesAt(data, i);
      OddNext(d');
      OddNext(|n| + (i - begin));
      ghost var written := n + AsNibbles(data)[begin..i];
      PackStep(written, x);
      SliceGrows(n, AsNibbles(data), begin, i);
      if Odd(d') {
        ret' := ret'[..|ret'| - 1] + [ret'[|ret'| - 1] + x];
      } else {
        ret' := ret' + [Join(x, 0)];
      }
      d' := d' + 1;
    }
  }

  /** The widths of the encoders' parameters and counters. */
  const INT_MAX: nat := 0x7fff_ffff
  const UINT_MAX: nat := 0xffff_ffff

  /** One past the last nibble; a negative end counts back from one past the end. */
  function EndNibble(size: nat, end: int): int
  {
    if end < 0 then size + 1 + end else end
  }

  predicate IsWindow(size: nat, begin: nat, end: int)
  {
    begin <= EndNibble(size, end) <= size
  }

  function Window(n: Nibbles, begin: nat, end: int): Nibbles
    requires IsWindow(|n|, begin, end)
  {
    n[begin..EndNibble(|n|, end)]
  }

  /** `hexPrefixEncode` of one slice: nibbles [begin, end) counted from `offset`. */
  method EncodeSlice(data: Bytes, leaf: bool, beginNibble: nat, endNibble: int, offset: nat)
    returns (ret: Bytes)
    requires offset <= 2 * |data| && 2 * |data| - offset < INT_MAX
    requires IsWindow(2 * |data| - offset, beginNibble, endNibble)
    ensures ret == HexEncode(Window(AsNibbles(data)[offset..], beginNibble, endNibble), leaf)
  {
    ghost var view := AsNibbles(data)[offset..];
    ghost var n := Window(view, beginNibble, endNibble);
    var begin := beginNibble + offset;
    var end := EndNibble(2 * |data| - offset, endNibble) + offset;
    SliceOfSlice(AsNibbles(data), offset, beginNibble, end - offset);
    assert n == AsNibbles(data)[begin..end];
    var odd := Odd(end - begin);
    PackPrefix(odd, leaf);
    ByParity(n, odd, leaf);
    hide Pack, AsNibbles, Join, Prefix, HexEncode, Odd, EndNibble, Window;
    ret := [Join(Prefix(odd, leaf)[0], 0)];
    var d := if odd then 1 else 2;
    ret, d := AppendNibbles(ret, d, data, begin, end, Prefix(odd, leaf));
  }

  /** `hexPrefixEncode` of two slices, one after the other. */
  method EncodeTwo(d1: Bytes, o1: nat, d2: Bytes, o2: nat, leaf: bool) returns (ret: Bytes)
    requires o1 <= 2 * |d1| <= UINT_MAX && o2 <= 2 * |d2| <= UINT_MAX
    ensures ret == HexEncode(AsNibbles(d1)[o1..] + AsNibbles(d2)[o2..], leaf)
  {
    var end1, end2 := 2 * |d1|, 2 * |d2|;
    ghost var a, b := AsNibbles(d1)[o1..], AsNibbles(d2)[o2..];
    assert AsNibbles(d1)[o1..end1] == a && AsNibbles(d2)[o2..end2] == b;
    var odd := Odd(end1 - o1 + end2 - o2);
    PackPrefix(odd, leaf);
    ByParity(a + b, odd, leaf);
    ghost var p := Prefix(odd, leaf);
    Assoc(p, a, b);
    ghost var lengths := |p + a|;
    assert lengths == |p| + (end1 - o1);
    hide Pack, AsNibbles, Join, Prefix, HexEncode, Odd;
    ret := [Join(Prefix(odd, leaf)[0], 0)];
    var d := if odd then 1 else 2;
    ret, d := AppendNibbles(ret, d, d1, o1, end1, p);
    ret, d := AppendNibbles(ret, d, d2, o2, end2, p + a);
  }

  /** `hexPrefixEncode` of a vector that holds one nibble per element. */
  method EncodeVector(hexVector: Nibbles, leaf: bool, begin: nat, end: int) returns (ret: Bytes)
    requires |hexVector| < UINT_MAX && begin <= INT_MAX && end <= INT_MAX && IsWindow(|hexVector|, begin, end)
    ensures ret == HexEncode(Window(hexVector, begin, end), leaf)
  {
    hide Pack, Join, Prefix, HexEncode, EndNibble, Window, Odd;
    var last := EndNibble(|hexVector|, end);
    var odd := Odd(last - begin);
    VectorParts(hexVector, leaf, begin, end);
    ghost var pairs := Halves(last - begin);
    var i := begin;
    ret := [Join(Prefix(odd, leaf)[0], 0)];
    SliceGrows(Prefix(odd, leaf), hexVector, begin, begin);
    if odd {
      FirstHalf(Prefix(odd, leaf), hexVector[i]);
      ret := ret[0 := ret[0] + hexVector[i]];
      i := i + 1;
    }
    ret := AppendPairs(ret, hexVector, i, last, begin, Prefix(odd, leaf), 1, pairs);
  }

  lemma VectorParts(v: Nibbles, leaf: bool, begin: nat, end: int)
    requires IsWindow(|v|, begin, end)
    ensures var last := EndNibble(|v|, end);
            var odd := Odd(last - begin);
            && begin <= last <= |v|
            && HexEncode(Window(v, begin, end), leaf) == Pack(Prefix(odd, leaf) + v[begin..last])
            && Pack(Prefix(odd, leaf)) == [Join(Prefix(odd, leaf)[0], 0)]
  {
    hide Pack, Join;
    PackPrefix(Odd(EndNibble(|v|, end) - begin), leaf);
  }

  lemma Halves(n: nat) returns (h: nat)
    ensures n == 2 * h + if Odd(n) then 1 else 0
  {
    h := n / 2;
  }

  /** The loop over whole bytes; `before` and `pairs` count those behind and ahead of it. */
  method AppendPairs(ret: Bytes, v: Nibbles, begin: nat, end: nat,
                     ghost first: nat, ghost front: Nibbles, ghost before: nat, ghost pairs: nat)
    returns (ret': Bytes)
    requires first <= begin <= end <= |v| && end - begin == 2 * pairs
    requires |front| + begin - first == 2 * before && ret == Pack(front + v[first..begin])
    ensures ret' == Pack(front + v[first..end])
  {
    hide Pack, Join;
    ret' := ret;
    var i := begin;
    ghost var done := 0;
    while i < end
      invariant done <= pairs && i == begin + 2 * done
      invariant ret' == Pack(front + v[first..i])
    {
      PackPair(front, v, first, i, before + done);
      ret' := ret' + [Join(v[i], v[i + 1])];
      i := i + 2;
      done := done + 1;
    }
  }

  // ---- shared prefixes ----

  /** The length of the longest common prefix. */
  function Shared(a: Nibbles, b: Nibbles): (n: nat)
    ensures n <= |a| && n <= |b| && a[..n] == b[..n]
    ensures n < |a| && n < |b| ==> a[n] != b[n]
  {
    if a == [] || b == [] || a[0] != b[0] then 0
    else
      var n := 1 + Shared(a[1..], b[1..]);
      assert a[..n] == [a[0]] + a[1..][..n - 1] && b[..n] == [b[0]] + b[1..][..n - 1];
      n
  }

  lemma SharedIs(a: Nibbles, b: Nibbles, n: nat)
    requires n <= |a| && n <= |b| && a[..n] == b[..n]
    requires n < |a| && n < |b| ==> a[n] != b[n]
    ensures Shared(a, b) == n
  {
    if n > 0 {
      assert a[0] == a[..n][0] == b[..n][0] == b[0];
      assert a[1..][..n - 1] == a[..n][1..] && b[1..][..n - 1] == b[..n][1..];
      SharedIs(a[1..], b[1..], n - 1);
    }
  }

  /** `sharedNibbles`: count while the two windows agree. */
  method SharedNibbles(first: Bytes, beginFirst: nat, endFirst: nat,
                       second: Bytes, beginSecond: nat, endSecond: nat) returns (ret: nat)
    requires beginFirst <= endFirst <= 2 * |first| && beginSecond <= endSecond <= 2 * |second|
    requires endFirst <= UINT_MAX && endSecond <= UINT_MAX
    ensures ret == Shared(AsNibbles(first)[beginFirst..endFirst], AsNibbles(second)[beginSecond..endSecond])
  {
    ghost var a, b := AsNibbles(first)[beginFirst..endFirst], AsNibbles(second)[beginSecond..endSecond];
    var i, j := beginFirst, beginSecond;
    ret := 0;
    while i < endFirst && j < endSecond && NibbleAt(first, i) == NibbleAt(second, j)
      invariant i == beginFirst + ret <= endFirst && j == beginSecond + ret <= endSecond
      invariant a[..ret] == b[..ret]
    {
      assert a[ret] == NibbleAt(first, i) && b[ret] == NibbleAt(second, j);
      assert a[..ret + 1] == a[..ret] + [a[ret]] && b[..ret + 1] == b[..ret] + [b[ret]];
      i, j, ret := i + 1, j + 1, ret + 1;
    }
    SharedIs(a, b, ret);
  }

  // ---- the encoders on the keys of nodes ----

  /** `keyOf`: where the nibbles of a key begin in its hex-prefix form. */
  function KeyOffset(hpe: Bytes): (offset: nat)
    ensures offset <= 2 * |hpe| && KeyOf(hpe) == AsNibbles(hpe)[offset..]
  {
    if hpe == [] then 0 else if hpe[0] / 16 % 2 == 1 then 1 else 2
  }

  /** `hexPrefixEncode` of a node's key from nibble `skip` on. */
  method EncodeKey(hpe: Bytes, skip: nat, leaf: bool, begin: nat, end: int) returns (ret: Bytes)
    requires skip <= |KeyOf(hpe)| < INT_MAX && IsWindow(|KeyOf(hpe)| - skip, begin, end)
    ensures ret == HexEncode(Window(KeyOf(hpe)[skip..], begin, end), leaf)
  {
    var offset := KeyOffset(hpe);
    assert KeyOf(hpe)[skip..] == AsNibbles(hpe)[offset + skip..];
    ret := EncodeSlice(hpe, leaf, begin, end, offset + skip);
  }

  /** `hexPrefixEncode` of the keys of two nodes, one after the other. */
  method EncodeKeys(first: Bytes, second: Bytes, leaf: bool) returns (ret: Bytes)
    requires |KeyOf(first)| < INT_MAX && |KeyOf(second)| < INT_MAX
    ensures ret == HexEncode(KeyOf(first) + KeyOf(second), leaf)
  {
    ret := EncodeTwo(first, KeyOffset(first), second, KeyOffset(second), leaf);
  }

  /** The windows the trie asks for: the rest of a key, and its beginning. */
  lemma Windows(k: Nibbles, skip: nat, s: nat)
    requires skip + s <= |k|
    ensures IsWindow(|k| - skip, s, -1) && Window(k[skip..], s, -1) == k[skip + s..]
    ensures IsWindow(|k| - skip, 0, s) && Window(k[skip..], 0, s) == k[skip..skip + s]
    ensures IsWindow(|k| - skip, 0, -1 - s) && Window(k[skip..], 0, -1 - s) == k[skip..|k| - s]
  {
  }
}
