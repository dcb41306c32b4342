/**
 Base64 (section 4 of RFC 4648) as Base64.cpp has it: three bytes to four characters and back,
 with a shorter last group.
 */
module Base64 {
  import opened Bytes

  type sextet = n: nat | n < 64

  /** The characters from `first` on. */
  function Range(first: char, count: nat): (s: string)
    requires first as int + count < 128
    ensures |s| == count
  {
    seq(count, i requires 0 <= i < count => first + i as char)
  }

  const STANDARD: string := Range('A', 26) + Range('a', 26) + Range('0', 10) + "+/"
  const URL_SAFE: string := Range('A', 26) + Range('a', 26) + Range('0', 10) + "-_"

  function First6(a: byte): sextet { a / 4 }

  function Second6(a: byte, b: byte): sextet { a % 4 * 16 + b / 16 }

  function Third6(b: byte, c: byte): sextet { b % 16 * 4 + c / 64 }

  function Last6(c: byte): sextet { c % 64 }

  /** One group of four from three bytes, as the code computes it. */
  function Four(a: byte, b: byte, c: byte): (s: seq<sextet>)
    ensures |s| == 4
  {
    [First6(a), Second6(a, b), Third6(b, c), Last6(c)]
  }

  /** The six-bit groups of a byte string; the bits missing from the last are zero. */
  function Sextets(b: Bytes): seq<sextet>
  {
    if b == [] then []
    else if |b| == 1 then Four(b[0], 0, 0)[..2]
    else if |b| == 2 then Four(b[0], b[1], 0)[..3]
    else Four(b[0], b[1], b[2]) + Sextets(b[3..])
  }

  function Letters(alphabet: string, s: seq<sextet>): string
    requires |alphabet| == 64
  {
    seq(|s|, i requires 0 <= i < |s| => alphabet[s[i]])
  }

  /** How many characters are missing from the last four. */
  function Padding(n: nat): nat
  {
    if n % 3 == 0 then 0 else 3 - n % 3
  }

  function Filled(n: nat): string { seq(n, _ => '=') }

  /** The number with these digits, the first most significant. */
  function Number(base: nat, digits: seq<nat>): nat
  {
    if digits == [] then 0 else Number(base, digits[..|digits| - 1]) * base + digits[|digits| - 1]
  }

  /** The 24 bits of three bytes are the 24 bits of their four characters. */
  lemma {:induction false} GroupBits(b: Bytes, k: nat)
    requires 3 * k + 3 <= |b|
    ensures var s := Sextets(b);
            && 4 * k + 4 <= |s|
            && Number(64, s[4 * k..4 * k + 4]) == Number(256, b[3 * k..3 * k + 3])
  {
    hide Number, Four;
    var s := Sextets(b);
    var four := Four(b[0], b[1], b[2]);
    assert s == four + Sextets(b[3..]);
    if k > 0 {
      GroupBits(b[3..], k - 1);
      assert s[4 * k..4 * k + 4] == Sextets(b[3..])[4 * (k - 1)..4 * (k - 1) + 4];
      assert b[3 * k..3 * k + 3] == b[3..][3 * (k - 1)..3 * (k - 1) + 3];
    } else {
      assert s[..4] == four && b[..3] == [b[0], b[1], b[2]];
      FourBits(b[0], b[1], b[2]);
    }
  }

  /** Three bytes take four characters; one or two bytes that are left take one character more
      than they are, whose last bits are zero. */
  lemma {:induction false} TailBits(b: Bytes)
    ensures var s, k, left := Sextets(b), |b| / 3, |b| % 3;
            && |s| == 4 * k + (if left == 0 then 0 else left + 1)
            && |s| + Padding(|b|) == 4 * ((|b| + 2) / 3)
            && Number(64, s[4 * k..]) ==
               Number(256, b[3 * k..]) * (if left == 0 then 1 else if left == 1 then 16 else 4)
  {
    hide Number, Four;
    if |b| < 3 {
      FewBits(b);
    } else {
      var s, rest := Sextets(b), Sextets(b[3..]);
      TailBits(b[3..]);
      assert s == Four(b[0], b[1], b[2]) + rest;
      assert s[4 * (|b| / 3)..] == rest[4 * (|b[3..]| / 3)..];
      assert b[3 * (|b| / 3)..] == b[3..][3 * (|b[3..]| / 3)..];
    }
  }

  lemma FewBits(b: Bytes)
    requires |b| < 3
    ensures |Sextets(b)| == if b == [] then 0 else |b| + 1
    ensures Number(64, Sextets(b)[0..]) == Number(256, b[0..]) * (if b == [] then 1 else if |b| == 1 then 16 else 4)
  {
    var s := Sextets(b);
    assert s[0..] == s && b[0..] == b;
    if |b| == 1 {
      TwoDigits(64, First6(b[0]), Second6(b[0], 0));
      OneDigit(256, b[0]);
      assert s == [First6(b[0]), Second6(b[0], 0)] && b == [b[0]];
    } else if |b| == 2 {
      TwoDigits(256, b[0], b[1]);
      FourDigits(First6(b[0]), Second6(b[0], b[1]), Third6(b[1], 0), 0);
      Bits24(b[0], b[1], 0);
      var front := [First6(b[0]), Second6(b[0], b[1]), Third6(b[1], 0)];
      assert s == front && b == [b[0], b[1]] && (front + [0])[..3] == front;
      assert front + [0] == [First6(b[0]), Second6(b[0], b[1]), Third6(b[1], 0), 0];
    }
  }

  lemma OneDigit(base: nat, x: nat)
    ensures Number(base, [x]) == x
  {
    assert [x][..0] == [];
  }

  lemma TwoDigits(base: nat, x: nat, y: nat)
    ensures Number(base, [x, y]) == x * base + y
  {
    OneDigit(base, x);
    assert [x, y][..1] == [x];
  }

  lemma FourBits(a: byte, b: byte, c: byte)
    ensures Number(64, Four(a, b, c)) == Number(256, [a, b, c])
  {
    hide First6, Second6, Third6, Last6, Number;
    Bits24(a, b, c);
    FourDigits(First6(a), Second6(a, b), Third6(b, c), Last6(c));
    ThreeDigits(a, b, c);
    assert Four(a, b, c) == [First6(a), Second6(a, b), Third6(b, c), Last6(c)];
  }

  lemma Bits24(a: byte, b: byte, c: byte)
    ensures ((First6(a) * 64 + Second6(a, b)) * 64 + Third6(b, c)) * 64 + Last6(c) == (a * 256 + b) * 256 + c
  {
  }

  lemma ThreeDigits(x: nat, y: nat, z: nat)
    ensures Number(256, [x, y, z]) == (x * 256 + y) * 256 + z
  {
    assert [x, y, z][..2] == [x, y] && [x, y][..1] == [x] && [x][..0] == [];
    assert Number(256, [x]) == x && Number(256, [x, y]) == x * 256 + y;
  }

  lemma FourDigits(x: nat, y: nat, z: nat, w: nat)
    ensures Number(64, [x, y, z, w]) == ((x * 64 + y) * 64 + z) * 64 + w
  {
    assert [x, y, z, w][..3] == [x, y, z] && [x, y, z][..2] == [x, y] && [x, y][..1] == [x] && [x][..0] == [];
    assert Number(64, [x]) == x && Number(64, [x, y]) == x * 64 + y;
    assert Number(64, [x, y, z]) == (x * 64 + y) * 64 + z;
  }

  lemma {:induction false} SextetsPush(b: Bytes, x: byte, y: byte, z: byte)
    requires |b| % 3 == 0
    ensures Sextets(b + [x, y, z]) == Sextets(b) + Four(x, y, z)
    ensures Sextets(b + [x]) == Sextets(b) + Four(x, 0, 0)[..2]
    ensures Sextets(b + [x, y]) == Sextets(b) + Four(x, y, 0)[..3]
  {
    hide Four, Sextets;
    if b == [] {
      assert [] + [x, y, z] == [x, y, z] + [] && [] + [x] == [x] && [] + [x, y] == [x, y];
      FewSextets(x, y);
      ThreeMore(x, y, z, []);
      assert Four(x, y, z) + [] == Four(x, y, z);
    } else {
      var rest := b[3..];
      SextetsPush(rest, x, y, z);
      assert b == [b[0], b[1], b[2]] + rest;
      ThreeMore(b[0], b[1], b[2], rest);
      ThreeMore(b[0], b[1], b[2], rest + [x, y, z]);
      ThreeMore(b[0], b[1], b[2], rest + [x]);
      ThreeMore(b[0], b[1], b[2], rest + [x, y]);
      assert [b[0], b[1], b[2]] + (rest + [x, y, z]) == b + [x, y, z];
      assert [b[0], b[1], b[2]] + (rest + [x]) == b + [x];
      assert [b[0], b[1], b[2]] + (rest + [x, y]) == b + [x, y];
    }
  }

  lemma ThreeMore(x: byte, y: byte, z: byte, rest: Bytes)
    ensures Sextets([x, y, z] + rest) == Four(x, y, z) + Sextets(rest)
  {
    assert ([x, y, z] + rest)[3..] == rest;
  }

  lemma FewSextets(x: byte, y: byte)
    ensures Sextets([]) == [] && Sextets([x]) == Four(x, 0, 0)[..2] && Sextets([x, y]) == Four(x, y, 0)[..3]
  {
  }

  lemma LettersConcat(alphabet: string, s: seq<sextet>, t: seq<sextet>)
    requires |alphabet| == 64
    ensures Letters(alphabet, s + t) == Letters(alphabet, s) + Letters(alphabet, t)
  {
  }

  /** The letters of the first `count` characters of a group. */
  method AppendLetters(ret: string, alphabet: string, group: seq<sextet>, count: nat) returns (ret': string)
    requires |alphabet| == 64 && count <= |group|
    ensures ret' == ret + Letters(alphabet, group[..count])
  {
    ret' := ret;
    for j := 0 to count
      invariant ret' == ret + Letters(alphabet, group[..j])
    {
      ret' := ret' + [alphabet[group[j]]];
    }
  }

  /** `toBase64Encoding`. */
  method ToBase64Encoding(input: Bytes, alphabet: string, pad: bool) returns (ret: string)
    requires |alphabet| == 64
    ensures ret == Letters(alphabet, Sextets(input)) + if pad then Filled(Padding(|input|)) else ""
  {
    hide Sextets, Letters, Four;
    var i, at := 0, 0;
    var three: seq<byte> := [0, 0, 0];
    ret := "";
    NothingEncoded(alphabet);
    while at < |input|
      invariant 0 <= i < 3 && i <= at <= |input| && (at - i) % 3 == 0 && |three| == 3
      invariant ret == Letters(alphabet, Sextets(input[..at - i])) && three[..i] == input[at - i..at]
    {
      ghost var was := three;
      three := three[i := input[at]];
      i, at := i + 1, at + 1;
      NextByte(input, at, i, was, three);
      if i == 3 {
        assert three[..3] == three;
        GroupDone(input, at, three);
        LettersConcat(alphabet, Sextets(input[..at - 3]), Four(three[0], three[1], three[2]));
        ret := AppendLetters(ret, alphabet, Four(three[0], three[1], three[2]), 4);
        assert Four(three[0], three[1], three[2])[..4] == Four(three[0], three[1], three[2]);
        i := 0;
      }
    }
    assert input[..|input|] == input;
    if i > 0 {
      for j := i to 3
        invariant |three| == 3 && three[..i] == input[at - i..at] && forall m | i <= m < j :: three[m] == 0
      {
        ghost var was := three;
        three := three[j := 0];
        assert three[..i] == was[..i];
      }
      assert three[0] == three[..i][0] && (i == 2 ==> three[1] == three[..i][1]);
      TailDone(input[..at - i], input[at - i..], three);
      assert input == input[..at - i] + input[at - i..];
      LettersConcat(alphabet, Sextets(input[..at - i]), Four(three[0], three[1], three[2])[..i + 1]);
      ret := AppendLetters(ret, alphabet, Four(three[0], three[1], three[2]), i + 1);
      ghost var letters := ret;
      var filled := 0;
      while i < 3 && pad
        invariant i <= 3 && i + Padding(|input|) == 3 + filled && ret == letters + Filled(filled)
        invariant !pad ==> filled == 0
      {
        ret := ret + "=";
        i, filled := i + 1, filled + 1;
      }
    }
  }

  lemma NextByte(input: Bytes, at: nat, i: nat, was: seq<byte>, three: seq<byte>)
    requires 0 < i <= 3 && i <= at <= |input| && |was| == 3 && was[..i - 1] == input[at - i..at - 1]
    requires three == was[i - 1 := input[at - 1]]
    ensures three[..i] == input[at - i..at]
  {
    assert three[..i] == was[..i - 1] + [input[at - 1]];
    assert input[at - i..at] == input[at - i..at - 1] + [input[at - 1]];
  }

  lemma NothingEncoded(alphabet: string)
    requires |alphabet| == 64
    ensures Letters(alphabet, Sextets([])) == ""
  {
  }

  lemma GroupDone(input: Bytes, at: nat, three: seq<byte>)
    requires 3 <= at <= |input| && at % 3 == 0 && |three| == 3 && three == input[at - 3..at]
    ensures Sextets(input[..at]) == Sextets(input[..at - 3]) + Four(three[0], three[1], three[2])
  {
    assert input[..at] == input[..at - 3] + [three[0], three[1], three[2]];
    SextetsPush(input[..at - 3], three[0], three[1], three[2]);
  }

  /** The last group, of one byte or two. */
  lemma TailDone(front: Bytes, tail: Bytes, three: seq<byte>)
    requires |front| % 3 == 0 && 0 < |tail| < 3 && |three| == 3
    requires three[0] == tail[0] && three[1] == (if |tail| == 2 then tail[1] else 0) && three[2] == 0
    ensures Sextets(front + tail) == Sextets(front) + Four(three[0], three[1], three[2])[..|tail| + 1]
  {
    hide Four, Sextets;
    assert tail == if |tail| == 1 then [three[0]] else [three[0], three[1]];
    SextetsPush(front, three[0], three[1], 0);
  }

  // ---- decoding ----

  predicate IsBase64(c: char)
  {
    'A' <= c <= 'Z' || 'a' <= c <= 'z' || '0' <= c <= '9' || c == '+' || c == '/'
  }

  /** `find_base64_char_index`: 64 for any other character. */
  function CharIndex(c: char): (n: nat)
    ensures n <= 64
  {
    if 'A' <= c <= 'Z' then (c - 'A') as nat
    else if 'a' <= c <= 'z' then (c - 'a') as nat + 26
    else if '0' <= c <= '9' then (c - '0') as nat + 52
    else if c == '+' then 62
    else if c == '/' then 63
    else 64
  }

  /** The 64 letters of each alphabet. */
  lemma TheLetters()
    ensures STANDARD == "ABCDEFGHIJKLMNOPQRSTUVWXYZ" + "abcdefghijklmnopqrstuvwxyz" + "0123456789" + "+/"
    ensures URL_SAFE == "ABCDEFGHIJKLMNOPQRSTUVWXYZ" + "abcdefghijklmnopqrstuvwxyz" + "0123456789" + "-_"
  {
    hide Range;
    UpperCase();
    LowerCase();
    TenDigits();
  }

  lemma UpperCase()
    ensures Range('A', 26) == "ABCDEFGHIJKLMNOPQRSTUVWXYZ"
  {
  }

  lemma LowerCase()
    ensures Range('a', 26) == "abcdefghijklmnopqrstuvwxyz"
  {
  }

  lemma TenDigits()
    ensures Range('0', 10) == "0123456789"
  {
  }

  /** Each letter is found at its own index, and nothing else is. */
  lemma IndexOfLetter(i: nat, c: char)
    requires i < 64
    ensures IsBase64(STANDARD[i]) && CharIndex(STANDARD[i]) == i
    ensures IsBase64(c) <==> CharIndex(c) < 64
    ensures CharIndex(c) == i <==> c == STANDARD[i]
  {
  }

  function First8(a: nat, b: nat): byte { (a * 4 + b / 16 % 4) % 256 }

  function Second8(b: nat, c: nat): byte { (b % 16 * 16 + c / 4 % 16) % 256 }

  function Last8(c: nat, d: nat): byte { (c % 4 * 64 + d) % 256 }

  /** Three bytes from four indexes, as the code computes them. */
  function Three(a: nat, b: nat, c: nat, d: nat): (s: Bytes)
    ensures |s| == 3
  {
    [First8(a, b), Second8(b, c), Last8(c, d)]
  }

  /** The bytes of a sequence of indexes; what is missing from the last four counts as 64. */
  function Joined(s: seq<nat>): Bytes
  {
    if s == [] then []
    else if |s| < 4 then
      Three(s[0], if |s| > 1 then s[1] else 64, if |s| > 2 then s[2] else 64, 64)[..|s| - 1]
    else Three(s[0], s[1], s[2], s[3]) + Joined(s[4..])
  }

  function Indexes(s: string): (n: seq<nat>)
    ensures |n| == |s|
  {
    seq(|s|, i requires 0 <= i < |s| => CharIndex(s[i]))
  }

  /** The characters read: up to the first that is none of the alphabet. */
  function Readable(s: string): string
  {
    if s == "" || !IsBase64(s[0]) then "" else [s[0]] + Readable(s[1..])
  }

  lemma TwoParts(q: nat, r: nat, m: nat)
    requires r < m && (m == 4 || m == 16)
    ensures (q * m + r) / m == q && (q * m + r) % m == r
  {
  }

  lemma FirstBack(a: byte, b: byte)
    ensures First8(First6(a), Second6(a, b)) == a
  {
    TwoParts(a % 4, b / 16, 16);
  }

  lemma SecondBack(a: byte, b: byte, c: byte)
    ensures Second8(Second6(a, b), Third6(b, c)) == b
  {
    TwoParts(a % 4, b / 16, 16);
    TwoParts(b % 16, c / 64, 4);
  }

  lemma LastBack(b: byte, c: byte)
    ensures Last8(Third6(b, c), Last6(c)) == c
  {
    TwoParts(b % 16, c / 64, 4);
  }

  lemma ThreeOfFour(a: byte, b: byte, c: byte)
    ensures var s := Four(a, b, c); Three(s[0], s[1], s[2], s[3]) == [a, b, c]
  {
    hide First6, Second6, Third6, Last6, First8, Second8, Last8;
    FirstBack(a, b);
    SecondBack(a, b, c);
    LastBack(b, c);
  }

  lemma TwoOfThree(a: byte, b: byte)
    ensures var s := Four(a, b, 0); Three(s[0], s[1], s[2], 64)[..2] == [a, b]
  {
    hide First6, Second6, Third6, Last6, First8, Second8, Last8;
    FirstBack(a, b);
    SecondBack(a, b, 0);
  }

  lemma OneOfTwo(a: byte)
    ensures var s := Four(a, 0, 0); Three(s[0], s[1], 64, 64)[..1] == [a]
  {
    hide First6, Second6, Third6, Last6, First8, Second8, Last8;
    FirstBack(a, 0);
  }

  /** Joining undoes splitting, whatever the length of the last group. */
  lemma {:induction false} JoinedSextets(b: Bytes)
    ensures Joined(Sextets(b)) == b
  {
    hide Three, Four;
    var s := Sextets(b);
    if |b| == 1 {
      OneOfTwo(b[0]);
    } else if |b| == 2 {
      TwoOfThree(b[0], b[1]);
    } else if b != [] {
      ThreeOfFour(b[0], b[1], b[2]);
      JoinedSextets(b[3..]);
      assert s[4..] == Sextets(b[3..]);
      assert b == [b[0], b[1], b[2]] + b[3..];
    }
  }

  lemma {:induction false} JoinedPush(s: seq<nat>, t: seq<nat>)
    requires |s| % 4 == 0
    ensures Joined(s + t) == Joined(s) + Joined(t)
  {
    hide Three;
    if s == [] {
      assert s + t == t && [] + Joined(t) == Joined(t);
    } else {
      JoinedPush(s[4..], t);
      assert (s + t)[4..] == s[4..] + t;
    }
  }

  lemma JoinedFour(s: seq<nat>)
    requires |s| == 4
    ensures Joined(s) == Three(s[0], s[1], s[2], s[3])
  {
    assert s[4..] == [];
  }

  lemma {:induction false} ReadableStep(s: string, at: nat)
    requires at <= |s| && Readable(s) == s[..at] + Readable(s[at..])
    ensures at < |s| && IsBase64(s[at]) ==> Readable(s) == s[..at + 1] + Readable(s[at + 1..])
    ensures at == |s| || !IsBase64(s[at]) ==> Readable(s) == s[..at]
  {
    if at < |s| && IsBase64(s[at]) {
      assert s[at..][1..] == s[at + 1..] && s[..at + 1] == s[..at] + [s[at]];
    }
  }

  /** `fromBase64`. */
  method FromBase64(encoded: string) returns (ret: Bytes)
    ensures ret == Joined(Indexes(Readable(encoded)))
  {
    hide Joined, Three, Readable, CharIndex, IsBase64;
    var i, at := 0, 0;
    var four: seq<nat> := [0, 0, 0, 0];
    ret := [];
    NothingRead(encoded);
    while at < |encoded| && encoded[at] != '=' && IsBase64(encoded[at])
      invariant 0 <= i < 4 && i <= at <= |encoded| && (at - i) % 4 == 0 && |four| == 4
      invariant Readable(encoded) == encoded[..at] + Readable(encoded[at..])
      invariant ret == Joined(Indexes(encoded[..at - i]))
      invariant four[..i] == Indexes(encoded[at - i..at])
    {
      ReadableStep(encoded, at);
      ghost var was := four;
      four := four[i := CharIndex(encoded[at])];
      i, at := i + 1, at + 1;
      assert four[..i] == was[..i - 1] + [CharIndex(encoded[at - 1])];
      assert encoded[at - i..at] == encoded[at - i..at - 1] + [encoded[at - 1]];
      if i == 4 {
        assert four[..4] == four;
        GroupRead(encoded, at, four);
        ret := ret + Three(four[0], four[1], four[2], four[3]);
        i := 0;
      }
    }
    EqualsSign(encoded, at);
    ReadableStep(encoded, at);
    TailRead(encoded, at, i, four);
    ret := AppendTail(ret, four, i);
  }

  /** The last group, with null characters for what is missing. */
  method AppendTail(ret: Bytes, group: seq<nat>, i: nat) returns (ret': Bytes)
    requires |group| == 4 && i < 4
    ensures ret' == ret + Joined(group[..i])
  {
    hide Joined, Three, CharIndex;
    ghost var tail := group[..i];
    TailJoined(tail);
    ret' := ret;
    if i > 0 {
      var four := group;
      for j := i to 4
        invariant |four| == 4 && four[..i] == tail && forall m | i <= m < j :: four[m] == 64
      {
        ghost var before := four;
        four := four[j := CharIndex(0 as char)];
        assert four[..i] == before[..i];
        NullIndex();
      }
      assert forall m | 0 <= m < i :: four[m] == tail[m];
      ret' := ret + Three(four[0], four[1], four[2], four[3])[..i - 1];
    }
  }

  lemma GroupRead(encoded: string, at: nat, four: seq<nat>)
    requires 4 <= at <= |encoded| && (at - 4) % 4 == 0 && |four| == 4 && four == Indexes(encoded[at - 4..at])
    ensures Joined(Indexes(encoded[..at])) ==
            Joined(Indexes(encoded[..at - 4])) + Three(four[0], four[1], four[2], four[3])
  {
    hide Joined, Three, CharIndex;
    assert Indexes(encoded[..at]) == Indexes(encoded[..at - 4]) + four;
    JoinedPush(Indexes(encoded[..at - 4]), four);
    JoinedFour(four);
  }

  lemma TailRead(encoded: string, at: nat, i: nat, four: seq<nat>)
    requires i <= at <= |encoded| && i < 4 && (at - i) % 4 == 0 && |four| == 4
    requires four[..i] == Indexes(encoded[at - i..at])
    ensures Joined(Indexes(encoded[..at])) == Joined(Indexes(encoded[..at - i])) + Joined(four[..i])
  {
    hide Joined, CharIndex;
    assert Indexes(encoded[..at]) == Indexes(encoded[..at - i]) + four[..i];
    JoinedPush(Indexes(encoded[..at - i]), four[..i]);
  }

  lemma NullIndex()
    ensures CharIndex(0 as char) == 64
  {
  }

  lemma NothingRead(encoded: string)
    ensures Readable(encoded) == encoded[..0] + Readable(encoded[0..]) && Joined(Indexes(encoded[..0])) == []
  {
    assert encoded[0..] == encoded && encoded[..0] == "";
  }

  lemma EqualsSign(encoded: string, at: nat)
    ensures at < |encoded| && encoded[at] == '=' ==> !IsBase64(encoded[at])
  {
  }

  lemma TailJoined(s: seq<nat>)
    requires |s| < 4
    ensures s == [] ==> forall b: Bytes :: b + Joined(s) == b
    ensures s != [] ==>
              Joined(s) == Three(s[0], if |s| > 1 then s[1] else 64, if |s| > 2 then s[2] else 64, 64)[..|s| - 1]
  {
  }

  // ---- there and back ----

  lemma LettersAt(alphabet: string, i: nat)
    requires alphabet == STANDARD || alphabet == URL_SAFE
    requires i < 64
    ensures |alphabet| == 64
    ensures i < 62 || alphabet == STANDARD ==> IsBase64(alphabet[i]) && CharIndex(alphabet[i]) == i
    ensures i >= 62 && alphabet == URL_SAFE ==> !IsBase64(alphabet[i])
  {
  }

  lemma LettersFront(alphabet: string, s: seq<sextet>)
    requires |alphabet| == 64 && s != []
    ensures Letters(alphabet, s) == [alphabet[s[0]]] + Letters(alphabet, s[1..])
  {
  }

  lemma ReadableFront(c: char, rest: string)
    requires IsBase64(c)
    ensures Readable([c] + rest) == [c] + Readable(rest) && Indexes([c] + rest) == [CharIndex(c)] + Indexes(rest)
  {
    hide IsBase64, CharIndex;
    assert ([c] + rest)[1..] == rest;
  }

  /** Letters of the standard alphabet are all read, and stand for themselves. */
  lemma {:induction false} LettersRead(s: seq<sextet>, rest: string)
    requires rest == "" || rest[0] == '='
    ensures |STANDARD| == 64
    ensures Readable(Letters(STANDARD, s) + rest) == Letters(STANDARD, s) && Indexes(Letters(STANDARD, s)) == s
  {
    hide Letters, Indexes, Readable, CharIndex;
    if s == [] {
      NoLetters(rest);
    } else {
      var c, more := STANDARD[s[0]], Letters(STANDARD, s[1..]);
      LettersRead(s[1..], rest);
      LettersAt(STANDARD, s[0]);
      LettersFront(STANDARD, s);
      ReadableFront(c, more + rest);
      ReadableFront(c, more);
      Assoc([c], more, rest);
    }
  }

  lemma NoLetters(rest: string)
    requires rest == "" || rest[0] == '='
    ensures |STANDARD| == 64 && Letters(STANDARD, []) == ""
    ensures Readable(Letters(STANDARD, []) + rest) == "" && Indexes("") == []
  {
    assert Letters(STANDARD, []) + rest == rest;
  }

  /** Every byte string comes back from its base64. */
  method ThereAndBack(b: Bytes) returns (encoded: string, back: Bytes)
    ensures encoded == Letters(STANDARD, Sextets(b)) + Filled(Padding(|b|))
    ensures back == b
  {
    hide Sextets, Letters, Joined, Readable;
    LettersAt(STANDARD, 0);
    encoded := ToBase64Encoding(b, STANDARD, true);
    back := FromBase64(encoded);
    LettersRead(Sextets(b), Filled(Padding(|b|)));
    JoinedSextets(b);
  }
}
