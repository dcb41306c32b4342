/**
 Bytes and the big-endian integers of CommonData.h.

 `BigEndian` is the minimal big-endian form that every RLP length and integer uses;
 the loops of the program (`bytesRequired`, `pushInt`, `fromBigEndian`) are methods
 proved against it.
 */
module Bytes {

  type byte = b: int | 0 <= b < 256

  type Bytes = seq<byte>

  /** A 256-bit hash, and the hash function `sha3` as a parameter: nothing is known of it
      but the width of its results. */
  type Hash = h: Bytes | |h| == 32
    witness [0, 0, 0, 0, 0, 0, 0, 0, 0, 0, 0, 0, 0, 0, 0, 0, 0, 0, 0, 0, 0, 0, 0, 0, 0, 0, 0, 0, 0, 0, 0, 0]

  type Hasher = Bytes -> Hash

  /** A result of the program: a value, or one of its exceptions. */
  datatype Result<+T> = Ok(value: T) | Throws(error: Error) {
    predicate IsFailure() {
      Throws?
    }

    function PropagateFailure<U>(): Result<U>
      requires Throws?
    {
      Throws(error)
    }

    function Extract(): T
      requires Ok?
    {
      value
    }
  }

  datatype Option<+T> = None | Some(value: T)

  datatype Error =
    | BadRLP
    | UndersizeRLP
    | OversizeRLP
    | BadCast
    | ItemCountTooLarge
    | InvalidTrie
    | RootNotFound
    | NibblePastEnd
    | InvalidTransactionFormat
    | InvalidSignature
    | TransactionIsUnsigned

  const U256_LIMIT: nat := 0x1_0000000000000000_0000000000000000_0000000000000000_0000000000000000

  type u256 = n: nat | n < U256_LIMIT

  function Min(a: nat, b: nat): nat { if a < b then a else b }

  /** Values of size_t lie below this bound. */
  const SIZE_LIMIT: nat := 0x1_0000_0000_0000_0000

  /** Minimal big-endian form: no leading zero, and nothing at all for zero. */
  function BigEndian(n: nat): (s: Bytes)
    ensures (s == []) == (n == 0)
    ensures s != [] ==> s[0] != 0
  {
    if n == 0 then [] else BigEndian(n / 256) + [n % 256]
  }

  function FromBigEndian(s: Bytes): nat
  {
    if s == [] then 0 else FromBigEndian(s[..|s| - 1]) * 256 + s[|s| - 1]
  }

  function Pow256(k: nat): (p: nat)
    ensures p >= 1
  {
    if k == 0 then 1 else 256 * Pow256(k - 1)
  }

  lemma Assoc<T>(a: seq<T>, b: seq<T>, c: seq<T>)
    ensures a + b + c == a + (b + c)
  {
  }

  lemma SliceOfSlice<T>(s: seq<T>, offset: nat, begin: nat, end: nat)
    requires offset <= |s| && begin <= end <= |s| - offset
    ensures s[offset..][begin..end] == s[begin + offset..end + offset]
  {
  }

  lemma SliceOfTake<T>(s: seq<T>, k: nat, begin: nat, end: nat)
    requires begin <= end <= k <= |s|
    ensures s[..k][begin..end] == s[begin..end]
  {
  }

  lemma SliceGrows<T>(front: seq<T>, s: seq<T>, begin: nat, end: nat)
    requires begin <= end <= |s|
    ensures end == begin ==> front + s[begin..end] == front
    ensures end < |s| ==> front + s[begin..end + 1] == front + s[begin..end] + [s[end]]
  {
  }

  /** Decoding inverts encoding on every natural number. */
  lemma {:induction false} BigEndianRoundTrip(n: nat)
    ensures FromBigEndian(BigEndian(n)) == n
  {
    if n != 0 {
      BigEndianRoundTrip(n / 256);
      var s := BigEndian(n);
      assert s[..|s| - 1] == BigEndian(n / 256);
    }
  }

  /** Each byte counts 256 times as much as the one behind it. */
  lemma FromBigEndianPush(s: Bytes, b: byte)
    ensures FromBigEndian(s + [b]) == 256 * FromBigEndian(s) + b
  {
    assert (s + [b])[..|s|] == s;
  }

  /** The byte with i bytes behind it is digit i of the number, to base 256. */
  lemma {:induction false} BigEndianDigits(n: nat, i: nat)
    requires i < |BigEndian(n)|
    ensures BigEndian(n)[|BigEndian(n)| - 1 - i] as int == n / Pow256(i) % 256
    decreases i
  {
    if i > 0 {
      BigEndianDigits(n / 256, i - 1);
      DivideTwice(n, Pow256(i - 1));
    }
  }

  lemma DivideTwice(n: nat, b: nat)
    requires b > 0
    ensures n / 256 / b == n / (256 * b)
  {
    var q := n / 256;
    var p, r := q / b, q % b;
    WholeAndRest(q, b);
    Regroup(b, p);
    Quotient(n, 256 * b, p, 256 * r + n % 256);
  }

  lemma WholeAndRest(n: nat, d: nat)
    requires d > 0
    ensures n == d * (n / d) + n % d && n % d < d
  {
  }

  lemma Regroup(b: nat, c: nat)
    ensures 256 * b * c == 256 * (b * c)
  {
  }

  lemma Distributes(a: nat, x: nat, y: nat)
    ensures a * (x + y) == a * x + a * y
  {
  }

  lemma LessTimes(a: nat, x: nat, b: nat)
    requires x < b
    ensures a * x + a <= a * b
  {
    Distributes(a, x, 1);
    Distributes(a, x + 1, b - x - 1);
  }

  lemma Quotient(n: nat, d: nat, q: nat, r: nat)
    requires n == d * q + r && r < d
    ensures n / d == q
  {
    var p := n / d;
    WholeAndRest(n, d);
    if p < q {
      LessTimes(d, p, q);
    } else if q < p {
      LessTimes(d, q, p);
    }
  }

  /** Encoding inverts decoding on every string without a leading zero. */
  lemma {:induction false} BigEndianCanonical(s: Bytes)
    requires s != [] ==> s[0] != 0
    ensures BigEndian(FromBigEndian(s)) == s
  {
    if s != [] {
      var t := s[..|s| - 1];
      BigEndianCanonical(t);
      assert s == t + [s[|s| - 1]];
      assert FromBigEndian(s) / 256 == FromBigEndian(t);
      if t == [] {
        assert FromBigEndian(s) == s[0];
      }
    }
  }

  /** A big-endian form of k bytes denotes a number below 256^k, and a number below
      256^k needs at most k bytes. */
  lemma {:induction false} BigEndianLength(n: nat, k: nat)
    ensures |BigEndian(n)| <= k <==> n < Pow256(k)
  {
    if n != 0 && k != 0 {
      BigEndianLength(n / 256, k - 1);
      assert n < 256 * Pow256(k - 1) <==> n / 256 < Pow256(k - 1);
    }
  }

  /** The bounds of size_t and of 256-bit numbers. */
  lemma Widths()
    ensures SIZE_LIMIT == Pow256(8) && U256_LIMIT == Pow256(32)
  {
    Pow256Of8();
    Pow256Sum(8, 8);
    assert Pow256(16) == 0x1_0000000000000000_0000000000000000;
    Pow256Sum(16, 16);
  }

  lemma {:induction false} Pow256Sum(a: nat, b: nat)
    ensures Pow256(a + b) == Pow256(a) * Pow256(b)
  {
    if a > 0 {
      Pow256Sum(a - 1, b);
      assert 256 * Pow256(a - 1) * Pow256(b) == 256 * (Pow256(a - 1) * Pow256(b));
    }
  }

  /** Numbers that fit size_t take at most eight bytes, and only they do. */
  lemma SizeBytes(n: nat)
    ensures |BigEndian(n)| <= 8 <==> n < SIZE_LIMIT
  {
    BigEndianLength(n, 8);
    Pow256Of8();
  }

  lemma Pow256Of8()
    ensures Pow256(8) == SIZE_LIMIT
  {
    assert Pow256(2) == 0x1_0000;
    assert Pow256(4) == 0x1_0000_0000;
    assert Pow256(6) == 0x1_0000_0000_0000;
  }

  /** `bytesRequired`: how many times a number can be shifted before it is zero. */
  method BytesRequired(n: nat) returns (count: nat)
    ensures count == |BigEndian(n)|
  {
    count := 0;
    var i := n;
    while i != 0
      invariant count + |BigEndian(i)| == |BigEndian(n)|
      decreases i
    {
      count, i := count + 1, i / 256;
    }
  }

  /** `fromBigEndian`: accumulate from the most significant byte down. */
  method ReadBigEndian(s: Bytes) returns (n: nat)
    ensures n == FromBigEndian(s)
  {
    n := 0;
    for i := 0 to |s|
      invariant n == FromBigEndian(s[..i])
    {
      assert s[..i + 1][..i] == s[..i];
      n := n * 256 + s[i];
    }
    assert s[..|s|] == s;
  }
}
