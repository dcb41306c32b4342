/**
 `TransactionBase`: a transaction read from and written to RLP, with the chain id folded into
 the signature's `v` as EIP-155 has it.
 */
module Transaction {
  import opened Bytes
  import opened Rlp
  import opened RlpReader
  import opened RlpView
  import opened RlpStream

  const INT_LIMIT: int := 0x8000_0000
  const UNSIGNED_LIMIT: int := 0x1_0000_0000

  type uint64 = n: nat | n < SIZE_LIMIT

  type Address = a: Bytes | |a| == 20
    witness [0, 0, 0, 0, 0, 0, 0, 0, 0, 0, 0, 0, 0, 0, 0, 0, 0, 0, 0, 0]

  const ZERO_ADDRESS: Address := [0, 0, 0, 0, 0, 0, 0, 0, 0, 0, 0, 0, 0, 0, 0, 0, 0, 0, 0, 0]

  datatype Type = NullTransaction | ContractCreation | MessageCall

  datatype SignatureStruct = SignatureStruct(r: u256, s: u256, v: byte)

  datatype Tx = Tx(
    kind: Type, nonce: u256, value: u256, receiveAddress: Address, gasPrice: u256, gas: u256,
    data: Bytes, vrs: Option<SignatureStruct>, chainId: Option<uint64>)

  datatype CheckTransaction = NoCheck | Cheap

  /** The order of the curve: what `isValid` compares r and s with. */
  const CURVE_ORDER: nat := 0xffffffffffffffff_fffffffffffffffe_baaedce6af48a03b_bfd25e8cd0364141

  predicate IsValid(sig: SignatureStruct)
  {
    sig.v <= 1 && 0 < sig.r < CURVE_ORDER && 0 < sig.s < CURVE_ORDER
  }

  predicate IsZeroSignature(r: u256, s: u256) { r == 0 && s == 0 }

  // ---- the nine fields on the wire ----

  datatype Wire = Wire(
    nonce: u256, gasPrice: u256, gas: u256, to: Bytes, value: u256, data: Bytes, v: u256, r: u256, s: u256)

  function WireStrings(w: Wire): (strings: seq<Bytes>)
    ensures |strings| == 9
  {
    [BigEndian(w.nonce), BigEndian(w.gasPrice), BigEndian(w.gas), w.to, BigEndian(w.value), w.data,
     BigEndian(w.v), BigEndian(w.r), BigEndian(w.s)]
  }

  function AsData(strings: seq<Bytes>): (items: seq<Item>)
    ensures |items| == |strings|
  {
    seq(|strings|, i requires 0 <= i < |strings| => Data(strings[i]))
  }

  function WireItem(w: Wire): Item
  {
    List(AsData(WireStrings(w)))
  }

  /** What the wire's `v` says besides the signature: the chain, if any, and the recovery id. */
  function ReadV(v: u256): Result<(Option<uint64>, byte)>
  {
    if v > 36 then
      var chainId := (v - 35) / 2;
      if chainId >= SIZE_LIMIT then Throws(InvalidSignature)
      else Ok((Some(chainId), v - (chainId * 2 + 35)))
    else if v != 27 && v != 28 then Throws(InvalidSignature)
    else Ok((None, v - 27))
  }

  /** The transaction the nine fields stand for. */
  function FromWire(w: Wire, check: CheckTransaction): Result<Tx>
  {
    if w.to != [] && |w.to| != 20 then Throws(BadCast) else
    var t := Tx(if w.to == [] then ContractCreation else MessageCall, w.nonce, w.value,
                if w.to == [] then ZERO_ADDRESS else w.to, w.gasPrice, w.gas, w.data, None, None);
    if IsZeroSignature(w.r, w.s) then
      Ok(t.(chainId := Some(w.v % SIZE_LIMIT), vrs := Some(SignatureStruct(w.r, w.s, 0))))
    else
      var read :- ReadV(w.v);
      var sig := SignatureStruct(w.r, w.s, read.1);
      if check == Cheap && !IsValid(sig) then Throws(InvalidSignature)
      else Ok(t.(chainId := read.0, vrs := Some(sig)))
  }

  // ---- what is written ----

  /** An unsigned 64-bit number converted to `int`: the low 32 bits, two's complement. */
  function ToInt32(n: nat): int
  {
    (n + INT_LIMIT) % UNSIGNED_LIMIT - INT_LIMIT
  }

  /** A sum of two `int`s, wrapping. */
  function AddInt32(a: int, b: int): int
  {
    (a + b + INT_LIMIT) % UNSIGNED_LIMIT - INT_LIMIT
  }

  /** `rawV`: the offset is computed in 64 bits and kept in an `int`. */
  function RawV(sig: SignatureStruct, chainId: Option<uint64>): u256
  {
    var vOffset := if chainId.Some? then ToInt32((chainId.value * 2 + 35) % SIZE_LIMIT) else 27;
    AddInt32(sig.v, vOffset) % U256_LIMIT
  }

  predicate Signed(t: Tx)
  {
    && t.kind != NullTransaction && t.vrs.Some?
    && (t.vrs.value.r == 0 && t.vrs.value.s == 0 ==> t.chainId.Some?)
  }

  /** The six fields of the transaction proper. */
  function OwnStrings(t: Tx): seq<Bytes>
  {
    [BigEndian(t.nonce), BigEndian(t.gasPrice), BigEndian(t.gas),
     if t.kind == MessageCall then t.receiveAddress else [], BigEndian(t.value), t.data]
  }

  /** The nine fields a signed transaction is written as; a chain id alone goes through the
      stream's `unsigned`. */
  function ToWire(t: Tx): Wire
    requires Signed(t)
  {
    var sig := t.vrs.value;
    Wire(t.nonce, t.gasPrice, t.gas, if t.kind == MessageCall then t.receiveAddress else [], t.value, t.data,
         if IsZeroSignature(sig.r, sig.s) then t.chainId.value % UNSIGNED_LIMIT else RawV(sig, t.chainId),
         sig.r, sig.s)
  }

  /** What is hashed for signing. */
  function Preimage(t: Tx, forEip155: bool): Item
    requires forEip155 ==> t.chainId.Some?
  {
    List(AsData(OwnStrings(t) +
                if forEip155 then [BigEndian(t.chainId.value % UNSIGNED_LIMIT), [], []] else []))
  }

  /** The strings streamed for a transaction; an unsigned one gets no further than its own. */
  function Strings(t: Tx, includeSig: bool, forEip155: bool): seq<Bytes>
    requires includeSig && t.vrs.Some? && t.kind != NullTransaction ==> Signed(t)
    requires !includeSig && forEip155 ==> t.chainId.Some?
  {
    OwnStrings(t) +
    if includeSig then
      if t.vrs.Some? && t.kind != NullTransaction then
        [BigEndian(ToWire(t).v), BigEndian(t.vrs.value.r), BigEndian(t.vrs.value.s)]
      else [[], [], []]
    else if forEip155 then [BigEndian(t.chainId.value % UNSIGNED_LIMIT), [], []]
    else []
  }

  lemma SignedStrings(t: Tx)
    requires Signed(t)
    ensures Strings(t, true, false) == WireStrings(ToWire(t)) == Strings(t, true, true)
  {
  }

  /** The nine fields in their order. */
  lemma NineInOrder(t: Tx)
    requires Signed(t)
    ensures var sig := t.vrs.value;
            WireItem(ToWire(t)) ==
            List([Data(BigEndian(t.nonce)), Data(BigEndian(t.gasPrice)), Data(BigEndian(t.gas)),
                  Data(if t.kind == MessageCall then t.receiveAddress else []), Data(BigEndian(t.value)), Data(t.data),
                  Data(BigEndian(if sig.r == 0 && sig.s == 0 then t.chainId.value % 0x1_0000_0000
                                 else RawV(sig, t.chainId))),
                  Data(BigEndian(sig.r)), Data(BigEndian(sig.s))])
  {
    hide BigEndian, RawV;
  }

  /** What is hashed for signing: six fields, and for EIP-155 the chain id and two empty strings. */
  lemma PreimageInOrder(t: Tx)
    ensures var six := [Data(BigEndian(t.nonce)), Data(BigEndian(t.gasPrice)), Data(BigEndian(t.gas)),
                        Data(if t.kind == MessageCall then t.receiveAddress else []), Data(BigEndian(t.value)),
                        Data(t.data)];
            && Preimage(t, false) == List(six)
            && (t.chainId.Some? ==>
                  Preimage(t, true) ==
                  List(six + [Data(BigEndian(t.chainId.value % 0x1_0000_0000)), Data([]), Data([])]))
  {
    hide BigEndian;
  }

  // ---- the codec on fields ----

  lemma WrapsExactly(n: nat)
    requires n < SIZE_LIMIT
    ensures n < INT_LIMIT ==> ToInt32(n) == n
    ensures -INT_LIMIT <= ToInt32(n) < INT_LIMIT
  {
  }

  /** `rawV` is the value of EIP-155 exactly as long as that value is an `int`. */
  lemma RawVExact(sig: SignatureStruct, c: uint64)
    requires sig.v <= 1
    ensures RawV(sig, Some(c)) == sig.v + c * 2 + 35 <==> sig.v + c * 2 + 35 < 0x8000_0000
  {
    hide ToInt32, AddInt32;
    var n := (c * 2 + 35) % SIZE_LIMIT;
    WrapsExactly(n);
    var sum := AddInt32(sig.v, ToInt32(n));
    AddInt32LowBits(sig.v, ToInt32(n));
    if c * 2 + 35 < INT_LIMIT {
      assert n == c * 2 + 35;
    }
    AsU256(sum);
  }

  lemma AsU256(n: int)
    requires -INT_LIMIT <= n < INT_LIMIT
    ensures n % U256_LIMIT == if n < 0 then n + U256_LIMIT else n
  {
  }

  /** Beyond, its lowest 32 bits are right. Without a chain id it is 27 or 28. */
  lemma RawVLowBits(sig: SignatureStruct, c: uint64)
    requires sig.v <= 1
    ensures RawV(sig, Some(c)) % 0x1_0000_0000 == (sig.v + c * 2 + 35) % 0x1_0000_0000
    ensures RawV(sig, None) == 27 + sig.v
  {
    hide ToInt32, AddInt32;
    var n := (c * 2 + 35) % SIZE_LIMIT;
    ToInt32LowBits(n);
    AddInt32LowBits(sig.v, ToInt32(n));
    AddInt32LowBits(sig.v, 27);
    SameLowBits(c * 2 + 35, n, SIZE_LIMIT / UNSIGNED_LIMIT * ((c * 2 + 35) / SIZE_LIMIT));
    var sum := AddInt32(sig.v, ToInt32(n));
    SameLowBits(sum % U256_LIMIT, sum, if sum < 0 then U256_LIMIT / UNSIGNED_LIMIT else 0);
    SameLowBits(ToInt32(n), n, (ToInt32(n) - n) / UNSIGNED_LIMIT);
    SameLowBits(sum, sig.v + ToInt32(n), (sum - sig.v - ToInt32(n)) / UNSIGNED_LIMIT);
    SameLowBits(sig.v + ToInt32(n), sig.v + n, (ToInt32(n) - n) / UNSIGNED_LIMIT);
    SameLowBits(sig.v + c * 2 + 35, sig.v + n, SIZE_LIMIT / UNSIGNED_LIMIT * ((c * 2 + 35) / SIZE_LIMIT));
  }

  /** Both are the number itself up to a multiple of 2^32. */
  lemma ToInt32LowBits(n: nat)
    ensures -INT_LIMIT <= ToInt32(n) < INT_LIMIT
    ensures ToInt32(n) == n + (ToInt32(n) - n) / UNSIGNED_LIMIT * UNSIGNED_LIMIT
  {
  }

  lemma AddInt32LowBits(a: int, b: int)
    ensures -INT_LIMIT <= AddInt32(a, b) < INT_LIMIT
    ensures AddInt32(a, b) == a + b + (AddInt32(a, b) - a - b) / UNSIGNED_LIMIT * UNSIGNED_LIMIT
    ensures -INT_LIMIT <= a + b < INT_LIMIT ==> AddInt32(a, b) == a + b
  {
  }

  lemma SameLowBits(a: int, b: int, k: int)
    requires a == b + k * UNSIGNED_LIMIT
    ensures a % UNSIGNED_LIMIT == b % UNSIGNED_LIMIT
  {
  }

  /** A chain id that is not zero and leaves `v` an `int`. */
  predicate ChainFits(t: Tx)
    requires t.vrs.Some?
  {
    t.chainId.Some? ==> t.chainId.value >= 1 && t.vrs.value.v + t.chainId.value * 2 + 35 < 0x8000_0000
  }

  /** The order of the curve secp256k1, written out. */
  lemma ValidSignature(sig: SignatureStruct)
    ensures var n := 115792089237316195423570985008687907852837564279074904382605163141518161494337;
            IsValid(sig) <==> (sig.v == 0 || sig.v == 1) && 1 <= sig.r < n && 1 <= sig.s < n
  {
  }

  /** A new contract is created by a transaction to nobody, whose recipient reads as twenty zeros. */
  lemma NoRecipient()
    ensures ZERO_ADDRESS == seq(20, _ => 0)
  {
  }

  /** When a written transaction comes back: a new contract has no recipient; beside a zero
      signature the chain id is below 2^32 and there is no recovery id; beside another the
      recovery id is a bit, the chain id fits, and the signature is valid where that is checked. */
  predicate ComesBack(t: Tx, check: CheckTransaction)
    requires Signed(t)
  {
    var sig := t.vrs.value;
    && (t.kind == ContractCreation ==> t.receiveAddress == ZERO_ADDRESS)
    && if sig.r == 0 && sig.s == 0 then sig.v == 0 && t.chainId.value < 0x1_0000_0000
       else sig.v <= 1 && ChainFits(t) && (check == Cheap ==> IsValid(sig))
  }

  /** Every field of a signed transaction comes back exactly under that condition. */
  lemma FieldsRoundTrip(t: Tx, check: CheckTransaction)
    requires Signed(t)
    ensures FromWire(ToWire(t), check) == Ok(t) <==> ComesBack(t, check)
  {
    hide RawV, ReadV, BigEndian;
    var sig := t.vrs.value;
    if !IsZeroSignature(sig.r, sig.s) {
      RecoveryIsBit(ToWire(t).v);
      RawVNone(sig);
      if sig.v <= 1 && t.chainId.Some? {
        RawVExact(sig, t.chainId.value);
        ReadVOnly(RawV(sig, t.chainId), t.chainId.value, sig.v);
      }
    }
  }

  lemma RawVNone(sig: SignatureStruct)
    ensures sig.v <= 1 ==> ReadV(RawV(sig, None)) == Ok((None, sig.v))
  {
  }

  lemma RecoveryIsBit(v: u256)
    ensures ReadV(v).Ok? ==> ReadV(v).value.1 <= 1
  {
  }

  lemma ReadVOnly(v: u256, c: uint64, recovery: byte)
    requires recovery <= 1
    ensures ReadV(v) == Ok((Some(c), recovery)) <==> c >= 1 && v == recovery + c * 2 + 35
  {
  }

  /** Which fields make a transaction, and which one. Beside a signature of two zeros `v` is the
      chain id alone; otherwise it is 27 or 28, or the chain id doubled, 35 and the recovery id. */
  lemma AcceptedFields(w: Wire)
    ensures FromWire(w, NoCheck).Ok? <==>
              && (|w.to| == 0 || |w.to| == 20)
              && ((w.r == 0 && w.s == 0) || w.v == 27 || w.v == 28 || 37 <= w.v < 0x2_0000_0000_0000_0000 + 35)
    ensures FromWire(w, NoCheck).Ok? ==>
              var t := FromWire(w, NoCheck).value;
              && t.nonce == w.nonce && t.gasPrice == w.gasPrice && t.gas == w.gas && t.value == w.value
              && t.data == w.data && t.vrs.Some? && t.vrs.value.r == w.r && t.vrs.value.s == w.s
              && (if w.to == [] then t.kind == ContractCreation else t.kind == MessageCall && t.receiveAddress == w.to)
              && var c, v := t.chainId, t.vrs.value.v;
                 if w.r == 0 && w.s == 0 then c == Some(w.v % 0x1_0000_0000_0000_0000) && v == 0
                 else v <= 1 && w.v == v + (if c.Some? then c.value * 2 + 35 else 27) && c != Some(0)
    ensures FromWire(w, Cheap) ==
              if FromWire(w, NoCheck).Ok? && (w.r != 0 || w.s != 0) && !IsValid(FromWire(w, NoCheck).value.vrs.value)
              then Throws(InvalidSignature) else FromWire(w, NoCheck)
  {
  }

  /** The largest `v` that is written as it was read. */
  function VLimit(w: Wire): int
  {
    if w.r == 0 && w.s == 0 then 0x1_0000_0000 else 0x8000_0000
  }

  /** What was accepted is written back as it was exactly when its `v` is within the limit. */
  lemma WireRoundTrip(w: Wire, check: CheckTransaction)
    requires FromWire(w, check).Ok?
    ensures Signed(FromWire(w, check).value)
    ensures ToWire(FromWire(w, check).value) == w <==> w.v < VLimit(w)
  {
    var t := FromWire(w, check).value;
    if IsZeroSignature(w.r, w.s) {
      assert w.v % SIZE_LIMIT % UNSIGNED_LIMIT < UNSIGNED_LIMIT;
    } else if w.v > 36 {
      RawVExact(t.vrs.value, t.chainId.value);
    }
  }

  /** The chain id hashed for signing is the transaction's own exactly below 2^32. */
  lemma PreimageHasChain(t: Tx)
    requires t.chainId.Some?
    ensures Preimage(t, true) == List(AsData(OwnStrings(t) + [BigEndian(t.chainId.value), [], []]))
        <==> t.chainId.value < 0x1_0000_0000
  {
    hide BigEndian;
    var c := t.chainId.value;
    var a := OwnStrings(t) + [BigEndian(c % UNSIGNED_LIMIT), [], []];
    var b := OwnStrings(t) + [BigEndian(c), [], []];
    assert AsData(a)[6] == Data(BigEndian(c % UNSIGNED_LIMIT)) && AsData(b)[6] == Data(BigEndian(c));
    BigEndianRoundTrip(c);
    BigEndianRoundTrip(c % UNSIGNED_LIMIT);
  }

  // ---- reading one field ----

  /** `isInt`, of a view that is a whole item. */
  function IsInt(d: Bytes): Result<bool>
  {
    if d == [] then Ok(false) else
    var _ :- RequireGood(d);
    var n := d[0];
    if n < DATA_IMM_LEN_START then Ok(n != 0)
    else if n == DATA_IMM_LEN_START then Ok(true)
    else if n <= DATA_IND_LEN_ZERO then
      if |d| <= 1 then Throws(BadRLP) else Ok(d[1] != 0)
    else if n < LIST_START then
      var at := 1 + n - DATA_IND_LEN_ZERO;
      if |d| <= at then Throws(BadRLP) else Ok(d[at] != 0)
    else Ok(false)
  }

  /** `toInt<u256>`. */
  function ToInt(d: Bytes): Result<nat>
  {
    var _ :- RequireGood(d);
    var isInt :- IsInt(d);
    if !isInt || IsList(d) then Throws(BadCast) else
    var p :- Payload(d);
    if |p| > 32 then Throws(BadCast) else Ok(FromBigEndian(p))
  }

  /** `toHash<Address>` with `VeryStrict`. */
  function ToAddress(d: Bytes): (r: Result<Bytes>)
    ensures r.Ok? ==> |r.value| == 20
  {
    var _ :- RequireGood(d);
    var p :- Payload(d);
    if !IsData(d) || |p| != 20 then Throws(BadCast) else Ok(p)
  }

  /** The bytes of one whole item. */
  predicate Whole(d: Bytes) { d != [] && VeryStrict(d) == Ok(d) && Payload(d).Ok? }

  lemma StringShape(d: Bytes)
    requires Whole(d)
    ensures IsData(d) == !IsList(d) && RequireGood(d).Ok?
    ensures IsData(d) ==> d == Encode(Data(Payload(d).value))
    ensures IsData(d) ==> var p := Payload(d).value; IsInt(d) == Ok(p == [] || p[0] != 0)
  {
    ViewShape(d);
  }

  lemma WholeString(b: Bytes)
    requires |b| < PAYLOAD_LIMIT
    ensures var d := Encode(Data(b)); Whole(d) && IsData(d) && Payload(d) == Ok(b)
  {
    FrontItem(Data(b), []);
    assert Encode(Data(b)) + [] == Encode(Data(b));
  }

  lemma U256Bytes(n: nat)
    ensures |BigEndian(n)| <= 32 <==> n < U256_LIMIT
  {
    BigEndianLength(n, 32);
    Widths();
  }

  /** An integer field is accepted exactly in the form the writer gives it. */
  lemma IntReads(d: Bytes, n: nat)
    requires Whole(d)
    ensures ToInt(d) == Ok(n) <==> n < U256_LIMIT && d == Encode(Data(BigEndian(n)))
  {
    hide IsInt, Payload, Encode, BigEndian, FromBigEndian, VeryStrict, RequireGood;
    StringShape(d);
    U256Bytes(n);
    if ToInt(d) == Ok(n) {
      BigEndianCanonical(Payload(d).value);
    }
    if n < U256_LIMIT && d == Encode(Data(BigEndian(n))) {
      WholeString(BigEndian(n));
      BigEndianRoundTrip(n);
    }
  }

  /** Anything else in its place is a bad cast. */
  lemma IntThrows(d: Bytes)
    requires Whole(d)
    ensures ToInt(d).Throws? ==> ToInt(d) == Throws(BadCast)
  {
    StringShape(d);
  }

  // ---- reading nine fields ----

  /** What `operator[]` finds is one whole item, or nothing. */
  lemma NthWhole(payload: Bytes, i: nat)
    requires Nth(payload, i).Ok? && Nth(payload, i).value != []
    ensures Whole(Nth(payload, i).value)
  {
    FrontAlone(Skip(payload, i).value);
  }

  /** The bytes whose items are all known are the encodings of those items. */
  lemma {:induction false} SplitJoins(payload: Bytes, items: seq<Item>)
    requires Split(payload).Ok? && |Split(payload).value| == |items|
    requires forall i | 0 <= i < |items| :: Split(payload).value[i] == Encode(items[i])
    ensures payload == EncodeAll(items)
  {
    hide SizeAsEncoded, Encode;
    if payload != [] {
      var size := SizeAsEncoded(payload).value;
      var chunks := Split(payload).value;
      assert chunks == [payload[..size]] + Split(payload[size..]).value;
      forall i | 0 <= i < |items| - 1
        ensures Split(payload[size..]).value[i] == Encode(items[1..][i])
      {
        assert chunks[i + 1] == Split(payload[size..]).value[i];
      }
      SplitJoins(payload[size..], items[1..]);
      assert payload == payload[..size] + payload[size..];
    }
  }

  ghost predicate HasField(payload: Bytes, i: nat, b: Bytes)
  {
    Nth(payload, i) == Ok(Encode(Data(b)))
  }

  ghost predicate HasFields(payload: Bytes, strings: seq<Bytes>)
  {
    forall i | 0 <= i < |strings| :: HasField(payload, i, strings[i])
  }

  /** No more than these fields, so the list is nothing but them. */
  lemma FieldsAreAll(d: Bytes, strings: seq<Bytes>)
    requires Whole(d) && IsList(d) && strings != [] && HasFields(Payload(d).value, strings)
    requires Split(Payload(d).value).Ok? && |Split(Payload(d).value).value| <= |strings|
    ensures d == Encode(List(AsData(strings)))
  {
    hide Payload, VeryStrict, Split, EncodeAll, Nth, Header;
    var payload := Payload(d).value;
    var chunks := Split(payload).value;
    forall i | 0 <= i < |strings|
      ensures i < |chunks| && chunks[i] == Encode(Data(strings[i]))
    {
      NthOfSplit(payload, i);
      assert HasField(payload, i, strings[i]);
    }
    assert HasField(payload, |strings| - 1, strings[|strings| - 1]);
    NthOfSplit(payload, |strings| - 1);
    assert |chunks| == |strings|;
    SplitJoins(payload, AsData(strings));
    ViewShape(d);
  }

  /** A list of strings has them as its fields and no others. */
  lemma FieldsOfList(strings: seq<Bytes>)
    requires Encodable(List(AsData(strings)))
    ensures var d := Encode(List(AsData(strings)));
            && Whole(d) && IsList(d) && HasFields(Payload(d).value, strings)
            && Split(Payload(d).value).Ok? && |Split(Payload(d).value).value| == |strings|
  {
    hide EncodeAll, Split, Nth, Header;
    var items := AsData(strings);
    var d := Encode(List(items));
    FrontItem(List(items), []);
    assert d + [] == d;
    SplitEncodings(items);
    forall i | 0 <= i < |strings|
      ensures HasField(Payload(d).value, i, strings[i])
    {
      NthOfEncoding(items, i);
    }
  }

  lemma StringsShort(strings: seq<Bytes>)
    requires Encodable(List(AsData(strings)))
    ensures forall i | 0 <= i < |strings| :: |strings[i]| < PAYLOAD_LIMIT
  {
    forall i | 0 <= i < |strings|
      ensures |strings[i]| < PAYLOAD_LIMIT
    {
      assert Encodable(AsData(strings)[i]);
    }
  }

  /** `rlp[i].toInt<u256>()`; an integer known to be there is the one read. */
  method IntAt(rlp: View, i: nat, ghost known: Option<u256>) returns (r: Result<u256>)
    requires rlp.Clean() && Payload(rlp.data).Ok? && i < 9
    requires known.Some? ==> HasField(Payload(rlp.data).value, i, BigEndian(known.value))
    modifies rlp
    ensures r.Ok? ==> rlp.Clean() && HasField(Payload(rlp.data).value, i, BigEndian(r.value))
    ensures known.Some? ==> r == Ok(known.value)
  {
    hide Payload, Nth, Encode, BigEndian, ToInt, Whole;
    var d :- rlp.At(i);
    if d == [] {
      return Throws(BadRLP);
    }
    NthWhole(Payload(rlp.data).value, i);
    if known.Some? {
      IntReads(d, known.value);
    }
    var n :- ToInt(d);
    IntReads(d, n);
    r := Ok(n);
  }

  /** `rlp[i]` as a string. */
  method StringAt(rlp: View, i: nat, ghost known: Option<Bytes>) returns (r: Result<Bytes>)
    requires rlp.Clean() && Payload(rlp.data).Ok? && i < 9
    requires known.Some? ==> |known.value| < PAYLOAD_LIMIT && HasField(Payload(rlp.data).value, i, known.value)
    modifies rlp
    ensures r.Ok? ==> rlp.Clean() && HasField(Payload(rlp.data).value, i, r.value)
    ensures known.Some? ==> r == Ok(known.value)
  {
    hide Payload, Nth, Encode, Whole;
    var d :- rlp.At(i);
    if known.Some? {
      WholeString(known.value);
    }
    if !IsData(d) {
      return Throws(InvalidTransactionFormat);
    }
    NthWhole(Payload(rlp.data).value, i);
    StringShape(d);
    r := Ok(Payload(d).value);
  }

  lemma EmptyField(d: Bytes)
    requires Whole(d) && IsData(d)
    ensures IsEmpty(d) <==> Payload(d) == Ok([])
  {
    StringShape(d);
    WholeString([]);
    assert Encode(Data([])) == [DATA_IMM_LEN_START];
  }

  /** A wire's fields one by one. */
  ghost predicate KnownAt(payload: Bytes, w: Wire)
  {
    && HasField(payload, 0, BigEndian(w.nonce)) && HasField(payload, 1, BigEndian(w.gasPrice))
    && HasField(payload, 2, BigEndian(w.gas)) && HasField(payload, 3, w.to)
    && HasField(payload, 4, BigEndian(w.value)) && HasField(payload, 5, w.data)
    && HasField(payload, 6, BigEndian(w.v)) && HasField(payload, 7, BigEndian(w.r))
    && HasField(payload, 8, BigEndian(w.s))
  }

  lemma KnownFields(payload: Bytes, known: Option<Wire>)
    requires known.Some? ==> HasFields(payload, WireStrings(known.value))
    ensures known.Some? ==> KnownAt(payload, known.value)
  {
    hide HasField, BigEndian;
    if known.Some? {
      var strings := WireStrings(known.value);
      assert HasField(payload, 0, strings[0]) && HasField(payload, 1, strings[1]) && HasField(payload, 2, strings[2]);
      assert HasField(payload, 3, strings[3]) && HasField(payload, 4, strings[4]) && HasField(payload, 5, strings[5]);
      assert HasField(payload, 6, strings[6]) && HasField(payload, 7, strings[7]) && HasField(payload, 8, strings[8]);
    }
  }

  lemma NineFields(payload: Bytes, w: Wire)
    requires KnownAt(payload, w)
    ensures HasFields(payload, WireStrings(w))
  {
    hide HasField, BigEndian;
  }

  predicate ShortStrings(w: Wire) { |w.to| < PAYLOAD_LIMIT && |w.data| < PAYLOAD_LIMIT }

  /** Bytes that are a wire have its nine fields. */
  lemma WireHasFields(d: Bytes, w: Wire)
    requires d == Encode(WireItem(w)) && Encodable(WireItem(w))
    ensures Whole(d) && IsList(d) && HasFields(Payload(d).value, WireStrings(w)) && ShortStrings(w)
    ensures Split(Payload(d).value).Ok? && |Split(Payload(d).value).value| == 9
  {
    hide Encode, Encodable, Payload, Split, Whole, HasFields;
    FieldsOfList(WireStrings(w));
    StringsShort(WireStrings(w));
    assert WireStrings(w)[3] == w.to && WireStrings(w)[5] == w.data;
  }

  /** No bytes are two wires. */
  lemma WireInjective(w: Wire, w': Wire)
    requires Encodable(WireItem(w)) && Encodable(WireItem(w')) && Encode(WireItem(w)) == Encode(WireItem(w'))
    ensures w == w'
  {
    hide Encode, Encodable, BigEndian;
    EncodingsPrefixFree(WireItem(w), WireItem(w'));
    var a, b := WireStrings(w), WireStrings(w');
    forall i | 0 <= i < 9
      ensures a[i] == b[i]
    {
      assert AsData(a)[i] == Data(a[i]) && AsData(b)[i] == Data(b[i]);
    }
    forall n: nat
      ensures FromBigEndian(BigEndian(n)) == n
    {
      BigEndianRoundTrip(n);
    }
    assert a[0] == BigEndian(w.nonce) && a[1] == BigEndian(w.gasPrice) && a[2] == BigEndian(w.gas);
    assert a[4] == BigEndian(w.value) && a[6] == BigEndian(w.v) && a[7] == BigEndian(w.r) && a[8] == BigEndian(w.s);
    assert b[0] == BigEndian(w'.nonce) && b[1] == BigEndian(w'.gasPrice) && b[2] == BigEndian(w'.gas);
    assert b[4] == BigEndian(w'.value) && b[6] == BigEndian(w'.v) && b[7] == BigEndian(w'.r) && b[8] == BigEndian(w'.s);
    assert a[3] == w.to && a[5] == w.data && b[3] == w'.to && b[5] == w'.data;
  }

  lemma WholeList(d: Bytes)
    requires VeryStrict(d).Ok? && IsList(VeryStrict(d).value) && Payload(VeryStrict(d).value).Ok?
    ensures Whole(d) && VeryStrict(d).value == d
  {
  }

  /** The stream stands behind the first `i` of these items. */
  ghost predicate Behind(s: RlpStream, open: State, items: seq<Item>, i: nat)
    reads s
  {
    && s.Valid() && WellFormed(open) && i <= |items| && (forall j | 0 <= j < |items| :: Encodable(items[j]))
    && ItemsOn(open, items[..i]) == Ok(s.View())
  }

  /** One more item: behind it, or thrown out of the whole. */
  ghost predicate Streamed(s: RlpStream, r: Result<()>, open: State, items: seq<Item>, i: nat)
    reads s
    requires WellFormed(open)
  {
    if r.Ok? then Behind(s, open, items, i) else ItemsOn(open, items) == Throws(r.error)
  }

  /** `_s << n` for a number. */
  method PutInt(s: RlpStream, n: nat, ghost open: State, ghost items: seq<Item>, ghost i: nat) returns (r: Result<()>)
    requires Behind(s, open, items, i) && i < |items| && items[i] == Data(BigEndian(n))
    modifies s
    ensures Streamed(s, r, open, items, i + 1)
  {
    hide Encode, BigEndian, Note, Encodable, AfterAll, CallsAll;
    NextItem(open, items, i);
    SmallString(items[i]);
    r := s.AppendInt(n);
  }

  /** `_s << b` for a string. */
  method PutString(s: RlpStream, b: Bytes, ghost open: State, ghost items: seq<Item>, ghost i: nat)
    returns (r: Result<()>)
    requires Behind(s, open, items, i) && i < |items| && items[i] == Data(b)
    modifies s
    ensures Streamed(s, r, open, items, i + 1)
  {
    hide Encode, Note, Encodable, AfterAll, CallsAll;
    NextItem(open, items, i);
    SmallString(items[i]);
    r := s.AppendData(b, false);
  }

  /** Behind the announcement of a list, nothing is streamed yet. */
  lemma OpenFields(st: State, items: seq<Item>)
    requires WellFormed(st) && items != [] && Encodable(List(items))
    ensures After(st, AppendList(|items|)).Ok? && forall j | 0 <= j < |items| :: Encodable(items[j])
    ensures var open := After(st, AppendList(|items|)).value;
            && ItemsOn(open, items[..0]) == Ok(open)
            && ItemsOn(open, items) == AppendItem(st, Encode(List(items)))
  {
    hide Encode, AppendItem, ItemsOn, Note;
    ListOn(st, items);
    EncodableParts(items);
    assert items[..0] == [];
    NothingOn(After(st, AppendList(|items|)).value);
  }

  lemma BehindStart(s: RlpStream, open: State, items: seq<Item>)
    requires s.Valid() && s.View() == open && ItemsOn(open, items[..0]) == Ok(open)
    requires forall j | 0 <= j < |items| :: Encodable(items[j])
    ensures Behind(s, open, items, 0)
  {
  }

  lemma AllBehind(s: RlpStream, open: State, items: seq<Item>)
    requires Behind(s, open, items, |items|)
    ensures ItemsOn(open, items) == Ok(s.View()) && s.Valid()
  {
    assert items[..|items|] == items;
  }

  lemma StringCount(t: Tx, includeSig: bool, forEip155: bool)
    requires includeSig && t.vrs.Some? && t.kind != NullTransaction ==> Signed(t)
    requires !includeSig && forEip155 ==> t.chainId.Some?
    ensures var strings := Strings(t, includeSig, forEip155);
            && |strings| == (if includeSig || forEip155 then 9 else 6)
            && AsData(strings)[..6] == AsData(OwnStrings(t))
  {
    hide BigEndian, ToWire;
  }

  lemma SmallString(item: Item)
    requires Encodable(item) && item.Data?
    ensures |item.bytes| < SIZE_LIMIT
  {
  }

  class TransactionBase {
    var kind: Type
    var nonce: u256
    var value: u256
    var receiveAddress: Address
    var gasPrice: u256
    var gas: u256
    var data: Bytes
    var vrs: Option<SignatureStruct>
    var chainId: Option<uint64>

    function Fields(): Tx
      reads this
    {
      Tx(kind, nonce, value, receiveAddress, gasPrice, gas, data, vrs, chainId)
    }

    constructor ()
      ensures kind == NullTransaction && vrs == None && chainId == None
    {
      kind, nonce, value, receiveAddress := NullTransaction, 0, 0, ZERO_ADDRESS;
      gasPrice, gas, data, vrs, chainId := 0, 0, [], None, None;
    }

    /** The constructor from RLP: the fields it leaves, and the wire they were read from. */
    method Load(rlpData: Bytes, check: CheckTransaction) returns (r: Result<()>, ghost w: Wire)
      requires vrs == None && chainId == None
      modifies this
      ensures r.Ok? ==> rlpData == Encode(WireItem(w)) && FromWire(w, check) == Ok(Fields())
      ensures forall w': Wire | rlpData == Encode(WireItem(w')) && Encodable(WireItem(w')) ::
                match FromWire(w', check)
                case Ok(t) => r == Ok(()) && Fields() == t
                case Throws(e) => r == Throws(e)
    {
      hide Payload, VeryStrict, Nth, Encode, Encodable, Split, WireStrings, BigEndian, FromWire, Whole;
      ghost var known: Option<Wire> := None;
      if w' :| rlpData == Encode(WireItem(w')) && Encodable(WireItem(w')) {
        known := Some(w');
        WireHasFields(rlpData, w');
      }
      forall w' | known.Some? && rlpData == Encode(WireItem(w')) && Encodable(WireItem(w'))
        ensures known == Some(w')
      {
        WireInjective(w', known.value);
      }
      r, w := LoadKnown(rlpData, check, known);
    }

    method LoadKnown(rlpData: Bytes, check: CheckTransaction, ghost known: Option<Wire>)
      returns (r: Result<()>, ghost w: Wire)
      requires vrs == None && chainId == None
      requires known.Some? ==>
                 && Whole(rlpData) && IsList(rlpData)
                 && HasFields(Payload(rlpData).value, WireStrings(known.value)) && ShortStrings(known.value)
                 && Split(Payload(rlpData).value).Ok? && |Split(Payload(rlpData).value).value| == 9
      modifies this
      ensures r.Ok? ==> rlpData == Encode(WireItem(w)) && FromWire(w, check) == Ok(Fields())
      ensures known.Some? ==>
                match FromWire(known.value, check)
                case Ok(t) => r == Ok(()) && Fields() == t
                case Throws(e) => r == Throws(e)
    {
      hide Payload, VeryStrict, Nth, Encode, Encodable, Split, WireStrings, BigEndian;
      w := Wire(0, 0, 0, [], 0, [], 0, 0, 0);
      var rlp :- VeryStrict(rlpData);
      if !IsList(rlp) {
        return Throws(InvalidTransactionFormat), w;
      }
      if Payload(rlp).Throws? {
        return Throws(Payload(rlp).error), w;
      }
      WholeList(rlpData);
      var v, rr, ss;
      r, v, rr, ss, w := ReadFields(rlp, known);
      if r.Throws? {
        return;
      }
      r := ReadSignature(v, rr, ss, check);
      if r.Throws? {
        return;
      }
      var count :- Items(rlp);
      if count > 9 {
        return Throws(InvalidTransactionFormat), w;
      }
      FieldsAreAll(rlp, WireStrings(w));
      r := Ok(());
    }

    /** The nine fields in order. */
    method ReadFields(rlp: Bytes, ghost known: Option<Wire>)
      returns (ok: Result<()>, v: u256, r: u256, s: u256, ghost w: Wire)
      requires Payload(rlp).Ok?
      requires known.Some? ==> HasFields(Payload(rlp).value, WireStrings(known.value)) && ShortStrings(known.value)
      modifies this
      ensures vrs == old(vrs) && chainId == old(chainId)
      ensures ok.Ok? ==>
                && HasFields(Payload(rlp).value, WireStrings(w)) && Holds(w)
                && w.v == v && w.r == r && w.s == s
      ensures known.Some? ==>
                if known.value.to != [] && |known.value.to| != 20 then ok == Throws(BadCast)
                else ok == Ok(()) && w == known.value
    {
      hide Payload, Encode, BigEndian, HasField, HasFields, WireStrings, ShortStrings, Nth, Skip;
      v, r, s := 0, 0, 0;
      w := Wire(0, 0, 0, [], 0, [], 0, 0, 0);
      KnownFields(Payload(rlp).value, known);
      var view := new View(rlp);
      var _ :- ReadPrices(view, known);
      var _ :- ReadBody(view, known);
      var vrs :- ReadVrs(view, known);
      v, r, s := vrs.0, vrs.1, vrs.2;
      w := Wire(nonce, gasPrice, gas, if kind == ContractCreation then [] else receiveAddress, value, data, v, r, s);
      NineFields(Payload(rlp).value, w);
      ok := Ok(());
    }

    /** `rlp[0]` to `rlp[2]`. */
    method ReadPrices(view: View, ghost known: Option<Wire>) returns (ok: Result<()>)
      requires view.Clean() && Payload(view.data).Ok?
      requires known.Some? ==> KnownAt(Payload(view.data).value, known.value)
      modifies this`nonce, this`gasPrice, this`gas, view
      ensures ok.Ok? ==>
                && view.Clean() && HasField(Payload(view.data).value, 0, BigEndian(nonce))
                && HasField(Payload(view.data).value, 1, BigEndian(gasPrice))
                && HasField(Payload(view.data).value, 2, BigEndian(gas))
      ensures known.Some? ==>
                ok == Ok(()) && nonce == known.value.nonce && gasPrice == known.value.gasPrice && gas == known.value.gas
    {
      hide Payload, Encode, BigEndian, HasField, Nth, Skip;
      nonce :- IntAt(view, 0, if known.Some? then Some(known.value.nonce) else None);
      gasPrice :- IntAt(view, 1, if known.Some? then Some(known.value.gasPrice) else None);
      gas :- IntAt(view, 2, if known.Some? then Some(known.value.gas) else None);
      ok := Ok(());
    }

    /** `rlp[3]` to `rlp[5]`. */
    method ReadBody(view: View, ghost known: Option<Wire>) returns (ok: Result<()>)
      requires view.Clean() && Payload(view.data).Ok?
      requires known.Some? ==> KnownAt(Payload(view.data).value, known.value) && ShortStrings(known.value)
      modifies this`kind, this`receiveAddress, this`value, this`data, view
      ensures ok.Ok? ==>
                && view.Clean() && kind != NullTransaction
                && (kind == ContractCreation ==> receiveAddress == ZERO_ADDRESS)
                && HasField(Payload(view.data).value, 3, if kind == ContractCreation then [] else receiveAddress)
                && HasField(Payload(view.data).value, 4, BigEndian(value))
                && HasField(Payload(view.data).value, 5, data)
      ensures known.Some? ==>
                var w := known.value;
                if w.to != [] && |w.to| != 20 then ok == Throws(BadCast)
                else
                  && ok == Ok(()) && value == w.value && data == w.data
                  && (if w.to == [] then kind == ContractCreation else kind == MessageCall && receiveAddress == w.to)
    {
      hide Payload, Encode, BigEndian, HasField, Nth, Skip;
      var _ :- ReadRecipient(view, if known.Some? then Some(known.value.to) else None);
      value :- IntAt(view, 4, if known.Some? then Some(known.value.value) else None);
      data :- StringAt(view, 5, if known.Some? then Some(known.value.data) else None);
      ok := Ok(());
    }

    /** `rlp[6]` to `rlp[8]`. */
    method ReadVrs(view: View, ghost known: Option<Wire>) returns (vrs: Result<(u256, u256, u256)>)
      requires view.Clean() && Payload(view.data).Ok?
      requires known.Some? ==> KnownAt(Payload(view.data).value, known.value)
      modifies view
      ensures vrs.Ok? ==>
                && HasField(Payload(view.data).value, 6, BigEndian(vrs.value.0))
                && HasField(Payload(view.data).value, 7, BigEndian(vrs.value.1))
                && HasField(Payload(view.data).value, 8, BigEndian(vrs.value.2))
      ensures known.Some? ==> vrs == Ok((known.value.v, known.value.r, known.value.s))
    {
      hide Payload, Encode, BigEndian, HasField, Nth, Skip;
      var v :- IntAt(view, 6, if known.Some? then Some(known.value.v) else None);
      var r :- IntAt(view, 7, if known.Some? then Some(known.value.r) else None);
      var s :- IntAt(view, 8, if known.Some? then Some(known.value.s) else None);
      vrs := Ok((v, r, s));
    }

    /** The object has the fields of the wire, but for the signature. */
    ghost predicate Holds(w: Wire)
      reads this
    {
      && nonce == w.nonce && gasPrice == w.gasPrice && gas == w.gas && value == w.value && data == w.data
      && kind == (if w.to == [] then ContractCreation else MessageCall)
      && receiveAddress == (if w.to == [] then ZERO_ADDRESS else w.to)
    }

    /** `rlp[3]`: nothing for a new contract, an address of 20 bytes otherwise. */
    method ReadRecipient(rlp: View, ghost known: Option<Bytes>) returns (ok: Result<()>)
      requires rlp.Clean() && Payload(rlp.data).Ok?
      requires known.Some? ==> |known.value| < PAYLOAD_LIMIT && HasField(Payload(rlp.data).value, 3, known.value)
      modifies this`kind, this`receiveAddress, rlp
      ensures ok.Ok? ==>
                && rlp.Clean() && kind != NullTransaction
                && HasField(Payload(rlp.data).value, 3, if kind == ContractCreation then [] else receiveAddress)
                && (kind == ContractCreation ==> receiveAddress == ZERO_ADDRESS)
      ensures known.Some? ==>
                if known.value == [] then ok == Ok(()) && kind == ContractCreation
                else if |known.value| == 20 then ok == Ok(()) && kind == MessageCall && receiveAddress == known.value
                else ok == Throws(BadCast)
    {
      hide Payload, Nth, Encode, Whole, IsEmpty, IsInt, IsList;
      var d :- rlp.At(3);
      if known.Some? {
        WholeString(known.value);
      }
      if !IsData(d) {
        return Throws(InvalidTransactionFormat);
      }
      NthWhole(Payload(rlp.data).value, 3);
      StringShape(d);
      EmptyField(d);
      kind := if IsEmpty(d) then ContractCreation else MessageCall;
      if IsEmpty(d) {
        receiveAddress := ZERO_ADDRESS;
      } else {
        receiveAddress :- ToAddress(d);
      }
      ok := Ok(());
    }

    /** The signature fields. */
    method ReadSignature(v: u256, r: u256, s: u256, check: CheckTransaction) returns (ok: Result<()>)
      modifies this`vrs, this`chainId
      requires chainId == None
      ensures r == 0 && s == 0 ==>
                ok == Ok(()) && chainId == Some(v % SIZE_LIMIT) && vrs == Some(SignatureStruct(r, s, 0))
      ensures r != 0 || s != 0 ==>
                match ReadV(v)
                case Ok((c, recovery)) =>
                  var sig := SignatureStruct(r, s, recovery);
                  if check == Cheap && !IsValid(sig) then ok == Throws(InvalidSignature)
                  else ok == Ok(()) && chainId == c && vrs == Some(sig)
                case Throws(e) => ok == Throws(e)
    {
      if IsZeroSignature(r, s) {
        chainId, vrs := Some(v % SIZE_LIMIT), Some(SignatureStruct(r, s, 0));
        return Ok(());
      }
      if v > 36 {
        var c := (v - 35) / 2;
        if c >= SIZE_LIMIT {
          return Throws(InvalidSignature);
        }
        chainId := Some(c);
      } else if v != 27 && v != 28 {
        return Throws(InvalidSignature);
      }
      var recoveryId := if chainId.Some? then v - (chainId.value * 2 + 35) else v - 27;
      vrs := Some(SignatureStruct(r, s, recoveryId));
      if check == Cheap && !IsValid(vrs.value) {
        return Throws(InvalidSignature);
      }
      ok := Ok(());
    }

    /** `rawV`. */
    function SignatureV(): u256
      requires vrs.Some?
      reads this
    {
      RawV(vrs.value, chainId)
    }

    /** `streamRLP`. */
    method StreamRlp(s: RlpStream, includeSig: bool, forEip155hash: bool) returns (r: Result<()>)
      requires s.Valid()
      requires includeSig && vrs.Some? && kind != NullTransaction ==> Signed(Fields())
      requires !includeSig && forEip155hash ==> chainId.Some?
      requires Encodable(List(AsData(Strings(Fields(), includeSig, forEip155hash))))
      modifies s
      ensures kind == NullTransaction ==> r == Ok(()) && s.View() == old(s.View())
      ensures kind != NullTransaction && includeSig && vrs == None ==> r.Throws?
      ensures kind != NullTransaction && (includeSig ==> vrs.Some?) ==>
                var item := List(AsData(Strings(Fields(), includeSig, forEip155hash)));
                Outcome(r, AppendItem(old(s.View()), Encode(item)), s.View())
      ensures r.Ok? ==> s.Valid()
    {
      hide Encode, Encodable, BigEndian, AppendItem, AfterAll, CallsAll, Strings, Behind;
      if kind == NullTransaction {
        return Ok(());
      }
      ghost var items := AsData(Strings(Fields(), includeSig, forEip155hash));
      StringCount(Fields(), includeSig, forEip155hash);
      OpenFields(s.View(), items);
      var _ := s.AppendList((if includeSig || forEip155hash then 3 else 0) + 6);
      ghost var open := s.View();
      BehindStart(s, open, items);
      var _ :- StreamOwn(s, open, items);
      if includeSig {
        if vrs == None {
          return Throws(TransactionIsUnsigned);
        }
        var _ :- StreamSignature(s, open, items, forEip155hash);
      } else if forEip155hash {
        var _ :- StreamChain(s, open, items);
      }
      AllBehind(s, open, items);
      r := Ok(());
    }

    /** The six fields of the transaction proper. */
    method StreamOwn(s: RlpStream, ghost open: State, ghost items: seq<Item>) returns (r: Result<()>)
      requires Behind(s, open, items, 0) && |items| >= 6 && items[..6] == AsData(OwnStrings(Fields()))
      modifies s
      ensures Streamed(s, r, open, items, 6)
    {
      hide Behind, BigEndian;
      ghost var own := OwnStrings(Fields());
      assert forall i | 0 <= i < 6 :: items[i] == items[..6][i] == Data(own[i]);
      var _ :- PutInt(s, nonce, open, items, 0);
      var _ :- PutInt(s, gasPrice, open, items, 1);
      var _ :- PutInt(s, gas, open, items, 2);
      var _ :- PutString(s, if kind == MessageCall then receiveAddress else [], open, items, 3);
      var _ :- PutInt(s, value, open, items, 4);
      r := PutString(s, data, open, items, 5);
    }

    /** `v`, or the chain id alone for a zero signature, then r and s. */
    method StreamSignature(s: RlpStream, ghost open: State, ghost items: seq<Item>, ghost forEip155hash: bool)
      returns (r: Result<()>)
      requires vrs.Some? && kind != NullTransaction && Signed(Fields())
      requires items == AsData(Strings(Fields(), true, forEip155hash)) && Behind(s, open, items, 6)
      modifies s
      ensures Streamed(s, r, open, items, 9)
    {
      hide Behind, BigEndian, RawV;
      if IsZeroSignature(vrs.value.r, vrs.value.s) {
        var _ :- PutInt(s, chainId.value % UNSIGNED_LIMIT, open, items, 6);
      } else {
        var _ :- PutInt(s, SignatureV(), open, items, 6);
      }
      var _ :- PutInt(s, vrs.value.r, open, items, 7);
      r := PutInt(s, vrs.value.s, open, items, 8);
    }

    /** The chain id and two zeros, for the hash of EIP-155. */
    method StreamChain(s: RlpStream, ghost open: State, ghost items: seq<Item>) returns (r: Result<()>)
      requires chainId.Some? && items == AsData(Strings(Fields(), false, true)) && Behind(s, open, items, 6)
      modifies s
      ensures Streamed(s, r, open, items, 9)
    {
      hide Behind;
      assert BigEndian(0) == [];
      var _ :- PutInt(s, chainId.value % UNSIGNED_LIMIT, open, items, 6);
      var _ :- PutInt(s, 0, open, items, 7);
      r := PutInt(s, 0, open, items, 8);
    }
  }

  // ---- whole transactions ----

  /** Transaction data short enough that the whole stays readable. */
  const DATA_LIMIT: nat := PAYLOAD_LIMIT - 500

  lemma DataWidth(data: Bytes)
    ensures |data| < DATA_LIMIT <==> |data| < 0xffff_ffff_ffff_fd0b
  {
  }

  lemma {:induction false} StringsSize(strings: seq<Bytes>, bound: nat)
    requires forall i | 0 <= i < |strings| :: |strings[i]| < PAYLOAD_LIMIT
    requires SumLengths(strings) + 9 * |strings| <= bound
    ensures |EncodeAll(AsData(strings))| <= bound
    decreases |strings|
  {
    hide Encode;
    if strings != [] {
      var rest := strings[1..];
      assert AsData(strings)[1..] == AsData(rest);
      StringsSize(rest, bound - 9 - |strings[0]|);
      EncodeLength(Data(strings[0]));
    }
  }

  function SumLengths(strings: seq<Bytes>): nat
  {
    if strings == [] then 0 else |strings[0]| + SumLengths(strings[1..])
  }

  lemma {:induction false} SumLengthsAdd(a: seq<Bytes>, b: seq<Bytes>)
    ensures SumLengths(a + b) == SumLengths(a) + SumLengths(b)
  {
    if a == [] {
      assert a + b == b;
    } else {
      assert (a + b)[1..] == a[1..] + b;
      SumLengthsAdd(a[1..], b);
    }
  }

  lemma {:induction false} SumLengthsBound(a: seq<Bytes>, k: nat)
    requires forall i | 0 <= i < |a| :: |a[i]| <= k
    ensures SumLengths(a) <= k * |a|
  {
    if a != [] {
      SumLengthsBound(a[1..], k);
    }
  }

  lemma WireEncodable(w: Wire)
    requires |w.data| < DATA_LIMIT && |w.to| <= 20
    ensures Encodable(WireItem(w))
  {
    hide BigEndian, Encode, EncodeAll, SumLengths;
    var strings := WireStrings(w);
    forall n: u256
      ensures |BigEndian(n)| <= 32
    {
      U256Bytes(n);
    }
    var front, back := strings[..5], strings[6..];
    assert strings == front + [w.data] + back;
    SumLengthsBound(front, 32);
    SumLengthsBound(back, 32);
    SumLengthsAdd(front + [w.data], back);
    SumLengthsAdd(front, [w.data]);
    SumOfOne(w.data);
    StringsSize(strings, PAYLOAD_LIMIT - 1);
  }

  lemma SumOfOne(b: Bytes)
    ensures SumLengths([b]) == |b|
  {
    assert SumLengths([b][1..]) == 0;
  }

  /** A signed transaction written to bytes. */
  method ToBytes(t: TransactionBase) returns (rlp: Bytes)
    requires Signed(t.Fields()) && |t.data| < DATA_LIMIT
    ensures rlp == Encode(WireItem(ToWire(t.Fields())))
  {
    hide Encode, Encodable, ToWire, Strings, WireStrings;
    SignedStrings(t.Fields());
    ghost var w := ToWire(t.Fields());
    WireOfFields(t.Fields());
    WireEncodable(w);
    var s := new RlpStream();
    assert [] + Encode(WireItem(w)) == Encode(WireItem(w));
    var _ := t.StreamRlp(s, true, true);
    var out := s.Out();
    rlp := out.value;
  }

  lemma WireOfFields(t: Tx)
    requires Signed(t)
    ensures var w := ToWire(t); w.data == t.data && |w.to| <= 20
  {
  }

  /** A signed transaction, written and read again, is accepted with every field it had, and so
      the same preimage for signing, exactly when it comes back. */
  method Resend(t: TransactionBase, check: CheckTransaction) returns (copy: TransactionBase, r: Result<()>)
    requires Signed(t.Fields()) && |t.data| < DATA_LIMIT
    ensures fresh(copy)
    ensures r == Ok(()) && copy.Fields() == t.Fields() <==> ComesBack(t.Fields(), check)
  {
    hide Encode, Encodable, ToWire, FromWire, WireStrings;
    ghost var w := ToWire(t.Fields());
    WireOfFields(t.Fields());
    WireEncodable(w);
    FieldsRoundTrip(t.Fields(), check);
    var rlp := ToBytes(t);
    copy := new TransactionBase();
    ghost var read;
    r, read := copy.Load(rlp, check);
  }

  /** Bytes accepted as a transaction, read and written again, are the same bytes exactly
      when `v` is below 2^31, or below 2^32 beside a zero signature. */
  method Rewrite(rlp: Bytes, check: CheckTransaction) returns (r: Result<Bytes>, ghost w: Wire)
    requires |rlp| < DATA_LIMIT
    ensures r.Ok? ==> rlp == Encode(WireItem(w)) && (r.value == rlp <==> w.v < VLimit(w))
    ensures forall w': Wire | rlp == Encode(WireItem(w')) && Encodable(WireItem(w')) ::
              r.Ok? <==> FromWire(w', check).Ok?
  {
    hide Encode, Encodable, ToWire, FromWire, WireStrings;
    var t := new TransactionBase();
    var read;
    read, w := t.Load(rlp, check);
    if read.Throws? {
      return Throws(read.error), w;
    }
    WireRoundTrip(w, check);
    FieldsShorter(rlp, w, check);
    var again := ToBytes(t);
    WireOfFields(t.Fields());
    WireEncodable(w);
    WireEncodable(ToWire(t.Fields()));
    if again == rlp {
      WireInjective(w, ToWire(t.Fields()));
    }
    r := Ok(again);
  }

  lemma FieldsShorter(rlp: Bytes, w: Wire, check: CheckTransaction)
    requires rlp == Encode(WireItem(w)) && FromWire(w, check).Ok?
    ensures |w.data| <= |rlp| && |w.to| <= 20 && FromWire(w, check).value.data == w.data
  {
    hide Encode;
    var items := AsData(WireStrings(w));
    assert items[5] == Data(w.data);
    LongerThanItem(items, 5);
    LongerThanParts(Data(w.data), WireItem(w));
  }

  lemma {:induction false} LongerThanItem(items: seq<Item>, i: nat)
    requires i < |items|
    ensures |EncodeAll(items)| >= |Encode(items[i])|
  {
    hide Encode;
    if i > 0 {
      LongerThanItem(items[1..], i - 1);
    }
  }

  lemma LongerThanParts(item: Item, list: Item)
    requires item.Data? && list.List?
    ensures |Encode(item)| >= |item.bytes| && |Encode(list)| >= |EncodeAll(list.items)|
  {
  }
}