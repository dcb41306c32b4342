/**
 The lazy reader of RLP.h and RLP.cpp: what a view on bytes reports about itself, and
 the tree that is read when every item is walked.
 */
module RlpReader {
  import opened Bytes
  import opened Rlp

  /** `vector_ref::cropped`: an empty view when the range does not fit. */
  function Cropped(d: Bytes, begin: nat, count: nat): Bytes
  {
    if begin + count <= |d| then d[begin..begin + count] else []
  }

  predicate IsList(d: Bytes) { d != [] && d[0] >= LIST_START }

  predicate IsData(d: Bytes) { d != [] && d[0] < LIST_START }

  predicate IsEmpty(d: Bytes) { d != [] && (d[0] == DATA_IMM_LEN_START || d[0] == LIST_START) }

  predicate IsSingleByte(d: Bytes) { d != [] && d[0] < DATA_IMM_LEN_START }

  /** `requireGood`: refuses nothing-at-all and a small byte written in two bytes. */
  function RequireGood(d: Bytes): Result<()>
  {
    if d == [] then Throws(BadRLP)
    else if d[0] != DATA_IMM_LEN_START + 1 then Ok(())
    else if |d| < 2 then Throws(BadRLP)
    else if d[1] < DATA_IMM_LEN_START then Throws(BadRLP)
    else Ok(())
  }

  function LengthSize(d: Bytes): nat
  {
    if IsData(d) && d[0] > DATA_IND_LEN_ZERO then d[0] - DATA_IND_LEN_ZERO
    else if IsList(d) && d[0] > LIST_IND_LEN_ZERO then d[0] - LIST_IND_LEN_ZERO
    else 0
  }

  function PayloadOffset(d: Bytes): nat
  {
    if IsSingleByte(d) then 0 else 1 + LengthSize(d)
  }

  /** The length written behind the first byte, in `lengthSize` bytes. */
  function LongLength(d: Bytes, lengthSize: nat): Result<nat>
    requires d != [] && lengthSize >= 1
  {
    if |d| <= lengthSize then Throws(BadRLP)
    else if d[1] == 0 then Throws(BadRLP)
    else if lengthSize > 8 then Throws(UndersizeRLP)
    else
      var length := FromBigEndian(d[1..1 + lengthSize]);
      if length < 56 then Throws(BadRLP)
      else if length >= PAYLOAD_LIMIT then Throws(UndersizeRLP)
      else Ok(length)
  }

  /** `length`: the payload length announced by the first bytes. */
  function Length(d: Bytes): Result<nat>
  {
    if d == [] then Ok(0) else
    var _ :- RequireGood(d);
    var n := d[0];
    if n < DATA_IMM_LEN_START then Ok(1)
    else if n <= DATA_IND_LEN_ZERO then Ok(n - DATA_IMM_LEN_START)
    else if n < LIST_START then LongLength(d, n - DATA_IND_LEN_ZERO)
    else if n <= LIST_IND_LEN_ZERO then Ok(n - LIST_START)
    else LongLength(d, n - LIST_IND_LEN_ZERO)
  }

  function ActualSize(d: Bytes): Result<nat>
  {
    if d == [] then Ok(0)
    else if IsSingleByte(d) then Ok(1)
    else
      var length :- Length(d);
      Ok(PayloadOffset(d) + length)
  }

  function Payload(d: Bytes): Result<Bytes>
  {
    var length :- Length(d);
    if length > |d| then Throws(BadRLP) else Ok(Cropped(d, PayloadOffset(d), length))
  }

  /** A view made with `VeryStrict`: exactly the bytes of one item, or of none. */
  function VeryStrict(d: Bytes): Result<Bytes>
  {
    var size :- ActualSize(d);
    if size < |d| then Throws(OversizeRLP)
    else if size > |d| then Throws(UndersizeRLP)
    else Ok(d)
  }

  /** `sizeAsEncoded`: the size of the item at the front of the bytes. */
  function SizeAsEncoded(d: Bytes): (r: Result<nat>)
    ensures r.Ok? ==> r.value <= |d| && (d != [] ==> r.value > 0)
  {
    var size :- ActualSize(d);
    if size > |d| then Throws(UndersizeRLP) else Ok(size)
  }

  /** The plain left-to-right split of a payload into the bytes of its items. */
  function Split(payload: Bytes): Result<seq<Bytes>>
    decreases |payload|
  {
    if payload == [] then Ok([]) else
    var size :- SizeAsEncoded(payload);
    var rest :- Split(payload[size..]);
    Ok([payload[..size]] + rest)
  }

  /** `itemCount`: nothing but a list has items. */
  function ItemCount(d: Bytes): Result<nat>
  {
    if !IsList(d) then Ok(0) else
    var payload :- Payload(d);
    var items :- Split(payload);
    Ok(|items|)
  }

  /** The tree read by walking every item; every exception of the walk comes out. */
  function Decode(d: Bytes): Result<Item>
    decreases |d|, 0
  {
    if d == [] then Throws(BadRLP) else
    var view :- VeryStrict(d);
    var payload :- Payload(view);
    if IsList(d) then
      assert |payload| < |d|;
      var items :- DecodeAll(payload);
      Ok(List(items))
    else
      Ok(Data(payload))
  }

  function DecodeAll(payload: Bytes): Result<seq<Item>>
    decreases |payload|, 1
  {
    if payload == [] then Ok([]) else
    var size :- SizeAsEncoded(payload);
    var item :- Decode(payload[..size]);
    var rest :- DecodeAll(payload[size..]);
    Ok([item] + rest)
  }

  // ---- the reader on bytes ----

  /** What the first bytes say about the item at the front, and which exceptions they raise. */
  lemma FrontBytes(d: Bytes)
    ensures d == [] ==> SizeAsEncoded(d) == Ok(0)
    ensures d != [] && d[0] < 0x80 ==> SizeAsEncoded(d) == Ok(1)
    ensures d != [] && 0x80 <= d[0] < 0xb8 ==>
              SizeAsEncoded(d) ==
              if d[0] == 0x81 && (|d| < 2 || d[1] < 0x80) then Throws(BadRLP)
              else if 1 + (d[0] - 0x80) > |d| then Throws(UndersizeRLP)
              else Ok(1 + (d[0] - 0x80))
    ensures d != [] && 0xc0 <= d[0] < 0xf8 ==>
              SizeAsEncoded(d) ==
              if 1 + (d[0] - 0xc0) > |d| then Throws(UndersizeRLP) else Ok(1 + (d[0] - 0xc0))
    ensures d != [] && (0xb8 <= d[0] < 0xc0 || 0xf8 <= d[0]) ==>
              var k := d[0] - if d[0] < 0xc0 then 0xb7 else 0xf7;
              SizeAsEncoded(d) ==
              if |d| <= k || d[1] == 0 then Throws(BadRLP)
              else
                var n := FromBigEndian(d[1..1 + k]);
                if n < 56 then Throws(BadRLP)
                else if n >= 0xffff_ffff_ffff_feff || 1 + k + n > |d| then Throws(UndersizeRLP)
                else Ok(1 + k + n)
  {
  }

  /** The payload of one whole item: all of it, behind the bytes that say its size. */
  lemma WholeBytes(d: Bytes)
    requires d != [] && VeryStrict(d) == Ok(d)
    ensures d[0] < 0x80 ==> d == [d[0]] && Payload(d) == Ok(d)
    ensures 0x80 <= d[0] < 0xb8 || 0xc0 <= d[0] < 0xf8 ==> Payload(d) == Ok(d[1..])
    ensures 0xb8 <= d[0] < 0xc0 || 0xf8 <= d[0] ==>
              var k := d[0] - if d[0] < 0xc0 then 0xb7 else 0xf7;
              1 + k <= |d| && Payload(d) == Ok(d[1 + k..])
    ensures IsList(d) <==> d[0] >= 0xc0
    ensures IsData(d) <==> d[0] < 0xc0
  {
    assert d[PayloadOffset(d)..|d|] == d[PayloadOffset(d)..] && d[0..|d|] == d;
  }

  /** A payload that cannot be had is malformed, but for a length that size_t cannot count. */
  lemma PayloadThrows(d: Bytes)
    ensures d != [] && d[0] != 0x81 && (0x80 <= d[0] < 0xb8 || 0xc0 <= d[0] < 0xf8) ==>
              (Payload(d).Throws? <==> d[0] - (if d[0] < 0xc0 then 0x80 else 0xc0) > |d|)
    ensures Payload(d).Throws? ==>
              || Payload(d) == Throws(BadRLP)
              || (&& (0xb8 <= d[0] < 0xc0 || 0xf8 <= d[0]) && Payload(d) == Throws(UndersizeRLP)
                  && var k := d[0] - if d[0] < 0xc0 then 0xb7 else 0xf7;
                     |d| > k && d[1] != 0 && FromBigEndian(d[1..1 + k]) >= 0xffff_ffff_ffff_feff)
  {
  }

  /** A whole item is empty when its payload is. */
  lemma EmptyItem(d: Bytes)
    requires d != [] && VeryStrict(d) == Ok(d)
    ensures IsEmpty(d) <==> Payload(d) == Ok([])
    ensures Decode([]) == Throws(BadRLP)
  {
    WholeBytes(d);
  }

  /** One whole item is all there is; more is too big, less too small. */
  lemma WholeOrNot(d: Bytes)
    ensures VeryStrict(d) == match ActualSize(d)
                             case Throws(e) => Throws(e)
                             case Ok(size) =>
                               if size == |d| then Ok(d)
                               else Throws(if size < |d| then OversizeRLP else UndersizeRLP)
  {
  }

  // ---- what the writer writes, the reader reads ----

  /** A long header is read back as the length it was made from. */
  lemma LongHeaderLength(start: nat, length: nat, rest: Bytes)
    requires start == DATA_IMM_LEN_START || start == LIST_START
    requires 56 <= length < PAYLOAD_LIMIT
    ensures var d := Header(start, length) + rest;
            && d[0] == start + 55 + |BigEndian(length)| <= start + 63
            && LongLength(d, |BigEndian(length)|) == Ok(length)
  {
    hide BigEndian, FromBigEndian;
    var d, be := Header(start, length) + rest, BigEndian(length);
    SizeBytes(length);
    BigEndianRoundTrip(length);
    assert d[1..1 + |be|] == be;
    assert d[1] == be[0];
  }

  /** A header is read back as the length it was made from, whatever follows it. */
  lemma HeaderLength(start: nat, length: nat, rest: Bytes)
    requires start == DATA_IMM_LEN_START || start == LIST_START
    requires length < PAYLOAD_LIMIT
    requires start == DATA_IMM_LEN_START && length == 1 ==> rest != [] && rest[0] >= DATA_IMM_LEN_START
    ensures var d := Header(start, length) + rest;
            && Length(d) == Ok(length)
            && PayloadOffset(d) == |Header(start, length)|
            && d[0] >= start && (start == DATA_IMM_LEN_START ==> d[0] < LIST_START)
  {
    if length >= 56 {
      LongHeaderLength(start, length, rest);
    } else {
      assert (Header(start, length) + rest)[0] == start + length;
    }
  }

  /** The front item of any byte string is seen whole, with its own size and payload. */
  lemma FrontItem(item: Item, rest: Bytes)
    requires Encodable(item)
    ensures var d := Encode(item) + rest;
            && ActualSize(d) == Ok(|Encode(item)|)
            && IsList(d) == item.List?
            && Payload(d) == Ok(if item.Data? then item.bytes else EncodeAll(item.items))
  {
    var d := Encode(item) + rest;
    if item.Data? && |item.bytes| == 1 && item.bytes[0] < DATA_IMM_LEN_START {
      assert d[0] == item.bytes[0];
    } else {
      FrontLongItem(item, rest);
    }
  }

  lemma FrontLongItem(item: Item, rest: Bytes)
    requires Encodable(item)
    requires item.Data? ==> |item.bytes| != 1 || item.bytes[0] >= DATA_IMM_LEN_START
    ensures var d := Encode(item) + rest;
            && ActualSize(d) == Ok(|Encode(item)|)
            && IsList(d) == item.List?
            && Payload(d) == Ok(if item.Data? then item.bytes else EncodeAll(item.items))
  {
    hide Length, LengthSize, Header, EncodeAll;
    var start := if item.Data? then DATA_IMM_LEN_START else LIST_START;
    var p := if item.Data? then item.bytes else EncodeAll(item.items);
    var h := Header(start, |p|);
    Assoc(h, p, rest);
    HeaderLength(start, |p|, p + rest);
    var d := Encode(item) + rest;
    assert d[|h|..|h| + |p|] == p;
  }

  /** Every encoding within the size_t bound is accepted and read back to its tree. */
  lemma {:induction false} DecodeEncode(item: Item)
    requires Encodable(item)
    ensures Decode(Encode(item)) == Ok(item)
    decreases item, 0
  {
    FrontItem(item, []);
    assert Encode(item) + [] == Encode(item);
    if item.List? {
      DecodeEncodeAll(item.items);
    }
  }

  lemma {:induction false} DecodeEncodeAll(items: seq<Item>)
    requires forall i | 0 <= i < |items| :: Encodable(items[i])
    ensures DecodeAll(EncodeAll(items)) == Ok(items)
    decreases items, 0
  {
    if items != [] {
      var front, rest := Encode(items[0]), EncodeAll(items[1..]);
      FrontItem(items[0], rest);
      DecodeEncode(items[0]);
      DecodeEncodeAll(items[1..]);
      assert (front + rest)[..|front|] == front;
      assert (front + rest)[|front|..] == rest;
      assert [items[0]] + items[1..] == items;
    }
  }

  // ---- what the reader accepts, the writer wrote ----

  /** A long length the reader accepts has the writer's header in front of it. */
  lemma LongLengthHeader(d: Bytes, start: nat, size: nat)
    requires start == DATA_IMM_LEN_START || start == LIST_START
    requires d != [] && 1 <= size <= 8 && d[0] == start + 55 + size
    requires LongLength(d, size).Ok?
    ensures LongLength(d, size).value < PAYLOAD_LIMIT
    ensures Header(start, LongLength(d, size).value) == d[..1 + size]
  {
    var be := d[1..1 + size];
    assert be[0] == d[1];
    BigEndianCanonical(be);
    assert d[..1 + size] == [d[0]] + be;
  }

  /** A length the reader accepts has the writer's header in front of it. */
  lemma LengthHeader(d: Bytes)
    requires d != [] && d[0] >= DATA_IMM_LEN_START
    requires Length(d).Ok?
    ensures var start := if IsList(d) then LIST_START else DATA_IMM_LEN_START;
            var h := Header(start, Length(d).value);
            Length(d).value < PAYLOAD_LIMIT && h <= d && |h| == PayloadOffset(d)
  {
    var start := if IsList(d) then LIST_START else DATA_IMM_LEN_START;
    if LengthSize(d) > 0 {
      LongLengthHeader(d, start, LengthSize(d));
    } else {
      assert d[..1] == [d[0]];
    }
  }

  /** An accepted view is the writer's header and the payload. */
  lemma ViewShape(d: Bytes)
    requires d != [] && VeryStrict(d).Ok? && Payload(d).Ok?
    ensures d[0] < DATA_IMM_LEN_START ==> d == [d[0]] == Payload(d).value
    ensures d[0] >= DATA_IMM_LEN_START ==>
              var payload := Payload(d).value;
              && |payload| < PAYLOAD_LIMIT
              && d == Header(if IsList(d) then LIST_START else DATA_IMM_LEN_START, |payload|) + payload
              && (!IsList(d) && |payload| == 1 ==> payload[0] >= DATA_IMM_LEN_START)
  {
    if d[0] >= DATA_IMM_LEN_START {
      LengthHeader(d);
      var offset := PayloadOffset(d);
      assert d == d[..offset] + d[offset..];
    }
  }

  /** A byte string whose items can all be walked is the encoding of what is read. */
  lemma {:induction false} EncodeDecode(d: Bytes)
    requires Decode(d).Ok?
    ensures Encode(Decode(d).value) == d && Encodable(Decode(d).value)
    decreases |d|, 0
  {
    ViewShape(d);
    hide Payload, VeryStrict, Header;
    if IsList(d) {
      EncodeDecodeAll(Payload(d).value);
    }
  }

  lemma {:induction false} EncodeDecodeAll(payload: Bytes)
    requires DecodeAll(payload).Ok?
    ensures var items := DecodeAll(payload).value;
            EncodeAll(items) == payload && forall i | 0 <= i < |items| :: Encodable(items[i])
    decreases |payload|, 1
  {
    hide SizeAsEncoded, Decode, Encode;
    if payload != [] {
      var size := SizeAsEncoded(payload).value;
      EncodeDecode(payload[..size]);
      EncodeDecodeAll(payload[size..]);
      var item, rest := Decode(payload[..size]).value, DecodeAll(payload[size..]).value;
      assert DecodeAll(payload).value == [item] + rest;
      assert ([item] + rest)[1..] == rest;
      assert payload == payload[..size] + payload[size..];
    }
  }

  /** A list has as many items as were written into it. */
  lemma ItemCountOf(item: Item)
    requires Encodable(item)
    ensures ItemCount(Encode(item)) == Ok(if item.List? then |item.items| else 0)
  {
    hide Encode, Split, Payload;
    FrontItem(item, []);
    assert Encode(item) + [] == Encode(item);
    if item.List? {
      SplitEncodings(item.items);
    }
  }

  /** The reader accepts exactly the writer's image. */
  lemma ReaderAcceptsWriterImage(d: Bytes, item: Item)
    ensures Decode(d) == Ok(item) <==> Encodable(item) && Encode(item) == d
  {
    if Decode(d) == Ok(item) {
      EncodeDecode(d);
    }
    if Encodable(item) && Encode(item) == d {
      DecodeEncode(item);
    }
  }

  /** No encoding is a proper prefix of another. */
  lemma EncodingsPrefixFree(a: Item, b: Item)
    requires Encodable(a) && Encodable(b)
    requires Encode(a) <= Encode(b)
    ensures a == b
  {
    var rest := Encode(b)[|Encode(a)|..];
    assert Encode(a) + rest == Encode(b) == Encode(b) + [];
    FrontItem(a, rest);
    FrontItem(b, []);
    assert Encode(a) == Encode(b);
    DecodeEncode(a);
    DecodeEncode(b);
  }

  /** The split of a list's payload is the encodings of its items, in order. */
  lemma {:induction false} SplitEncodings(items: seq<Item>)
    requires forall i | 0 <= i < |items| :: Encodable(items[i])
    ensures Split(EncodeAll(items)).Ok?
    ensures var chunks := Split(EncodeAll(items)).value;
            |chunks| == |items| && forall i | 0 <= i < |items| :: chunks[i] == Encode(items[i])
  {
    if items != [] {
      var front, rest := Encode(items[0]), EncodeAll(items[1..]);
      FrontItem(items[0], rest);
      SplitEncodings(items[1..]);
      assert (front + rest)[..|front|] == front;
      assert (front + rest)[|front|..] == rest;
      var chunks := Split(front + rest).value;
      assert chunks == [front] + Split(rest).value;
      forall i | 0 <= i < |items|
        ensures chunks[i] == Encode(items[i])
      {
        if i > 0 {
          assert chunks[i] == Split(rest).value[i - 1];
        }
      }
    }
  }
}
