/**
 RLP items and their encoding (Appendix B of the Ethereum Yellow Paper), as the
 recursive definition that the stream writer and the lazy reader are proved against.
 */
module Rlp {
  import opened Bytes

  datatype Item = Data(bytes: Bytes) | List(items: seq<Item>)

  const MAX_LENGTH_BYTES: nat := 8
  const DATA_IMM_LEN_START: nat := 0x80
  const LIST_START: nat := 0xc0
  const DATA_IMM_LEN_COUNT: nat := LIST_START - DATA_IMM_LEN_START - MAX_LENGTH_BYTES
  const DATA_IND_LEN_ZERO: nat := DATA_IMM_LEN_START + DATA_IMM_LEN_COUNT - 1
  const LIST_IMM_LEN_COUNT: nat := 256 - LIST_START - MAX_LENGTH_BYTES
  const LIST_IND_LEN_ZERO: nat := LIST_START + LIST_IMM_LEN_COUNT - 1

  /** The reader refuses payloads of this length or more: adding the header length
      must not overflow size_t. */
  const PAYLOAD_LIMIT: nat := SIZE_LIMIT - 1 - 0x100

  /** The length header of a string (`start` = 0x80) or list (`start` = 0xc0). A length
      of 56 or more is written out in big-endian form behind its own byte count. */
  function Header(start: nat, length: nat): Bytes
    requires start == DATA_IMM_LEN_START || start == LIST_START
  {
    if length < 56 then [start + length]
    else [(start + 55 + |BigEndian(length)|) % 256] + BigEndian(length)
  }

  function Encode(item: Item): (e: Bytes)
    ensures e != []
    decreases item
  {
    match item
    case Data(b) =>
      if |b| == 1 && b[0] < DATA_IMM_LEN_START then b else Header(DATA_IMM_LEN_START, |b|) + b
    case List(items) =>
      var payload := EncodeAll(items);
      Header(LIST_START, |payload|) + payload
  }

  function EncodeAll(items: seq<Item>): Bytes
    decreases items
  {
    if items == [] then [] else Encode(items[0]) + EncodeAll(items[1..])
  }

  /** No string or list payload in the item exceeds what the reader takes. */
  predicate Encodable(item: Item)
    decreases item
  {
    match item
    case Data(b) => |b| < PAYLOAD_LIMIT
    case List(items) =>
      |EncodeAll(items)| < PAYLOAD_LIMIT && forall i | 0 <= i < |items| :: Encodable(items[i])
  }

  /** The encoding in the bytes of Appendix B. */
  lemma EncodeBytes(item: Item)
    ensures var p := if item.Data? then item.bytes else EncodeAll(item.items);
            var short, long := if item.Data? then 0x80 else 0xc0, if item.Data? then 0xb7 else 0xf7;
            if item.Data? && |p| == 1 && p[0] < 0x80 then Encode(item) == p
            else if |p| <= 55 then Encode(item) == [short + |p|] + p
            else |p| < 0x1_0000_0000_0000_0000 ==>
                   |BigEndian(|p|)| <= 8 && Encode(item) == [long + |BigEndian(|p|)|] + BigEndian(|p|) + p
  {
    hide BigEndian;
    SizeBytes(if item.Data? then |item.bytes| else |EncodeAll(item.items)|);
  }

  /** The items of a list are encoded one after the other. */
  lemma EncodeAllPush(items: seq<Item>, item: Item)
    ensures EncodeAll(items + [item]) == EncodeAll(items) + Encode(item) && EncodeAll([]) == []
  {
    EncodeAllConcat(items, [item]);
    assert [item][1..] == [] && EncodeAll([item]) == Encode(item) + EncodeAll([]);
  }

  lemma {:induction false} EncodeAllConcat(a: seq<Item>, b: seq<Item>)
    ensures EncodeAll(a + b) == EncodeAll(a) + EncodeAll(b)
  {
    hide Encode;
    if a == [] {
      assert a + b == b;
    } else {
      EncodeAllConcat(a[1..], b);
      assert (a + b)[1..] == a[1..] + b;
    }
  }

  /** No more than nine bytes of header; what fits a header fits the item. */
  lemma EncodeLength(item: Item)
    requires Encodable(item)
    ensures item.Data? ==> |Encode(item)| <= 9 + |item.bytes|
    ensures item.List? ==> |Encode(item)| <= 9 + |EncodeAll(item.items)|
  {
    match item
    case Data(b) => SizeBytes(|b|);
    case List(items) => SizeBytes(|EncodeAll(items)|);
  }
}
