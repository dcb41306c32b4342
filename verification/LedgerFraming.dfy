/**
 How a transaction goes to the Ledger: the derivation path and the unsigned RLP cut into
 payloads of 150 bytes, each carried by up to three USB buffers, and a device that puts them
 together again.
 */
module LedgerFraming {
  import opened Bytes

  const FIRST: nat := 52
  const SECOND: nat := 59
  const THIRD: nat := 39
  const PAYLOAD: nat := FIRST + SECOND + THIRD
  const BUFFER: nat := 65

  function Zeros(n: nat): (z: Bytes)
    ensures |z| == n
  {
    seq(n, _ => 0)
  }

  /** The `transactionPayload` struct. */
  datatype TransactionPayload = TransactionPayload(
    payloadSize: nat, isHidFirstMessage: bool,
    isFirstMessageEmpty: bool, isSecondMessageEmpty: bool, isThirdMessageEmpty: bool,
    firstMessage: Bytes, secondMessage: Bytes, thirdMessage: Bytes)

  const EMPTY_PAYLOAD: TransactionPayload :=
    TransactionPayload(0, true, true, true, true, Zeros(FIRST), Zeros(SECOND), Zeros(THIRD))

  /** A message array whose first bytes are `b`. */
  predicate Carries(message: Bytes, size: nat, b: Bytes)
  {
    |message| == size && |b| <= size && message[..|b|] == b
  }

  /** The payload carries exactly these bytes, in order over its three messages. */
  predicate PayloadIs(p: TransactionPayload, chunk: Bytes)
  {
    && |chunk| <= PAYLOAD && p.payloadSize == |chunk|
    && Carries(p.firstMessage, FIRST, chunk[..Min(FIRST, |chunk|)])
    && Carries(p.secondMessage, SECOND, chunk[Min(FIRST, |chunk|)..Min(FIRST + SECOND, |chunk|)])
    && Carries(p.thirdMessage, THIRD, chunk[Min(FIRST + SECOND, |chunk|)..])
    && p.isFirstMessageEmpty == (chunk == [])
    && p.isSecondMessageEmpty == (|chunk| <= FIRST)
    && p.isThirdMessageEmpty == (|chunk| <= FIRST + SECOND)
  }

  // ---- the payloads ----

  /** The path bytes that get into the payloads: what fits the first message, and nothing at
      all when the path alone is as long as a payload. */
  function PathSent(bip32: Bytes): Bytes
  {
    if |bip32| >= PAYLOAD then [] else bip32[..Min(FIRST, |bip32|)]
  }

  /** The loop over one message array: bytes of `front` first, then of the RLP from `index` on. */
  method FillMessage(message: Bytes, front: Bytes, rlp: Bytes, index: nat)
    returns (filled: Bytes, index': nat, count: nat)
    requires |front| <= |message| && index <= |rlp| && (front != [] ==> index < |rlp|)
    ensures var b := (front + rlp[index..])[..Min(|message|, |front| + |rlp| - index)];
            Carries(filled, |message|, b) && count == |b|
    ensures index <= index' <= |rlp| && index' == index + count - |front|
  {
    hide Carries;
    filled, index', count := message, index, 0;
    ghost var all := front + rlp[index..];
    while count < |message| && index' < |rlp|
      invariant |filled| == |message| && count <= |message| && index <= index' <= |rlp|
      invariant index' == index + if count < |front| then 0 else count - |front|
      invariant count <= |all| && filled[..count] == all[..count]
    {
      ByteOf(front, rlp, index, count);
      ghost var was := filled;
      if count < |front| {
        filled := filled[count := front[count]];
      } else {
        filled := filled[count := rlp[index']];
        index' := index' + 1;
      }
      OneMoreByte(filled, was, all, count);
      count := count + 1;
    }
    CarriesAll(filled, all, count);
  }

  lemma ByteOf(front: Bytes, rlp: Bytes, index: nat, count: nat)
    requires index <= |rlp| && count < |front| + |rlp| - index
    ensures (front + rlp[index..])[count] == if count < |front| then front[count] else rlp[index + count - |front|]
  {
  }

  lemma OneMoreByte(filled: Bytes, was: Bytes, all: Bytes, count: nat)
    requires count < |filled| == |was| && count < |all| && was[..count] == all[..count]
    requires filled == was[count := all[count]]
    ensures filled[..count + 1] == all[..count + 1]
  {
    assert all[..count + 1] == all[..count] + [all[count]];
  }

  lemma CarriesAll(filled: Bytes, all: Bytes, count: nat)
    requires count <= |filled| && count <= |all| && filled[..count] == all[..count]
    ensures Carries(filled, |filled|, all[..count])
  {
  }

  lemma BehindFront(front: Bytes, rlp: Bytes, index: nat, n: nat)
    requires index <= |rlp| && |front| <= n <= |front| + |rlp| - index
    ensures (front + rlp[index..])[n..] == [] + rlp[index + n - |front|..]
  {
  }

  /** Three messages filled one after the other carry one chunk. */
  lemma ThreeMessages(all: Bytes, p: TransactionPayload, n1: nat, n2: nat, n3: nat)
    requires n1 == Min(FIRST, |all|) && n2 == Min(SECOND, |all| - n1) && n3 == Min(THIRD, |all| - n1 - n2)
    requires Carries(p.firstMessage, FIRST, all[..n1])
    requires Carries(p.secondMessage, SECOND, all[n1..][..n2])
    requires Carries(p.thirdMessage, THIRD, all[n1..][n2..][..n3])
    requires p.payloadSize == n1 + n2 + n3
    requires p.isFirstMessageEmpty == (n1 == 0) && p.isSecondMessageEmpty == (n2 == 0)
    requires p.isThirdMessageEmpty == (n3 == 0)
    ensures PayloadIs(p, all[..Min(PAYLOAD, |all|)])
  {
    var n := Min(PAYLOAD, |all|);
    var chunk := all[..n];
    assert Min(FIRST, n) == n1 && Min(FIRST + SECOND, n) == n1 + n2 && n == n1 + n2 + n3;
    SliceOfTake(all, n, 0, n1);
    SliceOfTake(all, n, n1, n1 + n2);
    SliceOfTake(all, n, n1 + n2, n);
    SliceOfSlice(all, n1, 0, n2);
    SliceOfSlice(all[n1..], n2, 0, n3);
    SliceOfSlice(all, n1, n2, n2 + n3);
  }

  /** One payload. */
  method MakePayload(bip32: Bytes, rlp: Bytes, index: nat) returns (p: TransactionPayload, index': nat)
    requires index < |rlp|
    ensures var front := if index + |bip32| >= PAYLOAD then [] else bip32[..Min(FIRST, |bip32|)];
            var chunk := (front + rlp[index..])[..Min(PAYLOAD, |front| + |rlp| - index)];
            && PayloadIs(p, chunk) && p.isHidFirstMessage == (index + |bip32| < PAYLOAD)
            && index < index' <= |rlp| && index' == index + |chunk| - |front|
  {
    hide PayloadIs, Carries, Zeros;
    p := EMPTY_PAYLOAD;
    if index + |bip32| >= PAYLOAD {
      p := p.(isHidFirstMessage := false);
    }
    var front := if p.isHidFirstMessage then bip32[..Min(FIRST, |bip32|)] else [];
    ghost var all := front + rlp[index..];
    var message1, i1, n1 := FillMessage(p.firstMessage, front, rlp, index);
    var message2, i2, n2 := FillMessage(p.secondMessage, [], rlp, i1);
    var message3, i3, n3 := FillMessage(p.thirdMessage, [], rlp, i2);
    p := p.(firstMessage := message1, isFirstMessageEmpty := n1 == 0,
            secondMessage := message2, isSecondMessageEmpty := n2 == 0,
            thirdMessage := message3, isThirdMessageEmpty := n3 == 0, payloadSize := n1 + n2 + n3);
    index' := i3;
    BehindFront(front, rlp, index, n1);
    BehindFront(front, rlp, index, n1 + n2);
    assert all[n1..][n2..] == all[n1 + n2..];
    ThreeMessages(all, p, n1, n2, n3);
  }

  /** A stream of bytes cut into payloads. */
  function Cut(b: Bytes): seq<Bytes>
  {
    if b == [] then [] else
    var n := Min(PAYLOAD, |b|);
    [b[..n]] + Cut(b[n..])
  }

  predicate CarryAll(ps: seq<TransactionPayload>, chunks: seq<Bytes>)
  {
    |ps| == |chunks| && forall k | 0 <= k < |ps| :: PayloadIs(ps[k], chunks[k])
  }

  /** Only the first payload of all is marked as the first. */
  predicate MarkFirst(ps: seq<TransactionPayload>, first: bool)
  {
    forall k | 0 <= k < |ps| :: ps[k].isHidFirstMessage == (first && k == 0)
  }

  lemma CutNext(done: seq<Bytes>, rest: Bytes)
    requires rest != []
    ensures var n := Min(PAYLOAD, |rest|); done + Cut(rest) == done + [rest[..n]] + Cut(rest[n..])
  {
  }

  lemma RestOfStream(front: Bytes, rlp: Bytes, index: nat)
    requires index < |rlp| && |front| <= PAYLOAD
    ensures var rest := front + rlp[index..];
            var n := Min(PAYLOAD, |rest|);
            index + n - |front| <= |rlp| && rest[n..] == rlp[index + n - |front|..]
  {
  }

  /** The loop over the RLP. */
  method MakePayloads(bip32: Bytes, rlp: Bytes) returns (ps: seq<TransactionPayload>)
    ensures rlp == [] ==> ps == []
    ensures rlp != [] ==> CarryAll(ps, Cut(PathSent(bip32) + rlp)) && MarkFirst(ps, |bip32| < PAYLOAD)
  {
    hide PayloadIs, Cut;
    var index := 0;
    ps := [];
    ghost var chunks: seq<Bytes> := [];
    ghost var whole := PathSent(bip32) + rlp;
    ghost var rest := whole;
    assert rlp[0..] == rlp && [] + Cut(whole) == Cut(whole);
    while index < |rlp|
      invariant index <= |rlp| && CarryAll(ps, chunks) && MarkFirst(ps, |bip32| < PAYLOAD)
      invariant rlp != [] ==> chunks + Cut(rest) == Cut(whole)
      invariant rest == (if ps == [] then PathSent(bip32) else []) + rlp[index..]
      invariant ps != [] && index < |rlp| ==> index + |bip32| >= PAYLOAD
      invariant ps == [] ==> index == 0
      invariant rlp == [] ==> ps == []
      decreases |rlp| - index
    {
      ghost var front := if index + |bip32| >= PAYLOAD then [] else bip32[..Min(FIRST, |bip32|)];
      assert front == if ps == [] then PathSent(bip32) else [];
      CutNext(chunks, rest);
      RestOfStream(front, rlp, index);
      var p;
      p, index := MakePayload(bip32, rlp, index);
      ghost var n := Min(PAYLOAD, |rest|);
      chunks := chunks + [rest[..n]];
      ps := ps + [p];
      rest := rest[n..];
      assert rest == [] + rlp[index..];
    }
    if rlp != [] {
      assert rest == [];
      NothingToCut(chunks);
    }
  }

  lemma NothingToCut(chunks: seq<Bytes>)
    ensures chunks + Cut([]) == chunks
  {
  }

  // ---- the buffers ----

  const CLA: byte := 0xe0
  const INS_SIGN: byte := 0x04

  function P1(first: bool): byte { if first then 0x00 else 0x80 }

  /** Report id, channel, command tag and index: what every buffer begins with. */
  function HidHeader(index: byte): (header: Bytes)
    ensures |header| == 6
  {
    [0x00, 0x01, 0x01, 0x05, 0x00, index]
  }

  /** The loop that copies a vector into a buffer of zeros. */
  method FillBuffer(bufferVector: Bytes) returns (buffer: Bytes)
    requires |bufferVector| <= BUFFER
    ensures buffer == bufferVector + Zeros(BUFFER - |bufferVector|)
  {
    buffer := Zeros(BUFFER);
    for i := 0 to |bufferVector|
      invariant |buffer| == BUFFER && buffer[..i] == bufferVector[..i] && buffer[i..] == Zeros(BUFFER - i)
    {
      var was := buffer;
      buffer := buffer[i := bufferVector[i]];
      assert buffer[..i + 1] == was[..i] + [bufferVector[i]];
      assert buffer[i + 1..] == was[i..][1..];
    }
  }

  /** The buffers of one payload. */
  function Buffers(p: TransactionPayload): seq<Bytes>
    requires p.payloadSize <= PAYLOAD
  {
    (if p.isFirstMessageEmpty then [] else
       [HidHeader(0) + [0x00, 5 + p.payloadSize] +
        [CLA, INS_SIGN, P1(p.isHidFirstMessage), 0x00, p.payloadSize] + p.firstMessage]) +
    (if p.isSecondMessageEmpty then [] else [HidHeader(1) + p.secondMessage]) +
    (if p.isThirdMessageEmpty then [] else
       [HidHeader(2) + p.thirdMessage + Zeros(BUFFER - 6 - THIRD)])
  }

  method EncodePayload(p: TransactionPayload) returns (ret: seq<Bytes>)
    requires p.payloadSize <= PAYLOAD
    requires |p.firstMessage| == FIRST && |p.secondMessage| == SECOND && |p.thirdMessage| == THIRD
    ensures ret == Buffers(p)
  {
    ret := [];
    if !p.isFirstMessageEmpty {
      var apdu := [CLA, INS_SIGN, P1(p.isHidFirstMessage), 0x00, p.payloadSize] + p.firstMessage;
      var bufferVector := HidHeader(0) + [0x00, 5 + p.payloadSize] + apdu;
      var buffer := FillBuffer(bufferVector);
      assert buffer == HidHeader(0) + [0x00, 5 + p.payloadSize] +
                       [CLA, INS_SIGN, P1(p.isHidFirstMessage), 0x00, p.payloadSize] + p.firstMessage;
      ret := ret + [buffer];
    }
    if !p.isSecondMessageEmpty {
      var buffer := FillBuffer(HidHeader(1) + p.secondMessage);
      assert buffer == HidHeader(1) + p.secondMessage;
      ret := ret + [buffer];
    }
    if !p.isThirdMessageEmpty {
      var buffer := FillBuffer(HidHeader(2) + p.thirdMessage);
      ret := ret + [buffer];
    }
  }

  function AllBuffers(ps: seq<TransactionPayload>): seq<Bytes>
    requires forall k | 0 <= k < |ps| :: ps[k].payloadSize <= PAYLOAD
  {
    if ps == [] then [] else Buffers(ps[0]) + AllBuffers(ps[1..])
  }

  lemma {:induction false} AllBuffersPush(ps: seq<TransactionPayload>, p: TransactionPayload)
    requires p.payloadSize <= PAYLOAD && forall k | 0 <= k < |ps| :: ps[k].payloadSize <= PAYLOAD
    ensures AllBuffers(ps + [p]) == AllBuffers(ps) + Buffers(p)
  {
    hide Buffers;
    if ps == [] {
      assert [p][1..] == [] && [] + [p] == [p];
    } else {
      assert (ps + [p])[1..] == ps[1..] + [p];
      AllBuffersPush(ps[1..], p);
    }
  }

  /** `encodeSignEthMessage`. */
  method EncodeSignEthMessage(bip32: Bytes, rlp: Bytes) returns (ret: seq<Bytes>)
    ensures rlp == [] ==> ret == []
    ensures rlp != [] ==> Deliver(ret) == if |bip32| < 150 then Some(PathSent(bip32) + rlp) else None
  {
    hide PayloadIs, Cut, Buffers, Deliver;
    var txPayload := MakePayloads(bip32, rlp);
    ret := [];
    ghost var chunks := if rlp == [] then [] else Cut(PathSent(bip32) + rlp);
    assert CarryAll(txPayload, chunks);
    forall j | 0 <= j < |txPayload|
      ensures txPayload[j].payloadSize <= PAYLOAD
    {
      PayloadSizes(txPayload[j], chunks[j]);
    }
    for k := 0 to |txPayload|
      invariant forall j | 0 <= j < |txPayload| :: txPayload[j].payloadSize <= PAYLOAD
      invariant ret == AllBuffers(txPayload[..k])
    {
      PayloadSizes(txPayload[k], chunks[k]);
      var buffers := EncodePayload(txPayload[k]);
      AllBuffersPush(txPayload[..k], txPayload[k]);
      assert txPayload[..k + 1] == txPayload[..k] + [txPayload[k]];
      ret := ret + buffers;
    }
    assert txPayload[..|txPayload|] == txPayload;
    if rlp != [] {
      Delivered(txPayload, PathSent(bip32) + rlp, |bip32| < PAYLOAD);
    }
  }

  // ---- the device ----

  /** `exchangeMessage` sends the buffers in packages of three and reads an answer to each. */
  function Packages(buffers: seq<Bytes>): seq<seq<Bytes>>
  {
    if buffers == [] then []
    else if |buffers| <= 3 then [buffers]
    else [buffers[..3]] + Packages(buffers[3..])
  }

  /** What the device looks for in front of a buffer: report id 0, channel 0101, tag 05, and the
      number of the buffer in two bytes. */
  predicate InSequence(buffer: Bytes, index: nat)
  {
    && |buffer| == 65
    && buffer[0] == 0x00 && buffer[1] == 0x01 && buffer[2] == 0x01 && buffer[3] == 0x05
    && buffer[4] as int * 256 + buffer[5] as int == index
  }

  /** The rest of a message: from buffer `index` on, which must follow in sequence. */
  function Gather(buffers: seq<Bytes>, index: nat, need: nat): (r: Option<Bytes>)
    ensures r.Some? ==> |r.value| == need
  {
    if need == 0 then if buffers == [] then Some([]) else None
    else if buffers == [] || !InSequence(buffers[0], index) then None
    else
      var n := Min(need, 59);
      match Gather(buffers[1..], index + 1, need - n)
      case None => None
      case Some(rest) => Some(buffers[0][6..6 + n] + rest)
  }

  /** One package is one command, of 150 bytes at most: its length says how much of the buffers
      belongs to it, and its length byte agrees. */
  function ReceivePackage(buffers: seq<Bytes>, p1: byte): Option<Bytes>
  {
    if buffers == [] || !InSequence(buffers[0], 0) then None
    else
      var length: nat := buffers[0][6] as int * 256 + buffers[0][7] as int;
      var n := Min(length, 57);
      match Gather(buffers[1..], 1, length - n)
      case None => None
      case Some(rest) =>
        var apdu := buffers[0][8..8 + n] + rest;
        if 5 <= length <= 155 && apdu[..4] == [0xe0, 0x04, p1, 0x00] && apdu[4] == length - 5
        then Some(apdu[5..]) else None
  }

  function Receive(packages: seq<seq<Bytes>>, first: bool): Option<Bytes>
  {
    if packages == [] then Some([]) else
    match ReceivePackage(packages[0], if first then 0x00 else 0x80)
    case None => None
    case Some(chunk) =>
      match Receive(packages[1..], false)
      case None => None
      case Some(rest) => Some(chunk + rest)
  }

  function Deliver(buffers: seq<Bytes>): Option<Bytes>
  {
    Receive(Packages(buffers), true)
  }

  lemma PayloadSizes(p: TransactionPayload, chunk: Bytes)
    requires PayloadIs(p, chunk)
    ensures p.payloadSize == |chunk| <= PAYLOAD
    ensures |p.firstMessage| == FIRST && |p.secondMessage| == SECOND && |p.thirdMessage| == THIRD
  {
  }

  /** One buffer more in front of what is gathered. */
  lemma GatherStep(buffers: seq<Bytes>, index: byte, message: Bytes, part: Bytes, rest: Bytes)
    requires buffers != [] && |message| <= BUFFER - 6 && part <= message && part != []
    requires buffers[0] == HidHeader(index) + message + Zeros(BUFFER - 6 - |message|)
    requires |part| == Min(|part| + |rest|, 59)
    requires Gather(buffers[1..], index + 1, |rest|) == Some(rest)
    ensures Gather(buffers, index, |part| + |rest|) == Some(part + rest)
  {
    hide HidHeader, Zeros, InSequence;
    InBuffer(buffers[0], index, message, |part|);
    assert part == message[..|part|];
  }

  lemma InBuffer(buffer: Bytes, index: byte, message: Bytes, n: nat)
    requires n <= |message| <= BUFFER - 6 && buffer == HidHeader(index) + message + Zeros(BUFFER - 6 - |message|)
    ensures InSequence(buffer, index) && |buffer| == 65 && buffer[6..6 + n] == message[..n]
  {
    hide HidHeader, Zeros, InSequence;
    HeaderInSequence(index, message + Zeros(BUFFER - 6 - |message|));
    assert buffer == HidHeader(index) + (message + Zeros(BUFFER - 6 - |message|));
    FrameParts(HidHeader(index), message, Zeros(BUFFER - 6 - |message|), n);
  }

  /** The header the program writes is the one the device looks for, with that number only. */
  lemma HeaderInSequence(index: byte, rest: Bytes)
    requires |rest| == 59
    ensures forall i: nat :: InSequence(HidHeader(index) + rest, i) <==> i == index as int
  {
  }

  lemma FrameParts(header: Bytes, message: Bytes, rest: Bytes, n: nat)
    requires n <= |message|
    ensures var b := header + message + rest;
            b[..|header|] == header && b[|header|..|header| + n] == message[..n]
  {
  }

  lemma NothingGathered(index: nat)
    ensures Gather([], index, 0) == Some([])
  {
  }

  /** The buffers a payload makes behind the first. */
  lemma BuffersOf(p: TransactionPayload, chunk: Bytes)
    requires PayloadIs(p, chunk) && chunk != []
    ensures var second := HidHeader(1) + p.secondMessage + Zeros(0);
            var third := HidHeader(2) + p.thirdMessage + Zeros(BUFFER - 6 - THIRD);
            && Buffers(p) != []
            && Buffers(p)[1..] ==
               if |chunk| <= FIRST then [] else if |chunk| <= FIRST + SECOND then [second] else [second, third]
  {
    hide HidHeader;
    assert HidHeader(1) + p.secondMessage + Zeros(0) == HidHeader(1) + p.secondMessage;
  }

  /** What the second and third message begin with. */
  lemma MessagesOf(p: TransactionPayload, chunk: Bytes)
    requires PayloadIs(p, chunk)
    ensures p.payloadSize == |chunk| <= PAYLOAD && |p.secondMessage| == SECOND && |p.thirdMessage| == THIRD
    ensures FIRST < |chunk| <= FIRST + SECOND ==> chunk[FIRST..] <= p.secondMessage
    ensures |chunk| > FIRST + SECOND ==>
              chunk[FIRST..FIRST + SECOND] <= p.secondMessage && chunk[FIRST + SECOND..] <= p.thirdMessage
  {
    if FIRST < |chunk| <= FIRST + SECOND {
      assert chunk[FIRST..] == chunk[FIRST..|chunk|];
    }
  }

  /** The tail of a payload that starts in the second buffer. */
  lemma GatherTail(p: TransactionPayload, chunk: Bytes)
    requires PayloadIs(p, chunk) && chunk != []
    ensures Buffers(p) != [] && |Buffers(p)| <= 3
    ensures |chunk| == PAYLOAD ==> |Buffers(p)| == 3
    ensures Gather(Buffers(p)[1..], 1, |chunk| - Min(FIRST, |chunk|)) == Some(chunk[Min(FIRST, |chunk|)..])
  {
    hide Buffers, Gather, HidHeader, Zeros, PayloadIs;
    MessagesOf(p, chunk);
    BuffersOf(p, chunk);
    if |chunk| <= FIRST {
      NothingGathered(1);
      assert chunk[|chunk|..] == [];
    } else if |chunk| <= FIRST + SECOND {
      GatherLast(Buffers(p)[1..], 1, p.secondMessage, chunk[FIRST..]);
    } else {
      GatherTwo(Buffers(p)[1..], p.secondMessage, p.thirdMessage,
                chunk[FIRST..FIRST + SECOND], chunk[FIRST + SECOND..]);
      assert chunk[FIRST..FIRST + SECOND] + chunk[FIRST + SECOND..] == chunk[FIRST..];
    }
  }

  lemma GatherTwo(buffers: seq<Bytes>, message: Bytes, message': Bytes, part: Bytes, last: Bytes)
    requires |message| == SECOND && |message'| == THIRD && part == message && last <= message' && last != []
    requires buffers == [HidHeader(1) + message + Zeros(0), HidHeader(2) + message' + Zeros(BUFFER - 6 - THIRD)]
    ensures Gather(buffers, 1, |part| + |last|) == Some(part + last)
  {
    hide Gather, HidHeader, Zeros;
    GatherLast(buffers[1..], 2, message', last);
    GatherStep(buffers, 1, message, part, last);
  }

  lemma GatherLast(buffers: seq<Bytes>, index: byte, message: Bytes, part: Bytes)
    requires |buffers| == 1 && |message| <= BUFFER - 6 && part <= message && part != []
    requires buffers[0] == HidHeader(index) + message + Zeros(BUFFER - 6 - |message|)
    ensures Gather(buffers, index, |part|) == Some(part)
  {
    hide HidHeader, Zeros, Gather;
    NothingGathered(index + 1);
    var none: seq<Bytes> := buffers[1..];
    assert none == [] && part + [] == part;
    GatherStep(buffers, index, message, part, []);
  }

  /** The device takes out of one package what the payload carries, if it is marked as expected. */
  lemma OnePackage(p: TransactionPayload, chunk: Bytes, p1: byte)
    requires PayloadIs(p, chunk) && chunk != []
    ensures ReceivePackage(Buffers(p), p1) == if p1 == P1(p.isHidFirstMessage) then Some(chunk) else None
  {
    hide Gather;
    GatherTail(p, chunk);
    var buffers := Buffers(p);
    var head := chunk[..Min(FIRST, |chunk|)];
    var apdu := [CLA, INS_SIGN, P1(p.isHidFirstMessage), 0x00, p.payloadSize];
    assert buffers[0] == HidHeader(0) + [0x00, 5 + p.payloadSize] + apdu + p.firstMessage;
    HeaderInSequence(0, [0x00, 5 + p.payloadSize] + apdu + p.firstMessage);
    assert buffers[0] == HidHeader(0) + ([0x00, 5 + p.payloadSize] + apdu + p.firstMessage);
    assert buffers[0][6] == 0 && buffers[0][7] == 5 + |chunk|;
    assert buffers[0][8..8 + 5 + |head|] == apdu + head;
    var rest := chunk[|head|..];
    assert apdu + head + rest == apdu + chunk;
    assert (apdu + chunk)[..4] == [CLA, INS_SIGN, P1(p.isHidFirstMessage), 0x00] && (apdu + chunk)[5..] == chunk;
    assert [CLA, INS_SIGN, p1, 0x00][2] == p1;
  }

  lemma PackageFront(front: seq<Bytes>, rest: seq<Bytes>)
    requires front != [] && |front| <= 3 && (rest != [] ==> |front| == 3)
    ensures Packages(front + rest) == [front] + Packages(rest)
  {
    if rest == [] {
      assert front + rest == front;
    } else {
      assert (front + rest)[..3] == front && (front + rest)[3..] == rest;
    }
  }

  /** The device puts together what was sent, if the first payload is marked as it expects. */
  lemma {:induction false} Delivered(ps: seq<TransactionPayload>, b: Bytes, first: bool)
    requires b != [] && CarryAll(ps, Cut(b)) && MarkFirst(ps, first)
    requires forall k | 0 <= k < |ps| :: ps[k].payloadSize <= PAYLOAD
    ensures Deliver(AllBuffers(ps)) == if first then Some(b) else None
  {
    DeliveredFrom(ps, b, first, true);
  }

  lemma {:induction false} DeliveredFrom(ps: seq<TransactionPayload>, b: Bytes, first: bool, expected: bool)
    requires b != [] && CarryAll(ps, Cut(b)) && MarkFirst(ps, first)
    requires forall k | 0 <= k < |ps| :: ps[k].payloadSize <= PAYLOAD
    ensures Receive(Packages(AllBuffers(ps)), expected) == if first == expected then Some(b) else None
    decreases |b|
  {
    hide PayloadIs, Buffers, ReceivePackage, Cut, CarryAll, Packages;
    var n := Min(PAYLOAD, |b|);
    var chunk, rest := b[..n], b[n..];
    CarryTail(ps, b);
    OnePackage(ps[0], chunk, P1(expected));
    GatherTail(ps[0], chunk);
    NoPackages();
    if rest == [] {
      PackageFront(Buffers(ps[0]), []);
      assert chunk + [] == chunk == b;
    } else {
      DeliveredFrom(ps[1..], rest, false, false);
      SomeBuffers(ps[1..], rest);
      PackageFront(Buffers(ps[0]), AllBuffers(ps[1..]));
      assert chunk + rest == b;
    }
  }

  lemma CarryTail(ps: seq<TransactionPayload>, b: Bytes)
    requires b != [] && CarryAll(ps, Cut(b)) && forall k | 0 <= k < |ps| :: ps[k].payloadSize <= PAYLOAD
    ensures var n := Min(PAYLOAD, |b|);
            && ps != [] && PayloadIs(ps[0], b[..n]) && CarryAll(ps[1..], Cut(b[n..]))
            && (b[n..] == [] ==> ps[1..] == [] && AllBuffers(ps[1..]) == [])
  {
    hide PayloadIs;
    var n := Min(PAYLOAD, |b|);
    assert Cut(b) == [b[..n]] + Cut(b[n..]);
    forall k | 0 <= k < |ps| - 1
      ensures PayloadIs(ps[1..][k], Cut(b[n..])[k])
    {
      assert PayloadIs(ps[k + 1], Cut(b)[k + 1]);
    }
  }

  lemma NoPackages()
    ensures Packages([]) == [] && forall first :: Receive([], first) == Some([])
  {
  }

  lemma SomeBuffers(ps: seq<TransactionPayload>, b: Bytes)
    requires b != [] && CarryAll(ps, Cut(b)) && forall k | 0 <= k < |ps| :: ps[k].payloadSize <= PAYLOAD
    ensures AllBuffers(ps) != []
  {
    GatherTail(ps[0], Cut(b)[0]);
  }

  /** Path and RLP arrive whole exactly when the path fits the first message. */
  lemma ArrivesWhole(bip32: Bytes, rlp: Bytes)
    ensures (if |bip32| < 150 then Some(PathSent(bip32) + rlp) else None) == Some(bip32 + rlp) <==> |bip32| <= 52
    ensures 52 <= |bip32| < 150 ==> PathSent(bip32) == bip32[..52]
    ensures |bip32| >= 150 ==> PathSent(bip32) == []
  {
    if |bip32| <= FIRST {
      assert bip32[..|bip32|] == bip32;
    } else if |bip32| < PAYLOAD {
      assert |PathSent(bip32) + rlp| < |bip32 + rlp|;
    }
  }
}
