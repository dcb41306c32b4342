/**
 The cursor of `RLP::operator[]`, the counting loop of `RLP::items` and the list
 iterator, against the plain left-to-right split of a payload.
 */
module RlpView {
  import opened Bytes
  import opened Rlp
  import opened RlpReader

  /** A view made with `ThrowOnFail | FailIfTooSmall`. */
  function FailIfTooSmall(d: Bytes): Result<Bytes>
  {
    var _ :- SizeAsEncoded(d);
    Ok(d)
  }

  /** What is left of a payload after its first k items; nothing is left past the end. */
  function Skip(payload: Bytes, k: nat): Result<Bytes>
  {
    if k == 0 || payload == [] then Ok(payload) else
    var size :- SizeAsEncoded(payload);
    Skip(payload[size..], k - 1)
  }

  /** The bytes of item i of a payload, found from the left; null past the end. */
  function Nth(payload: Bytes, i: nat): Result<Bytes>
  {
    var rest :- Skip(payload, i);
    var size :- SizeAsEncoded(rest);
    Ok(rest[..size])
  }

  lemma {:induction false} SkipFrom(payload: Bytes, k: nat, i: nat)
    requires k <= i && Skip(payload, k).Ok?
    ensures Nth(payload, i) == Nth(Skip(payload, k).value, i - k)
  {
    hide SizeAsEncoded;
    if payload == [] {
      assert Skip(payload, i) == Ok([]);
    } else if k > 0 {
      var size := SizeAsEncoded(payload).value;
      SkipFrom(payload[size..], k - 1, i - 1);
      assert Skip(payload, i) == Skip(payload[size..], i - 1);
    }
  }

  lemma {:induction false} SkipOneMore(payload: Bytes, k: nat)
    requires Skip(payload, k).Ok? && Skip(payload, k).value != []
    requires SizeAsEncoded(Skip(payload, k).value).Ok?
    ensures var rest := Skip(payload, k).value;
            Skip(payload, k + 1) == Ok(rest[SizeAsEncoded(rest).value..])
  {
    if k > 0 {
      var size := SizeAsEncoded(payload).value;
      SkipOneMore(payload[size..], k - 1);
    } else {
      var size := SizeAsEncoded(payload).value;
      assert Skip(payload[size..], 0) == Ok(payload[size..]);
    }
  }

  /** What is left is a tail of the payload. */
  lemma {:induction false} SkipIsTail(payload: Bytes, k: nat)
    requires Skip(payload, k).Ok?
    ensures var rest := Skip(payload, k).value;
            |rest| <= |payload| && rest == payload[|payload| - |rest|..]
  {
    if k > 0 && payload != [] {
      SkipIsTail(payload[SizeAsEncoded(payload).value..], k - 1);
    }
  }

  /** The front of what is left decides: its own bytes, or its exception for all that follow. */
  lemma NthAtFront(d: Bytes, j: nat)
    ensures SizeAsEncoded(d).Ok? ==> Nth(d, 0) == Ok(d[..SizeAsEncoded(d).value])
    ensures SizeAsEncoded(d).Throws? ==> Nth(d, j) == Throws(SizeAsEncoded(d).error)
    ensures d == [] ==> SizeAsEncoded(d) == Ok(0) && Nth(d, j) == Ok([])
  {
    if d == [] {
      assert Skip(d, j) == Ok([]) && Skip(d, 0) == Ok([]);
    } else {
      assert Skip(d, 0) == Ok(d);
    }
  }

  /** The item at the front announces the same size when it stands alone. */
  lemma FrontAlone(d: Bytes)
    requires SizeAsEncoded(d).Ok?
    ensures var front := d[..SizeAsEncoded(d).value];
            SizeAsEncoded(front) == SizeAsEncoded(d) && VeryStrict(front) == Ok(front)
  {
    var size := SizeAsEncoded(d).value;
    var front := d[..size];
    if d != [] && !IsSingleByte(d) {
      var ls := LengthSize(d);
      assert front[0] == d[0];
      assert 1 + ls <= size;
      if ls > 0 {
        assert front[1..1 + ls] == d[1..1 + ls];
      } else if d[0] == DATA_IMM_LEN_START + 1 {
        assert front[1] == d[1];
      }
    }
  }

  /** The split has item i exactly where walking from the left finds it. */
  lemma {:induction false} NthOfSplit(payload: Bytes, i: nat)
    requires Split(payload).Ok?
    ensures var chunks := Split(payload).value;
            Nth(payload, i) == Ok(if i < |chunks| then chunks[i] else [])
  {
    hide SizeAsEncoded, Nth;
    if payload != [] {
      var size := SizeAsEncoded(payload).value;
      var rest := Split(payload[size..]).value;
      assert Split(payload).value == [payload[..size]] + rest;
      if i > 0 {
        NthOfSplit(payload[size..], i - 1);
        SkipOneMore(payload, 0);
        SkipFrom(payload, 1, i);
      } else {
        NthAtFront(payload, 0);
      }
    } else {
      NthAtFront(payload, i);
    }
  }

  lemma SplitFront(d: Bytes)
    ensures SizeAsEncoded(d).Throws? ==> d != [] && Split(d) == Throws(SizeAsEncoded(d).error)
    ensures d == [] <==> SizeAsEncoded(d) == Ok(0)
    ensures d == [] ==> Split(d) == Ok([])
  {
  }

  /** On what the writer wrote, item i is the encoding of item i of the tree. */
  lemma NthOfEncoding(items: seq<Item>, i: nat)
    requires forall j | 0 <= j < |items| :: Encodable(items[j])
    ensures Nth(EncodeAll(items), i) == Ok(if i < |items| then Encode(items[i]) else [])
  {
    hide Nth, Split, EncodeAll;
    SplitEncodings(items);
    NthOfSplit(EncodeAll(items), i);
  }

  /** `items`: crop item after item off the payload and count. */
  method Items(d: Bytes) returns (count: Result<nat>)
    ensures !IsList(d) ==> count == Ok(0)
    ensures IsList(d) && Payload(d).Throws? ==> count == Throws(Payload(d).error)
    ensures IsList(d) && Payload(d).Ok? ==>
              count == match Split(Payload(d).value)
                       case Ok(chunks) => Ok(|chunks|)
                       case Throws(e) => Throws(e)
  {
    if !IsList(d) {
      return Ok(0);
    }
    var rest :- Payload(d);
    var i := 0;
    while rest != []
      invariant Split(rest).Throws? ==> Split(Payload(d).value) == Split(rest)
      invariant Split(rest).Ok? ==>
                  Split(Payload(d).value).Ok? && |Split(Payload(d).value).value| == i + |Split(rest).value|
      decreases |rest|
    {
      var size :- SizeAsEncoded(rest);
      rest, i := rest[size..], i + 1;
    }
    count := Ok(i);
  }

  // ---- the list iterator, with the addresses that its comparison looks at ----

  /** `iterator`: the address of the current item in the data, or the null pointer of a view
      that did not fit; the size of the item; and how much of the payload follows. */
  datatype Cursor = Cursor(at: Option<nat>, size: nat, remaining: nat)

  /** The comparison looks at the current item, that is at its address and its size. */
  predicate Meets(c: Cursor, end: Cursor)
  {
    c.at == end.at && c.size == end.size
  }

  /** `end()`: nothing, behind the last byte of the data. */
  function EndCursor(d: Bytes): Cursor
  {
    Cursor(if d == [] then None else Some(|d|), 0, 0)
  }

  /** `begin()`: the first item of the payload of a list, and the end for anything else. */
  function BeginCursor(d: Bytes): (c: Result<Cursor>)
    ensures c.Ok? ==> InData(d, c.value)
  {
    if !IsList(d) then Ok(EndCursor(d)) else
    var payload :- Payload(d);
    var size :- SizeAsEncoded(payload);
    var length := Length(d).value;
    var at := if PayloadOffset(d) + length <= |d| then Some(PayloadOffset(d)) else None;
    Ok(Cursor(at, size, |payload| - size))
  }

  predicate InData(d: Bytes, c: Cursor)
  {
    match c.at
    case Some(at) => at + c.size + c.remaining <= |d|
    case None => c.size == 0 && c.remaining == 0
  }

  /** `operator++`. */
  function NextCursor(d: Bytes, c: Cursor): (next: Result<Cursor>)
    requires InData(d, c)
    ensures next.Ok? ==> InData(d, next.value)
  {
    match c.at
    case None => Ok(c)
    case Some(at) =>
      var begin := at + c.size;
      if c.remaining == 0 then Ok(Cursor(Some(begin), 0, 0)) else
      var size :- SizeAsEncoded(d[begin..begin + c.remaining]);
      Ok(Cursor(Some(begin), size, c.remaining - size))
  }

  /** The bytes that `operator*` reads as one item. */
  function Current(d: Bytes, c: Cursor): Bytes
    requires InData(d, c)
  {
    match c.at
    case Some(at) => d[at..at + c.size]
    case None => []
  }

  /** The payload from the current item on. */
  function Left(d: Bytes, c: Cursor): Bytes
    requires InData(d, c)
  {
    match c.at
    case Some(at) => d[at..at + c.size + c.remaining]
    case None => []
  }

  /** A cursor that is going through the payload of a list. */
  ghost predicate Walking(d: Bytes, c: Cursor)
  {
    && IsList(d) && Payload(d).Ok? && InData(d, c)
    && SizeAsEncoded(Left(d, c)) == Ok(c.size)
    && var end := PayloadOffset(d) + Length(d).value;
       match c.at
       case Some(at) => at + c.size + c.remaining == end
       case None => end > |d|
  }

  lemma BeginWalks(d: Bytes)
    ensures !IsList(d) ==> BeginCursor(d) == Ok(EndCursor(d))
    ensures IsList(d) && Payload(d).Throws? ==> BeginCursor(d) == Throws(Payload(d).error)
    ensures IsList(d) && Payload(d).Ok? ==>
              match BeginCursor(d)
              case Ok(c) => Walking(d, c) && Left(d, c) == Payload(d).value
              case Throws(e) => Split(Payload(d).value) == Throws(e)
  {
    if IsList(d) && Payload(d).Ok? {
      SplitFront(Payload(d).value);
      if BeginCursor(d).Ok? {
        assert Left(d, BeginCursor(d).value) == Payload(d).value;
      }
    }
  }

  lemma SplitStep(d: Bytes)
    requires d != [] && SizeAsEncoded(d).Ok?
    ensures var size := SizeAsEncoded(d).value;
            0 < size <= |d|
            && Split(d) == match Split(d[size..])
                           case Ok(rest) => Ok([d[..size]] + rest)
                           case Throws(e) => Throws(e)
  {
  }

  /** The item at a walking cursor is the one at the front of what is left. */
  lemma CurrentIsFront(d: Bytes, c: Cursor)
    requires Walking(d, c)
    ensures c.size <= |Left(d, c)| && Current(d, c) == Left(d, c)[..c.size]
    ensures VeryStrict(Current(d, c)) == Ok(Current(d, c))
    ensures c.size == 0 <==> Left(d, c) == []
  {
    hide Payload, VeryStrict, IsList;
    FrontAlone(Left(d, c));
    SplitFront(Left(d, c));
  }

  /** Behind the last item the cursor stays put. */
  lemma StaysPut(d: Bytes, c: Cursor)
    requires Walking(d, c) && Left(d, c) == []
    ensures NextCursor(d, c) == Ok(c)
  {
    hide Payload, VeryStrict, IsList;
    CurrentIsFront(d, c);
    if c.at.Some? {
      assert d[c.at.value..c.at.value + c.size + c.remaining] == [];
    }
  }

  /** Before it the cursor goes to what follows the current item. */
  lemma GoesOn(d: Bytes, c: Cursor)
    requires Walking(d, c) && Left(d, c) != []
    ensures c.size <= |Left(d, c)|
    ensures var rest := Left(d, c)[c.size..];
            match NextCursor(d, c)
            case Throws(e) => SizeAsEncoded(rest) == Throws(e)
            case Ok(n) => Walking(d, n) && Left(d, n) == rest
  {
    hide SizeAsEncoded, Payload, VeryStrict, IsList;
    var left := Left(d, c);
    CurrentIsFront(d, c);
    var begin := c.at.value + c.size;
    var rest := left[c.size..];
    assert d[begin..begin + c.remaining] == rest;
    SplitFront(rest);
    if NextCursor(d, c).Ok? {
      assert Left(d, NextCursor(d, c).value) == rest;
    }
  }

  /** One step of the iterator is one step of the split. */
  lemma NextWalks(d: Bytes, c: Cursor)
    requires Walking(d, c) && Left(d, c) != []
    ensures match NextCursor(d, c)
            case Throws(e) => Split(Left(d, c)) == Throws(e)
            case Ok(n) =>
              && Walking(d, n) && |Left(d, n)| < |Left(d, c)|
              && Split(Left(d, c)) == match Split(Left(d, n))
                                      case Ok(rest) => Ok([Current(d, c)] + rest)
                                      case Throws(e) => Throws(e)
  {
    hide SizeAsEncoded, Payload, VeryStrict, Split, NextCursor, Left, Current, IsList;
    CurrentIsFront(d, c);
    GoesOn(d, c);
    SplitStep(Left(d, c));
    SplitFront(Left(d, c)[c.size..]);
  }

  /** Whether a walk with the iterator comes to an end: not if the payload can be split to its
      end and the data goes on behind it, or the payload does not fit the data. */
  predicate Iterable(d: Bytes)
  {
    || !IsList(d)
    || Payload(d).Throws?
    || VeryStrict(d) == Ok(d)
    || Split(Payload(d).value).Throws?
  }

  /** A walking cursor meets the end exactly behind the last item of strict data. */
  lemma MeetsEnd(d: Bytes, c: Cursor)
    requires Walking(d, c)
    ensures Meets(c, EndCursor(d)) <==> Left(d, c) == [] && VeryStrict(d) == Ok(d)
  {
    SplitFront(Left(d, c));
    assert Length(d).Ok? && ActualSize(d) == Ok(PayloadOffset(d) + Length(d).value);
  }

  /** Walking a list with its iterator. */
  method Iterate(d: Bytes) returns (read: Result<seq<Bytes>>)
    requires Iterable(d)
    ensures !IsList(d) ==> read == Ok([])
    ensures IsList(d) && Payload(d).Throws? ==> read == Throws(Payload(d).error)
    ensures IsList(d) && Payload(d).Ok? ==> read == Split(Payload(d).value)
  {
    hide SizeAsEncoded, Payload, VeryStrict, Split, NextCursor, Walking, Left, Current, BeginCursor;
    ghost var list := IsList(d) && Payload(d).Ok?;
    BeginWalks(d);
    var end := EndCursor(d);
    var current :- BeginCursor(d);
    var seen: seq<Bytes> := [];
    assert forall rest: seq<Bytes> :: [] + rest == rest;
    while !Meets(current, end)
      invariant InData(d, current)
      invariant list ==> Walking(d, current)
      invariant list ==>
                  Split(Payload(d).value) == match Split(Left(d, current))
                                             case Ok(rest) => Ok(seen + rest)
                                             case Throws(e) => Throws(e)
      invariant !list ==> current == end && seen == []
      decreases |Left(d, current)|
    {
      MeetsEnd(d, current);
      CurrentIsFront(d, current);
      SplitFront(Left(d, current));
      NextWalks(d, current);
      var item := VeryStrict(Current(d, current)).value;
      ghost var before := seen;
      seen := seen + [item];
      assert forall rest: seq<Bytes> :: before + ([item] + rest) == seen + rest;
      current :- NextCursor(d, current);
    }
    if list {
      MeetsEnd(d, current);
      SplitFront(Left(d, current));
      assert seen + [] == seen;
    }
    read := Ok(seen);
  }

  /** The cursor after n steps. */
  function Steps(d: Bytes, n: nat): (c: Result<Cursor>)
    ensures c.Ok? ==> InData(d, c.value)
  {
    if n == 0 then BeginCursor(d) else
    var c :- Steps(d, n - 1);
    NextCursor(d, c)
  }

  /** After n steps the walk is over: by an exception, or because it meets the end. */
  predicate Over(d: Bytes, n: nat)
  {
    Steps(d, n).Ok? ==> Meets(Steps(d, n).value, EndCursor(d))
  }

  lemma {:induction false} NeverOver(d: Bytes, n: nat)
    requires !Iterable(d)
    ensures Steps(d, n).Ok? && Walking(d, Steps(d, n).value) && Split(Left(d, Steps(d, n).value)).Ok?
    ensures !Over(d, n)
  {
    hide Payload, VeryStrict, Split, NextCursor, Walking, Left, BeginCursor;
    if n == 0 {
      BeginWalks(d);
    } else {
      NeverOver(d, n - 1);
      var c := Steps(d, n - 1).value;
      if Left(d, c) == [] {
        StaysPut(d, c);
      } else {
        NextWalks(d, c);
      }
    }
    MeetsEnd(d, Steps(d, n).value);
  }

  lemma {:induction false} OverFrom(d: Bytes, n: nat) returns (m: nat)
    requires Iterable(d) && Steps(d, n).Ok? && Walking(d, Steps(d, n).value)
    requires VeryStrict(d) == Ok(d) || Split(Left(d, Steps(d, n).value)).Throws?
    ensures Over(d, m)
    decreases |Left(d, Steps(d, n).value)|
  {
    hide Payload, VeryStrict, Split, NextCursor, Walking, Left, BeginCursor;
    var c := Steps(d, n).value;
    SplitFront(Left(d, c));
    MeetsEnd(d, c);
    if Meets(c, EndCursor(d)) {
      m := n;
    } else {
      NextWalks(d, c);
      m := n + 1;
      if Steps(d, n + 1).Ok? {
        m := OverFrom(d, n + 1);
      }
    }
  }

  /** The walk is over at some point exactly for such data; for others, as [0xc0, 0x00] and
      [0xc1], the cursor stays behind the payload for ever. */
  lemma IterationEnds(d: Bytes)
    ensures Iterable(d) <==> exists n :: Over(d, n)
    ensures !Iterable([0xc0, 0x00]) && !Iterable([0xc1])
  {
    if !Iterable(d) {
      forall n: nat
        ensures !Over(d, n)
      {
        NeverOver(d, n);
      }
    } else if IsList(d) && Payload(d).Ok? {
      BeginWalks(d);
      if BeginCursor(d).Ok? {
        var n := OverFrom(d, 0);
      } else {
        assert Over(d, 0);
      }
    } else {
      BeginWalks(d);
      assert Over(d, 0);
    }
  }

  // ---- the subscript ----

  /** What can be walked to and has a size at its front, has one at the front of the whole. */
  lemma FrontOfWalked(payload: Bytes, k: nat)
    requires Skip(payload, k).Ok? && SizeAsEncoded(Skip(payload, k).value).Ok?
    ensures SizeAsEncoded(payload).Ok?
  {
    SplitFront(payload);
  }

  /** The walk starts at the front of the payload. */
  lemma Begins(payload: Bytes, i: nat)
    ensures Skip(payload, 0) == Ok(payload)
    ensures SizeAsEncoded(payload).Throws? ==> Nth(payload, i) == Throws(SizeAsEncoded(payload).error)
  {
    hide SizeAsEncoded;
    NthAtFront(payload, i);
  }

  /** One item on: what follows item k is what is left after it. */
  lemma Onward(payload: Bytes, k: nat, i: nat)
    requires k < i && Skip(payload, k).Ok? && Skip(payload, k).value != []
    requires SizeAsEncoded(Skip(payload, k).value).Ok?
    ensures var rest := Skip(payload, k).value;
            var end := |payload| - |rest| + SizeAsEncoded(rest).value;
            && 0 <= end <= |payload| && |rest| <= |payload|
            && payload[end..] == rest[SizeAsEncoded(rest).value..]
            && Skip(payload, k + 1) == Ok(payload[end..])
            && (SizeAsEncoded(payload[end..]).Throws? ==>
                  Nth(payload, i) == Throws(SizeAsEncoded(payload[end..]).error))
  {
    hide SizeAsEncoded, Nth, Skip;
    var rest := Skip(payload, k).value;
    SkipIsTail(payload, k);
    SkipOneMore(payload, k);
    assert payload == payload[..|payload| - |rest|] + rest;
    SkipFrom(payload, k + 1, i);
    NthAtFront(rest[SizeAsEncoded(rest).value..], i - k - 1);
  }

  /** What is left after k items has item k at its front. */
  lemma FrontIsNth(payload: Bytes, k: nat)
    requires Skip(payload, k).Ok? && SizeAsEncoded(Skip(payload, k).value).Ok?
    ensures var rest := Skip(payload, k).value;
            var front := rest[..SizeAsEncoded(rest).value];
            Nth(payload, k) == Ok(front) && FailIfTooSmall(front) == Ok(front)
  {
    hide SizeAsEncoded, Skip;
    SkipFrom(payload, k, k);
    FrontAlone(Skip(payload, k).value);
  }

  /** Past the end of the payload there is nothing more. */
  lemma PastTheEnd(payload: Bytes, k: nat, i: nat)
    requires k <= i && Skip(payload, k) == Ok([])
    ensures Nth(payload, i) == Ok([])
  {
    SkipFrom(payload, k, i);
    NthAtFront([], i - k);
  }

  /** `RLP` with the cache that `operator[]` keeps between calls. */
  class View {
    const data: Bytes
    var lastIndex: nat
    var lastEnd: nat
    var lastItem: Bytes

    /** The cache marks itself unused with the largest size_t. */
    static const UNUSED: nat := SIZE_LIMIT - 1

    /** Nothing has been asked with success. */
    ghost predicate Fresh()
      reads this
    {
      lastIndex == UNUSED && lastItem == []
    }

    /** Walking to the last index is possible, and the end lies behind the item there. */
    ghost predicate Walked()
      reads this
    {
      && Payload(data).Ok?
      && var payload := Payload(data).value;
         && Skip(payload, lastIndex).Ok?
         && var rest := Skip(payload, lastIndex).value;
            && SizeAsEncoded(rest).Ok?
            && |rest| <= |payload|
            && lastEnd == |payload| - |rest| + SizeAsEncoded(rest).value
    }

    /** The cache describes the item it claims to describe. */
    ghost predicate Described()
      reads this
    {
      && Walked()
      && var rest := Skip(Payload(data).value, lastIndex).value;
         lastItem == rest[..SizeAsEncoded(rest).value]
    }

    /** The size of an item could not be told: the cache keeps all that follows the item
        before it, under the index of that one. */
    ghost predicate Poisoned()
      reads this
    {
      && Walked()
      && lastEnd <= |Payload(data).value|
      && lastItem == Payload(data).value[lastEnd..]
      && SizeAsEncoded(lastItem).Throws?
    }

    ghost predicate Valid()
      reads this
    {
      Fresh() || Described() || Poisoned()
    }

    /** No exception has left the cache between two items. */
    ghost predicate Clean()
      reads this
    {
      Fresh() || Described()
    }

    lemma OneState()
      ensures Described() ==> !Poisoned()
      ensures Fresh() ==> !Poisoned()
    {
      if Described() {
        FrontAlone(Skip(Payload(data).value, lastIndex).value);
      }
    }

    /** What the cache answers without walking on. */
    lemma Answers(i: nat)
      requires Valid() && lastIndex <= i && (lastIndex < i ==> lastItem == [])
      ensures Described() ==>
                && FailIfTooSmall(lastItem) == Ok(lastItem) && Nth(Payload(data).value, i) == Ok(lastItem)
                && SizeAsEncoded(Payload(data).value).Ok?
      ensures Poisoned() ==>
                && FailIfTooSmall(lastItem).Throws? && lastIndex == i && Nth(Payload(data).value, i).Ok?
                && SizeAsEncoded(Payload(data).value).Ok?
      ensures Fresh() ==> FailIfTooSmall(lastItem) == Ok([])
    {
      hide Payload, Nth, Skip;
      SplitFront(lastItem);
      if Walked() {
        var payload := Payload(data).value;
        var rest := Skip(payload, lastIndex).value;
        FrontOfWalked(payload, lastIndex);
        FrontIsNth(payload, lastIndex);
        SplitFront(rest);
        if rest == [] {
          PastTheEnd(payload, lastIndex, i);
        }
      }
    }

    /** The index kept after an exception is the last one that can be walked to and read. */
    lemma LastReadable(i: nat)
      requires Poisoned()
      ensures var payload := Payload(data).value;
              Nth(payload, lastIndex).Ok? && (i > lastIndex ==> Nth(payload, i).Throws?)
    {
      hide Payload, Nth, Skip;
      var payload := Payload(data).value;
      SplitFront(lastItem);
      SplitFront(Skip(payload, lastIndex).value);
      FrontIsNth(payload, lastIndex);
      if i > lastIndex {
        Onward(payload, lastIndex, i);
      }
    }

    constructor (d: Bytes)
      ensures data == d && Fresh()
    {
      data := d;
      lastIndex, lastEnd, lastItem := UNUSED, 0, [];
    }

    /** `operator[]`. The answer (or the exception) is that of the plain walk from the left,
        whatever was asked before, but for two cases: an unused cache asked for its own mark
        is null, and after an exception on the way the index before it throws as well. */
    method At(i: nat) returns (r: Result<Bytes>)
      requires Valid() && i < SIZE_LIMIT
      modifies this
      ensures Valid()
      ensures (old(Clean()) || i != old(lastIndex)) && !(old(Fresh()) && i == SIZE_LIMIT - 1) ==>
                r == match Payload(data)
                     case Ok(payload) => Nth(payload, i)
                     case Throws(e) => Throws(e)
      ensures old(Fresh() && i == SIZE_LIMIT - 1) ==> r == Ok([])
      ensures old(Poisoned() && i == lastIndex) ==>
                && r == FailIfTooSmall(old(lastItem)) && r.Throws?
                && Nth(Payload(data).value, i).Ok?
      ensures r.Ok? ==> Clean()
      ensures Poisoned() ==> lastIndex < i || old(Poisoned() && i == lastIndex)
      ensures Poisoned() <==> r.Throws? && Payload(data).Ok? && SizeAsEncoded(Payload(data).value).Ok?
    {
      hide SizeAsEncoded, Payload, Nth, Skip;
      OneState();
      ghost var odd := (Poisoned() && i == lastIndex) || (Fresh() && i == UNUSED);
      if i < lastIndex {
        var payload :- Payload(data);
        Begins(payload, i);
        if Walked() {
          FrontOfWalked(payload, lastIndex);
        }
        lastEnd :- SizeAsEncoded(payload);
        lastItem := Cropped(payload, 0, lastEnd);
        lastIndex := 0;
      }
      while lastIndex < i && lastItem != []
        invariant lastIndex <= i && Valid()
        invariant if odd then unchanged(this) && lastIndex == i else Described() || (Poisoned() && lastIndex < i)
        decreases i - lastIndex
      {
        var payload := Payload(data).value;
        Onward(payload, lastIndex, i);
        FrontOfWalked(payload, lastIndex);
        lastItem := payload[lastEnd..];
        var size :- SizeAsEncoded(lastItem);
        lastItem := Cropped(lastItem, 0, size);
        lastEnd := lastEnd + |lastItem|;
        lastIndex := lastIndex + 1;
      }
      Answers(i);
      r := FailIfTooSmall(lastItem);
    }
  }

  /** A strict list whose second item is cut off: after asking for it, the first is refused too. */
  lemma CutOff()
    ensures var d := [0xc2, 0x01, 0x81];
            && VeryStrict(d) == Ok(d) && Payload(d) == Ok([0x01, 0x81]) && SizeAsEncoded([0x01, 0x81]) == Ok(1)
            && Nth([0x01, 0x81], 0) == Ok([0x01]) && Nth([0x01, 0x81], 1) == Throws(BadRLP)
  {
    var payload: Bytes := [0x01, 0x81];
    var d: Bytes := [0xc2, 0x01, 0x81];
    assert d[1..3] == payload && payload[1..] == [0x81] && payload[..1] == [0x01];
    assert Skip(payload, 0) == Ok(payload);
    assert Skip([0x81], 0) == Ok([0x81]);
    assert Skip(payload, 1) == Skip([0x81], 0);
  }

  method FirstAfterSecond() returns (before: Result<Bytes>, second: Result<Bytes>, after: Result<Bytes>)
    ensures before == Ok([0x01]) && second == Throws(BadRLP) && after.Throws?
  {
    hide Payload, Nth, Skip, SizeAsEncoded;
    CutOff();
    var view := new View([0xc2, 0x01, 0x81]);
    before := view.At(0);
    second := view.At(1);
    after := view.At(0);
  }
}
