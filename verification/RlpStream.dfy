/**
 `RLPStream`: items are appended after the children they contain, and a list's header is
 inserted in front of them, in place, when its last item has arrived.
 */
module RlpStream {
  import opened Bytes
  import opened Rlp

  /** A list still waiting for `left` items; its payload begins at `start`. */
  datatype OpenList = OpenList(left: nat, start: nat)

  datatype State = State(out: Bytes, stack: seq<OpenList>)

  /** Open lists nest: each begins inside the one before, and each still waits for items. */
  predicate WellFormed(st: State)
  {
    && (forall i | 0 <= i < |st.stack| :: st.stack[i].left > 0 && st.stack[i].start <= |st.out|)
    && (forall i, j | 0 <= i < j < |st.stack| :: st.stack[i].start <= st.stack[j].start)
  }

  const EMPTY: State := State([], [])

  /** The stream once the list that began at `start` is complete. */
  function Close(st: State, start: nat): Result<State>
    requires WellFormed(st) && start <= |st.out|
    requires forall i | 0 <= i < |st.stack| :: st.stack[i].start <= start
    ensures Close(st, start).Ok? ==> WellFormed(Close(st, start).value)
    decreases |st.stack|, 1
  {
    var size := |st.out| - start;
    if size >= SIZE_LIMIT then Throws(ItemCountTooLarge)
    else Note(State(st.out[..start] + Header(LIST_START, size) + st.out[start..], st.stack), 1)
  }

  /** What `noteAppended` makes of a stream whose buffer has just grown by `count` items. */
  function Note(st: State, count: nat): (r: Result<State>)
    requires WellFormed(st)
    ensures r.Ok? ==> WellFormed(r.value)
    decreases |st.stack|, 0
  {
    if count == 0 || st.stack == [] then Ok(st) else
    var last := |st.stack| - 1;
    var top := st.stack[last];
    if top.left < count then Throws(ItemCountTooLarge)
    else if top.left > count then
      Ok(State(st.out, st.stack[..last] + [OpenList(top.left - count, top.start)]))
    else
      Close(State(st.out, st.stack[..last]), top.start)
  }

  lemma NoteNothing(st: State)
    requires WellFormed(st)
    ensures Note(st, 0) == Ok(st)
  {
  }

  lemma NoteSteps(st: State, count: nat)
    requires WellFormed(st) && count > 0
    ensures st.stack == [] ==> Note(st, count) == Ok(st)
    ensures st.stack != [] ==>
              var last := |st.stack| - 1;
              var top := st.stack[last];
              var lower := st.stack[..last];
              && (top.left < count ==> Note(st, count) == Throws(ItemCountTooLarge))
              && (top.left > count ==>
                    Note(st, count) == Ok(State(st.out, lower + [OpenList(top.left - count, top.start)])))
              && (top.left == count ==>
                    && top.start <= |st.out|
                    && Note(st, count) == Close(State(st.out, lower), top.start))
  {
  }

  /** Items noted together are items noted one by one, as long as the innermost list takes them
      all; when it cannot, that is an exception. */
  lemma NoteOneByOne(st: State, count: nat)
    requires WellFormed(st) && st.stack != [] && count > 1
    ensures var left := st.stack[|st.stack| - 1].left;
            if count > left then Note(st, count) == Throws(ItemCountTooLarge)
            else Note(st, 1).Ok? && Note(st, count) == Note(Note(st, 1).value, count - 1)
  {
    hide Close;
    var last := |st.stack| - 1;
    var top := st.stack[last];
    if count <= top.left {
      var next := State(st.out, st.stack[..last] + [OpenList(top.left - 1, top.start)]);
      assert Note(st, 1) == Ok(next);
      assert next.stack[..last] == st.stack[..last];
    }
  }

  /** One complete item, already encoded, has been appended. */
  function AppendItem(st: State, encoding: Bytes): Result<State>
    requires WellFormed(st)
  {
    Note(State(st.out + encoding, st.stack), 1)
  }

  // ---- a tree streamed in pre-order ----

  /** The calls that stream a tree: a list announces its item count, then its items come. */
  datatype Call = AppendList(count: nat) | AppendData(bytes: Bytes)

  function Calls(item: Item): seq<Call>
    decreases item
  {
    match item
    case Data(b) => [AppendData(b)]
    case List(items) => [AppendList(|items|)] + CallsAll(items)
  }

  function CallsAll(items: seq<Item>): seq<Call>
    decreases items
  {
    if items == [] then [] else Calls(items[0]) + CallsAll(items[1..])
  }

  function After(st: State, call: Call): (r: Result<State>)
    requires WellFormed(st)
    ensures r.Ok? ==> WellFormed(r.value)
  {
    match call
    case AppendList(count) =>
      if count == 0 then AppendItem(st, [LIST_START])
      else Ok(State(st.out, st.stack + [OpenList(count, |st.out|)]))
    case AppendData(b) =>
      if |b| >= SIZE_LIMIT then Throws(ItemCountTooLarge) else AppendItem(st, Encode(Data(b)))
  }

  function AfterAll(st: State, calls: seq<Call>): (r: Result<State>)
    requires WellFormed(st)
    ensures r.Ok? ==> WellFormed(r.value)
    decreases |calls|
  {
    if calls == [] then Ok(st) else
    var next :- After(st, calls[0]);
    AfterAll(next, calls[1..])
  }

  lemma {:induction false} AfterConcat(st: State, a: seq<Call>, b: seq<Call>)
    requires WellFormed(st)
    ensures AfterAll(st, a + b) == match AfterAll(st, a)
                                   case Ok(next) => AfterAll(next, b)
                                   case Throws(e) => Throws(e)
    decreases |a|
  {
    if a == [] {
      assert a + b == b;
    } else {
      assert (a + b)[1..] == a[1..] + b;
      var next := After(st, a[0]);
      if next.Ok? {
        AfterConcat(next.value, a[1..], b);
      }
    }
  }

  /** Streaming a tree in pre-order appends exactly its recursive encoding, as one item,
      whatever lists are still open around it. */
  lemma {:induction false} StreamAppendsEncoding(st: State, item: Item)
    requires WellFormed(st) && Encodable(item)
    ensures AfterAll(st, Calls(item)) == AppendItem(st, Encode(item))
    decreases item, 0
  {
    match item {
      case Data(b) =>
        assert Calls(item)[1..] == [];
      case List(items) =>
        hide Note;
        var calls := Calls(item);
        assert calls[1..] == CallsAll(items);
        if items == [] {
          assert Encode(item) == [LIST_START];
          assert calls[1..] == [];
        } else {
          var inner := State(st.out, st.stack + [OpenList(|items|, |st.out|)]);
          StreamAppendsItems(inner, items);
          ClosesList(st, |items|, EncodeAll(items));
        }
    }
  }

  /** The last item of a list just opened completes it as one item of the list around it. */
  lemma ClosesList(st: State, count: nat, payload: Bytes)
    requires WellFormed(st) && count > 0 && |payload| < SIZE_LIMIT
    ensures Note(State(st.out + payload, st.stack + [OpenList(count, |st.out|)]), count)
         == AppendItem(st, Header(LIST_START, |payload|) + payload)
  {
    hide Header;
    var inner := st.stack + [OpenList(count, |st.out|)];
    assert inner[..|inner| - 1] == st.stack;
    var out := st.out + payload;
    assert out[..|st.out|] == st.out && out[|st.out|..] == payload;
    Assoc(st.out, Header(LIST_START, |payload|), payload);
  }

  /** The innermost list cannot tell a items and then b from a + b at once. */
  lemma NoteInTwoSteps(st: State, a: nat, b: nat)
    requires WellFormed(st) && st.stack != [] && a > 0 && b > 0
    requires a + b <= st.stack[|st.stack| - 1].left
    ensures var last := |st.stack| - 1;
            var fewer := st.stack[..last] + [OpenList(st.stack[last].left - a, st.stack[last].start)];
            Note(State(st.out, fewer), b) == Note(st, a + b)
  {
    var last := |st.stack| - 1;
    var fewer := st.stack[..last] + [OpenList(st.stack[last].left - a, st.stack[last].start)];
    assert fewer[..last] == st.stack[..last];
  }

  /** Streaming items into the innermost open list: it waits for fewer items, or it closes. */
  lemma {:induction false} StreamAppendsItems(st: State, items: seq<Item>)
    requires WellFormed(st) && st.stack != [] && items != []
    requires |items| <= st.stack[|st.stack| - 1].left
    requires forall i | 0 <= i < |items| :: Encodable(items[i])
    ensures AfterAll(st, CallsAll(items)) == Note(State(st.out + EncodeAll(items), st.stack), |items|)
    decreases items, 1
  {
    hide Close, Note, Encode, EncodeAll, Calls;
    StreamAppendsEncoding(st, items[0]);
    AfterConcat(st, Calls(items[0]), CallsAll(items[1..]));
    EncodeAllFront(items, st.out);
    if |items| == 1 {
      assert CallsAll(items[1..]) == [];
    } else {
      var next := AppendsToOpen(st, Encode(items[0]));
      StreamAppendsItems(next, items[1..]);
      NoteInTwoSteps(State(st.out + EncodeAll(items), st.stack), 1, |items| - 1);
    }
  }

  lemma EncodeAllFront(items: seq<Item>, out: Bytes)
    requires items != []
    ensures out + EncodeAll(items) == out + Encode(items[0]) + EncodeAll(items[1..])
    ensures |items| == 1 ==> out + EncodeAll(items) == out + Encode(items[0])
  {
    hide Encode;
    Assoc(out, Encode(items[0]), EncodeAll(items[1..]));
    assert |items| == 1 ==> EncodeAll(items[1..]) == [];
  }

  /** One item into a list that waits for more than one. */
  lemma AppendsToOpen(st: State, encoding: Bytes) returns (next: State)
    requires WellFormed(st) && st.stack != [] && st.stack[|st.stack| - 1].left > 1
    ensures WellFormed(next) && AppendItem(st, encoding) == Ok(next)
    ensures var last := |st.stack| - 1;
            next == State(st.out + encoding,
                          st.stack[..last] + [OpenList(st.stack[last].left - 1, st.stack[last].start)])
  {
    next := AppendItem(st, encoding).value;
  }

  /** From a new stream, a whole tree leaves no list open and its encoding in the buffer. */
  lemma StreamRefinesEncode(item: Item)
    requires Encodable(item)
    ensures AfterAll(EMPTY, Calls(item)) == Ok(State(Encode(item), []))
  {
    StreamAppendsEncoding(EMPTY, item);
    assert [] + Encode(item) == Encode(item);
  }

  // ---- items appended one by one ----

  /** The stream after a sequence of items. */
  function ItemsOn(st: State, items: seq<Item>): (r: Result<State>)
    requires WellFormed(st)
    ensures r.Ok? ==> WellFormed(r.value)
  {
    AfterAll(st, CallsAll(items))
  }

  lemma {:induction false} CallsAllConcat(a: seq<Item>, b: seq<Item>)
    ensures CallsAll(a + b) == CallsAll(a) + CallsAll(b)
  {
    hide Calls;
    if a == [] {
      assert a + b == b;
    } else {
      CallsAllConcat(a[1..], b);
      assert (a + b)[1..] == a[1..] + b;
    }
  }

  /** One more item, however it got there, adds its encoding; its exception is that of the whole. */
  lemma NextItem(st: State, items: seq<Item>, i: nat)
    requires WellFormed(st) && i < |items| && Encodable(items[i]) && ItemsOn(st, items[..i]).Ok?
    ensures var next := AppendItem(ItemsOn(st, items[..i]).value, Encode(items[i]));
            && ItemsOn(st, items[..i + 1]) == next
            && (next.Throws? ==> ItemsOn(st, items) == next)
  {
    hide Calls, AppendItem, Encode, After;
    var front, item := items[..i], [items[i]];
    assert item[1..] == [] && CallsAll(item) == Calls(items[i]) + [] == Calls(items[i]);
    assert items[..i + 1] == front + item;
    CallsAllConcat(front, item);
    AfterConcat(st, CallsAll(front), Calls(items[i]));
    StreamAppendsEncoding(ItemsOn(st, front).value, items[i]);
    assert items == items[..i + 1] + items[i + 1..];
    CallsAllConcat(items[..i + 1], items[i + 1..]);
    AfterConcat(st, CallsAll(items[..i + 1]), CallsAll(items[i + 1..]));
  }

  /** A list is its announcement and its items. */
  lemma ListOn(st: State, items: seq<Item>)
    requires WellFormed(st) && items != [] && Encodable(List(items))
    ensures After(st, AppendList(|items|)).Ok?
    ensures ItemsOn(After(st, AppendList(|items|)).value, items) == AppendItem(st, Encode(List(items)))
  {
    hide AppendItem, Encode, Note, Encodable;
    StreamAppendsEncoding(st, List(items));
    var calls := Calls(List(items));
    assert calls[0] == AppendList(|items|) && calls[1..] == CallsAll(items);
  }

  lemma NothingOn(st: State)
    requires WellFormed(st)
    ensures ItemsOn(st, []) == Ok(st)
  {
  }

  lemma EncodableParts(items: seq<Item>)
    requires Encodable(List(items))
    ensures forall i | 0 <= i < |items| :: Encodable(items[i])
  {
  }

  // ---- the class ----

  function WithoutLeadingZeros(s: Bytes): Bytes
  {
    if s != [] && s[0] == 0 then WithoutLeadingZeros(s[1..]) else s
  }

  /** Without its zeros in front a string is the minimal form of the number it denotes. */
  lemma {:induction false} MinimalForm(s: Bytes)
    ensures WithoutLeadingZeros(s) == BigEndian(FromBigEndian(s))
  {
    if s != [] && s[0] == 0 {
      ZeroInFront(s[1..]);
      assert s == [0] + s[1..];
      MinimalForm(s[1..]);
    } else {
      BigEndianCanonical(s);
    }
  }

  lemma {:induction false} ZeroInFront(s: Bytes)
    ensures FromBigEndian([0] + s) == FromBigEndian(s)
  {
    if s == [] {
      assert ([0] + s)[..0] == [];
    } else {
      var t := s[..|s| - 1];
      ZeroInFront(t);
      assert ([0] + s)[..|s|] == [0] + t;
    }
  }

  /** Writes the low bytes of `n` backwards from position `last` until nothing is left of it. */
  method WriteBackwards(buffer: Bytes, last: nat, n: nat) returns (r: Bytes)
    requires |BigEndian(n)| <= last + 1 <= |buffer|
    ensures r == buffer[..last + 1 - |BigEndian(n)|] + BigEndian(n) + buffer[last + 1..]
  {
    r := buffer;
    var i, left := last + 1, n;
    while left != 0
      invariant 0 <= i <= last + 1 && i >= |BigEndian(left)|
      invariant i - |BigEndian(left)| == last + 1 - |BigEndian(n)|
      invariant |r| == |buffer| && r[..i] == buffer[..i] && r[last + 1..] == buffer[last + 1..]
      invariant BigEndian(left) + r[i..last + 1] == BigEndian(n)
      decreases left
    {
      var was := r;
      i := i - 1;
      r := r[i := left % 256];
      assert [left % 256] + was[i + 1..last + 1] == r[i..last + 1];
      left := left / 256;
      assert r[..i] == was[..i + 1][..i];
    }
    assert r == r[..i] + r[i..last + 1] + r[last + 1..];
  }

  /** A call that ended as its specification says, exceptions included. */
  ghost predicate Outcome(r: Result<()>, spec: Result<State>, now: State)
  {
    match spec
    case Ok(st) => r == Ok(()) && now == st
    case Throws(e) => r == Throws(e)
  }

  lemma NumberEncoding(n: nat)
    ensures n < DATA_IMM_LEN_START ==>
              |BigEndian(n)| <= 1 && Encode(Data(BigEndian(n))) == if n == 0 then [DATA_IMM_LEN_START] else [n]
    ensures n >= DATA_IMM_LEN_START ==>
              Encode(Data(BigEndian(n))) == Header(DATA_IMM_LEN_START, |BigEndian(n)|) + BigEndian(n)
  {
    if n < 256 {
      assert n / 256 == 0 && BigEndian(0) == [];
    }
  }

  class RlpStream {
    var out: Bytes
    var stack: seq<OpenList>

    ghost function View(): State
      reads this
    {
      State(out, stack)
    }

    ghost predicate Valid()
      reads this
    {
      WellFormed(View())
    }

    constructor ()
      ensures Valid() && View() == EMPTY
    {
      out, stack := [], [];
    }

    /** Shifts the last `size` bytes up and writes their list header in the gap. */
    method InsertListHeader(p: nat, size: nat)
      requires p + size == |out| && size < SIZE_LIMIT
      modifies this`out
      ensures out == old(out)[..p] + Header(LIST_START, size) + old(out)[p..]
    {
      hide BigEndian;
      SizeBytes(size);
      var lengthBytes := BytesRequired(size);
      var encodeSize := if size < LIST_IMM_LEN_COUNT then 1 else 1 + lengthBytes;
      var payload := out[p..];
      out := out[..p] + seq(encodeSize, _ => 0) + payload;
      if size < LIST_IMM_LEN_COUNT {
        out := out[p := LIST_START + size];
      } else {
        out := out[p := LIST_IND_LEN_ZERO + lengthBytes];
        out := WriteBackwards(out, p + lengthBytes, size);
      }
    }

    /** `noteAppended`: count down the innermost list; when it is complete, shift its payload
        to make room for the header, write the header, and go on with the list around it. */
    method NoteAppended(count: nat) returns (r: Result<()>)
      requires Valid()
      modifies this
      ensures Outcome(r, Note(old(View()), count), View()) && (r.Ok? ==> Valid())
    {
      hide Header, BigEndian, Note;
      if count == 0 {
        NoteNothing(View());
        return Ok(());
      }
      var itemCount := count;
      while stack != []
        invariant Valid() && itemCount > 0
        invariant Note(View(), itemCount) == Note(old(View()), count)
        decreases |stack|
      {
        NoteSteps(View(), itemCount);
        var top := stack[|stack| - 1];
        if top.left < itemCount {
          return Throws(ItemCountTooLarge);
        }
        if top.left > itemCount {
          stack := stack[..|stack| - 1] + [OpenList(top.left - itemCount, top.start)];
          return Ok(());
        }
        var p, size := top.start, |out| - top.start;
        stack := stack[..|stack| - 1];
        if size >= SIZE_LIMIT {
          return Throws(ItemCountTooLarge);
        }
        InsertListHeader(p, size);
        itemCount := 1;
      }
      NoteSteps(View(), itemCount);
      r := Ok(());
    }

    /** `appendRaw`: bytes that already are `count` encoded items. */
    method AppendRaw(s: Bytes, count: nat) returns (r: Result<()>)
      requires Valid()
      modifies this
      ensures Outcome(r, Note(State(old(out) + s, old(stack)), count), View()) && (r.Ok? ==> Valid())
    {
      out := out + s;
      r := NoteAppended(count);
    }

    /** `pushInt`: grow the buffer by the bytes of the number and write them from the back. */
    method PushInt(n: nat, size: nat)
      requires size == |BigEndian(n)|
      modifies this`out
      ensures out == old(out) + BigEndian(n)
    {
      if size > 0 {
        out := out + seq(size, _ => 0);
        out := WriteBackwards(out, |out| - 1, n);
      }
    }

    /** `pushCount`: the count's byte count added to the base, then the count. */
    method PushCount(count: nat, base: nat) returns (r: Result<()>)
      requires base == DATA_IND_LEN_ZERO || base == LIST_IND_LEN_ZERO
      modifies this`out
      ensures r.Ok? <==> count < SIZE_LIMIT
      ensures r.Throws? ==> r == Throws(ItemCountTooLarge)
      ensures r.Ok? ==> out == old(out) + [base + |BigEndian(count)|] + BigEndian(count)
    {
      var br := BytesRequired(count);
      SizeBytes(count);
      if br > 8 {
        return Throws(ItemCountTooLarge);
      }
      out := out + [br + base];
      PushInt(count, br);
      r := Ok(());
    }

    /** `appendList(size_t)`: a list of `count` items follows. */
    method AppendList(count: nat) returns (r: Result<()>)
      requires Valid()
      modifies this
      ensures Outcome(r, After(old(View()), Call.AppendList(count)), View()) && (r.Ok? ==> Valid())
    {
      if count > 0 {
        stack := stack + [OpenList(count, |out|)];
        r := Ok(());
      } else {
        r := AppendRaw([LIST_START], 1);
      }
    }

    /** `append(bytesConstRef)`: a string, less its leading zero bytes when `compact`. */
    method AppendData(s: Bytes, compact: bool) returns (r: Result<()>)
      requires Valid()
      modifies this
      ensures var b := if compact then WithoutLeadingZeros(s) else s;
              Outcome(r, After(old(View()), Call.AppendData(b)), View())
      ensures r.Ok? ==> Valid()
    {
      var b := s;
      if compact {
        while b != [] && b[0] == 0
          invariant WithoutLeadingZeros(b) == WithoutLeadingZeros(s)
        {
          b := b[1..];
        }
      }
      ghost var st := View();
      r := PushString(b);
      if r.Ok? {
        r := NoteAppended(1);
      }
    }

    /** The header and the bytes of a string, the bytes alone for one small byte. */
    method PushString(b: Bytes) returns (r: Result<()>)
      modifies this`out
      ensures r == if |b| < SIZE_LIMIT then Ok(()) else Throws(ItemCountTooLarge)
      ensures r.Ok? ==> out == old(out) + Encode(Data(b))
    {
      if |b| == 1 && b[0] < DATA_IMM_LEN_START {
        out := out + b;
        return Ok(());
      }
      if |b| < DATA_IMM_LEN_COUNT {
        out := out + [|b| + DATA_IMM_LEN_START];
      } else {
        SizeBytes(|b|);
        var _ :- PushCount(|b|, DATA_IND_LEN_ZERO);
      }
      out := out + b;
      r := Ok(());
    }

    /** `append(bigint)`: the number as the string of its minimal big-endian form. */
    method AppendInt(n: nat) returns (r: Result<()>)
      requires Valid()
      modifies this
      ensures Outcome(r, After(old(View()), Call.AppendData(BigEndian(n))), View()) && (r.Ok? ==> Valid())
    {
      ghost var st := View();
      NumberEncoding(n);
      hide Encode, BigEndian;
      if n == 0 {
        out := out + [DATA_IMM_LEN_START];
      } else if n < DATA_IMM_LEN_START {
        out := out + [n];
      } else {
        var br := BytesRequired(n);
        if br < DATA_IMM_LEN_COUNT {
          out := out + [br + DATA_IMM_LEN_START];
        } else {
          var brbr := BytesRequired(br);
          SizeBytes(br);
          if brbr > 8 {
            return Throws(ItemCountTooLarge);
          }
          out := out + [DATA_IND_LEN_ZERO + brbr];
          PushInt(br, brbr);
        }
        PushInt(n, br);
      }
      assert out == st.out + Encode(Data(BigEndian(n)));
      r := NoteAppended(1);
    }

    /** `out`: the buffer, once every announced item has arrived. */
    method Out() returns (r: Result<Bytes>)
      ensures r == if stack == [] then Ok(out) else Throws(ItemCountTooLarge)
    {
      if stack != [] {
        return Throws(ItemCountTooLarge);
      }
      r := Ok(out);
    }
  }
}
