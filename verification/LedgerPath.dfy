/**
 Derivation paths for the Ledger: read from text such as "m/44'/60'/0'/0", written as a count
 and four bytes for each index, and sent in front of the transaction to be signed.
 */
module LedgerPath {
  import opened Bytes
  import opened Decimal
  import opened LedgerFraming
  import opened Rlp
  import opened RlpStream
  import opened Transaction

  const HARDENED: nat := 0x8000_0000
  const UINT32: nat := 0x1_0000_0000

  /** One level of a path; an apostrophe marks it as hardened. */
  datatype Level = Level(index: nat, hardened: bool)

  function Word(n: nat, hardened: bool): nat
  {
    (n + if hardened then HARDENED else 0) % UINT32
  }

  function BigEndian32(n: nat): Bytes
  {
    [n / 0x100_0000 % 256, n / 0x1_0000 % 256, n / 0x100 % 256, n % 256]
  }

  function WordBytes(words: seq<nat>): Bytes
  {
    if words == [] then [] else BigEndian32(words[0]) + WordBytes(words[1..])
  }

  function Words(path: seq<Level>): (words: seq<nat>)
    ensures |words| == |path|
  {
    seq(|path|, i requires 0 <= i < |path| => Word(path[i].index, path[i].hardened))
  }

  /** How the device wants a path. */
  function PathBytes(path: seq<Level>): Bytes
  {
    [|path| % 256] + WordBytes(Words(path))
  }

  function LevelText(level: Level): string
  {
    Numeral(level.index) + if level.hardened then "'" else ""
  }

  /** A path as text, without the "m/" in front. */
  function PathText(path: seq<Level>): string
  {
    if path == [] then ""
    else if |path| == 1 then LevelText(path[0])
    else LevelText(path[0]) + "/" + PathText(path[1..])
  }

  /** Indexes that `uint32_t` can hold. */
  ghost predicate IndexesFit(path: seq<Level>)
  {
    forall i | 0 <= i < |path| :: path[i].index < 0x1_0000_0000
  }

  /** The word of a level is its index, raised by 2^31 if it is hardened, except where that
      sum wraps and takes the mark away. */
  lemma WordExact(n: nat, hardened: bool)
    requires n < 0x1_0000_0000
    ensures Word(n, hardened) == n + (if hardened then 0x8000_0000 else 0) <==> !(hardened && n >= 0x8000_0000)
    ensures hardened && n >= 0x8000_0000 ==> Word(n, hardened) == n - 0x8000_0000
  {
  }

  /** `lexical_cast<uint32_t>` of a string of digits; nothing for its exception. */
  function LexicalCast(s: string): Option<nat>
    requires Digits(s)
  {
    if s == "" || Value(s) >= UINT32 then None else Some(Value(s))
  }

  /** The words read from the rest of a text, with an index under way. */
  function ReadWords(s: string, tmpIndex: string, isHardened: bool): Option<seq<nat>>
    requires Digits(tmpIndex)
    decreases |s|
  {
    if s == "" then Some([]) else
    var tmp := if IsDigit(s[0]) then tmpIndex + [s[0]] else tmpIndex;
    var hard := isHardened || s[0] == '\'';
    if s[0] == '/' || |s| == 1 then
      match LexicalCast(tmp)
      case None => None
      case Some(n) =>
        match ReadWords(s[1..], "", false)
        case None => None
        case Some(rest) => Some([Word(n, hard)] + rest)
    else ReadWords(s[1..], tmp, hard)
  }

  function WithoutRoot(s: string): string
  {
    if |s| >= 2 && s[0] == 'm' && s[1] == '/' then s[2..] else s
  }

  /** Only "m/" in front is taken off. */
  lemma RootTakenOff(s: string)
    ensures WithoutRoot("m/" + s) == s
    ensures !("m/" <= s) ==> WithoutRoot(s) == s
  {
  }

  /** What one more character does. */
  lemma ReadStep(s: string, i: nat, tmpIndex: string, isHardened: bool)
    requires i < |s| && Digits(tmpIndex)
    ensures var tmp := if IsDigit(s[i]) then tmpIndex + [s[i]] else tmpIndex;
            var hard := isHardened || s[i] == '\'';
            ReadWords(s[i..], tmpIndex, isHardened) ==
            if s[i] == '/' || i == |s| - 1 then
              if LexicalCast(tmp).None? then None
              else Prepend([Word(LexicalCast(tmp).value, hard)], ReadWords(s[i + 1..], "", false))
            else ReadWords(s[i + 1..], tmp, hard)
  {
    assert s[i..][1..] == s[i + 1..];
  }

  function Prepend(words: seq<nat>, rest: Option<seq<nat>>): Option<seq<nat>>
  {
    match rest
    case None => None
    case Some(more) => Some(words + more)
  }

  lemma PrependTwice(a: seq<nat>, b: seq<nat>, rest: Option<seq<nat>>)
    ensures Prepend(a, Prepend(b, rest)) == Prepend(a + b, rest) && Prepend([], rest) == rest
  {
    if rest.Some? {
      Assoc(a, b, rest.value);
      assert [] + rest.value == rest.value;
    }
  }

  /** The loop over the characters; `isHardened` is what the uninitialised variable happens
      to hold. */
  method ReadIndexes(unparsedPath: string, isHardened: bool) returns (ret: Option<seq<nat>>)
    ensures ret == ReadWords(unparsedPath, "", isHardened)
  {
    hide ReadWords, LexicalCast, Word, Prepend;
    var derivationIndexes: seq<nat> := [];
    var tmpIndex, hard := "", isHardened;
    assert unparsedPath[0..] == unparsedPath;
    PrependTwice([], [], ReadWords(unparsedPath, "", isHardened));
    for i := 0 to |unparsedPath|
      invariant Digits(tmpIndex)
      invariant ReadWords(unparsedPath, "", isHardened) ==
                Prepend(derivationIndexes, ReadWords(unparsedPath[i..], tmpIndex, hard))
    {
      ReadStep(unparsedPath, i, tmpIndex, hard);
      if IsDigit(unparsedPath[i]) {
        tmpIndex := tmpIndex + [unparsedPath[i]];
      }
      if unparsedPath[i] == '\'' {
        hard := true;
      }
      if unparsedPath[i] == '/' || i == |unparsedPath| - 1 {
        var cast := LexicalCast(tmpIndex);
        if cast == None {
          PrependNone(derivationIndexes);
          return None;
        }
        var index := Word(cast.value, hard);
        PrependTwice(derivationIndexes, [index], ReadWords(unparsedPath[i + 1..], "", false));
        derivationIndexes := derivationIndexes + [index];
        hard := false;
        tmpIndex := "";
      }
    }
    NothingToRead(unparsedPath, tmpIndex, hard, derivationIndexes);
    ret := Some(derivationIndexes);
  }

  lemma PrependNone(words: seq<nat>)
    ensures Prepend(words, None) == None
  {
  }

  lemma NothingToRead(s: string, tmpIndex: string, hard: bool, words: seq<nat>)
    requires Digits(tmpIndex)
    ensures Prepend(words, ReadWords(s[|s|..], tmpIndex, hard)) == Some(words)
  {
    assert s[|s|..] == "" && words + [] == words;
  }

  /** `parsePath`. */
  method ParsePath(path: string, isHardened: bool) returns (ret: Option<Bytes>)
    ensures ret == match ReadWords(WithoutRoot(path), "", isHardened)
                   case None => None
                   case Some(words) => Some([|words| % 256] + WordBytes(words))
  {
    hide ReadWords, WordBytes;
    var derivationIndexes := ReadIndexes(WithoutRoot(path), isHardened);
    if derivationIndexes == None {
      return None;
    }
    var words := derivationIndexes.value;
    var bytes: Bytes := [|words| % 256];
    NoWords(bytes);
    for k := 0 to |words|
      invariant bytes == [|words| % 256] + WordBytes(words[..k])
    {
      WordBytesPush(words[..k], words[k]);
      assert words[..k + 1] == words[..k] + [words[k]];
      Assoc([|words| % 256], WordBytes(words[..k]), BigEndian32(words[k]));
      bytes := bytes + BigEndian32(words[k]);
    }
    assert words[..|words|] == words;
    ret := Some(bytes);
  }

  lemma NoWords(bytes: Bytes)
    ensures forall words: seq<nat> :: bytes + WordBytes(words[..0]) == bytes
  {
    forall words: seq<nat>
      ensures bytes + WordBytes(words[..0]) == bytes
    {
      assert words[..0] == [];
    }
  }

  lemma {:induction false} WordBytesPush(words: seq<nat>, n: nat)
    ensures WordBytes(words + [n]) == WordBytes(words) + BigEndian32(n)
    ensures |WordBytes(words)| == 4 * |words|
  {
    if words == [] {
      assert [n][1..] == [] && [] + [n] == [n];
    } else {
      assert (words + [n])[1..] == words[1..] + [n];
      WordBytesPush(words[1..], n);
    }
  }

  // ---- a path as text is read back ----

  /** Digits go into the index under way, as long as something follows them. */
  lemma {:induction false} DigitsRead(digits: string, rest: string, tmp: string, hard: bool)
    requires Digits(digits) && Digits(tmp) && rest != ""
    ensures ReadWords(digits + rest, tmp, hard) == ReadWords(rest, tmp + digits, hard)
    decreases |digits|
  {
    if digits == "" {
      assert digits + rest == rest && tmp + digits == tmp;
    } else {
      assert (digits + rest)[1..] == digits[1..] + rest;
      DigitsRead(digits[1..], rest, tmp + [digits[0]], hard);
      assert tmp + [digits[0]] + digits[1..] == tmp + digits;
    }
  }

  /** An apostrophe, or none, and the end of the level. */
  lemma EndOfLevel(tmp: string, hardened: bool, hard: bool, rest: string)
    requires Digits(tmp)
    ensures ReadWords((if hardened then "'" else "") + "/" + rest, tmp, hard) ==
            match LexicalCast(tmp)
            case None => None
            case Some(n) => Prepend([Word(n, hard || hardened)], ReadWords(rest, "", false))
  {
    assert ("/" + rest)[1..] == rest;
    if hardened {
      assert ("'" + "/" + rest)[1..] == "/" + rest;
    } else {
      assert "" + "/" + rest == "/" + rest;
    }
  }

  lemma LastCharacter(c: char, tmp: string, hard: bool)
    requires Digits(tmp) && (IsDigit(c) || c == '\'')
    ensures var all := if IsDigit(c) then tmp + [c] else tmp;
            ReadWords([c], tmp, hard) == match LexicalCast(all)
                                         case None => None
                                         case Some(n) => Some([Word(n, hard || c == '\'')])
  {
    hide LexicalCast, Word;
    ReadStep([c], 0, tmp, hard);
    assert [c][0..] == [c] && [c][1..] == "";
    assert ReadWords("", "", false) == Some([]);
    assert forall w: nat :: [w] + [] == [w];
  }

  lemma LastLevel(level: Level, hard: bool)
    ensures ReadWords(LevelText(level), "", hard) ==
            if level.index < UINT32 then Some([Word(level.index, hard || level.hardened)]) else None
  {
    hide ReadWords, Numeral, Word, LexicalCast;
    var digits := Numeral(level.index);
    CastOfNumeral(level.index);
    if level.hardened {
      DigitsRead(digits, "'", "", hard);
      assert "" + digits == digits;
      LastCharacter('\'', digits, hard);
    } else {
      var front, last := digits[..|digits| - 1], digits[|digits| - 1];
      assert front + [last] == digits == LevelText(level) && "" + front == front;
      DigitsRead(front, [last], "", hard);
      LastCharacter(last, front, hard);
    }
  }

  /** The words of a path whose first level also counts as hardened if the variable was set. */
  function WordsFrom(path: seq<Level>, hard: bool): seq<nat>
  {
    if path == [] then [] else [Word(path[0].index, hard || path[0].hardened)] + Words(path[1..])
  }

  /** The text of a path is read level by level, and refused where an index does not fit. */
  lemma {:induction false} PathRead(path: seq<Level>, hard: bool)
    ensures ReadWords(PathText(path), "", hard) == if IndexesFit(path) then Some(WordsFrom(path, hard)) else None
    decreases |path|
  {
    hide ReadWords, LevelText, Word;
    if path == [] {
      assert IndexesFit(path) && ReadWords("", "", hard) == Some([]) by { NoText(hard); }
    } else if |path| == 1 {
      LastLevel(path[0], hard);
      FitsFrom(path);
      assert IndexesFit(path[1..]);
      assert WordsFrom(path, hard) == [Word(path[0].index, hard || path[0].hardened)];
    } else {
      PathRead(path[1..], false);
      LevelRead(path[0], PathText(path[1..]), hard);
      FitsFrom(path);
      assert Words(path[1..]) == WordsFrom(path[1..], false);
    }
  }

  lemma NoText(hard: bool)
    ensures ReadWords("", "", hard) == Some([])
  {
  }

  lemma FitsFrom(path: seq<Level>)
    requires path != []
    ensures IndexesFit(path) <==> path[0].index < UINT32 && IndexesFit(path[1..])
  {
    assert forall i | 0 < i < |path| :: path[i] == path[1..][i - 1];
  }

  lemma LevelRead(level: Level, rest: string, hard: bool)
    ensures ReadWords(LevelText(level) + "/" + rest, "", hard) ==
            if level.index >= UINT32 then None
            else Prepend([Word(level.index, hard || level.hardened)], ReadWords(rest, "", false))
  {
    hide ReadWords, Numeral, LexicalCast, Word, Prepend;
    var digits := Numeral(level.index);
    var end := (if level.hardened then "'" else "") + "/" + rest;
    assert LevelText(level) + "/" + rest == digits + end;
    DigitsRead(digits, end, "", hard);
    assert "" + digits == digits;
    CastOfNumeral(level.index);
    EndOfLevel(digits, level.hardened, hard, rest);
  }

  /** A level without a digit is refused. */
  lemma NoIndex(rest: string, hard: bool)
    ensures ReadWords("/" + rest, "", hard) == None
    ensures ReadWords("'/" + rest, "", hard) == None
    ensures ReadWords("'", "", hard) == None
  {
    assert ("'/" + rest)[1..] == "/" + rest;
  }

  lemma CastOfNumeral(n: nat)
    ensures LexicalCast(Numeral(n)) == if n < UINT32 then Some(n) else None
  {
    NumeralValue(n);
  }

  /** The first level is hardened, if the uninitialised variable happens to hold true. */
  predicate FirstLevelKept(path: seq<Level>, isHardened: bool)
  {
    path == [] || path[0].hardened || !isHardened
  }

  /** A path in full is refused exactly when an index does not fit, and otherwise comes back as
      its bytes exactly when its first level is not changed by the uninitialised variable. */
  method ReadPath(path: seq<Level>, isHardened: bool) returns (ret: Option<Bytes>)
    ensures ret.Some? <==> IndexesFit(path)
    ensures ret.Some? ==> |ret.value| == 1 + 4 * |path|
    ensures ret == Some(PathBytes(path)) <==> IndexesFit(path) && FirstLevelKept(path, isHardened)
  {
    hide ReadWords, PathText, WordBytes, IndexesFit;
    ret := ParsePath("m/" + PathText(path), isHardened);
    assert WithoutRoot("m/" + PathText(path)) == PathText(path);
    PathRead(path, isHardened);
    ghost var a, b := Words(path), WordsFrom(path, isHardened);
    WordBytesPush(b, 0);
    assert a == WordsFrom(path, false);
    if path != [] {
      FirstWord(a, b);
    }
    ghost var count: Bytes := [|path| % 256];
    SameBehind(count, WordBytes(a), WordBytes(b));
  }

  lemma SameBehind(front: Bytes, a: Bytes, b: Bytes)
    ensures front + a == front + b <==> a == b
  {
    assert (front + a)[|front|..] == a && (front + b)[|front|..] == b;
  }

  lemma FirstWord(a: seq<nat>, b: seq<nat>)
    requires a != [] && b != [] && a[1..] == b[1..] && a[0] < UINT32 && b[0] < UINT32
    ensures |a| == |b| && (WordBytes(a) == WordBytes(b) <==> a[0] == b[0])
  {
    hide BigEndian32;
    var rest := WordBytes(a[1..]);
    assert WordBytes(a) == BigEndian32(a[0]) + rest && WordBytes(b) == BigEndian32(b[0]) + rest;
    FourBytes(a[0], rest);
    FourBytes(b[0], rest);
    if WordBytes(a) == WordBytes(b) {
      SameWord(a[0], b[0]);
    }
    assert a == [a[0]] + a[1..] && b == [b[0]] + b[1..];
  }

  lemma FourBytes(n: nat, rest: Bytes)
    ensures |BigEndian32(n)| == 4 && |BigEndian32(n) + rest| >= 4 && (BigEndian32(n) + rest)[..4] == BigEndian32(n)
  {
  }

  lemma SameWord(m: nat, n: nat)
    requires m < UINT32 && n < UINT32 && BigEndian32(m) == BigEndian32(n)
    ensures m == n
  {
    WordBack(m);
    WordBack(n);
    assert BigEndian32(m)[0] == BigEndian32(n)[0] && BigEndian32(m)[1] == BigEndian32(n)[1];
    assert BigEndian32(m)[2] == BigEndian32(n)[2] && BigEndian32(m)[3] == BigEndian32(n)[3];
  }

  lemma WordBack(n: nat)
    requires n < UINT32
    ensures var b := BigEndian32(n);
            n == ((b[0] as int * 0x100 + b[1] as int) * 0x100 + b[2] as int) * 0x100 + b[3] as int
  {
    var x, y := n / 0x100, n / 0x1_0000;
    assert x / 0x100 == y && y / 0x100 == n / 0x100_0000 < 0x100;
  }

  /** The bytes of a path: the number of its levels, and behind it each index in four bytes,
      highest first, raised by 2^31 where it is hardened. */
  lemma PathBytesAt(path: seq<Level>, i: nat)
    requires i < |path| && path[i].index < if path[i].hardened then 0x8000_0000 else 0x1_0000_0000
    ensures |PathBytes(path)| == 1 + 4 * |path| && PathBytes(path)[0] as int == |path| % 256
    ensures FromBigEndian(PathBytes(path)[1 + 4 * i..5 + 4 * i]) ==
            path[i].index + if path[i].hardened then 0x8000_0000 else 0
  {
    hide WordBytes, BigEndian32, FromBigEndian;
    var words := Words(path);
    PathBytesLength(path);
    WordBytesAt(words, i);
    assert PathBytes(path)[1 + 4 * i..5 + 4 * i] == WordBytes(words)[4 * i..4 * i + 4];
    WordExact(path[i].index, path[i].hardened);
    WordRead(words[i]);
  }

  lemma {:induction false} WordBytesAt(words: seq<nat>, i: nat)
    requires i < |words|
    ensures |WordBytes(words)| == 4 * |words| && WordBytes(words)[4 * i..4 * i + 4] == BigEndian32(words[i])
  {
    hide BigEndian32;
    WordBytesPush(words, 0);
    var rest := WordBytes(words[1..]);
    FourBytes(words[0], rest);
    if i > 0 {
      WordBytesAt(words[1..], i - 1);
      BehindFour(BigEndian32(words[0]), rest, 4 * i - 4);
    }
  }

  lemma BehindFour(front: Bytes, rest: Bytes, at: nat)
    requires |front| == 4 && at + 4 <= |rest|
    ensures (front + rest)[at + 4..at + 8] == rest[at..at + 4]
  {
  }

  lemma WordRead(n: nat)
    requires n < UINT32
    ensures FromBigEndian(BigEndian32(n)) == n
  {
    WordBack(n);
    var b := BigEndian32(n);
    FromBigEndianPush([], b[0]);
    FromBigEndianPush([] + [b[0]], b[1]);
    FromBigEndianPush([] + [b[0]] + [b[1]], b[2]);
    FromBigEndianPush([] + [b[0]] + [b[1]] + [b[2]], b[3]);
    assert b == [] + [b[0]] + [b[1]] + [b[2]] + [b[3]];
  }

  // ---- a transaction on its way to the device ----

  lemma PreimageEncodable(t: Tx)
    requires t.kind != NullTransaction && t.chainId.Some? && |t.data| < DATA_LIMIT
    ensures Encodable(Preimage(t, true)) && Preimage(t, true) == List(AsData(Strings(t, false, true)))
  {
    hide Encodable, BigEndian;
    var w := Wire(t.nonce, t.gasPrice, t.gas, if t.kind == MessageCall then t.receiveAddress else [], t.value, t.data,
                  t.chainId.value % UNSIGNED_LIMIT, 0, 0);
    WireEncodable(w);
    assert BigEndian(0) == [];
    assert WireStrings(w) == Strings(t, false, true);
  }

  /** The device gets the path and the very bytes that are hashed for signing, exactly when the
      path has at most twelve levels and its first one is read as it stands. */
  method SendToSign(t: TransactionBase, path: seq<Level>, isHardened: bool) returns (buffers: Option<seq<Bytes>>)
    requires t.kind != NullTransaction && t.chainId.Some? && |t.data| < DATA_LIMIT
    ensures buffers.Some? <==> IndexesFit(path)
    ensures buffers.Some? ==>
              (Deliver(buffers.value) == Some(PathBytes(path) + Encode(Preimage(t.Fields(), true)))
               <==> |path| <= 12 && FirstLevelKept(path, isHardened))
  {
    hide Encode, Encodable, Strings, Deliver, PathBytes, Preimage, Words, WordBytes, IndexesFit;
    ghost var preimage := Preimage(t.Fields(), true);
    var bip32 := ReadPath(path, isHardened);
    if bip32 == None {
      return None;
    }
    PreimageEncodable(t.Fields());
    var s := new RlpStream();
    assert [] + Encode(preimage) == Encode(preimage);
    var _ := t.StreamRlp(s, false, true);
    var rlp := s.Out();
    PathBytesLength(path);
    ArrivesAs(bip32.value, PathBytes(path), rlp.value);
    var sent := EncodeSignEthMessage(bip32.value, rlp.value);
    buffers := Some(sent);
  }

  lemma PathBytesLength(path: seq<Level>)
    ensures |PathBytes(path)| == 1 + 4 * |path|
  {
    WordBytesPush(Words(path), 0);
  }

  /** Of two paths equally long, the one sent can only arrive as the other if they are the same. */
  lemma ArrivesAs(bip32: Bytes, path: Bytes, rlp: Bytes)
    requires |bip32| == |path|
    ensures (if |bip32| < 150 then Some(PathSent(bip32) + rlp) else None) == Some(path + rlp)
       <==> |bip32| <= 52 && bip32 == path
  {
    ArrivesWhole(bip32, rlp);
    if |bip32| <= FIRST {
      assert PathSent(bip32) == bip32;
      assert (bip32 + rlp)[..|path|] == bip32 && (path + rlp)[..|path|] == path;
    } else if |bip32| < PAYLOAD {
      assert |PathSent(bip32) + rlp| < |path + rlp|;
    }
  }
}
