# A verified model of the wallet's trie stack and its neighbours

A Dafny model of the code that decides what a block's tries, transactions and prompts mean in
this wallet, with proofs. `dafny verify dfyconfig.toml` checks all of it.

**RLP.** `Rlp` is the recursive encoding (Appendix B of the Ethereum Yellow Paper), `RlpStream`
the writer that inserts list headers in front of finished payloads, `RlpReader` and `RlpView`
the lazy reader with its cursor cache. The writer refines the recursive encoding through every
cascade of headers; the reader accepts exactly the writer's image.

**Nibbles.** `HexPrefix` holds the hex-prefix code (Appendix C), its three encoders and its
decoder.

**The trie.** `Trie` is the meaning of a trie (Appendix D): a tree of leaves, extensions and
branches, lookup, insertion, deletion, the canonical form, and the theorem that a map has one
canonical tree. `TrieNode` gives a tree its nodes, references and reference counts;
`StateCacheDB` is the counted store; `TrieDB` is the incremental trie, a class whose methods
edit the store one node at a time (`TrieEdit` holds what the edits do to counts and stored
nodes). `TrieBuild` and `TrieHash` are the batch construction over a sorted map. `TrieMap` ties
trees to maps of byte strings, `TrieRun` runs operations: after any run the count of every
hash is its number of occurrences in the tree, the store check succeeds, and the root is the
one the batch construction gives for the resulting map, whatever the order of the operations.
`TrieWalk` and `TrieIterator` are the iterator, from `begin` and from `lower_bound`.

**Around it.** `Transaction` is the signed-transaction codec of EIP-155 on the RLP layer.
`LedgerFraming` and `LedgerPath` carry the signing preimage to a hardware wallet in USB buffers
and put it together again. `PromptProtocol` is the lock protocol of the websocket server, a
transition system with any number of requests. `Pangolin` is the swap arithmetic in wrapping
256-bit values. `FixedPoint` (with `Decimal`) and `Base64` are two string codecs.

## How to read it

- The hash function is a parameter, `Hasher`. Nothing is known of it but the width of its
  results; `NoCollision` says that it keeps apart the byte strings in `seen`, a finite set that
  holds exactly what a run has hashed (`RunSeen`). No hash keeps all strings apart, so no
  theorem asks for that.
- `Valid` of `TrieDB` is the invariant of the whole store: the tree is canonical, the root and
  every referenced node are stored under their hashes, and for every hash the count is the
  number of its occurrences as root or as a reference in the expanded tree.
- `Fits`, `KEY_LIMIT` and `VALUE_LIMIT` are the sizes the code can count: keys below 2^30 bytes
  (nibbles are counted in `int`), values below 2^63 bytes. `Encodable` is the reader's bound on
  a payload. Values are not empty, because the code equates an empty value with an absent one.
- Everything is proved for keys of any lengths, prefixes of each other or not. Where removal
  fails is stated exactly, on trees (`Fails`) and on maps (`RemovalFails`).
- Removal takes some values for references. `Apart` says that a value stored under a proper
  prefix of the key to remove is not, read as a hash, the hash of something hashed before.
  Among keys of one length it says nothing.
- Assertions are not steps of the model: they are compiled out in release builds. The null
  node below a leaf fails an assertion where they are compiled in.
- A `NibbleSlice` is the sequence of the nibbles it shows; its size is an `unsigned`, so a key
  of 2^31 bytes and more shows only the remainder (`Counted`).
- A method of `TrieDB` returns the item whose encoding the program returns as bytes; the stream
  theorems and `DecodeBlob` are what makes the two the same. A long function of the program,
  such as `mergeAt`, is sometimes several methods here, one for each branch; each says which.
- The iteration step without a key performs the steps of the one with a key where the key is
  empty, so `Next` is modelled once, with the key.
- Where code and specification share a function, such as the header of a buffer or the key of an
  index, a lemma says in literals what it gives: `HexEncodeBytes`, `EncodeBytes`, `FrontBytes`,
  `IndexMapFiles`, `AcceptedFields`, `PromptFits`, `HeaderInSequence`, `TheLetters` and others.
- A mutex that the interface unlocks for a waiting thread is a binary semaphore.

## Where the code falls short

- A permission prompt is shown before its thread locks the answer mutex (lines 122 to 124 of
  QmlServer.cpp; the other two prompts lock first). An answer unlocked in between is lost, and
  the thread hangs with the locks that every other request for permission needs. All requests
  finish exactly when this does not happen: `FinishesIffPatient`, `EarlyAnswerHangs`.
- `rawV` keeps 2c + 35 in an `int`, and a chain id alone goes through the stream's `unsigned`.
  So a signed transaction comes back, and accepted bytes are rewritten, exactly within the
  widths stated in `FieldsRoundTrip` and `WireRoundTrip`; chain id 0 is never accepted
  beside a signature that is not zero.
- A derivation path of more than twelve levels does not fit the first message and is cut off:
  `ArrivesWhole`, `SendToSign`. The flag for a hardened level starts uninitialised: `ReadPath`.
- `remove` fails for keys of different lengths in three ways (`FaultIff`, `FailingRemovals`).
  It descends through a leaf whose key is a prefix of the one looked for, taking the value for
  a hash. It reads the nibble behind the key at a branch without a value, where the model
  stops. And where only the value of a branch is left it takes that value for a hash too, and
  throws when it is longer than 32 bytes: by then it has given up nodes that are still needed
  (`LostWhenStored`), and a later purge may erase them. The check does not notice:
  `CheckAfterFailure`.
- `operator[]` of a list throws for a good item after a later, damaged one has been asked for:
  `At`, `FirstAfterSecond`.
- Iterating a list that is not exactly its data, which the constructor lets pass when it is
  not strict, never comes to an end unless an item throws: `IterationEnds`.
- A hardened index of 2^31 or more wraps around and is sent as one that is not: `WordExact`.
- `fixedPointToWei` copies a second point into its result: `FixedPointToWei`.

## Model

| member | source | states |
|---|---|---|
| Bytes.BigEndianRoundTrip | src/lib/devcore/CommonData.h:107-127 | Reading the minimal big-endian form of a number gives the number back. |
| Bytes.BigEndianCanonical | src/lib/devcore/CommonData.h:136-146 | Every byte string without a leading zero is the minimal form of the number it denotes. |
| Bytes.BigEndianDigits | src/lib/devcore/CommonData.h:107-117 | The byte of the minimal form with i bytes behind it is n / 256^i modulo 256. |
| Bytes.Widths | src/lib/devcore/RLP.cpp:186-195 | The bounds of size_t and of 256-bit numbers are 256^8 and 256^32. |
| Bytes.BytesRequired | src/lib/devcore/CommonData.h:196-202 | The shift loop counts the bytes of the minimal form. |
| Bytes.ReadBigEndian | src/lib/devcore/CommonData.h:121-127 | The accumulation loop computes the number the bytes denote. |
| Rlp.EncodeBytes | src/lib/devcore/RLP.cpp:260-299 | The encoding byte by byte: a small byte as itself, up to 55 bytes behind 0x80 or 0xc0 plus their number, more behind 0xb7 or 0xf7 plus the size of their number and that number. |
| RlpReader.FrontBytes | src/lib/devcore/RLP.cpp:92-197 | The size of the item at the front of any bytes, or the exception, told by those bytes. |
| RlpReader.WholeBytes | src/lib/devcore/RLP.cpp:143-197 | The payload of a whole item is what lies behind the bytes that say its size. |
| RlpReader.PayloadThrows | src/lib/devcore/RLP.h:304-304 | When a payload cannot be had, and with which exception. |
| RlpReader.EmptyItem | src/lib/devcore/RLP.h:85-85 | A whole item is empty exactly when its payload is. |
| RlpReader.WholeOrNot | src/lib/devcore/RLP.cpp:23-39 | A very strict view throws for more or fewer bytes than the item has, each with its own exception. |
| RlpReader.DecodeEncode | src/lib/devcore/RLP.cpp:92-212 | Every encoding within the size_t bound is accepted by the lazy reader and read back to its tree. |
| RlpReader.EncodeDecode | src/lib/devcore/RLP.cpp:92-212 | Bytes whose items can all be walked without an exception are the encoding of the tree that was read. |
| RlpReader.ReaderAcceptsWriterImage | src/lib/devcore/RLP.cpp:143-197 | The reader accepts exactly the image of the recursive encoding, each encoding for one tree. |
| RlpReader.EncodingsPrefixFree | src/lib/devcore/RLP.cpp:143-197 | No encoding is a proper prefix of another. |
| RlpReader.SplitEncodings | src/lib/devcore/RLP.cpp:199-212 | The left-to-right split of a list payload finds the encodings of the items, in order. |
| RlpReader.ItemCountOf | src/lib/devcore/RLP.h:96-97 | A written list has as many items as went into it, a string none. |
| RlpView.View.At | src/lib/devcore/RLP.cpp:69-90 | Whatever indices were asked before, the cached subscript answers (or throws) as the plain walk from the left, but for two cases, both stated: an unused cache asked for its own mark is null, and after an exception on the way the last readable index throws as well.
| RlpView.View.LastReadable | src/lib/devcore/RLP.cpp:78-88 | After such an exception the cache keeps the index behind which every other throws, and that one can be read by walking. |
| RlpView.FirstAfterSecond | src/lib/devcore/RLP.cpp:69-90 | The strict list 0xc2 0x01 0x81: its first item is read, then its second throws, then the first throws too. | |
| RlpView.NthOfSplit | src/lib/devcore/RLP.cpp:69-90 | Item i found by walking is item i of the split. |
| RlpView.NthOfEncoding | src/lib/devcore/RLP.cpp:69-90 | On what the writer wrote, item i is the encoding of item i of the tree. |
| RlpView.Items | src/lib/devcore/RLP.cpp:201-212 | The counting loop returns the number of items of the split, or its exception. |
| RlpView.Iterate | src/lib/devcore/RLP.cpp:41-67 | The list iterator, with the addresses its comparison looks at, visits exactly the split of a list, throws as the split does, and gives nothing for anything else.
| RlpView.IterationEnds | src/lib/devcore/RLP.cpp:41-67 | Stepping from begin meets the end or throws at some point exactly for these data; on others, such as 0xc1 and 0xc0 0x00, it never does. |
| RlpView.NextWalks | src/lib/devcore/RLP.cpp:41-52 | One step of the iterator is one step of the split. | |
| RlpStream.StreamAppendsEncoding | src/lib/devcore/RLP.cpp:214-299 | Streaming any tree in pre-order appends its recursive encoding as one item, whatever lists are open around it, through every cascade of in-place headers. |
| RlpStream.StreamRefinesEncode | src/lib/devcore/RLP.cpp:214-333 | From a new stream, a whole tree leaves no list open and exactly its encoding in the buffer. |
| RlpStream.NextItem | src/lib/devcore/RLP.cpp:221-258 | Items appended one by one, by whatever call, make up the list; an exception on the way is the exception of the whole. |
| RlpStream.NoteOneByOne | src/lib/devcore/RLP.cpp:221-258 | Items noted together are items noted one by one; more than the innermost list waits for throw. |
| RlpStream.RlpStream.NoteAppended | src/lib/devcore/RLP.cpp:221-258 | The loop over the stack of open lists leaves buffer and stack as the specification of one completed item says, exceptions included. |
| RlpStream.RlpStream.InsertListHeader | src/lib/devcore/RLP.cpp:237-252 | The shift and the bytes written into the gap put the list header in front of the payload. |
| RlpStream.RlpStream.AppendRaw | src/lib/devcore/RLP.cpp:214-219 | Raw items are appended and counted. |
| RlpStream.RlpStream.AppendList | src/lib/devcore/RLP.cpp:260-268 | A list of n items is announced; an empty list is written at once. |
| RlpStream.RlpStream.AppendData | src/lib/devcore/RLP.cpp:280-299 | A string is appended as the encoding of a string, less its leading zeros when compact. |
| RlpStream.MinimalForm | src/lib/devcore/RLP.cpp:280-286 | A string less its leading zeros is the minimal form of its number. |
| RlpStream.RlpStream.AppendInt | src/lib/devcore/RLP.cpp:301-324 | A number is appended as the encoding of its minimal big-endian form. |
| RlpStream.RlpStream.PushInt | src/lib/devcore/RLP.h:433-440 | Writing backwards from the end of the grown buffer leaves the minimal form of the number. |
| RlpStream.RlpStream.PushCount | src/lib/devcore/RLP.cpp:326-333 | The count goes behind its own byte count, and throws exactly from 2^64 on. |
| RlpStream.RlpStream.PushString | src/lib/devcore/RLP.cpp:287-296 | A string goes in as its encoding, one small byte as itself, and throws exactly from 2^64 bytes on. |
| RlpStream.RlpStream.Out | src/lib/devcore/RLP.h:418-418 | The buffer, or an exception while a list is open. |
| HexPrefix.RoundTrip | src/lib/devcore/TrieCommon.h:80-100 | Decoding recovers the nibbles and the leaf flag, for odd and even lengths. |
| HexPrefix.Injective | src/lib/devcore/TrieCommon.h:80-100 | Different keys or kinds of node never share an encoding. |
| HexPrefix.HexEncodeBytes | src/lib/devcore/TrieCommon.cpp:29-97 | The encoding byte by byte: 2 for a leaf and 1 for an odd number of nibbles in the upper half of the first byte, an odd first nibble in its lower half, then two nibbles to a byte. |
| HexPrefix.FlagBits | src/lib/devcore/TrieCommon.h:80-96 | Leaf flag and parity are bits 0x20 and 0x10 of the first byte of any key, well formed or not. |
| HexPrefix.NibblesOfByte | src/lib/devcore/TrieCommon.h:14-17 | Each byte of a key gives its upper, then its lower half. |
| HexPrefix.CountedSize | src/lib/devcore/TrieCommon.h:43-43 | What is counted of a key has 2 nibbles a byte modulo 2^32, and is all of a key below 2^31 bytes. |
| HexPrefix.EncodeVector | src/lib/devcore/TrieCommon.cpp:29-44 | The encoder of one nibble per element gives the encoding of the window it was asked for. |
| HexPrefix.EncodeSlice | src/lib/devcore/TrieCommon.cpp:46-65 | The encoder of one slice gives the encoding of its window, counted from the offset. |
| HexPrefix.EncodeTwo | src/lib/devcore/TrieCommon.cpp:67-97 | The encoder of two slices gives the encoding of the first followed by the second, so all three agree. |
| HexPrefix.SharedNibbles | src/lib/devcore/TrieCommon.h:21-31 | The loop over two windows of nibbles returns the length of their longest common prefix, which is what the tree edits take it to be.
| HexPrefix.EncodeKey | src/lib/devcore/TrieCommon.h:107-110 | The encoder applied to the key of a node, cut at either side, gives the encoding of those nibbles. |
| HexPrefix.EncodeKeys | src/lib/devcore/TrieCommon.h:112-115 | Applied to the keys of two nodes it gives the encoding of one behind the other. | |
| Trie.GetInsert | src/lib/devcore/TrieDB.h:798-887 | Insertion maps the key to the value and leaves every other key as it was, for keys of any lengths. |
| Trie.InsertCanon | src/lib/devcore/TrieDB.h:798-887 | Insertion keeps the canonical form: no extension above a two-item node, no empty extension key, every branch with two slots in use. |
| Trie.GetDelete | src/lib/devcore/TrieDB.h:912-1014 | Deletion removes the key and leaves every other key as it was. |
| Trie.DeleteCanon | src/lib/devcore/TrieDB.h:912-1014 | Deletion, with its merges and grafts, keeps the canonical form, and a branch never vanishes. |
| Trie.DeleteAbsent | src/lib/devcore/TrieDB.h:912-1014 | Deleting an absent key leaves the tree as it is. |
| Trie.FaultIff | src/lib/devcore/TrieDB.h:912-1031 | Removal fails exactly when a stored key is a proper prefix of the one to remove and no other stored key extends it; or that key is absent and two stored keys part right behind it; or it is the only key that extends one whose value is longer than 32 bytes. |
| Trie.PrefixFreeNoFault | src/lib/devcore/TrieDB.h:912-1031 | Where no key is a prefix of another it never fails. |
| Trie.SameLengthPrefixFree | src/lib/devcore/TrieDB.h:311-315 | Keys of one length, as the typed views use them, are such keys. |
| Trie.PrefixFreeNoValues | src/lib/devcore/TrieHash.cpp:42-63 | In a canonical tree of prefix-free keys no branch has a value of its own. |
| Trie.CanonicalUnique | src/lib/devcore/TrieDB.h:798-1014 | Two canonical trees that map all keys alike are the same tree. |
| TrieNode.DecodeBlob | src/lib/devcore/TrieDB.h:907-910 | The bytes of a node read back as its item. |
| TrieNode.StoredPurged | src/lib/devcore/StateCacheDB.cpp:123-141 | A tree all of whose references are counted survives a purge. |
| TrieNode.FitsInsert | src/lib/devcore/TrieDB.h:798-887 | Insertion keeps keys and values within the sizes the code can count. |
| StateCacheDB.StateCacheDB.Insert | src/lib/devcore/StateCacheDB.cpp:65-78 | The bytes are stored and the count of the hash grows by one; no other entry changes. |
| StateCacheDB.StateCacheDB.Kill | src/lib/devcore/StateCacheDB.cpp:80-94 | A positive count falls by one and the bytes stay; a count of zero, or no entry, is left alone and reported. |
| StateCacheDB.StateCacheDB.Purge | src/lib/devcore/StateCacheDB.cpp:123-141 | Exactly the entries with count zero go. |
| StateCacheDB.StateCacheDB.Keys | src/lib/devcore/StateCacheDB.cpp:143-153 | Exactly the hashes with a positive count. |
| StateCacheDB.StateCacheDB.LookupNode | src/lib/devcore/StateCacheDB.cpp:38-52 | The bytes under a hash, whatever its count, or nothing. |
| TrieDB.TrieDB.SetRoot | src/lib/devcore/TrieDB.h:53-64 | Opening a root under which the store holds a tree makes that tree the trie, with the whole invariant and an unchanged store; the empty trie is created exactly when it has no entry; any other root without bytes throws. |
| TrieDB.TrieDB.Init | src/lib/devcore/TrieDB.h:51-51 | The empty trie becomes the root and is counted once more; in an empty store the whole invariant then holds. |
| TrieDB.TrieDB.ForceInsertNode | src/lib/devcore/TrieDB.h:273-274 | The bytes are stored under their hash and counted once more; nothing stored is lost and no two nodes share a hash. |
| TrieDB.TrieDB.ForceKillNode | src/lib/devcore/TrieDB.h:275-275 | A positive count falls by one and nothing else changes. |
| TrieDB.TrieDB.KillNode | src/lib/devcore/TrieDB.h:281-282 | Only a node of 32 bytes or more has its count taken down. |
| TrieDB.TrieDB.Node | src/lib/devcore/TrieDB.h:270-270 | The node read under a hash is the node of the tree stored there. |
| TrieDB.TrieDB.StreamNode | src/lib/devcore/TrieDB.h:1068-1075 | What the parent writes is the reference of the node; a long node is stored and counted once. |
| TrieDB.TrieDB.Place | src/lib/devcore/TrieDB.h:1033-1051 | The value goes into a leaf, an empty place or a branch; the old node is released. |
| TrieDB.TrieDB.Cleve | src/lib/devcore/TrieDB.h:1077-1092 | A two-item node is cut in two, with the same content and every count as the new nodes need it. |
| TrieDB.TrieDB.MakeBranch | src/lib/devcore/TrieDB.h:1132-1160 | A two-item node is spread over sixteen slots, with the same content and counts. |
| TrieDB.TrieDB.MergeAt | src/lib/devcore/TrieDB.h:798-868 | The item returned is the node of the tree after insertion, its parts are stored, and the counts move by exactly the difference of the two trees; the recursion through cleve and branch ends. |
| TrieDB.TrieDB.MergeCleved | src/lib/devcore/TrieDB.h:830-837 | Cutting where the keys part and entering again with the same key gives the node after insertion. |
| TrieDB.TrieDB.MergeBranched | src/lib/devcore/TrieDB.h:838-843 | So does branching where they share nothing. |
| TrieDB.TrieDB.MergeIntoChild | src/lib/devcore/TrieDB.h:819-828 | Going down through an extension replaces the reference to its child. |
| TrieDB.TrieDB.MergeIntoKid | src/lib/devcore/TrieDB.h:845-866 | Going down through a branch replaces one of its references. |
| TrieDB.TrieDB.MergeAtAux | src/lib/devcore/TrieDB.h:870-887 | Below a reference, the new reference is that of the tree after insertion, and the counts move by the difference. |
| TrieDB.TrieDB.ReplaceRoot | src/lib/devcore/TrieDB.h:748-753 | The old root is given up once, by the edit or here, and the new one stored: the whole invariant holds again. |
| TrieDB.TrieDB.Insert | src/lib/devcore/TrieDB.h:742-754 | The whole invariant is kept (root, stored nodes, and for every hash a count equal to its occurrences in the tree), and the tree is the tree after insertion, for keys of any lengths. |
| TrieDB.TrieDB.Graft | src/lib/devcore/TrieDB.h:1094-1115 | An extension above a two-item node becomes one node, and the node below is released. |
| TrieDB.TrieDB.Merge | src/lib/devcore/TrieDB.h:1117-1130 | A branch with one slot in use becomes a two-item node: an extension to the child, or a leaf with the empty key. |
| TrieDB.TrieDB.IsTwoItemNode | src/lib/devcore/TrieDB.h:901-905 | True exactly when the node behind the reference is a leaf or an extension.
| TrieDB.TrieDB.IsTwoItemValue | src/lib/devcore/TrieDB.h:901-905 | Asked of the value of a branch, it throws exactly for more than 32 bytes and is false otherwise. | |
| TrieDB.TrieDB.DeleteAt | src/lib/devcore/TrieDB.h:912-1014 | What is returned is the node of the tree after deletion, or nothing when the key is absent, with the counts moved by exactly the difference; it throws exactly where deletion fails, and then the counts have lost exactly what was given up on the way.
| TrieDB.TrieDB.DeleteBelowValue | src/lib/devcore/TrieDB.h:935-939 | Below a leaf whose key goes on the value is read as a hash, and the exception is that of a value too long or of the null node. | |
| TrieDB.TrieDB.DeleteFromChild | src/lib/devcore/TrieDB.h:935-951 | Deletion through an extension, joined to its child when that became a two-item node; an exception below comes through. |
| TrieDB.TrieDB.DeleteValue | src/lib/devcore/TrieDB.h:956-979 | Deletion of a branch's own value, with the branch done away when one slot is left. |
| TrieDB.TrieDB.DeleteFromKid | src/lib/devcore/TrieDB.h:980-1011 | Deletion through a branch, with the exception below it or at the value it is left with. |
| TrieDB.TrieDB.Rejig | src/lib/devcore/TrieDB.h:994-1010 | Once a child is replaced, the branch is given up, and what is in its only slot takes its place: a child, or its own value, for which it throws exactly when the value is longer than a hash. |
| TrieDB.TrieDB.DeleteAtAux | src/lib/devcore/TrieDB.h:1016-1031 | Below a reference, the new reference is that of the tree after deletion, or nothing when the key is absent, or the exception. |
| TrieDB.TrieDB.Remove | src/lib/devcore/TrieDB.h:889-899 | For keys of any lengths: where deletion does not fail, the whole invariant is kept and the tree is the tree after deletion. Where it fails it throws, every key can still be read, and the invariant still holds exactly when the key was absent.
| TrieEdit.LostWhenStored | src/lib/devcore/TrieDB.h:994-1010 | A deletion that fails although the key is there has given up a reference that is still needed; one that fails for an absent key has given up nothing. | |
| TrieEdit.PaddedBytes | src/lib/devcore/RLP.h:297-300 | A string read as a hash is its bytes behind zeros. |
| TrieDB.TrieDB.At | src/lib/devcore/TrieDB.h:756-791 | The value read is the value of the key in the tree, empty when there is none, for keys of any lengths as far as the 32-bit count of nibbles sees them. |
| TrieDB.TrieDB.Deref | src/lib/devcore/TrieDB.h:907-910 | A reference gives the node it stands for. |
| TrieDB.TrieDB.AtAux | src/lib/devcore/TrieDB.h:761-791 | The descent finds the value of the key below any node. |
| TrieDB.TrieDB.PurgeStore | src/lib/devcore/StateCacheDB.cpp:123-141 | A purge between two operations keeps the whole invariant and the tree. |
| TrieDB.TrieDB.LeftOvers | src/lib/devcore/TrieDB.h:139-189 | The walk from the root never throws, and what it leaves is exactly the hashes kept alive that the tree does not refer to, on any store the tree can be read from. |
| TrieDB.TrieDB.DescendList | src/lib/devcore/TrieDB.h:162-181 | The walk below a node never throws and takes off the mask exactly the hashes the tree below refers to. |
| TrieDB.TrieDB.DescendEntry | src/lib/devcore/TrieDB.h:150-159 | The same for a reference. |
| TrieDB.TrieDB.DescendKey | src/lib/devcore/TrieDB.h:139-147 | The same for a hash and its node. |
| TrieDB.TrieDB.Check | src/lib/devcore/TrieDB.h:199-210 | On any store the tree can be read from, the check is false exactly when leftovers are forbidden and there are some; where the invariant holds it is true. |
| TrieEdit.UniqueInUse | src/lib/devcore/TrieCommon.cpp:99-111 | The loop returns the only slot in use beside the excepted one, or 255 when there is none or more than one. |
| TrieBuild.GetBuild | src/lib/devcore/TrieHash.cpp:14-66 | The batch construction maps every key to what the sorted list has under it, and no other. |
| TrieBuild.BuildCanon | src/lib/devcore/TrieHash.cpp:14-66 | It builds a canonical tree. |
| TrieBuild.BuildUnique | src/lib/devcore/TrieHash.cpp:14-66 | Any canonical tree with the same lookups is the one it builds. |
| TrieBuild.LessWhere | src/lib/devcore/TrieHash.cpp:84-92 | The order of the entries: a proper prefix comes first, otherwise the smaller element where two keys part. |
| TrieMap.PutIsUpdate | src/lib/devcore/TrieHash.cpp:86-88 | Assignment into the sorted list is update of the map, and keeps the order. |
| TrieMap.InsertRepresents | src/lib/devcore/TrieDB.h:742-754 | Insertion into the tree is update of the map it represents. |
| TrieMap.DeleteRepresents | src/lib/devcore/TrieDB.h:889-899 | Deletion from the tree is removal from the map.
| TrieMap.FailsOnMap | src/lib/devcore/TrieDB.h:912-1031 | Whether a removal fails is decided by the keys of the map and the lengths of its values, by the three conditions above read on bytes. | |
| TrieMap.OneTreePerMap | src/lib/devcore/TrieDB.h:798-1014 | One map has one canonical tree, whatever operations led there. |
| TrieMap.Widths | src/lib/devcore/TrieCommon.cpp:46-49 | The keys covered by insertion and removal have less than 2^30 bytes, the values from 1 to below 2^63. |
| TrieMap.BatchAgrees | src/lib/devcore/TrieHash.cpp:81-92 | The batch construction over any sorted list of the map gives that tree. |
| TrieHash.FindSharedPre | src/lib/devcore/TrieHash.cpp:27-35 | The loops find the least number of nibbles the first key shares with each other. |
| TrieHash.SharedUpTo | src/lib/devcore/TrieHash.cpp:31-33 | The inner loop finds where two keys part, up to a bound. |
| TrieHash.FindRunEnd | src/lib/devcore/TrieHash.cpp:51-52 | The loop ends the run of one next nibble. |
| TrieHash.Hash256Rlp | src/lib/devcore/TrieHash.cpp:14-66 | What is streamed is the node of the tree built from the entries, as one item, whatever is open around it. |
| TrieHash.Hash256Branch | src/lib/devcore/TrieHash.cpp:42-64 | The seventeen entries streamed are those of the branch of the tree. |
| TrieHash.Hash256Aux | src/lib/devcore/TrieHash.cpp:68-79 | A node of less than 32 bytes goes in place, a longer one by its hash. |
| TrieHash.Rlp256 | src/lib/devcore/TrieHash.cpp:81-92 | The bytes are those of the root node of the tree of the map. |
| TrieHash.ToHexMap | src/lib/devcore/TrieHash.cpp:86-88 | The loop files the same entries under their nibbles, in the same order. |
| TrieHash.Hash256 | src/lib/devcore/TrieHash.cpp:94-97 | The root is the hash of the root node of the tree of the map. |
| TrieHash.OrderedTrieRoot | src/lib/devcore/TrieHash.cpp:99-106 | The root over a list is that of the map that holds each element under its index, whatever sorted entries represent that map. |
| TrieHash.IndexMapHasAll | src/lib/devcore/TrieHash.cpp:99-106 | Each element of a list survives under its own index key, and nothing else is there.
| TrieHash.IndexMapFiles | src/lib/devcore/TrieHash.cpp:99-106 | The map of a list has exactly the keys that read back as a string denoting an index j below its length, with element j under it. |
| TrieHash.OneMapFiles | src/lib/devcore/TrieHash.cpp:99-106 | No other map does. |
| TrieHash.FirstIndexes | src/lib/devcore/TrieHash.cpp:99-106 | 0x80 reads back as index 0, and the bytes 1 to 127 as their own. | |
| TrieHash.ListWidths | src/lib/devcore/TrieHash.cpp:99-106 | The lists covered have at most 2^32 elements, none empty, each below 2^63 bytes. |
| TrieHash.IndexKeysPrefixFree | src/lib/devcore/TrieHash.cpp:99-106 | Index keys are pairwise not prefixes of one another. |
| TrieHash.IndexTrieHasNoBranchValues | src/lib/devcore/TrieHash.cpp:42-63 | In the tree of a list every branch has slot 16 empty. |
| TrieRun.StepRepresents | src/lib/devcore/TrieDB.h:742-899 | One insertion, removal or purge keeps the canonical form and does to the map what it should; a removal meets a fault exactly when it is one that fails on the map. |
| TrieRun.Perform | src/lib/devcore/TrieDB.h:742-899 | One operation on the stored trie keeps the whole invariant and does to its map what it should; it throws exactly for a removal that fails, and then the map can still be read and the invariant holds exactly when the key was absent. |
| TrieRun.CheckAfterFailure | src/lib/devcore/TrieDB.h:199-210 | After a removal that failed the check still returns true, although the invariant is lost if the key was there. |
| TrieRun.Replay | src/lib/devcore/TrieDB.h:184-210 | After any run of insertions, purges and removals that do not fail, of keys of any lengths, the check succeeds, the tree represents the resulting map, and the root is that of the batch construction over any list of its entries.
| TrieRun.OpsCovered | src/lib/devcore/TrieDB.h:742-899 | The runs covered: insertions of keys below 2^30 bytes with values that are not empty and below 2^63, removals of such keys that do not fail, and purges. |
| TrieRun.FailingRemovals | src/lib/devcore/TrieDB.h:912-1031 | An input for each of the three ways to fail. |
| TrieRun.PrefixFreeNeverFails | src/lib/devcore/TrieDB.h:311-315 | Among keys none of which is a prefix of another, so among keys of one length, no removal fails and no value is taken for a hash. | |
| TrieRun.SameMapSameRoot | src/lib/devcore/TrieDB.h:742-899 | Two stored tries of one map have one root. |
| TrieRun.EmptyRoot | src/lib/devcore/TrieDB.h:51-51 | The root of the empty map is the hash of the byte 0x80. |
| TrieRun.OneEntryRoot | src/lib/devcore/TrieDB.h:742-754 | The root of one entry is the hash of a list of 0x20 with the key behind it and the value. |
| TrieRun.ForkRoot | src/lib/devcore/TrieDB.h:742-868 | The root of two entries whose keys part in the first nibble, in bytes: seventeen slots, two of them with a leaf in place if below 32 bytes and by hash otherwise. |
| TrieRun.ReadMap | src/lib/devcore/TrieDB.h:756-791 | Reading a key gives what the map has, or nothing, also after a removal that failed; of a key of 2^31 bytes and more only the remainder is looked up. |
| TrieRun.Reopen | src/lib/devcore/TrieDB.h:45-64 | A second trie opened at the root over the same store represents the same map, and the first is as it was. |
| TrieRun.TransactionsRoots | src/lib/ethcore/BlockHeader.cpp:213-234 | The root over a transaction list and the root of the trie it is inserted into one by one agree, and that trie holds each transaction under its index. |
| TrieWalk.WalkSorted | src/lib/devcore/TrieDB.h:642-730 | The walk of a tree is in strictly ascending nibble order, a branch's own value first, so no key comes twice. |
| TrieWalk.WalkHas | src/lib/devcore/TrieDB.h:642-730 | It has an entry for a key exactly when the tree has a value for it, and it is that value. |
| TrieWalk.NotBeforeIs | src/lib/devcore/TrieDB.h:513-640 | What a search drops from an ascending list is exactly what lies before the key. |
| TrieWalk.TwoItemFrom | src/lib/devcore/TrieDB.h:543-585 | At a leaf or an extension the comparison with the key searched for decides rightly between skipping the node, taking all of it and going on below. |
| TrieWalk.BranchFrom | src/lib/devcore/TrieDB.h:586-594 | At a branch a search goes on in one child, and all of the children behind it follow. |
| TrieWalk.IsEarlierThan | src/lib/devcore/TrieCommon.h:57-68 | The loop decides the order of a key and a prefix. |
| TrieIterator.Iterator.Next | src/lib/devcore/TrieDB.h:513-640 | A step comes to stand at the first entry still to come, leaves the others to come, and ends when there is none. |
| TrieIterator.Iterator.Round | src/lib/devcore/TrieDB.h:516-638 | One round stands at the next entry, or leaves the entries to come as they were with less work left. |
| TrieIterator.Iterator.EnterTwoItem | src/lib/devcore/TrieDB.h:542-582 | Entering a leaf or an extension. |
| TrieIterator.Iterator.Scan | src/lib/devcore/TrieDB.h:610-639 | The inner loop finds the next child in use, or is done with the branch. |
| TrieIterator.Iterator.Begin | src/lib/devcore/TrieDB.h:488-493 | The new iterator stands at the first entry of the whole walk. |
| TrieIterator.Iterator.LowerBound | src/lib/devcore/TrieDB.h:495-500 | It stands at the least entry that is not before the key, as far as the 32-bit count of nibbles sees it. |
| TrieIterator.Iterator.Entry | src/lib/devcore/TrieDB.h:502-511 | The bytes of the key and the value at which the iterator stands. |
| TrieIterator.All | src/lib/devcore/TrieDB.h:133-134 | Iterating from begin to end gives every entry of the map once, keys ascending. |
| TrieIterator.From | src/lib/devcore/TrieDB.h:136-136 | Iterating from the lower bound gives the entries of the map whose keys are not before the given one. |
| Transaction.IntReads | src/lib/devcore/RLP.h:253-273 | An integer field is accepted exactly in the form the writer gives it, within 256 bits. |
| Transaction.IntThrows | src/lib/devcore/RLP.h:253-273 | Any other item in its place is a bad cast. |
| Transaction.RawVExact | src/lib/ethcore/TransactionBase.cpp:137-144 | `rawV` is v + 2c + 35 exactly when that value fits an `int`. |
| Transaction.RawVLowBits | src/lib/ethcore/TransactionBase.cpp:137-144 | Otherwise its lowest 32 bits are right; without a chain id it is 27 or 28. |
| Transaction.AcceptedFields | src/lib/ethcore/TransactionBase.cpp:30-95 | Which nine fields are accepted and the transaction they make, with the cases of v written out. |
| Transaction.ValidSignature | src/lib/devcrypto/Common.cpp:54-62 | A signature is valid for a recovery id of 0 or 1 and r and s from 1 to below the order of secp256k1. |
| Transaction.FieldsRoundTrip | src/lib/ethcore/TransactionBase.cpp:30-95 | A signed transaction comes back with every field exactly when: a new contract has no recipient; beside a zero signature the chain id is below 2^32 and the recovery id is 0; beside another the recovery id is a bit, the chain id is missing or not zero and keeps `v` an `int`, and the signature is valid where that is checked. |
| Transaction.WireRoundTrip | src/lib/ethcore/TransactionBase.cpp:161-188 | What was accepted is written back as it was exactly when its `v` is below 2^31, or below 2^32 beside a zero signature. |
| Transaction.PreimageHasChain | src/lib/ethcore/TransactionBase.cpp:187-188 | The chain id in the signing preimage is the transaction's own exactly below 2^32. |
| Transaction.TransactionBase.Load | src/lib/ethcore/TransactionBase.cpp:30-95 | Bytes are accepted exactly when they are the encoding of nine fields that make a transaction, and the object then has those fields. |
| Transaction.TransactionBase.ReadFields | src/lib/ethcore/TransactionBase.cpp:38-56 | The nine fields in order, each in the writer's form, with the exception of a recipient of the wrong length. |
| Transaction.TransactionBase.ReadRecipient | src/lib/ethcore/TransactionBase.cpp:41-45 | No recipient makes a new contract, 20 bytes a message call, and any other length throws. |
| Transaction.TransactionBase.ReadSignature | src/lib/ethcore/TransactionBase.cpp:52-77 | The three cases of `v` and the signature check, with the exceptions of each. |
| Transaction.TransactionBase.StreamRlp | src/lib/ethcore/TransactionBase.cpp:161-189 | The stream gets exactly one item, the list of the fields asked for; without a signature to include it throws. |
| Transaction.TransactionBase.StreamSignature | src/lib/ethcore/TransactionBase.cpp:175-186 | The last three fields are `v`, or the chain id alone for a zero signature, then r and s. |
| Transaction.ToBytes | src/lib/ethcore/TransactionBase.cpp:161-189 | A signed transaction comes out as the encoding of its nine fields. |
| Transaction.NineInOrder | src/lib/ethcore/TransactionBase.cpp:166-186 | The nine fields and their order, written out. |
| Transaction.PreimageInOrder | src/lib/ethcore/TransactionBase.cpp:166-188 | The fields hashed for signing and their order, written out. |
| Transaction.Resend | src/lib/ethcore/TransactionBase.cpp:30-189 | Written and read again, a transaction is accepted with every field it had, and so the same preimage, exactly under that condition. |
| Transaction.Rewrite | src/lib/ethcore/TransactionBase.cpp:30-189 | Accepted bytes, read and written again, are the same bytes exactly when `v` is within the limit. |
| PromptProtocol.StepKeepsInv | src/qmlwrap/QmlServer.cpp:104-254 | Every step of every thread and of the interface keeps who holds which lock, what the one open prompt is, and what each thread knows of its permission. |
| PromptProtocol.AtMostOnePrompt | src/qmlwrap/QmlServer.cpp:117-246 | In every run, with any number of requests, at most one prompt is outstanding. |
| PromptProtocol.ConsentFirst | src/qmlwrap/QmlServer.cpp:104-144 | No request past the permission check belongs to a website the user has not allowed, and only refused ones are closed. |
| PromptProtocol.PromptFits | src/qmlwrap/QmlServer.cpp:117-232 | In every run a permission is asked for a website not decided on, a transaction for a request to send one, a signature for a request to sign, the last two only for allowed websites. |
| PromptProtocol.PermissionsGiven | src/qmlwrap/QmlServer.cpp:289-303 | A website is allowed or refused because it was so before the run, or by the word of the user when asked about it. |
| PromptProtocol.AskedOnce | src/qmlwrap/QmlServer.cpp:104-144 | No website is asked about twice in a run. |
| PromptProtocol.PermissionsStayAlong | src/qmlwrap/QmlServer.cpp:289-303 | What was permitted or refused stays so to the end of the run. |
| PromptProtocol.OwnAnswers | src/qmlwrap/QmlServer.cpp:146-248 | At every point of a run, how far the user's answer to each request has come. |
| PromptProtocol.OwnAnswer | src/qmlwrap/QmlServer.cpp:146-248 | A finished request to send or sign got exactly one answer, given to its own prompt, and responds with it.
| PromptProtocol.OwnSend | src/qmlwrap/QmlServer.cpp:146-200 | A request to send a transaction responds with the one answer to its own transaction prompt, gets no signature prompt answered, and has responded when it is finished and allowed. |
| PromptProtocol.OwnSign | src/qmlwrap/QmlServer.cpp:201-248 | The same for a request to sign and its signature prompt. | |
| PromptProtocol.SomeStep | src/qmlwrap/QmlServer.cpp:104-254 | While a request is unfinished and no answer was lost, some thread can step or the interface can answer. |
| PromptProtocol.HaltedMeansFinished | src/qmlwrap/QmlServer.cpp:104-254 | Where nothing can step, all requests are finished exactly when no answer was lost. |
| PromptProtocol.LostOnlyEarly | src/qmlwrap/QmlServer.cpp:122-124 | An answer is lost exactly when it is a permission unlocked before the asking thread has locked for the first time. |
| PromptProtocol.FinishesIffPatient | src/qmlwrap/QmlServer.cpp:104-254 | A run that cannot go on has finished every request exactly when no answer was unlocked before it was locked for. |
| PromptProtocol.RunsEnd | src/qmlwrap/QmlServer.cpp:104-254 | Without new requests a run has no more events than there is work at its start, at most 84 for each request and 3. |
| PromptProtocol.EarlyAnswerHangs | src/qmlwrap/QmlServer.cpp:122-124 | A concrete run in which the website is allowed at once and its request hangs with both outer locks held. |
| LedgerFraming.MakePayload | src/lib/ledger/encoding.cpp:312-341 | One round of the loop fills a payload with the next bytes of path and RLP, over three messages, and marks the first. |
| LedgerFraming.FillMessage | src/lib/ledger/encoding.cpp:317-339 | The loop over one message fills it with path bytes first, then RLP bytes, as far as they go. |
| LedgerFraming.MakePayloads | src/lib/ledger/encoding.cpp:311-342 | The payloads carry path and RLP cut into pieces of 150 bytes, and only the first is marked as first. |
| LedgerFraming.FillBuffer | src/lib/ledger/encoding.cpp:369-370 | The copy loop leaves the vector followed by zeros. |
| LedgerFraming.HeaderInSequence | src/lib/ledger/encoding.cpp:366-404 | What a buffer begins with is what the device looks for, with the number of that buffer and no other. |
| LedgerFraming.EncodePayload | src/lib/ledger/encoding.cpp:344-408 | The buffers made from one payload. |
| LedgerFraming.OnePackage | src/lib/ledger/encoding.cpp:344-410 | A device that reads report id, channel, tag and the number of each buffer at their places takes out of one package exactly what the payload carries, and nothing if it is marked otherwise than expected. |
| LedgerFraming.Delivered | src/lib/ledger/comms.cpp:93-103 | Sent in packages of three buffers, the payloads arrive as the bytes that were cut. |
| LedgerFraming.EncodeSignEthMessage | src/lib/ledger/encoding.cpp:299-410 | What arrives, for every path and every RLP. |
| LedgerFraming.ArrivesWhole | src/lib/ledger/encoding.cpp:299-410 | Path and RLP arrive whole exactly when the path fits the first message. |
| LedgerPath.ParsePath | src/lib/ledger/encoding.cpp:34-69 | The loop reads the words of a path, or throws, and writes their count and four bytes each. |
| LedgerPath.ReadIndexes | src/lib/ledger/encoding.cpp:44-58 | The loop over the characters computes the words of the recursive reading. |
| LedgerPath.RootTakenOff | src/lib/ledger/encoding.cpp:42-42 | Exactly "m/" in front is taken off a path. |
| LedgerPath.NoIndex | src/lib/ledger/encoding.cpp:48-51 | A level without a digit is refused. |
| LedgerPath.PathRead | src/lib/ledger/encoding.cpp:44-58 | The text of any path is read back level by level, and refused exactly when an index does not fit 32 bits.
| LedgerPath.WordExact | src/lib/ledger/encoding.cpp:52-55 | The word of a level is its index plus the mark exactly when a marked index is below 2^31; otherwise the sum wraps and the mark is lost. | |
| LedgerPath.PathBytesAt | src/lib/ledger/encoding.cpp:59-68 | The bytes of a path are the number of its levels and, four bytes each and highest first, its indexes, raised by 2^31 where hardened. |
| LedgerPath.ReadPath | src/lib/ledger/encoding.cpp:34-69 | The text of any path is refused exactly when an index does not fit, and comes back as its bytes exactly when its first level is hardened or the uninitialised flag happened to be false. |
| LedgerPath.SendToSign | src/lib/ledger/encoding.cpp:299-410 | The device gets the path and the very bytes hashed for signing exactly when the path has at most twelve levels and the uninitialised flag does not change its first one. |
| Pangolin.SwapExact | src/network/Pangolin.cpp:84-103 | A swap is empty exactly when an intermediate overflows 256 bits, and otherwise the exact quotient of the unbounded formula. |
| Pangolin.SwapKeepsProduct | src/network/Pangolin.cpp:84-103 | The amount out is below the reserve, and (1000 Rin + 997 a)(Rout - out) is at least 1000 Rin Rout. |
| Pangolin.SwapMonotone | src/network/Pangolin.cpp:84-103 | More in gives no less out, and where the larger amount is answered, so is the smaller. |
| Pangolin.NoRoundTripGain | src/network/Pangolin.cpp:84-103 | Swapping back what was swapped out, from the reserves it left, gives no more than was put in. |
| Pangolin.LiquidityExact | src/network/Pangolin.cpp:105-119 | The amount of liquidity is empty exactly when an intermediate overflows, and otherwise the exact floor of a Rout / Rin. |
| Decimal.StrippedNumeral | src/core/Utils.cpp:169-173 | Erasing the zeros in front and writing "0" for nothing gives the one numeral of the value. |
| Decimal.TenDigits | src/core/Utils.cpp:138-138 | The digits are 0123456789 in this order. |
| Decimal.ValuePadded | src/core/Utils.cpp:166-169 | Zeros behind a numeral multiply its value by a power of ten. |
| FixedPoint.FixedPointToWei | src/core/Utils.cpp:134-173 | Other characters and too many decimals give the empty string; otherwise the result is the numeral of value times 10^d. With several points it is the digits and points in order, so no number. |
| FixedPoint.PointedUnits | src/core/Utils.cpp:114-132 | The numeral of an amount becomes the numeral of its whole units, a point, and the remainder in as many digits as there are decimals. |
| FixedPoint.ReadWhole | src/core/Utils.cpp:142-148 | The loop reads what comes before the first point. |
| FixedPoint.Pad | src/core/Utils.cpp:166-168 | The loop adds the missing decimals as zeros. |
| FixedPoint.Strip | src/core/Utils.cpp:170-173 | The loop erases the zeros in front, and nothing becomes "0". |
| FixedPoint.ThereAndBack | src/core/Utils.cpp:114-173 | Converted to a point and back, an amount is the numeral of its value, and so unchanged exactly when it had no redundant zero in front. |
| Base64.ToBase64Encoding | src/lib/devcore/Base64.cpp:49-94 | The loops write the letters of the six-bit groups, and the padding. |
| Base64.GroupBits | src/lib/devcore/Base64.cpp:64-74 | Each four characters carry the 24 bits of their three bytes, first bits first. |
| Base64.TailBits | src/lib/devcore/Base64.cpp:76-94 | The last one or two bytes take one character more than they are, whose last bits are zero, and padding makes groups of four. |
| Base64.TheLetters | src/lib/devcore/Base64.cpp:98-101 | The 64 letters in their order. |
| Base64.IndexOfLetter | src/lib/devcore/Base64.cpp:39-47 | Each letter is found at its own place, and no other character is. |
| Base64.FromBase64 | src/lib/devcore/Base64.cpp:116-161 | The loops join the indexes of the readable characters, the missing ones counting as 64. |
| Base64.AppendTail | src/lib/devcore/Base64.cpp:144-158 | The last group gives one byte less than it has characters. |
| Base64.JoinedSextets | src/lib/devcore/Base64.cpp:116-161 | Joining undoes splitting for each of the three lengths of the last group. |
| Base64.ThereAndBack | src/lib/devcore/Base64.cpp:96-161 | Every byte string comes back from its Base64. |

## Left out

- TrieDB.TrieDB.Remove: what happens when a value under a prefix of the key is, read as a hash, the hash of a stored node: the code then edits that node. Also, at a branch without a value where the key ends, the code goes on with whatever byte follows the key; the model stops with an error of its own.
- TrieDB.TrieDB.SetRoot: `Verification::Skip`, which sets the root and does nothing else.
- `insert` with an empty value: the code stores it, but nothing that reads the trie can tell it from an absent key.
- StateCacheDB.StateCacheDB.Insert: the count is unbounded, not the 32-bit `unsigned` of the program; `m_aux`, `m_enforceRefs` and the lock guards are not modelled.
- TrieDB.TrieDB.Place: the node the program releases for a branch it has only just made in memory has no entry of its own, because no stored node is a branch with one slot; the model shows that this release changes nothing.
- TrieIterator.Iterator.Next: the exits for malformed nodes (src/lib/devcore/TrieDB.h:536-540) cannot be reached from a valid trie and are not modelled.
- FatGenericTrieDB and HashedGenericTrieDB, which are stubs or hash their keys and delegate; the debug output of `descendList`.
- The conversions of `RLP` other than those `TransactionBase` uses, and `append` of whole containers.
- Transaction.TransactionBase.Load: `CheckTransaction::Everything`, which recovers the sender by elliptic-curve arithmetic; the sender cache and the memo of the hash.
- Transaction.RawVExact: a sum that overflows `int` is undefined in C++; the model lets it wrap.
- LedgerPath.ParsePath: other characters than digits, apostrophes and slashes are skipped as in the code; nothing is claimed about such paths.
- `encodePersonalSignMessage` and `encodeBip32Message`: their framing differs from the one proved and does not hold for long messages.
- PromptProtocol.StepKeepsInv: exceptions thrown while locks are held, `clearWebsitePermissionList` called meanwhile, requests forwarded to the network, and sessions that end on their own are not steps of the model.
- Pangolin.SwapExact: the decimal strings that carry the numbers; `parseHex` and the ordering of pairs.
- FixedPoint.FixedPointToWei: negative numbers of decimals are not inputs of the model.
- `toBase64URLSafe`, whose output `fromBase64` does not promise to read.
- Cryptography, networking, HTTP, LevelDB, Qt and QML classes, HID transport, JSON and file storage, `ABI.cpp`, `BlockHeader` other than the comparison of the two transaction roots.
- Memory: pointers into buffers are sequences with offsets, and secure cleansing is not modelled.
