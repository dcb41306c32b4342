/**
 The trie a sorted list of entries describes: the recursion of TrieHash.cpp as a function on
 trees, and the proof that it gives the canonical tree of the entries.
 */
module TrieBuild {
  import opened Bytes
  import opened HexPrefix
  import opened Trie
  import opened TrieNode

  datatype Pair = Pair(key: Nibbles, value: Bytes)

  /** The entries of a `HexMap` in the order of its iterators. */
  type HexMap = seq<Pair>

  /** The order of `std::map` on byte vectors. */
  predicate Less(a: seq<int>, b: seq<int>)
  {
    b != [] && (a == [] || a[0] < b[0] || (a[0] == b[0] && Less(a[1..], b[1..])))
  }

  /** Either the first is a proper prefix of the second, or it is smaller where they part. */
  lemma {:induction false} LessWhere(a: seq<int>, b: seq<int>)
    ensures Less(a, b) <==> exists n :: PartsBelow(a, b, n)
  {
    if n :| PartsBelow(a, b, n) && n > 0 {
      assert a[0] == a[..n][0] == b[..n][0] == b[0];
      assert a[1..][..n - 1] == a[..n][1..] && b[1..][..n - 1] == b[..n][1..];
      assert PartsBelow(a[1..], b[1..], n - 1);
    }
    if a != [] && b != [] && a[0] == b[0] {
      LessWhere(a[1..], b[1..]);
      if n :| PartsBelow(a[1..], b[1..], n) {
        assert a[..n + 1] == [a[0]] + a[1..][..n] && b[..n + 1] == [b[0]] + b[1..][..n];
        assert PartsBelow(a, b, n + 1);
      }
    } else if Less(a, b) {
      assert PartsBelow(a, b, 0);
    }
  }

  predicate PartsBelow(a: seq<int>, b: seq<int>, n: int)
  {
    0 <= n <= |a| && n < |b| && a[..n] == b[..n] && (n == |a| || a[n] < b[n])
  }

  ghost predicate Sorted(es: HexMap)
  {
    forall i, j | 0 <= i < j < |es| :: Less(es[i].key, es[j].key)
  }

  /** A range of entries that agree on the first `pre` nibbles. */
  ghost predicate Group(es: HexMap, pre: nat)
  {
    && Sorted(es)
    && (forall i | 0 <= i < |es| :: pre <= |es[i].key| <= KEY_LIMIT)
    && (forall i | 0 <= i < |es| :: es[i].key[..pre] == es[0].key[..pre])
  }

  /** The value filed under a key, past its first `pre` nibbles; empty when there is none. */
  function Find(es: HexMap, pre: nat, k: Nibbles): Bytes
  {
    if es == [] then []
    else if pre <= |es[0].key| && es[0].key[pre..] == k then es[0].value
    else Find(es[1..], pre, k)
  }

  // ---- order ----

  lemma {:induction false} LessIrreflexive(a: seq<int>)
    ensures !Less(a, a)
  {
    if a != [] {
      LessIrreflexive(a[1..]);
    }
  }

  lemma {:induction false} LessTransitive(a: seq<int>, b: seq<int>, c: seq<int>)
    requires Less(a, b) && Less(b, c)
    ensures Less(a, c)
  {
    if a != [] && a[0] == b[0] && b[0] == c[0] {
      LessTransitive(a[1..], b[1..], c[1..]);
    }
  }

  lemma {:induction false} LessTotal(a: seq<int>, b: seq<int>)
    ensures a == b || Less(a, b) || Less(b, a)
  {
    if a != [] && b != [] && a[0] == b[0] {
      LessTotal(a[1..], b[1..]);
      assert a == [a[0]] + a[1..] && b == [b[0]] + b[1..];
    }
  }

  lemma {:induction false} LessAsymmetric(a: seq<int>, b: seq<int>)
    requires Less(a, b)
    ensures !Less(b, a)
  {
    if a != [] && a[0] == b[0] {
      LessAsymmetric(a[1..], b[1..]);
    }
  }

  /** Below a common prefix the order is that of the rests. */
  lemma {:induction false} LessBelow(a: Nibbles, b: Nibbles, pre: nat)
    requires pre <= |a| && pre <= |b| && a[..pre] == b[..pre]
    ensures Less(a, b) == Less(a[pre..], b[pre..])
  {
    if pre > 0 {
      assert a[0] == a[..pre][0] == b[..pre][0] == b[0];
      assert a[1..][..pre - 1] == a[..pre][1..] && b[1..][..pre - 1] == b[..pre][1..];
      LessBelow(a[1..], b[1..], pre - 1);
      assert a[1..][pre - 1..] == a[pre..] && b[1..][pre - 1..] == b[pre..];
    } else {
      assert a[0..] == a && b[0..] == b;
    }
  }

  /** Past the first `pre` nibbles the keys of a group still ascend, so only the first can end there. */
  lemma GroupOrder(es: HexMap, pre: nat, i: nat, j: nat)
    requires Group(es, pre) && i < j < |es|
    ensures |es[j].key| > pre
    ensures |es[i].key| == pre || es[i].key[pre] <= es[j].key[pre]
    ensures |es[i].key| == pre ==> i == 0
  {
    LessBelow(es[i].key, es[j].key, pre);
    if i > 0 {
      LessBelow(es[0].key, es[i].key, pre);
    }
  }

  /** An entry that matches is the one found. */
  lemma {:induction false} FindsMatch(es: HexMap, pre: nat, k: Nibbles, i: nat)
    requires Sorted(es) && i < |es| && pre <= |es[i].key| && es[i].key[pre..] == k
    requires forall j | 0 <= j < |es| :: pre <= |es[j].key| && es[j].key[..pre] == es[i].key[..pre]
    ensures Find(es, pre, k) == es[i].value
  {
    if i > 0 {
      assert Less(es[0].key, es[i].key);
      LessIrreflexive(es[0].key);
      assert es[0].key == es[0].key[..pre] + es[0].key[pre..] && es[i].key == es[i].key[..pre] + es[i].key[pre..];
      FindsMatch(es[1..], pre, k, i - 1);
    }
  }

  lemma {:induction false} FindsNothing(es: HexMap, pre: nat, k: Nibbles)
    requires forall i | 0 <= i < |es| :: pre <= |es[i].key| ==> es[i].key[pre..] != k
    ensures Find(es, pre, k) == []
  {
    if es != [] {
      FindsNothing(es[1..], pre, k);
    }
  }

  // ---- the shared prefix ----

  /** Where the first key and another part, at or behind `pre`. */
  function SharedFrom(a: Nibbles, b: Nibbles, pre: nat): (s: nat)
    requires pre <= |a| && pre <= |b|
    ensures pre <= s <= |a| && s <= |b|
  {
    pre + Shared(a[pre..], b[pre..])
  }

  /** The least such place over the entries before `j`. */
  function SharedPre(es: HexMap, pre: nat, j: nat): nat
    requires 1 <= j <= |es| && forall i | 0 <= i < |es| :: pre <= |es[i].key|
  {
    if j == 1 then 0xffff_ffff else Min(SharedPre(es, pre, j - 1), SharedFrom(es[0].key, es[j - 1].key, pre))
  }

  lemma {:induction false} SharedPreBounds(es: HexMap, pre: nat, j: nat)
    requires 1 <= j <= |es| && forall i | 0 <= i < |es| :: pre <= |es[i].key|
    ensures forall i | 1 <= i < j :: SharedPre(es, pre, j) <= SharedFrom(es[0].key, es[i].key, pre)
    ensures SharedPre(es, pre, j) == 0xffff_ffff
         || exists i :: 1 <= i < j && SharedPre(es, pre, j) == SharedFrom(es[0].key, es[i].key, pre)
  {
    if j > 1 {
      SharedPreBounds(es, pre, j - 1);
    }
  }

  lemma SharedFromAgrees(a: Nibbles, b: Nibbles, pre: nat, s: nat)
    requires pre <= |a| && pre <= |b| && a[..pre] == b[..pre] && s <= SharedFrom(a, b, pre)
    ensures a[..s] == b[..s]
  {
    var n := SharedFrom(a, b, pre);
    assert a[..n] == a[..pre] + a[pre..][..n - pre];
    assert b[..n] == b[..pre] + b[pre..][..n - pre];
    assert a[..s] == a[..n][..s] && b[..s] == b[..n][..s];
  }

  /** All keys of a group agree up to the shared prefix. */
  lemma GroupShared(es: HexMap, pre: nat)
    requires Group(es, pre) && |es| >= 2
    ensures var s := SharedPre(es, pre, |es|);
            && pre <= s <= |es[0].key| && Group(es, s)
            && exists i :: 1 <= i < |es| && s == SharedFrom(es[0].key, es[i].key, pre)
  {
    SharedPreBounds(es, pre, |es|);
    var s := SharedPre(es, pre, |es|);
    assert s <= SharedFrom(es[0].key, es[1].key, pre);
    forall i | 0 <= i < |es|
      ensures s <= |es[i].key| && es[i].key[..s] == es[0].key[..s]
    {
      if i > 0 {
        SharedFromAgrees(es[0].key, es[i].key, pre, s);
      }
    }
  }

  // ---- runs of one nibble ----

  /** One past the run of entries from `b` on whose next nibble is `x`. */
  function RunEnd(es: HexMap, pre: nat, x: nat, b: nat): (n: nat)
    requires b <= |es| && forall i | b <= i < |es| :: pre < |es[i].key|
    ensures b <= n <= |es|
    ensures forall i | b <= i < n :: es[i].key[pre] == x
    ensures n < |es| ==> es[n].key[pre] != x
    decreases |es| - b
  {
    if b == |es| || es[b].key[pre] != x then b else RunEnd(es, pre, x, b + 1)
  }

  /** Where the entries begin that do not end at `pre`. */
  function FirstRun(es: HexMap, pre: nat): nat
    requires es != []
  {
    if |es[0].key| == pre then 1 else 0
  }

  /** Where the run of nibble `x` begins. */
  function RunStart(es: HexMap, pre: nat, x: nat): (b: nat)
    requires Group(es, pre) && es != []
    ensures FirstRun(es, pre) <= b <= |es|
    ensures forall i | b <= i < |es| :: pre < |es[i].key|
    ensures forall i | b <= i < |es| :: es[i].key[pre] >= x
    ensures forall i | FirstRun(es, pre) <= i < b :: pre < |es[i].key| && es[i].key[pre] < x
  {
    if x == 0 then
      PastFirst(es, pre);
      FirstRun(es, pre)
    else
      var b := RunStart(es, pre, x - 1);
      PastFirst(es, pre);
      RunAscends(es, pre, x - 1, b);
      RunEnd(es, pre, x - 1, b)
  }

  lemma PastFirst(es: HexMap, pre: nat)
    requires Group(es, pre) && es != []
    ensures FirstRun(es, pre) <= |es| && forall i | FirstRun(es, pre) <= i < |es| :: pre < |es[i].key|
  {
    forall i | 0 < i < |es|
      ensures pre < |es[i].key|
    {
      GroupOrder(es, pre, 0, i);
    }
  }

  lemma RunAscends(es: HexMap, pre: nat, x: nat, b: nat)
    requires Group(es, pre) && b <= |es| && forall i | b <= i < |es| :: pre < |es[i].key| && es[i].key[pre] >= x
    ensures forall i | RunEnd(es, pre, x, b) <= i < |es| :: es[i].key[pre] >= x + 1
  {
    var n := RunEnd(es, pre, x, b);
    forall i | n <= i < |es|
      ensures es[i].key[pre] >= x + 1
    {
      if i > n {
        GroupOrder(es, pre, n, i);
      }
    }
  }

  /** The entries whose next nibble is `x`. */
  function Run(es: HexMap, pre: nat, x: nat): HexMap
    requires Group(es, pre) && es != [] && x < 16
  {
    es[RunStart(es, pre, x)..RunStart(es, pre, x + 1)]
  }

  lemma RunIsGroup(es: HexMap, pre: nat, x: nat)
    requires Group(es, pre) && es != [] && x < 16
    ensures RunStart(es, pre, x) <= RunStart(es, pre, x + 1)
    ensures Group(Run(es, pre, x), pre + 1)
  {
    hide Less;
    var b, n := RunStart(es, pre, x), RunStart(es, pre, x + 1);
    assert n == RunEnd(es, pre, x, b);
    forall i | b <= i < n
      ensures es[i].key[..pre + 1] == es[0].key[..pre] + [x]
    {
      assert es[i].key[..pre + 1] == es[i].key[..pre] + [es[i].key[pre]];
    }
  }

  // ---- the tree ----

  /** `hash256rlp`: nothing, a leaf, an extension over what all keys share, or a branch. */
  ghost function Build(es: HexMap, pre: nat): Trie
    requires Group(es, pre)
    decreases KEY_LIMIT + 1 - pre
  {
    if es == [] then Nil
    else if |es| == 1 then Leaf(es[0].key[pre..], es[0].value)
    else
      var s := SharedPre(es, pre, |es|);
      GroupShared(es, pre);
      if s > pre then Ext(es[0].key[pre..s], Build(es, s))
      else
        GroupOrder(es, pre, 0, 1);
        var kids := seq(16, x requires 0 <= x < 16 => RunIsGroup(es, pre, x); Build(Run(es, pre, x), pre + 1));
        Branch(kids, if |es[0].key| == pre then es[0].value else [])
  }

  /** The shared prefix is as long as it can be: behind it, some key parts from the first. */
  lemma SharedPreIsLongest(es: HexMap, pre: nat)
    requires Group(es, pre) && |es| >= 2
    ensures var s := SharedPre(es, pre, |es|);
            exists i :: 1 <= i < |es| && s < |es[i].key| && (|es[0].key| == s || es[0].key[s] != es[i].key[s])
  {
    GroupShared(es, pre);
    var s := SharedPre(es, pre, |es|);
    var i :| 1 <= i < |es| && s == SharedFrom(es[0].key, es[i].key, pre);
    GroupOrder(es, s, 0, i);
    var n := Shared(es[0].key[pre..], es[i].key[pre..]);
    assert s < |es[0].key| ==> es[0].key[pre..][n] == es[0].key[s] && es[i].key[pre..][n] == es[i].key[s];
  }

  lemma SharedPreFixed(es: HexMap, pre: nat)
    requires Group(es, pre) && |es| >= 2
    ensures var s := SharedPre(es, pre, |es|);
            Group(es, s) && SharedPre(es, s, |es|) == s
  {
    GroupShared(es, pre);
    var s := SharedPre(es, pre, |es|);
    SharedPreIsLongest(es, pre);
    var i :| 1 <= i < |es| && s < |es[i].key| && (|es[0].key| == s || es[0].key[s] != es[i].key[s]);
    assert SharedFrom(es[0].key, es[i].key, s) == s;
    GroupShared(es, s);
    SharedPreBounds(es, s, |es|);
  }

  /** Every entry of a group lies in the run of its next nibble. */
  lemma InRun(es: HexMap, pre: nat, i: nat)
    requires Group(es, pre) && i < |es| && |es[i].key| > pre
    ensures var x: nat := es[i].key[pre];
            RunStart(es, pre, x) <= i < RunStart(es, pre, x + 1)
  {
    assert i >= FirstRun(es, pre);
  }

  lemma BuildIsBranch(es: HexMap, pre: nat)
    requires Group(es, pre) && |es| >= 2 && SharedPre(es, pre, |es|) == pre
    ensures var t := Build(es, pre);
            && t.Branch? && |t.kids| == 16 && pre < KEY_LIMIT
            && (t.value == if |es[0].key| == pre then es[0].value else [])
            && forall x | 0 <= x < 16 :: Group(Run(es, pre, x), pre + 1) && t.kids[x] == Build(Run(es, pre, x), pre + 1)
  {
    GroupOrder(es, pre, 0, 1);
    forall x | 0 <= x < 16
      ensures Group(Run(es, pre, x), pre + 1)
    {
      RunIsGroup(es, pre, x);
    }
  }

  lemma BuildIsExt(es: HexMap, pre: nat)
    requires Group(es, pre) && |es| >= 2 && SharedPre(es, pre, |es|) > pre
    ensures var s := SharedPre(es, pre, |es|);
            && s <= |es[0].key| <= KEY_LIMIT && Group(es, s)
            && Build(es, pre) == Ext(es[0].key[pre..s], Build(es, s))
  {
    GroupShared(es, pre);
  }

  lemma BuildIsSmall(es: HexMap, pre: nat)
    requires Group(es, pre)
    ensures es == [] ==> Build(es, pre) == Nil
    ensures |es| == 1 ==> pre <= |es[0].key| <= KEY_LIMIT && Build(es, pre) == Leaf(es[0].key[pre..], es[0].value)
    ensures forall i | 0 <= i < |es| :: pre <= |es[i].key|
    ensures |es| >= 2 ==> SharedPre(es, pre, |es|) >= pre
  {
    if |es| >= 2 {
      GroupShared(es, pre);
    }
  }

  // ---- the tree is that of the entries ----

  /** A key of the group matches past `s` what it matches past `pre`. */
  lemma MatchDeeper(key: Nibbles, pre: nat, s: nat, k: Nibbles, front: Nibbles)
    requires pre <= s <= |key| && front == key[pre..s]
    ensures key[pre..] == k <==> front <= k && key[s..] == k[s - pre..]
  {
    assert key[pre..] == front + key[s..];
    if front <= k {
      assert k == front + k[s - pre..];
    }
  }

  lemma FindThroughExt(es: HexMap, pre: nat, s: nat, k: Nibbles)
    requires Group(es, pre) && Group(es, s) && es != [] && pre <= s
    ensures Find(es, pre, k) == if es[0].key[pre..s] <= k then Find(es, s, k[s - pre..]) else []
  {
    var front := es[0].key[pre..s];
    forall i | 0 <= i < |es|
      ensures es[i].key[pre..s] == front
      ensures es[i].key[pre..] == k <==> front <= k && es[i].key[s..] == k[s - pre..]
    {
      assert es[i].key[pre..s] == es[i].key[..s][pre..] && front == es[0].key[..s][pre..];
      MatchDeeper(es[i].key, pre, s, k, front);
    }
    if i :| 0 <= i < |es| && es[i].key[pre..] == k {
      FindsMatch(es, pre, k, i);
      FindsMatch(es, s, k[s - pre..], i);
    } else {
      FindsNothing(es, pre, k);
      if front <= k {
        FindsNothing(es, s, k[s - pre..]);
      }
    }
  }

  lemma FindInRun(es: HexMap, pre: nat, k: Nibbles)
    requires Group(es, pre) && es != [] && k != []
    ensures Group(Run(es, pre, k[0]), pre + 1)
    ensures Find(es, pre, k) == Find(Run(es, pre, k[0]), pre + 1, k[1..])
  {
    hide Find, Run, RunStart, Group;
    RunIsGroup(es, pre, k[0]);
    if i :| 0 <= i < |es| && Matches(es[i].key, pre, k) {
      FindInRunHit(es, pre, k, i);
    } else {
      FindInRunMiss(es, pre, k);
    }
  }

  predicate Matches(key: Nibbles, pre: nat, k: Nibbles)
  {
    pre <= |key| && key[pre..] == k
  }

  /** One nibble further, the match is that of the nibble and of the rest. */
  lemma MatchesNext(key: Nibbles, pre: nat, k: Nibbles)
    requires pre < |key| && k != []
    ensures Matches(key, pre, k) <==> key[pre] == k[0] && Matches(key, pre + 1, k[1..])
  {
    MatchDeeper(key, pre, pre + 1, k, [key[pre]]);
    assert key[pre..pre + 1] == [key[pre]];
  }

  lemma FindInRunHit(es: HexMap, pre: nat, k: Nibbles, i: nat)
    requires Group(es, pre) && k != [] && i < |es| && Matches(es[i].key, pre, k)
    ensures Find(es, pre, k) == Find(Run(es, pre, k[0]), pre + 1, k[1..])
  {
    MatchesNext(es[i].key, pre, k);
    InRun(es, pre, i);
    RunIsGroup(es, pre, k[0]);
    FindsMatch(es, pre, k, i);
    var run, b := Run(es, pre, k[0]), RunStart(es, pre, k[0]);
    assert run[i - b] == es[i];
    FindsMatch(run, pre + 1, k[1..], i - b);
  }

  lemma FindInRunMiss(es: HexMap, pre: nat, k: Nibbles)
    requires Group(es, pre) && es != [] && k != []
    requires forall i | 0 <= i < |es| :: !Matches(es[i].key, pre, k)
    ensures Find(es, pre, k) == Find(Run(es, pre, k[0]), pre + 1, k[1..])
  {
    RunIsGroup(es, pre, k[0]);
    var run, b := Run(es, pre, k[0]), RunStart(es, pre, k[0]);
    forall j | 0 <= j < |run|
      ensures !Matches(run[j].key, pre + 1, k[1..])
    {
      assert run[j] == es[b + j];
      MatchesNext(es[b + j].key, pre, k);
    }
    FindsNothing(run, pre + 1, k[1..]);
    FindsNothing(es, pre, k);
  }

  lemma FindAtBranch(es: HexMap, pre: nat)
    requires Group(es, pre) && es != []
    ensures Find(es, pre, []) == if |es[0].key| == pre then es[0].value else []
  {
    PastFirst(es, pre);
    if |es[0].key| == pre {
      FindsMatch(es, pre, [], 0);
    } else {
      FindsNothing(es, pre, []);
    }
  }

  lemma FindAmongFew(es: HexMap, pre: nat, k: Nibbles)
    requires |es| < 2 && forall i | 0 <= i < |es| :: pre <= |es[i].key|
    ensures Find(es, pre, k) == if es != [] && es[0].key[pre..] == k then es[0].value else []
  {
  }

  /** The tree maps every key to what is filed under it. */
  lemma {:induction false} GetBuild(es: HexMap, pre: nat, k: Nibbles)
    requires Group(es, pre)
    ensures Get(Build(es, pre), k) == Find(es, pre, k)
    decreases KEY_LIMIT + 1 - pre
  {
    hide Build, Group, Run, SharedPre, Find, Less;
    BuildIsSmall(es, pre);
    if |es| < 2 {
      FindAmongFew(es, pre, k);
    } else {
      var s := SharedPre(es, pre, |es|);
      if s > pre {
        BuildIsExt(es, pre);
        FindThroughExt(es, pre, s, k);
        if es[0].key[pre..s] <= k {
          GetBuild(es, s, k[s - pre..]);
        }
      } else {
        BuildIsBranch(es, pre);
        if k == [] {
          FindAtBranch(es, pre);
        } else {
          FindInRun(es, pre, k);
          GetBuild(Run(es, pre, k[0]), pre + 1, k[1..]);
        }
      }
    }
  }

  ghost predicate ValuesPresent(es: HexMap)
  {
    forall i | 0 <= i < |es| :: es[i].value != []
  }

  /** The tree is canonical. */
  lemma {:induction false} BuildCanon(es: HexMap, pre: nat)
    requires Group(es, pre) && ValuesPresent(es)
    ensures Canon(Build(es, pre)) && (Build(es, pre) == Nil <==> es == [])
    ensures |es| >= 2 && SharedPre(es, pre, |es|) == pre ==> Build(es, pre).Branch?
    decreases KEY_LIMIT + 1 - pre, 1
  {
    hide Build, Group, SharedPre;
    BuildIsSmall(es, pre);
    if |es| >= 2 {
      var s := SharedPre(es, pre, |es|);
      if s > pre {
        BuildIsExt(es, pre);
        SharedPreFixed(es, pre);
        BuildCanon(es, s);
      } else {
        BuildCanonBranch(es, pre);
      }
    }
  }

  lemma {:induction false} BuildCanonBranch(es: HexMap, pre: nat)
    requires Group(es, pre) && ValuesPresent(es) && |es| >= 2 && SharedPre(es, pre, |es|) == pre
    ensures Canon(Build(es, pre)) && Build(es, pre).Branch?
    decreases KEY_LIMIT + 1 - pre, 0
  {
    hide Build, Group, Run;
    BuildIsBranch(es, pre);
    var t := Build(es, pre);
    forall x | 0 <= x < 16
      ensures Canon(t.kids[x]) && (t.kids[x] == Nil <==> Run(es, pre, x) == [])
    {
      assert ValuesPresent(Run(es, pre, x)) by { RunValues(es, pre, x); }
      BuildCanon(Run(es, pre, x), pre + 1);
    }
    BranchHasTwo(es, pre);
  }

  lemma RunValues(es: HexMap, pre: nat, x: nat)
    requires Group(es, pre) && ValuesPresent(es) && es != [] && x < 16
    ensures ValuesPresent(Run(es, pre, x))
  {
    RunIsGroup(es, pre, x);
  }

  /** Where two keys part, a branch has two slots in use. */
  lemma BranchHasTwo(es: HexMap, pre: nat)
    requires Group(es, pre) && ValuesPresent(es) && |es| >= 2 && SharedPre(es, pre, |es|) == pre
    requires Build(es, pre).Branch? && |Build(es, pre).kids| == 16
    requires forall x | 0 <= x < 16 :: Build(es, pre).kids[x] == Nil <==> Run(es, pre, x) == []
    requires Build(es, pre).value == if |es[0].key| == pre then es[0].value else []
    ensures forall i: nat | i <= 16 :: UsedBeside(Build(es, pre), i)
  {
    var t := Build(es, pre);
    SharedPreIsLongest(es, pre);
    var i :| 1 <= i < |es| && pre < |es[i].key| && (|es[0].key| == pre || es[0].key[pre] != es[i].key[pre]);
    var x := es[i].key[pre];
    InRun(es, pre, i);
    RunIsGroup(es, pre, x);
    assert Slot(t, x);
    if |es[0].key| == pre {
      assert Slot(t, 16);
    } else {
      InRun(es, pre, 0);
      RunIsGroup(es, pre, es[0].key[pre]);
      assert Slot(t, es[0].key[pre]);
    }
  }

  /** The batch construction agrees with every canonical tree of the same map. */
  lemma BuildUnique(es: HexMap, t: Trie)
    requires Group(es, 0) && ValuesPresent(es) && Canon(t)
    requires forall k :: Get(t, k) == Find(es, 0, k)
    ensures Build(es, 0) == t
  {
    BuildCanon(es, 0);
    forall k
      ensures Get(Build(es, 0), k) == Get(t, k)
    {
      GetBuild(es, 0, k);
    }
    CanonicalUnique(Build(es, 0), t);
  }
}
