/**
 The node store: byte strings under their hashes, each with a reference count.
 */
module StateCacheDB {
  import opened Bytes

  datatype Entry = Entry(bytes: Bytes, refs: nat)

  type Main = map<Hash, Entry>

  function Count(main: Main, h: Hash): nat
  {
    if h in main then main[h].refs else 0
  }

  /** The bytes under a hash; empty when there are none. */
  function Lookup(main: Main, h: Hash): Bytes
  {
    if h in main then main[h].bytes else []
  }

  /** The entries something refers to. */
  function Purged(main: Main): Main
  {
    map h | h in main && main[h].refs > 0 :: main[h]
  }

  class StateCacheDB {
    var main: Main

    constructor ()
      ensures main == map[]
    {
      main := map[];
    }

    /** Entries are returned whatever their count: only `purge` forgets them. */
    method LookupNode(h: Hash) returns (b: Bytes)
      ensures b == Lookup(main, h)
    {
      b := if h in main then main[h].bytes else [];
    }

    method Exists(h: Hash) returns (r: bool)
      ensures r == (h in main)
    {
      r := h in main;
    }

    method Insert(h: Hash, v: Bytes)
      modifies this
      ensures main == old(main)[h := Entry(v, Count(old(main), h) + 1)]
    {
      if h in main {
        main := main[h := Entry(v, main[h].refs + 1)];
      } else {
        main := main[h := Entry(v, 1)];
      }
    }

    /** Lowers a positive count; the bytes stay. */
    method Kill(h: Hash) returns (killed: bool)
      modifies this
      ensures killed == (Count(old(main), h) > 0)
      ensures main == if killed then old(main)[h := Entry(old(main)[h].bytes, old(main)[h].refs - 1)] else old(main)
    {
      killed := false;
      if h in main {
        if main[h].refs > 0 {
          main := main[h := Entry(main[h].bytes, main[h].refs - 1)];
          killed := true;
        }
      }
    }

    /** Erases the entries nothing refers to, and those only. */
    method Purge()
      modifies this
      ensures main == Purged(old(main))
    {
      var todo := main.Keys;
      while todo != {}
        invariant todo <= main.Keys <= old(main).Keys
        invariant forall h | h in main :: main[h] == old(main)[h]
        invariant forall h | h in old(main).Keys - main.Keys :: old(main)[h].refs == 0
        invariant forall h | h in main.Keys - todo :: main[h].refs > 0
        decreases todo
      {
        var h :| h in todo;
        if main[h].refs == 0 {
          main := main - {h};
        }
        todo := todo - {h};
      }
    }

    /** The hashes something refers to. */
    method Keys() returns (keys: set<Hash>)
      ensures keys == set h | h in main && main[h].refs > 0
    {
      keys := {};
      var todo := main.Keys;
      while todo != {}
        invariant todo <= main.Keys
        invariant keys == set h | h in main.Keys - todo && main[h].refs > 0
        decreases todo
      {
        var h :| h in todo;
        if main[h].refs > 0 {
          keys := keys + {h};
        }
        todo := todo - {h};
      }
    }
  }
}
