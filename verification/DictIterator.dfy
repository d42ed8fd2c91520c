/**
 Going over a hash table.  The iterator remembers the successor of the entry it has returned, so that the
 user may delete that entry before asking for the next one.  What is left of the current chain is a suffix
 of it, and stays one when any entry outside the suffix is unlinked; the entries still to be returned are
 that suffix and the chains of the later slots.  Deleting a key that is not among them leaves them as they
 are, and a walk over the whole table meets every key exactly once even if it deletes as it goes.
 */
module DictIterator {
  import opened Bytes
  import opened Dict

  ghost predicate Suffix(rest: seq<Entry>, chain: seq<Entry>) {
    |rest| <= |chain| && chain[|chain| - |rest|..] == rest
  }

  /** The entries of all slots from 'k' on. */
  ghost function Flat(chains: seq<seq<Entry>>, k: nat): seq<Entry>
    decreases |chains| - k
  {
    if k >= |chains| then [] else chains[k] + Flat(chains, k + 1)
  }

  class Iterator {
    const ht: HashTable
    var index: int
    var entry: Entry?
    var nextEntry: Entry?
    /** What is left of the current chain. */
    ghost var rest: seq<Entry>

    ghost predicate Valid()
      reads this, ht, ht.table, ht.repr
    {
      && ht.Valid() && index >= -1
      && (entry == null ==> rest == [])
      && (entry != null ==>
            && 0 <= index < ht.size && Suffix(rest, ht.chains[index])
            && nextEntry == if rest == [] then null else rest[0])
    }

    /** The entries still to be returned. */
    ghost function Todo(): seq<Entry>
      requires index >= -1
      reads this, ht
    {
      rest + Flat(ht.chains, index + 1)
    }

    constructor (ht: HashTable)
      requires ht.Valid()
      ensures Valid() && this.ht == ht && index == -1 && Todo() == Flat(ht.chains, 0)
    {
      hide ChainOk, Reaches, Flat, Suffix, PowerOfTwo;
      this.ht := ht;
      index, entry, nextEntry, rest := -1, null, null, [];
    }

    /** In the middle of a turn: 'entry' heads what is left of the chain. */
    ghost predicate Fetched()
      reads this, ht, ht.table, ht.repr
    {
      && ht.Valid() && 0 <= index < ht.size && Suffix(rest, ht.chains[index])
      && entry == if rest == [] then null else rest[0]
    }

    /** The first half of a turn: on to the next chain, or along the current one. */
    method Fetch() returns (end: bool)
      requires Valid() && ht.size <= INT_MAX
      modifies this
      ensures if end then Valid() && entry == null && old(Todo()) == [] && index > old(index)
              else Fetched() && index >= old(index)
      ensures index > old(index) || old(entry) != null
      ensures Todo() == old(Todo())
    {
      hide ChainOk, Reaches, Flat, Suffix, PowerOfTwo;
      if entry == null {
        Advance(ht.chains, index);
        index := index + 1;
        if index >= ht.size {
          return true;
        }
        SlotLinked(ht, index);
        entry := ht.table[index];
        rest := ht.chains[index];
      } else {
        entry := nextEntry;
      }
      return false;
    }

    /** The second half: the successor is noted before the entry is handed out. */
    method Save()
      requires Fetched() && entry != null
      modifies this`nextEntry, this`rest
      ensures Valid()
      ensures old(Todo()) != [] && entry == old(Todo())[0] && Todo() == old(Todo())[1..]
    {
      hide ChainOk, Reaches, Flat, Suffix, PowerOfTwo;
      SuffixLinked(ht, index, rest);
      TailOf(rest, ht.chains[index], Flat(ht.chains, index + 1));
      nextEntry := entry.next;
      rest := rest[1..];
    }

    /** dictNext */
    method Next() returns (e: Entry?)
      requires Valid() && ht.size <= INT_MAX
      modifies this
      ensures Valid() && ht.Valid() && index >= old(index)
      ensures (e == null) == (old(Todo()) == [])
      ensures e == null ==> Todo() == []
      ensures e != null ==> e == old(Todo())[0] && Todo() == old(Todo())[1..]
    {
      hide HashTable.Valid, Flat, Suffix;
      while true
        invariant Valid() && index >= old(index) && Todo() == old(Todo())
        decreases ht.size - index, entry != null
      {
        var end := Fetch();
        if end {
          return null;
        }
        if entry != null {
          Save();
          return entry;
        }
      }
    }

    /** An entry that has been returned, or any key that is not to come, may be deleted in between. */
    method DeleteSeen(key: Key) returns (ok: bool)
      requires Valid() && key !in KeysOf(Todo())
      modifies ht, ht.table, ht.repr`next
      ensures Valid() && ht.Valid() && Todo() == old(Todo())
      ensures ht.size == old(ht.size) && ht.table == old(ht.table) && ht.repr == old(ht.repr)
      ensures ok == (key in old(ht.contents)) && ht.contents == old(ht.contents) - {key}
    {
      hide Flat, Suffix, Slot, Without, KeysOf, HashTable.Hashed;
      if index < ht.size {
        TodoKept(ht, key, index, rest);
      }
      TableLengths(ht);
      FlatEnds(ht.chains, index + 1);
      ok := ht.Delete(key);
      TableLengths(ht);
      FlatEnds(ht.chains, index + 1);
    }
  }

  lemma FlatEnds(chains: seq<seq<Entry>>, k: nat)
    ensures k >= |chains| ==> Flat(chains, k) == []
  {
  }

  lemma {:induction false} TodoKept(ht: HashTable, key: Key, index: int, rest: seq<Entry>)
    requires ht.Valid() && -1 <= index < ht.size && key !in KeysOf(rest + Flat(ht.chains, index + 1))
    requires if index == -1 then rest == [] else rest == [] || Suffix(rest, ht.chains[index])
    ensures ht.size > 0 ==>
              var h := Slot(ht.hash, ht.size, key);
              var after := ht.chains[h := Without(ht.chains[h], key)];
              && Flat(after, index + 1) == Flat(ht.chains, index + 1)
              && (index >= 0 && Suffix(rest, ht.chains[index]) ==> Suffix(rest, after[index]))
  {
    hide Slot, Without, Suffix, Flat, HashTable.Hashed;
    if ht.size > 0 {
      TableLengths(ht);
      var h := Slot(ht.hash, ht.size, key);
      if h <= index {
        FlatSame(ht.chains, h, Without(ht.chains[h], key), index + 1);
        if h == index && Suffix(rest, ht.chains[h]) {
          assert KeysOf(rest) <= KeysOf(rest + Flat(ht.chains, index + 1));
          WithoutSuffix(ht.chains[h], key, rest);
        }
      } else {
        FlatCovers(ht.chains, h, index + 1);
        WithoutNone(ht.chains[h], key);
        assert ht.chains[h := ht.chains[h]] == ht.chains;
      }
    }
  }

  lemma TableLengths(ht: HashTable)
    requires ht.Hashed()
    ensures |ht.chains| == ht.size == ht.table.Length
  {
  }

  lemma {:induction false} FlatSame(chains: seq<seq<Entry>>, h: nat, c: seq<Entry>, k: nat)
    requires h < |chains| && h < k
    ensures Flat(chains[h := c], k) == Flat(chains, k)
    decreases |chains| - k
  {
    if k < |chains| {
      FlatSame(chains, h, c, k + 1);
    }
  }

  lemma {:induction false} FlatCovers(chains: seq<seq<Entry>>, s: nat, k: nat)
    requires k <= s < |chains|
    ensures forall e | e in chains[s] :: e in Flat(chains, k)
    decreases s - k
  {
    if k < s {
      FlatCovers(chains, s, k + 1);
    }
  }

  lemma {:induction false} WithoutNone(chain: seq<Entry>, key: Key)
    requires key !in KeysOf(chain)
    ensures Without(chain, key) == chain
  {
    if chain != [] {
      assert chain[0] in chain && forall e | e in chain[1..] :: e in chain;
      WithoutNone(chain[1..], key);
    }
  }

  lemma {:induction false} WithoutSuffix(chain: seq<Entry>, key: Key, rest: seq<Entry>)
    requires Suffix(rest, chain) && key !in KeysOf(rest)
    ensures Suffix(rest, Without(chain, key))
  {
    if |rest| == |chain| {
      WithoutNone(chain, key);
    } else {
      assert chain[1..][|chain| - 1 - |rest|..] == rest;
      WithoutSuffix(chain[1..], key, rest);
    }
  }

  /** All entries in order of iteration: the keys are those of the map, each once. */
  lemma {:induction false} FlatKeys(ht: HashTable, k: nat)
    requires ht.Hashed()
    ensures Distinct(Flat(ht.chains, k))
    ensures forall e | e in Flat(ht.chains, k) ::
              e.key in ht.contents && ht.size > 0 && Slot(ht.hash, ht.size, e.key) >= k
    decreases ht.size - k
  {
    hide Slot, Linked, Reaches;
    if k < ht.size {
      FlatKeys(ht, k + 1);
      assert ChainOk(ht.table[k], ht.chains[k], k, ht.hash, ht.size, ht.repr, ht.contents);
      DistinctUnion(ht.chains[k], Flat(ht.chains, k + 1));
    }
  }

  lemma {:induction false} DistinctUnion(a: seq<Entry>, b: seq<Entry>)
    requires Distinct(a) && Distinct(b)
    requires forall x, y | x in a && y in b :: x.key != y.key
    ensures Distinct(a + b)
  {
    forall i, j | 0 <= i < j < |a + b|
      ensures (a + b)[i].key != (a + b)[j].key
    {
      if i < |a| <= j {
        assert a[i] in a && b[j - |a|] in b;
      }
    }
  }

  lemma {:induction false} FlatIsContents(ht: HashTable)
    requires ht.Hashed()
    ensures KeysOf(Flat(ht.chains, 0)) == ht.contents.Keys
  {
    hide Slot, Flat, ChainOk;
    FlatKeys(ht, 0);
    forall k | k in ht.contents
      ensures k in KeysOf(Flat(ht.chains, 0))
    {
      var s := Slot(ht.hash, ht.size, k);
      var i :| 0 <= i < |ht.chains[s]| && ht.chains[s][i].key == k;
      FlatCovers(ht.chains, s, 0);
      assert ht.chains[s][i] in Flat(ht.chains, 0);
    }
  }

  function KeySeq(es: seq<Entry>): (ks: seq<Key>)
    ensures |ks| == |es|
  {
    seq(|es|, i requires 0 <= i < |es| => es[i].key)
  }

  /** A walk over the whole table in which the entries named in 'doomed' are deleted as soon as they are
      returned: every key is visited exactly once all the same. */
  method VisitAll(ht: HashTable, doomed: set<Key>) returns (visited: seq<Key>)
    requires ht.Valid() && ht.size <= INT_MAX
    modifies ht, ht.table, ht.repr`next
    ensures ht.Valid() && ht.contents == old(ht.contents) - doomed
    ensures forall i, j | 0 <= i < j < |visited| :: visited[i] != visited[j]
    ensures (set k | k in visited) == old(ht.contents).Keys
  {
    hide Flat, KeysOf, HashTable.Valid, Visiting, Distinct, Iterator.Valid, Slot, Without;
    ghost var all, contents0 := Flat(ht.chains, 0), ht.contents;
    AllVisited(ht, all, doomed);
    var it := new Iterator(ht);
    visited := [];
    ghost var left := all;
    FirstOfRest(all, 0);
    var e := it.Next();
    while e != null
      invariant it.Valid() && it.index >= -1 && it.ht == ht && ht.Valid() && fresh(it)
      invariant ht.size == old(ht.size) && ht.table == old(ht.table) && ht.repr == old(ht.repr)
      invariant Visiting(all, visited, contents0, doomed, ht.contents)
      invariant |visited| <= |all| && left == all[|visited|..] && (e == null <==> left == [])
      invariant e != null ==> e == left[0] && it.Todo() == left[1..]
      decreases |left|
    {
      FirstOfRest(all, |visited|);
      NotToCome(all, visited, contents0, doomed, ht.contents);
      DropIfDoomed(it, e.key, doomed);
      visited := visited + [e.key];
      left := left[1..];
      e := it.Next();
    }
    FirstOfRest(all, |visited|);
    VisitedAll(all, visited, contents0, doomed, ht.contents);
  }

  method DropIfDoomed(it: Iterator, key: Key, doomed: set<Key>)
    requires it.Valid() && it.ht.Valid() && key !in KeysOf(it.Todo())
    modifies it.ht, it.ht.table, it.ht.repr`next
    ensures it.Valid() && it.ht.Valid() && it.index >= -1 && it.Todo() == old(it.Todo())
    ensures it.ht.size == old(it.ht.size) && it.ht.table == old(it.ht.table) && it.ht.repr == old(it.ht.repr)
    ensures it.ht.contents == if key in doomed then old(it.ht.contents) - {key} else old(it.ht.contents)
  {
    hide Flat, KeysOf, HashTable.Valid, Slot, Without;
    if key in doomed {
      var _ := it.DeleteSeen(key);
    }
  }

  lemma FirstOfRest<T>(all: seq<T>, n: nat)
    requires n <= |all|
    ensures all[n..] == [] <==> n == |all|
    ensures all[0..] == all
    ensures n < |all| ==> all[n..][0] == all[n] && all[n..][1..] == all[n + 1..]
  {
  }

  /** The first entries have been visited, and those of them that are doomed have been deleted. */
  ghost predicate Visiting(all: seq<Entry>, visited: seq<Key>, contents0: map<Key, Val>, doomed: set<Key>,
                           contents: map<Key, Val>)
  {
    && Distinct(all) && KeysOf(all) == contents0.Keys
    && |visited| <= |all| && visited == KeySeq(all[..|visited|])
    && contents == contents0 - (doomed * set k | k in visited)
  }

  lemma AllVisited(ht: HashTable, all: seq<Entry>, doomed: set<Key>)
    requires ht.Valid() && all == Flat(ht.chains, 0)
    ensures Visiting(all, [], ht.contents, doomed, ht.contents)
  {
    hide Flat;
    FlatKeys(ht, 0);
    FlatIsContents(ht);
  }

  lemma {:induction false} NotToCome(all: seq<Entry>, visited: seq<Key>, contents0: map<Key, Val>, doomed: set<Key>,
                                     contents: map<Key, Val>)
    requires Visiting(all, visited, contents0, doomed, contents) && |visited| < |all|
    ensures var e := all[|visited|];
            && e.key !in KeysOf(all[|visited| + 1..])
            && Visiting(all, visited + [e.key], contents0, doomed,
                        if e.key in doomed then contents - {e.key} else contents)
  {
    var e := all[|visited|];
    assert KeySeq(all[..|visited| + 1]) == KeySeq(all[..|visited|]) + [e.key];
    var was, now := set k | k in visited, set k | k in visited + [e.key];
    assert now == was + {e.key};
  }

  lemma {:induction false} VisitedAll(all: seq<Entry>, visited: seq<Key>, contents0: map<Key, Val>, doomed: set<Key>,
                                      contents: map<Key, Val>)
    requires Visiting(all, visited, contents0, doomed, contents) && |visited| == |all|
    ensures contents == contents0 - doomed
    ensures forall i, j | 0 <= i < j < |visited| :: visited[i] != visited[j]
    ensures (set k | k in visited) == contents0.Keys
  {
    assert all[..|all|] == all;
    forall k | k in contents0
      ensures k in visited
    {
      var i :| 0 <= i < |all| && all[i].key == k;
      assert visited[i] == k;
    }
  }

  lemma {:induction false} Advance(chains: seq<seq<Entry>>, index: int)
    requires index >= -1
    ensures index + 1 < |chains| ==> [] + Flat(chains, index + 1) == chains[index + 1] + Flat(chains, index + 2)
    ensures index + 1 >= |chains| ==> Flat(chains, index + 1) == [] && Flat(chains, index + 2) == []
  {
  }

  /** A suffix of a chain starts with an entry whose successor starts the next smaller suffix. */
  lemma {:induction false} SuffixLinked(ht: HashTable, s: nat, rest: seq<Entry>)
    requires ht.Hashed() && s < ht.size && Suffix(rest, ht.chains[s])
    ensures rest != [] ==> rest[0].next == if |rest| == 1 then null else rest[1]
  {
    hide Fits, Reaches;
    var chain := ht.chains[s];
    assert Linked(ht.table[s], chain);
    var at := |chain| - |rest|;
    assert |rest| > 0 ==> rest[0] == chain[at];
    assert |rest| > 1 ==> rest[1] == chain[at + 1];
  }

  lemma {:induction false} SlotLinked(ht: HashTable, s: nat)
    requires ht.Hashed() && s < ht.size
    ensures (ht.table[s] == null) == (ht.chains[s] == [])
    ensures ht.chains[s] != [] ==> ht.table[s] == ht.chains[s][0]
    ensures Suffix(ht.chains[s], ht.chains[s])
  {
    hide Fits, Reaches;
    assert Linked(ht.table[s], ht.chains[s]);
  }

  lemma TailOf(rest: seq<Entry>, chain: seq<Entry>, later: seq<Entry>)
    requires rest != [] && Suffix(rest, chain)
    ensures Suffix(rest[1..], chain)
    ensures (rest + later)[0] == rest[0] && (rest + later)[1..] == rest[1..] + later
  {
  }
}
