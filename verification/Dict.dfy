/**
 The chained hash table: an array of singly linked chains, rewritten in place when an entry is added or
 deleted and when the table doubles.  'contents' is the finite map the table stands for, and 'chains' lists
 the entries of each slot in the order of their links.  A chain is sound when it is linked, when every key
 in it belongs to its slot and occurs once, and when its values are those of the map; conversely every key
 of the map occurs in the chain of its slot.  Each operation changes one chain, and doubling moves entry
 after entry into a table that is sound all along.
 */
module Dict {
  import opened Bytes

  type Key = bytes
  type Val = nat

  const INITIAL_SIZE: nat := 4
  const LONG_MAX: nat := 0x7fff_ffff_ffff_ffff

  /** Slot numbers are passed around as C ints, so no table may double beyond this size. */
  const MAX_SIZE: nat := 0x4000_0000

  // ---------- slots ----------

  /** Bitwise and. */
  function And(a: nat, b: nat): nat
    decreases a
  {
    if a == 0 || b == 0 then 0 else (a % 2) * (b % 2) + 2 * And(a / 2, b / 2)
  }

  predicate PowerOfTwo(n: nat) {
    n == 1 || (n > 1 && n % 2 == 0 && PowerOfTwo(n / 2))
  }

  lemma {:induction false} MaskIsRemainder(a: nat, n: nat)
    requires PowerOfTwo(n)
    ensures And(a, n - 1) == a % n
    decreases n
  {
    if n == 1 {
      assert a % 1 == 0;
    } else if a == 0 {
      assert 0 % n == 0;
    } else {
      MaskIsRemainder(a / 2, n / 2);
      assert (n - 1) / 2 == n / 2 - 1 && (n - 1) % 2 == 1;
      HalvesOfRemainder(a, n / 2);
    }
  }

  lemma HalvesOfRemainder(a: nat, m: nat)
    requires m > 0
    ensures a % (2 * m) == a % 2 + 2 * ((a / 2) % m)
  {
    var q, r := (a / 2) / m, (a / 2) % m;
    assert a == 2 * (q * m + r) + a % 2;
    assert a == q * (2 * m) + (2 * r + a % 2);
    RemainderIs(a, 2 * m, q, 2 * r + a % 2);
  }

  lemma RemainderIs(a: nat, m: nat, q: nat, r: nat)
    requires m > 0 && r < m && a == q * m + r
    ensures a % m == r
  {
    var d := a / m - q;
    assert d * m == r - a % m by {
      assert a == (a / m) * m + a % m;
      assert (a / m - q) * m == (a / m) * m - q * m;
    }
    assert d >= 1 ==> d * m >= m;
    assert d <= -1 ==> d * m + m <= 0;
  }

  /** _dictNextPower */
  method NextPower(size: nat) returns (r: nat)
    ensures size >= LONG_MAX ==> r == LONG_MAX
    ensures size < LONG_MAX ==> PowerOfTwo(r) && r >= INITIAL_SIZE && r >= size && (r > INITIAL_SIZE ==> r / 2 < size)
  {
    if size >= LONG_MAX {
      return LONG_MAX;
    }
    r := INITIAL_SIZE;
    while r < size
      invariant r >= INITIAL_SIZE && PowerOfTwo(r) && (r > INITIAL_SIZE ==> r / 2 < size)
      decreases size - r
    {
      r := r * 2;
    }
  }

  lemma {:induction false} PowerIsExact(size: nat, r: nat)
    requires PowerOfTwo(size) && PowerOfTwo(r) && r >= size && r / 2 < size
    ensures r == size
    decreases r
  {
    if size > 1 {
      PowerIsExact(size / 2, r / 2);
    }
  }

  // ---------- chains ----------

  class Entry {
    const key: Key
    var val: Val
    var next: Entry?

    constructor (key: Key, val: Val)
      ensures this.key == key && this.val == val
    {
      this.key, this.val := key, val;
    }
  }

  ghost predicate Linked(first: Entry?, chain: seq<Entry>)
    reads chain`next
  {
    && (chain == [] ==> first == null)
    && (chain != [] ==> first == chain[0] && chain[|chain| - 1].next == null)
    && (forall i | 0 <= i < |chain| - 1 :: chain[i].next == chain[i + 1])
  }

  function Slot(hash: Key -> nat, size: nat, key: Key): (s: nat)
    requires size > 0
    ensures s < size
  {
    hash(key) % size
  }

  /** The entries of slot 's': every key belongs here and occurs once, and the values are those of the map. */
  ghost predicate Fits(chain: seq<Entry>, s: nat, hash: Key -> nat, size: nat, repr: set<Entry>,
                       contents: map<Key, Val>)
    requires size > 0
    reads chain`val
  {
    && (forall i | 0 <= i < |chain| :: chain[i] in repr && Slot(hash, size, chain[i].key) == s)
    && Distinct(chain)
    && (forall i | 0 <= i < |chain| :: chain[i].key in contents && contents[chain[i].key] == chain[i].val)
  }

  ghost predicate ChainOk(first: Entry?, chain: seq<Entry>, s: nat, hash: Key -> nat, size: nat,
                          repr: set<Entry>, contents: map<Key, Val>)
    requires size > 0
    reads chain
  {
    Linked(first, chain) && Fits(chain, s, hash, size, repr, contents)
  }

  ghost predicate Distinct(chain: seq<Entry>) {
    forall i, j | 0 <= i < j < |chain| :: chain[i].key != chain[j].key
  }

  ghost predicate Occurs(chain: seq<Entry>, key: Key) {
    exists i :: 0 <= i < |chain| && chain[i].key == key
  }

  /** Every key of the map occurs in the chain of its slot. */
  ghost predicate Reaches(hash: Key -> nat, chains: seq<seq<Entry>>, contents: map<Key, Val>) {
    forall k | k in contents :: |chains| > 0 && Occurs(chains[Slot(hash, |chains|, k)], k)
  }

  lemma {:induction false} ReachesMore(hash: Key -> nat, chains: seq<seq<Entry>>, contents: map<Key, Val>, h: nat,
                                       e: Entry)
    requires h < |chains| && h == Slot(hash, |chains|, e.key) && Reaches(hash, chains, contents)
    ensures Reaches(hash, chains[h := [e] + chains[h]], contents[e.key := e.val])
  {
    hide Slot, Occurs;
    OccursMore(e, chains[h]);
  }

  lemma {:induction false} ReachesLess(hash: Key -> nat, chains: seq<seq<Entry>>, contents: map<Key, Val>, h: nat,
                                       key: Key)
    requires h < |chains| && Reaches(hash, chains, contents)
    ensures Reaches(hash, chains[h := Without(chains[h], key)], contents - {key})
  {
    hide Slot, Occurs, Without;
    forall k | k in contents - {key}
      ensures Occurs(chains[h := Without(chains[h], key)][Slot(hash, |chains|, k)], k)
    {
      if Slot(hash, |chains|, k) == h {
        OccursLess(chains[h], key, k);
      }
    }
  }

  lemma {:induction false} OccursLess(chain: seq<Entry>, key: Key, k: Key)
    requires Occurs(chain, k) && k != key
    ensures Occurs(Without(chain, key), k)
  {
    var i :| 0 <= i < |chain| && chain[i].key == k;
    if chain[0].key == key {
      assert chain[1..][i - 1].key == k;
    } else if i == 0 {
      assert Without(chain, key)[0].key == k;
    } else {
      assert chain[1..][i - 1].key == k;
      OccursLess(chain[1..], key, k);
      var j :| 0 <= j < |Without(chain[1..], key)| && Without(chain[1..], key)[j].key == k;
      assert Without(chain, key)[j + 1].key == k;
    }
  }

  /** A new key leaves the other chains alone. */
  lemma {:induction false} ChainKeeps(first: Entry?, chain: seq<Entry>, s: nat, hash: Key -> nat, size: nat,
                                      repr: set<Entry>, contents: map<Key, Val>, e: Entry)
    requires size > 0 && ChainOk(first, chain, s, hash, size, repr, contents)
    requires e.key !in contents
    ensures ChainOk(first, chain, s, hash, size, repr + {e}, contents[e.key := e.val])
  {
    hide Linked;
  }

  lemma {:induction false} ChainGrows(first: Entry?, chain: seq<Entry>, s: nat, hash: Key -> nat, size: nat,
                                      repr: set<Entry>, contents: map<Key, Val>, e: Entry)
    requires size > 0 && ChainOk(first, chain, s, hash, size, repr, contents)
    requires e.key !in contents && e.next == first && Slot(hash, size, e.key) == s
    ensures ChainOk(e, [e] + chain, s, hash, size, repr + {e}, contents[e.key := e.val])
  {
    ChainKeeps(first, chain, s, hash, size, repr, contents, e);
    assert forall i | 1 <= i < |[e] + chain| :: ([e] + chain)[i] == chain[i - 1];
  }

  class HashTable {
    const hash: Key -> nat
    var table: array<Entry?>
    var size: nat
    var sizemask: nat
    var used: nat
    ghost var chains: seq<seq<Entry>>
    ghost var contents: map<Key, Val>
    ghost var repr: set<Entry>

    /** Chains and map agree. */
    ghost predicate Hashed()
      reads `table, `size, `sizemask, `chains, `contents, `repr, table, repr
    {
      && table.Length == size == |chains|
      && sizemask == (if size == 0 then 0 else size - 1)
      && (forall s | 0 <= s < size :: (forall e | e in chains[s] :: e in repr)
                                      && ChainOk(table[s], chains[s], s, hash, size, repr, contents))
      && Reaches(hash, chains, contents)
    }

    ghost predicate Valid()
      reads this, table, repr
    {
      && Hashed()
      && (size == 0 || (size >= INITIAL_SIZE && PowerOfTwo(size)))
      && used == |contents| <= size
    }

    constructor (hash: Key -> nat)
      ensures Valid() && contents == map[] && this.hash == hash && repr == {} && fresh(table)
    {
      this.hash := hash;
      table := new Entry?[0];
      size, sizemask, used := 0, 0, 0;
      chains, contents, repr := [], map[], {};
    }

    /** Puts an entry at the head of its chain. */
    method Hang(e: Entry, h: nat)
      requires Hashed() && size > 0 && h == Slot(hash, size, e.key) && e.key !in contents && e !in repr
      modifies this`chains, this`contents, this`repr, table, e`next
      ensures Hashed() && contents == old(contents)[e.key := e.val] && repr == old(repr) + {e}
    {
      hide Linked, Slot, Reaches;
      ghost var first := table[h];
      e.next := table[h];
      table[h] := e;
      assert forall s | 0 <= s < size ::
          ChainOk(old(table[s]), chains[s], s, hash, size, repr, contents);
      forall s | 0 <= s < size && s != h
        ensures ChainOk(table[s], chains[s], s, hash, size, repr + {e}, contents[e.key := e.val])
      {
        ChainKeeps(table[s], chains[s], s, hash, size, repr, contents, e);
      }
      ChainGrows(first, chains[h], h, hash, size, repr, contents, e);
      ReachesMore(hash, chains, contents, h, e);
      chains := chains[h := [e] + chains[h]];
      contents := contents[e.key := e.val];
      repr := repr + {e};
    }

    /** A table of empty slots, as it is allocated when another one is to be enlarged. */
    constructor Empty(hash: Key -> nat, size: nat, used: nat)
      requires size > 0
      ensures Hashed() && contents == map[] && this.hash == hash && this.size == size && this.used == used
      ensures repr == {} && fresh(table)
    {
      this.hash, this.size, this.sizemask, this.used := hash, size, size - 1, used;
      table := new Entry?[size](i => null);
      chains, contents, repr := seq(size, i => []), map[], {};
    }

    /** One turn of the loop that moves a chain of another table into this one: 'he' is hung here and the
        rest of its chain stays linked. */
    method TakeHead(he: Entry, ghost chain: seq<Entry>) returns (nextHe: Entry?)
      requires Hashed() && size > 0 && PowerOfTwo(size)
      requires chain != [] && Linked(he, chain) && Distinct(chain)
      requires he.key !in contents && he !in repr
      modifies this`chains, this`contents, this`repr, table, he`next
      ensures Hashed() && Linked(nextHe, chain[1..])
      ensures contents == old(contents)[he.key := he.val] && repr == old(repr) + {he}
    {
      hide Hashed, Slot;
      nextHe := he.next;
      assert forall i | 0 <= i < |chain| - 1 :: chain[1..][i] == chain[i + 1];
      assert he !in chain[1..];
      assert Linked(nextHe, chain[1..]);
      var h := HashAt(he.key);
      Hang(he, h);
    }

    /** Moves a chain of another table into this one, entry by entry. */
    method TakeChain(first: Entry?, ghost chain: seq<Entry>, ghost target: map<Key, Val>) returns (moved: nat)
      requires Hashed() && size > 0 && PowerOfTwo(size)
      requires Linked(first, chain) && Distinct(chain)
      requires forall e | e in chain :: e.key !in contents && e !in repr
      requires SubMap(contents, target) && forall e | e in chain :: e.key in target && target[e.key] == e.val
      modifies this`chains, this`contents, this`repr, table, chain`next
      ensures Hashed() && SubMap(contents, target)
      ensures moved == |chain| && |contents| == |old(contents)| + |chain|
      ensures contents.Keys == old(contents).Keys + KeysOf(chain)
      ensures repr == old(repr) + EntriesOf(chain)
    {
      hide Hashed, Slot, Linked, Moved, KeysOf, EntriesOf, SubMap, Distinct;
      ghost var contents0, repr0 := contents, repr;
      moved := 0;
      var he := first;
      assert chain[0..] == chain;
      MovedNone(contents, repr, chain, target);
      while he != null
        invariant moved <= |chain| && Linked(he, chain[moved..])
        invariant Hashed() && Moved(contents0, repr0, contents, repr, chain[..moved], target)
        decreases |chain| - moved
      {
        LinkedHead(he, chain[moved..]);
        MovedOne(contents0, repr0, contents, repr, chain, moved, target);
        he := TakeHead(he, chain[moved..]);
        moved := moved + 1;
      }
      LinkedHead(he, chain[moved..]);
      assert chain[..moved] == chain;
      MovedAll(contents0, repr0, contents, repr, chain, target);
    }

    /** The slot of a key, computed with the mask. */
    method HashAt(key: Key) returns (h: nat)
      requires Hashed() && size > 0 && PowerOfTwo(size)
      ensures h == Slot(hash, size, key)
    {
      MaskIsRemainder(hash(key), size);
      h := And(hash(key), sizemask);
    }

    /** The chains from slot 'i' on are still as they were. */
    ghost predicate Waiting(i: nat)
      reads this, table, repr
    {
      && i <= size == table.Length == |chains|
      && (forall s | i <= s < size :: (forall e | e in chains[s] :: e in repr)
                                      && ChainOk(table[s], chains[s], s, hash, size, repr, contents))
    }

    /** All the chains before slot 'i' are in the new table, and 'used' counts what is left. */
    ghost predicate MovedTo(n: HashTable, i: nat)
      reads this, n, n.table, n.repr
    {
      && n != this && n.Hashed() && n.size > 0 && n.table != table && PowerOfTwo(n.size)
      && i <= size == |chains| && n.hash == hash && used + |n.contents| == |contents|
      && Rehashed(hash, chains, i, n.contents, n.repr, contents, repr)
    }

    method MoveSlot(n: HashTable, i: nat)
      requires i < size && Waiting(i) && MovedTo(n, i)
      modifies this`used, n`chains, n`contents, n`repr, n.table, repr`next
      ensures Waiting(i + 1) && MovedTo(n, i + 1)
    {
      hide Linked, Slot, Rehashed, SubMap, KeysOf, EntriesOf, Hashed, Distinct;
      OtherChains(chains, i, hash, table[..], repr, contents);
      RehashedStart(hash, chains, i, table[i], n.contents, n.repr, contents, repr);
      ghost var c0, r0 := n.contents, n.repr;
      var moved := n.TakeChain(table[i], chains[i], contents);
      SubMapSmaller(n.contents, contents);
      used := used - moved;
      RehashedNext(hash, chains, i, c0, r0, n.contents, n.repr, contents, repr);
    }

    lemma NothingMoved(n: HashTable)
      requires Valid() && n != this && n.Hashed() && n.size > 0 && n.table != table && PowerOfTwo(n.size)
      requires n.hash == hash && n.contents == map[] && n.repr == {}
      ensures Reaches(hash, chains, contents) && Waiting(0) && MovedTo(n, 0)
    {
      hide ChainOk, Rehashed;
      RehashedNone(hash, chains, contents, repr);
    }

    lemma EverythingMoved(n: HashTable, i: nat)
      requires Reaches(hash, chains, contents) && MovedTo(n, i) && (i == size || used == 0)
      ensures n.Hashed() && n.contents == contents && n.repr <= repr && used == 0
    {
      hide ChainOk, Slot, Occurs, Hashed;
      RehashedAll(hash, chains, i, n.contents, n.repr, contents, repr);
    }

    /** dictExpand: a new array of slots takes over all the entries. */
    method Expand(newSize: nat) returns (ok: bool)
      requires Valid() && newSize < LONG_MAX
      modifies this, repr`next
      ensures Valid() && contents == old(contents) && repr <= old(repr)
      ensures ok == (old(used) <= newSize)
      ensures !ok ==> table == old(table) && size == old(size) && chains == old(chains)
      ensures ok ==>
                && PowerOfTwo(size) && size >= INITIAL_SIZE && size >= newSize
                && (size > INITIAL_SIZE ==> size / 2 < newSize)
      ensures ok ==> fresh(table)
    {
      hide ChainOk, Slot, Rehashed, Occurs, PowerOfTwo, Waiting, MovedTo, Hashed;
      var realSize := NextPower(newSize);
      if used > newSize {
        return false;
      }
      var n := new HashTable.Empty(hash, realSize, used);
      NothingMoved(n);
      MoveAll(n);
      Adopt(n);
      return true;
    }

    /** The new table replaces the old one. */
    method Adopt(n: HashTable)
      requires n.Hashed() && n.hash == hash && n != this
      modifies this
      ensures Hashed() && table == n.table && size == n.size && used == n.used
      ensures contents == n.contents && repr == n.repr && n.used == old(n.used)
    {
      hide Hashed;
      table, size, sizemask, used := n.table, n.size, n.sizemask, n.used;
      chains, contents, repr := n.chains, n.contents, n.repr;
      Copied(n);
    }

    lemma Copied(n: HashTable)
      requires n.Hashed() && n.hash == hash && table == n.table && size == n.size && sizemask == n.sizemask
      requires chains == n.chains && contents == n.contents && repr == n.repr
      ensures Hashed()
    {
    }

    method MoveAll(n: HashTable)
      requires n != this && Reaches(hash, chains, contents) && Waiting(0) && MovedTo(n, 0)
      modifies this`used, n`chains, n`contents, n`repr, n.table, repr`next
      ensures n.Hashed() && n.contents == contents && n.repr <= repr && used == 0
    {
      hide ChainOk, Slot, Rehashed, Occurs, PowerOfTwo, Waiting, MovedTo;
      var i := 0;
      while i < size && used > 0
        invariant 0 <= i <= size && Waiting(i) && MovedTo(n, i)
        decreases size - i
      {
        MoveSlot(n, i);
        i := i + 1;
      }
      EverythingMoved(n, i);
    }

    /** dictFind */
    method Find(key: Key) returns (e: Entry?)
      requires Valid()
      ensures (e == null) == (key !in contents)
      ensures e != null ==>
                && size > 0 && e in chains[Slot(hash, size, key)] && e in repr
                && e.key == key && e.val == contents[key]
    {
      hide Slot;
      if size == 0 {
        return null;
      }
      var h := HashAt(key);
      e := Walk(key, h);
    }

    /** Goes along a chain to the entry with the given key. */
    method Walk(key: Key, h: nat) returns (he: Entry?)
      requires Hashed() && size > 0 && h == Slot(hash, size, key)
      ensures (he == null) == (key !in contents)
      ensures he != null ==> he in chains[h] && he in repr && he.key == key && he.val == contents[key]
    {
      hide Slot;
      he := table[h];
      ghost var i := 0;
      while he != null
        invariant 0 <= i <= |chains[h]| && he == (if i < |chains[h]| then chains[h][i] else null)
        invariant forall j | 0 <= j < i :: chains[h][j].key != key
        decreases |chains[h]| - i
      {
        if he.key == key {
          return he;
        }
        he := he.next;
        i := i + 1;
      }
    }

    /** _dictExpandIfNeeded */
    method ExpandIfNeeded() returns (ok: bool)
      requires Valid() && size <= MAX_SIZE
      modifies this, repr`next
      ensures ok && Valid() && contents == old(contents) && repr <= old(repr)
      ensures size == if old(size) == 0 then INITIAL_SIZE else if old(used == size) then 2 * old(size) else old(size)
      ensures used < size
      ensures table == old(table) || fresh(table)
    {
      hide Hashed;
      if size == 0 {
        ok := Expand(INITIAL_SIZE);
      } else if used == size {
        ghost var wanted := size * 2;
        ok := Expand(size * 2);
        PowerIsExact(wanted, size);
      } else {
        ok := true;
      }
    }

    /** _dictKeyIndex: the slot for a new key, or -1 if the key is there already.  The table may have been
        enlarged in either case. */
    method KeyIndex(key: Key) returns (index: int)
      requires Valid() && size <= MAX_SIZE
      modifies this, repr`next
      ensures Valid() && contents == old(contents) && repr <= old(repr) && used < size
      ensures table == old(table) || fresh(table)
      ensures index == if key in contents then -1 else Slot(hash, size, key)
    {
      hide Slot, Hashed;
      var ok := ExpandIfNeeded();
      if !ok {
        return -1;
      }
      var h := HashAt(key);
      var he := Walk(key, h);
      return if he == null then h else -1;
    }

    /** dictAdd */
    method Add(key: Key, val: Val) returns (ok: bool)
      requires Valid() && size <= MAX_SIZE
      modifies this, table, repr`next
      ensures Valid() && fresh(repr - old(repr)) && (table == old(table) || fresh(table))
      ensures ok == (key !in old(contents)) && (!ok ==> repr <= old(repr))
      ensures contents == if ok then old(contents)[key := val] else old(contents)
    {
      hide Hashed, Slot;
      var index := KeyIndex(key);
      if index == -1 {
        return false;
      }
      var entry := new Entry(key, val);
      Hang(entry, index);
      used := used + 1;
      return true;
    }

    /** dictReplace: true when the key is new. */
    method Replace(key: Key, val: Val) returns (added: bool)
      requires Valid() && size <= MAX_SIZE
      modifies this, table, repr
      ensures Valid() && fresh(repr - old(repr)) && (table == old(table) || fresh(table))
      ensures added == (key !in old(contents))
      ensures contents == old(contents)[key := val]
    {
      hide Hashed, Slot;
      added := Add(key, val);
      if !added {
        var entry := Find(key);
        SetVal(entry, val);
      }
    }

    method SetVal(entry: Entry, val: Val)
      requires Valid() && size > 0 && entry in chains[Slot(hash, size, entry.key)] && entry.key in contents
      modifies this`contents, entry`val
      ensures Valid() && contents == old(contents)[entry.key := val]
    {
      hide Slot, Linked, Occurs;
      forall s, e | 0 <= s < size && e in chains[s] && e.key == entry.key
        ensures e == entry
      {
        SameKey(s, e, entry);
      }
      entry.val := val;
      contents := contents[entry.key := val];
    }

    lemma SameKey(s: nat, e: Entry, entry: Entry)
      requires Hashed() && s < size && e in chains[s] && entry in chains[Slot(hash, size, entry.key)]
      requires e.key == entry.key
      ensures e == entry
    {
      hide Slot, Linked;
    }

    /** dictDelete */
    method Delete(key: Key) returns (ok: bool)
      requires Valid()
      modifies this, table, repr`next
      ensures Valid() && table == old(table) && size == old(size) && repr == old(repr)
      ensures ok == (key in old(contents)) && contents == old(contents) - {key}
      ensures chains == if !ok then old(chains)
                        else old(chains[Slot(hash, size, key) := Without(chains[Slot(hash, size, key)], key)])
    {
      hide Slot, Without, Reaches, Fits, Occurs, PowerOfTwo;
      if size == 0 {
        return false;
      }
      var h := HashAt(key);
      var de, prevde: Entry? := table[h], null;
      ghost var i := 0;
      while de != null
        invariant 0 <= i <= |chains[h]| && de == (if i < |chains[h]| then chains[h][i] else null)
        invariant prevde == if i == 0 then null else chains[h][i - 1]
        invariant forall j | 0 <= j < i :: chains[h][j].key != key
        decreases |chains[h]| - i
      {
        if de.key == key {
          Unlink(h, prevde, de, i);
          return true;
        }
        prevde := de;
        de := de.next;
        i := i + 1;
      }
      NotThere(key, h);
      return false;
    }

    /** A key that is not in its chain is not in the map. */
    lemma NotThere(key: Key, h: nat)
      requires Valid() && 0 < size && h == Slot(hash, size, key)
      requires forall j | 0 <= j < |chains[h]| :: chains[h][j].key != key
      ensures key !in contents
    {
      hide Slot, Fits, PowerOfTwo;
    }

    method Unlink(h: nat, prevde: Entry?, de: Entry, ghost i: nat)
      requires Valid() && h < size && i < |chains[h]| && de == chains[h][i]
      requires prevde == if i == 0 then null else chains[h][i - 1]
      modifies this`used, this`chains, this`contents, table, repr`next
      ensures Valid() && de.key in old(contents) && contents == old(contents) - {de.key}
      ensures chains == old(chains[h := Without(chains[h], de.key)]) && repr == old(repr)
    {
      hide Slot, Reaches, Without, Linked, Fits, Occurs, PowerOfTwo;
      ghost var key := de.key;
      WithoutOne(h, i);
      Relink(h, prevde, de, i);
      used := used - 1;
      chains := chains[h := Without(chains[h], key)];
      contents := contents - {key};
    }

    /** What is left fits, once the links are right. */
    lemma WithoutOne(h: nat, i: nat)
      requires Hashed() && h < size && i < |chains[h]|
      ensures var key, chain := chains[h][i].key, chains[h];
              && key in contents && |contents - {key}| == |contents| - 1
              && Without(chain, key) == chain[..i] + chain[i + 1..]
              && Reaches(hash, chains[h := Without(chain, key)], contents - {key})
              && (forall s | 0 <= s < size && s != h :: Fits(chains[s], s, hash, size, repr, contents - {key}))
              && Fits(Without(chain, key), h, hash, size, repr, contents - {key})
    {
      hide Slot, Reaches, Without, Linked, Occurs, KeysOf;
      var key, chain := chains[h][i].key, chains[h];
      forall s | 0 <= s < size && s != h
        ensures Fits(chains[s], s, hash, size, repr, contents - {key})
      {
        OtherSlot(s, h, chain[i]);
        FitsKeepsLess(chains[s], s, hash, size, repr, contents, key);
      }
      ReachesLess(hash, chains, contents, h, key);
      WithoutAt(chain, i);
      RemoveOne(contents, key);
      FitsLess(chain, i, h, hash, size, repr, contents);
    }

    /** The predecessor, or the slot, is made to point past an entry. */
    method Relink(h: nat, prevde: Entry?, de: Entry, ghost i: nat)
      requires Hashed() && h < size && i < |chains[h]| && de == chains[h][i]
      requires prevde == if i == 0 then null else chains[h][i - 1]
      modifies table, repr`next
      ensures Linked(table[h], chains[h][..i] + chains[h][i + 1..])
      ensures forall s | 0 <= s < size && s != h :: Linked(table[s], chains[s])
    {
      hide Slot, Reaches;
      ghost var chain := chains[h];
      if prevde != null {
        forall s | 0 <= s < size && s != h
          ensures prevde !in chains[s]
        {
          OtherSlot(s, h, prevde);
        }
        prevde.next := de.next;
      } else {
        table[h] := de.next;
      }
      LinkedLess(table[h], chain, i);
    }

    lemma OtherSlot(s: nat, h: nat, e: Entry)
      requires Hashed() && s < size && h < size && s != h && e in chains[h]
      ensures e.key !in KeysOf(chains[s]) && e !in chains[s]
    {
      hide Slot, Linked;
    }
  }

  lemma {:induction false} FitsKeepsLess(chain: seq<Entry>, s: nat, hash: Key -> nat, size: nat,
                                         repr: set<Entry>, contents: map<Key, Val>, key: Key)
    requires size > 0 && Fits(chain, s, hash, size, repr, contents) && key !in KeysOf(chain)
    ensures Fits(chain, s, hash, size, repr, contents - {key})
  {
  }

  lemma {:induction false} FitsLess(chain: seq<Entry>, i: nat, s: nat, hash: Key -> nat, size: nat,
                                    repr: set<Entry>, contents: map<Key, Val>)
    requires size > 0 && i < |chain| && Fits(chain, s, hash, size, repr, contents)
    ensures Fits(chain[..i] + chain[i + 1..], s, hash, size, repr, contents - {chain[i].key})
  {
    hide Slot;
  }

  /** After its predecessor, or the slot, points past entry 'i'. */
  lemma {:induction false} LinkedLess(first: Entry?, chain: seq<Entry>, i: nat)
    requires i < |chain| && first == if i == 0 then chain[0].next else chain[0]
    requires chain[|chain| - 1].next == null || i == |chain| - 2
    requires chain[i].next == if i + 1 < |chain| then chain[i + 1] else null
    requires i > 0 ==> chain[i - 1].next == chain[i].next
    requires forall j | 0 <= j < |chain| - 1 && j != i - 1 :: chain[j].next == chain[j + 1]
    requires i != |chain| - 1 ==> chain[|chain| - 1].next == null
    ensures Linked(first, chain[..i] + chain[i + 1..])
  {
    var r := chain[..i] + chain[i + 1..];
    assert forall j | 0 <= j < |r| :: r[j] == if j < i then chain[j] else chain[j + 1];
  }

  /** A chain without the entry of the given key. */
  function Without(chain: seq<Entry>, key: Key): seq<Entry> {
    if chain == [] then []
    else if chain[0].key == key then chain[1..]
    else [chain[0]] + Without(chain[1..], key)
  }

  lemma {:induction false} WithoutAt(chain: seq<Entry>, i: nat)
    requires i < |chain| && Distinct(chain)
    ensures Without(chain, chain[i].key) == chain[..i] + chain[i + 1..]
  {
    if i == 0 {
    } else {
      assert forall a, b | 0 <= a < b < |chain[1..]| :: chain[1..][a] == chain[a + 1] && chain[1..][b] == chain[b + 1];
      WithoutAt(chain[1..], i - 1);
      assert chain[..i] == [chain[0]] + chain[1..][..i - 1];
      assert chain[i + 1..] == chain[1..][i..];
    }
  }

  /** The first 'i' chains have been moved to the new table, and nothing else. */
  ghost predicate Rehashed(hash: Key -> nat, chains: seq<seq<Entry>>, i: nat, contents: map<Key, Val>, repr: set<Entry>,
                           target: map<Key, Val>, all: set<Entry>)
    requires i <= |chains|
  {
    && SubMap(contents, target)
    && (forall s | 0 <= s < i :: KeysOf(chains[s]) <= contents.Keys)
    && (forall k | k in contents :: |chains| > 0 && Slot(hash, |chains|, k) < i)
    && (forall e | e in repr :: |chains| > 0 && Slot(hash, |chains|, e.key) < i && e in all)
  }

  lemma RehashedNone(hash: Key -> nat, chains: seq<seq<Entry>>, target: map<Key, Val>, all: set<Entry>)
    ensures Rehashed(hash, chains, 0, map[], {}, target, all)
  {
  }

  lemma {:induction false} RehashedStart(hash: Key -> nat, chains: seq<seq<Entry>>, i: nat, first: Entry?,
                                         contents: map<Key, Val>, repr: set<Entry>, target: map<Key, Val>,
                                         all: set<Entry>)
    requires i < |chains| && Rehashed(hash, chains, i, contents, repr, target, all)
    requires ChainOk(first, chains[i], i, hash, |chains|, all, target)
    ensures forall e | e in chains[i] :: e.key !in contents && e !in repr && e.key in target && target[e.key] == e.val
    ensures Linked(first, chains[i]) && Distinct(chains[i]) && SubMap(contents, target)
    ensures forall e | e in chains[i] :: Slot(hash, |chains|, e.key) == i && e in all
  {
    hide Linked, Slot;
  }

  lemma {:induction false} RehashedNext(hash: Key -> nat, chains: seq<seq<Entry>>, i: nat,
                                        contents0: map<Key, Val>, repr0: set<Entry>, contents: map<Key, Val>,
                                        repr: set<Entry>,
                                        target: map<Key, Val>, all: set<Entry>)
    requires i < |chains| && Rehashed(hash, chains, i, contents0, repr0, target, all)
    requires forall e | e in chains[i] :: Slot(hash, |chains|, e.key) == i && e in all
    requires SubMap(contents, target) && contents.Keys == contents0.Keys + KeysOf(chains[i])
    requires repr == repr0 + EntriesOf(chains[i])
    ensures Rehashed(hash, chains, i + 1, contents, repr, target, all)
  {
    hide Slot;
  }

  /** Chains of different slots have no entry in common. */
  lemma {:induction false} OtherChains(chains: seq<seq<Entry>>, i: nat, hash: Key -> nat, table: seq<Entry?>,
                                       repr: set<Entry>, contents: map<Key, Val>)
    requires i < |chains| == |table|
    requires forall s | i <= s < |chains| :: ChainOk(table[s], chains[s], s, hash, |chains|, repr, contents)
    ensures forall s, e | i < s < |chains| && e in chains[s] :: e !in chains[i]
  {
    hide Slot, Linked;
  }

  /** When nothing is left to move, the new table holds everything. */
  lemma {:induction false} RehashedAll(hash: Key -> nat, chains: seq<seq<Entry>>, i: nat,
                                       contents: map<Key, Val>, repr: set<Entry>,
                                       target: map<Key, Val>, all: set<Entry>)
    requires i <= |chains| && Rehashed(hash, chains, i, contents, repr, target, all)
    requires i == |chains| || |contents| == |target|
    requires forall k | k in target :: |chains| > 0 && Occurs(chains[Slot(hash, |chains|, k)], k)
    ensures contents == target
  {
    if |contents| == |target| {
      SameSize(contents.Keys, target.Keys);
    } else {
      forall k | k in target
        ensures k in contents
      {
        assert k in KeysOf(chains[Slot(hash, |chains|, k)]);
      }
    }
  }

  lemma RemoveOne(m: map<Key, Val>, key: Key)
    requires key in m
    ensures |m - {key}| == |m| - 1
  {
    assert (m - {key}).Keys == m.Keys - {key};
    assert |m.Keys| == |m| && |(m - {key}).Keys| == |m - {key}|;
  }

  lemma {:induction false} SubMapSmaller(m: map<Key, Val>, target: map<Key, Val>)
    requires SubMap(m, target)
    ensures |m| <= |target|
  {
    assert target.Keys == m.Keys + (target.Keys - m.Keys);
    assert |m.Keys| == |m| && |target.Keys| == |target|;
  }

  lemma {:induction false} SameSize<T>(a: set<T>, b: set<T>)
    requires a <= b && |a| == |b|
    ensures a == b
  {
    assert b == a + (b - a);
    assert |b| == |a| + |b - a|;
  }

  ghost predicate SubMap(m: map<Key, Val>, target: map<Key, Val>) {
    forall k | k in m :: k in target && m[k] == target[k]
  }

  ghost function KeysOf(chain: seq<Entry>): set<Key> {
    set e | e in chain :: e.key
  }

  ghost function EntriesOf(chain: seq<Entry>): set<Entry> {
    set e | e in chain
  }

  lemma LinkedHead(first: Entry?, chain: seq<Entry>)
    requires Linked(first, chain)
    ensures (first == null) == (chain == [])
    ensures chain != [] ==> first == chain[0]
  {
  }

  /** The entries 'chain' have come in addition to what was there. */
  ghost predicate Moved(contents0: map<Key, Val>, repr0: set<Entry>, contents: map<Key, Val>, repr: set<Entry>,
                        chain: seq<Entry>, target: map<Key, Val>)
  {
    && SubMap(contents, target)
    && |contents| == |contents0| + |chain|
    && contents.Keys == contents0.Keys + KeysOf(chain)
    && repr == repr0 + EntriesOf(chain)
  }

  lemma MovedNone(contents: map<Key, Val>, repr: set<Entry>, chain: seq<Entry>, target: map<Key, Val>)
    requires SubMap(contents, target)
    ensures Moved(contents, repr, contents, repr, chain[..0], target)
  {
  }

  lemma MovedAll(contents0: map<Key, Val>, repr0: set<Entry>, contents: map<Key, Val>, repr: set<Entry>,
                 chain: seq<Entry>, target: map<Key, Val>)
    requires Moved(contents0, repr0, contents, repr, chain, target)
    ensures SubMap(contents, target) && |contents| == |contents0| + |chain|
    ensures contents.Keys == contents0.Keys + KeysOf(chain) && repr == repr0 + EntriesOf(chain)
  {
  }

  /** The next entry to be moved is none of those already moved. */
  lemma {:induction false} MovedOne(contents0: map<Key, Val>, repr0: set<Entry>, contents: map<Key, Val>,
                                    repr: set<Entry>,
                                    chain: seq<Entry>, n: nat, target: map<Key, Val>)
    requires n < |chain| && Distinct(chain)
    requires forall e | e in chain :: e.key !in contents0 && e !in repr0 && e.key in target && target[e.key] == e.val
    requires Moved(contents0, repr0, contents, repr, chain[..n], target)
    ensures chain[n] in chain && chain[n].key !in contents && chain[n] !in repr
    ensures Moved(contents0, repr0, contents[chain[n].key := chain[n].val], repr + {chain[n]}, chain[..n + 1], target)
    ensures Distinct(chain[n..]) && chain[n..][0] == chain[n] && chain[n..][1..] == chain[n + 1..]
  {
    hide KeysOf, EntriesOf, SubMap, Distinct;
    NextEntry(chain, n);
    UnionMore(contents0.Keys, KeysOf(chain[..n]), chain[n].key);
    UnionMore(repr0, EntriesOf(chain[..n]), chain[n]);
    SubMapMore(contents, target, chain[n].key, chain[n].val);
  }

  lemma UnionMore<T>(a: set<T>, b: set<T>, x: T)
    ensures a + b + {x} == a + (b + {x})
  {
  }

  lemma {:induction false} SubMapMore(m: map<Key, Val>, target: map<Key, Val>, key: Key, val: Val)
    requires SubMap(m, target) && key in target && target[key] == val
    ensures SubMap(m[key := val], target)
    ensures key !in m ==> |m[key := val]| == |m| + 1
    ensures m[key := val].Keys == m.Keys + {key}
  {
  }

  lemma {:induction false} NextEntry(chain: seq<Entry>, n: nat)
    requires n < |chain| && Distinct(chain)
    ensures chain[n] in chain && chain[n] !in EntriesOf(chain[..n]) && chain[n].key !in KeysOf(chain[..n])
    ensures KeysOf(chain[..n + 1]) == KeysOf(chain[..n]) + {chain[n].key}
    ensures EntriesOf(chain[..n + 1]) == EntriesOf(chain[..n]) + {chain[n]}
    ensures Distinct(chain[n..]) && chain[n..][0] == chain[n] && chain[n..][1..] == chain[n + 1..]
  {
    assert chain[..n + 1] == chain[..n] + [chain[n]];
    assert forall i | 0 <= i < n :: chain[..n][i] == chain[i];
  }

  lemma OccursMore(e: Entry, chain: seq<Entry>)
    ensures Occurs([e] + chain, e.key)
    ensures forall k | Occurs(chain, k) :: Occurs([e] + chain, k)
  {
    assert ([e] + chain)[0] == e;
    forall k | Occurs(chain, k)
      ensures Occurs([e] + chain, k)
    {
      var i :| 0 <= i < |chain| && chain[i].key == k;
      assert ([e] + chain)[i + 1].key == k;
    }
  }
}
