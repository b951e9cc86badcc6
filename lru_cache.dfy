/** The LRU cache as a mutable object: a map from keys to entry objects and a
    doubly-linked recency list running from head (most recently used) to tail
    (least recently used). The ghost sequence `nodes` names the entries of the
    list in order; every public method is proved to act on the abstract state
    as the operation of the same name in LruSpec does. */
module LruCache {
  import LruSpec

  /** One node of the recency list. The key never changes once the entry exists. */
  class Entry<K, V> {
    const key: K
    var value: V
    var prev: Entry?<K, V>
    var next: Entry?<K, V>

    constructor (key: K, value: V)
      ensures this.key == key && this.value == value
      ensures prev == null && next == null
    {
      this.key := key;
      this.value := value;
      prev := null;
      next := null;
    }
  }

  /** The keys of a run of entries, in the same order. */
  function KeysOf<K, V>(ns: seq<Entry<K, V>>): (r: seq<K>)
    ensures |r| == |ns| && forall i :: 0 <= i < |ns| ==> r[i] == ns[i].key
  {
    seq(|ns|, i requires 0 <= i < |ns| => ns[i].key)
  }

  /** The map holds exactly the keys of ns, and under each of them the entry of
      ns that carries it. */
  ghost predicate Indexes<K, V>(m: map<K, Entry<K, V>>, ns: seq<Entry<K, V>>) {
    && m.Keys == LruSpec.Elements(KeysOf(ns))
    && (forall i {:trigger IndexedAt(m, ns, i)} :: IndexedAt(m, ns, i))
  }

  /** The entry at position i of ns is the one stored under its key. The
      positions are instantiated only where a proof names them. */
  ghost predicate IndexedAt<K, V>(m: map<K, Entry<K, V>>, ns: seq<Entry<K, V>>, i: int) {
    0 <= i < |ns| ==> ns[i].key in m && m[ns[i].key] == ns[i]
  }

  /** Entries indexed by their keys carry distinct keys. */
  lemma KeysDistinct<K, V>(m: map<K, Entry<K, V>>, ns: seq<Entry<K, V>>)
    requires Indexes(m, ns) && LruSpec.Distinct(ns)
    ensures LruSpec.Distinct(KeysOf(ns))
  {
    forall i, j ensures LruSpec.Apart(KeysOf(ns), i, j) {
      if 0 <= i < |ns| && 0 <= j < |ns| {
        assert IndexedAt(m, ns, i) && IndexedAt(m, ns, j);
        assert LruSpec.Apart(ns, i, j);
      }
    }
  }

  /** Every entry of the map carries the key it is stored under. */
  lemma IndexesKeys<K, V>(m: map<K, Entry<K, V>>, ns: seq<Entry<K, V>>)
    requires Indexes(m, ns)
    ensures forall k :: k in m ==> m[k].key == k
  {
    forall k | k in m ensures m[k].key == k {
      var i := IndexedKey(m, ns, k);
    }
  }

  /** A key of the map is the key of some entry of ns. */
  lemma IndexedKey<K, V>(m: map<K, Entry<K, V>>, ns: seq<Entry<K, V>>, k: K) returns (i: nat)
    requires Indexes(m, ns) && k in m
    ensures i < |ns| && ns[i].key == k && m[k] == ns[i]
  {
    assert k in KeysOf(ns);
    i :| 0 <= i < |ns| && KeysOf(ns)[i] == k;
    assert IndexedAt(m, ns, i);
  }

  /** Moving entry i of ns to the front keeps the same entries, so the map
      still indexes them. */
  lemma IndexesMoved<K, V>(m: map<K, Entry<K, V>>, ns: seq<Entry<K, V>>, i: nat)
    requires i < |ns| && Indexes(m, ns)
    ensures Indexes(m, Moved(ns, i))
  {
    var ms := Moved(ns, i);
    forall j ensures IndexedAt(m, ms, j) {
      if 0 <= j < |ms| {
        var o := if j == 0 then i else if j <= i then j - 1 else j;
        assert ms[j] == ns[o] && IndexedAt(m, ns, o);
      }
    }
    forall k ensures k in KeysOf(ms) <==> k in KeysOf(ns) {
      if k in KeysOf(ms) {
        var j :| 0 <= j < |ms| && KeysOf(ms)[j] == k;
        var o := if j == 0 then i else if j <= i then j - 1 else j;
        assert KeysOf(ns)[o] == k;
      }
      if k in KeysOf(ns) {
        var o :| 0 <= o < |ns| && KeysOf(ns)[o] == k;
        var j := if o == i then 0 else if o < i then o + 1 else o;
        assert KeysOf(ms)[j] == k;
      }
    }
  }

  /** Moving the entry at position i to the front keeps the map an index of the
      list, and the keys then follow the recency order after an access of that
      entry's key. */
  lemma IndexesMovedToFront<K, V>(m: map<K, Entry<K, V>>, ns: seq<Entry<K, V>>, i: nat)
    requires i < |ns| && Indexes(m, ns) && LruSpec.Distinct(ns)
    ensures Indexes(m, Moved(ns, i))
    ensures KeysOf(Moved(ns, i)) == LruSpec.MoveToFront(KeysOf(ns), ns[i].key)
  {
    IndexesMoved(m, ns, i);
    KeysOfMoved(ns, i);
    KeysDistinct(m, ns);
    MoveToFrontIsMoved(KeysOf(ns), i);
  }

  /** A new entry under a new key, added to the map and at the front of ns. */
  lemma IndexesAdded<K, V>(m: map<K, Entry<K, V>>, ns: seq<Entry<K, V>>, e: Entry<K, V>)
    requires Indexes(m, ns) && e.key !in m
    ensures Indexes(m[e.key := e], [e] + ns)
  {
    var ms := [e] + ns;
    assert KeysOf(ms) == [e.key] + KeysOf(ns);
    LruSpec.ElementsConcat([e.key], KeysOf(ns));
    var m1 := m[e.key := e];
    forall j ensures IndexedAt(m1, ms, j) {
      if 0 < j < |ms| {
        assert ms[j] == ns[j - 1] && IndexedAt(m, ns, j - 1);
      }
    }
  }

  /** The last entry of ns, dropped from ns and its key from the map. */
  lemma IndexesDropLast<K, V>(m: map<K, Entry<K, V>>, ns: seq<Entry<K, V>>)
    requires Indexes(m, ns) && ns != [] && LruSpec.Distinct(KeysOf(ns))
    ensures Indexes(m - {ns[|ns| - 1].key}, ns[..|ns| - 1])
  {
    var n := |ns| - 1;
    assert KeysOf(ns) == KeysOf(ns[..n]) + [ns[n].key];
    LruSpec.ElementsConcat(KeysOf(ns[..n]), [ns[n].key]);
    assert ns[n].key !in KeysOf(ns[..n]) by {
      forall j | 0 <= j < n ensures KeysOf(ns[..n])[j] != ns[n].key {
        assert KeysOf(ns)[j] == KeysOf(ns[..n])[j];
        assert LruSpec.Apart(KeysOf(ns), j, n);
      }
    }
    forall j ensures IndexedAt(m - {ns[n].key}, ns[..n], j) {
      if 0 <= j < n {
        assert IndexedAt(m, ns, j) && LruSpec.Apart(KeysOf(ns), j, n);
      }
    }
  }

  /** Storing v under k adds at most v to the values of a map. */
  lemma ValuesAdded<K, U>(m: map<K, U>, k: K, v: U)
    ensures m[k := v].Values <= m.Values + {v}
  {
    forall u | u in m[k := v].Values ensures u in m.Values + {v} {
      var j :| j in m[k := v] && m[k := v][j] == u;
      if j != k {
        assert m[j] == u;
      }
    }
  }

  /** Taking out a key adds no value. */
  lemma ValuesRemoved<K, U>(m: map<K, U>, k: K)
    ensures (m - {k}).Values <= m.Values
  {
    forall u | u in (m - {k}).Values ensures u in m.Values {
      var j :| j in m - {k} && (m - {k})[j] == u;
      assert m[j] == u;
    }
  }

  /** s without its position i, the rest in order. */
  function Dropped<T>(s: seq<T>, i: nat): (r: seq<T>)
    requires i < |s|
    ensures |r| == |s| - 1
  {
    seq(|s| - 1, j requires 0 <= j < |s| - 1 => if j < i then s[j] else s[j + 1])
  }

  /** Dropping position i keeps a sequence without repetitions so, and the
      dropped element no longer occurs. */
  lemma DroppedDistinct<T>(s: seq<T>, i: nat)
    requires i < |s| && LruSpec.Distinct(s)
    ensures s[i] !in Dropped(s, i) && LruSpec.Distinct(Dropped(s, i))
  {
    var d := Dropped(s, i);
    forall j | 0 <= j < |d| ensures d[j] != s[i] {
      assert LruSpec.Apart(s, if j < i then j else j + 1, i);
    }
    forall j, k ensures LruSpec.Apart(d, j, k) {
      if 0 <= j < |d| && 0 <= k < |d| {
        assert LruSpec.Apart(s, if j < i then j else j + 1, if k < i then k else k + 1);
      }
    }
  }

  /** Dropping a position adds no element. */
  lemma DroppedElements<T>(s: seq<T>, i: nat)
    requires i < |s|
    ensures LruSpec.Elements(Dropped(s, i)) <= LruSpec.Elements(s)
  {
    forall x | x in LruSpec.Elements(Dropped(s, i)) ensures x in LruSpec.Elements(s) {
      var j :| 0 <= j < |Dropped(s, i)| && Dropped(s, i)[j] == x;
      assert s[if j < i then j else j + 1] == x;
    }
  }

  /** Position i of s moved to the front, the rest in order. */
  function Moved<T>(s: seq<T>, i: nat): (r: seq<T>)
    requires i < |s|
    ensures |r| == |s| && r[0] == s[i]
  {
    [s[i]] + Dropped(s, i)
  }

  lemma KeysOfMoved<K, V>(ns: seq<Entry<K, V>>, i: nat)
    requires i < |ns|
    ensures KeysOf(Moved(ns, i)) == Moved(KeysOf(ns), i)
  {
  }

  lemma KeysOfCons<K, V>(n: Entry<K, V>, ns: seq<Entry<K, V>>)
    ensures KeysOf([n] + ns) == [n.key] + KeysOf(ns)
  {
  }

  /** In a sequence without repetitions, moving the key at position i to the front
      is what the recency update of the abstract cache does. */
  lemma MoveToFrontIsMoved<K>(s: seq<K>, i: nat)
    requires LruSpec.Distinct(s) && i < |s|
    ensures LruSpec.MoveToFront(s, s[i]) == Moved(s, i)
  {
    assert s == s[..i] + [s[i]] + s[i + 1..];
    LruSpec.NotInSplit(s[..i], s[i], s[i + 1..]);
    LruSpec.WithoutSplit(s[..i], s[i], s[i + 1..]);
    assert Dropped(s, i) == s[..i] + s[i + 1..];
  }

  class LruCache<K(==), V(0)> {
    const capacity: int
    var size: int
    var cacheMap: map<K, Entry<K, V>>
    var head: Entry?<K, V>
    var tail: Entry?<K, V>
    /** The entries of the list from head to tail. */
    ghost var nodes: seq<Entry<K, V>>
    /** The value held under each key, recorded where it is stored. */
    ghost var values: map<K, V>
    /** The cache object and every entry it has allocated. */
    ghost var Repr: set<object>

    /** The list is well formed: head and tail are its ends, adjacent entries
        point at each other, the ends have no outward link, and no entry occurs
        twice (so the list is acyclic). */
    ghost predicate Linked()
      reads this`head, this`tail, this`nodes, nodes`prev, nodes`next
    {
      && (nodes == [] ==> head == null && tail == null)
      && (nodes != [] ==> head == nodes[0] && tail == nodes[|nodes| - 1])
      && (forall i {:trigger LinkedAt(i)} :: LinkedAt(i))
      && LruSpec.Distinct(nodes)
    }

    /** The links of position i of the list point at its neighbours, and at null
        past either end. The positions are instantiated only where a proof names
        them through LinkedAt. */
    ghost predicate LinkedAt(i: int)
      reads this`nodes, nodes`prev, nodes`next
    {
      0 <= i < |nodes| ==>
        && nodes[i].prev == (if i == 0 then null else nodes[i - 1])
        && nodes[i].next == (if i == |nodes| - 1 then null else nodes[i + 1])
    }

    /** The list is well formed, the map indexes exactly its entries by their
        keys, and size counts them. */
    ghost predicate Indexed()
      reads this`head, this`tail, this`nodes, this`size, this`cacheMap, this`values
      reads nodes`prev, nodes`next, cacheMap.Values`value
    {
      && Linked()
      && size == |nodes|
      && Indexes(cacheMap, nodes)
      && Stored()
    }

    /** The recorded values are the values held by the entries. */
    ghost predicate Stored()
      reads this`cacheMap, this`values, cacheMap.Values`value
    {
      && values.Keys == cacheMap.Keys
      && forall k {:trigger StoredAt(k)} | k in cacheMap :: StoredAt(k)
    }

    /** The entry under key k holds the value recorded for k. */
    ghost predicate StoredAt(k: K)
      reads this`cacheMap, this`values, cacheMap.Values`value
    {
      k in cacheMap && k in values ==> cacheMap[k].value == values[k]
    }

    /** The cache and every entry of the list and of the map belong to Repr. */
    ghost predicate Owned()
      reads this`Repr, this`nodes, this`cacheMap
    {
      && this in Repr
      && LruSpec.Elements(nodes) <= Repr
      && cacheMap.Values <= Repr
    }

    /** The object invariant; size never exceeds the positive capacity. */
    ghost predicate Valid()
      reads this, nodes`prev, nodes`next, cacheMap.Values`value
    {
      Indexed() && Owned() && 0 < capacity && size <= capacity
    }

    /** The recency order of the keys, head first. */
    ghost function Order(): seq<K>
      reads this`nodes
    {
      KeysOf(nodes)
    }

    /** The abstract state of the cache. */
    ghost function Model(): LruSpec.Cache<K, V>
      reads this`nodes, this`values
    {
      LruSpec.Cache(capacity, Order(), values)
    }

    /** The object invariant implies the abstract invariant. */
    lemma ModelInv()
      requires Valid()
      ensures LruSpec.Inv(Model())
    {
      KeysDistinct(cacheMap, nodes);
    }

    constructor (capacity: int)
      requires 0 < capacity
      ensures Valid() && fresh(Repr) && nodes == []
      ensures Model() == LruSpec.Empty(capacity)
    {
      this.capacity := capacity;
      size := 0;
      cacheMap := map[];
      head := null;
      tail := null;
      nodes := [];
      values := map[];
      Repr := {this};
    }

    /** Looks the key up; a hit makes the entry most recently used. A miss returns
        false with an arbitrary value of V and changes nothing. */
    method Get(key: K) returns (value: V, found: bool)
      requires Valid()
      modifies Repr
      ensures Valid() && Repr == old(Repr)
      ensures LruSpec.Inv(old(Model()))
      ensures (if found then LruSpec.Some(value) else LruSpec.None) == LruSpec.Lookup(old(Model()), key)
      ensures Model() == LruSpec.Touch(old(Model()), key)
    {
      ModelInv();
      if key in cacheMap {
        var entry := cacheMap[key];
        ghost var i := IndexedKey(cacheMap, nodes, key);
        IndexesMovedToFront(cacheMap, nodes, i);
        assert StoredAt(key);
        MoveToFront(entry, i);
        return entry.value, true;
      }
      var zeroValue: V := *;
      return zeroValue, false;
    }

    /** Stores the value under the key. An existing entry is updated in place and
        becomes most recently used; a new entry goes in at the head, and when that
        makes the cache overfull the tail entry is evicted. */
    method Put(key: K, value: V)
      requires Valid()
      modifies Repr
      ensures Valid() && fresh(Repr - old(Repr))
      ensures LruSpec.Inv(old(Model()))
      ensures Model() == LruSpec.Put(old(Model()), key, value)
    {
      ModelInv();
      if key in cacheMap {
        Update(key, value);
      } else {
        ghost var added := Insert(key, value);
      }
    }

    /** Put of a key that is present: its entry takes the new value and moves
        to the front. */
    method Update(key: K, value: V)
      requires Valid() && LruSpec.Inv(Model()) && key in cacheMap
      modifies this`head, this`tail, this`nodes, this`values
      modifies nodes`prev, nodes`next, cacheMap.Values`value
      ensures Valid()
      ensures Model() == LruSpec.Put(old(Model()), key, value)
    {
      var entry := cacheMap[key];
      ghost var i := IndexedKey(cacheMap, nodes, key);
      IndexesMovedToFront(cacheMap, nodes, i);
      MoveToFront(entry, i);
      StoreValue(entry, value);
    }

    /** Overwrites the value of the entry stored under its key. */
    method StoreValue(entry: Entry<K, V>, value: V)
      requires Valid() && entry.key in cacheMap && cacheMap[entry.key] == entry
      modifies this`values, entry`value
      ensures Valid()
      ensures values == old(values)[entry.key := value]
    {
      var key := entry.key;
      entry.value := value;
      values := values[key := value];
      forall k | k in cacheMap ensures StoredAt(k) {
        if k != key {
          var j := IndexedKey(cacheMap, nodes, k);
          assert old(StoredAt(k));
        }
      }
    }

    /** Put of a key that is absent: a new entry goes to the front, and the
        least recently used entry is evicted when the capacity is exceeded. The
        new entry is the one object added to Repr. */
    method Insert(key: K, value: V) returns (ghost added: Entry<K, V>)
      requires Valid() && LruSpec.Inv(Model()) && key !in cacheMap
      modifies this`head, this`tail, this`nodes, this`cacheMap, this`size, this`values, this`Repr
      modifies nodes`prev, nodes`next
      ensures Valid() && fresh(added) && Repr == old(Repr) + {added}
      ensures Model() == LruSpec.Put(old(Model()), key, value)
    {
      ghost var m0 := Model();
      var newEntry := new Entry(key, value);
      added := newEntry;
      AddEntry(newEntry);
      EvictIfOverfull(m0, key, value);
    }

    /** The second half of Put of an absent key: once the new entry is at the
        head, the tail entry is evicted if the cache now holds more entries than
        its capacity. */
    method EvictIfOverfull(ghost m0: LruSpec.Cache<K, V>, key: K, value: V)
      requires Indexed() && Owned() && 0 < capacity
      requires LruSpec.Inv(m0) && key !in m0.values && m0.capacity == capacity
      requires Model() == LruSpec.Cache(capacity, [key] + m0.order, m0.values[key := value])
      modifies this`head, this`tail, this`nodes, this`cacheMap, this`size, this`values
      modifies nodes`prev, nodes`next
      ensures Valid()
      ensures Model() == LruSpec.Put(m0, key, value)
    {
      if size > capacity {
        RemoveTail();
        LruSpec.PutNewWhenFull(m0, key, value);
      } else {
        LruSpec.PutNewWithRoom(m0, key, value);
      }
    }

    /** Links a fresh entry for an absent key in at the front of the list and
        records it in the map and in the size. */
    method AddEntry(newEntry: Entry<K, V>)
      requires Valid() && newEntry.key !in cacheMap && newEntry !in nodes
      modifies this`head, this`tail, this`nodes, this`cacheMap, this`size, this`values, this`Repr
      modifies nodes`prev, newEntry`prev, newEntry`next
      ensures Indexed() && Owned() && size == old(size) + 1
      ensures Repr == old(Repr) + {newEntry}
      ensures nodes == [newEntry] + old(nodes)
      ensures cacheMap == old(cacheMap)[newEntry.key := newEntry]
      ensures Order() == [newEntry.key] + old(Order())
      ensures values == old(values)[newEntry.key := newEntry.value]
    {
      ghost var ns := nodes;
      Register(newEntry);
      AddFront(newEntry);
      size := size + 1;
      KeysOfCons(newEntry, ns);
      LruSpec.ElementsConcat([newEntry], ns);
      assert Stored();
      assert Indexes(cacheMap, nodes);
    }

    /** The map, the recorded values and Repr take in a new entry that is about
        to be linked in at the head. */
    method Register(newEntry: Entry<K, V>)
      requires Valid() && newEntry.key !in cacheMap && newEntry !in nodes
      modifies this`cacheMap, this`values, this`Repr
      ensures Indexes(cacheMap, [newEntry] + nodes) && Stored()
      ensures this in Repr && LruSpec.Elements(nodes) <= Repr && cacheMap.Values <= Repr
      ensures Repr == old(Repr) + {newEntry}
      ensures cacheMap == old(cacheMap)[newEntry.key := newEntry]
      ensures values == old(values)[newEntry.key := newEntry.value]
    {
      var key, value := newEntry.key, newEntry.value;
      ValuesAdded(cacheMap, key, newEntry);
      IndexesAdded(cacheMap, nodes, newEntry);
      Repr := Repr + {newEntry};
      cacheMap := cacheMap[key := newEntry];
      values := values[key := value];
      forall k | k in cacheMap ensures StoredAt(k) {
        if k != key {
          assert old(StoredAt(k));
        }
      }
    }

    /** Moves an entry of the list to the head; nothing happens when it is the
        head already. */
    method MoveToFront(entry: Entry<K, V>, ghost i: nat)
      requires Linked() && i < |nodes| && nodes[i] == entry
      modifies this`head, this`tail, this`nodes, nodes`prev, nodes`next
      ensures Linked()
      ensures nodes == Moved(old(nodes), i)
    {
      if entry == head {
        assert i == 0 by {
          assert LruSpec.Apart(nodes, 0, i);
        }
        assert nodes == Moved(nodes, 0);
        return;
      }
      Remove(entry, i);
      AddFront(entry);
    }

    /** Unlinks an entry from the list, whether it is the only entry, the head,
        the tail or an interior entry, and clears its own links. */
    method Remove(entry: Entry<K, V>, ghost i: nat)
      requires Linked() && i < |nodes| && nodes[i] == entry
      modifies this`head, this`tail, this`nodes, nodes`prev, nodes`next
      ensures Linked()
      ensures nodes == Dropped(old(nodes), i) && entry !in nodes
      ensures entry.prev == null && entry.next == null
    {
      ghost var ns := nodes;
      DroppedDistinct(ns, i);
      assert LinkedAt(i);
      if entry.prev != null {
        entry.prev.next := entry.next;
      } else {
        head := entry.next;
      }
      if entry.next != null {
        entry.next.prev := entry.prev;
      } else {
        tail := entry.prev;
      }
      entry.next := null;
      entry.prev := null;
      nodes := Dropped(ns, i);
      forall j ensures LinkedAt(j) {
        if 0 <= j < |nodes| {
          var o := if j < i then j else j + 1;
          assert old(LinkedAt(o));
          assert LruSpec.Apart(ns, o, i);
          assert nodes[j] == ns[o] && ns[o] != entry;
          if o != i + 1 {
            assert LruSpec.Apart(ns, o, i + 1);
            assert ns[o].prev == old(ns[o].prev);
          }
          if o != i - 1 {
            assert LruSpec.Apart(ns, o, i - 1);
            assert ns[o].next == old(ns[o].next);
          }
          if j > 0 {
            assert nodes[j - 1] == (if j - 1 < i then ns[j - 1] else ns[j]);
          }
          if j < |nodes| - 1 {
            assert nodes[j + 1] == (if j + 1 < i then ns[j + 1] else ns[j + 2]);
          }
        }
      }
    }

    /** Links an entry that is not in the list in at the head; into an empty list
        it also becomes the tail. */
    method AddFront(entry: Entry<K, V>)
      requires Linked() && entry !in nodes
      modifies this`head, this`tail, this`nodes, nodes`prev, entry`prev, entry`next
      ensures Linked()
      ensures nodes == [entry] + old(nodes)
    {
      assert head != entry by {
        assert nodes != [] ==> nodes[0] != entry;
      }
      LruSpec.DistinctCons(entry, nodes);
      entry.next := head;
      entry.prev := null;
      if head != null {
        head.prev := entry;
      }
      head := entry;
      if tail == null {
        tail := entry;
      }
      ghost var ns := nodes;
      nodes := [entry] + nodes;
      forall j ensures LinkedAt(j) {
        if 0 < j < |nodes| {
          assert old(LinkedAt(j - 1));
          assert nodes[j] == ns[j - 1] != entry;
          assert LruSpec.Apart(ns, j - 1, 0);
          assert nodes[j - 1] == if j == 1 then entry else ns[j - 2];
          assert j < |nodes| - 1 ==> nodes[j + 1] == ns[j];
        }
      }
    }

    /** Evicts the least recently used entry from the list and from the map; an
        empty cache is left as it is. */
    method RemoveTail()
      requires Indexed() && Owned()
      modifies this`head, this`tail, this`nodes, this`cacheMap, this`size, this`values
      modifies nodes`prev, nodes`next
      ensures Indexed() && Owned()
      ensures old(nodes) == [] ==>
        nodes == [] && cacheMap == old(cacheMap) && values == old(values) && size == old(size)
      ensures old(nodes) != [] ==>
        && nodes == old(nodes[..|nodes| - 1])
        && Order() == old(Order()[..|nodes| - 1])
        && cacheMap == old(cacheMap) - {old(Order()[|nodes| - 1])}
        && values == old(values) - {old(Order()[|nodes| - 1])}
        && size == old(size) - 1
    {
      if tail == null {
        return;
      }
      var oldTailKey := tail.key;
      ghost var ns, m := nodes, cacheMap;
      assert oldTailKey == ns[|ns| - 1].key;
      ValuesRemoved(m, oldTailKey);
      DroppedElements(ns, |ns| - 1);
      KeysDistinct(m, ns);
      IndexesDropLast(m, ns);
      Remove(tail, |nodes| - 1);
      cacheMap := cacheMap - {oldTailKey};
      values := values - {oldTailKey};
      size := size - 1;
      assert nodes == ns[..|ns| - 1];
      assert Indexes(cacheMap, nodes);
      forall k | k in cacheMap ensures StoredAt(k) {
        assert old(StoredAt(k));
      }
    }
  }

  /** Step 1 of the demonstration run: a cache of capacity 3 filled by Put
      a, b and c. */
  method DemoFill() returns (cache: LruCache<string, int>)
    ensures cache.Valid() && fresh(cache.Repr)
    ensures cache.Model() == LruSpec.Cache(3, ["c", "b", "a"], map["a" := 1, "b" := 2, "c" := 3])
  {
    cache := new LruCache<string, int>(3);
    cache.Put("a", 1);
    assert fresh(cache.Repr);
    cache.Put("b", 2);
    assert fresh(cache.Repr);
    cache.Put("c", 3);
    LruSpec.ScenarioFill();
  }

  /** Steps 2 and 3: Get b finds 2, then Put d evicts a. */
  method DemoGetBPutD(cache: LruCache<string, int>) returns (b: int, foundB: bool)
    requires cache.Valid()
    requires cache.Model() == LruSpec.Cache(3, ["c", "b", "a"], map["a" := 1, "b" := 2, "c" := 3])
    modifies cache.Repr
    ensures cache.Valid() && fresh(cache.Repr - old(cache.Repr))
    ensures foundB && b == 2
    ensures cache.Model() == LruSpec.Cache(3, ["d", "b", "c"], map["b" := 2, "c" := 3, "d" := 4])
  {
    b, foundB := cache.Get("b");
    LruSpec.ScenarioGetB();
    cache.Put("d", 4);
    LruSpec.ScenarioPutD();
  }

  /** Step 4: Get a misses, since a was evicted, and changes nothing. */
  method DemoGetA(cache: LruCache<string, int>) returns (foundA: bool)
    requires cache.Valid()
    requires cache.Model() == LruSpec.Cache(3, ["d", "b", "c"], map["b" := 2, "c" := 3, "d" := 4])
    modifies cache.Repr
    ensures cache.Valid() && cache.Repr == old(cache.Repr)
    ensures !foundA
    ensures cache.Model() == old(cache.Model())
  {
    LruSpec.ScenarioGetAC();
    var _, found := cache.Get("a");
    foundA := found;
  }

  /** Steps 5 and 6: Get c finds 3, then Put e evicts b. */
  method DemoGetCPutE(cache: LruCache<string, int>) returns (c: int, foundC: bool)
    requires cache.Valid()
    requires cache.Model() == LruSpec.Cache(3, ["d", "b", "c"], map["b" := 2, "c" := 3, "d" := 4])
    modifies cache.Repr
    ensures cache.Valid() && fresh(cache.Repr - old(cache.Repr))
    ensures foundC && c == 3
    ensures cache.Model() == LruSpec.Cache(3, ["e", "c", "d"], map["c" := 3, "d" := 4, "e" := 5])
  {
    LruSpec.ScenarioGetAC();
    c, foundC := cache.Get("c");
    cache.Put("e", 5);
    LruSpec.ScenarioPutE();
  }

  /** The demonstration run as a client of the cache object: the three
      steps in sequence on one cache, with the results of its three Gets. */
  method Demonstration() returns (b: int, foundB: bool, foundA: bool, c: int, foundC: bool)
    ensures foundB && b == 2
    ensures !foundA
    ensures foundC && c == 3
  {
    var cache := DemoFill();
    b, foundB := DemoGetBPutD(cache);
    foundA := DemoGetA(cache);
    c, foundC := DemoGetCPutE(cache);
  }
}
