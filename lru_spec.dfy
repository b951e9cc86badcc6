/** Abstract model of the LRU cache: the recency order of the keys, head (most
    recently used) first, and the value stored under each key. The class in
    lru_cache.dfy is proved to follow the operations defined here. */
module LruSpec {

  datatype Option<T> = None | Some(value: T)

  /** Positions i and j of s hold different elements unless they are the same
      position. */
  ghost predicate Apart<K>(s: seq<K>, i: int, j: int) {
    0 <= i < |s| && 0 <= j < |s| && i != j ==> s[i] != s[j]
  }

  /** No element occurs twice. The pairs are instantiated only where a proof
      names them through Apart. */
  ghost predicate Distinct<K>(s: seq<K>) {
    forall i, j {:trigger Apart(s, i, j)} :: Apart(s, i, j)
  }

  function Elements<K(==)>(s: seq<K>): set<K> {
    set x | x in s
  }

  lemma ElementsConcat<K>(a: seq<K>, b: seq<K>)
    ensures Elements(a + b) == Elements(a) + Elements(b)
  {
    forall x | x in Elements(a + b) ensures x in Elements(a) + Elements(b) {
      var i :| 0 <= i < |a + b| && (a + b)[i] == x;
      if i >= |a| { assert b[i - |a|] == x; }
    }
    forall x | x in Elements(a) + Elements(b) ensures x in Elements(a + b) {
      if x in a {
        var i :| 0 <= i < |a| && a[i] == x;
        assert (a + b)[i] == x;
      } else {
        var i :| 0 <= i < |b| && b[i] == x;
        assert (a + b)[|a| + i] == x;
      }
    }
  }

  lemma DistinctCons<K>(x: K, s: seq<K>)
    requires x !in s && Distinct(s)
    ensures Distinct([x] + s)
  {
    forall i, j ensures Apart([x] + s, i, j) {
      if 0 < i <= |s| && 0 < j <= |s| {
        assert Apart(s, i - 1, j - 1);
      }
    }
  }

  /** The tail of a distinct sequence is distinct and does not hold its head. */
  lemma DistinctTail<K>(s: seq<K>)
    requires Distinct(s) && s != []
    ensures s[0] !in s[1..] && Distinct(s[1..])
  {
    forall i | 0 <= i < |s[1..]| ensures s[1..][i] != s[0] {
      assert Apart(s, i + 1, 0);
    }
    forall i, j ensures Apart(s[1..], i, j) {
      assert Apart(s, i + 1, j + 1);
    }
  }

  /** A distinct sequence has as many elements as its set. */
  lemma {:induction false} DistinctCard<K>(s: seq<K>)
    requires Distinct(s)
    ensures |Elements(s)| == |s|
  {
    if s != [] {
      DistinctTail(s);
      DistinctCard(s[1..]);
      assert Elements(s) == {s[0]} + Elements(s[1..]) by {
        forall x ensures x in Elements(s) <==> x in {s[0]} + Elements(s[1..]) {
          if x in s && x != s[0] {
            var i :| 0 <= i < |s| && s[i] == x;
            assert s[1..][i - 1] == x;
          }
        }
      }
    }
  }

  /** The sequence with every occurrence of k taken out, the others kept in order. */
  function Without<K(==)>(s: seq<K>, k: K): (r: seq<K>)
    ensures Elements(r) == Elements(s) - {k}
    ensures |r| <= |s|
    ensures Distinct(s) ==> Distinct(r)
    ensures Distinct(s) && k in s ==> |r| == |s| - 1
    ensures k !in s ==> r == s
  {
    if s == [] then []
    else
      assert Distinct(s) ==> s[0] !in s[1..] && Distinct(s[1..]) by {
        if Distinct(s) {
          DistinctTail(s);
        }
      }
      assert s == [s[0]] + s[1..];
      ElementsConcat([s[0]], s[1..]);
      if s[0] == k then Without(s[1..], k)
      else
        var rest := Without(s[1..], k);
        ElementsConcat([s[0]], rest);
        assert Distinct(s) ==> Distinct([s[0]] + rest) by {
          if Distinct(s) {
            assert s[0] !in Elements(s[1..]);
            assert s[0] !in Elements(rest);
            DistinctCons(s[0], rest);
          }
        }
        [s[0]] + rest
  }

  /** Taking out a key that occurs once keeps everything before and after it,
      in order: the relative order of the other keys does not change. */
  lemma {:induction false} WithoutSplit<K>(front: seq<K>, k: K, back: seq<K>)
    requires k !in front && k !in back
    ensures Without(front + [k] + back, k) == front + back
  {
    if front == [] {
      assert [] + [k] + back == [k] + back;
      assert ([k] + back)[1..] == back;
    } else {
      WithoutSplit(front[1..], k, back);
      assert (front + [k] + back)[1..] == front[1..] + [k] + back;
      assert front + back == [front[0]] + (front[1..] + back);
    }
  }

  /** Recency order after an access of k: k first, the others as before. */
  function MoveToFront<K(==)>(s: seq<K>, k: K): (r: seq<K>)
    ensures |r| > 0 && r[0] == k
    ensures Elements(r) == Elements(s) + {k}
    ensures Distinct(s) ==> Distinct(r)
    ensures Distinct(s) && k in s ==> |r| == |s|
  {
    var rest := Without(s, k);
    ElementsConcat([k], rest);
    assert Distinct(s) ==> Distinct([k] + rest) by {
      if Distinct(s) {
        DistinctCons(k, rest);
      }
    }
    [k] + rest
  }

  /** An access of the key that is already most recently used changes nothing. */
  lemma MoveToFrontOfHead<K>(s: seq<K>)
    requires Distinct(s) && |s| > 0
    ensures MoveToFront(s, s[0]) == s
  {
    DistinctTail(s);
    WithoutSplit([], s[0], s[1..]);
    assert [] + [s[0]] + s[1..] == s;
  }

  /** The cache as the caller sees it. */
  datatype Cache<K(==), V> = Cache(capacity: int, order: seq<K>, values: map<K, V>)

  /** Capacity positive, every key once in the recency order, list keys and
      map keys the same set, and no more entries than the capacity. */
  ghost predicate Inv<K, V>(c: Cache<K, V>) {
    && 0 < c.capacity
    && Distinct(c.order)
    && Elements(c.order) == c.values.Keys
    && |c.order| <= c.capacity
  }

  /** The number of live entries, counted on the recency order. */
  function Size<K(==), V>(c: Cache<K, V>): int {
    |c.order|
  }

  /** The size mirrors the number of keys in the index. */
  lemma SizeMirrorsIndex<K, V>(c: Cache<K, V>)
    requires Inv(c)
    ensures Size(c) == |c.values| && Size(c) <= c.capacity
  {
    DistinctCard(c.order);
  }

  /** A new cache; the capacity must be positive. */
  function Empty<K(==), V>(capacity: int): (c: Cache<K, V>)
    requires 0 < capacity
    ensures Inv(c) && Size(c) == 0 && c.values == map[] && c.capacity == capacity
  {
    Cache(capacity, [], map[])
  }

  /** The value Get returns: found with the stored value, or not found. */
  function Lookup<K(==), V>(c: Cache<K, V>, k: K): (r: Option<V>)
    ensures r.Some? <==> k in c.values
    ensures r.Some? ==> r.value == c.values[k]
  {
    if k in c.values then Some(c.values[k]) else None
  }

  /** The state after Get: a present key becomes most recently used, an absent key
      changes nothing. */
  function Touch<K(==), V>(c: Cache<K, V>, k: K): (r: Cache<K, V>)
    requires Inv(c)
    ensures Inv(r)
    ensures r.capacity == c.capacity && r.values == c.values
    ensures k !in c.values ==> r == c
    ensures k in c.values ==> r.order[0] == k && Size(r) == Size(c)
  {
    if k in c.values then c.(order := MoveToFront(c.order, k)) else c
  }

  /** The state after Put: an existing key gets the new value and becomes most
      recently used; a new key goes in at the head, and if that makes the cache
      overfull, the old tail is evicted from the order and the index. */
  function Put<K(==), V>(c: Cache<K, V>, k: K, v: V): (r: Cache<K, V>)
    requires Inv(c)
    ensures Inv(r)
    ensures r.capacity == c.capacity
    ensures k in r.values && r.values[k] == v && r.order[0] == k
  {
    if k in c.values then
      c.(order := MoveToFront(c.order, k), values := c.values[k := v])
    else
      var order := [k] + c.order;
      var values := c.values[k := v];
      DistinctCons(k, c.order);
      ElementsConcat([k], c.order);
      if |order| > c.capacity then
        var kept := order[..|order| - 1];
        var evicted := order[|order| - 1];
        assert order == kept + [evicted];
        ElementsConcat(kept, [evicted]);
        assert evicted !in kept by {
          forall i | 0 <= i < |kept| ensures kept[i] != evicted {
            assert Apart(order, i, |order| - 1);
          }
        }
        assert Distinct(kept) by {
          forall i, j ensures Apart(kept, i, j) {
            assert Apart(order, i, j);
          }
        }
        assert kept[0] == k;
        c.(order := kept, values := values - {evicted})
      else
        c.(order := order, values := values)
  }

  /** Get of an absent key: not found, nothing changes. */
  lemma GetAbsent<K, V>(c: Cache<K, V>, k: K)
    requires Inv(c) && k !in c.values
    ensures Lookup(c, k) == None && Touch(c, k) == c
  {
  }

  /** Get of a present key: its value is returned, it moves to the head, the other
      keys keep their relative order, and nothing is added or evicted. */
  lemma GetPresent<K, V>(c: Cache<K, V>, front: seq<K>, k: K, back: seq<K>)
    requires Inv(c) && c.order == front + [k] + back
    ensures Lookup(c, k) == Some(c.values[k])
    ensures Touch(c, k).order == [k] + front + back
    ensures Touch(c, k).values == c.values
  {
    NotInSplit(front, k, back);
    WithoutSplit(front, k, back);
  }

  /** In a distinct sequence the key at the split point occurs nowhere else. */
  lemma NotInSplit<K>(front: seq<K>, k: K, back: seq<K>)
    requires Distinct(front + [k] + back)
    ensures k in front + [k] + back && k !in front && k !in back
  {
    var s := front + [k] + back;
    assert s[|front|] == k;
    forall i | 0 <= i < |front| ensures front[i] != k {
      assert s[i] == front[i];
      assert Apart(s, i, |front|);
    }
    forall i | 0 <= i < |back| ensures back[i] != k {
      assert s[|front| + 1 + i] == back[i];
      assert Apart(s, |front| + 1 + i, |front|);
    }
  }

  /** Repeated Get of the head key leaves the order as it is. */
  lemma GetHeadIdempotent<K, V>(c: Cache<K, V>)
    requires Inv(c) && Size(c) > 0
    ensures Touch(c, c.order[0]) == c
  {
    MoveToFrontOfHead(c.order);
  }

  /** Put of an existing key: the value is overwritten, the key moves to the head,
      the other keys keep their order, and the size and key set stay the same. */
  lemma PutPresent<K, V>(c: Cache<K, V>, front: seq<K>, k: K, back: seq<K>, v: V)
    requires Inv(c) && c.order == front + [k] + back
    ensures Put(c, k, v).order == [k] + front + back
    ensures Put(c, k, v).values == c.values[k := v]
    ensures Put(c, k, v).values.Keys == c.values.Keys
    ensures Size(Put(c, k, v)) == Size(c)
  {
    NotInSplit(front, k, back);
    WithoutSplit(front, k, back);
  }

  /** Put of a new key into a cache with room: it goes in at the head and the size
      grows by one; nothing is evicted. */
  lemma PutNewWithRoom<K, V>(c: Cache<K, V>, k: K, v: V)
    requires Inv(c) && k !in c.values && Size(c) < c.capacity
    ensures Put(c, k, v).order == [k] + c.order
    ensures Put(c, k, v).values == c.values[k := v]
    ensures Size(Put(c, k, v)) == Size(c) + 1
  {
  }

  /** Put of a new key into a full cache: exactly one entry is evicted, the old
      tail, from both the order and the index, and the cache stays full. */
  lemma PutNewWhenFull<K, V>(c: Cache<K, V>, k: K, v: V)
    requires Inv(c) && k !in c.values && Size(c) == c.capacity
    ensures var tail := c.order[Size(c) - 1];
      && Put(c, k, v).order == [k] + c.order[..Size(c) - 1] == ([k] + c.order)[..Size(c)]
      && tail == ([k] + c.order)[Size(c)]
      && Put(c, k, v).values == (c.values - {tail})[k := v] == c.values[k := v] - {tail}
      && tail !in Put(c, k, v).values
      && Size(Put(c, k, v)) == c.capacity
  {
    var tail := c.order[Size(c) - 1];
    assert ([k] + c.order)[..Size(c)] == [k] + c.order[..Size(c) - 1];
    assert tail != k;
    assert (c.values[k := v]) - {tail} == (c.values - {tail})[k := v];
  }

  /** Put of a value under a key, then another under the same key: the size is that
      after the first Put, and Get finds the second value. */
  lemma UpdateInPlace<K, V>(c: Cache<K, V>, k: K, v1: V, v2: V)
    requires Inv(c)
    ensures Size(Put(Put(c, k, v1), k, v2)) == Size(Put(c, k, v1))
    ensures Lookup(Put(Put(c, k, v1), k, v2), k) == Some(v2)
  {
    var c1 := Put(c, k, v1);
    assert c1.order == [] + [k] + c1.order[1..];
    NotInSplit([], k, c1.order[1..]);
    PutPresent(c1, [], k, c1.order[1..], v2);
  }

  /** The demonstration sequence with capacity 3, step by step: three Puts fill
      the cache in the order c, b, a. */
  lemma ScenarioFill()
    ensures Put(Put(Put(Empty<string, int>(3), "a", 1), "b", 2), "c", 3)
         == Cache(3, ["c", "b", "a"], map["a" := 1, "b" := 2, "c" := 3])
  {
    var c0 := Empty<string, int>(3);
    PutNewWithRoom(c0, "a", 1);
    var a := Put(c0, "a", 1);
    PutNewWithRoom(a, "b", 2);
    var b := Put(a, "b", 2);
    PutNewWithRoom(b, "c", 3);
  }

  /** A cache of capacity 3 holding three different keys is well formed. */
  lemma InvOfThree<K, V>(c: Cache<K, V>)
    requires c.capacity == 3 && |c.order| == 3
    requires c.order[0] != c.order[1] && c.order[1] != c.order[2] && c.order[0] != c.order[2]
    requires c.values.Keys == {c.order[0], c.order[1], c.order[2]}
    ensures Inv(c)
  {
    assert c.order == [c.order[0], c.order[1], c.order[2]];
    assert Distinct(c.order) by {
      forall i, j ensures Apart(c.order, i, j) {
      }
    }
  }

  /** Get b finds 2 and moves b to the head. */
  lemma ScenarioGetB()
    ensures var c := Cache(3, ["c", "b", "a"], map["a" := 1, "b" := 2, "c" := 3]);
      && Lookup(c, "b") == Some(2)
      && Touch(c, "b") == Cache(3, ["b", "c", "a"], map["a" := 1, "b" := 2, "c" := 3])
  {
    var c := Cache(3, ["c", "b", "a"], map["a" := 1, "b" := 2, "c" := 3]);
    InvOfThree(c);
    GetPresent(c, ["c"], "b", ["a"]);
  }

  /** Put d into the full cache evicts a, the least recently used key. */
  lemma ScenarioPutD()
    ensures Put(Cache(3, ["b", "c", "a"], map["a" := 1, "b" := 2, "c" := 3]), "d", 4)
         == Cache(3, ["d", "b", "c"], map["b" := 2, "c" := 3, "d" := 4])
  {
    var c := Cache(3, ["b", "c", "a"], map["a" := 1, "b" := 2, "c" := 3]);
    InvOfThree(c);
    PutNewWhenFull(c, "d", 4);
    assert (c.values - {"a"})["d" := 4] == map["b" := 2, "c" := 3, "d" := 4];
  }

  /** Get a now misses and changes nothing; Get c finds 3 and moves c to the head. */
  lemma ScenarioGetAC()
    ensures var c := Cache(3, ["d", "b", "c"], map["b" := 2, "c" := 3, "d" := 4]);
      && Lookup(c, "a") == None && Touch(c, "a") == c
      && Lookup(c, "c") == Some(3)
      && Touch(c, "c") == Cache(3, ["c", "d", "b"], map["b" := 2, "c" := 3, "d" := 4])
  {
    var c := Cache(3, ["d", "b", "c"], map["b" := 2, "c" := 3, "d" := 4]);
    InvOfThree(c);
    GetAbsent(c, "a");
    GetPresent(c, ["d", "b"], "c", []);
  }

  /** Put e into the full cache evicts b. */
  lemma ScenarioPutE()
    ensures Put(Cache(3, ["c", "d", "b"], map["b" := 2, "c" := 3, "d" := 4]), "e", 5)
         == Cache(3, ["e", "c", "d"], map["c" := 3, "d" := 4, "e" := 5])
  {
    var c := Cache(3, ["c", "d", "b"], map["b" := 2, "c" := 3, "d" := 4]);
    InvOfThree(c);
    PutNewWhenFull(c, "e", 5);
    assert (c.values - {"b"})["e" := 5] == map["c" := 3, "d" := 4, "e" := 5];
  }
}
