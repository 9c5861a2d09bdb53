/** RandomAccessUnorderedMap: a key -> value map that can also hand out a uniformly chosen key
    in constant time. It keeps a dense, gap-free store of {key, value} entries (`element_set`)
    and a position index from each key to its slot (`index_map`); removal moves the last entry
    into the freed slot ("swap and pop"), so the store never has holes and a random slot is a
    random live key.

    The model has two layers. The functions on `Table` values specify each operation and carry
    the lemmas (the invariant is kept, the abstract map changes as it should, which slots
    move). The class keeps the two structures as fields and updates them in place, step by
    step as the source does; each of its methods is proved to produce the state its function
    describes.
 */
module RandomAccessMap {

  datatype Option<T> = None | Some(value: T)

  /** An entry of the dense store. */
  datatype Element<K, V> = Element(key: K, value: V)

  /** The container's state: the dense store and the position index. */
  datatype Table<K, V> = Table(store: seq<Element<K, V>>, index: map<K, nat>)

  /** The invariant that keeps the two structures consistent: every indexed key sits in the
      slot the index gives it, and every slot's key is indexed at that slot. */
  ghost predicate Consistent<K, V>(t: Table<K, V>)
  {
    && (forall k :: k in t.index ==> t.index[k] < |t.store| && t.store[t.index[k]].key == k)
    && (forall i :: 0 <= i < |t.store| ==> t.store[i].key in t.index && t.index[t.store[i].key] == i)
  }

  /** The abstract map a consistent state stands for. */
  ghost function View<K, V>(t: Table<K, V>): map<K, V>
    requires Consistent(t)
  {
    map k | k in t.index :: t.store[t.index[k]].value
  }

  /** `std::swap` of two slots. */
  function Swap<T>(s: seq<T>, i: nat, j: nat): (r: seq<T>)
    requires i < |s| && j < |s|
    ensures |r| == |s| && r[i] == s[j] && r[j] == s[i]
    ensures forall m :: 0 <= m < |s| && m != i && m != j ==> r[m] == s[m]
  {
    s[i := s[j]][j := s[i]]
  }

  /** `std::unordered_map::insert`: an existing entry for k is left as it is. */
  function MapInsert<X, Y>(m: map<X, Y>, k: X, y: Y): (r: map<X, Y>)
    ensures k in r && r.Keys == m.Keys + {k}
    ensures k in m ==> r == m
    ensures k !in m ==> r[k] == y && forall x :: x in m ==> r[x] == m[x]
  {
    if k in m then m else m[k := y]
  }

  /** remove: nothing happens for an absent key. Otherwise the entry at slot i is swapped with
      the last one and the store shrinks by one; if i was not the last slot, the entry that
      moved into i is re-indexed at i; finally the key leaves the index. */
  function RemoveSpec<K, V>(t: Table<K, V>, key: K): Table<K, V>
    requires Consistent(t)
  {
    if key !in t.index then t
    else
      var i, last := t.index[key], |t.store| - 1;
      if i == last then
        Table(t.store[..last], t.index - {key})
      else
        var store := Swap(t.store, i, last)[..last];
        Table(store, t.index[store[i].key := i] - {key})
  }

  /** insert: remove the key, append the new entry and index it at the last slot. */
  function InsertSpec<K, V>(t: Table<K, V>, key: K, value: V): Table<K, V>
    requires Consistent(t)
  {
    var removed := RemoveSpec(t, key);
    var store := removed.store + [Element(key, value)];
    Table(store, MapInsert(removed.index, key, |store| - 1))
  }

  /** Keys in the store are distinct. */
  lemma KeysDistinct<K, V>(t: Table<K, V>, i: nat, j: nat)
    requires Consistent(t)
    requires i < |t.store| && j < |t.store|
    requires t.store[i].key == t.store[j].key
    ensures i == j
  {
  }

  /** The index holds exactly as many keys as the store holds entries. */
  lemma {:induction false} ConsistentSize<K, V>(t: Table<K, V>)
    requires Consistent(t)
    ensures |t.index| == |t.store|
    decreases |t.store|
  {
    if |t.store| == 0 {
      assert t.index.Keys == {};
    } else {
      var last := |t.store| - 1;
      var lastKey := t.store[last].key;
      var smaller := Table(t.store[..last], t.index - {lastKey});
      forall k | k in smaller.index
        ensures smaller.index[k] < |smaller.store| && smaller.store[smaller.index[k]].key == k
      {
        assert t.index[k] != last;
      }
      assert Consistent(smaller);
      ConsistentSize(smaller);
      assert smaller.index.Keys == t.index.Keys - {lastKey};
    }
  }

  /** Each live key occupies exactly one slot, so a uniform draw over the slots
      [0, |store|) is a uniform draw over the keys. */
  lemma OneSlotPerKey<K, V>(t: Table<K, V>, k: K)
    requires Consistent(t)
    requires k in t.index
    ensures forall i :: 0 <= i < |t.store| ==> (t.store[i].key == k <==> i == t.index[k])
  {
  }

  /** remove keeps the invariant, drops exactly the key from the abstract map and shrinks the
      store by one exactly when the key was present. */
  lemma RemoveCorrect<K, V>(t: Table<K, V>, key: K)
    requires Consistent(t)
    ensures Consistent(RemoveSpec(t, key))
    ensures View(RemoveSpec(t, key)) == View(t) - {key}
    ensures key !in RemoveSpec(t, key).index
    ensures |RemoveSpec(t, key).store| == if key in t.index then |t.store| - 1 else |t.store|
  {
    if key in t.index {
      if t.index[key] == |t.store| - 1 {
        RemoveLastConsistent(t, key);
      } else {
        RemoveSwapConsistent(t, key);
      }
      RemoveView(t, key);
    }
  }

  /** Removing the key at the last slot only pops the store. */
  lemma RemoveLastConsistent<K, V>(t: Table<K, V>, key: K)
    requires Consistent(t)
    requires key in t.index && t.index[key] == |t.store| - 1
    ensures Consistent(RemoveSpec(t, key))
  {
    var r, last := RemoveSpec(t, key), |t.store| - 1;
    forall k | k in r.index
      ensures r.index[k] < |r.store| && r.store[r.index[k]].key == k
    {
      assert t.index[k] != last;
    }
  }

  /** Removing the key at an inner slot moves the last entry there and re-indexes it. */
  lemma RemoveSwapConsistent<K, V>(t: Table<K, V>, key: K)
    requires Consistent(t)
    requires key in t.index && t.index[key] != |t.store| - 1
    ensures Consistent(RemoveSpec(t, key))
  {
    var r, i, last := RemoveSpec(t, key), t.index[key], |t.store| - 1;
    var moved := t.store[last];
    assert r.store[i] == moved;
    assert moved.key != key;
    forall k | k in r.index
      ensures r.index[k] < |r.store| && r.store[r.index[k]].key == k
    {
      if k != moved.key {
        assert t.index[k] != last && t.index[k] != i;
      }
    }
    forall j | 0 <= j < |r.store|
      ensures r.store[j].key in r.index && r.index[r.store[j].key] == j
    {
      if j != i {
        assert r.store[j] == t.store[j];
      }
    }
  }

  /** Whichever way remove goes, every remaining key still finds its old entry. */
  lemma RemoveView<K, V>(t: Table<K, V>, key: K)
    requires Consistent(t) && key in t.index
    requires Consistent(RemoveSpec(t, key))
    ensures View(RemoveSpec(t, key)) == View(t) - {key}
  {
    var r := RemoveSpec(t, key);
    forall k | k in r.index ensures r.store[r.index[k]].value == t.store[t.index[k]].value {
      assert r.store[r.index[k]] == t.store[t.index[k]];
    }
  }

  /** Which slots move on remove: with the removed key at the last slot no other key's slot
      changes; otherwise the former last entry now occupies the freed slot, its index entry
      is that slot, and every other key keeps its slot. */
  lemma RemoveMoves<K, V>(t: Table<K, V>, key: K)
    requires Consistent(t)
    requires key in t.index
    ensures var r, i, last := RemoveSpec(t, key), t.index[key], |t.store| - 1;
            && (i == last ==> r.store == t.store[..last]
                              && forall k :: k in r.index ==> r.index[k] == t.index[k])
            && (i != last ==> r.store[i] == t.store[last]
                              && r.index[t.store[last].key] == i
                              && (forall j :: 0 <= j < |r.store| && j != i ==> r.store[j] == t.store[j])
                              && forall k :: k in r.index && k != t.store[last].key ==> r.index[k] == t.index[k])
  {
  }

  /** Removing twice is removing once. */
  lemma RemoveIdempotent<K, V>(t: Table<K, V>, key: K)
    requires Consistent(t)
    ensures Consistent(RemoveSpec(t, key))
    ensures RemoveSpec(RemoveSpec(t, key), key) == RemoveSpec(t, key)
  {
    RemoveCorrect(t, key);
  }

  /** remove as written, called with a reference into the store itself, as in
      `m.remove(m.element_set[i].key)` for a slot i other than the last one. The key is read
      through the reference after the swap, so it names the entry that moved into slot i:
      the moved key is re-indexed and then erased, while the key meant for removal stays
      indexed. (For i the last slot, `pop_back` destroys the referenced key before it is
      read; that is undefined behaviour and not modelled.) */
  function RemoveAliasedAsWritten<K, V>(t: Table<K, V>, i: nat): (r: Table<K, V>)
    requires Consistent(t)
    requires i < |t.store| - 1
    ensures |r.store| == |t.store| - 1
    ensures r.store[i] == t.store[|t.store| - 1]
    ensures t.store[i].key in r.index && t.store[|t.store| - 1].key !in r.index
    ensures !Consistent(r)
  {
    var last := |t.store| - 1;
    var store := Swap(t.store, i, last)[..last];
    var key := store[i].key;
    Table(store, t.index[store[i].key := i] - {key})
  }

  /** With two entries, removing through a reference to slot 0 leaves the removed key 0
      indexed at slot 0, which now holds key 1, and drops key 1 from the index: the invariant
      is broken. Copying the key first, as RemoveSpec does, removes exactly key 0
      (RemoveCorrect). */
  lemma RemoveAliasedBreaksInvariant()
    ensures var t := Table([Element(0, 'a'), Element(1, 'b')], map[0 := 0, 1 := 1]);
            && Consistent(t)
            && var r := RemoveAliasedAsWritten(t, 0);
            && r.store == [Element(1, 'b')]
            && r.index == map[0 := 0]
            && !Consistent(r)
  {
    var t := Table([Element(0, 'a'), Element(1, 'b')], map[0 := 0, 1 := 1]);
    var r := RemoveAliasedAsWritten(t, 0);
    assert r.store == [Element(1, 'b')];
    assert r.index == map[0 := 0];
    assert r.store[r.index[0]].key == 1;
  }

  /** Removing the entry of slot i with its key copied out first, as RemoveSpec does, keeps the
      invariant and drops exactly that key from the abstract map. */
  lemma RemoveBySlotCopied<K, V>(t: Table<K, V>, i: nat)
    requires Consistent(t)
    requires i < |t.store|
    ensures Consistent(RemoveSpec(t, t.store[i].key))
    ensures View(RemoveSpec(t, t.store[i].key)) == View(t) - {t.store[i].key}
  {
    RemoveCorrect(t, t.store[i].key);
  }

  /** insert keeps the invariant, maps the key to the new value in the abstract map, leaves
      every other key alone, puts the key at the last slot, and grows the store by one
      exactly when the key was new. The index update of `insert` always takes effect, since
      the key has just been removed. */
  lemma InsertCorrect<K, V>(t: Table<K, V>, key: K, value: V)
    requires Consistent(t)
    ensures key !in RemoveSpec(t, key).index
    ensures Consistent(InsertSpec(t, key, value))
    ensures View(InsertSpec(t, key, value)) == View(t)[key := value]
    ensures var r := InsertSpec(t, key, value);
            && r.index[key] == |r.store| - 1
            && r.store[|r.store| - 1] == Element(key, value)
            && |r.store| == if key in t.index then |t.store| else |t.store| + 1
  {
    RemoveCorrect(t, key);
    AppendConsistent(RemoveSpec(t, key), key, value);
  }

  /** Appending an entry for an absent key and indexing it at the new last slot keeps the
      invariant and adds exactly that key to the abstract map. */
  lemma AppendConsistent<K, V>(t: Table<K, V>, key: K, value: V)
    requires Consistent(t) && key !in t.index
    ensures var r := Table(t.store + [Element(key, value)], t.index[key := |t.store|]);
            Consistent(r) && View(r) == View(t)[key := value]
  {
    var r := Table(t.store + [Element(key, value)], t.index[key := |t.store|]);
    forall j | 0 <= j < |r.store|
      ensures r.store[j].key in r.index && r.index[r.store[j].key] == j
    {
      if j < |t.store| {
        assert r.store[j] == t.store[j];
      }
    }
    assert Consistent(r);
    forall k | k in r.index && k != key
      ensures r.store[r.index[k]] == t.store[t.index[k]]
    {
    }
  }

  /** The container of the source, with its two structures as fields updated in place. The
      random number generator is not a field: random_key takes the drawn slot instead. */
  class RandomAccessUnorderedMap<K(==), V> {
    var elementSet: seq<Element<K, V>>
    var indexMap: map<K, nat>

    ghost function State(): Table<K, V>
      reads this
    {
      Table(elementSet, indexMap)
    }

    ghost predicate Valid()
      reads this
    {
      Consistent(State())
    }

    /** The abstract map the container stands for. */
    ghost function Contents(): (c: map<K, V>)
      reads this
      requires Valid()
      ensures c.Keys == indexMap.Keys
    {
      View(State())
    }

    constructor ()
      ensures Valid()
      ensures elementSet == [] && indexMap == map[] && Contents() == map[]
    {
      elementSet := [];
      indexMap := map[];
    }

    /** find_index: the slot the index gives the key, if any. */
    method FindIndex(key: K) returns (r: Option<nat>)
      ensures r.Some? <==> key in indexMap
      ensures r.Some? ==> r.value == indexMap[key]
      ensures r.Some? && Valid() ==> r.value < |elementSet| && elementSet[r.value].key == key
    {
      if key !in indexMap {
        return None;
      }
      return Some(indexMap[key]);
    }

    /** find: the value stored for the key, or None; changes nothing. */
    method Find(key: K) returns (r: Option<V>)
      requires Valid()
      ensures r.Some? <==> key in Contents()
      ensures r.Some? ==> r.value == Contents()[key]
      ensures r.Some? ==> r.value == elementSet[indexMap[key]].value
    {
      var indexOptional := FindIndex(key);
      if indexOptional.Some? {
        return Some(elementSet[indexOptional.value].value);
      }
      return None;
    }

    /** remove: swap-and-pop, keeping both structures consistent. */
    method Remove(key: K)
      requires Valid()
      modifies this
      ensures Valid()
      ensures State() == RemoveSpec(old(State()), key)
      ensures Contents() == old(Contents()) - {key}
      ensures |elementSet| == if key in old(indexMap) then old(|elementSet|) - 1 else old(|elementSet|)
    {
      RemoveCorrect(State(), key);
      var indexOptional := FindIndex(key);
      if indexOptional.Some? {
        var index := indexOptional.value;
        if index == |elementSet| - 1 {
          elementSet := elementSet[..|elementSet| - 1];
        } else {
          elementSet := Swap(elementSet, index, |elementSet| - 1);
          elementSet := elementSet[..|elementSet| - 1];
          var localKey := elementSet[index].key;
          indexMap := indexMap[localKey := index];
        }
        indexMap := indexMap - {key};
      }
    }

    /** insert: remove the key, then append the entry and index it at the last slot. */
    method Insert(key: K, value: V)
      requires Valid()
      modifies this
      ensures Valid()
      ensures State() == InsertSpec(old(State()), key, value)
      ensures Contents() == old(Contents())[key := value]
      ensures key in indexMap && indexMap[key] == |elementSet| - 1
      ensures |elementSet| == if key in old(indexMap) then old(|elementSet|) else old(|elementSet|) + 1
    {
      ghost var before := State();
      InsertCorrect(before, key, value);
      Remove(key);
      var element := Element(key, value);
      elementSet := elementSet + [element];
      indexMap := MapInsert(indexMap, key, |elementSet| - 1);
    }

    /** random_key: the key at the slot drawn by the random number generator. The source
        draws from [0, size - 1], which presumes a non-empty store; the draw is a
        parameter here and must lie in that range. */
    method RandomKey(draw: nat) returns (k: K)
      requires Valid()
      requires draw < |elementSet|
      ensures k == elementSet[draw].key
      ensures k in Contents() && indexMap[k] == draw
    {
      k := elementSet[draw].key;
    }
  }

  /** The scenario of the source's demonstration, checked against the contracts above: every
      `assert` of the demonstration holds, whatever slot the random draw picks. It is split
      into steps, each starting from what the previous one established. */
  method Demonstration(draw: nat)
    requires draw < 3
  {
    var m := new RandomAccessUnorderedMap<string, string>();
    var r := m.Find("Hello World");
    assert r == None;
    m.Insert("hello", "world");
    r := m.Find("hello");
    assert r == Some("world");
    DemonstrationInsertSecond(m, draw);
  }

  method DemonstrationInsertSecond(m: RandomAccessUnorderedMap<string, string>, draw: nat)
    requires m.Valid() && m.Contents() == map["hello" := "world"]
    requires draw < 3
    modifies m
  {
    m.Insert("hello2", "world2");
    DemonstrationInsertThird(m, draw);
  }

  method DemonstrationInsertThird(m: RandomAccessUnorderedMap<string, string>, draw: nat)
    requires m.Valid() && m.Contents() == map["hello" := "world", "hello2" := "world2"]
    requires draw < 3
    modifies m
  {
    ConsistentSize(m.State());
    assert |m.elementSet| == |m.Contents().Keys| == 2;
    m.Insert("hello3", "world3");
    DemonstrationFindAllAndDraw(m, draw);
  }

  method DemonstrationFindAllAndDraw(m: RandomAccessUnorderedMap<string, string>, draw: nat)
    requires m.Valid()
    requires m.Contents() == map["hello" := "world", "hello2" := "world2", "hello3" := "world3"]
    requires draw < |m.elementSet|
    modifies m
  {
    var r1 := m.Find("hello");
    var r2 := m.Find("hello2");
    var r3 := m.Find("hello3");
    assert r1.Some? && r2.Some? && r3.Some?;
    var k := m.RandomKey(draw);
    assert k in {"hello", "hello2", "hello3"};
    DemonstrationRemove(m);
  }

  method DemonstrationRemove(m: RandomAccessUnorderedMap<string, string>)
    requires m.Valid()
    requires m.Contents() == map["hello" := "world", "hello2" := "world2", "hello3" := "world3"]
    modifies m
  {
    m.Remove("hello");
    m.Remove("blubsi");
    var r := m.Find("hello2");
    assert r == Some("world2");
    r := m.Find("hello3");
    assert r == Some("world3");
    r := m.Find("hello");
    assert r == None;
    DemonstrationOverwrite(m);
  }

  method DemonstrationOverwrite(m: RandomAccessUnorderedMap<string, string>)
    requires m.Valid() && "hello3" in m.Contents()
    modifies m
  {
    m.Insert("hello3", "world4");
    var r := m.Find("hello3");
    assert r == Some("world4");
  }
}
