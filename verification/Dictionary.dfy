/**
 The hash dictionary of src/common/dictionary.c: buckets of chained entries, linked through
 the entries' own `next`. It refines a finite map.
 */
module Dictionary {
  import opened Common
  import opened Lists
  import opened DictionarySpec

  type Item<K> = Node<Entry<K>>

  /** A bucket and the entries chained to it. */
  ghost predicate Chain<K>(head: Node?<Entry<K>>, nodes: seq<Item<K>>)
    reads nodes`next
  {
    head == NodeAt(nodes, 0) && forall i :: 0 <= i < |nodes| ==> LinkAt(nodes, i)
  }

  ghost function DataOf<K>(repr: set<Item<K>>): map<Item<K>, Entry<K>>
    reads repr`data
  {
    map x | x in repr :: x.data
  }

  ghost predicate AllIn<K>(nodes: seq<Item<K>>, repr: set<Item<K>>) {
    forall i :: 0 <= i < |nodes| ==> nodes[i] in repr
  }

  ghost predicate ChainsIn<K>(chains: seq<seq<Item<K>>>, repr: set<Item<K>>) {
    forall b :: 0 <= b < |chains| ==> AllIn(chains[b], repr)
  }

  ghost function RowAt<K>(nodes: seq<Item<K>>, data: map<Item<K>, Entry<K>>): (row: seq<Entry<K>>)
    requires AllIn(nodes, data.Keys)
    ensures |row| == |nodes|
  {
    seq(|nodes|, i requires 0 <= i < |nodes| => data[nodes[i]])
  }

  ghost function RowsAt<K>(chains: seq<seq<Item<K>>>, data: map<Item<K>, Entry<K>>): (rows: Rows<K>)
    requires ChainsIn(chains, data.Keys)
    ensures |rows| == |chains|
  {
    seq(|chains|, b requires 0 <= b < |chains| => RowAt(chains[b], data))
  }

  ghost predicate InRange<K(!new)>(hash: K -> nat, size: nat) {
    forall key :: hash(key) < size
  }

  ghost predicate Consistent<K(!new)>(chains: seq<seq<Item<K>>>, data: map<Item<K>, Entry<K>>, hash: K -> nat, count: nat) {
    && InRange(hash, |chains|) && ChainsIn(chains, data.Keys)
    && RowsOk(RowsAt(chains, data), hash) && count == Size(RowsAt(chains, data))
  }

  ghost predicate StandsOnce<K>(chains: seq<seq<Item<K>>>, b: nat, k: nat)
    requires b < |chains| && k < |chains[b]|
  {
    forall c, i :: 0 <= c < |chains| && 0 <= i < |chains[c]| && (c != b || i != k) ==> chains[c][i] != chains[b][k]
  }

  /** An entry stands in one chain only, and there once. */
  lemma OneChain<K>(chains: seq<seq<Item<K>>>, data: map<Item<K>, Entry<K>>, hash: K -> nat, b: nat, k: nat)
    requires ChainsIn(chains, data.Keys) && RowsOk(RowsAt(chains, data), hash) && b < |chains| && k < |chains[b]|
    ensures StandsOnce(chains, b, k)
  {
    var rows := RowsAt(chains, data);
    assert RowOk(rows[b], hash, b);
    assert hash(rows[b][k].key) == b;
    forall c, i | 0 <= c < |chains| && 0 <= i < |chains[c]| && (c != b || i != k) ensures chains[c][i] != chains[b][k] {
      assert RowOk(rows[c], hash, c) && rows[c][i] == data[chains[c][i]];
    }
  }

  lemma RowsInserted<K>(chains: seq<seq<Item<K>>>, data: map<Item<K>, Entry<K>>, b: nat, np: Item<K>, e: Entry<K>)
    requires ChainsIn(chains, data.Keys) && b < |chains| && np !in data
    ensures var c := chains[b := [np] + chains[b]]; var d := data[np := e]; var rows := RowsAt(chains, data);
            ChainsIn(c, d.Keys) && RowsAt(c, d) == rows[b := [e] + rows[b]]
  {
    var c, d, rows := chains[b := [np] + chains[b]], data[np := e], RowsAt(chains, data);
    forall i | 0 <= i < |c| ensures AllIn(c[i], d.Keys) {
      assert AllIn(chains[i], data.Keys);
    }
    forall i | 0 <= i < |c| ensures RowAt(c[i], d) == rows[b := [e] + rows[b]][i] {
      assert AllIn(chains[i], data.Keys) && rows[i] == RowAt(chains[i], data);
    }
  }

  lemma RowsRemoved<K>(chains: seq<seq<Item<K>>>, data: map<Item<K>, Entry<K>>, b: nat, k: nat)
    requires ChainsIn(chains, data.Keys) && b < |chains| && k < |chains[b]| && StandsOnce(chains, b, k)
    ensures var c := chains[b := WithoutAt(chains[b], k)]; var d := data - {chains[b][k]}; var rows := RowsAt(chains, data);
            ChainsIn(c, d.Keys) && RowsAt(c, d) == rows[b := WithoutAt(rows[b], k)]
  {
    var c, d, rows := chains[b := WithoutAt(chains[b], k)], data - {chains[b][k]}, RowsAt(chains, data);
    forall i | 0 <= i < |c| ensures AllIn(c[i], d.Keys) {
      assert AllIn(chains[i], data.Keys);
    }
    forall i | 0 <= i < |c| ensures RowAt(c[i], d) == rows[b := WithoutAt(rows[b], k)][i] {
      assert AllIn(chains[i], data.Keys) && rows[i] == RowAt(chains[i], data);
    }
  }

  lemma RemovalKeeps<K(!new)>(chains: seq<seq<Item<K>>>, data: map<Item<K>, Entry<K>>, hash: K -> nat, count: nat, b: nat, k: nat)
    requires Consistent(chains, data, hash, count) && b < |chains| && k < |chains[b]|
    ensures var c := chains[b := WithoutAt(chains[b], k)]; var d := data - {chains[b][k]};
            && count > 0 && Consistent(c, d, hash, count - 1)
            && MapOf(RowsAt(c, d), hash) == MapOf(RowsAt(chains, data), hash) - {data[chains[b][k]].key}
  {
    OneChain(chains, data, hash, b, k);
    RowsRemoved(chains, data, b, k);
    RemoveIsMinus(RowsAt(chains, data), hash, b, k);
  }

  lemma RowsSet<K>(chains: seq<seq<Item<K>>>, data: map<Item<K>, Entry<K>>, b: nat, k: nat, e: Entry<K>)
    requires ChainsIn(chains, data.Keys) && b < |chains| && k < |chains[b]| && StandsOnce(chains, b, k)
    ensures var d := data[chains[b][k] := e]; var rows := RowsAt(chains, data);
            ChainsIn(chains, d.Keys) && RowsAt(chains, d) == rows[b := rows[b][k := e]]
  {
    var d, rows := data[chains[b][k] := e], RowsAt(chains, data);
    forall i | 0 <= i < |chains| ensures AllIn(chains[i], d.Keys) && AllIn(chains[i], data.Keys) {}
    forall i | 0 <= i < |chains| ensures RowAt(chains[i], d) == rows[b := rows[b][k := e]][i] {
      assert rows[i] == RowAt(chains[i], data);
    }
  }

  /** What the memory of an entry holds after a copy of some bytes onto it; bytes beyond its end are
      not of this memory. */
  function Copied(old': Bytes, value: Bytes): Bytes {
    if |value| <= |old'| then value + old'[|value|..] else value[..|old'|]
  }

  /** A copy gives exactly the value where it is as long as what was there. */
  lemma CopiedExactly(old': Bytes, value: Bytes)
    ensures |Copied(old', value)| == |old'|
    ensures Copied(old', value) == value <==> |value| == |old'|
  {
  }

  /** A new value copied onto fresh memory of its size. */
  lemma ReplacedMap<K>(m: map<K, Bytes>, key: K, value: Bytes, memory: Bytes)
    requires |memory| == |value|
    ensures m[key := memory][key := Copied(memory, value)] == m[key := value]
  {
    assert Copied(memory, value) == value;
  }

  lemma ReplacedExactly<K>(m: map<K, Bytes>, key: K, value: Bytes)
    requires key in m
    ensures m[key := Copied(m[key], value)] == m[key := value] <==> |value| == |m[key]|
  {
    CopiedExactly(m[key], value);
    var a, b := m[key := Copied(m[key], value)], m[key := value];
    assert a[key] == Copied(m[key], value) && b[key] == value;
  }

  class Table<K(==, !new)> {
    const hash: K -> nat
    const buckets: array<Node?<Entry<K>>>
    var count: nat
    ghost var chains: seq<seq<Item<K>>>
    ghost var repr: set<Item<K>>

    ghost predicate Linked()
      reads this, buckets, repr`next
    {
      && |chains| == buckets.Length && ChainsIn(chains, repr)
      && forall b :: 0 <= b < |chains| ==> AllIn(chains[b], repr) && Chain(buckets[b], chains[b])
    }

    ghost predicate Whole(n: nat)
      reads this, buckets, repr
    {
      Linked() && Consistent(chains, DataOf(repr), hash, n)
    }

    /** The quantifier keeps proofs from taking the invariant apart where they only hand it on. */
    ghost predicate Valid()
      reads this, buckets, repr
    {
      exists n: nat :: n == count && Whole(n)
    }

    ghost function Contents(): Rows<K>
      reads this, repr`data
      requires ChainsIn(chains, repr)
    {
      RowsAt(chains, DataOf(repr))
    }

    /** The finite map the dictionary stands for. */
    ghost function Map(): map<K, Bytes>
      reads this, repr`data
      requires ChainsIn(chains, repr)
    {
      MapOf(Contents(), hash)
    }

    /** `dictionary_init`. */
    constructor (hash: K -> nat, hashsize: nat)
      requires InRange(hash, hashsize)
      ensures Valid() && Map() == map[] && count == 0 && buckets.Length == hashsize
      ensures fresh(buckets) && repr == {} && this.hash == hash && chains == seq(hashsize, i => [])
    {
      this.hash := hash;
      buckets := new Node?<Entry<K>>[hashsize](i => null);
      count := 0;
      chains := seq(hashsize, i => []);
      repr := {};
      new;
      EmptyRows(Contents(), hash);
      assert Whole(0);
    }

    /** `dict_lookup`. */
    method Search(key: K) returns (np: Node?<Entry<K>>, ghost k: nat)
      requires Valid()
      ensures k == Position(Contents()[hash(key)], key)
      ensures np == NodeAt(chains[hash(key)], Position(Contents()[hash(key)], key))
    {
      ghost var nodes, b := chains[hash(key)], hash(key);
      k := 0;
      np := buckets[hash(key)];
      while np != null && np.data.key != key
        invariant k <= |nodes| && np == NodeAt(nodes, k)
        invariant forall i :: 0 <= i < k ==> Contents()[b][i].key != key
        decreases |nodes| - k
      {
        assert LinkAt(nodes, k) && Contents()[b][k] == np.data;
        np := np.next;
        k := k + 1;
      }
      assert np != null ==> Contents()[b][k] == np.data;
      PositionIs(Contents()[b], key, k);
    }

    // ----- Changes of the chains

    /** A new entry goes to the front of the bucket b. */
    method LinkFront(b: nat, np: Item<K>)
      requires Linked() && b < |chains| && np !in repr
      modifies this`chains, this`repr, buckets, np`next
      ensures Linked() && repr == old(repr) + {np} && chains == old(chains)[b := [np] + old(chains)[b]]
    {
      np.next := buckets[b];
      buckets[b] := np;
      chains := chains[b := [np] + chains[b]];
      repr := repr + {np};
      forall c | 0 <= c < |chains| ensures AllIn(chains[c], repr) && Chain(buckets[c], chains[c]) {
        assert old(AllIn(chains[c], repr) && Chain(buckets[c], chains[c]));
        forall i | 0 <= i < |chains[c]| ensures LinkAt(chains[c], i) {
          if c != b {
            assert old(LinkAt(chains[c], i));
          } else if i > 0 {
            assert old(LinkAt(chains[b], i - 1));
          }
        }
      }
    }

    /** The k-th entry leaves the bucket b; prev is the one before it, if there is one. */
    method Unlink(b: nat, ghost k: nat, np: Item<K>, prev: Node?<Entry<K>>)
      requires Linked() && b < |chains| && k < |chains[b]| && np == chains[b][k] && prev == NodeAt(chains[b], k - 1)
      requires StandsOnce(chains, b, k) && (k > 0 ==> StandsOnce(chains, b, k - 1))
      modifies this`chains, this`repr, buckets, repr`next
      ensures Linked() && repr == old(repr) - {np} && chains == old(chains)[b := WithoutAt(old(chains)[b], k)]
    {
      assert LinkAt(chains[b], k);
      if prev != null {
        prev.next := np.next;
      } else {
        buckets[b] := np.next;
      }
      chains := chains[b := WithoutAt(chains[b], k)];
      repr := repr - {np};
      forall c | 0 <= c < |chains| ensures AllIn(chains[c], repr) && Chain(buckets[c], chains[c]) {
        assert old(AllIn(chains[c], repr) && Chain(buckets[c], chains[c]));
        forall i | 0 <= i < |chains[c]| ensures LinkAt(chains[c], i) {
          if c != b || i < k {
            assert old(LinkAt(chains[c], i));
          } else {
            assert old(LinkAt(chains[b], i + 1));
          }
        }
      }
    }

    // ----- The calls

    method Insert(np: Item<K>)
      requires Valid() && np !in repr && Lookup(Contents(), hash, np.data.key) == None
      modifies this`chains, this`repr, this`count, buckets, np`next
      ensures Valid() && repr == old(repr) + {np}
      ensures Map() == old(Map())[np.data.key := np.data.value] && count == old(count) + 1
      ensures StandsAt(np, np.data.key, 0) && chains == FrontLinked(old(chains), np)
    {
      var b := hash(np.data.key);
      RowsInserted(chains, DataOf(repr), b, np, np.data);
      InsertIsUpdate(Contents(), hash, np.data);
      ghost var data := DataOf(repr)[np := np.data];
      count := count + 1;
      LinkFront(b, np);
      assert DataOf(repr) == data;
      assert Whole(count);
    }

    /** The chains with a new entry in front of its bucket. */
    ghost function FrontLinked(old': seq<seq<Item<K>>>, np: Item<K>): seq<seq<Item<K>>>
      reads np`data
    {
      var b := hash(np.data.key);
      if b < |old'| then old'[b := [np] + old'[b]] else old'
    }

    ghost predicate StandsAt(np: Item<K>, key: K, k: nat)
      requires Valid()
      reads this, buckets, repr
    {
      k < |chains[hash(key)]| && np == chains[hash(key)][k] && np.data.key == key
    }

    lemma StandsInMap(np: Item<K>, key: K, k: nat)
      requires Valid() && StandsAt(np, key, k)
      ensures key in Map() && Map()[key] == np.data.value && np in repr
    {
      var row := Contents()[hash(key)];
      assert row[k] == np.data;
      assert RowOk(row, hash, hash(key));
      PositionIs(row, key, k);
      LookupIsMap(Contents(), hash, key);
    }

    lemma EntryInMap(b: nat, k: nat)
      requires Valid() && b < |chains| && k < |chains[b]|
      ensures var np := chains[b][k]; np in repr && np.data.key in Map() && Map()[np.data.key] == np.data.value
      ensures hash(chains[b][k].data.key) == b
    {
      assert RowOk(Contents()[b], hash, b) && Contents()[b][k] == chains[b][k].data;
      StandsInMap(chains[b][k], chains[b][k].data.key, k);
    }

    /** Only the first entry of a chain stands in the bucket itself. */
    lemma HeadIsFirst(b: nat, k: nat)
      requires Valid() && b < |chains| && k < |chains[b]|
      ensures b < buckets.Length && (buckets[b] == chains[b][k] <==> k == 0) && count > 0
    {
      OneChain(chains, DataOf(repr), hash, b, k);
      RemovalKeeps(chains, DataOf(repr), hash, count, b, k);
    }

    lemma HeadsIn()
      requires Valid()
      ensures forall b :: 0 <= b < buckets.Length && buckets[b] != null ==> buckets[b] in repr
    {
      forall b | 0 <= b < buckets.Length && buckets[b] != null ensures buckets[b] in repr {
        assert AllIn(chains[b], repr);
      }
    }

    /** The count is the number of keys. */
    lemma CountIsMapSize()
      requires Valid()
      ensures count == |Map()|
    {
      SizeIsMapSize(Contents(), hash);
    }

    /** A search that tells whether the map has the key. */
    method Seek(key: K) returns (np: Node?<Entry<K>>, ghost k: nat)
      requires Valid()
      ensures Valid() && chains == old(chains) && Map() == old(Map())
      ensures np == null <==> Lookup(Contents(), hash, key) == None
      ensures np == null <==> key !in Map()
      ensures np != null ==> StandsAt(np, key, k)
    {
      LookupIsMap(Contents(), hash, key);
      np, k := Search(key);
      assert np != null ==> Contents()[hash(key)][k] == np.data;
    }

    /** A new entry for an absent key. */
    method AddNew(key: K, value: Bytes) returns (np: Item<K>)
      requires Valid() && Lookup(Contents(), hash, key) == None
      modifies this`chains, this`repr, this`count, buckets
      ensures Valid() && fresh(np) && repr == old(repr) + {np}
      ensures Map() == old(Map())[key := value] && count == old(count) + 1 && StandsAt(np, key, 0)
      ensures chains == FrontLinked(old(chains), np)
    {
      np := new Node(Entry(key, value));
      Insert(np);
    }

    /** `dictionary_install_size`; `memory` is what the allocator hands out. */
    method InstallSize(key: K, memory: Option<Bytes>) returns (np: Node?<Entry<K>>, ghost k: nat)
      requires Valid()
      modifies this`chains, this`repr, this`count, buckets
      ensures Valid() && fresh(repr - old(repr)) && old(repr) <= repr
      ensures np == null <==> key !in old(Map()) && memory.None?
      ensures np != null ==> StandsAt(np, key, k)
      ensures Map() == if key in old(Map()) || memory.None? then old(Map()) else old(Map())[key := memory.value]
      ensures chains == if key in old(Map()) || memory.None? then old(chains) else FrontLinked(old(chains), np)
    {
      np, k := Seek(key);
      if np == null && memory.Some? {
        np := AddNew(key, memory.value);
        k := 0;
      }
    }

    /** `dictionary_lookup`: an absent key gets the value. */
    method LookupOrAdd(key: K, value: Bytes, memory: Option<Bytes>) returns (np: Node?<Entry<K>>, ghost k: nat)
      requires Valid() && (memory.Some? ==> |memory.value| == |value|)
      modifies this`chains, this`repr, this`count, buckets
      ensures Valid() && fresh(repr - old(repr)) && old(repr) <= repr
      ensures np == null <==> key !in old(Map()) && memory.None?
      ensures np != null ==> StandsAt(np, key, k)
      ensures Map() == if key in old(Map()) || memory.None? then old(Map()) else old(Map())[key := value]
    {
      np, k := Seek(key);
      if np == null && memory.Some? {
        ghost var m := Map();
        np := AddNew(key, memory.value);
        k := 0;
        SetValue(np, Copied(memory.value, value), 0);
        ReplacedMap(m, key, value, memory.value);
      }
    }

    method SetValue(np: Item<K>, value: Bytes, ghost k: nat)
      requires Valid() && StandsAt(np, np.data.key, k)
      modifies np`data
      ensures Valid() && Map() == old(Map())[old(np.data.key) := value] && np.data.key == old(np.data.key)
    {
      ghost var b, e, data := hash(np.data.key), Entry(np.data.key, value), DataOf(repr);
      OneChain(chains, data, hash, b, k);
      RowsSet(chains, data, b, k, e);
      SetIsUpdate(Contents(), hash, b, k, value);
      np.data := Entry(np.data.key, value);
      assert DataOf(repr) == data[np := e];
      assert Whole(count);
    }

    /** `dictionary_replace`: the value of a present key is overwritten in place, in memory whose size
        is that of the value it was installed with. `inside` says that no byte goes beyond it. */
    method Replace(key: K, value: Bytes, memory: Option<Bytes>) returns (np: Node?<Entry<K>>, ghost inside: bool)
      requires Valid() && (memory.Some? ==> |memory.value| == |value|)
      modifies this`chains, this`repr, this`count, buckets, repr`data
      ensures Valid() && fresh(repr - old(repr)) && old(repr) <= repr
      ensures np == null <==> key !in old(Map()) && memory.None?
      ensures np == null ==> Map() == old(Map())
      ensures np != null ==> Map() == old(Map())[key := if key in old(Map()) then Copied(old(Map())[key], value) else value]
      ensures np != null ==> (Map() == old(Map())[key := value] <==> key !in old(Map()) || |value| == |old(Map())[key]|)
      ensures inside <==> key !in old(Map()) || |value| <= |old(Map())[key]|
    {
      ghost var k, m;
      m := Map();
      inside := key in m ==> |value| <= |m[key]|;
      np, k := InstallSize(key, memory);
      if np != null {
        StandsInMap(np, key, k);
        if key !in m { ReplacedMap(m, key, value, memory.value); } else { ReplacedExactly(m, key, value); }
        SetValue(np, Copied(np.data.value, value), k);
      }
    }

    /** `dictionary_get`. */
    method Get(key: K) returns (np: Node?<Entry<K>>)
      requires Valid()
      ensures (if np == null then None else Some(np.data.value)) == DictionarySpec.Get(Map(), key)
      ensures np != null ==> np in repr && np.data.key == key
    {
      ghost var k;
      np, k := Seek(key);
      if np != null { StandsInMap(np, key, k); }
    }

    method TakeOut(b: nat, ghost k: nat, np: Item<K>, prev: Node?<Entry<K>>)
      requires Valid() && b < |chains| && k < |chains[b]| && np == chains[b][k] && prev == NodeAt(chains[b], k - 1)
      modifies this`chains, this`repr, this`count, buckets, repr`next
      ensures Valid() && repr == old(repr) - {np} && count == old(count) - 1
      ensures Map() == old(Map()) - {np.data.key} && chains == old(chains)[b := WithoutAt(old(chains)[b], k)]
    {
      ghost var data := DataOf(repr);
      OneChain(chains, data, hash, b, k);
      if k > 0 { OneChain(chains, data, hash, b, k - 1); }
      RemovalKeeps(chains, data, hash, count, b, k);
      count := count - 1;
      Unlink(b, k, np, prev);
      assert DataOf(repr) == data - {np};
      assert Whole(count);
    }

    /** The loop of `dict_remove`. */
    method SearchBoth(key: K) returns (np: Node?<Entry<K>>, prev: Node?<Entry<K>>, ghost k: nat)
      requires Valid()
      ensures Valid() && chains == old(chains) && Map() == old(Map())
      ensures np == null <==> key !in Map()
      ensures np != null ==> StandsAt(np, key, k)
      ensures prev == NodeAt(chains[hash(key)], k - 1)
    {
      prev := null;
      np := buckets[hash(key)];
      ghost var nodes, b := chains[hash(key)], hash(key);
      k := 0;
      while np != null && np.data.key != key
        invariant k <= |nodes| && np == NodeAt(nodes, k) && prev == NodeAt(nodes, k - 1)
        invariant forall i :: 0 <= i < k ==> Contents()[b][i].key != key
        decreases |nodes| - k
      {
        assert LinkAt(nodes, k) && Contents()[b][k] == np.data;
        prev := np;
        np := np.next;
        k := k + 1;
      }
      assert np != null ==> Contents()[b][k] == np.data;
      PositionIs(Contents()[b], key, k);
      LookupIsMap(Contents(), hash, key);
    }

    /** `dict_remove` and `dictionary_remove`. */
    method Remove(key: K) returns (removed: bool)
      requires Valid()
      modifies this`chains, this`repr, this`count, buckets, repr`next
      ensures Valid() && repr <= old(repr)
      ensures removed == (key in old(Map())) && Map() == old(Map()) - {key}
    {
      ghost var k;
      var np, prev;
      np, prev, k := SearchBoth(key);
      removed := np != null;
      if np != null {
        TakeOut(hash(key), k, np, prev);
      }
    }

    /** `dictionary_remove_all`, without its callback. */
    method RemoveAll()
      requires Valid()
      modifies this`chains, this`repr, this`count, buckets, repr`next
      ensures Valid() && repr <= old(repr) && Map() == map[] && count == 0
    {
      var i := 0;
      while i < buckets.Length
        invariant i <= buckets.Length && Valid() && repr <= old(repr)
        invariant forall b :: 0 <= b < i ==> chains[b] == []
      {
        RemoveBucket(i);
        i := i + 1;
      }
      EmptyRows(Contents(), hash);
    }

    /** The inner loop of `dictionary_remove_all`. */
    method RemoveBucket(b: nat)
      requires Valid() && b < buckets.Length
      modifies this`chains, this`repr, this`count, buckets, repr`next
      ensures Valid() && repr <= old(repr) && chains == old(chains)[b := []]
    {
      ghost var before := chains;
      var np := buckets[b];
      while np != null
        invariant Valid() && repr <= old(repr) && np == buckets[b] && |chains| == |before|
        invariant chains == before[b := chains[b]]
        decreases |chains[b]|
      {
        TakeOut(b, 0, np, null);
        np := buckets[b];
      }
      assert chains[b] == [];
    }
  }

  lemma {:induction false} PositionIs<K>(row: seq<Entry<K>>, key: K, k: nat)
    requires k <= |row| && (forall i :: 0 <= i < k ==> row[i].key != key) && (k < |row| ==> row[k].key == key)
    ensures Position(row, key) == k
  {
  }

  lemma {:induction false} EmptyRows<K>(rows: Rows<K>, hash: K -> nat)
    requires forall b :: 0 <= b < |rows| ==> rows[b] == []
    ensures RowsOk(rows, hash) && Size(rows) == 0 && AllKeys(rows) == {} && MapOf(rows, hash) == map[]
  {
    if rows != [] {
      EmptyRows(rows[..|rows| - 1], hash);
    }
  }

  /** One byte written over two leaves the second one there; of three the last goes beyond them. */
  lemma CopiedOverTwo()
    ensures var m: map<nat, Bytes> := map[7 := [1, 2]];
            && m[7 := Copied(m[7], [3])] == map[7 := [3, 2]] != m[7 := [3]]
            && m[7 := Copied(m[7], [3, 4, 5])] == map[7 := [3, 4]] != m[7 := [3, 4, 5]]
  {
    var m: map<nat, Bytes> := map[7 := [1, 2]];
    ReplacedExactly(m, 7, [3]);
    ReplacedExactly(m, 7, [3, 4, 5]);
    assert m[7 := Copied(m[7], [3])][7] == [3, 2] && m[7 := Copied(m[7], [3, 4, 5])][7] == [3, 4];
  }
}
