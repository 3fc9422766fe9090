/**
 The iterator of src/common/dictionary.c over a table: the plain walk through the buckets,
 the sorted walk that scans the table for each step, and moving entries to another table.
 */
module DictionaryIter {
  import opened Lists
  import opened DictionarySpec
  import opened Dictionary
  import opened SortedWalk

  // ----- The order of the plain walk

  function Flat<T>(rows: seq<seq<T>>): seq<T> {
    if rows == [] then [] else Flat(rows[..|rows| - 1]) + rows[|rows| - 1]
  }

  /** How many entries stand before the row b. */
  function Offset<T>(rows: seq<seq<T>>, b: nat): nat
    requires b <= |rows|
  {
    |Flat(rows[..b])|
  }

  lemma OffsetNext<T>(rows: seq<seq<T>>, b: nat)
    requires b < |rows|
    ensures Offset(rows, b + 1) == Offset(rows, b) + |rows[b]|
  {
    assert rows[..b + 1][..b] == rows[..b];
  }

  lemma OffsetEnd<T>(rows: seq<seq<T>>)
    ensures Offset(rows, |rows|) == |Flat(rows)|
  {
    assert rows[..|rows|] == rows;
  }

  lemma {:induction false} FlatAt<T>(rows: seq<seq<T>>, b: nat, k: nat)
    requires b < |rows| && k < |rows[b]|
    ensures Offset(rows, b) + k < |Flat(rows)| && Flat(rows)[Offset(rows, b) + k] == rows[b][k]
  {
    var n := |rows| - 1;
    if b < n {
      FlatAt(rows[..n], b, k);
      assert rows[..n][..b] == rows[..b];
    }
  }

  lemma {:induction false} FlatData<K>(chains: seq<seq<Item<K>>>, data: map<Item<K>, Entry<K>>)
    requires ChainsIn(chains, data.Keys)
    ensures |Flat(chains)| == |Flat(RowsAt(chains, data))|
    ensures forall i :: 0 <= i < |Flat(chains)| ==> Flat(chains)[i] in data && data[Flat(chains)[i]] == Flat(RowsAt(chains, data))[i]
  {
    if chains != [] {
      var n := |chains| - 1;
      FlatData(chains[..n], data);
      assert AllIn(chains[n], data.Keys);
      assert RowsAt(chains, data)[..n] == RowsAt(chains[..n], data);
    }
  }

  type Compare<!K> = (Entry<K>, Entry<K>) -> int

  ghost predicate Holds<K(!new)>(t: Table<K>, chains: seq<seq<Item<K>>>, data: map<Item<K>, Entry<K>>)
    reads t, t.buckets, t.repr
  {
    t.Valid() && t.chains == chains && DataOf(t.repr) == data
  }

  /** The table stands as given: its chains, and the entries' keys and values. Here and below a
      quantifier keeps proofs from taking such a fact apart where they only hand it on. */
  ghost predicate Frozen<K(!new)>(t: Table<K>, chains: seq<seq<Item<K>>>, data: map<Item<K>, Entry<K>>)
    reads t, t.buckets, t.repr
  {
    exists c :: c in [chains] && Holds(t, c, data)
  }

  /** The entry np is the k-th of the bucket idx, and the i-th of the plain walk. */
  ghost predicate Stands<K>(chains: seq<seq<Item<K>>>, np: Item<K>, idx: int, k: nat, i: int) {
    0 <= idx < |chains| && k < |chains[idx]| && np == chains[idx][k] && i == Offset(chains, idx) + k
  }

  /** A cursor shows the i-th entry of the plain walk, or nothing behind its end. */
  ghost predicate Shown<K>(chains: seq<seq<Item<K>>>, np: Node?<Entry<K>>, idx: int, k: nat, i: nat) {
    if i < |Flat(chains)| then np != null && Stands(chains, np, idx, k, i) else np == null
  }

  /** The same of the chains as they are now. */
  ghost predicate ShownNow<K>(chains: seq<seq<Item<K>>>, np: Node?<Entry<K>>, idx: int, k: nat, i: nat) {
    exists c :: c in [chains] && Shown(c, np, idx, k, i)
  }

  /** `prev` is the entry before the k-th one of the bucket idx, or null before the first. */
  ghost predicate Behind<K>(chains: seq<seq<Item<K>>>, prev: Node?<Entry<K>>, idx: int, k: nat) {
    0 <= idx < |chains| && prev == NodeAt(chains[idx], k - 1)
  }

  /** From the entry at b, the next one is the k-th of the same bucket, or the first of a later one. */
  predicate GoesOn(b: int, k: nat, idx: int, k': nat) {
    (idx == b && k' == k) || (idx > b && k' == 0)
  }

  lemma StandsInWalk<K>(chains: seq<seq<Item<K>>>, data: map<Item<K>, Entry<K>>, np: Item<K>, idx: int, k: nat, i: int)
    requires ChainsIn(chains, data.Keys) && Stands(chains, np, idx, k, i)
    ensures 0 <= i < |Flat(chains)| == |Flat(RowsAt(chains, data))| && np in data && data[np] == Flat(RowsAt(chains, data))[i]
  {
    FlatAt(chains, idx, k);
    FlatData(chains, data);
  }

  /** What two tables hold. */
  datatype Maps<!K(==)> = Maps(chains: seq<seq<Item<K>>>, src: map<K, Bytes>, dest: map<K, Bytes>)

  /** The entry e, which is the k-th of the bucket b, goes to the other table. */
  ghost function Moved<K>(now: Maps<K>, b: nat, k: nat, e: Entry<K>): Maps<K>
    requires b < |now.chains| && k < |now.chains[b]|
  {
    Maps(now.chains[b := WithoutAt(now.chains[b], k)], now.src - {e.key}, now.dest[e.key := e.value])
  }

  ghost predicate Both<K(!new)>(src: Table<K>, dest: Table<K>, now: Maps<K>)
    reads src, src.buckets, src.repr, dest, dest.buckets, dest.repr
  {
    src.Valid() && dest.Valid() && src.chains == now.chains && src.Map() == now.src && dest.Map() == now.dest
  }

  ghost predicate Steady<K(!new)>(src: Table<K>, dest: Table<K>, now: Maps<K>)
    reads src, src.buckets, src.repr, dest, dest.buckets, dest.repr
  {
    exists m :: m in [now] && Both(src, dest, m)
  }

  /** `dict_lookup` in one of two tables. */
  method Absent<K(==, !new)>(src: Table<K>, dest: Table<K>, key: K, ghost now: Maps<K>) returns (absent: bool)
    requires Steady(src, dest, now)
    ensures Steady(src, dest, now) && absent == (key !in now.dest)
  {
    var there := dest.Get(key);
    absent := there == null;
  }

  class Cursor<K(==, !new)> {
    var np: Node?<Entry<K>>
    var prev: Node?<Entry<K>>
    var idx: int
    ghost var k: nat  // the place of np in its chain

    constructor ()
      ensures np == null && prev == null && idx == -1
    {
      np, prev, idx := null, null, -1;
    }

    /** The cursor stands at the entry i of the plain walk, or before all at -1. */
    ghost predicate At(chains: seq<seq<Item<K>>>, i: int)
      reads this
    {
      if np == null then i == -1 == idx else Stands(chains, np, idx, k, i)
    }

    /** The search of `_it_next` for a bucket with entries, from the bucket b on. */
    method NextBucket(t: Table<K>, from: nat, ghost chains: seq<seq<Item<K>>>, ghost data: map<Item<K>, Entry<K>>, ghost i: int)
      requires Frozen(t, chains, data) && from <= |chains| && Offset(chains, from) == i + 1
      modifies this
      ensures Frozen(t, chains, data)
      ensures if i + 1 < |Flat(chains)| then At(chains, i + 1) && np == Flat(chains)[i + 1] else np == null
      ensures prev == null && (np != null ==> k == 0)
    {
      prev := null;
      var b := from;
      while b < t.buckets.Length
        invariant 0 <= b <= t.buckets.Length == |chains| && Frozen(t, chains, data) && prev == null
        invariant Offset(chains, b) == i + 1
      {
        if t.buckets[b] != null {
          np, idx, k := t.buckets[b], b, 0;
          FlatAt(chains, b, 0);
          return;
        }
        OffsetNext(chains, b);
        b := b + 1;
      }
      OffsetEnd(chains);
      np := null;
    }

    /** `_it_next`. */
    method RawNext(t: Table<K>, ghost chains: seq<seq<Item<K>>>, ghost data: map<Item<K>, Entry<K>>, ghost i: int)
      requires Frozen(t, chains, data) && At(chains, i)
      modifies this
      ensures Frozen(t, chains, data) && -1 <= i < |Flat(chains)|
      ensures if i + 1 < |Flat(chains)| then At(chains, i + 1) && np == Flat(chains)[i + 1] else np == null
      ensures if np == null then prev == null else prev == NodeAt(chains[idx], k - 1)
    {
      if np != null { FlatAt(chains, idx, k); assert LinkAt(chains[idx], k); }
      if np != null && np.next != null {
        FlatAt(chains, idx, k + 1);
        prev := np;
        np := np.next;
        k := k + 1;
      } else {
        if idx >= 0 { OffsetNext(chains, idx); }
        NextBucket(t, idx + 1, chains, data, i);
      }
    }

    // ----- The sorted walk

    /** What the cursor shows: the r-th entry of the plain walk, or none. */
    ghost predicate Shows(chains: seq<seq<Item<K>>>, r: int)
      reads this
    {
      if r < 0 then np == null else np != null && Stands(chains, np, idx, k, r)
    }

    /** One turn of the loop of `dictionary_it_first`: the next entry of the plain walk against the
        best one so far, if there is one. */
    method FirstTurn(t: Table<K>, cmp: (Entry<K>, Entry<K>) -> int, next: Item<K>, nextIdx: int, ghost nextK: nat, ghost best: nat,
                     ghost j: nat, ghost chains: seq<seq<Item<K>>>, ghost data: map<Item<K>, Entry<K>>)
      returns (next': Item<K>, nextIdx': int, ghost nextK': nat, ghost best': nat)
      requires Frozen(t, chains, data) && np != null && Stands(chains, np, idx, k, j) && Stands(chains, next, nextIdx, nextK, best)
      modifies this
      ensures Frozen(t, chains, data) && j < |Flat(RowsAt(chains, data))| && best < |Flat(RowsAt(chains, data))|
      ensures np == null <==> j + 1 == |Flat(RowsAt(chains, data))|
      ensures np != null ==> Stands(chains, np, idx, k, j + 1)
      ensures best' < |Flat(RowsAt(chains, data))| && Stands(chains, next', nextIdx', nextK', best')
      ensures var order := Flat(RowsAt(chains, data));
              Least(order, cmp, best, j + 1) == if np == null then best' else Least(order, cmp, best', j + 2)
    {
      ghost var order := Flat(RowsAt(chains, data));
      FlatData(chains, data);
      RawNext(t, chains, data, j);
      next', nextIdx', nextK', best' := next, nextIdx, nextK, best;
      StandsInWalk(chains, data, next, nextIdx, nextK, best);
      if np != null {
        StandsInWalk(chains, data, np, idx, k, j + 1);
        if cmp(next.data, np.data) > 0 {
          next', nextIdx', nextK', best' := np, idx, k, j + 1;
        }
      }
    }

    method Place(at: Node?<Entry<K>>, bucket: int, ghost place: nat,
                 t: Table<K>, ghost chains: seq<seq<Item<K>>>, ghost data: map<Item<K>, Entry<K>>)
      requires Frozen(t, chains, data)
      modifies this
      ensures Frozen(t, chains, data) && np == at && idx == bucket && k == place
    {
      np, idx, k := at, bucket, place;
    }

    /** The loop of `dictionary_it_first`. */
    method FirstLoop(t: Table<K>, cmp: (Entry<K>, Entry<K>) -> int,
                     ghost chains: seq<seq<Item<K>>>, ghost data: map<Item<K>, Entry<K>>, ghost order: seq<Entry<K>>)
      returns (next: Item<K>, nextIdx: int, ghost nextK: nat)
      requires Frozen(t, chains, data) && np != null && Stands(chains, np, idx, k, 0)
      requires ChainsIn(chains, data.Keys) && order == Flat(RowsAt(chains, data)) && 0 < |order|
      modifies this
      ensures Frozen(t, chains, data) && Stands(chains, next, nextIdx, nextK, SortedWalk.First(order, cmp))
    {
      next, nextIdx, nextK := np, idx, k;
      ghost var best, j := 0, 0;
      while np != null
        invariant Frozen(t, chains, data) && 0 <= j <= |order| && (np == null <==> j == |order|)
        invariant np != null ==> Stands(chains, np, idx, k, j)
        invariant 0 <= best < |order| && Stands(chains, next, nextIdx, nextK, best)
        invariant SortedWalk.First(order, cmp) == if j == |order| then best else Least(order, cmp, best, j + 1)
        decreases |order| - j
      {
        next, nextIdx, nextK, best := FirstTurn(t, cmp, next, nextIdx, nextK, best, j, chains, data);
        j := j + 1;
      }
    }

    /** `dictionary_it_first` with a comparator. */
    method First(t: Table<K>, cmp: (Entry<K>, Entry<K>) -> int,
                 ghost chains: seq<seq<Item<K>>>, ghost data: map<Item<K>, Entry<K>>)
      requires Frozen(t, chains, data)
      modifies this
      ensures Frozen(t, chains, data) && Shows(chains, SortedWalk.First(Flat(RowsAt(chains, data)), cmp))
    {
      FlatData(chains, data);
      Place(null, -1, 0, t, chains, data);
      RawNext(t, chains, data, -1);
      if np != null {
        var next, nextIdx;
        ghost var nextK;
        next, nextIdx, nextK := FirstLoop(t, cmp, chains, data, Flat(RowsAt(chains, data)));
        Place(next, nextIdx, nextK, t, chains, data);
      }
    }

    /** The first loop of `dictionary_it_next`, on a copy of the iterator: to the next entry that is
        equal to the current one, the i-th. */
    method SeekEqual(t: Table<K>, cmp: (Entry<K>, Entry<K>) -> int, current: Entry<K>, ghost i: nat,
                     ghost chains: seq<seq<Item<K>>>, ghost data: map<Item<K>, Entry<K>>, ghost order: seq<Entry<K>>)
      requires Frozen(t, chains, data) && np != null && Stands(chains, np, idx, k, i)
      requires ChainsIn(chains, data.Keys) && order == Flat(RowsAt(chains, data)) && i < |order| && current == order[i]
      modifies this
      ensures Frozen(t, chains, data) && Shows(chains, NextEqual(order, cmp, i, i + 1))
    {
      ghost var j: nat := i;
      while true
        invariant Frozen(t, chains, data) && i <= j < |order| && np != null && Stands(chains, np, idx, k, j)
        invariant NextEqual(order, cmp, i, i + 1) == NextEqual(order, cmp, i, j + 1)
        decreases |order| - j
      {
        FlatData(chains, data);
        RawNext(t, chains, data, j);
        if np == null { break; }
        j := j + 1;
        StandsInWalk(chains, data, np, idx, k, j);
        if cmp(current, np.data) == 0 { break; }
      }
    }

    /** One turn of the second loop of `dictionary_it_next`: this iterator stands at the j-th entry. */
    method AboveTurn(t: Table<K>, cmp: (Entry<K>, Entry<K>) -> int, current: Item<K>, next: Node?<Entry<K>>, nextIdx: int,
                     ghost nextK: nat, ghost best: int, ghost i: nat, ghost j: nat,
                     ghost chains: seq<seq<Item<K>>>, ghost data: map<Item<K>, Entry<K>>, ghost order: seq<Entry<K>>)
      returns (next': Node?<Entry<K>>, nextIdx': int, ghost nextK': nat, ghost best': int)
      requires Frozen(t, chains, data) && ChainsIn(chains, data.Keys) && order == Flat(RowsAt(chains, data))
      requires np != null && Stands(chains, np, idx, k, j) && j < |order| && i < |order|
      requires |order| == |Flat(chains)| && Flat(chains)[i] == current && current in data && data[current] == order[i]
      requires cmp(order[i], order[i]) == 0
      requires -1 <= best < |order| && (if best < 0 then next == null else next != null && Stands(chains, next, nextIdx, nextK, best))
      modifies this
      ensures Frozen(t, chains, data) && (np == null <==> j + 1 == |order|)
      ensures np != null ==> Stands(chains, np, idx, k, j + 1)
      ensures -1 <= best' < |order|
      ensures if best' < 0 then next' == null else next' != null && Stands(chains, next', nextIdx', nextK', best')
      ensures Above(order, cmp, i, best, j) == Above(order, cmp, i, best', j + 1)
    {
      next', nextIdx', nextK', best' := next, nextIdx, nextK, best;
      StandsInWalk(chains, data, np, idx, k, j);
      FlatAt(chains, idx, k);
      if best >= 0 { StandsInWalk(chains, data, next, nextIdx, nextK, best); }
      var better := np != current && cmp(current.data, np.data) < 0 && (next == null || cmp(next.data, np.data) > 0);
      if better {
        next', nextIdx', nextK', best' := np, idx, k, j;
      }
      assert Above(order, cmp, i, best, j) == Above(order, cmp, i, best', j + 1);
      RawNext(t, chains, data, j);
    }

    /** The second loop of `dictionary_it_next`, on an iterator of its own. */
    method SeekAbove(t: Table<K>, cmp: (Entry<K>, Entry<K>) -> int, current: Item<K>, ghost i: nat,
                     ghost chains: seq<seq<Item<K>>>, ghost data: map<Item<K>, Entry<K>>, ghost order: seq<Entry<K>>)
      returns (next: Node?<Entry<K>>, nextIdx: int, ghost nextK: nat)
      requires Frozen(t, chains, data) && np == null && idx == -1
      requires ChainsIn(chains, data.Keys) && order == Flat(RowsAt(chains, data)) && i < |order| == |Flat(chains)|
      requires Flat(chains)[i] == current && current in data && data[current] == order[i] && cmp(order[i], order[i]) == 0
      modifies this
      ensures Frozen(t, chains, data)
      ensures var r := Above(order, cmp, i, -1, 0);
              if r < 0 then next == null else next != null && Stands(chains, next, nextIdx, nextK, r)
    {
      next, nextIdx, nextK := null, -1, 0;
      ghost var best, j: nat := -1, 0;
      RawNext(t, chains, data, -1);
      while np != null
        invariant Frozen(t, chains, data) && j <= |order| && (np == null <==> j == |order|)
        invariant np != null ==> Stands(chains, np, idx, k, j)
        invariant -1 <= best < |order|
        invariant if best < 0 then next == null else next != null && Stands(chains, next, nextIdx, nextK, best)
        invariant Above(order, cmp, i, -1, 0) == Above(order, cmp, i, best, j)
        decreases |order| - j
      {
        next, nextIdx, nextK, best := AboveTurn(t, cmp, current, next, nextIdx, nextK, best, i, j, chains, data, order);
        j := j + 1;
      }
    }

    /** `dictionary_it_next` with a comparator. */
    method Next(t: Table<K>, cmp: (Entry<K>, Entry<K>) -> int, unique: bool, ghost i: nat,
                ghost chains: seq<seq<Item<K>>>, ghost data: map<Item<K>, Entry<K>>, ghost order: seq<Entry<K>>)
      requires Frozen(t, chains, data) && np != null && Stands(chains, np, idx, k, i) && TotalPreorder(cmp)
      requires ChainsIn(chains, data.Keys) && order == Flat(RowsAt(chains, data)) && i < |order|
      modifies this
      ensures Frozen(t, chains, data) && Shows(chains, SortedWalk.Next(order, cmp, i, unique))
    {
      StandsInWalk(chains, data, np, idx, k, i);
      FlatAt(chains, idx, k);
      if !unique {
        var found := Equal(t, cmp, i, chains, data, order);
        if found { return; }
      }
      Greater(t, cmp, i, chains, data, order);
    }

    method Equal(t: Table<K>, cmp: (Entry<K>, Entry<K>) -> int, ghost i: nat,
                 ghost chains: seq<seq<Item<K>>>, ghost data: map<Item<K>, Entry<K>>, ghost order: seq<Entry<K>>)
      returns (found: bool)
      requires Frozen(t, chains, data) && np != null && Stands(chains, np, idx, k, i)
      requires ChainsIn(chains, data.Keys) && order == Flat(RowsAt(chains, data)) && i < |order| && np.data == order[i]
      modifies this
      ensures Frozen(t, chains, data) && found == (NextEqual(order, cmp, i, i + 1) >= 0)
      ensures found ==> Shows(chains, NextEqual(order, cmp, i, i + 1))
      ensures !found ==> np == old(np) && Stands(chains, np, idx, k, i) && np.data == order[i]
    {
      var other := new Cursor();
      other.Place(np, idx, k, t, chains, data);
      other.SeekEqual(t, cmp, np.data, i, chains, data, order);
      found := other.np != null;
      if found {
        Place(other.np, other.idx, other.k, t, chains, data);
      }
    }

    method Greater(t: Table<K>, cmp: (Entry<K>, Entry<K>) -> int, ghost i: nat,
                   ghost chains: seq<seq<Item<K>>>, ghost data: map<Item<K>, Entry<K>>, ghost order: seq<Entry<K>>)
      requires Frozen(t, chains, data) && np != null && Stands(chains, np, idx, k, i)
      requires ChainsIn(chains, data.Keys) && order == Flat(RowsAt(chains, data)) && i < |order| == |Flat(chains)|
      requires Flat(chains)[i] == np && np in data && data[np] == order[i] && cmp(order[i], order[i]) == 0
      modifies this
      ensures Frozen(t, chains, data) && Shows(chains, Above(order, cmp, i, -1, 0))
    {
      var other := new Cursor();
      var next, nextIdx;
      ghost var nextK;
      next, nextIdx, nextK := other.SeekAbove(t, cmp, np, i, chains, data, order);
      Place(next, nextIdx, nextK, t, chains, data);
    }

    // ----- Moving entries

    /** `_it_next` on one of two tables. */
    method Advance(src: Table<K>, dest: Table<K>, ghost i: nat, ghost now: Maps<K>)
      requires Steady(src, dest, now) && np != null && Stands(now.chains, np, idx, k, i)
      modifies this
      ensures Steady(src, dest, now) && i < |Flat(now.chains)|
      ensures Shown(now.chains, np, idx, k, i + 1)
      ensures np != null ==> Behind(now.chains, prev, idx, k)
    {
      assert Holds(src, src.chains, DataOf(src.repr));
      RawNext(src, src.chains, DataOf(src.repr), i);
    }

    /** The first part of `dictionary_it_move`: the iterator goes on, and the other table is asked
        for the key. */
    method Look(src: Table<K>, dest: Table<K>, ghost i: nat, ghost now: Maps<K>) returns (moves: bool)
      requires Steady(src, dest, now) && np != null && Stands(now.chains, np, idx, k, i)
      modifies this
      ensures Steady(src, dest, now) && i < |Flat(now.chains)| && moves == (old(np.data.key) !in now.dest)
      ensures Shown(now.chains, np, idx, k, i + 1)
      ensures np != null ==> Behind(now.chains, prev, idx, k)
    {
      var key := np.data.key;
      Advance(src, dest, i, now);
      moves := Absent(src, dest, key, now);
    }

    /** The iterator stays where it is while the entry goes to the other table. */
    method Carry(src: Table<K>, dest: Table<K>, entry: Item<K>, before: Node?<Entry<K>>, bucket: nat, ghost place: nat, ghost i: nat,
                 ghost now: Maps<K>, ghost next: Maps<K>)
      requires Steady(src, dest, now) && Separate(src, dest) && entry.data.key !in now.dest
      requires Stands(now.chains, entry, bucket, place, i) && before == NodeAt(now.chains[bucket], place - 1)
      requires next == Moved(now, bucket, place, entry.data)
      modifies src`chains, src`repr, src`count, src.buckets, src.repr`next
      modifies dest`chains, dest`repr, dest`count, dest.buckets
      ensures Steady(src, dest, next) && Separate(src, dest) && entry.data.key in now.src
      ensures src.repr + dest.repr == old(src.repr + dest.repr) && src.repr <= old(src.repr)
      ensures np == old(np) && idx == old(idx) && k == old(k) && prev == old(prev)
    {
      Transfer(src, dest, bucket, place, entry, before, now, next);
    }

    method Stay(before: Node?<Entry<K>>, ghost place: nat, src: Table<K>, dest: Table<K>, ghost next: Maps<K>)
      requires Steady(src, dest, next) && Separate(src, dest)
      modifies this`prev, this`k
      ensures Steady(src, dest, next) && Separate(src, dest) && src.repr == old(src.repr) && dest.repr == old(dest.repr)
      ensures np == old(np) && idx == old(idx) && prev == before && k == place
    {
      prev, k := before, place;
    }

    /** The second part of `dictionary_it_move`: the entry goes to the other table. */
    method Finish(src: Table<K>, dest: Table<K>, entry: Item<K>, before: Node?<Entry<K>>, bucket: nat, ghost place: nat, ghost i: nat,
                  ghost now: Maps<K>, ghost next: Maps<K>)
      requires Steady(src, dest, now) && Separate(src, dest) && entry.data.key !in now.dest
      requires Stands(now.chains, entry, bucket, place, i) && before == NodeAt(now.chains[bucket], place - 1)
      requires Shown(now.chains, np, idx, k, i + 1) && next == Moved(now, bucket, place, entry.data)
      modifies this, src`chains, src`repr, src`count, src.buckets, src.repr`next
      modifies dest`chains, dest`repr, dest`count, dest.buckets
      ensures Steady(src, dest, next) && Separate(src, dest) && entry.data.key in now.src
      ensures src.repr + dest.repr == old(src.repr + dest.repr) && src.repr <= old(src.repr)
      ensures prev == before && ShownNow(next.chains, np, idx, k, i)
      ensures np != null ==> GoesOn(bucket, place, idx, k)
    {
      ghost var k' := if np != null && idx == bucket then place else k;
      ShownAfterMove(now, next, bucket, place, i, entry.data, np, idx, k, k');
      Carry(src, dest, entry, before, bucket, place, i, now, next);
      Stay(before, k', src, dest, next);
    }

    /** The statements of `dictionary_it_move` that move an entry. The test is not the source's: it
        tells apart where they keep the tables whole, and where `prev` was left from another bucket. */
    method Pass(src: Table<K>, dest: Table<K>, entry: Item<K>, before: Node?<Entry<K>>, bucket: nat, ghost place: nat, ghost i: nat,
                ghost now: Maps<K>, ghost next: Maps<K>) returns (whole: bool)
      requires Steady(src, dest, now) && Separate(src, dest) && entry.data.key !in now.dest
      requires Stands(now.chains, entry, bucket, place, i)
      requires Behind(now.chains, before, bucket, place) || (place == 0 && before != null && before in src.repr)
      requires Shown(now.chains, np, idx, k, i + 1) && next == Moved(now, bucket, place, entry.data)
      modifies this, src`chains, src`repr, src`count, src.buckets, src.repr`next
      modifies dest`chains, dest`repr, dest`count, dest.buckets
      ensures whole <==> Behind(now.chains, before, bucket, place)
      ensures !whole ==> InBoth(src, dest, entry, bucket)
      ensures whole ==> Steady(src, dest, next) && Separate(src, dest) && entry.data.key in now.src
      ensures whole ==> src.repr + dest.repr == old(src.repr + dest.repr)
      ensures src.repr <= old(src.repr)
      ensures whole ==> prev == before && ShownNow(next.chains, np, idx, k, i)
      ensures whole && np != null ==> GoesOn(bucket, place, idx, k)
    {
      src.HeadIsFirst(bucket, place);
      whole := before == null || src.buckets[bucket] != entry;
      if whole {
        Finish(src, dest, entry, before, bucket, place, i, now, next);
      } else {
        prev := before;
        Entangle(src, dest, entry, before, bucket, place);
      }
    }

    /** `dictionary_it_move` between tables of the same key type: the entry goes to the other
        table unless that has its key, and the iterator shows the next one. */
    method Move(src: Table<K>, dest: Table<K>, ghost i: nat, ghost now: Maps<K>) returns (moved: bool, whole: bool)
      requires Both(src, dest, now) && Separate(src, dest)
      requires np != null && Stands(now.chains, np, idx, k, i)
      requires Behind(now.chains, prev, idx, k) || (k == 0 && prev != null && prev in src.repr)
      modifies this, src`chains, src`repr, src`count, src.buckets, src.repr`next
      modifies dest`chains, dest`repr, dest`count, dest.buckets
      ensures moved == (old(np.data.key) !in now.dest)
      ensures whole <==> !moved || Behind(now.chains, old(prev), old(idx), old(k))
      ensures !whole ==> InBoth(src, dest, old(np), old(idx))
      ensures src.repr <= old(src.repr)
      ensures whole ==> Separate(src, dest) && src.repr + dest.repr == old(src.repr + dest.repr)
      ensures !moved ==> Steady(src, dest, now) && ShownNow(now.chains, np, idx, k, i + 1)
      ensures !moved && np != null ==> Behind(now.chains, prev, idx, k) && GoesOn(old(idx), old(k) + 1, idx, k)
      ensures moved && whole ==>
        && Steady(src, dest, Moved(now, old(idx), old(k), old(np.data))) && old(np.data.key) in now.src
        && ShownNow(Moved(now, old(idx), old(k), old(np.data)).chains, np, idx, k, i)
      ensures moved && whole && np != null ==> prev == old(prev) && GoesOn(old(idx), old(k), idx, k)
    {
      var entry, before, bucket := np, prev, idx;
      ghost var place, next := k, Moved(now, idx, k, np.data);
      moved := Look(src, dest, i, now);
      if moved {
        whole := Pass(src, dest, entry, before, bucket, place, i, now, next);
      } else {
        whole := true;
        GoesOnFrom(now.chains, bucket, place, i, np, idx, k);
      }
    }
  }

  lemma GoesOnFrom<K>(chains: seq<seq<Item<K>>>, b: nat, place: nat, i: nat, np: Node?<Entry<K>>, idx: int, k: nat)
    requires b < |chains| && place < |chains[b]| && i == Offset(chains, b) + place && Shown(chains, np, idx, k, i + 1)
    ensures ShownNow(chains, np, idx, k, i + 1)
    ensures np != null ==> GoesOn(b, place + 1, idx, k)
  {
    assert chains in [chains];
    if np != null { RowsInOrder(chains, b, idx, place, k); }
  }

  /** An entry heads a bucket of either table. */
  ghost predicate InBoth<K(!new)>(src: Table<K>, dest: Table<K>, entry: Item<K>, b: int)
    reads src.buckets, dest.buckets
  {
    0 <= b < src.buckets.Length && src.buckets[b] == entry && exists c :: 0 <= c < dest.buckets.Length && dest.buckets[c] == entry
  }

  /** The statements of a move with a `prev` that is not in the bucket of its entry. */
  method Entangle<K(==, !new)>(src: Table<K>, dest: Table<K>, entry: Item<K>, before: Item<K>, bucket: nat, ghost place: nat)
    requires src.Valid() && dest.Valid() && Separate(src, dest) && bucket < |src.chains| && place < |src.chains[bucket]|
    requires entry in src.repr && before in src.repr
    requires entry == src.chains[bucket][place] && bucket < src.buckets.Length && src.buckets[bucket] == entry
    modifies src`count, src.repr`next, dest`count, dest.buckets
    ensures InBoth(src, dest, entry, bucket)
  {
    src.HeadIsFirst(bucket, place);
    src.count := src.count - 1;
    before.next := entry.next;
    var h := dest.hash(entry.data.key);
    entry.next := dest.buckets[h];
    dest.buckets[h] := entry;
    dest.count := dest.count + 1;
  }

  lemma {:induction false} OffsetRemoved<T>(rows: seq<seq<T>>, b: nat, k: nat, c: nat)
    requires b < |rows| && k < |rows[b]| && c <= |rows|
    ensures Offset(rows[b := WithoutAt(rows[b], k)], c) == if c <= b then Offset(rows, c) else Offset(rows, c) - 1
    decreases c
  {
    var rows' := rows[b := WithoutAt(rows[b], k)];
    if c > 0 {
      OffsetRemoved(rows, b, k, c - 1);
      OffsetNext(rows, c - 1);
      OffsetNext(rows', c - 1);
    }
  }

  /** The entry behind one that leaves takes its place in the plain walk. */
  lemma NextAfterRemoval<K>(chains: seq<seq<Item<K>>>, b: nat, place: nat, i: nat, np: Node?<Entry<K>>, idx: int, k: nat, k': nat)
    requires b < |chains| && place < |chains[b]| && i == Offset(chains, b) + place
    requires Shown(chains, np, idx, k, i + 1) && k' == if np != null && idx == b then place else k
    ensures var chains' := chains[b := WithoutAt(chains[b], place)];
            && |Flat(chains')| == |Flat(chains)| - 1
            && Shown(chains', np, idx, k', i)
  {
    var chains' := chains[b := WithoutAt(chains[b], place)];
    OffsetEnd(chains);
    OffsetEnd(chains');
    OffsetRemoved(chains, b, place, |chains|);
    if i + 1 < |Flat(chains)| {
      OffsetRemoved(chains, b, place, idx);
      RowsInOrder(chains, b, idx, place, k);
    }
  }

  lemma ShownAfterMove<K>(now: Maps<K>, next: Maps<K>, b: nat, place: nat, i: nat, e: Entry<K>,
                          np: Node?<Entry<K>>, idx: int, k: nat, k': nat)
    requires b < |now.chains| && place < |now.chains[b]| && i == Offset(now.chains, b) + place && next == Moved(now, b, place, e)
    requires Shown(now.chains, np, idx, k, i + 1) && k' == if np != null && idx == b then place else k
    ensures ShownNow(next.chains, np, idx, k', i)
    ensures np != null ==> GoesOn(b, place, idx, k')
  {
    NextAfterRemoval(now.chains, b, place, i, np, idx, k, k');
    GoesOnFrom(now.chains, b, place, i, np, idx, k);
    assert next.chains in [next.chains];
  }

  /** A later place in the plain walk is further on in the same row, or the first of a later one. */
  lemma {:induction false} RowsInOrder<T>(rows: seq<seq<T>>, b: nat, c: nat, k: nat, l: nat)
    requires b < |rows| && c < |rows| && k < |rows[b]| && l < |rows[c]|
    requires Offset(rows, c) + l == Offset(rows, b) + k + 1
    ensures (c == b && l == k + 1) || (c > b && l == 0)
  {
    if c < b {
      OffsetsGrow(rows, c + 1, b);
      OffsetNext(rows, c);
    } else if c > b {
      OffsetsGrow(rows, b + 1, c);
      OffsetNext(rows, b);
    }
  }

  lemma {:induction false} OffsetsGrow<T>(rows: seq<seq<T>>, b: nat, c: nat)
    requires b <= c <= |rows|
    ensures Offset(rows, b) <= Offset(rows, c)
    decreases c
  {
    if b < c {
      OffsetsGrow(rows, b, c - 1);
      OffsetNext(rows, c - 1);
    }
  }

  lemma Passed<T>(a: set<T>, b: set<T>, x: T)
    ensures x in a ==> (a - {x}) + (b + {x}) == a + b
    ensures a !! b ==> (a - {x}) !! (b + {x})
  {
  }

  method Detach<K(==, !new)>(src: Table<K>, dest: Table<K>, b: nat, ghost place: nat, entry: Item<K>, before: Node?<Entry<K>>,
                             ghost now: Maps<K>)
    requires Both(src, dest, now) && Separate(src, dest)
    requires b < |now.chains| && place < |now.chains[b]| && entry == now.chains[b][place] && before == NodeAt(now.chains[b], place - 1)
    modifies src`chains, src`repr, src`count, src.buckets, src.repr`next
    ensures Both(src, dest, Maps(now.chains[b := WithoutAt(now.chains[b], place)], now.src - {entry.data.key}, now.dest))
    ensures src.repr == old(src.repr) - {entry} && entry in old(src.repr) && entry.data.key in now.src
  {
    src.EntryInMap(b, place);
    src.TakeOut(b, place, entry, before);
  }

  method Attach<K(==, !new)>(src: Table<K>, dest: Table<K>, entry: Item<K>, ghost now: Maps<K>)
    requires Both(src, dest, now) && Separate(src, dest) && entry !in src.repr && entry !in dest.repr && entry.data.key !in now.dest
    modifies dest`chains, dest`repr, dest`count, dest.buckets, entry`next
    ensures Both(src, dest, now.(dest := now.dest[entry.data.key := entry.data.value]))
    ensures dest.repr == old(dest.repr) + {entry}
  {
    LookupIsMap(dest.Contents(), dest.hash, entry.data.key);
    dest.Insert(entry);
  }

  /** The entry leaves the bucket of one table and goes to the front of one in the other. */
  method Transfer<K(==, !new)>(src: Table<K>, dest: Table<K>, b: nat, ghost place: nat, entry: Item<K>, before: Node?<Entry<K>>,
                               ghost now: Maps<K>, ghost next: Maps<K>)
    requires Steady(src, dest, now) && Separate(src, dest) && entry.data.key !in now.dest
    requires b < |now.chains| && place < |now.chains[b]| && entry == now.chains[b][place] && before == NodeAt(now.chains[b], place - 1)
    requires next == Moved(now, b, place, entry.data)
    modifies src`chains, src`repr, src`count, src.buckets, src.repr`next
    modifies dest`chains, dest`repr, dest`count, dest.buckets
    ensures Steady(src, dest, next) && Separate(src, dest) && entry.data.key in now.src
    ensures src.repr + dest.repr == old(src.repr + dest.repr) && src.repr <= old(src.repr)
  {
    Passed(src.repr, dest.repr, entry);
    Detach(src, dest, b, place, entry, before, now);
    Attach(src, dest, entry, next.(dest := now.dest));
  }

  /** Two tables that share nothing. */
  ghost predicate Separate<K(!new)>(a: Table<K>, b: Table<K>)
    reads a, b
  {
    a != b && a.buckets != b.buckets && a.repr !! b.repr
  }

  /** `dictionary_it_first` without a comparator, before the first move. */
  method StartMoving<K(==, !new)>(src: Table<K>, dest: Table<K>, ghost now: Maps<K>) returns (it: Cursor<K>)
    requires Steady(src, dest, now)
    ensures fresh(it) && Steady(src, dest, now) && Shown(now.chains, it.np, it.idx, it.k, 0) && it.prev == null
  {
    it := new Cursor();
    assert Holds(src, src.chains, DataOf(src.repr));
    it.RawNext(src, src.chains, DataOf(src.repr), -1);
  }

  /** The entries visited are those of the walk. */
  ghost predicate Visits<K>(visited: seq<Item<K>>, flat: seq<Item<K>>, walk: seq<int>) {
    |visited| == |walk| && forall a :: 0 <= a < |walk| ==> 0 <= walk[a] < |flat| && visited[a] == flat[walk[a]]
  }

  lemma VisitsMore<K>(visited: seq<Item<K>>, flat: seq<Item<K>>, walk: seq<int>, x: Item<K>, i: nat)
    requires Visits(visited, flat, walk) && i < |flat| && x == flat[i]
    ensures Visits(visited + [x], flat, walk + [i])
  {
  }

  /** A step of the walk after some of it. */
  lemma WalkStep<T(!new)>(order: seq<T>, cmp: (T, T) -> int, i: nat, unique: bool, walk: seq<int>, done: seq<int>) returns (r: int)
    requires TotalPreorder(cmp) && i < |order| && walk == done + Walk(order, cmp, i, unique)
    ensures r == SortedWalk.Next(order, cmp, i, unique) && -1 <= r < |order|
    ensures walk == (done + [i]) + Walk(order, cmp, r, unique)
    ensures r >= 0 ==> |Later(order, cmp, r)| < |Later(order, cmp, i)|
  {
    r := SortedWalk.Next(order, cmp, i, unique);
    NextIsSuccessor(order, cmp, i, unique);
    assert Walk(order, cmp, i, unique) == [i] + Walk(order, cmp, r, unique);
    if r >= 0 { LaterShrinks(order, cmp, i, unique); }
  }

  /** A step of a reader of the sorted walk. */
  method ReadNext<K(==, !new)>(c: Cursor<K>, t: Table<K>, cmp: (Entry<K>, Entry<K>) -> int, unique: bool, ghost i: nat, ghost r: int,
                   ghost chains: seq<seq<Item<K>>>, ghost data: map<Item<K>, Entry<K>>, ghost order: seq<Entry<K>>)
      returns (visited: Item<K>)
    requires Frozen(t, chains, data) && c.Shows(chains, i) && TotalPreorder(cmp)
    requires ChainsIn(chains, data.Keys) && order == Flat(RowsAt(chains, data)) && i < |order| == |Flat(chains)|
    requires r == SortedWalk.Next(order, cmp, i, unique)
    modifies c
    ensures Frozen(t, chains, data) && visited == Flat(chains)[i] && c.Shows(chains, r)
  {
    FlatAt(chains, c.idx, c.k);
    visited := c.np;
    c.Next(t, cmp, unique, i, chains, data, order);
  }

  method ReadTurn<K(==, !new)>(c: Cursor<K>, t: Table<K>, cmp: (Entry<K>, Entry<K>) -> int, unique: bool, ghost i: nat,
                   ghost chains: seq<seq<Item<K>>>, ghost data: map<Item<K>, Entry<K>>, ghost order: seq<Entry<K>>,
                   ghost walk: seq<int>, ghost done: seq<int>)
      returns (visited: Item<K>, ghost r: int)
    requires Frozen(t, chains, data) && c.Shows(chains, i) && TotalPreorder(cmp)
    requires ChainsIn(chains, data.Keys) && order == Flat(RowsAt(chains, data)) && i < |order| == |Flat(chains)|
    requires walk == done + Walk(order, cmp, i, unique)
    modifies c
    ensures Frozen(t, chains, data) && visited == Flat(chains)[i] && c.Shows(chains, r) && -1 <= r < |order|
    ensures walk == (done + [i]) + Walk(order, cmp, r, unique)
    ensures r >= 0 ==> |Later(order, cmp, r)| < |Later(order, cmp, i)|
  {
    r := WalkStep(order, cmp, i, unique, walk, done);
    visited := ReadNext(c, t, cmp, unique, i, r, chains, data, order);
  }

  /** The walk of a reader: from `dictionary_it_first` by `dictionary_it_next` until there is
      no entry any more. */
  method ReadSorted<K(==, !new)>(t: Table<K>, cmp: (Entry<K>, Entry<K>) -> int, unique: bool) returns (visited: seq<Item<K>>)
    requires t.Valid() && TotalPreorder(cmp)
    ensures var order := Flat(t.Contents());
            && -1 <= SortedWalk.First(order, cmp) < |order|
            && Visits(visited, Flat(t.chains), Walk(order, cmp, SortedWalk.First(order, cmp), unique))
  {
    ghost var chains, data := t.chains, DataOf(t.repr);
    ghost var order := Flat(RowsAt(chains, data));
    FlatData(chains, data);
    FirstIsLeast(order, cmp);
    assert Holds(t, chains, data);
    visited := ReadFrozen(t, cmp, unique, chains, data, order, Walk(order, cmp, SortedWalk.First(order, cmp), unique));
  }

  method ReadFrozen<K(==, !new)>(t: Table<K>, cmp: (Entry<K>, Entry<K>) -> int, unique: bool,
                     ghost chains: seq<seq<Item<K>>>, ghost data: map<Item<K>, Entry<K>>, ghost order: seq<Entry<K>>, ghost walk: seq<int>)
      returns (visited: seq<Item<K>>)
    requires Frozen(t, chains, data) && TotalPreorder(cmp)
    requires ChainsIn(chains, data.Keys) && order == Flat(RowsAt(chains, data)) && |order| == |Flat(chains)|
    requires -1 <= SortedWalk.First(order, cmp) < |order|
    requires walk == Walk(order, cmp, SortedWalk.First(order, cmp), unique)
    ensures Frozen(t, chains, data) && Visits(visited, Flat(chains), walk)
  {
    ghost var i, done := SortedWalk.First(order, cmp), [];
    var c := new Cursor();
    c.First(t, cmp, chains, data);
    visited := [];
    assert walk == done + Walk(order, cmp, i, unique);
    while c.np != null
      invariant Frozen(t, chains, data) && fresh(c) && -1 <= i < |order| && c.Shows(chains, i)
      invariant walk == done + Walk(order, cmp, i, unique)
      invariant Visits(visited, Flat(chains), done)
      decreases if i < 0 then 0 else 1 + |Later(order, cmp, i)|
    {
      ghost var at: nat := i;
      var entry;
      entry, i := ReadTurn(c, t, cmp, unique, at, chains, data, order, walk, done);
      VisitsMore(visited, Flat(chains), done, entry, at);
      visited, done := visited + [entry], done + [at];
    }
  }
}