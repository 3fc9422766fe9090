/**
 The loop that moves the entries of one table to another by the plain iterator
 (src/common/dictionary.c): which entries move, and when both tables stay whole.
 */
module DictionaryMove {
  import opened Common
  import opened Lists
  import opened DictionarySpec
  import opened Dictionary
  import opened DictionaryIter

  // ----- Which walks break the tables

  /** An entry before the n-th one of the walk is in its bucket, and stays. */
  ghost predicate StaysBefore<K>(keys: seq<K>, hash: K -> nat, stay: set<K>, n: nat)
    requires n < |keys|
  {
    exists g :: 0 <= g < n && hash(keys[g]) == hash(keys[n]) && keys[g] in stay
  }

  /** The entry before the n-th one is the last of another bucket and moves, while one stays there:
      the iterator still has that one as its `prev`. */
  ghost predicate LeftBehind<K>(keys: seq<K>, hash: K -> nat, stay: set<K>, n: nat)
    requires n < |keys|
  {
    n > 0 && hash(keys[n - 1]) != hash(keys[n]) && keys[n - 1] !in stay && StaysBefore(keys, hash, stay, n - 1)
  }

  /** ... and the n-th one moves too. */
  ghost predicate Trap<K>(keys: seq<K>, hash: K -> nat, stay: set<K>, n: nat)
    requires n < |keys|
  {
    LeftBehind(keys, hash, stay, n) && keys[n] !in stay
  }

  ghost predicate NoTrapBefore<K>(keys: seq<K>, hash: K -> nat, stay: set<K>, n: nat)
    requires n <= |keys|
  {
    forall m :: 0 <= m < n ==> !Trap(keys, hash, stay, m)
  }

  ghost predicate NoTrap<K>(keys: seq<K>, hash: K -> nat, stay: set<K>) {
    NoTrapBefore(keys, hash, stay, |keys|)
  }

  lemma NoTrapGrows<K>(keys: seq<K>, hash: K -> nat, stay: set<K>, n: nat)
    requires n < |keys| && NoTrapBefore(keys, hash, stay, n)
    ensures if Trap(keys, hash, stay, n) then !NoTrap(keys, hash, stay) else NoTrapBefore(keys, hash, stay, n + 1)
  {
  }

  /** Where no key is in both tables there is none. */
  lemma DisjointHasNoTrap<K>(keys: seq<K>, hash: K -> nat, stay: set<K>)
    requires forall n :: 0 <= n < |keys| ==> keys[n] !in stay
    ensures NoTrap(keys, hash, stay)
  {
  }

  /** Two entries of one bucket and one of a later one; the first stays. */
  lemma TrapOfThree<K>(keys: seq<K>, hash: K -> nat, stay: set<K>)
    requires |keys| == 3 && hash(keys[0]) == hash(keys[1]) != hash(keys[2])
    requires keys[0] in stay && keys[1] !in stay && keys[2] !in stay
    ensures !NoTrap(keys, hash, stay)
  {
    assert StaysBefore(keys, hash, stay, 1);
    assert Trap(keys, hash, stay, 2);
  }

  // ----- The iterator on the way

  /** After a move `prev` is the entry before the next one again exactly if the moved one had none
      before it, or the next one is in the same bucket. */
  lemma PrevAfterMove<K>(chains: seq<seq<Item<K>>>, b: nat, place: nat, prev: Node?<Entry<K>>, idx: int, k: nat)
    requires b < |chains| && place < |chains[b]| && Behind(chains, prev, b, place)
    requires GoesOn(b, place, idx, k) && idx < |chains|
    ensures var chains' := chains[b := WithoutAt(chains[b], place)];
            Behind(chains', prev, idx, k) <==> prev == null || idx == b
  {
  }

  /** The loop before its first turn: the entries in the order of the walk, their keys and data, and
      what the tables hold. */
  datatype Loop<!K(==)> = Loop(items: seq<Item<K>>, keys: seq<K>, data: map<Item<K>, Entry<K>>, hash: K -> nat,
                               src: map<K, Bytes>, dest: map<K, Bytes>)

  /** What `prev` is at the n-th entry, the k-th of the bucket idx. */
  ghost predicate OnTheWay<K(!new)>(c: Loop<K>, n: nat, chains: seq<seq<Item<K>>>, prev: Node?<Entry<K>>, idx: int, k: nat)
    requires n < |c.keys|
  {
    exists m: nat :: m == n && PrevIs(c, m, chains, prev, idx, k)
  }

  ghost predicate PrevIs<K(!new)>(c: Loop<K>, n: nat, chains: seq<seq<Item<K>>>, prev: Node?<Entry<K>>, idx: int, k: nat)
    requires n < |c.keys|
  {
    && (Behind(chains, prev, idx, k) || (k == 0 && prev != null && exists b, j :: 0 <= b < |chains| && 0 <= j < |chains[b]| && chains[b][j] == prev))
    && (k == 0 && prev != null <==> LeftBehind(c.keys, c.hash, c.dest.Keys, n))
    && (k > 0 <==> StaysBefore(c.keys, c.hash, c.dest.Keys, n))
    && (forall g :: 0 <= g <= n ==> c.hash(c.keys[g]) <= idx) && c.hash(c.keys[n]) == idx
  }

  /** The n-th entry stays, ... */
  lemma StayTurn<K(!new)>(c: Loop<K>, n: nat, chains: seq<seq<Item<K>>>, prev: Node?<Entry<K>>, idx: int, k: nat,
                          prev': Node?<Entry<K>>, idx': int, k': nat)
    requires n + 1 < |c.keys| && OnTheWay(c, n, chains, prev, idx, k) && c.keys[n] in c.dest
    requires GoesOn(idx, k + 1, idx', k') && Behind(chains, prev', idx', k') && c.hash(c.keys[n + 1]) == idx'
    ensures OnTheWay(c, n + 1, chains, prev', idx', k')
  {
    assert PrevIs(c, n, chains, prev, idx, k);
    if idx' == idx {
      assert c.hash(c.keys[n]) == c.hash(c.keys[n + 1]);
    }
    assert PrevIs(c, n + 1, chains, prev', idx', k');
  }

  /** ... or it moves. */
  lemma MoveTurn<K(!new)>(c: Loop<K>, n: nat, chains: seq<seq<Item<K>>>, prev: Node?<Entry<K>>, idx: int, k: nat,
                          idx': int, k': nat)
    requires n + 1 < |c.keys| && OnTheWay(c, n, chains, prev, idx, k) && c.keys[n] !in c.dest
    requires 0 <= idx < |chains| && k < |chains[idx]| && Behind(chains, prev, idx, k) && idx' < |chains|
    requires GoesOn(idx, k, idx', k') && c.hash(c.keys[n + 1]) == idx'
    ensures OnTheWay(c, n + 1, chains[idx := WithoutAt(chains[idx], k)], prev, idx', k')
  {
    var chains' := chains[idx := WithoutAt(chains[idx], k)];
    assert PrevIs(c, n, chains, prev, idx, k);
    PrevAfterMove(chains, idx, k, prev, idx', k');
    if idx' != idx && prev != null {
      assert chains'[idx][k - 1] == prev;
    }
    if idx' == idx {
      assert StaysBefore(c.keys, c.hash, c.dest.Keys, n + 1) <==> StaysBefore(c.keys, c.hash, c.dest.Keys, n);
    }
    assert PrevIs(c, n + 1, chains', prev, idx', k');
  }

  // ----- What the tables hold on the way

  /** What is left of a table: the entries whose keys the other one has. */
  function Staying<K>(src: map<K, Bytes>, dest: map<K, Bytes>): map<K, Bytes> {
    map key | key in src && key in dest :: src[key]
  }

  /** The keys of the first n entries that move. */
  ghost function Gone<K>(c: Loop<K>, n: nat): set<K>
    requires n <= |c.keys|
  {
    set g | 0 <= g < n && c.keys[g] !in c.dest :: c.keys[g]
  }

  ghost function SrcAt<K>(c: Loop<K>, n: nat): map<K, Bytes>
    requires n <= |c.keys|
  {
    c.src - Gone(c, n)
  }

  ghost function DestAt<K>(c: Loop<K>, n: nat): map<K, Bytes>
    requires n <= |c.keys|
  {
    c.dest + map key | key in c.src && key in Gone(c, n) :: c.src[key]
  }

  lemma GoneGrows<K>(c: Loop<K>, n: nat)
    requires n < |c.keys|
    ensures Gone(c, n + 1) == if c.keys[n] in c.dest then Gone(c, n) else Gone(c, n) + {c.keys[n]}
  {
  }

  lemma StayHolds<K(!new)>(c: Loop<K>, n: nat)
    requires n < |c.keys| && c.keys[n] in c.dest
    ensures SrcAt(c, n + 1) == SrcAt(c, n) && DestAt(c, n + 1) == DestAt(c, n)
  {
    GoneGrows(c, n);
  }

  lemma MoveHolds<K(!new)>(c: Loop<K>, n: nat, e: Entry<K>)
    requires n < |c.keys| && c.keys[n] !in c.dest && e.key == c.keys[n] && e.key in SrcAt(c, n) && SrcAt(c, n)[e.key] == e.value
    ensures SrcAt(c, n + 1) == SrcAt(c, n) - {e.key} && DestAt(c, n + 1) == DestAt(c, n)[e.key := e.value]
    ensures e.key !in DestAt(c, n)
  {
    GoneGrows(c, n);
  }

  lemma StartHolds<K(!new)>(c: Loop<K>)
    ensures SrcAt(c, 0) == c.src && DestAt(c, 0) == c.dest
  {
  }

  lemma EndHolds<K(!new)>(c: Loop<K>)
    requires forall key :: key in c.src <==> key in c.keys
    ensures SrcAt(c, |c.keys|) == Staying(c.src, c.dest)
    ensures DestAt(c, |c.keys|) == c.src + c.dest
  {
    forall key | key in c.src ensures key in Gone(c, |c.keys|) <==> key !in c.dest {
      var g :| 0 <= g < |c.keys| && c.keys[g] == key;
    }
  }

  // ----- The entries still to come

  lemma {:induction false} FlatRemoved<T>(rows: seq<seq<T>>, b: nat, k: nat)
    requires b < |rows| && k < |rows[b]|
    ensures Offset(rows, b) + k < |Flat(rows)|
    ensures Flat(rows[b := WithoutAt(rows[b], k)]) == WithoutAt(Flat(rows), Offset(rows, b) + k)
  {
    FlatAt(rows, b, k);
    var n, rows' := |rows| - 1, rows[b := WithoutAt(rows[b], k)];
    if b < n {
      FlatRemoved(rows[..n], b, k);
      assert rows[..n][..b] == rows[..b] && rows'[..n] == rows[..n][b := WithoutAt(rows[b], k)];
      FlatAt(rows[..n], b, k);
    } else {
      assert rows'[..n] == rows[..n] == rows[..b];
    }
  }

  /** Behind the place i of the walk are the entries of the loop from the n-th one on. */
  ghost predicate Rest<K>(c: Loop<K>, n: nat, chains: seq<seq<Item<K>>>, i: nat) {
    i <= |Flat(chains)| && n <= |c.items| && Flat(chains)[i..] == c.items[n..]
  }

  lemma RestAt<K>(c: Loop<K>, n: nat, chains: seq<seq<Item<K>>>, i: nat, np: Node?<Entry<K>>, idx: int, k: nat)
    requires Rest(c, n, chains, i) && ShownNow(chains, np, idx, k, i)
    ensures np == null <==> n == |c.items|
    ensures np != null ==> Stands(chains, np, idx, k, i) && np == c.items[n] && i < |Flat(chains)|
  {
    assert |Flat(chains)[i..]| == |c.items[n..]|;
    if np != null {
      FlatAt(chains, idx, k);
      assert Flat(chains)[i..][0] == c.items[n..][0];
    }
  }

  lemma RestAfter<K>(c: Loop<K>, n: nat, chains: seq<seq<Item<K>>>, b: nat, k: nat, i: nat)
    requires Rest(c, n, chains, i) && n < |c.items| && b < |chains| && k < |chains[b]| && i == Offset(chains, b) + k
    ensures Rest(c, n + 1, chains, i + 1)
    ensures Rest(c, n + 1, chains[b := WithoutAt(chains[b], k)], i)
  {
    FlatRemoved(chains, b, k);
    var flat, rest := Flat(chains), Flat(chains[b := WithoutAt(chains[b], k)]);
    assert flat[i + 1..] == flat[i..][1..] && c.items[n + 1..] == c.items[n..][1..];
    assert rest[i..] == flat[i + 1..];
  }

  // ----- The loop

  ghost predicate LoopOk<K>(c: Loop<K>) {
    |c.items| == |c.keys| && forall g :: 0 <= g < |c.items| ==> c.items[g] in c.data && c.data[c.items[g]].key == c.keys[g]
  }

  /** The entries have the data they had at first. */
  ghost predicate SameData<K(!new)>(t: Table<K>, c: Loop<K>)
    reads t, t.repr`data
  {
    forall x :: x in t.repr ==> x in c.data && x.data == c.data[x]
  }

  /** The tables share nothing, and the loop is about the entries of the first one. */
  ghost predicate Ready<K(!new)>(src: Table<K>, dest: Table<K>, c: Loop<K>)
    reads src, dest, src.repr`data
  {
    exists d :: d in [c] && LoopOk(d) && src.hash == d.hash && SameData(src, d) && Separate(src, dest)
  }

  ghost predicate MovingNow<K(!new)>(it: Cursor<K>, src: Table<K>, dest: Table<K>, c: Loop<K>, n: nat, i: nat)
    reads it, src, src.buckets, src.repr, dest, dest.buckets, dest.repr
  {
    && n <= |c.keys| && Ready(src, dest, c) && src.Valid() && dest.Valid()
    && src.Map() == SrcAt(c, n) && dest.Map() == DestAt(c, n)
    && Rest(c, n, src.chains, i) && ShownNow(src.chains, it.np, it.idx, it.k, i)
    && (it.np != null ==> n < |c.keys| && OnTheWay(c, n, src.chains, it.prev, it.idx, it.k))
  }

  /** The iterator shows the n-th entry of the loop, the i-th of the walk as it is now. */
  ghost predicate Moving<K(!new)>(it: Cursor<K>, src: Table<K>, dest: Table<K>, c: Loop<K>, n: nat, i: nat)
    reads it, src, src.buckets, src.repr, dest, dest.buckets, dest.repr
  {
    exists d :: d in [c] && MovingNow(it, src, dest, d, n, i)
  }

  /** One entry heads a bucket of either table. */
  ghost predicate Entangled<K(!new)>(src: Table<K>, dest: Table<K>)
    reads src.buckets, dest.buckets
  {
    exists b, c :: 0 <= b < src.buckets.Length && 0 <= c < dest.buckets.Length &&
                   src.buckets[b] != null && src.buckets[b] == dest.buckets[c]
  }

  /** That cannot be of two tables that are whole and share nothing. */
  lemma WholeIsNotEntangled<K(!new)>(src: Table<K>, dest: Table<K>)
    requires src.Valid() && dest.Valid() && Separate(src, dest)
    ensures !Entangled(src, dest)
  {
    src.HeadsIn();
    dest.HeadsIn();
  }

  /** What the iterator shows next is the next entry of the loop. */
  lemma NextKey<K(!new)>(it: Cursor<K>, src: Table<K>, dest: Table<K>, c: Loop<K>, n: nat, i: nat, next: Maps<K>)
    requires Ready(src, dest, c) && Steady(src, dest, next)
    requires Rest(c, n, next.chains, i) && ShownNow(next.chains, it.np, it.idx, it.k, i) && it.np != null
    ensures n < |c.keys| && 0 <= it.idx < |next.chains| && c.hash(c.keys[n]) == it.idx
  {
    RestAt(c, n, next.chains, i, it.np, it.idx, it.k);
    src.EntryInMap(it.idx, it.k);
  }

  lemma Arrive<K(!new)>(it: Cursor<K>, src: Table<K>, dest: Table<K>, c: Loop<K>, n: nat, i: nat, next: Maps<K>)
    requires n <= |c.keys| && Ready(src, dest, c) && Steady(src, dest, next)
    requires next.src == SrcAt(c, n) && next.dest == DestAt(c, n)
    requires Rest(c, n, next.chains, i) && ShownNow(next.chains, it.np, it.idx, it.k, i)
    requires it.np != null ==> n < |c.keys| && OnTheWay(c, n, next.chains, it.prev, it.idx, it.k)
    ensures Moving(it, src, dest, c, n, i)
  {
    assert MovingNow(it, src, dest, c, n, i);
  }

  /** Where an iterator stands. */
  datatype Spot<!K(==)> = Spot(np: Node?<Entry<K>>, prev: Node?<Entry<K>>, idx: int, k: nat)

  ghost function SpotOf<K(!new)>(it: Cursor<K>): Spot<K>
    reads it
  {
    Spot(it.np, it.prev, it.idx, it.k)
  }

  /** Before a turn: the iterator at the n-th entry of the loop, whose data is e. */
  ghost predicate Before<K(!new)>(c: Loop<K>, n: nat, i: nat, now: Maps<K>, at: Spot<K>, e: Entry<K>) {
    && n < |c.keys| == |c.items| && at.np != null && Stands(now.chains, at.np, at.idx, at.k, i)
    && OnTheWay(c, n, now.chains, at.prev, at.idx, at.k)
    && now.src == SrcAt(c, n) && now.dest == DestAt(c, n) && Rest(c, n, now.chains, i)
    && e.key == c.keys[n] && e.key in SrcAt(c, n) && SrcAt(c, n)[e.key] == e.value
  }

  ghost predicate IsBefore<K(!new)>(c: Loop<K>, n: nat, i: nat, now: Maps<K>, at: Spot<K>, e: Entry<K>) {
    exists m: nat :: m == n && Before(c, m, i, now, at, e)
  }

  /** What the tables hold after a turn. */
  ghost function NextMaps<K>(now: Maps<K>, at: Spot<K>, e: Entry<K>, moved: bool): Maps<K>
    requires 0 <= at.idx < |now.chains| && at.k < |now.chains[at.idx]|
  {
    if moved then Moved(now, at.idx, at.k, e) else now
  }

  /** Where the iterator stands after a turn. */
  ghost predicate WentOn<K(!new)>(next: Maps<K>, i: nat, at: Spot<K>, moved: bool, to: Spot<K>) {
    && ShownNow(next.chains, to.np, to.idx, to.k, i)
    && (to.np != null ==>
          if moved then to.prev == at.prev && GoesOn(at.idx, at.k, to.idx, to.k)
          else Behind(next.chains, to.prev, to.idx, to.k) && GoesOn(at.idx, at.k + 1, to.idx, to.k))
  }

  ghost predicate HasGoneOn<K(!new)>(next: Maps<K>, i: nat, at: Spot<K>, moved: bool, to: Spot<K>) {
    exists j: nat :: j == i && WentOn(next, j, at, moved, to)
  }

  lemma Goes<K(!new)>(next: Maps<K>, i: nat, at: Spot<K>, moved: bool, to: Spot<K>)
    requires ShownNow(next.chains, to.np, to.idx, to.k, i)
    requires to.np != null && moved ==> to.prev == at.prev && GoesOn(at.idx, at.k, to.idx, to.k)
    requires to.np != null && !moved ==> Behind(next.chains, to.prev, to.idx, to.k) && GoesOn(at.idx, at.k + 1, to.idx, to.k)
    ensures HasGoneOn(next, i, at, moved, to)
  {
    assert WentOn(next, i, at, moved, to);
  }

  lemma StayAfter<K(!new)>(c: Loop<K>, n: nat, i: nat, now: Maps<K>, at: Spot<K>, e: Entry<K>, to: Spot<K>)
    requires IsBefore(c, n, i, now, at, e) && c.keys[n] in c.dest && HasGoneOn(now, i + 1, at, false, to)
    requires to.np != null ==> n + 1 < |c.keys| && c.hash(c.keys[n + 1]) == to.idx
    ensures now.src == SrcAt(c, n + 1) && now.dest == DestAt(c, n + 1)
    ensures to.np != null ==> OnTheWay(c, n + 1, now.chains, to.prev, to.idx, to.k)
  {
    StayHolds(c, n);
    if to.np != null { StayTurn(c, n, now.chains, at.prev, at.idx, at.k, to.prev, to.idx, to.k); }
  }

  lemma MoveAfter<K(!new)>(c: Loop<K>, n: nat, i: nat, now: Maps<K>, at: Spot<K>, e: Entry<K>, next: Maps<K>, to: Spot<K>)
    requires IsBefore(c, n, i, now, at, e) && c.keys[n] !in c.dest && Behind(now.chains, at.prev, at.idx, at.k)
    requires at.k < |now.chains[at.idx]| && next == Moved(now, at.idx, at.k, e) && HasGoneOn(next, i, at, true, to)
    requires to.np != null ==> n + 1 < |c.keys| && c.hash(c.keys[n + 1]) == to.idx < |next.chains|
    ensures next.src == SrcAt(c, n + 1) && next.dest == DestAt(c, n + 1)
    ensures to.np != null ==> OnTheWay(c, n + 1, next.chains, to.prev, to.idx, to.k)
  {
    MoveHolds(c, n, e);
    if to.np != null { MoveTurn(c, n, now.chains, at.prev, at.idx, at.k, to.idx, to.k); }
  }

  lemma RestOnward<K(!new)>(c: Loop<K>, n: nat, i: nat, now: Maps<K>, at: Spot<K>, e: Entry<K>, moved: bool)
    requires IsBefore(c, n, i, now, at, e)
    ensures 0 <= at.idx < |now.chains| && at.k < |now.chains[at.idx]|
    ensures Rest(c, n + 1, NextMaps(now, at, e, moved).chains, if moved then i else i + 1)
  {
    RestAfter(c, n, now.chains, at.idx, at.k, i);
  }

  /** The turn brings the loop to its next entry. */
  lemma StayArrives<K(!new)>(it: Cursor<K>, src: Table<K>, dest: Table<K>, c: Loop<K>, n: nat, i: nat, now: Maps<K>,
                             at: Spot<K>, e: Entry<K>)
    requires IsBefore(c, n, i, now, at, e) && c.keys[n] in c.dest && HasGoneOn(now, i + 1, at, false, SpotOf(it))
    requires Ready(src, dest, c) && Steady(src, dest, now)
    ensures Moving(it, src, dest, c, n + 1, i + 1)
  {
    RestOnward(c, n, i, now, at, e, false);
    if it.np != null { NextKey(it, src, dest, c, n + 1, i + 1, now); }
    StayAfter(c, n, i, now, at, e, SpotOf(it));
    Arrive(it, src, dest, c, n + 1, i + 1, now);
  }

  lemma MoveArrives<K(!new)>(it: Cursor<K>, src: Table<K>, dest: Table<K>, c: Loop<K>, n: nat, i: nat, now: Maps<K>,
                             at: Spot<K>, e: Entry<K>, next: Maps<K>)
    requires IsBefore(c, n, i, now, at, e) && c.keys[n] !in c.dest && Behind(now.chains, at.prev, at.idx, at.k)
    requires at.k < |now.chains[at.idx]| && next == Moved(now, at.idx, at.k, e) && HasGoneOn(next, i, at, true, SpotOf(it))
    requires Ready(src, dest, c) && Steady(src, dest, next)
    ensures Moving(it, src, dest, c, n + 1, i)
  {
    RestOnward(c, n, i, now, at, e, true);
    if it.np != null { NextKey(it, src, dest, c, n + 1, i, next); }
    MoveAfter(c, n, i, now, at, e, next, SpotOf(it));
    Arrive(it, src, dest, c, n + 1, i, next);
  }

  lemma StillReady<K(!new)>(src: Table<K>, dest: Table<K>, c: Loop<K>)
    requires LoopOk(c) && src.hash == c.hash && Separate(src, dest) && SameData(src, c)
    ensures Ready(src, dest, c)
  {
    assert c in [c];
  }

  /** Where the loop stands before a turn, and whether it is a trap. */
  lemma BeforeTurn<K(!new)>(it: Cursor<K>, src: Table<K>, dest: Table<K>, c: Loop<K>, n: nat, i: nat, now: Maps<K>)
    requires Moving(it, src, dest, c, n, i) && it.np != null
    requires now.chains == src.chains && src.Valid() && dest.Valid() && now.src == src.Map() && now.dest == dest.Map()
    ensures IsBefore(c, n, i, now, SpotOf(it), it.np.data) && Ready(src, dest, c) && n < |c.keys|
    ensures Both(src, dest, now) && Stands(now.chains, it.np, it.idx, it.k, i)
    ensures Behind(now.chains, it.prev, it.idx, it.k) || (it.k == 0 && it.prev != null && it.prev in src.repr)
    ensures it.np.data.key in now.dest <==> c.keys[n] in c.dest
    ensures Trap(c.keys, c.hash, c.dest.Keys, n) <==> c.keys[n] !in c.dest && !Behind(now.chains, it.prev, it.idx, it.k)
  {
    RestAt(c, n, now.chains, i, it.np, it.idx, it.k);
    src.EntryInMap(it.idx, it.k);
    assert PrevIs(c, n, now.chains, it.prev, it.idx, it.k);
    if !Behind(now.chains, it.prev, it.idx, it.k) {
      var b, j :| 0 <= b < |now.chains| && 0 <= j < |now.chains[b]| && now.chains[b][j] == it.prev;
      assert AllIn(src.chains[b], src.repr);
    }
    assert Before(c, n, i, now, SpotOf(it), it.np.data);
  }

  /** `dictionary_it_move` within the loop. */
  method Step<K(==, !new)>(it: Cursor<K>, src: Table<K>, dest: Table<K>, ghost i: nat, ghost now: Maps<K>,
                           ghost at: Spot<K>, ghost e: Entry<K>)
      returns (moved: bool, whole: bool)
    requires Separate(src, dest) && Both(src, dest, now) && at == SpotOf(it)
    requires it.np != null && it.np.data == e && Stands(now.chains, it.np, it.idx, it.k, i)
    requires Behind(now.chains, it.prev, it.idx, it.k) || (it.k == 0 && it.prev != null && it.prev in src.repr)
    modifies it, src`chains, src`repr, src`count, src.buckets, src.repr`next
    modifies dest`chains, dest`repr, dest`count, dest.buckets
    ensures moved == (e.key !in now.dest) && src.repr <= old(src.repr)
    ensures whole <==> !moved || Behind(now.chains, at.prev, at.idx, at.k)
    ensures !whole ==> Entangled(src, dest)
    ensures whole ==> Separate(src, dest) && Steady(src, dest, NextMaps(now, at, e, moved))
    ensures whole ==> HasGoneOn(NextMaps(now, at, e, moved), if moved then i else i + 1, at, moved, SpotOf(it))
  {
    moved, whole := it.Move(src, dest, i, now);
    if whole {
      assert NextMaps(now, at, e, moved) == if moved then Moved(now, at.idx, at.k, e) else now;
      Goes(NextMaps(now, at, e, moved), if moved then i else i + 1, at, moved, SpotOf(it));
    }
  }

  /** ... and the entries keep their data. */
  method StepWithin<K(==, !new)>(it: Cursor<K>, src: Table<K>, dest: Table<K>, ghost c: Loop<K>, ghost i: nat, ghost now: Maps<K>,
                                 ghost at: Spot<K>, ghost e: Entry<K>)
      returns (moved: bool, whole: bool)
    requires Ready(src, dest, c) && Both(src, dest, now) && at == SpotOf(it)
    requires it.np != null && it.np.data == e && Stands(now.chains, it.np, it.idx, it.k, i)
    requires Behind(now.chains, it.prev, it.idx, it.k) || (it.k == 0 && it.prev != null && it.prev in src.repr)
    modifies it, src`chains, src`repr, src`count, src.buckets, src.repr`next
    modifies dest`chains, dest`repr, dest`count, dest.buckets
    ensures moved == (e.key !in now.dest) && src.repr <= old(src.repr)
    ensures whole <==> !moved || Behind(now.chains, at.prev, at.idx, at.k)
    ensures !whole ==> Entangled(src, dest)
    ensures whole ==> Ready(src, dest, c) && Steady(src, dest, NextMaps(now, at, e, moved))
    ensures whole ==> HasGoneOn(NextMaps(now, at, e, moved), if moved then i else i + 1, at, moved, SpotOf(it))
  {
    moved, whole := Step(it, src, dest, i, now, at, e);
    forall x | x in src.repr ensures x in c.data && x.data == c.data[x] {
      assert x in old(src.repr) && old(x.data) == c.data[x];
    }
    if whole { StillReady(src, dest, c); }
  }

  /** One turn of the loop over `dictionary_it_move`. */
  method Turn<K(==, !new)>(it: Cursor<K>, src: Table<K>, dest: Table<K>, ghost c: Loop<K>, ghost n: nat, ghost i: nat)
      returns (whole: bool, ghost i': nat)
    requires Moving(it, src, dest, c, n, i) && it.np != null && n < |c.keys|
    modifies it, src`chains, src`repr, src`count, src.buckets, src.repr`next
    modifies dest`chains, dest`repr, dest`count, dest.buckets
    ensures whole <==> !Trap(c.keys, c.hash, c.dest.Keys, n)
    ensures whole ==> Moving(it, src, dest, c, n + 1, i')
    ensures !whole ==> Entangled(src, dest)
    ensures src.repr <= old(src.repr)
  {
    ghost var now := Maps(src.chains, src.Map(), dest.Map());
    ghost var at, e := SpotOf(it), it.np.data;
    BeforeTurn(it, src, dest, c, n, i, now);
    var moved;
    moved, whole := StepWithin(it, src, dest, c, i, now, at, e);
    i' := if moved then i else i + 1;
    if !moved {
      StayArrives(it, src, dest, c, n, i, now, at, e);
    } else if whole {
      MoveArrives(it, src, dest, c, n, i, now, at, e, Moved(now, at.idx, at.k, e));
    }
  }

  /** The keys in the order of the plain walk. */
  ghost function KeysOf<K>(rows: Rows<K>): (keys: seq<K>)
    ensures |keys| == |Flat(rows)|
  {
    seq(|Flat(rows)|, i requires 0 <= i < |Flat(rows)| => Flat(rows)[i].key)
  }

  lemma {:induction false} WalkHasAllKeys<K>(rows: Rows<K>, key: K)
    ensures key in KeysOf(rows) <==> key in AllKeys(rows)
  {
    if rows != [] {
      var n := |rows| - 1;
      WalkHasAllKeys(rows[..n], key);
      var last := seq(|rows[n]|, i requires 0 <= i < |rows[n]| => rows[n][i].key);
      assert KeysOf(rows) == KeysOf(rows[..n]) + last;
      assert key in last <==> key in RowKeys(rows[n]) by {
        if key in RowKeys(rows[n]) {
          var j :| 0 <= j < |rows[n]| && rows[n][j].key == key;
          assert last[j] == key;
        }
      }
    }
  }

  ghost function LoopOver<K(!new)>(src: Table<K>, dest: Table<K>): Loop<K>
    reads src, src.repr, dest, dest.repr
    requires ChainsIn(src.chains, src.repr) && ChainsIn(dest.chains, dest.repr)
  {
    Loop(Flat(src.chains), KeysOf(src.Contents()), DataOf(src.repr), src.hash, src.Map(), dest.Map())
  }

  lemma LoopIsOk<K(!new)>(src: Table<K>, dest: Table<K>, c: Loop<K>)
    requires src.Valid() && dest.Valid() && Separate(src, dest) && c == LoopOver(src, dest)
    ensures LoopOk(c) && Ready(src, dest, c) && forall key :: key in c.src <==> key in c.keys
  {
    FlatData(src.chains, c.data);
    StillReady(src, dest, c);
    forall key ensures key in c.src <==> key in c.keys { WalkHasAllKeys(src.Contents(), key); }
  }

  lemma FirstTurn<K(!new)>(c: Loop<K>, chains: seq<seq<Item<K>>>, np: Item<K>, idx: int, k: nat)
    requires |c.keys| > 0 && Stands(chains, np, idx, k, 0) && c.hash(c.keys[0]) == idx
    ensures OnTheWay(c, 0, chains, null, idx, k)
  {
    assert PrevIs(c, 0, chains, null, idx, k);
  }

  lemma LoopStarts<K(!new)>(it: Cursor<K>, src: Table<K>, dest: Table<K>, c: Loop<K>, now: Maps<K>)
    requires LoopOk(c) && Ready(src, dest, c) && Steady(src, dest, now)
    requires c.items == Flat(now.chains) && c.src == now.src && c.dest == now.dest
    requires Shown(now.chains, it.np, it.idx, it.k, 0) && it.prev == null
    ensures Moving(it, src, dest, c, 0, 0)
  {
    assert now.chains in [now.chains];
    StartHolds(c);
    if it.np != null {
      NextKey(it, src, dest, c, 0, 0, now);
      FirstTurn(c, now.chains, it.np, it.idx, it.k);
    }
    Arrive(it, src, dest, c, 0, 0, now);
  }

  lemma LoopEnds<K(!new)>(it: Cursor<K>, src: Table<K>, dest: Table<K>, c: Loop<K>, n: nat, i: nat)
    requires Moving(it, src, dest, c, n, i) && it.np == null && forall key :: key in c.src <==> key in c.keys
    ensures src.Valid() && dest.Valid() && Separate(src, dest) && n == |c.keys|
    ensures src.Map() == Staying(c.src, c.dest) && dest.Map() == c.src + c.dest
  {
    RestAt(c, n, src.chains, i, it.np, it.idx, it.k);
    EndHolds(c);
  }

  /** Moving every entry by the plain iterator: those whose key the other table has stay, and
      the other table gets the rest. Both tables stay whole exactly if the walk has no trap; at the
      first trap an entry gets into both, and there this loop ends. */
  method MoveAll<K(==, !new)>(src: Table<K>, dest: Table<K>) returns (whole: bool)
    requires src.Valid() && dest.Valid() && Separate(src, dest)
    modifies src`chains, src`repr, src`count, src.buckets, src.repr`next
    modifies dest`chains, dest`repr, dest`count, dest.buckets
    ensures whole <==> NoTrap(KeysOf(old(src.Contents())), src.hash, old(dest.Map()).Keys)
    ensures whole ==> src.Valid() && dest.Valid() && Separate(src, dest)
    ensures whole ==> src.Map() == Staying(old(src.Map()), old(dest.Map()))
    ensures whole ==> dest.Map() == old(src.Map()) + old(dest.Map())
    ensures !whole ==> Entangled(src, dest)
  {
    ghost var c, now := LoopOver(src, dest), Maps(src.chains, src.Map(), dest.Map());
    LoopIsOk(src, dest, c);
    assert Both(src, dest, now);
    var it := StartMoving(src, dest, now);
    LoopStarts(it, src, dest, c, now);
    whole := MoveRest(it, src, dest, c);
  }

  /** The loop before its n-th turn, or after the one that broke the tables. */
  ghost predicate Stage<K(!new)>(whole: bool, it: Cursor<K>, src: Table<K>, dest: Table<K>, c: Loop<K>, n: nat, i: nat)
    reads it, src, src.buckets, src.repr, dest, dest.buckets, dest.repr
  {
    if whole then n <= |c.keys| && Moving(it, src, dest, c, n, i) && NoTrapBefore(c.keys, c.hash, c.dest.Keys, n)
    else Entangled(src, dest) && !NoTrap(c.keys, c.hash, c.dest.Keys)
  }

  ghost predicate Underway<K(!new)>(whole: bool, it: Cursor<K>, src: Table<K>, dest: Table<K>, c: Loop<K>, n: nat, i: nat)
    reads it, src, src.buckets, src.repr, dest, dest.buckets, dest.repr
  {
    exists d :: d in [c] && Stage(whole, it, src, dest, d, n, i)
  }

  method LoopTurn<K(==, !new)>(it: Cursor<K>, src: Table<K>, dest: Table<K>, ghost c: Loop<K>, ghost n: nat, ghost i: nat)
      returns (whole: bool, ghost i': nat)
    requires Underway(true, it, src, dest, c, n, i) && it.np != null
    modifies it, src`chains, src`repr, src`count, src.buckets, src.repr`next
    modifies dest`chains, dest`repr, dest`count, dest.buckets
    ensures src.repr <= old(src.repr) && n < |c.keys| && Underway(whole, it, src, dest, c, n + 1, i')
  {
    assert MovingNow(it, src, dest, c, n, i);
    NoTrapGrows(c.keys, c.hash, c.dest.Keys, n);
    whole, i' := Turn(it, src, dest, c, n, i);
    assert Stage(whole, it, src, dest, c, n + 1, i');
  }

  lemma Outcome<K(!new)>(whole: bool, it: Cursor<K>, src: Table<K>, dest: Table<K>, c: Loop<K>, n: nat, i: nat)
    requires Underway(whole, it, src, dest, c, n, i) && (whole ==> it.np == null) && forall key :: key in c.src <==> key in c.keys
    ensures whole <==> NoTrap(c.keys, c.hash, c.dest.Keys)
    ensures whole ==> src.Valid() && dest.Valid() && Separate(src, dest)
    ensures whole ==> src.Map() == Staying(c.src, c.dest) && dest.Map() == c.src + c.dest
    ensures !whole ==> Entangled(src, dest)
  {
    if whole { LoopEnds(it, src, dest, c, n, i); }
  }

  /** The loop. */
  method MoveRest<K(==, !new)>(it: Cursor<K>, src: Table<K>, dest: Table<K>, ghost c: Loop<K>) returns (whole: bool)
    requires Moving(it, src, dest, c, 0, 0) && forall key :: key in c.src <==> key in c.keys
    modifies it, src`chains, src`repr, src`count, src.buckets, src.repr`next
    modifies dest`chains, dest`repr, dest`count, dest.buckets
    ensures whole <==> NoTrap(c.keys, c.hash, c.dest.Keys)
    ensures whole ==> src.Valid() && dest.Valid() && Separate(src, dest)
    ensures whole ==> src.Map() == Staying(c.src, c.dest) && dest.Map() == c.src + c.dest
    ensures !whole ==> Entangled(src, dest)
  {
    ghost var own, n, i := src.repr, 0, 0;
    whole := true;
    assert Stage(whole, it, src, dest, c, 0, 0);
    while whole && it.np != null
      invariant src.repr <= own && n <= |c.keys| && Underway(whole, it, src, dest, c, n, i)
      decreases |c.keys| - n
    {
      whole, i := LoopTurn(it, src, dest, c, n, i);
      n := n + 1;
    }
    Outcome(whole, it, src, dest, c, n, i);
  }

  /** Where no key is in both tables, the one ends empty and the other with the union. */
  method MoveAllDisjoint<K(==, !new)>(src: Table<K>, dest: Table<K>)
    requires src.Valid() && dest.Valid() && Separate(src, dest) && src.Map().Keys !! dest.Map().Keys
    modifies src`chains, src`repr, src`count, src.buckets, src.repr`next
    modifies dest`chains, dest`repr, dest`count, dest.buckets
    ensures src.Valid() && dest.Valid() && src.Map() == map[] && dest.Map() == old(dest.Map()) + old(src.Map())
  {
    ghost var s, d := src.Map(), dest.Map();
    CommonKeysOnly(src.Contents(), src.hash, s, d);
    var whole := MoveAll(src, dest);
  }

  lemma CommonKeysOnly<K(!new)>(rows: Rows<K>, hash: K -> nat, s: map<K, Bytes>, d: map<K, Bytes>)
    requires s == MapOf(rows, hash) && s.Keys !! d.Keys
    ensures NoTrap(KeysOf(rows), hash, d.Keys)
    ensures Staying(s, d) == map[] && s + d == d + s
  {
    forall n | 0 <= n < |KeysOf(rows)| ensures KeysOf(rows)[n] !in d.Keys {
      assert KeysOf(rows)[n] in KeysOf(rows);
      WalkHasAllKeys(rows, KeysOf(rows)[n]);
      assert KeysOf(rows)[n] in s.Keys;
    }
    DisjointHasNoTrap(KeysOf(rows), hash, d.Keys);
  }

  // ----- A run that breaks the tables

  function TwoBuckets(key: nat): nat {
    if key < 10 then 0 else 1
  }

  /** A table of two buckets: their entries, and the keys. */
  datatype Rows2 = Rows2(first: seq<Item<nat>>, second: seq<Item<nat>>, keys: set<nat>)

  ghost predicate OfTwo(t: Table<nat>, r: Rows2)
    reads t, t.buckets, t.repr
  {
    t.Valid() && t.hash == TwoBuckets && t.chains == [r.first, r.second] && t.Map().Keys == r.keys
  }

  ghost predicate IsOfTwo(t: Table<nat>, r: Rows2)
    reads t, t.buckets, t.repr
  {
    exists q :: q in [r] && OfTwo(t, q)
  }

  ghost function With(r: Rows2, key: nat, np: Item<nat>): Rows2 {
    if key < 10 then Rows2([np] + r.first, r.second, r.keys + {key}) else Rows2(r.first, [np] + r.second, r.keys + {key})
  }

  method AddKey(t: Table<nat>, key: nat, ghost r: Rows2) returns (np: Item<nat>)
    requires IsOfTwo(t, r) && key !in r.keys
    modifies t`chains, t`repr, t`count, t.buckets
    ensures IsOfTwo(t, With(r, key, np)) && np.data.key == key
  {
    assert OfTwo(t, r);
    LookupIsMap(t.Contents(), t.hash, key);
    np := t.AddNew(key, []);
    assert OfTwo(t, With(r, key, np));
  }

  method NewTable() returns (t: Table<nat>)
    ensures fresh(t) && fresh(t.buckets) && IsOfTwo(t, Rows2([], [], {}))
  {
    t := new Table<nat>(TwoBuckets, 2);
    assert OfTwo(t, Rows2([], [], {}));
  }

  lemma KeysAre(t: Table<nat>, r: Rows2, keys: seq<nat>)
    requires OfTwo(t, r) && |r.first| == 2 && |r.second| == 1 && keys == KeysOf(t.Contents())
    ensures |keys| == 3 && keys[0] == r.first[0].data.key && keys[1] == r.first[1].data.key && keys[2] == r.second[0].data.key
  {
    var rows := t.Contents();
    assert rows[..1] == [rows[0]] && rows[..1][..0] == [];
    assert Flat(rows[..1]) == rows[0];
    assert Flat(rows) == rows[0] + rows[1];
  }

  method OneEntry(key: nat) returns (t: Table<nat>, ghost r: Rows2, np: Item<nat>)
    ensures fresh(t) && fresh(t.buckets) && IsOfTwo(t, r) && np.data.key == key
    ensures r == With(Rows2([], [], {}), key, np)
  {
    t := NewTable();
    np := AddKey(t, key, Rows2([], [], {}));
    r := With(Rows2([], [], {}), key, np);
  }

  method TwoEntries() returns (t: Table<nat>, ghost r: Rows2, x: Item<nat>, y: Item<nat>)
    ensures fresh(t) && fresh(t.buckets) && IsOfTwo(t, r) && r == With(With(Rows2([], [], {}), 10, x), 1, y)
    ensures x.data.key == 10 && y.data.key == 1
  {
    t, r, x := OneEntry(10);
    y := AddKey(t, 1, r);
    r := With(r, 1, y);
  }

  /** The keys 0 and 1 in one bucket, and 10 in the next. */
  method ThreeEntries() returns (t: Table<nat>, ghost r: Rows2, x: Item<nat>, y: Item<nat>, z: Item<nat>)
    ensures fresh(t) && fresh(t.buckets) && IsOfTwo(t, r) && r == With(With(With(Rows2([], [], {}), 10, x), 1, y), 0, z)
    ensures x.data.key == 10 && y.data.key == 1 && z.data.key == 0
  {
    t, r, x, y := TwoEntries();
    NoZeroYet(x, y);
    z := AddKey(t, 0, r);
    r := With(r, 0, z);
  }

  lemma NoZeroYet(x: Item<nat>, y: Item<nat>)
    ensures 0 !in With(With(Rows2([], [], {}), 10, x), 1, y).keys
  {
  }

  lemma ThreeIsTrap(src: Table<nat>, dest: Table<nat>, r: Rows2, q: Rows2)
    requires IsOfTwo(src, r) && IsOfTwo(dest, q) && q.keys == {0} && |r.first| == 2 && |r.second| == 1
    requires r.first[0].data.key == 0 && r.first[1].data.key == 1 && r.second[0].data.key == 10
    ensures src.Valid() && dest.Valid() && !NoTrap(KeysOf(src.Contents()), src.hash, dest.Map().Keys)
  {
    var keys := KeysOf(src.Contents());
    KeysAre(src, r, keys);
    TrapOfThree(keys, src.hash, dest.Map().Keys);
  }

  /** The other table has the key 0: that entry stays, 1 moves, and moving 10 breaks the tables. */
  method MoveThree(src: Table<nat>, dest: Table<nat>, ghost x: Item<nat>, ghost y: Item<nat>, ghost z: Item<nat>, ghost q: Rows2)
    requires IsOfTwo(src, With(With(With(Rows2([], [], {}), 10, x), 1, y), 0, z))
    requires x.data.key == 10 && y.data.key == 1 && z.data.key == 0
    requires IsOfTwo(dest, q) && q.keys == {0} && Separate(src, dest)
    modifies src`chains, src`repr, src`count, src.buckets, src.repr`next
    modifies dest`chains, dest`repr, dest`count, dest.buckets
    ensures Entangled(src, dest)
  {
    ghost var r := With(With(With(Rows2([], [], {}), 10, x), 1, y), 0, z);
    ThreeIsTrap(src, dest, r, q);
    var whole := MoveAll(src, dest);
  }
}
