/**
 The layout of the cyclic queue (src/common/cbuffer.c): how live items tile the ring and
 how the doubly linked list is threaded through their headers.

 Memory is a sequence of words. An address is a word index, the queue head has the
 address CQ outside the buffer, and NIL is the null pointer. A header takes H words:
 next, prev, then size and magic packed as two halves of one word, then padding.
 */
module CyclicQueueSpec {

  const CQ: int := -1
  const NIL: int := -2
  const MAGIC: int := 0x2608
  const FILL: int := 0xEEEEEEEE
  const HALF: int := 0x1_0000

  datatype Item = Item(at: nat, size: nat)

  function Desc(size: nat, magic: nat): int {
    magic * 0x1_0000 + size
  }

  function SizeOf(word: int): nat {
    word % 0x1_0000
  }

  function MagicOf(word: int): nat {
    (word / 0x1_0000) % 0x1_0000
  }

  lemma DescParts(size: nat, magic: nat)
    requires size < HALF && magic < HALF
    ensures SizeOf(Desc(size, magic)) == size && MagicOf(Desc(size, magic)) == magic
  {
  }

  // ----- Tiling

  /** The items lie one directly after the other, the first at `from`. */
  ghost predicate Chained(items: seq<Item>, from: nat, H: nat) {
    && (items != [] ==> items[0].at == from)
    && (forall i :: 0 <= i < |items| ==> items[i].size >= H)
    && (forall i :: 0 < i < |items| ==> Follows(items, i))
  }

  predicate Follows(items: seq<Item>, i: int)
    requires 0 < i < |items|
  {
    items[i].at == items[i - 1].at + items[i - 1].size
  }

  function EndOf(items: seq<Item>, from: nat): nat {
    if items == [] then from else items[|items| - 1].at + items[|items| - 1].size
  }

  ghost predicate Tiles(items: seq<Item>, from: nat, to: nat, H: nat) {
    Chained(items, from, H) && EndOf(items, from) == to
  }

  /** The live items in queue order: they tile [read, write), or, once writing has wrapped,
      the first `split` of them tile [read, k) and the others [0, write). */
  ghost predicate Layout(items: seq<Item>, split: nat, read: int, write: int, n: nat, H: nat) {
    && 0 <= read <= n && 0 <= write <= n && split <= |items|
    && if read <= write then
         && split == |items| && Tiles(items, read, write, H)
         && (items == [] ==> read == 0)
       else
         && split < |items| && Tiles(items[split..], 0, write, H)
         && Chained(items[..split], read, H) && EndOf(items[..split], read) <= n
  }

  /** Where `cbuffer_alloc` places `size` words, or NIL. */
  function Place(read: int, write: int, n: nat, size: nat): int {
    if write >= read then
      if n - write >= size then write else if read > size then 0 else NIL
    else if read - write > size then write else NIL
  }

  lemma ChainedPrefix(items: seq<Item>, from: nat, H: nat, n: nat)
    requires Chained(items, from, H) && n <= |items|
    ensures Chained(items[..n], from, H)
  {
    forall i | 0 < i < n ensures Follows(items[..n], i) {
      assert Follows(items, i);
    }
  }

  /** The read and write positions after the j oldest items were released. */
  function RingAfter(items: seq<Item>, read: int, write: int, j: nat): (int, int)
    requires j <= |items|
  {
    if j == 0 then (read, write)
    else
      var (_, w) := RingAfter(items, read, write, j - 1);
      var to := items[j - 1].at + items[j - 1].size;
      if to == w then (0, 0) else (to, w)
  }

  /** `size` words from q on, in one piece: behind the newest item, or at the start of the buffer if
      writing has not wrapped; they overlap no live item, and do not reach `read`. */
  ghost predicate FreeSpot(items: seq<Item>, read: int, write: int, n: nat, size: nat, q: int) {
    && 0 <= q && q + size <= n && (q == write || (q == 0 && read <= write))
    && (forall i :: 0 <= i < |items| ==> Apart(items[i], Item(q, size)))
    && q + size != read && (write < read ==> q + size < read)
  }

  ghost predicate Room(items: seq<Item>, read: int, write: int, n: nat, size: nat) {
    exists q :: FreeSpot(items, read, write, n, size, q)
  }

  /** A block is placed exactly if there is a spot for it, and behind the newest item if it can. */
  lemma PlaceExactly(items: seq<Item>, split: nat, read: int, write: int, n: nat, H: nat, size: nat)
    requires Layout(items, split, read, write, n, H) && 0 < H <= size
    ensures var p := Place(read, write, n, size);
            && (p != NIL <==> Room(items, read, write, n, size))
            && (p != NIL ==> FreeSpot(items, read, write, n, size, p))
            && (FreeSpot(items, read, write, n, size, write) ==> p == write)
  {
    var p := Place(read, write, n, size);
    if p != NIL {
      PlaceIsFree(items, split, read, write, n, H, size);
      assert FreeSpot(items, read, write, n, size, p);
    }
    if Room(items, read, write, n, size) {
      var q :| FreeSpot(items, read, write, n, size, q);
      if items != [] && read <= write {
        OldestPlace(items, split, read, write, n, H);
        assert Apart(items[0], Item(q, size));
      }
    }
  }

  /** Whether there is a spot for `size` words once the j oldest items are released. */
  ghost predicate RoomAfter(items: seq<Item>, read: int, write: int, n: nat, size: nat, j: nat)
    requires j <= |items|
  {
    var (r, w) := RingAfter(items, read, write, j);
    Room(items[j..], r, w, n, size)
  }

  /** No release of fewer than k items makes room. */
  ghost predicate NoRoomBefore(items: seq<Item>, read: int, write: int, n: nat, size: nat, k: nat)
    requires k <= |items|
  {
    k == 0 || (NoRoomBefore(items, read, write, n, size, k - 1) && !RoomAfter(items, read, write, n, size, k - 1))
  }

  lemma {:induction false} ChainedBounds(items: seq<Item>, from: nat, H: nat, i: nat)
    requires Chained(items, from, H) && i < |items|
    ensures from <= items[i].at && items[i].at + items[i].size <= EndOf(items, from)
  {
    var last := |items| - 1;
    if last > 0 {
      assert Follows(items, last);
      ChainedPrefix(items, from, H, last);
      ChainedBounds(items[..last], from, H, if i < last then i else last - 1);
    }
  }

  lemma {:induction false} ChainedInOrder(items: seq<Item>, from: nat, H: nat, i: nat, j: nat)
    requires Chained(items, from, H) && i < j < |items|
    ensures items[i].at + items[i].size <= items[j].at
  {
    assert Follows(items, j);
    if i < j - 1 {
      ChainedInOrder(items, from, H, i, j - 1);
    }
  }

  predicate Apart(a: Item, b: Item) {
    a.at + a.size <= b.at || b.at + b.size <= a.at
  }

  /** Where an item can lie, by the part it belongs to. */
  lemma LayoutBounds(items: seq<Item>, split: nat, read: int, write: int, n: nat, H: nat, i: nat)
    requires Layout(items, split, read, write, n, H) && i < |items|
    ensures items[i].size >= H && items[i].at + items[i].size <= n
    ensures i < split ==> read <= items[i].at
    ensures read <= write || i >= split ==> items[i].at + items[i].size <= write
  {
    if read <= write {
      ChainedBounds(items, read, H, i);
    } else if i < split {
      ChainedBounds(items[..split], read, H, i);
    } else {
      ChainedBounds(items[split..], 0, H, i - split);
    }
  }

  /** Live items never overlap. */
  lemma LayoutApart(items: seq<Item>, split: nat, read: int, write: int, n: nat, H: nat, i: nat, j: nat)
    requires Layout(items, split, read, write, n, H) && i < j < |items|
    ensures Apart(items[i], items[j])
  {
    if read <= write {
      ChainedInOrder(items, read, H, i, j);
    } else if j < split {
      ChainedInOrder(items[..split], read, H, i, j);
    } else if i >= split {
      ChainedInOrder(items[split..], 0, H, i - split, j - split);
    } else {
      LayoutBounds(items, split, read, write, n, H, i);
      LayoutBounds(items, split, read, write, n, H, j);
    }
  }

  /** The ring is empty exactly when read and write are both at the start. */
  lemma EmptyLayout(items: seq<Item>, split: nat, read: int, write: int, n: nat, H: nat)
    requires Layout(items, split, read, write, n, H) && H > 0
    ensures items == [] <==> read == write
    ensures items == [] ==> read == write == 0
  {
    if items != [] && read == write {
      LayoutBounds(items, split, read, write, n, H, 0);
    }
  }

  lemma ChainedAppend(items: seq<Item>, from: nat, H: nat, size: nat)
    requires Chained(items, from, H) && size >= H
    ensures var more := items + [Item(EndOf(items, from), size)];
            Chained(more, from, H) && EndOf(more, from) == EndOf(items, from) + size
  {
    var more := items + [Item(EndOf(items, from), size)];
    forall i | 0 < i < |more| ensures Follows(more, i) {
      if i < |items| { assert Follows(items, i); }
    }
  }

  lemma ChainedTail(items: seq<Item>, from: nat, H: nat)
    requires Chained(items, from, H) && items != []
    ensures var after := items[0].at + items[0].size;
            Chained(items[1..], after, H) && EndOf(items[1..], after) == EndOf(items, from)
  {
    if |items| > 1 { assert Follows(items, 1); }
    forall i | 0 < i < |items| - 1 ensures Follows(items[1..], i) {
      assert Follows(items, i + 1);
    }
  }

  /** A placed block avoids every live item. */
  lemma PlaceIsFree(items: seq<Item>, split: nat, read: int, write: int, n: nat, H: nat, size: nat)
    requires Layout(items, split, read, write, n, H) && 0 < H <= size
    requires Place(read, write, n, size) != NIL
    ensures var p := Place(read, write, n, size);
            && 0 <= p && p + size <= n
            && forall i :: 0 <= i < |items| ==> Apart(items[i], Item(p, size))
  {
    forall i | 0 <= i < |items| ensures Apart(items[i], Item(Place(read, write, n, size), size)) {
      LayoutBounds(items, split, read, write, n, H, i);
    }
  }

  function SplitAfterPlace(items: seq<Item>, split: nat, read: int, write: int, p: int): nat {
    if p < write then |items| else if read <= write then |items| + 1 else split
  }

  /** ... and the layout extends to it. */
  lemma PlaceExtends(items: seq<Item>, split: nat, read: int, write: int, n: nat, H: nat, size: nat)
    requires Layout(items, split, read, write, n, H) && 0 < H <= size
    requires Place(read, write, n, size) != NIL
    ensures var p := Place(read, write, n, size);
            0 <= p && Layout(items + [Item(p, size)], SplitAfterPlace(items, split, read, write, p), read, p + size, n, H)
  {
    var p := Place(read, write, n, size);
    var more := items + [Item(p, size)];
    if read > write {
      assert more[..split] == items[..split] && more[split..] == items[split..] + [Item(p, size)];
      ChainedAppend(items[split..], 0, H, size);
    } else if p < write {
      assert more[..|items|] == items && more[|items|..] == [Item(p, size)];
    } else {
      ChainedAppend(items, read, H, size);
    }
  }

  /** Where the oldest item lies. */
  lemma OldestPlace(items: seq<Item>, split: nat, read: int, write: int, n: nat, H: nat)
    requires Layout(items, split, read, write, n, H) && H > 0 && items != []
    ensures var after := items[0].at + items[0].size;
            && after <= n && (split > 0 ==> items[0].at == read < after)
            && (split == 0 ==> items[0].at == 0 && after <= write < read)
  {
    LayoutBounds(items, split, read, write, n, H, 0);
    if split == 0 {
      assert items[0..] == items;
    } else if read > write {
      assert items[..split][0] == items[0];
    }
  }

  /** The layout after the oldest item is released, before and after the reset of an empty ring. */
  lemma ReleaseShrinks(items: seq<Item>, split: nat, read: int, write: int, n: nat, H: nat)
    requires Layout(items, split, read, write, n, H) && H > 0 && items != []
    ensures var after := items[0].at + items[0].size;
            if after == write then items[1..] == []
            else Layout(items[1..], if split == 0 then |items| - 1 else split - 1, after, write, n, H)
  {
    OldestPlace(items, split, read, write, n, H);
    if read > write && split > 0 {
      ReleaseBeforeWrap(items, split, read, write, n, H);
    } else {
      var from := if split == 0 then 0 else read;
      assert items[0..] == items;
      assert Tiles(items, from, write, H);
      ChainedTail(items, from, H);
      if |items| > 1 { ChainedBounds(items, from, H, 1); }
    }
  }

  lemma ReleaseBeforeWrap(items: seq<Item>, split: nat, read: int, write: int, n: nat, H: nat)
    requires Layout(items, split, read, write, n, H) && H > 0 && read > write && split > 0
    ensures items[0].at + items[0].size > write
    ensures Layout(items[1..], split - 1, items[0].at + items[0].size, write, n, H)
  {
    OldestPlace(items, split, read, write, n, H);
    var rest := items[1..];
    var before := items[..split];
    assert before[0] == items[0];
    assert rest[split - 1..] == items[split..];
    assert rest[..split - 1] == before[1..];
    ChainedTail(before, read, H);
  }

  // ----- The list in the headers

  function AddrAt(items: seq<Item>, i: int): int {
    if 0 <= i < |items| then items[i].at else CQ
  }

  ghost predicate HeaderAt(m: seq<int>, items: seq<Item>, i: nat)
    requires i < |items|
  {
    var p := items[i].at;
    && p + 2 < |m|
    && m[p] == AddrAt(items, i + 1) && m[p + 1] == AddrAt(items, i - 1)
    && m[p + 2] == Desc(items[i].size, MAGIC)
  }

  ghost predicate Linked(m: seq<int>, items: seq<Item>, next: int, prev: int) {
    && next == AddrAt(items, 0) && prev == AddrAt(items, |items| - 1)
    && forall i :: 0 <= i < |items| ==> HeaderAt(m, items, i)
  }

  /** The whole state of a queue is consistent. */
  ghost predicate Good(m: seq<int>, items: seq<Item>, split: nat, read: int, write: int, next: int, prev: int, H: nat) {
    H >= 3 && Layout(items, split, read, write, |m|, H) && Linked(m, items, next, prev)
  }

  ghost predicate Consistent(m: seq<int>, items: seq<Item>, read: int, write: int, next: int, prev: int, H: nat) {
    exists split: nat :: Good(m, items, split, read, write, next, prev, H)
  }

  function Payload(m: seq<int>, item: Item, H: nat): seq<int> {
    if H <= item.size && item.at + item.size <= |m| then m[item.at + H..item.at + item.size] else []
  }

  function Contents(m: seq<int>, items: seq<Item>, H: nat): seq<seq<int>> {
    seq(|items|, i requires 0 <= i < |items| => Payload(m, items[i], H))
  }

  function Zeros(n: nat): seq<int> {
    seq(n, _ => 0)
  }

  /** `memset` by words: m' is m with one range filled. */
  ghost predicate FilledWith(m: seq<int>, m': seq<int>, lo: int, hi: int, word: int) {
    |m'| == |m| && forall j :: 0 <= j < |m| ==> m'[j] == if lo <= j < hi then word else m[j]
  }

  /** Items inside the buffer, none overlapping another. */
  ghost predicate Separate(items: seq<Item>, n: nat, H: nat) {
    && (forall i :: 0 <= i < |items| ==> 3 <= H <= items[i].size && items[i].at + items[i].size <= n)
    && (forall i, j :: 0 <= i < j < |items| ==> ApartAt(items, i, j))
  }

  predicate ApartAt(items: seq<Item>, i: nat, j: nat)
    requires i < |items| && j < |items|
  {
    Apart(items[i], items[j])
  }

  lemma LayoutSeparate(items: seq<Item>, split: nat, read: int, write: int, n: nat, H: nat)
    requires Layout(items, split, read, write, n, H) && H >= 3
    ensures Separate(items, n, H)
  {
    forall i | 0 <= i < |items| ensures H <= items[i].size && items[i].at + items[i].size <= n {
      LayoutBounds(items, split, read, write, n, H, i);
    }
    forall i, j | 0 <= i < j < |items| ensures ApartAt(items, i, j) {
      LayoutApart(items, split, read, write, n, H, i, j);
    }
  }

  predicate Inside(j: int, item: Item) {
    item.at <= j < item.at + item.size
  }

  /** No word of the item's payload differs, and its size and magic do not either. */
  ghost predicate SameItem(m: seq<int>, m': seq<int>, item: Item, H: nat) {
    && |m'| == |m| && 3 <= H <= item.size && item.at + item.size <= |m|
    && m'[item.at + 2] == m[item.at + 2]
    && forall j :: item.at + H <= j < item.at + item.size ==> m'[j] == m[j]
  }

  lemma SamePayload(m: seq<int>, m': seq<int>, item: Item, H: nat)
    requires SameItem(m, m', item, H)
    ensures Payload(m', item, H) == Payload(m, item, H)
  {
  }

  /** Outside one block and the `next` word of the newest item nothing has changed. */
  ghost predicate ChangedOnly(m: seq<int>, m': seq<int>, block: Item, word: int) {
    |m'| == |m| && forall j :: 0 <= j < |m| && !Inside(j, block) && j != word ==> m'[j] == m[j]
  }

  lemma AppendedHeader(m: seq<int>, m': seq<int>, items: seq<Item>, next: int, prev: int, block: Item, H: nat, i: nat)
    requires Linked(m, items, next, prev) && Separate(items, |m|, H) && i < |items|
    requires Apart(items[i], block) && block.size > 0
    requires ChangedOnly(m, m', block, prev) && m'[prev] == block.at
    ensures HeaderAt(m', items + [block], i)
  {
    assert HeaderAt(m, items, i);
    if i < |items| - 1 { assert ApartAt(items, i, |items| - 1); }
  }

  lemma AppendedSame(m: seq<int>, m': seq<int>, items: seq<Item>, prev: int, block: Item, H: nat, i: nat)
    requires prev == AddrAt(items, |items| - 1) && Separate(items, |m|, H) && i < |items|
    requires Apart(items[i], block) && block.size > 0 && ChangedOnly(m, m', block, prev)
    ensures SameItem(m, m', items[i], H)
  {
    if i < |items| - 1 { assert ApartAt(items, i, |items| - 1); }
  }

  lemma ContentsAre(m: seq<int>, items: seq<Item>, H: nat, c: seq<seq<int>>)
    requires |c| == |items| && forall i :: 0 <= i < |items| ==> Payload(m, items[i], H) == c[i]
    ensures Contents(m, items, H) == c
  {
  }

  lemma NewestHeader(m: seq<int>, items: seq<Item>, prev: int, block: Item)
    requires prev == AddrAt(items, |items| - 1) && block.at + 2 < |m|
    requires m[block.at] == CQ && m[block.at + 1] == prev && m[block.at + 2] == Desc(block.size, MAGIC)
    ensures HeaderAt(m, items + [block], |items|)
  {
  }

  /** Appending a block to the list: the list is the old one extended, ... */
  lemma LinkAppend(m: seq<int>, m': seq<int>, items: seq<Item>, next: int, prev: int, block: Item, H: nat)
    requires Linked(m, items, next, prev) && Separate(items, |m|, H)
    requires 3 <= H <= block.size && block.at + block.size <= |m|
    requires forall i :: 0 <= i < |items| ==> Apart(items[i], block)
    requires ChangedOnly(m, m', block, prev)
    requires items != [] ==> m'[prev] == block.at
    requires m'[block.at] == CQ && m'[block.at + 1] == prev && m'[block.at + 2] == Desc(block.size, MAGIC)
    ensures Linked(m', items + [block], if items == [] then block.at else next, block.at)
  {
    forall i | 0 <= i < |items| ensures HeaderAt(m', items + [block], i) {
      AppendedHeader(m, m', items, next, prev, block, H, i);
    }
    NewestHeader(m', items, prev, block);
  }

  /** ... and no live payload is touched. */
  lemma ContentsAppend(m: seq<int>, m': seq<int>, items: seq<Item>, block: Item, H: nat)
    requires H <= block.size && block.at + block.size <= |m| && Separate(items, |m|, H)
    requires forall i :: 0 <= i < |items| ==> Apart(items[i], block)
    requires 0 < H && ChangedOnly(m, m', block, AddrAt(items, |items| - 1))
    ensures Contents(m', items + [block], H) == Contents(m, items, H) + [m'[block.at + H..block.at + block.size]]
  {
    forall i | 0 <= i < |items| ensures Payload(m', items[i], H) == Payload(m, items[i], H) {
      AppendedSame(m, m', items, AddrAt(items, |items| - 1), block, H, i);
      SamePayload(m, m', items[i], H);
    }
    var c := Contents(m, items, H) + [m'[block.at + H..block.at + block.size]];
    forall i | 0 <= i < |items + [block]| ensures Payload(m', (items + [block])[i], H) == c[i] {
      if i < |items| { assert (items + [block])[i] == items[i]; }
    }
    ContentsAre(m', items + [block], H, c);
  }

  /** The item is not the oldest one, and only its `prev` word may have changed: to CQ, if
      it becomes the oldest. */
  ghost predicate KeptItem(m: seq<int>, m': seq<int>, items: seq<Item>, i: nat, H: nat)
    requires i < |items|
  {
    && SameItem(m, m', items[i], H) && m'[items[i].at] == m[items[i].at]
    && m'[items[i].at + 1] == if i == 1 then CQ else m[items[i].at + 1]
  }

  /** Releasing the oldest item: the list is its tail, and no other payload is touched. */
  lemma LinkDropOldest(m: seq<int>, m': seq<int>, items: seq<Item>, next: int, prev: int, H: nat)
    requires Linked(m, items, next, prev) && items != []
    requires forall i :: 1 <= i < |items| ==> KeptItem(m, m', items, i, H)
    ensures Linked(m', items[1..], AddrAt(items, 1), if |items| == 1 then CQ else prev)
  {
    var rest := items[1..];
    forall i | 0 <= i < |rest| ensures HeaderAt(m', rest, i) {
      assert HeaderAt(m, items, i + 1) && KeptItem(m, m', items, i + 1, H);
      assert AddrAt(rest, i + 1) == AddrAt(items, i + 2);
      assert AddrAt(rest, i - 1) == if i == 0 then CQ else AddrAt(items, i);
    }
  }

  lemma ContentsDropOldest(m: seq<int>, m': seq<int>, items: seq<Item>, H: nat)
    requires items != [] && forall i :: 1 <= i < |items| ==> KeptItem(m, m', items, i, H)
    ensures Contents(m', items[1..], H) == Contents(m, items, H)[1..]
  {
    forall i | 0 <= i < |items| - 1 ensures Payload(m', items[1..][i], H) == Contents(m, items, H)[1..][i] {
      assert KeptItem(m, m', items, i + 1, H);
      SamePayload(m, m', items[i + 1], H);
    }
    ContentsAre(m', items[1..], H, Contents(m, items, H)[1..]);
  }

  /** Only payload words of one item have changed. */
  ghost predicate ChangedPayload(m: seq<int>, m': seq<int>, item: Item, H: nat) {
    |m'| == |m| && forall j :: 0 <= j < |m| && !(item.at + H <= j < item.at + item.size) ==> m'[j] == m[j]
  }

  lemma OtherItemSame(m: seq<int>, m': seq<int>, items: seq<Item>, H: nat, k: nat, i: nat)
    requires Separate(items, |m|, H) && k < |items| && i < |items| && i != k
    requires ChangedPayload(m, m', items[k], H)
    ensures SameItem(m, m', items[i], H) && m'[items[i].at] == m[items[i].at] && m'[items[i].at + 1] == m[items[i].at + 1]
  {
    if i < k {
      assert ApartAt(items, i, k);
    } else {
      assert ApartAt(items, k, i);
    }
  }

  /** Writing into the payload of one item changes that payload only. */
  lemma PayloadWritten(m: seq<int>, m': seq<int>, items: seq<Item>, next: int, prev: int, H: nat, k: nat)
    requires Linked(m, items, next, prev) && Separate(items, |m|, H) && k < |items|
    requires ChangedPayload(m, m', items[k], H)
    ensures Linked(m', items, next, prev)
    ensures Contents(m', items, H) == Contents(m, items, H)[k := m'[items[k].at + H..items[k].at + items[k].size]]
  {
    forall i | 0 <= i < |items| ensures HeaderAt(m', items, i) {
      assert HeaderAt(m, items, i);
      if i != k { OtherItemSame(m, m', items, H, k, i); }
    }
    var c := Contents(m, items, H)[k := m'[items[k].at + H..items[k].at + items[k].size]];
    forall i | 0 <= i < |items| ensures Payload(m', items[i], H) == c[i] {
      if i != k {
        OtherItemSame(m, m', items, H, k, i);
        SamePayload(m, m', items[i], H);
      }
    }
    ContentsAre(m', items, H, c);
  }

  /** What `cbuffer_free` fills when the ring is released up to `to`. */
  predicate Filled(j: int, to: int, read: int, write: int) {
    if to >= read then read <= j < to else write <= j || j < to
  }

  lemma OthersNotFilled(items: seq<Item>, split: nat, read: int, write: int, n: nat, H: nat, i: nat, j: int)
    requires Layout(items, split, read, write, n, H) && H > 0 && 1 <= i < |items| && Inside(j, items[i])
    ensures !Filled(j, items[0].at + items[0].size, read, write)
  {
    OldestPlace(items, split, read, write, n, H);
    LayoutApart(items, split, read, write, n, H, 0, i);
    LayoutBounds(items, split, read, write, n, H, i);
  }

  /** No release touches another live item, but for the `prev` word of the next oldest. */
  lemma OthersKept(m: seq<int>, m': seq<int>, items: seq<Item>, split: nat, read: int, write: int, H: nat, i: nat)
    requires Layout(items, split, read, write, |m|, H) && Separate(items, |m|, H) && 1 <= i < |items|
    requires |m'| == |m| && forall j :: 0 <= j < |m| ==>
      m'[j] == if Filled(j, items[0].at + items[0].size, read, write) then FILL
               else if j == items[1].at + 1 then CQ else m[j]
    ensures KeptItem(m, m', items, i, H)
  {
    var it := items[i];
    forall j | Inside(j, it) ensures m'[j] == if j == items[1].at + 1 then CQ else m[j] {
      OthersNotFilled(items, split, read, write, |m|, H, i, j);
    }
    if i > 1 { assert ApartAt(items, 1, i); }
    assert Inside(it.at, it) && Inside(it.at + 1, it) && Inside(it.at + 2, it);
    forall j | it.at + H <= j < it.at + it.size ensures m'[j] == m[j] {
      assert Inside(j, it);
    }
  }

  /** m' is m with a zeroed block of `size` words at p linked as the newest item. */
  ghost predicate Enqueued(m: seq<int>, m': seq<int>, p: int, size: nat, prev: int) {
    |m'| == |m| && forall j :: 0 <= j < |m| ==>
      m'[j] == if j == p then CQ else if j == p + 1 then prev else if j == p + 2 then Desc(size, MAGIC)
               else if p <= j < p + size then 0 else if j == prev then p else m[j]
  }

  lemma PlaceIffRoom(m: seq<int>, items: seq<Item>, read: int, write: int, next: int, prev: int, H: nat, size: nat)
    requires Consistent(m, items, read, write, next, prev, H) && H <= size
    ensures Place(read, write, |m|, size) != NIL <==> Room(items, read, write, |m|, size)
  {
    var split: nat :| Good(m, items, split, read, write, next, prev, H);
    PlaceExactly(items, split, read, write, |m|, H, size);
  }

  lemma PlaceFacts(m: seq<int>, items: seq<Item>, read: int, write: int, next: int, prev: int, H: nat, size: nat)
    requires Consistent(m, items, read, write, next, prev, H) && H <= size && Place(read, write, |m|, size) != NIL
    ensures var p := Place(read, write, |m|, size);
            && 0 <= p && p + size <= |m| && (prev == CQ <==> items == [])
            && (prev != CQ ==> 0 <= prev < |m| && !(p <= prev < p + size))
  {
    var split: nat :| Good(m, items, split, read, write, next, prev, H);
    LayoutSeparate(items, split, read, write, |m|, H);
    PlaceIsFree(items, split, read, write, |m|, H, size);
    if items != [] {
      assert HeaderAt(m, items, |items| - 1);
      assert Apart(items[|items| - 1], Item(Place(read, write, |m|, size), size));
    }
  }

  lemma EnqueuedChange(m: seq<int>, m': seq<int>, p: nat, size: nat, prev: int, H: nat)
    requires 3 <= H <= size && p + size <= |m| && Enqueued(m, m', p, size, prev)
    requires prev == CQ || (0 <= prev < |m| && !(p <= prev < p + size))
    ensures ChangedOnly(m, m', Item(p, size), prev) && (prev != CQ ==> m'[prev] == p)
    ensures m'[p] == CQ && m'[p + 1] == prev && m'[p + 2] == Desc(size, MAGIC)
    ensures m'[p + H..p + size] == Zeros(size - H)
  {
  }

  lemma EnqueuedList(m: seq<int>, m': seq<int>, items: seq<Item>, next: int, prev: int, H: nat, p: nat, size: nat)
    requires Linked(m, items, next, prev) && Separate(items, |m|, H)
    requires 3 <= H <= size && p + size <= |m| && Enqueued(m, m', p, size, prev)
    requires forall i :: 0 <= i < |items| ==> Apart(items[i], Item(p, size))
    requires (prev == CQ <==> items == []) && (prev != CQ ==> 0 <= prev < |m| && !(p <= prev < p + size))
    ensures Linked(m', items + [Item(p, size)], if prev == CQ then p else next, p)
    ensures Contents(m', items + [Item(p, size)], H) == Contents(m, items, H) + [Zeros(size - H)]
  {
    EnqueuedChange(m, m', p, size, prev, H);
    LinkAppend(m, m', items, next, prev, Item(p, size), H);
    ContentsAppend(m, m', items, Item(p, size), H);
  }

  /** An item placed, zeroed and linked as the newest. */
  lemma EnqueueStep(m: seq<int>, m': seq<int>, items: seq<Item>, split: nat, read: int, write: int, next: int, prev: int, H: nat, p: nat, size: nat)
    requires Good(m, items, split, read, write, next, prev, H) && H <= size
    requires p == Place(read, write, |m|, size) && Enqueued(m, m', p, size, prev)
    ensures Good(m', items + [Item(p, size)], SplitAfterPlace(items, split, read, write, p), read, p + size,
                 if prev == CQ then p else next, p, H)
    ensures Contents(m', items + [Item(p, size)], H) == Contents(m, items, H) + [Zeros(size - H)]
  {
    PlaceFacts(m, items, read, write, next, prev, H, size);
    LayoutSeparate(items, split, read, write, |m|, H);
    PlaceIsFree(items, split, read, write, |m|, H, size);
    EnqueuedList(m, m', items, next, prev, H, p, size);
    PlaceExtends(items, split, read, write, |m|, H, size);
  }

  lemma EnqueueConsistent(m: seq<int>, m': seq<int>, items: seq<Item>, read: int, write: int, next: int, prev: int, H: nat, p: nat, size: nat)
    requires Consistent(m, items, read, write, next, prev, H) && H <= size
    requires p == Place(read, write, |m|, size) && Enqueued(m, m', p, size, prev)
    ensures Consistent(m', items + [Item(p, size)], read, p + size, if prev == CQ then p else next, p, H)
    ensures Contents(m', items + [Item(p, size)], H) == Contents(m, items, H) + [Zeros(size - H)]
  {
    var split: nat :| Good(m, items, split, read, write, next, prev, H);
    EnqueueStep(m, m', items, split, read, write, next, prev, H, p, size);
  }

  /** m' is m with the oldest item unlinked and the ring released up to `to`. */
  ghost predicate Dequeued(m: seq<int>, m': seq<int>, items: seq<Item>, to: int, read: int, write: int) {
    |m'| == |m| && forall j :: 0 <= j < |m| ==>
      m'[j] == if Filled(j, to, read, write) then FILL
               else if |items| > 1 && j == items[1].at + 1 then CQ else m[j]
  }

  lemma OldestFacts(m: seq<int>, items: seq<Item>, read: int, write: int, next: int, prev: int, H: nat)
    requires Consistent(m, items, read, write, next, prev, H) && items != []
    ensures next == items[0].at && next + 2 < |m| && (|items| > 1 ==> items[1].at + 1 < |m|)
    ensures m[next] == AddrAt(items, 1) && m[next + 2] == Desc(items[0].size, MAGIC)
    ensures |items| > 1 ==> items[1].at + 1 != next + 2
    ensures 0 <= read <= |m| && 0 <= write <= |m| && items[0].at + items[0].size <= |m|
    ensures Filled(next + 2, items[0].at + items[0].size, read, write)
  {
    var split: nat :| Good(m, items, split, read, write, next, prev, H);
    OldestPlace(items, split, read, write, |m|, H);
    LayoutBounds(items, split, read, write, |m|, H, 0);
    assert HeaderAt(m, items, 0);
    if |items| > 1 {
      LayoutBounds(items, split, read, write, |m|, H, 1);
      LayoutApart(items, split, read, write, |m|, H, 0, 1);
    }
  }

  lemma DequeuedList(m: seq<int>, m': seq<int>, items: seq<Item>, split: nat, read: int, write: int, next: int, prev: int, H: nat)
    requires Good(m, items, split, read, write, next, prev, H) && items != []
    requires Dequeued(m, m', items, items[0].at + items[0].size, read, write)
    ensures Linked(m', items[1..], AddrAt(items, 1), if |items| == 1 then CQ else prev)
    ensures Contents(m', items[1..], H) == Contents(m, items, H)[1..]
  {
    LayoutSeparate(items, split, read, write, |m|, H);
    forall i | 1 <= i < |items| ensures KeptItem(m, m', items, i, H) {
      OthersKept(m, m', items, split, read, write, H, i);
    }
    LinkDropOldest(m, m', items, next, prev, H);
    ContentsDropOldest(m, m', items, H);
  }

  function SplitAfterRelease(items: seq<Item>, split: nat, to: int, write: int): nat
    requires items != []
  {
    if to == write then 0 else if split == 0 then |items| - 1 else split - 1
  }

  /** The oldest item unlinked, released, and an empty ring reset. */
  lemma DequeueStep(m: seq<int>, m': seq<int>, items: seq<Item>, split: nat, read: int, write: int, next: int, prev: int, H: nat)
    requires Good(m, items, split, read, write, next, prev, H) && items != []
    requires Dequeued(m, m', items, items[0].at + items[0].size, read, write)
    ensures var to := items[0].at + items[0].size;
            Good(m', items[1..], SplitAfterRelease(items, split, to, write), if to == write then 0 else to,
                 if to == write then 0 else write, AddrAt(items, 1), if |items| == 1 then CQ else prev, H)
    ensures Contents(m', items[1..], H) == Contents(m, items, H)[1..]
  {
    DequeuedList(m, m', items, split, read, write, next, prev, H);
    ReleaseShrinks(items, split, read, write, |m|, H);
  }

  lemma DequeueConsistent(m: seq<int>, m': seq<int>, items: seq<Item>, read: int, write: int, next: int, prev: int, H: nat)
    requires Consistent(m, items, read, write, next, prev, H) && items != []
    requires Dequeued(m, m', items, items[0].at + items[0].size, read, write)
    ensures var to := items[0].at + items[0].size;
            Consistent(m', items[1..], if to == write then 0 else to, if to == write then 0 else write,
                       AddrAt(items, 1), if |items| == 1 then CQ else prev, H)
    ensures Contents(m', items[1..], H) == Contents(m, items, H)[1..]
  {
    var split: nat :| Good(m, items, split, read, write, next, prev, H);
    DequeueStep(m, m', items, split, read, write, next, prev, H);
  }

  lemma StoreConsistent(m: seq<int>, m': seq<int>, items: seq<Item>, read: int, write: int, next: int, prev: int, H: nat, k: nat)
    requires Consistent(m, items, read, write, next, prev, H) && k < |items|
    requires ChangedPayload(m, m', items[k], H)
    ensures Consistent(m', items, read, write, next, prev, H)
    ensures items[k].at + items[k].size <= |m| && H <= items[k].size
    ensures Contents(m', items, H) == Contents(m, items, H)[k := m'[items[k].at + H..items[k].at + items[k].size]]
  {
    var split: nat :| Good(m, items, split, read, write, next, prev, H);
    LayoutSeparate(items, split, read, write, |m|, H);
    PayloadWritten(m, m', items, next, prev, H, k);
    assert Good(m', items, split, read, write, next, prev, H);
  }
}
