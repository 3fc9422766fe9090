/**
 The memory log (src/common/mlog.c): records appended to a cyclic queue, the oldest ones
 evicted to make room, and iterators over the records of some types.
 */
module MemLog {
  import opened CyclicQueueSpec
  import opened CyclicQueueCheck
  import CyclicQueue

  const RECORD_WORDS: nat := 4  // date, time, counter and id, type and length

  type Record = seq<int>

  /** Two masks share a bit. */
  predicate ShareBit(a: nat, b: nat) {
    if a == 0 || b == 0 then false else (a % 2 == 1 && b % 2 == 1) || ShareBit(a / 2, b / 2)
  }

  /** The i-th binary digit is set. */
  predicate Bit(a: nat, i: nat) {
    if i == 0 then a % 2 == 1 else Bit(a / 2, i - 1)
  }

  predicate BothHave(a: nat, b: nat, i: nat) {
    Bit(a, i) && Bit(b, i)
  }

  lemma ShareBitExactly(a: nat, b: nat)
    ensures ShareBit(a, b) <==> exists i: nat :: BothHave(a, b, i)
  {
    if ShareBit(a, b) {
      var i := SharedBit(a, b);
      assert BothHave(a, b, i);
    }
    if i: nat :| BothHave(a, b, i) { BitIsShared(a, b, i); }
  }

  lemma {:induction false} SharedBit(a: nat, b: nat) returns (i: nat)
    requires ShareBit(a, b)
    ensures Bit(a, i) && Bit(b, i)
  {
    if a % 2 == 1 && b % 2 == 1 {
      i := 0;
    } else {
      i := SharedBit(a / 2, b / 2);
      i := i + 1;
    }
  }

  lemma {:induction false} BitIsShared(a: nat, b: nat, i: nat)
    requires Bit(a, i) && Bit(b, i)
    ensures ShareBit(a, b)
  {
    if a == 0 || b == 0 { NoBits(i); }
    if i > 0 { BitIsShared(a / 2, b / 2, i - 1); }
  }

  lemma {:induction false} NoBits(i: nat)
    ensures !Bit(0, i)
  {
    if i > 0 { NoBits(i - 1); }
  }

  function TypeOf(record: Record): nat {
    if |record| >= RECORD_WORDS then record[3] % HALF else 0
  }

  /** The test of the iterators: a zero mask takes every record. */
  predicate Matches(record: Record, mask: nat) {
    mask == 0 || ShareBit(TypeOf(record), mask)
  }

  // ----- Walks over the log, oldest record first

  /** Index of the newest matching record before k, or -1. */
  function PrevMatch(log: seq<Record>, k: nat, mask: nat): (r: int)
    requires k <= |log|
    ensures -1 <= r < k
    ensures forall i :: r < i < k ==> !Matches(log[i], mask)
    ensures r >= 0 ==> Matches(log[r], mask)
  {
    if k == 0 then -1 else if Matches(log[k - 1], mask) then k - 1 else PrevMatch(log, k - 1, mask)
  }

  /** Index of the oldest matching record from k on, or -1. */
  function NextMatch(log: seq<Record>, k: nat, mask: nat): (r: int)
    requires k <= |log|
    ensures r == -1 || k <= r < |log|
    ensures forall i :: k <= i < (if r < 0 then |log| else r) ==> !Matches(log[i], mask)
    ensures r >= 0 ==> Matches(log[r], mask)
    decreases |log| - k
  {
    if k == |log| then -1 else if Matches(log[k], mask) then k else NextMatch(log, k + 1, mask)
  }

  /** The indices an iterator gives that starts before k and goes on to older records. */
  function Listing(log: seq<Record>, k: nat, mask: nat): seq<int>
    requires k <= |log|
  {
    var j := PrevMatch(log, k, mask);
    if j < 0 then [] else [j] + Listing(log, j, mask)
  }

  function CountMatches(log: seq<Record>, mask: nat): nat {
    if log == [] then 0 else CountMatches(log[..|log| - 1], mask) + if Matches(log[|log| - 1], mask) then 1 else 0
  }

  /** The iterator lists exactly the matching records, newest first, ... */
  lemma {:induction false} ListingIsComplete(log: seq<Record>, k: nat, mask: nat)
    requires k <= |log|
    ensures forall i :: 0 <= i < k && Matches(log[i], mask) <==> i in Listing(log, k, mask)
    ensures forall a, b :: 0 <= a < b < |Listing(log, k, mask)| ==> Listing(log, k, mask)[a] > Listing(log, k, mask)[b]
    decreases k
  {
    var j := PrevMatch(log, k, mask);
    if j >= 0 {
      var rest := Listing(log, j, mask);
      ListingIsComplete(log, j, mask);
      assert Listing(log, k, mask) == [j] + rest;
      assert forall b :: 0 <= b < |rest| ==> rest[b] in rest;
    }
  }

  /** ... and there are as many as are counted. */
  lemma {:induction false} ListingIsCounted(log: seq<Record>, k: nat, mask: nat)
    requires k <= |log|
    ensures |Listing(log, k, mask)| == CountMatches(log[..k], mask)
    decreases k
  {
    var j := PrevMatch(log, k, mask);
    CountSkips(log, j + 1, k, mask);
    if j >= 0 {
      ListingIsCounted(log, j, mask);
      assert log[..j + 1][..j] == log[..j];
    }
  }

  lemma CountLast(log: seq<Record>, j: nat, mask: nat)
    requires j < |log|
    ensures CountMatches(log[..j + 1], mask) == CountMatches(log[..j], mask) + if Matches(log[j], mask) then 1 else 0
  {
    assert log[..j + 1][..j] == log[..j];
  }

  lemma {:induction false} CountSkips(log: seq<Record>, lo: nat, hi: nat, mask: nat)
    requires lo <= hi <= |log| && forall i :: lo <= i < hi ==> !Matches(log[i], mask)
    ensures CountMatches(log[..hi], mask) == CountMatches(log[..lo], mask)
    decreases hi
  {
    if lo < hi {
      assert log[..hi][..hi - 1] == log[..hi - 1];
      CountSkips(log, lo, hi - 1, mask);
    }
  }

  /** Every item is long enough to hold a record. */
  ghost predicate AllRecords(log: seq<Record>) {
    forall i :: 0 <= i < |log| ==> |log[i]| >= RECORD_WORDS
  }

  lemma RestIsRecords(log: seq<Record>, k: nat, words: nat)
    requires AllRecords(log) && k <= |log| && words >= RECORD_WORDS
    ensures AllRecords(log[k..]) && AllRecords(log[k..] + [Zeros(words)])
  {
  }

  ghost function Addresses(items: seq<Item>, listing: seq<int>): (r: seq<int>)
    ensures |r| == |listing|
  {
    seq(|listing|, i requires 0 <= i < |listing| => if 0 <= listing[i] < |items| then items[listing[i]].at else NIL)
  }

  /** What a reader that stands at k, or has left the log, will still visit. */
  ghost function Rest(log: seq<Record>, k: int, mask: nat): seq<int>
    requires -1 <= k < |log|
  {
    if k < 0 then [] else [k] + Listing(log, k, mask)
  }

  lemma ReadStep(items: seq<Item>, log: seq<Record>, k: nat, mask: nat, visited: seq<int>, all: seq<int>)
    requires k < |items| == |log| && Addresses(items, all) == visited + Addresses(items, Rest(log, k, mask))
    ensures Addresses(items, all) == (visited + [items[k].at]) + Addresses(items, Rest(log, PrevMatch(log, k, mask), mask))
  {
    var rest := Rest(log, PrevMatch(log, k, mask), mask);
    assert Rest(log, k, mask) == [k] + rest;
    assert Addresses(items, [k] + rest) == [items[k].at] + Addresses(items, rest);
  }

  /** The 16-bit message counter that the logs share. */
  class Counter {
    var value: nat

    constructor ()
      ensures value == 0
    {
      value := 0;
    }
  }

  class Log {
    const queue: CyclicQueue.Queue
    const counter: Counter

    ghost predicate Valid()
      reads this, queue, queue.mem, counter
    {
      && queue.Valid() && queue.H < HALF && counter.value < HALF
      && AllRecords(queue.Payloads())
    }

    /** The records, oldest first. */
    ghost function Records(): seq<Record>
      reads this, queue, queue.mem
    {
      queue.Payloads()
    }

    constructor (words: nat, headerSize: nat, counter: Counter)
      requires 3 <= headerSize < HALF && words < HALF && counter.value < HALF
      ensures Valid() && Records() == [] && queue.mem.Length == words && queue.H == headerSize
      ensures fresh(queue) && fresh(queue.mem)
    {
      queue := new CyclicQueue.Queue(words, headerSize);
      this.counter := counter;
    }

    function Header(date: int, time: int, id: nat, kind: nat, len: nat): seq<int>
      reads counter
    {
      [date, time, id * HALF + counter.value, len * HALF + kind]
    }

    /** A record says when it was appended, what it is of and how long, and a mask finds it exactly by
        its kind. */
    lemma RecordTells(date: int, time: int, id: nat, kind: nat, len: nat, text: seq<int>, mask: nat)
      requires kind < 0x1_0000 && counter.value < 0x1_0000
      ensures var r := Header(date, time, id, kind, len) + text;
              && |r| == 4 + |text| && r[4..] == text && r[0] == date && r[1] == time
              && r[2] % 0x1_0000 == counter.value && r[2] / 0x1_0000 == id && r[3] / 0x1_0000 == len
              && (Matches(r, mask) <==> mask == 0 || exists i: nat :: BothHave(kind, mask, i))
    {
      ShareBitExactly(kind, mask);
    }

    /** The size of an item with so many payload words. */
    function SizeFor(words: nat): nat {
      words + queue.H
    }

    /** The log is what is left of an earlier state after the eviction of k records. */
    ghost predicate Reached(log: seq<Record>, items: seq<Item>, read: int, write: int, k: nat)
      reads this, queue, queue.mem
    {
      && queue.Valid() && queue.H < HALF && k <= |log| == |items|
      && Records() == log[k..] && queue.items == items[k..]
      && (queue.read, queue.write) == RingAfter(items, read, write, k)
    }

    method EvictOne(ghost log: seq<Record>, ghost items: seq<Item>, ghost read: int, ghost write: int, ghost k: nat)
      returns (size: int)
      requires Reached(log, items, read, write, k)
      modifies queue, queue.mem
      ensures (size == 0) == (k == |log|)
      ensures Reached(log, items, read, write, if size == 0 then k else k + 1)
    {
      if k < |items| { assert queue.items[0] == items[k]; }
      size := queue.Dequeue();
      queue.LiveItemsAreApart();
    }

    /** After the eviction of k records an item was asked for; `buffer` is the answer. */
    ghost predicate Tried(buffer: int, words: nat, log: seq<Record>, items: seq<Item>, read: int, write: int, k: nat)
      reads this, queue, queue.mem
    {
      && k <= |log| == |items|
      && NoRoomBefore(items, read, write, queue.mem.Length, SizeFor(words), k)
      && (buffer != NIL) == RoomAfter(items, read, write, queue.mem.Length, SizeFor(words), k)
      && (if buffer == NIL
          then Reached(log, items, read, write, k) && (k == |log| ==> queue.mem.Length < SizeFor(words))
          else queue.Valid() && NewestIs(buffer, words) && Records() == log[k..] + [Zeros(words)])
    }

    method TryEnqueue(words: nat, ghost log: seq<Record>, ghost items: seq<Item>, ghost read: int, ghost write: int, ghost k: nat)
      returns (buffer: int)
      requires Reached(log, items, read, write, k) && words < HALF
      requires NoRoomBefore(items, read, write, queue.mem.Length, SizeFor(words), k)
      modifies queue, queue.mem
      ensures Tried(buffer, words, log, items, read, write, k)
    {
      RoomInEmptyRing(words);
      buffer := queue.Enqueue(words);
      RoomInEmptyRing(words);
    }

    /** One turn of the loop of `_append`, after a refusal: the oldest record goes, if there is one,
        and the item is asked for again, unless it was the last turn. */
    method Retry(words: nat, ghost log: seq<Record>, ghost items: seq<Item>, ghost read: int, ghost write: int, ghost k: nat,
                 cnt: nat)
      returns (buffer: int, dropped: bool)
      requires Tried(NIL, words, log, items, read, write, k) && words < HALF
      modifies queue, queue.mem
      ensures dropped == (k < |log|)
      ensures dropped && cnt > 0 ==> Tried(buffer, words, log, items, read, write, k + 1)
      ensures dropped && cnt == 0 ==> buffer == NIL && Reached(log, items, read, write, k + 1)
                                      && NoRoomBefore(items, read, write, queue.mem.Length, SizeFor(words), k + 1)
      ensures !dropped ==> buffer == NIL && Tried(NIL, words, log, items, read, write, k)
    {
      var size := EvictOne(log, items, read, write, k);
      buffer, dropped := NIL, size != 0;
      if dropped && cnt > 0 {
        buffer := TryEnqueue(words, log, items, read, write, k + 1);
      }
    }

    /** The loop of `_append`: a zeroed item of so many payload words, after the eviction of
        as few records as possible; after 11 of them it gives up. */
    method Reserve(words: nat) returns (buffer: int, ghost evicted: nat)
      requires Valid() && RECORD_WORDS <= words < HALF
      modifies queue, queue.mem
      ensures Valid() && evicted <= |old(Records())| == |old(queue.items)| && evicted <= 11
      ensures NoRoomBefore(old(queue.items), old(queue.read), old(queue.write), queue.mem.Length, SizeFor(words), evicted)
      ensures buffer == NIL ==> Records() == old(Records())[evicted..]
      ensures buffer == NIL ==> evicted == if |old(Records())| < 11 then |old(Records())| else 11
      ensures buffer == NIL && evicted < 11 ==> queue.mem.Length < SizeFor(words)
      ensures buffer != NIL ==> evicted <= 10 && NewestIs(buffer, words)
      ensures buffer != NIL ==> RoomAfter(old(queue.items), old(queue.read), old(queue.write), queue.mem.Length, SizeFor(words), evicted)
      ensures buffer != NIL ==> Records() == old(Records())[evicted..] + [Zeros(words)]
    {
      var cnt := 10;
      evicted := 0;
      ghost var log, items, r, w := Records(), queue.items, queue.read, queue.write;
      buffer := TryEnqueue(words, log, items, r, w, 0);
      while buffer == NIL
        invariant 0 <= cnt <= 10 && evicted == 10 - cnt && queue.H < HALF
        invariant Tried(buffer, words, log, items, r, w, evicted)
        decreases cnt, buffer == NIL
      {
        var dropped;
        buffer, dropped := Retry(words, log, items, r, w, evicted, cnt);
        if !dropped { break; }
        evicted := evicted + 1;
        if cnt == 0 { break; }
        cnt := cnt - 1;
      }
      RestIsRecords(log, evicted, words);
    }

    /** The newest item is at `buffer` and has so many payload words. */
    ghost predicate NewestIs(buffer: int, words: nat)
      reads queue
    {
      && buffer >= 0 && queue.items != [] && queue.items[|queue.items| - 1] == Item(buffer, words + queue.H)
      && words + queue.H <= queue.mem.Length
    }

    /** A drained queue has room for any item no larger than the buffer, and no live item is
        larger than the buffer. */
    lemma RoomInEmptyRing(words: nat)
      requires queue.Valid()
      ensures Records() == [] && words + queue.H <= queue.mem.Length ==> queue.HasRoom(words + queue.H)
      ensures forall i :: 0 <= i < |queue.items| ==> queue.items[i].at + queue.items[i].size <= queue.mem.Length
    {
      queue.LiveItemsAreApart();
      if Records() == [] && words + queue.H <= queue.mem.Length {
        assert FreeSpot(queue.items, queue.read, queue.write, queue.mem.Length, words + queue.H, 0);
      }
    }

    /** `_append`: `text` is the formatted message with its terminator, packed in words. As few
        of the oldest records as possible make way, at most 11, and the log is what is left
        of it, followed by the new record if it was stored. */
    method Append(date: int, time: int, id: nat, kind: nat, len: nat, text: seq<int>)
      returns (stored: bool, ghost evicted: nat)
      requires Valid() && kind < HALF && RECORD_WORDS + |text| < HALF
      modifies counter, queue, queue.mem
      ensures Valid()
      ensures evicted <= |old(Records())| && evicted <= 11
      ensures Records() == old(Records())[evicted..] + if stored then [old(Header(date, time, id, kind, len)) + text] else []
      ensures counter.value == if stored then (old(counter.value) + 1) % HALF else old(counter.value)
      ensures |old(queue.items)| == |old(Records())|
      ensures NoRoomBefore(old(queue.items), old(queue.read), old(queue.write), queue.mem.Length, SizeFor(RECORD_WORDS + |text|), evicted)
      ensures stored ==> evicted <= 10
      ensures stored ==> RoomAfter(old(queue.items), old(queue.read), old(queue.write), queue.mem.Length, SizeFor(RECORD_WORDS + |text|), evicted)
      ensures !stored ==> evicted == if |old(Records())| < 11 then |old(Records())| else 11
      ensures !stored && evicted < 11 ==> queue.mem.Length < SizeFor(RECORD_WORDS + |text|)
    {
      var buffer;
      buffer, evicted := Reserve(RECORD_WORDS + |text|);
      stored := buffer != NIL;
      if stored {
        WriteRecord(buffer, Header(date, time, id, kind, len) + text);
        counter.value := (counter.value + 1) % HALF;
      }
    }

    /** The record goes into the newest item. */
    method WriteRecord(buffer: nat, record: seq<int>)
      requires Valid() && RECORD_WORDS <= |record| && NewestIs(buffer, |record|) && Records() != []
      modifies queue.mem
      ensures Valid() && Records() == old(Records())[..|old(Records())| - 1] + [record]
    {
      ghost var log := Records();
      queue.Store(buffer, |queue.items| - 1, record);
      ghost var log' := Records();
      assert log' == log[|log| - 1 := record];
      forall i | 0 <= i < |log'| ensures |log'[i]| >= RECORD_WORDS { assert i < |log| - 1 ==> log'[i] == log[i]; }
    }

    // ----- Reading the log

    /** The item k is the record k, and it passes the checks of the walks. */
    lemma ItemIsRecord(k: nat)
      requires Valid() && k < |Records()|
      ensures k < |queue.items|
      ensures var item := queue.items[k];
              && item.at + item.size <= queue.mem.Length && queue.H + RECORD_WORDS <= item.size
              && ItemOk(queue.mem[..], queue.next, queue.prev, queue.H, item.at)
              && Records()[k][3] == queue.mem[item.at + queue.H + 3]
    {
      ListOf(queue.mem[..], queue.items, queue.read, queue.write, queue.next, queue.prev, queue.H);
      LiveItemOk(queue.mem[..], queue.items, queue.next, queue.prev, queue.H, k);
      assert |Records()[k]| >= RECORD_WORDS;
    }

    /** The checks of a walk on one item, and the type test. */
    method Examine(it: int, mask: nat, ghost k: nat) returns (ok: bool, found: bool)
      requires Valid() && k < |Records()| && Stands(it, k)
      ensures ok && found == Matches(Records()[k], mask)
      ensures 0 <= it && it + 1 < queue.mem.Length
    {
      ItemIsRecord(k);
      ok := queue.ValidateItem(it);
      found := ok && (mask == 0 || ShareBit(queue.mem[it + queue.H + 3] % HALF, mask));
    }

    /** An iterator position: the address of the item k, or NIL outside the log. */
    ghost predicate Stands(it: int, k: int)
      reads this, queue
    {
      it == AddressAt(k)
    }

    ghost function AddressAt(k: int): int
      reads this, queue
    {
      if 0 <= k < |queue.items| then queue.items[k].at else NIL
    }

    /** The loop of the iterators toward older records, from the item k on. */
    method SeekOlder(from: int, mask: nat, ghost k: int) returns (it: int)
      requires Valid() && -1 <= k < |Records()| && Stands(from, k)
      ensures Stands(it, PrevMatch(Records(), k + 1, mask))
    {
      it := from;
      ghost var j, log := k, Records();
      while it != NIL
        invariant -1 <= j <= k && Stands(it, j)
        invariant PrevMatch(log, k + 1, mask) == PrevMatch(log, j + 1, mask)
        decreases j
      {
        var ok, found := Examine(it, mask, j);
        if !ok { return NIL; }
        if found { return; }
        queue.StepsFrom(j);
        it := queue.Backwards(it);
        j := j - 1;
      }
    }

    /** ... and toward newer records. */
    method SeekNewer(from: int, mask: nat, ghost k: int) returns (it: int)
      requires Valid() && 0 <= k <= |Records()| && Stands(from, k)
      ensures Stands(it, NextMatch(Records(), k, mask))
    {
      it := from;
      ghost var j, log := k, Records();
      while it != NIL
        invariant k <= j <= |log| && Stands(it, j)
        invariant NextMatch(log, k, mask) == NextMatch(log, j, mask)
        decreases |log| - j
      {
        var ok, found := Examine(it, mask, j);
        if !ok { return NIL; }
        if found { return; }
        queue.StepsFrom(j);
        it := queue.Forwards(it);
        j := j + 1;
      }
    }

    /** `mlog_itertor_first`: the newest matching record. */
    method IteratorFirst(mask: nat) returns (it: int)
      requires Valid()
      ensures Stands(it, PrevMatch(Records(), |Records()|, mask))
    {
      queue.EndsOfQueue();
      it := SeekOlder(queue.Front(), mask, |queue.items| - 1);
    }

    /** `mlog_itertor_prev`: the next older matching record. */
    method IteratorPrev(at: nat, mask: nat, ghost k: nat) returns (it: int)
      requires Valid() && k < |Records()| && Stands(at, k)
      ensures Stands(it, PrevMatch(Records(), k, mask))
    {
      queue.StepsFrom(k);
      it := SeekOlder(queue.Backwards(at), mask, k - 1);
    }

    /** One step of a reader at the record k. */
    method ReadOlder(at: nat, mask: nat, ghost k: nat, ghost log: seq<Record>, ghost items: seq<Item>) returns (it: int)
      requires Valid() && log == Records() && items == queue.items && k < |log| && Stands(at, k)
      ensures Valid() && log == Records() && items == queue.items
      ensures Stands(it, PrevMatch(log, k, mask))
    {
      it := IteratorPrev(at, mask, k);
    }

    /** The walk of a reader: from `mlog_itertor_first` by `mlog_itertor_prev` to the end. */
    method ReadBackwards(mask: nat) returns (visited: seq<int>)
      requires Valid()
      ensures visited == Addresses(queue.items, Listing(Records(), |Records()|, mask))
    {
      ghost var log, items := Records(), queue.items;
      ghost var all := Listing(log, |log|, mask);
      visited := [];
      var it := IteratorFirst(mask);
      ghost var k := PrevMatch(log, |log|, mask);
      while it != NIL
        invariant Valid() && log == Records() && items == queue.items
        invariant -1 <= k < |log| && Stands(it, k)
        invariant Addresses(items, all) == visited + Addresses(items, Rest(log, k, mask))
        decreases k
      {
        ItemIsRecord(k);
        ReadStep(items, log, k, mask, visited, all);
        visited := visited + [it];
        it := ReadOlder(it, mask, k, log, items);
        k := PrevMatch(log, k, mask);
      }
    }

    /** `mlog_itertor_last`: the oldest matching record. */
    method IteratorLast(mask: nat) returns (it: int)
      requires Valid()
      ensures Stands(it, NextMatch(Records(), 0, mask))
    {
      queue.EndsOfQueue();
      it := SeekNewer(queue.Back(), mask, 0);
    }

    /** `mlog_itertor_next`: the next newer matching record. */
    method IteratorNext(at: nat, mask: nat, ghost k: nat) returns (it: int)
      requires Valid() && k < |Records()| && Stands(at, k)
      ensures Stands(it, NextMatch(Records(), k + 1, mask))
    {
      queue.StepsFrom(k);
      it := SeekNewer(queue.Forwards(at), mask, k + 1);
    }

    /** `mlog_count`. */
    method CountOf(mask: nat) returns (n: nat)
      requires Valid()
      ensures n == CountMatches(Records(), mask) == |Listing(Records(), |Records()|, mask)|
    {
      n := 0;
      var it := queue.Front();
      queue.EndsOfQueue();
      ghost var j, log := |Records()| - 1, Records();
      assert log[..|log|] == log;
      while it != NIL
        invariant -1 <= j < |log| && Stands(it, j)
        invariant n + CountMatches(log[..j + 1], mask) == CountMatches(log, mask)
        decreases j
      {
        var ok, found := Examine(it, mask, j);
        if !ok { break; }
        CountLast(log, j, mask);
        if found { n := n + 1; }
        queue.StepsFrom(j);
        it := queue.Backwards(it);
        j := j - 1;
      }
      ListingIsCounted(log, |log|, mask);
    }

    /** `mlog_get`: the record with so many newer ones after it. */
    method Get(idx: nat) returns (it: int)
      requires Valid()
      ensures Stands(it, |Records()| - 1 - idx)
    {
      it := queue.Front();
      queue.EndsOfQueue();
      ghost var j := |Records()| - 1;
      var left := idx;
      while left > 0 && it != NIL
        invariant 0 <= left <= idx && -1 <= j < |Records()| == |queue.items| && Stands(it, j)
        invariant j - left == |Records()| - 1 - idx
        decreases left
      {
        left := left - 1;
        queue.StepsFrom(j);
        it := queue.Backwards(it);
        j := j - 1;
      }
    }
  }
}
