/**
 The cyclic queue (src/common/cbuffer.c): variable-size items carved out of a ring of
 words, none split at the end of the buffer, with a doubly linked list through their
 headers. The ghost state lists the live items from the oldest to the newest.
 */
module CyclicQueue {
  import opened CyclicQueueSpec
  import opened CyclicQueueCheck

  class Queue {
    const H: nat  // words of an item header
    const mem: array<int>
    var next: int
    var prev: int
    var count: nat
    var magic: int
    var write: int
    var read: int
    var start: int
    var end: int

    ghost var items: seq<Item>

    ghost predicate Valid()
      reads this, mem
    {
      && mem.Length < HALF && start == 0 && end == mem.Length && magic == MAGIC && count == |items|
      && Consistent(mem[..], items, read, write, next, prev, H)
    }

    /** The payloads of the live items, oldest first. */
    ghost function Payloads(): seq<seq<int>>
      reads this, mem
    {
      Contents(mem[..], items, H)
    }

    /** Whether there is a spot for an item of `size` words, header included. */
    ghost predicate HasRoom(size: nat)
      reads this
    {
      Room(items, read, write, mem.Length, size)
    }

    constructor (words: nat, headerSize: nat)
      requires 3 <= headerSize && words < HALF
      ensures Valid() && items == [] && H == headerSize && mem.Length == words && fresh(mem)
    {
      H := headerSize;
      mem := new int[words];
      next, prev, count, magic, read, write, start, end := CQ, CQ, 0, 0, 0, 0, 0, 0;
      items := [];
      new;
      Init();
    }

    /** `cqueue_init`, on memory in any state. */
    method Init()
      requires 3 <= H && mem.Length < HALF
      modifies this, mem
      ensures Valid() && items == []
      ensures forall j :: 0 <= j < mem.Length ==> mem[j] == FILL
    {
      start, end := 0, mem.Length;
      write, read := start, start;
      Fill(0, mem.Length, FILL);
      next, prev := CQ, CQ;
      count := 0;
      magic := MAGIC;
      items := [];
      assert Good(mem[..], items, 0, read, write, next, prev, H);
    }

    /** `memset` by words. */
    method Fill(lo: nat, hi: nat, word: int)
      requires lo <= hi <= mem.Length
      modifies mem
      ensures FilledWith(old(mem[..]), mem[..], lo, hi, word)
    {
      for j := lo to hi
        invariant FilledWith(old(mem[..]), mem[..], lo, j, word)
      {
        mem[j] := word;
      }
    }

    /** `cbuffer_alloc`: a zeroed block, or NIL. */
    method Alloc(size: nat) returns (p: int)
      requires 0 <= read <= mem.Length && 0 <= write <= mem.Length && start == 0 && end == mem.Length
      requires size > 0
      modifies this`write, mem
      ensures p == Place(read, old(write), mem.Length, size)
      ensures p == NIL ==> write == old(write) && mem[..] == old(mem[..])
      ensures p != NIL ==> 0 <= p && write == p + size <= mem.Length
      ensures p != NIL ==> FilledWith(old(mem[..]), mem[..], p, p + size, 0)
    {
      if write >= read {
        if end - write >= size {
          p := write;
          write := write + size;
        } else if read - start > size {
          p := start;
          write := start + size;
        } else {
          p := NIL;
        }
      } else {
        if read - write > size {
          p := write;
          write := write + size;
        } else {
          p := NIL;
        }
      }
      if p != NIL {
        Fill(p, p + size, 0);
      }
    }

    /** `cbuffer_free`: fills what is released and the slack at the end, and resets an
        empty ring. */
    method Free(to: int)
      requires 0 <= read <= mem.Length && 0 <= write <= mem.Length && start == 0 && end == mem.Length
      requires 0 <= to <= mem.Length
      modifies this`read, this`write, mem
      ensures to == old(write) ==> read == write == 0
      ensures to != old(write) ==> read == to && write == old(write)
      ensures forall j :: 0 <= j < mem.Length ==>
        mem[j] == if (if to >= old(read) then old(read) <= j < to else old(write) <= j || j < to) then FILL else old(mem[j])
    {
      if to >= read {
        Fill(read, to, FILL);
      } else {
        Fill(write, end, FILL);
        Fill(start, to, FILL);
      }
      read := to;
      if read == write {
        write := start;
        read := start;
      }
    }

    /** `cqueue_enqueue`: a zeroed item of `dwsize` payload words becomes the newest, if and
        only if there is room; otherwise nothing changes. Other payloads stay as they are. */
    method Enqueue(dwsize: nat) returns (item: int)
      requires magic == MAGIC ==> Valid()
      requires dwsize + H < 0x8000_0000
      modifies this, mem
      ensures old(magic) != MAGIC ==> item == NIL && unchanged(this) && unchanged(mem)
      ensures old(magic) == MAGIC ==> Valid()
      ensures old(magic) == MAGIC ==> (item != NIL <==> old(HasRoom(dwsize + H)))
      ensures item == NIL ==> items == old(items) && Payloads() == old(Payloads()) && read == old(read) && write == old(write)
      ensures item != NIL ==> item >= 0 && items == old(items) + [Item(item, dwsize + H)]
      ensures item != NIL ==> Payloads() == old(Payloads()) + [Zeros(dwsize)]
    {
      if magic != MAGIC { return NIL; }
      var s := dwsize + H;
      ghost var m, items0, next0, prev0, write0 := mem[..], items, next, prev, write;
      PlaceIffRoom(m, items, read, write, next, prev, H, s);
      if Place(read, write, mem.Length, s) != NIL { PlaceFacts(m, items, read, write, next, prev, H, s); }
      item := Alloc(s);
      if item != NIL {
        LinkNewest(item, s, m);
        EnqueueSealed(m, items0, next0, prev0, write0, item, s);
      }
    }

    /** The header of a new item and the links to it from the newest item or the queue. */
    method LinkNewest(item: nat, size: nat, ghost m: seq<int>)
      requires size > 2 && item + size <= mem.Length && FilledWith(m, mem[..], item, item + size, 0)
      requires prev == CQ || (0 <= prev < mem.Length && !(item <= prev < item + size))
      modifies this`next, this`prev, this`count, this`items, mem
      ensures prev == item && next == if old(prev) == CQ then item else old(next)
      ensures count == old(count) + 1 && items == old(items) + [Item(item, size)]
      ensures Enqueued(m, mem[..], item, size, old(prev))
    {
      items := items + [Item(item, size)];
      count := count + 1;
      mem[item] := CQ;
      mem[item + 1] := prev;
      if prev == CQ { next := item; } else { mem[prev] := item; }
      prev := item;
      mem[item + 2] := Desc(size, MAGIC);
    }

    /** The state after an item was linked, from the state before. */
    lemma EnqueueSealed(m: seq<int>, items0: seq<Item>, next0: int, prev0: int, write0: int, p: nat, size: nat)
      requires Consistent(m, items0, read, write0, next0, prev0, H) && H <= size
      requires p == Place(read, write0, |m|, size) && Enqueued(m, mem[..], p, size, prev0)
      requires mem.Length < HALF && start == 0 && end == mem.Length && magic == MAGIC && count == |items0| + 1
      requires items == items0 + [Item(p, size)] && write == p + size
      requires next == (if prev0 == CQ then p else next0) && prev == p
      ensures Valid() && Payloads() == Contents(m, items0, H) + [Zeros(size - H)]
    {
      EnqueueConsistent(m, mem[..], items0, read, write0, next0, prev0, H, p, size);
    }

    /** `cqueue_dequeue`: releases the oldest item and returns its size, header included;
        0 if there is none. */
    method Dequeue() returns (s: int)
      requires magic == MAGIC ==> Valid()
      modifies this, mem
      ensures old(magic) != MAGIC ==> s == 0 && unchanged(this) && unchanged(mem)
      ensures old(magic) == MAGIC ==> Valid()
      ensures old(items) == [] ==> s == 0 && items == [] && mem[..] == old(mem[..])
      ensures old(magic) == MAGIC && old(items) != [] ==> s == old(items)[0].size && items == old(items)[1..]
      ensures old(magic) == MAGIC && old(items) != [] ==> Payloads() == old(Payloads())[1..]
      ensures old(magic) == MAGIC && old(items) != [] ==> (read, write) == RingAfter(old(items), old(read), old(write), 1)
      ensures old(items) == [] ==> read == old(read) && write == old(write)
    {
      if magic != MAGIC { return 0; }
      if next != CQ {
        s := DequeueOldest();
      } else {
        s := 0;
      }
    }

    method DequeueOldest() returns (s: int)
      requires Valid() && items != []
      modifies this, mem
      ensures Valid() && magic == old(magic)
      ensures s == old(items)[0].size && items == old(items)[1..]
      ensures Payloads() == old(Payloads())[1..]
      ensures (read, write) == RingAfter(old(items), old(read), old(write), 1)
    {
      ghost var m, items0, next0, prev0, read0, write0 := mem[..], items, next, prev, read, write;
      OldestFacts(m, items, read, write, next, prev, H);
      s := ReleaseOldest();
      DequeueSealed(m, items0, next0, prev0, read0, write0);
    }

    /** The state after an item was released, from the state before. */
    lemma DequeueSealed(m: seq<int>, items0: seq<Item>, next0: int, prev0: int, read0: int, write0: int)
      requires Consistent(m, items0, read0, write0, next0, prev0, H) && items0 != []
      requires mem.Length < HALF && start == 0 && end == mem.Length && magic == MAGIC && count == |items0| - 1
      requires items == items0[1..] && next == AddrAt(items0, 1) && prev == if |items0| == 1 then CQ else prev0
      requires var to := items0[0].at + items0[0].size;
               && Dequeued(m, mem[..], items0, to, read0, write0)
               && read == (if to == write0 then 0 else to) && write == (if to == write0 then 0 else write0)
      ensures Valid() && Payloads() == Contents(m, items0, H)[1..]
    {
      DequeueConsistent(m, mem[..], items0, read0, write0, next0, prev0, H);
    }

    /** Unlinks and releases the oldest item. */
    method ReleaseOldest() returns (s: int)
      requires items != [] && items[0].size < HALF && 0 <= read <= mem.Length && 0 <= write <= mem.Length
      requires start == 0 && end == mem.Length && items[0].at + items[0].size <= mem.Length && count > 0
      requires next == items[0].at && next + 2 < mem.Length && (|items| > 1 ==> items[1].at + 1 < mem.Length)
      requires mem[next] == AddrAt(items, 1) && mem[next + 2] == Desc(items[0].size, MAGIC)
      requires |items| > 1 ==> items[1].at + 1 != next + 2
      requires Filled(next + 2, items[0].at + items[0].size, read, write)
      modifies this`next, this`prev, this`read, this`write, this`count, this`items, mem
      ensures s == old(items)[0].size && count == old(count) - 1 && items == old(items)[1..]
      ensures next == AddrAt(old(items), 1) && prev == if |old(items)| == 1 then CQ else old(prev)
      ensures var to := old(items)[0].at + old(items)[0].size;
              && Dequeued(old(mem[..]), mem[..], old(items), to, old(read), old(write))
              && read == (if to == old(write) then 0 else to) && write == (if to == old(write) then 0 else old(write))
    {
      var item := next;
      s := UnlinkOldest();
      items := items[1..];
      count := count - 1;
      Free(item + s);
    }

    /** The next oldest becomes the oldest; the unlinked item loses its magic. */
    method UnlinkOldest() returns (s: int)
      requires items != [] && items[0].size < HALF
      requires next == items[0].at && next + 2 < mem.Length && (|items| > 1 ==> items[1].at + 1 < mem.Length)
      requires mem[next] == AddrAt(items, 1) && mem[next + 2] == Desc(items[0].size, MAGIC)
      requires |items| > 1 ==> items[1].at + 1 != next + 2
      modifies this`next, this`prev, mem
      ensures s == items[0].size
      ensures next == AddrAt(items, 1) && prev == if |items| == 1 then CQ else old(prev)
      ensures forall j :: 0 <= j < mem.Length && j != items[0].at + 2 ==>
        mem[j] == if |items| > 1 && j == items[1].at + 1 then CQ else old(mem[j])
    {
      var item := next;
      next := mem[item];
      if next == CQ { prev := CQ; } else { mem[next + 1] := CQ; }
      DescParts(items[0].size, MAGIC);
      s := SizeOf(mem[item + 2]);
      mem[item + 2] := Desc(s, 0);
    }

    // ----- Payloads

    /** What a caller writes through the data pointer of a live item. */
    method Store(item: nat, ghost k: nat, data: seq<int>)
      requires Valid() && k < |items| && items[k].at == item && items[k].size == H + |data|
      modifies mem
      ensures Valid() && Payloads() == old(Payloads())[k := data]
    {
      ghost var m := mem[..];
      ListOf(m, items, read, write, next, prev, H);
      Write(item + H, data);
      ghost var m' := mem[..];
      StoreConsistent(m, m', items, read, write, next, prev, H, k);
      assert m'[item + H..item + H + |data|] == data;
    }

    method Write(at: nat, data: seq<int>)
      requires at + |data| <= mem.Length
      modifies mem
      ensures forall j :: 0 <= j < mem.Length ==> mem[j] == if at <= j < at + |data| then data[j - at] else old(mem[j])
    {
      for j := 0 to |data|
        invariant forall i :: 0 <= i < mem.Length ==> mem[i] == if at <= i < at + j then data[i - at] else old(mem[i])
      {
        mem[at + j] := data[j];
      }
    }

    // ----- Walking the list

    /** `cqueue_front`: the newest item, or NIL. */
    function Front(): int
      reads this
    {
      if magic != MAGIC then NIL else if next != CQ then prev else NIL
    }

    /** `cqueue_back`: the oldest item, or NIL. */
    function Back(): int
      reads this
    {
      if magic != MAGIC then NIL else if next != CQ then next else NIL
    }

    function Forwards(item: nat): int
      requires item < mem.Length
      reads mem
    {
      if mem[item] == CQ then NIL else mem[item]
    }

    function Backwards(item: nat): int
      requires item + 1 < mem.Length
      reads mem
    {
      if mem[item + 1] == CQ then NIL else mem[item + 1]
    }

    /** Front is the newest live item and Back the oldest. */
    lemma EndsOfQueue()
      requires Valid()
      ensures Front() == if items == [] then NIL else items[|items| - 1].at
      ensures Back() == if items == [] then NIL else items[0].at
    {
      ListOf(mem[..], items, read, write, next, prev, H);
    }

    /** Forwards leads from a live item to the next newer one, Backwards to the next older. */
    lemma StepsFrom(k: nat)
      requires Valid() && k < |items|
      ensures items[k].at + 1 < mem.Length
      ensures Forwards(items[k].at) == if k + 1 < |items| then items[k + 1].at else NIL
      ensures Backwards(items[k].at) == if k > 0 then items[k - 1].at else NIL
    {
      ListOf(mem[..], items, read, write, next, prev, H);
      assert HeaderAt(mem[..], items, k);
    }

    /** No two live items share a word, and read and write meet only in an empty ring, at
        its start. */
    lemma LiveItemsAreApart()
      requires Valid()
      ensures forall i, j :: 0 <= i < j < |items| ==> ApartAt(items, i, j)
      ensures forall i :: 0 <= i < |items| ==> items[i].at + items[i].size <= mem.Length
      ensures items == [] <==> read == write
      ensures items == [] ==> read == write == start
    {
      var split: nat :| Good(mem[..], items, split, read, write, next, prev, H);
      LayoutSeparate(items, split, read, write, mem.Length, H);
      EmptyLayout(items, split, read, write, mem.Length, H);
    }

    // ----- Validation

    /** `cqueue_validate_item`: NIL stands for the null pointer. */
    method ValidateItem(item: int) returns (ok: bool)
      requires H >= 3 && start == 0 && end == mem.Length
      ensures ok == ItemOk(mem[..], next, prev, H, item)
    {
      if item == NIL { return false; }
      if item < start || item + H > end { return false; }
      if MagicOf(mem[item + 2]) != MAGIC { return false; }
      var size := SizeOf(mem[item + 2]);
      if size < H || size > end - start { return false; }
      if item + size > end { return false; }
      var n, p := mem[item], mem[item + 1];
      if n == item || p == item { return false; }
      if n != CQ {
        if n < start || n + H > end { return false; }
        if mem[n + 1] != item { return false; }
      } else if prev != item {
        return false;
      }
      if p != CQ {
        if p < start || p + H > end { return false; }
        if mem[p] != item { return false; }
      } else if next != item {
        return false;
      }
      return true;
    }

    /** The loop of `cqueue_validate` from the newest item to the oldest. */
    method ValidateBackwards(dwsize: nat) returns (ok: bool, n: nat, ghost w: seq<int>)
      requires H >= 3 && start == 0 && end == mem.Length == dwsize && dwsize < HALF && magic == MAGIC && (next != CQ ==> prev != NIL)
      ensures ok && next == CQ ==> n == 0
      ensures ok && next != CQ ==> n == |w| && Complete(mem[..], next, prev, H, w, prev, 1)
      ensures Consistent(mem[..], items, read, write, next, prev, H) ==> ok && n == |items|
    {
      n, ok, w := 0, true, [];
      ghost var m := mem[..];
      var i := Front();
      while i != NIL
        invariant n == |w| <= dwsize && ok && Walk(m, next, prev, H, w, prev, 1)
        invariant next == CQ ==> w == [] && i == NIL
        invariant next != CQ ==> var a := At(m, w, prev, 1, |w|); i == if a == CQ && w != [] then NIL else a
        decreases dwsize - n
      {
        if Consistent(m, items, read, write, next, prev, H) {
          WalkGoesOn(m, items, read, write, next, prev, H, w, prev, 1);
        }
        if n >= dwsize { return false, n, w; }
        var good := ValidateItem(i);
        if !good { return false, n, w; }
        WalkSteps(m, next, prev, H, w, prev, 1, i);
        w := w + [i];
        n := n + 1;
        i := Backwards(i);
      }
      if w != [] {
        assert Met(m, next, prev, H, w, prev, 1, |w| - 1);
        LinksOf(m, next, prev, H, w[|w| - 1]);
      }
      if Consistent(m, items, read, write, next, prev, H) {
        WalkGoesOn(m, items, read, write, next, prev, H, w, prev, 1);
      }
    }

    /** The loop of `cqueue_validate` from the oldest item to the newest, which counts in
        the queue's own `count`. */
    method ValidateForwards(dwsize: nat) returns (ok: bool, ghost w: seq<int>)
      requires H >= 3 && start == 0 && end == mem.Length == dwsize && dwsize < HALF && magic == MAGIC
      requires next != NIL
      modifies this`count
      ensures ok && next == CQ ==> count == 0
      ensures ok && next != CQ ==> count == |w| && Complete(mem[..], next, prev, H, w, next, 0)
      ensures Consistent(mem[..], items, read, write, next, prev, H) ==> ok && count == |items|
    {
      count := 0;
      ok, w := true, [];
      ghost var m := mem[..];
      var i := Back();
      while i != NIL
        invariant count == |w| <= dwsize && ok && Walk(m, next, prev, H, w, next, 0)
        invariant next == CQ ==> w == [] && i == NIL
        invariant next != CQ ==> var a := At(m, w, next, 0, |w|); i == if a == CQ && w != [] then NIL else a
        decreases dwsize - count
      {
        if Consistent(m, items, read, write, next, prev, H) {
          WalkGoesOn(m, items, read, write, next, prev, H, w, next, 0);
        }
        if count >= dwsize { return false, w; }
        var good := ValidateItem(i);
        if !good { return false, w; }
        WalkSteps(m, next, prev, H, w, next, 0, i);
        w := w + [i];
        count := count + 1;
        i := Forwards(i);
      }
      if w != [] {
        assert Met(m, next, prev, H, w, next, 0, |w| - 1);
        LinksOf(m, next, prev, H, w[|w| - 1]);
      }
      if Consistent(m, items, read, write, next, prev, H) {
        WalkGoesOn(m, items, read, write, next, prev, H, w, next, 0);
      }
    }

    /** `cqueue_validate`, on memory in any state; the queue claims a buffer of `dwsize` words
        at `start`. Sound: a queue that passes and does not point to itself is a doubly
        linked list of `count` distinct well-formed items, read the same in both directions.
        Complete: every queue in a valid state passes and keeps its count. */
    method Validate(dwsize: nat) returns (res: int)
      requires H >= 3 && mem.Length == dwsize && dwsize < HALF
      modifies this`count
      ensures res == 0 || res == 1
      ensures res == 1 && next != CQ ==> exists w :: |w| == count && SoundList(mem[..], next, prev, H, w)
      ensures res == 1 && next == CQ ==> count == 0
      ensures res == 1 ==> magic == MAGIC && start == 0 && end == dwsize && 0 <= read <= end && 0 <= write <= end
      ensures old(Valid()) ==> res == 1 && count == old(count) && Valid()
    {
      if old(Valid()) {
        ListOf(mem[..], items, read, write, next, prev, H);
        ghost var split: nat :| Good(mem[..], items, split, read, write, next, prev, H);
      }
      if magic != MAGIC { return 0; }
      if start != 0 { return 0; }
      if end != dwsize { return 0; }
      if read > end || read < start { return 0; }
      if write > end || write < start { return 0; }
      if next != CQ {
        if next >= end || next < start { return 0; }
      }
      if prev != CQ {
        if prev >= end || prev < start { return 0; }
      }
      var ok, n, b := ValidateBackwards(dwsize);
      if !ok { return 0; }
      ghost var f;
      ok, f := ValidateForwards(dwsize);
      if !ok || count != n {
        count := 0;
        return 0;
      }
      if next != CQ { EqualWalksAreSound(mem[..], next, prev, H, f, b); }
      return 1;
    }
  }
}
