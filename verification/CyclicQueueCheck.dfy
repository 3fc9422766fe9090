/**
 The validator of the cyclic queue (src/common/cbuffer.c), which runs over memory that
 survived a reset: walks in both directions over words of any content.
 */
module CyclicQueueCheck {
  import opened Common
  import opened CyclicQueueSpec

  /** `cqueue_validate_item`. */
  predicate ItemOk(m: seq<int>, next: int, prev: int, H: nat, item: int)
    requires H >= 3
  {
    && 0 <= item && item + H <= |m|
    && MagicOf(m[item + 2]) == MAGIC
    && H <= SizeOf(m[item + 2]) <= |m| && item + SizeOf(m[item + 2]) <= |m|
    && m[item] != item && m[item + 1] != item
    && (if m[item] != CQ then 0 <= m[item] && m[item] + H <= |m| && m[m[item] + 1] == item else prev == item)
    && (if m[item + 1] != CQ then 0 <= m[item + 1] && m[item + 1] + H <= |m| && m[m[item + 1]] == item else next == item)
  }

  /** The word at an address, or NIL outside the buffer. */
  function Word(m: seq<int>, a: int): int {
    if 0 <= a < |m| then m[a] else NIL
  }

  /** What comes after the first i items of a walk from `first`: the `link` word of the
      last of them (0 is next, 1 is prev). */
  function At(m: seq<int>, w: seq<int>, first: int, link: nat, i: nat): int
    requires i <= |w|
  {
    if i == 0 then first else Word(m, w[i - 1] + link)
  }

  ghost predicate Met(m: seq<int>, next: int, prev: int, H: nat, w: seq<int>, first: int, link: nat, i: nat)
    requires H >= 3 && i < |w|
  {
    ItemOk(m, next, prev, H, w[i]) && w[i] == At(m, w, first, link, i)
  }

  /** The items w, all well formed, are met in this order from `first` along the links. */
  ghost predicate Walk(m: seq<int>, next: int, prev: int, H: nat, w: seq<int>, first: int, link: nat)
    requires H >= 3
  {
    forall i :: 0 <= i < |w| ==> Met(m, next, prev, H, w, first, link, i)
  }

  /** ... and after the last of them comes the queue itself. */
  ghost predicate Complete(m: seq<int>, next: int, prev: int, H: nat, w: seq<int>, first: int, link: nat)
    requires H >= 3
  {
    Walk(m, next, prev, H, w, first, link) && At(m, w, first, link, |w|) == CQ
  }

  function Reversed(w: seq<int>): seq<int> {
    seq(|w|, i requires 0 <= i < |w| => w[|w| - 1 - i])
  }

  /** What a positive answer on a queue that claims to hold items means: the items are a
      doubly linked list of distinct well-formed items, the same in both directions. */
  ghost predicate SoundList(m: seq<int>, next: int, prev: int, H: nat, w: seq<int>)
    requires H >= 3
  {
    && Complete(m, next, prev, H, w, next, 0)
    && Complete(m, next, prev, H, Reversed(w), prev, 1)
    && Distinct(w)
  }

  // ----- Soundness

  /** What the checks of an item say of its two links. */
  lemma LinksOf(m: seq<int>, next: int, prev: int, H: nat, item: int)
    requires H >= 3 && ItemOk(m, next, prev, H, item)
    ensures Word(m, item) == CQ ==> prev == item
    ensures Word(m, item) != CQ ==> Word(m, Word(m, item) + 1) == item
    ensures Word(m, item) != NIL && Word(m, item + 1) != NIL
  {
  }

  /** A complete forward walk is read backwards from the queue's own `prev`. */
  lemma {:induction false} ForwardIsReversible(m: seq<int>, next: int, prev: int, H: nat, f: seq<int>, b: seq<int>, i: nat)
    requires H >= 3 && i < |f| && i < |b|
    requires Complete(m, next, prev, H, f, next, 0) && Walk(m, next, prev, H, b, prev, 1)
    ensures b[i] == f[|f| - 1 - i]
  {
    var k := |f| - 1 - i;
    assert Met(m, next, prev, H, f, next, 0, k) && Met(m, next, prev, H, b, prev, 1, i);
    LinksOf(m, next, prev, H, f[k]);
    if i > 0 {
      ForwardIsReversible(m, next, prev, H, f, b, i - 1);
      assert Met(m, next, prev, H, f, next, 0, k + 1);
    }
  }

  /** On a complete walk no item can come twice: the walk would go round for ever. */
  lemma {:induction false} CompleteWalkIsDistinct(m: seq<int>, next: int, prev: int, H: nat, f: seq<int>, i: nat, j: nat)
    requires H >= 3 && i < j < |f| && Complete(m, next, prev, H, f, next, 0)
    ensures f[i] != f[j]
    decreases |f| - j
  {
    assert Met(m, next, prev, H, f, next, 0, i + 1);
    ItemIsNotQueue(m, next, prev, H, f[i + 1]);
    if j + 1 < |f| {
      assert Met(m, next, prev, H, f, next, 0, j + 1);
      CompleteWalkIsDistinct(m, next, prev, H, f, i + 1, j + 1);
    }
  }

  lemma ItemIsNotQueue(m: seq<int>, next: int, prev: int, H: nat, item: int)
    requires H >= 3 && ItemOk(m, next, prev, H, item)
    ensures item != CQ && item >= 0
  {
  }

  /** Two complete walks of equal length mean a sound list. */
  lemma EqualWalksAreSound(m: seq<int>, next: int, prev: int, H: nat, f: seq<int>, b: seq<int>)
    requires H >= 3 && |f| == |b|
    requires Complete(m, next, prev, H, f, next, 0) && Complete(m, next, prev, H, b, prev, 1)
    ensures SoundList(m, next, prev, H, f)
  {
    forall i | 0 <= i < |f| ensures b[i] == Reversed(f)[i] {
      ForwardIsReversible(m, next, prev, H, f, b, i);
    }
    assert b == Reversed(f);
    forall i, j | 0 <= i < j < |f| ensures f[i] != f[j] {
      CompleteWalkIsDistinct(m, next, prev, H, f, i, j);
    }
  }

  // ----- Completeness

  lemma {:induction false} ChainedCount(items: seq<Item>, from: nat, H: nat)
    requires Chained(items, from, H) && H >= 1
    ensures EndOf(items, from) >= from + |items|
  {
    if items != [] {
      var last := |items| - 1;
      ChainedPrefix(items, from, H, last);
      ChainedCount(items[..last], from, H);
      if last > 0 { assert Follows(items, last); }
    }
  }

  /** The buffer has at least one word for each item. */
  lemma ItemsFit(m: seq<int>, items: seq<Item>, read: int, write: int, next: int, prev: int, H: nat)
    requires Consistent(m, items, read, write, next, prev, H)
    ensures |items| <= |m|
  {
    var split: nat :| Good(m, items, split, read, write, next, prev, H);
    if read <= write {
      ChainedCount(items, read, H);
    } else {
      ChainedCount(items[..split], read, H);
      ChainedCount(items[split..], 0, H);
    }
  }

  lemma ListOf(m: seq<int>, items: seq<Item>, read: int, write: int, next: int, prev: int, H: nat)
    requires Consistent(m, items, read, write, next, prev, H)
    ensures H >= 3 && Linked(m, items, next, prev) && Separate(items, |m|, H)
  {
    var split: nat :| Good(m, items, split, read, write, next, prev, H);
    LayoutSeparate(items, split, read, write, |m|, H);
  }

  /** Every live item passes the checks. */
  lemma LiveItemOk(m: seq<int>, items: seq<Item>, next: int, prev: int, H: nat, i: nat)
    requires H >= 3 && Linked(m, items, next, prev) && Separate(items, |m|, H) && |m| < HALF && i < |items|
    ensures ItemOk(m, next, prev, H, items[i].at)
  {
    assert HeaderAt(m, items, i);
    DescParts(items[i].size, MAGIC);
    if i > 0 { assert HeaderAt(m, items, i - 1) && ApartAt(items, i - 1, i); }
    if i + 1 < |items| { assert HeaderAt(m, items, i + 1) && ApartAt(items, i, i + 1); }
  }

  /** The live item that comes k-th in a walk along the links. */
  function LiveAt(items: seq<Item>, link: nat, k: nat): int {
    AddrAt(items, if link == 0 then k else |items| - 1 - k)
  }

  lemma LiveLink(m: seq<int>, items: seq<Item>, next: int, prev: int, link: nat, k: nat)
    requires Linked(m, items, next, prev) && link <= 1 && k < |items|
    ensures LiveAt(items, link, k) >= 0 && Word(m, LiveAt(items, link, k) + link) == LiveAt(items, link, k + 1)
  {
    assert HeaderAt(m, items, if link == 0 then k else |items| - 1 - k);
  }

  /** On a consistent queue every walk meets the live items in their order. */
  lemma {:induction false} WalkIsQueueOrder(m: seq<int>, items: seq<Item>, next: int, prev: int, H: nat,
                                            w: seq<int>, first: int, link: nat, n: nat)
    requires H >= 3 && Linked(m, items, next, prev) && n <= |w|
    requires (link == 0 && first == next) || (link == 1 && first == prev)
    requires Walk(m, next, prev, H, w, first, link)
    ensures n <= |items| && At(m, w, first, link, n) == LiveAt(items, link, n)
    ensures n > 0 ==> w[n - 1] == LiveAt(items, link, n - 1)
  {
    if n > 0 {
      WalkIsQueueOrder(m, items, next, prev, H, w, first, link, n - 1);
      assert Met(m, next, prev, H, w, first, link, n - 1);
      ItemIsNotQueue(m, next, prev, H, w[n - 1]);
      LiveLink(m, items, next, prev, link, n - 1);
    }
  }

  lemma WalkSteps(m: seq<int>, next: int, prev: int, H: nat, w: seq<int>, first: int, link: nat, item: int)
    requires H >= 3 && Walk(m, next, prev, H, w, first, link)
    requires item == At(m, w, first, link, |w|) && ItemOk(m, next, prev, H, item)
    ensures Walk(m, next, prev, H, w + [item], first, link)
  {
    forall i | 0 <= i < |w| + 1 ensures Met(m, next, prev, H, w + [item], first, link, i) {
      if i < |w| { assert Met(m, next, prev, H, w, first, link, i); }
    }
  }

  /** On a consistent queue a walk can always go on until the last item: nothing in its way
      fails the checks or exceeds the length of the buffer. */
  lemma WalkGoesOn(m: seq<int>, items: seq<Item>, read: int, write: int, next: int, prev: int, H: nat,
                   w: seq<int>, first: int, link: nat)
    requires Consistent(m, items, read, write, next, prev, H) && |m| < HALF
    requires (link == 0 && first == next) || (link == 1 && first == prev)
    requires H >= 3 && Walk(m, next, prev, H, w, first, link)
    ensures var item := At(m, w, first, link, |w|);
            if item == CQ then |w| == |items| else |w| < |m| && ItemOk(m, next, prev, H, item)
  {
    ListOf(m, items, read, write, next, prev, H);
    WalkIsQueueOrder(m, items, next, prev, H, w, first, link, |w|);
    ItemsFit(m, items, read, write, next, prev, H);
    if |w| < |items| {
      LiveItemOk(m, items, next, prev, H, if link == 0 then |w| else |items| - 1 - |w|);
    }
  }

  // ----- What a sound list is, in words of the memory

  lemma ForwardLink(m: seq<int>, next: int, prev: int, H: nat, w: seq<int>, i: nat)
    requires H >= 3 && Complete(m, next, prev, H, w, next, 0) && i < |w|
    ensures ItemOk(m, next, prev, H, w[i]) && m[w[i]] == (if i + 1 < |w| then w[i + 1] else CQ) && next == w[0]
  {
    assert Met(m, next, prev, H, w, next, 0, i) && Met(m, next, prev, H, w, next, 0, 0);
    if i + 1 < |w| { assert Met(m, next, prev, H, w, next, 0, i + 1); }
  }

  lemma BackwardLink(m: seq<int>, next: int, prev: int, H: nat, b: seq<int>, j: nat)
    requires H >= 3 && Complete(m, next, prev, H, b, prev, 1) && j < |b|
    ensures ItemOk(m, next, prev, H, b[j]) && m[b[j] + 1] == (if j + 1 < |b| then b[j + 1] else CQ) && prev == b[0]
  {
    assert Met(m, next, prev, H, b, prev, 1, j) && Met(m, next, prev, H, b, prev, 1, 0);
    if j + 1 < |b| { assert Met(m, next, prev, H, b, prev, 1, j + 1); }
  }

  /** The items lie inside the buffer, size and magic in place, each linked to the next and the one
      before it, and the queue to the first and the last. */
  lemma SoundListIs(m: seq<int>, next: int, prev: int, H: nat, w: seq<int>, i: nat)
    requires H >= 3 && SoundList(m, next, prev, H, w) && i < |w|
    ensures 0 <= w[i] && w[i] + 2 < |m|
    ensures var size := SizeOf(m[w[i] + 2]); H <= size && w[i] + size <= |m| && MagicOf(m[w[i] + 2]) == MAGIC
    ensures m[w[i]] == (if i + 1 < |w| then w[i + 1] else CQ) && m[w[i] + 1] == (if i > 0 then w[i - 1] else CQ)
    ensures next == w[0] && prev == w[|w| - 1]
  {
    ForwardLink(m, next, prev, H, w, i);
    BackwardLink(m, next, prev, H, Reversed(w), |w| - 1 - i);
  }
}
