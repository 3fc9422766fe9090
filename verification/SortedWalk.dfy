/**
 The sorted iterator of the dictionary (src/common/dictionary.c): it keeps no order, and
 scans all entries again for the next one. `order` is the order of the table walk.
 */
module SortedWalk {

  ghost predicate TotalPreorder<T(!new)>(cmp: (T, T) -> int) {
    && (forall a :: cmp(a, a) == 0)
    && (forall a, b :: cmp(a, b) < 0 <==> cmp(b, a) > 0)
    && (forall a, b, c :: cmp(a, b) <= 0 && cmp(b, c) <= 0 ==> cmp(a, c) <= 0)
  }

  /** The entry i comes before the entry j: smaller, or equal and earlier in the table walk. */
  ghost predicate Precedes<T>(order: seq<T>, cmp: (T, T) -> int, i: nat, j: nat)
    requires i < |order| && j < |order|
  {
    cmp(order[i], order[j]) < 0 || (cmp(order[i], order[j]) == 0 && i < j)
  }

  lemma PrecedesIsTotal<T(!new)>(order: seq<T>, cmp: (T, T) -> int, i: nat, j: nat)
    requires TotalPreorder(cmp) && i < |order| && j < |order|
    ensures i == j || Precedes(order, cmp, i, j) || Precedes(order, cmp, j, i)
    ensures !(Precedes(order, cmp, i, j) && Precedes(order, cmp, j, i))
  {
    assert cmp(order[i], order[j]) < 0 <==> cmp(order[j], order[i]) > 0;
    assert cmp(order[j], order[i]) < 0 <==> cmp(order[i], order[j]) > 0;
  }

  lemma PrecedesIsTransitive<T(!new)>(order: seq<T>, cmp: (T, T) -> int, i: nat, j: nat, k: nat)
    requires TotalPreorder(cmp) && i < |order| && j < |order| && k < |order|
    requires Precedes(order, cmp, i, j) && Precedes(order, cmp, j, k)
    ensures Precedes(order, cmp, i, k)
  {
    var a, b, c := order[i], order[j], order[k];
    assert cmp(a, c) <= 0;
    if cmp(a, c) == 0 {
      assert cmp(c, a) <= 0 by { assert cmp(c, a) > 0 ==> cmp(a, c) < 0; }
      assert cmp(c, b) <= 0 && cmp(b, a) <= 0;
      assert cmp(b, a) < 0 <==> cmp(a, b) > 0;
      assert cmp(c, b) < 0 <==> cmp(b, c) > 0;
    }
  }

  // ----- The scans

  /** `dictionary_it_first`: the scan from j on, with the best entry so far. */
  function Least<T>(order: seq<T>, cmp: (T, T) -> int, best: nat, j: nat): nat
    requires best < |order| && j <= |order|
    decreases |order| - j
  {
    if j == |order| then best
    else Least(order, cmp, if cmp(order[best], order[j]) > 0 then j else best, j + 1)
  }

  function First<T>(order: seq<T>, cmp: (T, T) -> int): int {
    if order == [] then -1 else Least(order, cmp, 0, 1)
  }

  /** The first entry from j on that is equal to the entry i, or -1. */
  function NextEqual<T>(order: seq<T>, cmp: (T, T) -> int, i: nat, j: nat): (r: int)
    requires i < |order| && j <= |order|
    ensures r == -1 || (j <= r < |order| && cmp(order[i], order[r]) == 0)
    ensures forall k :: j <= k < (if r < 0 then |order| else r) ==> cmp(order[i], order[k]) != 0
    decreases |order| - j
  {
    if j == |order| then -1 else if cmp(order[i], order[j]) == 0 then j else NextEqual(order, cmp, i, j + 1)
  }

  /** The second scan of `dictionary_it_next`, from j on, with the best greater entry so far. */
  function Above<T>(order: seq<T>, cmp: (T, T) -> int, i: nat, best: int, j: nat): int
    requires i < |order| && -1 <= best < |order| && j <= |order|
    decreases |order| - j
  {
    if j == |order| then best
    else if i == j || cmp(order[i], order[j]) >= 0 then Above(order, cmp, i, best, j + 1)
    else if best < 0 || cmp(order[best], order[j]) > 0 then Above(order, cmp, i, j, j + 1)
    else Above(order, cmp, i, best, j + 1)
  }

  /** `dictionary_it_next` with a comparator. */
  function Next<T>(order: seq<T>, cmp: (T, T) -> int, i: nat, unique: bool): int
    requires i < |order|
  {
    var equal := if unique then -1 else NextEqual(order, cmp, i, i + 1);
    if equal >= 0 then equal else Above(order, cmp, i, -1, 0)
  }

  /** r comes first of the entries before j that are greater than the entry i, if i is given. */
  ghost predicate LeastOf<T>(order: seq<T>, cmp: (T, T) -> int, i: int, r: int, j: nat)
    requires -1 <= i < |order| && j <= |order|
  {
    && -1 <= r < j
    && (forall k :: 0 <= k < j && Greater(order, cmp, i, k) ==> r >= 0 && (k == r || Precedes(order, cmp, r, k)))
    && (r >= 0 ==> Greater(order, cmp, i, r))
  }

  ghost predicate Greater<T>(order: seq<T>, cmp: (T, T) -> int, i: int, k: nat)
    requires -1 <= i < |order| && k < |order|
  {
    i >= 0 ==> cmp(order[i], order[k]) < 0
  }

  lemma LeastStep<T(!new)>(order: seq<T>, cmp: (T, T) -> int, i: int, r: nat, j: nat)
    requires TotalPreorder(cmp) && -1 <= i < |order| && j < |order| && LeastOf(order, cmp, i, r, j) && Greater(order, cmp, i, j)
    ensures LeastOf(order, cmp, i, if cmp(order[r], order[j]) > 0 then j else r, j + 1)
  {
    PrecedesIsTotal(order, cmp, r, j);
    forall k | 0 <= k < j && Greater(order, cmp, i, k) && cmp(order[r], order[j]) > 0 ensures Precedes(order, cmp, j, k) {
      assert cmp(order[j], order[r]) < 0;
      if k != r { PrecedesIsTransitive(order, cmp, j, r, k); }
    }
    assert cmp(order[r], order[j]) <= 0 ==> Precedes(order, cmp, r, j);
  }

  lemma {:induction false} LeastIsLeast<T(!new)>(order: seq<T>, cmp: (T, T) -> int, best: nat, j: nat)
    requires TotalPreorder(cmp) && j <= |order| && LeastOf(order, cmp, -1, best, j)
    ensures LeastOf(order, cmp, -1, Least(order, cmp, best, j), |order|)
    decreases |order| - j
  {
    if j < |order| {
      LeastStep(order, cmp, -1, best, j);
      LeastIsLeast(order, cmp, if cmp(order[best], order[j]) > 0 then j else best, j + 1);
    }
  }

  lemma {:induction false} AboveIsLeast<T(!new)>(order: seq<T>, cmp: (T, T) -> int, i: nat, best: int, j: nat)
    requires TotalPreorder(cmp) && i < |order| && j <= |order| && LeastOf(order, cmp, i, best, j)
    ensures LeastOf(order, cmp, i, Above(order, cmp, i, best, j), |order|)
    decreases |order| - j
  {
    if j < |order| {
      assert i == j ==> cmp(order[i], order[j]) == 0;
      if cmp(order[i], order[j]) >= 0 {
        AboveIsLeast(order, cmp, i, best, j + 1);
      } else if best < 0 {
        AboveIsLeast(order, cmp, i, j, j + 1);
      } else {
        LeastStep(order, cmp, i, best, j);
        AboveIsLeast(order, cmp, i, if cmp(order[best], order[j]) > 0 then j else best, j + 1);
      }
    }
  }

  // ----- The next entry

  /** What the iterator still has to give after the entry i. */
  ghost predicate After<T>(order: seq<T>, cmp: (T, T) -> int, i: nat, k: nat, unique: bool)
    requires i < |order| && k < |order|
  {
    if unique then cmp(order[i], order[k]) < 0 else Precedes(order, cmp, i, k)
  }

  lemma EqualIsAsGreat<T(!new)>(order: seq<T>, cmp: (T, T) -> int, i: nat, r: nat, k: nat)
    requires TotalPreorder(cmp) && i < |order| && r < |order| && k < |order| && cmp(order[i], order[r]) == 0
    ensures cmp(order[i], order[k]) < 0 <==> cmp(order[r], order[k]) < 0
    ensures cmp(order[i], order[k]) == 0 <==> cmp(order[r], order[k]) == 0
  {
    var a, b, c := order[i], order[r], order[k];
    assert cmp(a, b) < 0 <==> cmp(b, a) > 0;
    assert cmp(b, a) < 0 <==> cmp(a, b) > 0;
    assert cmp(a, c) < 0 <==> cmp(c, a) > 0;
    assert cmp(c, a) < 0 <==> cmp(a, c) > 0;
    assert cmp(b, c) < 0 <==> cmp(c, b) > 0;
    assert cmp(c, b) < 0 <==> cmp(b, c) > 0;
    assert cmp(a, c) <= 0 <==> cmp(b, c) <= 0;
    assert cmp(c, a) <= 0 <==> cmp(c, b) <= 0;
  }

  /** `dictionary_it_first` finds the entry before all others. */
  lemma FirstIsLeast<T(!new)>(order: seq<T>, cmp: (T, T) -> int)
    requires TotalPreorder(cmp)
    ensures -1 <= First(order, cmp) < |order| && (First(order, cmp) == -1 <==> order == [])
    ensures forall k :: 0 <= k < |order| ==> k == First(order, cmp) || Precedes(order, cmp, First(order, cmp), k)
  {
    if order != [] {
      LeastIsLeast(order, cmp, 0, 1);
      forall k | 0 <= k < |order| ensures Greater(order, cmp, -1, k) {}
    }
  }

  /** `dictionary_it_next` finds the first entry of those still to be given. */
  lemma NextIsSuccessor<T(!new)>(order: seq<T>, cmp: (T, T) -> int, i: nat, unique: bool)
    requires TotalPreorder(cmp) && i < |order|
    ensures var r := Next(order, cmp, i, unique);
            && -1 <= r < |order| && (r >= 0 ==> After(order, cmp, i, r, unique) && Precedes(order, cmp, i, r))
            && forall k :: 0 <= k < |order| && After(order, cmp, i, k, unique) ==> r >= 0 && (k == r || Precedes(order, cmp, r, k))
  {
    var r := Next(order, cmp, i, unique);
    AboveIsLeast(order, cmp, i, -1, 0);
    if !unique && NextEqual(order, cmp, i, i + 1) >= 0 {
      forall k | 0 <= k < |order| && Precedes(order, cmp, i, k) && k != r ensures Precedes(order, cmp, r, k) {
        EqualIsAsGreat(order, cmp, i, r, k);
      }
    } else {
      forall k | 0 <= k < |order| && After(order, cmp, i, k, unique) ensures Greater(order, cmp, i, k) {}
    }
  }

  // ----- The whole walk

  ghost function Later<T>(order: seq<T>, cmp: (T, T) -> int, i: nat): set<nat>
    requires i < |order|
  {
    set k: nat | k < |order| && Precedes(order, cmp, i, k)
  }

  lemma {:induction false} SmallerSet(a: set<nat>, b: set<nat>, x: nat)
    requires a <= b && x in b && x !in a
    ensures |a| < |b|
  {
    assert a <= b - {x};
    SubsetIsNoLarger(a, b - {x});
  }

  lemma {:induction false} SubsetIsNoLarger(a: set<nat>, b: set<nat>)
    requires a <= b
    ensures |a| <= |b|
    decreases |a|
  {
    if a != {} {
      var x :| x in a;
      SubsetIsNoLarger(a - {x}, b - {x});
    }
  }

  /** Every step leaves fewer entries: the walk ends. */
  lemma LaterShrinks<T(!new)>(order: seq<T>, cmp: (T, T) -> int, i: nat, unique: bool)
    requires TotalPreorder(cmp) && i < |order| && Next(order, cmp, i, unique) >= 0
    ensures -1 <= Next(order, cmp, i, unique) < |order|
    ensures |Later(order, cmp, Next(order, cmp, i, unique))| < |Later(order, cmp, i)|
  {
    NextIsSuccessor(order, cmp, i, unique);
    var r := Next(order, cmp, i, unique);
    forall k | k in Later(order, cmp, r) ensures k in Later(order, cmp, i) {
      PrecedesIsTransitive(order, cmp, i, r, k);
    }
    PrecedesIsTotal(order, cmp, r, r);
    SmallerSet(Later(order, cmp, r), Later(order, cmp, i), r);
  }

  /** The entries given from the entry i on, until there is none. */
  ghost function Walk<T(!new)>(order: seq<T>, cmp: (T, T) -> int, i: int, unique: bool): seq<int>
    requires TotalPreorder(cmp) && -1 <= i < |order|
    decreases if i < 0 then 0 else 1 + |Later(order, cmp, i)|
  {
    if i < 0 then []
    else
      var r := Next(order, cmp, i, unique);
      if r < 0 then [i] else (LaterShrinks(order, cmp, i, unique); [i] + Walk(order, cmp, r, unique))
  }

  ghost predicate InSequence<T>(order: seq<T>, cmp: (T, T) -> int, walk: seq<int>, unique: bool) {
    && (forall a :: 0 <= a < |walk| ==> 0 <= walk[a] < |order|)
    && (forall a, b :: 0 <= a < b < |walk| ==> After(order, cmp, walk[a], walk[b], unique))
  }

  /** The walk gives k, or, if it gives one entry of a class only, the first equal one. */
  ghost predicate Gives<T>(order: seq<T>, cmp: (T, T) -> int, walk: seq<int>, k: nat, unique: bool)
    requires k < |order|
  {
    if unique then exists a :: 0 <= a < |walk| && 0 <= walk[a] <= k && cmp(order[walk[a]], order[k]) == 0
    else k in walk
  }

  lemma AfterIsTransitive<T(!new)>(order: seq<T>, cmp: (T, T) -> int, i: nat, r: nat, k: nat, unique: bool)
    requires TotalPreorder(cmp) && i < |order| && r < |order| && k < |order|
    requires After(order, cmp, i, r, unique) && After(order, cmp, r, k, unique)
    ensures After(order, cmp, i, k, unique)
  {
    PrecedesIsTransitive(order, cmp, i, r, k);
    if cmp(order[i], order[k]) == 0 {
      EqualIsAsGreat(order, cmp, i, k, r);
      assert cmp(order[k], order[r]) < 0 <==> cmp(order[r], order[k]) > 0;
    }
  }

  lemma {:induction false} WalkIsInSequence<T(!new)>(order: seq<T>, cmp: (T, T) -> int, i: nat, unique: bool)
    requires TotalPreorder(cmp) && i < |order|
    ensures InSequence(order, cmp, Walk(order, cmp, i, unique), unique)
    decreases |Later(order, cmp, i)|
  {
    var r := Next(order, cmp, i, unique);
    if r >= 0 {
      LaterShrinks(order, cmp, i, unique);
      NextIsSuccessor(order, cmp, i, unique);
      WalkIsInSequence(order, cmp, r, unique);
      var rest := Walk(order, cmp, r, unique);
      assert rest[0] == r;
      forall b | 0 <= b < |rest| ensures After(order, cmp, i, rest[b], unique) {
        if b > 0 { AfterIsTransitive(order, cmp, i, r, rest[b], unique); }
      }
    }
  }

  /** Of the entries still to be given none is left out. */
  lemma {:induction false} WalkGives<T(!new)>(order: seq<T>, cmp: (T, T) -> int, i: nat, k: nat, unique: bool)
    requires TotalPreorder(cmp) && i < |order| && k < |order| && (k == i || Precedes(order, cmp, i, k))
    ensures Gives(order, cmp, Walk(order, cmp, i, unique), k, unique)
    decreases |Later(order, cmp, i)|
  {
    var walk := Walk(order, cmp, i, unique);
    assert walk[0] == i;
    if k != i && After(order, cmp, i, k, unique) {
      var r := Next(order, cmp, i, unique);
      NextIsSuccessor(order, cmp, i, unique);
      LaterShrinks(order, cmp, i, unique);
      WalkGives(order, cmp, r, k, unique);
      var rest := Walk(order, cmp, r, unique);
      if unique {
        var a :| 0 <= a < |rest| && 0 <= rest[a] <= k && cmp(order[rest[a]], order[k]) == 0;
        assert walk[a + 1] == rest[a];
      }
    }
  }

  /** Without a unique collection: a stable sort of the table walk, each entry exactly once. */
  lemma WalkSortsStably<T(!new)>(order: seq<T>, cmp: (T, T) -> int)
    requires TotalPreorder(cmp)
    ensures var first := First(order, cmp);
            && -1 <= first < |order|
            && var walk := Walk(order, cmp, first, false);
               && InSequence(order, cmp, walk, false) && |walk| == |order|
               && forall k :: 0 <= k < |order| ==> k in walk
  {
    FirstIsLeast(order, cmp);
    var first := First(order, cmp);
    if first >= 0 {
      var walk := Walk(order, cmp, first, false);
      WalkIsInSequence(order, cmp, first, false);
      forall k | 0 <= k < |order| ensures k in walk {
        WalkGives(order, cmp, first, k, false);
        assert Gives(order, cmp, walk, k, false);
      }
      forall a, b | 0 <= a < b < |walk| ensures walk[a] != walk[b] {
        assert After(order, cmp, walk[a], walk[b], false);
        PrecedesIsTotal(order, cmp, walk[a], walk[a]);
      }
      CoverIsAsLong(walk, |order|);
    }
  }

  lemma {:induction false} CoverIsAsLong(walk: seq<int>, n: nat)
    requires forall a :: 0 <= a < |walk| ==> 0 <= walk[a] < n
    requires forall a, b :: 0 <= a < b < |walk| ==> walk[a] != walk[b]
    requires forall k :: 0 <= k < n ==> k in walk
    ensures |walk| == n
    decreases n
  {
    if n > 0 {
      assert n - 1 in walk;
      var a :| 0 <= a < |walk| && walk[a] == n - 1;
      var rest := walk[..a] + walk[a + 1..];
      forall i | 0 <= i < |rest| ensures rest[i] == walk[if i < a then i else i + 1] {}
      forall k | 0 <= k < n - 1 ensures k in rest {
        assert k in walk;
        var i :| 0 <= i < |walk| && walk[i] == k;
        assert rest[if i < a then i else i - 1] == k;
      }
      CoverIsAsLong(rest, n - 1);
    }
  }

  /** With a unique collection: of each class of equal entries the first in the table walk, and
      one only, in strictly ascending order. */
  lemma WalkGivesClasses<T(!new)>(order: seq<T>, cmp: (T, T) -> int)
    requires TotalPreorder(cmp)
    ensures var first := First(order, cmp);
            && -1 <= first < |order|
            && var walk := Walk(order, cmp, first, true);
               && InSequence(order, cmp, walk, true)
               && forall k :: 0 <= k < |order| ==> Gives(order, cmp, walk, k, true)
  {
    FirstIsLeast(order, cmp);
    var first := First(order, cmp);
    if first >= 0 {
      WalkIsInSequence(order, cmp, first, true);
      forall k | 0 <= k < |order| ensures Gives(order, cmp, Walk(order, cmp, first, true), k, true) {
        WalkGives(order, cmp, first, k, true);
      }
    }
  }
}
