/**
 What several components share: an optional value, and sequences without one of their elements.
 */
module Common {

  datatype Option<+V> = None | Some(value: V)

  /** No element stands twice. */
  ghost predicate Distinct<T>(list: seq<T>) {
    forall i, j :: 0 <= i < j < |list| ==> list[i] != list[j]
  }

  /** The list without the first occurrence of an element, if there is one. */
  function Without<T(==)>(list: seq<T>, t: T): (r: seq<T>)
    ensures t !in list ==> r == list
    ensures t in list ==> |r| == |list| - 1
  {
    if list == [] then [] else if list[0] == t then list[1..] else [list[0]] + Without(list[1..], t)
  }

  lemma {:induction false} WithoutMembers<T>(list: seq<T>, t: T)
    ensures forall x :: x in Without(list, t) ==> x in list
  {
    if list != [] && list[0] != t {
      WithoutMembers(list[1..], t);
    }
  }

  lemma {:induction false} WithoutCounts<T>(list: seq<T>, t: T)
    requires t in list
    ensures multiset(Without(list, t)) == multiset(list) - multiset{t}
  {
    assert list == [list[0]] + list[1..];
    if list[0] != t {
      WithoutCounts(list[1..], t);
    }
  }
}
