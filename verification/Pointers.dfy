/** Lists of pointers, which are indices with -1 as the null pointer. */
module Pointers {

  const NULL := -1

  ghost predicate NoDup(list: seq<int>) {
    forall i, j :: 0 <= i < j < |list| ==> list[i] != list[j]
  }

  /** What follows the `k`-th entry of a list. */
  ghost function Successor(list: seq<int>, k: nat): int {
    if k + 1 < |list| then list[k + 1] else NULL
  }

  /** What comes before the `k`-th entry of a list. */
  ghost function Predecessor(list: seq<int>, k: nat): int
    requires k < |list|
  {
    if k > 0 then list[k - 1] else NULL
  }

  /** A list without its `k`-th entry. */
  function Without(list: seq<int>, k: nat): seq<int>
    requires k < |list|
  {
    list[..k] + list[k + 1..]
  }

  lemma WithoutMembers(list: seq<int>, k: nat)
    requires NoDup(list) && k < |list|
    ensures list[k] !in Without(list, k)
    ensures forall x :: x in Without(list, k) <==> x in list && x != list[k]
  {
    forall x | x in list && x != list[k] ensures x in Without(list, k) {
      var o :| 0 <= o < |list| && list[o] == x;
      assert Without(list, k)[if o < k then o else o - 1] == x;
    }
  }

  function SetOf(list: seq<int>): set<int> {
    set x | x in list
  }

  /** A list without repetition is as long as it has elements. */
  lemma {:induction false} NoDupLength(list: seq<int>)
    requires NoDup(list)
    ensures |SetOf(list)| == |list|
  {
    if list != [] {
      NoDupLength(list[1..]);
      assert SetOf(list) == {list[0]} + SetOf(list[1..]);
    }
  }
}
