/**
  Option values and the few facts about duplicate-free sequences that the list
  surgery in the rest of the project relies on.
 */
module Collections {

  datatype Option<+T> = None | Some(value: T)

  ghost predicate NoDup<T>(xs: seq<T>) {
    forall i, j :: 0 <= i < j < |xs| ==> xs[i] != xs[j]
  }

  /** The place of the first node from `i` on that holds `x`. */
  function PlaceFrom<T(==)>(xs: seq<T>, x: T, i: nat): (k: nat)
    requires i <= |xs| && x in xs[i..]
    ensures i <= k < |xs| && x == xs[k] && forall j | i <= j < k :: x != xs[j]
    decreases |xs| - i
  {
    if x == xs[i] then i else PlaceFrom(xs, x, i + 1)
  }

  /** The place of the first node that holds `x`. */
  function IndexOf<T(==)>(xs: seq<T>, x: T): (k: nat)
    requires x in xs
    ensures k < |xs| && x == xs[k] && forall j | 0 <= j < k :: x != xs[j]
  {
    PlaceFrom(xs, x, 0)
  }

  /** The list after its first node holding `x` was taken out. */
  function Remove<T(==)>(xs: seq<T>, x: T): (r: seq<T>)
    ensures x !in xs ==> r == xs
    ensures x in xs ==> |r| == |xs| - 1
    ensures forall y :: y in r ==> y in xs
    ensures forall y :: y in xs && y != x ==> y in r
  {
    if x in xs then
      var i := IndexOf(xs, x);
      assert xs == xs[..i] + [x] + xs[i + 1..];
      xs[..i] + xs[i + 1..]
    else xs
  }

  lemma RemoveNoDup<T>(xs: seq<T>, x: T)
    requires NoDup(xs)
    ensures NoDup(Remove(xs, x))
    ensures x !in Remove(xs, x)
  {
  }

  /** What is left, by its place in the list before. */
  lemma RemovedPlaces<T>(xs: seq<T>, x: T)
    requires x in xs
    ensures
      var r, k := Remove(xs, x), IndexOf(xs, x);
      |r| == |xs| - 1 && forall i {:trigger r[i]} :: 0 <= i < |r| ==> r[i] == xs[if i < k then i else i + 1]
  {
    var k := IndexOf(xs, x);
    assert Remove(xs, x) == xs[..k] + xs[k + 1..];
    hide IndexOf, Remove;
  }

  function InsertAt<T>(xs: seq<T>, k: nat, x: T): (r: seq<T>)
    requires k <= |xs|
    ensures |r| == |xs| + 1 && r[k] == x
    ensures forall i {:trigger r[i]} :: 0 <= i < k ==> r[i] == xs[i]
    ensures forall i {:trigger r[i]} :: k < i < |r| ==> r[i] == xs[i - 1]
    ensures forall y :: y in r ==> y in xs || y == x
    ensures forall y :: y in xs ==> y in r
    ensures x in r
  {
    assert xs == xs[..k] + xs[k..];
    xs[..k] + [x] + xs[k..]
  }

  lemma InsertNoDup<T>(xs: seq<T>, k: nat, x: T)
    requires NoDup(xs) && k <= |xs| && x !in xs
    ensures NoDup(InsertAt(xs, k, x))
  {
  }
}
