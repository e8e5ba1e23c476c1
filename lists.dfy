/** Removal from a validator's sub-validator list, which disposing a sub-validator requires.
    The mechanism assumed is .NET's `List<T>.Remove`, which removes the first occurrence only,
    found as `IndexOf` finds it. */
module Lists {

  /** The position of the first occurrence of `x`. */
  function IndexOf<T(==)>(s: seq<T>, x: T): (k: nat)
    requires x in s
    ensures k < |s| && s[k] == x && x !in s[..k]
  {
    if s[0] == x then 0 else 1 + IndexOf(s[1..], x)
  }

  /** `List<T>.Remove(x)`: drops the first occurrence of `x`, if any, and keeps the other
      elements in their order: putting `x` back where it was first found gives the old list. */
  function RemoveFirst<T(==)>(s: seq<T>, x: T): (r: seq<T>)
    ensures x !in s ==> r == s
    ensures x in s ==> |r| == |s| - 1 && multiset(r) == multiset(s) - multiset{x}
    ensures x in s ==> s == r[..IndexOf(s, x)] + [x] + r[IndexOf(s, x)..]
  {
    if x in s then
      var k := IndexOf(s, x);
      assert s == s[..k] + [x] + s[k + 1..];
      s[..k] + s[k + 1..]
    else s
  }

  predicate Distinct<T(==)>(s: seq<T>) {
    forall i, j :: 0 <= i < j < |s| ==> s[i] != s[j]
  }

  /** On a list without duplicates, removing `x` removes it altogether, keeps every other
      element, and keeps the list free of duplicates; a missing `x` leaves the list as it was. */
  lemma RemoveFirstOfDistinct<T>(s: seq<T>, x: T)
    requires Distinct(s)
    ensures var r := RemoveFirst(s, x);
      x !in r && Distinct(r) &&
      (forall y :: y != x ==> (y in r <==> y in s)) &&
      |r| == (if x in s then |s| - 1 else |s|)
  {
  }
}
