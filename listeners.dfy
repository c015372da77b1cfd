/** The listener list of a store as a sequence, and the `java.util.List`
    operations the store applies to it: `remove(Object)` (drop the first
    equal element) and `add` (append). */
module ListenerList {

  /** No element occurs twice. */
  ghost predicate NoDuplicates<T>(s: seq<T>)
  {
    forall i, j :: 0 <= i < j < |s| ==> s[i] != s[j]
  }

  /** Position of the first occurrence of `x`, as `List.indexOf` finds it. */
  function IndexOf<T(==)>(s: seq<T>, x: T): (k: nat)
    requires x in s
    ensures k < |s| && s[k] == x
    ensures x !in s[..k]
  {
    if s[0] == x then 0 else 1 + IndexOf(s[1..], x)
  }

  /** `List.remove(Object)`: drops the first element equal to `x`, if any,
      scanning from the front. */
  function RemoveFirst<T(==)>(s: seq<T>, x: T): (r: seq<T>)
    ensures x !in s ==> r == s
    ensures x in s ==> r == s[..IndexOf(s, x)] + s[IndexOf(s, x) + 1..]
  {
    if s == [] then []
    else if s[0] == x then s[1..]
    else [s[0]] + RemoveFirst(s[1..], x)
  }

  /** Removing `x` leaves every other element in the list and shortens it
      by one exactly when `x` was there. */
  lemma {:induction false} RemoveFirstKeepsOthers<T>(s: seq<T>, x: T)
    ensures forall y :: y != x ==> (y in RemoveFirst(s, x) <==> y in s)
    ensures |RemoveFirst(s, x)| == if x in s then |s| - 1 else |s|
  {
    if s != [] {
      assert s == [s[0]] + s[1..];
      if s[0] != x {
        RemoveFirstKeepsOthers(s[1..], x);
      }
    }
  }

  /** On a list without duplicates, removing `x` removes every copy of it
      and introduces no duplicate. */
  lemma RemoveFirstKeepsDistinct<T>(s: seq<T>, x: T)
    requires NoDuplicates(s)
    ensures NoDuplicates(RemoveFirst(s, x)) && x !in RemoveFirst(s, x)
  {
    if x in s {
      var k := IndexOf(s, x);
      var r := RemoveFirst(s, x);
      assert |r| == |s| - 1;
      assert forall i :: 0 <= i < |r| ==> r[i] == s[if i < k then i else i + 1];
    }
  }

  /** `addListener(l)` is `remove(l)` followed by `add(l)`: afterwards `l` is
      the last listener and occurs exactly once, the others keep their
      relative order, and a list without duplicates stays without them. */
  lemma AddMovesToEnd<T>(s: seq<T>, x: T)
    ensures var r := RemoveFirst(s, x) + [x];
      r[|r| - 1] == x && r[..|r| - 1] == RemoveFirst(s, x)
      && forall y :: y in r <==> y in s || y == x
    ensures NoDuplicates(s) ==> NoDuplicates(RemoveFirst(s, x) + [x])
  {
    RemoveFirstKeepsOthers(s, x);
    if NoDuplicates(s) {
      RemoveFirstKeepsDistinct(s, x);
    }
    var r := RemoveFirst(s, x) + [x];
    assert r[..|r| - 1] == RemoveFirst(s, x);
  }

  /** Adding a listener that is already last changes nothing: `addListener`
      is idempotent on a list without duplicates. */
  lemma {:induction false} AddIsIdempotent<T>(s: seq<T>, x: T)
    requires NoDuplicates(s)
    ensures var once := RemoveFirst(s, x) + [x];
      RemoveFirst(once, x) + [x] == once
  {
    RemoveFirstKeepsDistinct(s, x);
    RemoveLastAppended(RemoveFirst(s, x), x);
  }

  /** Removing an element that only the appended last position holds gives
      back what it was appended to. */
  lemma {:induction false} RemoveLastAppended<T>(s: seq<T>, x: T)
    requires x !in s
    ensures RemoveFirst(s + [x], x) == s
  {
    if s != [] {
      assert (s + [x])[1..] == s[1..] + [x];
      RemoveLastAppended(s[1..], x);
      assert [s[0]] + s[1..] == s;
    }
  }
}
