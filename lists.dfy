/** List operations of Qt containers that the registries use. */
module Lists {
  /** `QList::removeAll(x)`: every occurrence of `x` goes, the rest keeps its order. */
  function RemoveAll<T(==)>(s: seq<T>, x: T): (r: seq<T>)
    ensures |r| <= |s|
  {
    if |s| == 0 then []
    else if s[|s| - 1] == x then RemoveAll(s[..|s| - 1], x)
    else RemoveAll(s[..|s| - 1], x) + [s[|s| - 1]]
  }

  /**
   * What `removeAll` leaves: no `x`, and every other value exactly as
   * often as before.
   */
  lemma {:induction false} RemoveAllCounts<T>(s: seq<T>, x: T)
    ensures x !in RemoveAll(s, x)
    ensures multiset(RemoveAll(s, x))[x] == 0
    ensures forall y :: y != x ==> multiset(RemoveAll(s, x))[y] == multiset(s)[y]
  {
    if |s| > 0 {
      var init := s[..|s| - 1];
      RemoveAllCounts(init, x);
      assert s == init + [s[|s| - 1]];
    }
  }

  /** Removing a value that is not there changes nothing. */
  lemma {:induction false} RemoveAbsent<T>(s: seq<T>, x: T)
    requires x !in s
    ensures RemoveAll(s, x) == s
  {
    if |s| > 0 {
      var init := s[..|s| - 1];
      assert x !in init;
      RemoveAbsent(init, x);
      assert s == init + [s[|s| - 1]];
    }
  }

  /** Membership after `removeAll`: exactly the values other than `x` that were there. */
  lemma RemoveAllMembers<T>(s: seq<T>, x: T, y: T)
    ensures y in RemoveAll(s, x) <==> y != x && y in s
  {
    RemoveAllCounts(s, x);
    assert y in RemoveAll(s, x) <==> multiset(RemoveAll(s, x))[y] > 0;
    assert y in s <==> multiset(s)[y] > 0;
  }
}
