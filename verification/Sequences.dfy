/** Sequences that stand for linked lists: no node is linked twice, and unlinking one. */
module Sequences {

  ghost predicate Distinct<T>(s: seq<T>) {
    forall i, j :: 0 <= i < j < |s| ==> s[i] != s[j]
  }

  function Without<T(==)>(s: seq<T>, x: T): seq<T> {
    if s == [] then [] else if s[0] == x then s[1..] else [s[0]] + Without(s[1..], x)
  }

  lemma {:induction false} WithoutIs<T>(s: seq<T>, x: T)
    requires Distinct(s)
    ensures Distinct(Without(s, x)) && x !in Without(s, x)
    ensures forall y: T :: y in s ==> y != x ==> y in Without(s, x)
    ensures forall y: T :: y in Without(s, x) ==> y in s
  {
    if s != [] {
      assert s == [s[0]] + s[1..];
      WithoutIs(s[1..], x);
      assert s[0] !in s[1..];
      assert s[0] !in Without(s[1..], x);
    }
  }
}
