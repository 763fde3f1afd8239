/** Sequences whose elements are told apart, and those with one element more or less. */
module Sequences {
  ghost predicate Distinct<T>(s: seq<T>) {
    forall i, j :: 0 <= i < j < |s| ==> s[i] != s[j]
  }

  function Insert<T>(s: seq<T>, i: nat, x: T): seq<T>
    requires i <= |s|
  {
    s[..i] + [x] + s[i..]
  }

  function Delete<T>(s: seq<T>, i: nat): seq<T>
    requires i < |s|
  {
    s[..i] + s[i + 1..]
  }

  lemma Inserted<T>(s: seq<T>, i: nat, x: T)
    requires i <= |s|
    ensures var r := Insert(s, i, x);
            && |r| == |s| + 1 && r[i] == x
            && (forall k :: 0 <= k < i ==> r[k] == s[k])
            && (forall k :: i < k < |r| ==> r[k] == s[k - 1])
            && (forall y :: y in r ==> y == x || y in s)
            && (Distinct(s) && x !in s ==> Distinct(r))
  {
  }

  lemma DeleteInserted<T>(s: seq<T>, i: nat, x: T)
    requires i <= |s|
    ensures Delete(Insert(s, i, x), i) == s
  {
  }

  lemma Deleted<T>(s: seq<T>, i: nat)
    requires i < |s|
    ensures var r := Delete(s, i);
            && |r| == |s| - 1
            && (forall k :: 0 <= k < i ==> r[k] == s[k])
            && (forall k :: i <= k < |r| ==> r[k] == s[k + 1])
            && (forall y :: y in r ==> y in s)
            && (Distinct(s) ==> Distinct(r))
  {
  }
}
