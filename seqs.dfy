/** Sequence helpers for the id and name lists kept in cases and arbitrator records. */
module Seqs {

  predicate NoDup<T(==)>(s: seq<T>)
  {
    forall i, j :: 0 <= i < j < |s| ==> s[i] != s[j]
  }

  /** `s` with every occurrence of `x` dropped, the rest kept in order. */
  function Remove<T(==,!new)>(s: seq<T>, x: T): (r: seq<T>)
    ensures forall y :: y in r <==> y in s && y != x
    ensures NoDup(s) ==> NoDup(r)
    ensures x !in s ==> r == s
    decreases |s|
  {
    if s == [] then []
    else
      var rest := Remove(s[1..], x);
      if s[0] == x then rest
      else
        assert NoDup(s) ==> s[0] !in s[1..];
        assert NoDup(s) ==> NoDup(s[1..]) by {
          if NoDup(s) {
            forall i, j | 0 <= i < j < |s[1..]| ensures s[1..][i] != s[1..][j] {
              assert s[1..][i] == s[i + 1] && s[1..][j] == s[j + 1];
            }
          }
        }
        assert s == [s[0]] + s[1..];
        [s[0]] + rest
  }
}
