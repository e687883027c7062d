/** Lists without repeats, and removal by value as `std::list::remove` does it. */
module Seqs {
  predicate Distinct<T(==)>(s: seq<T>) { forall i, j | 0 <= i < j < |s| :: s[i] != s[j] }

  function Removed<T(==, !new)>(s: seq<T>, x: T): (r: seq<T>)
    ensures forall y :: y in r <==> y in s && y != x
    ensures Distinct(s) ==> Distinct(r)
    ensures |r| <= |s| && (x in s ==> |r| < |s|)
  {
    if s == [] then []
    else
      var r := Removed(s[1..], x);
      assert forall i | 0 <= i < |r| :: r[i] in r;
      if s[0] == x then r else [s[0]] + r
  }
}
