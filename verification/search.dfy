/** Linear search with the semantics of C++ `std::find` over a random-access range. */
module Search {

  /** Distance from the start of `s` to the iterator `std::find` returns for `x`:
      the position of the first element equal to `x`, or `|s|` (the end
      iterator) when no element is. */
  function Find<T(==)>(s: seq<T>, x: T): (r: nat)
    ensures r <= |s|
    ensures r < |s| <==> x in s
    ensures r < |s| ==> s[r] == x
    ensures forall j :: 0 <= j < r ==> s[j] != x
  {
    if |s| == 0 then 0
    else if s[0] == x then 0
    else
      assert s == [s[0]] + s[1..];
      1 + Find(s[1..], x)
  }

  /** The same search as a loop over the range, the way `std::find` walks it. */
  method FindIndex<T(==)>(s: seq<T>, x: T) returns (p: nat)
    ensures p <= |s|
    ensures p < |s| ==> s[p] == x
    ensures forall j :: 0 <= j < p ==> s[j] != x
    ensures p == Find(s, x)
  {
    p := 0;
    while p < |s| && s[p] != x
      invariant p <= |s|
      invariant forall j :: 0 <= j < p ==> s[j] != x
    {
      p := p + 1;
    }
  }
}
