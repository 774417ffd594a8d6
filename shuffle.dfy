/** shuffle(): the Fisher-Yates shuffle, in place.  Math.random is not
    modelled: each swap partner is any index in 0..i, chosen
    nondeterministically, which covers every value the source can draw. */
module Shuffling {
  method Shuffle<T>(a: array<T>)
    modifies a
    ensures multiset(a[..]) == multiset(old(a[..]))
  {
    var i := a.Length - 1;
    while i > 0
      invariant -1 <= i < a.Length
      invariant multiset(a[..]) == multiset(old(a[..]))
      decreases i
    {
      var j :| 0 <= j <= i;
      a[i], a[j] := a[j], a[i];
      i := i - 1;
    }
  }

  /** The rows of a column, copied into an array and shuffled there, as
      search() does with the row list it collects. */
  method Shuffled<T>(xs: seq<T>) returns (ys: seq<T>)
    ensures multiset(ys) == multiset(xs)
  {
    var a := new T[|xs|](i requires 0 <= i < |xs| => xs[i]);
    assert a[..] == xs;
    Shuffle(a);
    ys := a[..];
  }
}
