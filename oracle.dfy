/** The randomness source, crypto.randomInt, as an oracle.

    The model does not draw random numbers: every value crypto.randomInt
    returns is an input of the operation that calls it (a "draw"), and each
    draw is only required to lie in the range the oracle promises. Every
    property proved about an operation therefore holds for all admissible
    draws, whichever the source produces. */
module Oracle {
  import opened Wrappers

  /** The draws are admissible results of randomInt(lo, hi): each lies in the
      half-open range [lo, hi). When the range is empty randomInt throws
      before any draw is used, so nothing is demanded of them. */
  predicate Admissible(draws: seq<int>, lo: int, hi: int)
  {
    lo < hi ==> forall k :: 0 <= k < |draws| ==> lo <= draws[k] < hi
  }

  /** crypto.randomInt(lo, hi), whose result is the given draw. */
  function RandomInt(lo: int, hi: int, draw: int): (r: Result<int>)
    requires lo < hi ==> lo <= draw < hi
    ensures r.Ok? <==> lo < hi
    ensures r.Err? ==> r.error == OutOfRange
    ensures r.Ok? ==> lo <= r.value < hi && r.value == draw
  {
    if hi <= lo then Err(OutOfRange) else Ok(draw)
  }

  lemma AdmissiblePrefix(draws: seq<int>, n: int, lo: int, hi: int)
    requires Admissible(draws, lo, hi) && 0 <= n <= |draws|
    ensures Admissible(draws[..n], lo, hi)
  {
  }
}
