/**
  The random reordering the app applies to answer options and to the question
  list. The JavaScript code sorts with a comparator returning
  `Math.random() - 0.5`; here the random source is an explicit sequence of
  draws, and the only promise made about the outcome is the one the code can
  keep: the result is a permutation of the input.
*/
module RandomOrder {

  /** Repeatedly moves the element picked by the next draw to the output. */
  function Shuffle<T>(s: seq<T>, draws: seq<nat>): (r: seq<T>)
    ensures |r| == |s|
    ensures multiset(r) == multiset(s)
    decreases |s|
  {
    if s == [] then []
    else
      var k := (if draws == [] then 0 else draws[0]) % |s|;
      assert s == s[..k] + [s[k]] + s[k + 1..];
      [s[k]] + Shuffle(s[..k] + s[k + 1..], if draws == [] then [] else draws[1..])
  }
}
