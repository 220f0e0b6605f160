/** Array functions of JavaScript that the application's handlers are built from. */
module Lists {

  /** `xs.map(f)`: a fresh sequence of the same length holding `f` of each element, in order. */
  function Map<A, B>(xs: seq<A>, f: A -> B): (r: seq<B>)
    ensures |r| == |xs|
    ensures forall i :: 0 <= i < |xs| ==> r[i] == f(xs[i])
  {
    if xs == [] then [] else [f(xs[0])] + Map(xs[1..], f)
  }

}
