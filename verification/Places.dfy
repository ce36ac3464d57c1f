/** Where things stand in a list. */
module Places {
  import opened Options

  /** What stands at place `n`, if anything does. */
  function Nth<T>(xs: seq<T>, n: nat): Option<T> {
    if n < |xs| then Some(xs[n]) else None
  }
}
