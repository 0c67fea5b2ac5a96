// Sequences as lists with an element taken out or put in.
module Sequences {

  function RemoveAt<T>(l: seq<T>, k: nat): seq<T>
    requires k < |l|
  {
    l[..k] + l[k + 1..]
  }

  function InsertAt<T>(l: seq<T>, k: nat, a: T): seq<T>
    requires k <= |l|
  {
    l[..k] + [a] + l[k..]
  }

  /** a goes behind the first element. */
  function Behind<T>(l: seq<T>, a: T): seq<T>
    requires |l| > 0
  {
    [l[0], a] + l[1..]
  }
}
