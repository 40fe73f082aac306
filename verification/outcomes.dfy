/** Failure results shared by the C and the Python models. */
module Outcomes {

  /** The fatal conditions the sources signal. */
  datatype Error =
    | NoAncestor   // rank finds no row containing the probed cluster
    | NoChild      // the child scan finds no row inside the cluster u

  datatype Result<T> = Ok(value: T) | Fail(error: Error)

  /** Adds `d` moves already counted to the moves of a computation that may fail. */
  function AddMoves(d: nat, res: Result<nat>): (r: Result<nat>)
    ensures r.Ok? <==> res.Ok?
    ensures r.Ok? ==> r.value == d + res.value
    ensures r.Fail? ==> r.error == res.error
  {
    match res
    case Ok(m) => Ok(d + m)
    case Fail(e) => Fail(e)
  }

  /** Counting moves in two steps is counting their sum. */
  lemma AddMovesTwice(a: nat, b: nat, res: Result<nat>)
    ensures AddMoves(a, AddMoves(b, res)) == AddMoves(a + b, res)
  {
  }
}
