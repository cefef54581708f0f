/** Failure-carrying values shared by the engine: an optional value, a
    result that is either a value or one of the errors the engine raises. */
module Wrappers {

  datatype Option<+T> = None | Some(value: T)

  datatype Result<+T> = Ok(value: T) | Err(error: Error)

  /** The ValueError conditions of the engine. */
  datatype Error =
    | InvalidColor                 // a colour argument that is neither BLACK nor WHITE
    | WeightsDoNotSumToOne         // evaluator weights whose total is not 1
    | UnknownHeuristic(name: string) // a weight keyed by a name the evaluator has no method for
    | MoveUnbound                  // get_player_move for a USER player: row and col are never bound
    | AwaitingInput                // get_offline_move still prompting: no typed square was accepted
}
