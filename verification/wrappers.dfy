/** The optional-value type used where the game returns "no value": no player
    to move on a full board, no winner, no move on a finished game. */
module Wrappers {

  datatype Option<+T> = None | Some(value: T)
}
