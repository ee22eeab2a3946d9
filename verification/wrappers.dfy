/** The optional value used for the predecessor link of a search node, the
    endpoints of the game data and the result of the search. */
module Wrappers {

  datatype Option<+T> = None | Some(value: T)
}
