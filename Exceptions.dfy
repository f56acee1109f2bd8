/** The Java runtime exceptions the control-point solver can raise. */
module Exceptions {

  datatype Exception =
    | IllegalArgument(argument: int)   // Collections.nCopies given a negative length
    | IndexOutOfBounds(index: int)     // List.get with an index outside the list
}
