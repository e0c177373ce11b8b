/** The optional value used throughout the model: a missing workbook file, an empty worksheet cell,
    a card identity not yet read. */
module Wrappers {

  datatype Option<+T> = None | Some(value: T)
}
