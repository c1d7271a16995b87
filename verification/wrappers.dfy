/** The optional-value datatype used for line locators and search results. */
module Wrappers {

  datatype Option<+T> = None | Some(value: T)
}
