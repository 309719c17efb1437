/** The optional-value type shared by the whole model: a form field that was not
    submitted, a table that did not survive field cleaning, a restaurant without
    a setting. */
module Wrappers {

  datatype Option<+T> = None | Some(value: T)
}
