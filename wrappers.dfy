/** The JavaScript `undefined`-or-value results of the modelled code. */
module Wrappers {

  datatype Option<+T> = None | Some(value: T)

}
