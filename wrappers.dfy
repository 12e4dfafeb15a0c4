/** The Some/None datatype used by the decoders of the MCP4728 model. */
module Wrappers {

  datatype Option<+T> = None | Some(value: T)
}
