/**
 * The exceptions the encoder can raise, and the outcome of one builder call.
 */
module Errors {

  /** The exception classes raised by raster.py and conversion.py, by the condition that raises them. */
  datatype Error =
    | UnknownModel        // BrotherQLUnknownModel: the model name is not in the models table
    | UnknownLabel        // KeyError: the label identifier is not in label_type_specs
    | UnsupportedCmd      // BrotherQLUnsupportedCmd: a command the model lacks, under the raising policy
    | RasterError         // BrotherQLRasterError: wrong pixel width or planes of different sizes
    | ValueError          // a value that does not fit in a byte, or a die-cut image of the wrong aspect ratio
    | StructError         // struct.error: a value that does not fit a little-endian field
    | AttributeError      // a media field read before it was ever assigned
    | ZeroDivision        // ZeroDivisionError in the geometry arithmetic

  /**
   * How a call returned: normally, normally after logging an "unsupported command" warning
   * (the skip-and-warn policy), or by raising.
   */
  datatype Status = Done | Warned | Raised(error: Error)
}
