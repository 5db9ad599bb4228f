/** The Python exception classes the modelled code raises or catches. */
module Exceptions {
  datatype Exception =
    | ValueError          // invalid argument, malformed or corrupted data
    | StructError         // a value `struct.pack` cannot encode
    | TypeError           // an operation applied to a value of the wrong type
    | IndexError          // a byte index past the end of a bytes object
    | ConfigurationError  // a configuration file that fails validation
    | UnicodeDecodeError  // bytes that are not valid UTF-8
    | ZeroDivisionError   // a division by zero
    | UnboundLocalError   // a local variable read before any assignment
}
