/** The Python exceptions the modelled code raises, by kind. */
module Exceptions {

  /** What a transport call may fail with: the two exceptions of
      src/modbus_client/client/exceptions.py, or anything else the client implementation
      raises (a timeout, a closed connection). */
  datatype TransportError = ReadErrorException | WriteErrorException | OtherTransportError

  datatype Exception =
    | ValueError          // bad value: unknown tag, malformed definition, unknown enum name
    | TypeError           // wrong argument type, duplicate keyword argument
    | AttributeError      // attribute looked up on None
    | KeyError            // a read session lacks an entry
    | AssertionError      // an `assert` in the source failed
    | StructError         // `struct.pack` refused a value outside the format's range
    | OverflowError       // a float too large for the float32 format
    | ZeroDivisionError   // division by a zero scale
    | ValidationError     // pydantic refused a field
    | ArgumentTypeError   // argparse type converter refused its argument
    | InvalidType         // the bare `Exception("invalid type")`
    | InvalidDefinition   // the bare `Exception("invalid definition")`
    | Transport(error: TransportError)
}
