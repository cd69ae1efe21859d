/** The transport the engine talks to (src/modbus_client/client/async_modbus_client.py),
    as an oracle: the model does not see the wire, only which calls are made, in which
    order, and what each one answers. The calls are the Modbus functions of section 6
    of the Modbus Application Protocol Specification V1.1b3. */
module Transport {
  import opened Wrappers
  import opened Exceptions

  /** The four Modbus data tables. */
  datatype RegisterKind = Coil | DiscreteInputs | InputRegister | HoldingRegister
  {
    /** Position in the order the read session issues its reads. */
    function Rank(): nat {
      match this
      case Coil => 0
      case DiscreteInputs => 1
      case InputRegister => 2
      case HoldingRegister => 3
    }

    /** Coils and discrete inputs hold bits; input and holding registers hold words. */
    predicate IsBitTable() {
      this == Coil || this == DiscreteInputs
    }
  }

  /** What a read returns per address: `bool` for coils, `int` otherwise. */
  datatype RegisterValue = Word(w: int) | Bit(b: bool)

  datatype Call =
    | Read(kind: RegisterKind, unit: int, address: int, count: int)
    | WriteCoil(unit: int, address: int, on: bool)
    | WriteHoldingRegister(unit: int, address: int, word: int)
    | WriteHoldingRegisters(unit: int, address: int, words: seq<int>)
  {
    /** The Modbus function code of the request (sections 6.1-6.6 and 6.12 of the
        Modbus Application Protocol Specification V1.1b3). */
    function FunctionCode(): nat {
      match this
      case Read(kind, _, _, _) =>
        (match kind
         case Coil => 0x01
         case DiscreteInputs => 0x02
         case HoldingRegister => 0x03
         case InputRegister => 0x04)
      case WriteCoil(_, _, _) => 0x05
      case WriteHoldingRegister(_, _, _) => 0x06
      case WriteHoldingRegisters(_, _, _) => 0x10
    }
  }

  /** The transport's answer to `call` after the calls of `history`: the values read (empty
      for a write), or the exception the call raises. */
  type Client = (seq<Call>, Call) -> Result<seq<RegisterValue>, TransportError>

  /** `DefaultMaxReadSize` of the client interface. */
  const DefaultMaxReadSize: int := 100

  /** A client whose successful reads return exactly `count` values, as the pymodbus
      client checks before returning. */
  ghost predicate WellBehaved(client: Client) {
    forall history: seq<Call>, call: Call ::
      call.Read? && client(history, call).Ok? ==> |client(history, call).value| == call.count
  }
}
