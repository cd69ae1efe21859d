/** The value-type tags a register definition names (src/modbus_client/device/registers/register_type.py).
    The same strings key the converter table; `enum`, `bool` and `flags` are virtual tags
    with no word format of their own. */
module RegisterTypes {
  import opened Wrappers
  import opened Exceptions

  datatype RegisterType =
    | S16 | U16
    | S32BE | S32LE | U32BE | U32LE
    | S64BE | S64LE | U64BE | U64LE
    | F32BE | F32LE
    | Enum | Bool | Flags
  {
    /** The tag as written in a definition. */
    function Name(): string {
      match this
      case S16 => "int16"
      case U16 => "uint16"
      case S32BE => "int32be"
      case S32LE => "int32le"
      case U32BE => "uint32be"
      case U32LE => "uint32le"
      case S64BE => "int64be"
      case S64LE => "int64le"
      case U64BE => "uint64be"
      case U64LE => "uint64le"
      case F32BE => "float32be"
      case F32LE => "float32le"
      case Enum => "enum"
      case Bool => "bool"
      case Flags => "flags"
    }

    /** The width in bits the tag's name gives: 16, 32 or 64; 0 for a virtual tag. */
    function BitWidth(): nat {
      match this
      case S16 | U16 => 16
      case S32BE | S32LE | U32BE | U32LE | F32BE | F32LE => 32
      case S64BE | S64LE | U64BE | U64LE => 64
      case Enum | Bool | Flags => 0
    }

    predicate IsVirtual() {
      this == Enum || this == Bool || this == Flags
    }
  }

  /** `RegisterType(s)`: the tag whose value is `s`, or `ValueError`. */
  function FromName(s: string): (r: Result<RegisterType, Exception>)
    ensures r.Ok? ==> r.value.Name() == s
    ensures r.Err? ==> r.error == ValueError && forall t: RegisterType :: t.Name() != s
  {
    if s == "int16" then Ok(S16)
    else if s == "uint16" then Ok(U16)
    else if s == "int32be" then Ok(S32BE)
    else if s == "int32le" then Ok(S32LE)
    else if s == "uint32be" then Ok(U32BE)
    else if s == "uint32le" then Ok(U32LE)
    else if s == "int64be" then Ok(S64BE)
    else if s == "int64le" then Ok(S64LE)
    else if s == "uint64be" then Ok(U64BE)
    else if s == "uint64le" then Ok(U64LE)
    else if s == "float32be" then Ok(F32BE)
    else if s == "float32le" then Ok(F32LE)
    else if s == "enum" then Ok(Enum)
    else if s == "bool" then Ok(Bool)
    else if s == "flags" then Ok(Flags)
    else Err(ValueError)
  }

  /** Every tag is found again from its name. */
  lemma FromNameOfName(t: RegisterType)
    ensures FromName(t.Name()) == Ok(t)
  {
    NamesDistinct(t, FromName(t.Name()).value);
  }

  /** No two tags share a name. */
  lemma NamesDistinct(t: RegisterType, u: RegisterType)
    requires t.Name() == u.Name()
    ensures t == u
  {
    assert t.Name()[|t.Name()| - 1] == u.Name()[|u.Name()| - 1];
    assert |t.Name()| == |u.Name()|;
  }
}
