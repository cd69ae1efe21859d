/** The converter table (src/modbus_client/registers/type_converters.py): for every numeric
    tag, the `struct` format letter of the value, whether the words go most significant
    first, and the function that turns a written value into what `struct.pack` accepts. */
module TypeConverters {
  import opened Wrappers
  import opened Exceptions
  import opened RegisterTypes

  /** The `struct` format letters the table uses. */
  type FormatChar = c: char | c in "hHiIqQf" witness 'h'

  /** `struct.calcsize(format)` in bytes. */
  function CalcSize(format: FormatChar): nat {
    if format in "hH" then 2 else if format in "iIf" then 4 else 8
  }

  /** Number of 16-bit words a value occupies: `calcsize(format) // 2`. */
  function WordCount(format: FormatChar): nat {
    CalcSize(format) / 2
  }

  /** Lower-case integer letters are signed; `f` is a float. */
  predicate IsSigned(format: FormatChar) {
    format in "hiqf"
  }

  /** `round` for the integer formats, `float` for `f`. */
  datatype ConverterFunc = Round | ToFloat

  datatype Converter = Converter(format: FormatChar, reverseBytes: bool, func: ConverterFunc)

  /** The table of `get_type_converter`: the converter of each stored tag; the virtual
      tags have no entry. */
  function ConverterEntry(t: RegisterType): (c: Option<Converter>)
    ensures c.Some? <==> !t.IsVirtual()
  {
    match t
    case S16 => Some(Converter('h', false, Round))
    case U16 => Some(Converter('H', false, Round))
    case S32BE => Some(Converter('i', true, Round))
    case U32BE => Some(Converter('I', true, Round))
    case S32LE => Some(Converter('i', false, Round))
    case U32LE => Some(Converter('I', false, Round))
    case S64BE => Some(Converter('q', true, Round))
    case U64BE => Some(Converter('Q', true, Round))
    case S64LE => Some(Converter('q', false, Round))
    case U64LE => Some(Converter('Q', false, Round))
    case F32BE => Some(Converter('f', true, ToFloat))
    case F32LE => Some(Converter('f', false, ToFloat))
    case Enum | Bool | Flags => None
  }

  // Facts about a tag read off its name.

  predicate NameEndsWithBE(name: string) {
    |name| >= 2 && name[|name| - 2..] == "be"
  }

  predicate NameStartsWith(name: string, prefix: string) {
    |name| >= |prefix| && name[..|prefix|] == prefix
  }

  /** `get_type_converter`: the table entry, or `ValueError` for the virtual tags. */
  function GetTypeConverter(t: RegisterType): (r: Result<Converter, Exception>)
    ensures r.Err? <==> t.IsVirtual()
    ensures r.Err? ==> r.error == ValueError
    ensures r.Ok? ==> r.value == ConverterEntry(t).value
  {
    match ConverterEntry(t)
    case Some(c) => Ok(c)
    case None => Err(ValueError)
  }

  /** Words go most significant first exactly for the tags whose name ends in `be`. */
  lemma ReverseBytesIffBigEndian(t: RegisterType)
    requires !t.IsVirtual()
    ensures GetTypeConverter(t).value.reverseBytes <==> NameEndsWithBE(t.Name())
  {
  }

  /** Integer tags convert with `round`, the `float` tags with `float`. */
  lemma RoundIffInteger(t: RegisterType)
    requires !t.IsVirtual()
    ensures GetTypeConverter(t).value.func == Round <==> !NameStartsWith(t.Name(), "float")
  {
    assert t.Name()[0] == 'f' <==> t in {F32BE, F32LE};
  }

  /** The format is signed unless the tag name starts with `u`. */
  lemma SignedUnlessUnsigned(t: RegisterType)
    requires !t.IsVirtual()
    ensures IsSigned(GetTypeConverter(t).value.format) <==> !NameStartsWith(t.Name(), "u")
  {
    FirstLetter(t.Name(), 'u');
    match t
    case S16 => case U16 => case S32BE => case S32LE => case U32BE => case U32LE =>
    case S64BE => case S64LE => case U64BE => case U64LE => case F32BE => case F32LE =>
  }

  /** A one-letter prefix is the first letter. */
  lemma FirstLetter(name: string, c: char)
    ensures NameStartsWith(name, [c]) <==> |name| > 0 && name[0] == c
  {
    if |name| > 0 && name[0] == c {
      assert name[..1] == [c];
    }
  }

  /** A value fills the bit width the tag names, 16 bits per word. */
  lemma WidthMatchesName(t: RegisterType)
    requires !t.IsVirtual()
    ensures 16 * WordCount(GetTypeConverter(t).value.format) == t.BitWidth()
  {
  }
}
