/** One entry of an enum register's table (src/modbus_client/device/registers/enum_definition.py). */
module EnumDefinitions {
  import opened Wrappers
  import opened Exceptions
  import opened Text
  import opened Labels

  datatype EnumDefinition = EnumDefinition(name: string, value: int, display: Option<string>)
  {
    /** `get_display`: `"{display} ({name})"`, or the name alone. */
    function GetDisplay(): (s: string)
      ensures display.None? ==> s == name
      ensures display.Some? ==> |s| == |display.value| + |name| + 3 && s[..|display.value|] == display.value
      ensures display.Some? ==> s[|display.value|] == ' ' && s[|display.value| + 1] == '(' && s[|s| - 1] == ')'
      ensures display.Some? ==> s[|display.value| + 2 .. |s| - 1] == name
      ensures IsIdentifier(name) ==> NameShown(s) == name
    {
      DisplayText(name, display)
    }
  }

  /** The validated constructor: the name must match `^[a-zA-Z][a-zA-Z0-9_]*$`; `display`
      is `None` unless given. */
  function NewEnumDefinition(name: string, value: int, display: Option<string> := None): (r: Result<EnumDefinition, Exception>)
    ensures r.Ok? <==> IsIdentifier(name)
    ensures r.Ok? ==> r.value == EnumDefinition(name, value, display)
    ensures r.Err? ==> r.error == ValidationError
  {
    if IsIdentifier(name) then Ok(EnumDefinition(name, value, display)) else Err(ValidationError)
  }
}
