/** One flag of a flags register (src/modbus_client/device/registers/flag_definition.py):
    a named bit, written in a device file either as fields or as the text `name/bit`. */
module FlagDefinitions {
  import opened Wrappers
  import opened Exceptions
  import opened Text
  import opened Labels

  datatype FlagDefinition = FlagDefinition(name: string, bit: int, display: Option<string>)
  {
    /** `get_display`: `"{display} ({name})"`, or the name alone. */
    function GetDisplay(): (s: string)
      ensures display.None? ==> s == name
      ensures display.Some? ==> |s| == |display.value| + |name| + 3 && s[..|display.value|] == display.value
      ensures display.Some? ==> s[|display.value|] == ' ' && s[|display.value| + 1] == '(' && s[|s| - 1] == ')'
      ensures display.Some? ==> s[|display.value| + 2 .. |s| - 1] == name
      ensures IsIdentifier(name) ==> NameShown(s) == name
    {
      DisplayText(name, display)
    }
  }

  /** The validated constructor: the name must match `^[a-zA-Z][a-zA-Z0-9_]*$`. */
  function NewFlagDefinition(name: string, bit: int, display: Option<string> := None): (r: Result<FlagDefinition, Exception>)
    ensures r.Ok? <==> IsIdentifier(name)
    ensures r.Ok? ==> r.value == FlagDefinition(name, bit, display)
    ensures r.Err? ==> r.error == ValidationError
  {
    if IsIdentifier(name) then Ok(FlagDefinition(name, bit, display)) else Err(ValidationError)
  }

  // ---------------------------------------------------------------------------
  // The text form `name/bit`

  /** `[a-zA-Z0-9_ ]` */
  predicate IsNameChar(c: char) {
    IsWordChar(c) || c == ' '
  }

  /** The groups of a match: the name part, and the bit digits when present. */
  datatype FlagMatch = FlagMatch(nameGroup: string, bitGroup: Option<string>)

  /** `re.match(r"^([a-zA-Z0-9_ ]+)/\s*([0-9]+)?$", s)`. Every repetition is greedy and
      what follows it cannot start with a character it takes, so the maximal runs are the
      match. */
  function MatchFlagDef(s: string): (m: Option<FlagMatch>)
    ensures m.Some? ==>
      && |m.value.nameGroup| > 0 && |m.value.nameGroup| < |s|
      && s[..|m.value.nameGroup|] == m.value.nameGroup
      && (forall i :: 0 <= i < |m.value.nameGroup| ==> IsNameChar(m.value.nameGroup[i]))
      && s[|m.value.nameGroup|] == '/'
      && (m.value.bitGroup.Some? ==> |m.value.bitGroup.value| > 0 && AllDigits(m.value.bitGroup.value))
  {
    var n := Span(s, IsNameChar);
    if n == 0 || n == |s| || s[n] != '/' then None
    else
      var after := s[n + 1..];
      var w := Span(after, IsSpace);
      var d := Span(after[w..], IsDigit);
      if AtEnd(after, w + d) then
        Some(FlagMatch(s[..n], if d == 0 then None else Some(after[w..][..d])))
      else None
  }

  /** `parse_flag_def` as written: the name part stripped and the bit digits as an int.
      When the bit is missing (`"name/"`) the match succeeds with no second group, and
      calling `strip` on it raises `AttributeError`. */
  function ParseFlagDefAsWritten(s: string): (r: Result<FlagDefinition, Exception>)
    ensures r.Err? ==> r.error == ValueError || r.error == AttributeError || r.error == ValidationError
    ensures r.Err? && r.error == ValueError <==> MatchFlagDef(s).None?
  {
    match MatchFlagDef(s)
    case None => Err(ValueError)
    case Some(FlagMatch(_, None)) => Err(AttributeError)
    case Some(FlagMatch(g1, Some(g2))) => NewFlagDefinition(Strip(g1), DecimalValue(g2))
  }

  /** `parse_flag_def` with a missing bit refused as an invalid definition, like every
      other text that does not spell a flag. */
  function ParseFlagDef(s: string): (r: Result<FlagDefinition, Exception>)
    ensures r.Ok? ==> IsIdentifier(r.value.name) && r.value.bit >= 0 && r.value.display.None?
    ensures r.Err? ==> r.error == ValueError || r.error == ValidationError
    ensures ParseFlagDefAsWritten(s) != Err(AttributeError) ==> r == ParseFlagDefAsWritten(s)
    ensures ParseFlagDefAsWritten(s) == Err(AttributeError) ==> r == Err(ValueError)
  {
    match MatchFlagDef(s)
    case None => Err(ValueError)
    case Some(FlagMatch(_, None)) => Err(ValueError)
    case Some(FlagMatch(g1, Some(g2))) => NewFlagDefinition(Strip(g1), DecimalValue(g2))
  }

  /** A name and a slash with no bit after it: the code as written raises
      `AttributeError` instead of the `ValueError` it raises for every other invalid
      text; the corrected parser raises `ValueError`. */
  lemma MissingBit(name: string)
    requires IsIdentifier(name)
    ensures ParseFlagDefAsWritten(name + "/") == Err(AttributeError)
    ensures ParseFlagDef(name + "/") == Err(ValueError)
  {
    var s := name + "/";
    assert s[|name|] == '/';
    assert Span(s, IsNameChar) == |name|;
    var after := s[|name| + 1..];
    assert after == [];
  }

  /** The groups of `name/ bit`: the name part and the digits. */
  lemma MatchFlagText(g: string, ws: string, digits: string)
    requires |g| > 0 && forall i :: 0 <= i < |g| ==> IsNameChar(g[i])
    requires forall i :: 0 <= i < |ws| ==> IsSpace(ws[i])
    requires |digits| > 0 && AllDigits(digits)
    ensures MatchFlagDef(g + "/" + ws + digits) == Some(FlagMatch(g, Some(digits)))
  {
    var s := g + "/" + ws + digits;
    assert s[|g|] == '/';
    assert Span(s, IsNameChar) == |g|;
    assert s[..|g|] == g;
    var after := s[|g| + 1..];
    assert after == ws + digits;
    assert after[|ws|] == digits[0];
    assert Span(after, IsSpace) == |ws|;
    assert after[|ws|..] == digits;
    assert Span(digits, IsDigit) == |digits|;
    assert AtEnd(after, |ws| + |digits|);
    assert after[|ws|..][..|digits|] == digits;
  }

  /** A flag written `name/bit`, with spaces allowed around the name and whitespace after
      the slash, reads back as that name and bit. */
  lemma ParseFlagDefText(pre: string, name: string, post: string, ws: string, bit: nat)
    requires forall i :: 0 <= i < |pre| ==> pre[i] == ' '
    requires forall i :: 0 <= i < |post| ==> post[i] == ' '
    requires forall i :: 0 <= i < |ws| ==> IsSpace(ws[i])
    requires IsIdentifier(name)
    ensures ParseFlagDef(pre + name + post + "/" + ws + Decimal(bit)) == Ok(FlagDefinition(name, bit, None))
  {
    var g := pre + name + post;
    assert forall i :: 0 <= i < |g| ==> IsNameChar(g[i]);
    MatchFlagText(g, ws, Decimal(bit));
    StripPadded(pre, name, post);
  }

  // ---------------------------------------------------------------------------
  // Validation of a flag entry

  /** A flag as a device file gives it: a text, or the fields. */
  datatype FlagInput = FlagText(text: string) | FlagFields(name: string, bit: int, display: Option<string>)

  /** Validating a flag entry: `_parse` turns a text into its name and bit before the
      field checks (dropping any display text). The `ValueError` it raises for a bad text
      reaches the caller as a `ValidationError`; the `AttributeError` of a text without
      a bit is not one pydantic catches, so it escapes validation unchanged. */
  function ValidateFlag(v: FlagInput): (r: Result<FlagDefinition, Exception>)
    ensures r.Err? ==> r.error == ValidationError || r.error == AttributeError
    ensures r == Err(AttributeError) <==> v.FlagText? && ParseFlagDefAsWritten(v.text) == Err(AttributeError)
    ensures v.FlagText? ==> (r.Ok? <==> ParseFlagDef(v.text).Ok?)
    ensures v.FlagText? && r.Ok? ==> r.value == ParseFlagDef(v.text).value
    ensures v.FlagFields? ==> r == NewFlagDefinition(v.name, v.bit, v.display)
  {
    match v
    case FlagText(s) =>
      (match ParseFlagDefAsWritten(s)
       case Ok(d) => NewFlagDefinition(d.name, d.bit)
       case Err(e) => if e == AttributeError then Err(AttributeError) else Err(ValidationError))
    case FlagFields(name, bit, display) => NewFlagDefinition(name, bit, display)
  }

  /** A flag written as a name and a slash with no bit escapes validation with the
      `AttributeError` of `parse_flag_def`, where a bad bit or name is a validation
      error. */
  lemma ValidateFlagWithoutBit(name: string)
    requires IsIdentifier(name)
    ensures ValidateFlag(FlagText(name + "/")) == Err(AttributeError)
    ensures ValidateFlag(FlagText(name + "/1")) == Ok(FlagDefinition(name, 1, None))
  {
    MissingBit(name);
    ParseBitOne(name);
  }

  lemma ParseBitOne(name: string)
    requires IsIdentifier(name)
    ensures ParseFlagDef(name + "/1") == Ok(FlagDefinition(name, 1, None))
  {
    var one := Decimal(1);
    assert one == "1";
    ParseFlagDefText([], name, [], [], 1);
    assert [] + name + [] + "/" + [] + one == name + "/1";
  }
}
