/** The registers of a device file (src/modbus_client/device/registers/device_register.py):
    a pydantic model whose fields are coerced from keyword arguments, checked as a whole
    by `check`, and built from a one-line definition by `DeviceHoldingRegister.parse` and
    `DeviceInputRegister.parse`. */
module DeviceRegisters {
  import opened Wrappers
  import opened Exceptions
  import opened Text
  import opened Numbers
  import opened RegisterTypes
  import opened EnumDefinitions
  import opened FlagDefinitions
  import opened BitArrays
  import opened RegisterDefinitions

  /** The class a register was built as: `DeviceHoldingRegister`, `DeviceInputRegister`,
      or the base class `IDeviceRegister` itself. */
  datatype DeviceKind = Holding | Input | Base

  /** `Union[StrictInt, StrictFloat]`: an int or a float, never text. */
  type Scale = v: Value | v.IsNumber() witness Int(1)

  /** The fields of `IDeviceRegister`; `bits` is the list inside the `BitArray`. */
  datatype DeviceRegister = DeviceRegister(
    kind: DeviceKind,
    name: string,
    address: int,
    readonly: bool,
    scale: Scale,
    valueType: RegisterType,
    unit: Option<string>,
    bits: Option<seq<nat>>,
    enumDefs: Option<seq<EnumDefinition>>,
    flags: Option<seq<FlagDefinition>>,
    bit: int)

  // ---------------------------------------------------------------------------
  // Field coercion

  /** An int written as text: an optional sign and decimal digits. */
  predicate IsNumeral(s: string) {
    if s != [] && (s[0] == '-' || s[0] == '+') then |s| > 1 && AllDigits(s[1..])
    else |s| > 0 && AllDigits(s)
  }

  function NumeralValue(s: string): int
    requires IsNumeral(s)
  {
    if s[0] == '-' || s[0] == '+' then Signed(s[0], DecimalValue(s[1..])) else DecimalValue(s)
  }

  /** An `int` field: an int, a bool, a float without a fraction, or a numeral. */
  function CoerceInt(f: Field): (r: Option<int>)
    ensures f.FInt? ==> r == Some(f.i)
    ensures f.FText? ==> (r.Some? <==> IsNumeral(f.s))
    ensures f.FNone? || f.FType? || f.FEnumList? || f.FFlagList? ==> r.None?
  {
    match f
    case FInt(i) => Some(i)
    case FBool(b) => Some(if b then 1 else 0)
    case FFloat(x) => if x.Floor as real == x then Some(x.Floor) else None
    case FText(s) => if IsNumeral(s) then Some(NumeralValue(s)) else None
    case _ => None
  }

  /** The texts a `bool` field reads as false and as true, in lower case. */
  predicate IsFalseWord(s: string) {
    s == "0" || s == "off" || s == "f" || s == "false" || s == "n" || s == "no"
  }

  predicate IsTrueWord(s: string) {
    s == "1" || s == "on" || s == "t" || s == "true" || s == "y" || s == "yes"
  }

  /** A `bool` field: a bool, the int 0 or 1, or one of the words above in any case. */
  function CoerceBool(f: Field): (r: Option<bool>)
    ensures f.FBool? ==> r == Some(f.b)
    ensures f.FText? ==> (r == Some(true) <==> IsTrueWord(Lower(f.s))) && (r == Some(false) <==> IsFalseWord(Lower(f.s)))
    ensures f.FFloat? || f.FNone? || f.FType? || f.FEnumList? || f.FFlagList? ==> r.None?
  {
    match f
    case FBool(b) => Some(b)
    case FInt(i) => if i == 0 then Some(false) else if i == 1 then Some(true) else None
    case FText(s) =>
      if IsTrueWord(Lower(s)) then Some(true) else if IsFalseWord(Lower(s)) then Some(false) else None
    case _ => None
  }

  /** The `name` field: text matching `^[a-zA-Z][a-zA-Z0-9_]*$`. */
  function CoerceName(f: Field): (r: Option<string>)
    ensures r.Some? <==> f.FText? && IsIdentifier(f.s)
    ensures r.Some? ==> r.value == f.s
  {
    if f.FText? && IsIdentifier(f.s) then Some(f.s) else None
  }

  /** The `scale` field: strictly an int or a float. */
  function CoerceScale(f: Field): (r: Option<Scale>)
    ensures r.Some? <==> f.FInt? || f.FFloat?
    ensures f.FInt? ==> r == Some(Int(f.i))
    ensures f.FFloat? ==> r == Some(Float(f.x))
  {
    match f
    case FInt(i) => Some(Int(i))
    case FFloat(x) => Some(Float(x))
    case _ => None
  }

  /** The `type` field: a tag, or text equal to a tag's value. */
  function CoerceType(f: Field): (r: Option<RegisterType>)
    ensures f.FType? ==> r == Some(f.t)
    ensures f.FText? ==> (r.Some? <==> FromName(f.s).Ok?)
    ensures r.Some? && f.FText? ==> r.value.Name() == f.s
    ensures !f.FType? && !f.FText? ==> r.None?
  {
    match f
    case FType(t) => Some(t)
    case FText(s) => if FromName(s).Ok? then Some(FromName(s).value) else None
    case _ => None
  }

  /** The `unit` field: `None` or text. */
  function CoerceUnit(f: Field): (r: Option<Option<string>>)
    ensures r.Some? <==> f.FNone? || f.FText?
    ensures f.FNone? ==> r == Some(None)
    ensures f.FText? ==> r == Some(Some(f.s))
  {
    match f
    case FNone => Some(None)
    case FText(s) => Some(Some(s))
    case _ => None
  }

  /** Every entry of an enum table has a valid name. */
  predicate ValidEntries(defs: seq<EnumDefinition>) {
    forall i :: 0 <= i < |defs| ==> NewEnumDefinition(defs[i].name, defs[i].value, defs[i].display).Ok?
  }

  /** The `enum` field: `None` or a list of valid entries. */
  function CoerceEnums(f: Field): (r: Option<Option<seq<EnumDefinition>>>)
    ensures r.Some? <==> f.FNone? || (f.FEnumList? && ValidEntries(f.defs))
    ensures r.Some? && r.value.Some? ==> f.FEnumList? && r.value.value == f.defs
  {
    match f
    case FNone => Some(None)
    case FEnumList(defs) => if ValidEntries(defs) then Some(Some(defs)) else None
    case _ => None
  }

  /** Each flag entry validated in turn. A refused entry is collected as a validation
      error, but an `AttributeError` from any entry escapes the list unchanged. */
  function ValidateFlags(fs: seq<FlagInput>): (r: Result<seq<FlagDefinition>, Exception>)
    ensures r.Ok? <==> forall i :: 0 <= i < |fs| ==> ValidateFlag(fs[i]).Ok?
    ensures r.Ok? ==> |r.value| == |fs| && forall i :: 0 <= i < |fs| ==> r.value[i] == ValidateFlag(fs[i]).value
    ensures r == Err(AttributeError) <==> exists i :: 0 <= i < |fs| && ValidateFlag(fs[i]) == Err(AttributeError)
    ensures r.Err? ==> r.error == AttributeError || r.error == ValidationError
  {
    var m := MapAll(fs, ValidateFlag);
    if m.Ok? then Ok(m.value)
    else if exists i :: 0 <= i < |fs| && ValidateFlag(fs[i]) == Err(AttributeError) then Err(AttributeError)
    else Err(ValidationError)
  }

  /** The `flags` field: `None` or a list of valid flags. */
  function CoerceFlags(f: Field): (r: Result<Option<seq<FlagDefinition>>, Exception>)
    ensures r.Ok? <==> f.FNone? || (f.FFlagList? && ValidateFlags(f.flags).Ok?)
    ensures r.Ok? && r.value.Some? ==> f.FFlagList? && r.value.value == ValidateFlags(f.flags).value
    ensures r == Err(AttributeError) <==> f.FFlagList? && ValidateFlags(f.flags) == Err(AttributeError)
    ensures r.Err? ==> r.error == AttributeError || r.error == ValidationError
  {
    match f
    case FNone => Ok(None)
    case FFlagList(fs) =>
      (match ValidateFlags(fs)
       case Ok(flags) => Ok(Some(flags))
       case Err(e) => Err(e))
    case _ => Err(ValidationError)
  }

  /** The `bits` field: the `before` validator hands whatever it is given to
      `BitArray.parse`, so anything but text (`None` and `True` included) fails inside
      `re.match` with a `TypeError`, which pydantic does not catch; a text that does not
      match is a `ValueError`, which pydantic reports as a `ValidationError`. */
  function CoerceBits(f: Field): (r: Result<seq<nat>, Exception>)
    ensures !f.FText? <==> r == Err(TypeError)
    ensures f.FText? ==> (r.Ok? <==> ParseBitArray(f.s).Ok?)
    ensures f.FText? && r.Ok? ==> r == ParseBitArray(f.s)
    ensures r.Err? ==> r.error == TypeError || r.error == ValidationError
  {
    match f
    case FText(s) =>
      (match ParseBitArray(s)
       case Ok(bits) => Ok(bits)
       case Err(_) => Err(ValidationError))
    case _ => Err(TypeError)
  }

  /** Bits as `BitArray.parse` gives them: at least one, each one more than the last. */
  predicate Consecutive(bits: seq<nat>) {
    |bits| > 0 && forall i :: 0 < i < |bits| ==> bits[i] == bits[i - 1] + 1
  }

  // ---------------------------------------------------------------------------
  // Validation

  /** What `check` demands of the tags that need more than a value type: an `enum`
      register needs its table, a `flags` register its flags, and must be read-only. (The
      test of `bit` for a `bool` register can never fail: `bit` is an int.) */
  predicate MeetsTypeRules(reg: DeviceRegister) {
    && (reg.valueType == Enum ==> reg.enumDefs.Some?)
    && (reg.valueType == Flags ==> reg.flags.Some? && reg.readonly)
  }

  /** `check`, the model validator run after the fields: its `ValueError` reaches the
      caller as a `ValidationError`. */
  function Check(reg: DeviceRegister): (r: Result<DeviceRegister, Exception>)
    ensures r.Ok? <==> MeetsTypeRules(reg)
    ensures r.Ok? ==> r.value == reg
    ensures r.Err? ==> r.error == ValidationError
  {
    if reg.valueType == Enum && reg.enumDefs.None? then Err(ValidationError)
    else if reg.valueType == Flags && reg.flags.None? then Err(ValidationError)
    else if reg.valueType == Flags && !reg.readonly then Err(ValidationError)
    else Ok(reg)
  }

  /** The value of `key`, or the field's default. */
  function FieldOr(fields: Fields, key: string, default: Field): Field {
    if key in fields then fields[key] else default
  }

  /** A field that is present and refused by its coercion. */
  predicate FieldErrors(fields: Fields) {
    || "name" !in fields || CoerceName(fields["name"]).None?
    || "address" !in fields || CoerceInt(fields["address"]).None?
    || CoerceBool(FieldOr(fields, "readonly", FBool(false))).None?
    || CoerceScale(FieldOr(fields, "scale", FInt(1))).None?
    || CoerceType(FieldOr(fields, "type", FType(U16))).None?
    || CoerceUnit(FieldOr(fields, "unit", FNone)).None?
    || ("bits" in fields && CoerceBits(fields["bits"]).Err?)
    || CoerceEnums(FieldOr(fields, "enum", FNone)).None?
    || CoerceFlags(FieldOr(fields, "flags", FNone)).Err?
    || CoerceInt(FieldOr(fields, "bit", FInt(0))).None?
  }

  /** Building a register of class `kind` from keyword arguments: each field is coerced
      (keys the model does not know are ignored, missing ones take their defaults, and
      `name` and `address` are required), then `check` runs. The fields are validated in
      their declared order: a `TypeError` from the `bits` validator escapes at once, an
      `AttributeError` from a flag written without a bit escapes next, and every other
      refusal is a `ValidationError`. */
  function Validate(kind: DeviceKind, fields: Fields): (r: Result<DeviceRegister, Exception>)
    ensures r == Err(TypeError) <==> "bits" in fields && !fields["bits"].FText?
    ensures r == Err(AttributeError) <==>
      !("bits" in fields && !fields["bits"].FText?) && CoerceFlags(FieldOr(fields, "flags", FNone)) == Err(AttributeError)
    ensures r.Err? ==> r.error == TypeError || r.error == AttributeError || r.error == ValidationError
    ensures r.Ok? ==> "name" in fields && "address" in fields && !FieldErrors(fields)
    ensures r.Ok? ==> r.value.kind == kind && IsIdentifier(r.value.name) && MeetsTypeRules(r.value)
    ensures r.Ok? && r.value.bits.Some? ==> Consecutive(r.value.bits.value)
  {
    if "bits" in fields && CoerceBits(fields["bits"]) == Err(TypeError) then Err(TypeError)
    else if CoerceFlags(FieldOr(fields, "flags", FNone)) == Err(AttributeError) then Err(AttributeError)
    else if FieldErrors(fields) then Err(ValidationError)
    else
      var bits := if "bits" in fields then Some(CoerceBits(fields["bits"]).value) else None;
      Check(DeviceRegister(
        kind,
        CoerceName(fields["name"]).value,
        CoerceInt(fields["address"]).value,
        CoerceBool(FieldOr(fields, "readonly", FBool(false))).value,
        CoerceScale(FieldOr(fields, "scale", FInt(1))).value,
        CoerceType(FieldOr(fields, "type", FType(U16))).value,
        CoerceUnit(FieldOr(fields, "unit", FNone)).value,
        bits,
        CoerceEnums(FieldOr(fields, "enum", FNone)).value,
        CoerceFlags(FieldOr(fields, "flags", FNone)).value,
        CoerceInt(FieldOr(fields, "bit", FInt(0))).value))
  }

  /** A flags list holding a flag written `name/` without its bit makes the whole
      register raise `AttributeError`, unless the `bits` validator raised first. */
  lemma FlagWithoutBitEscapes(kind: DeviceKind, fields: Fields, name: string, k: nat)
    requires IsIdentifier(name)
    requires "flags" in fields && fields["flags"].FFlagList?
    requires k < |fields["flags"].flags| && fields["flags"].flags[k] == FlagText(name + "/")
    requires "bits" in fields ==> fields["bits"].FText?
    ensures Validate(kind, fields) == Err(AttributeError)
  {
    ValidateFlagWithoutBit(name);
  }

  /** `DeviceHoldingRegister.parse` and `DeviceInputRegister.parse`: the keyword arguments
      of the definition, then validation. A definition no form matches is the bare
      `Exception("invalid definition")`; the `ValueError` and `TypeError` the parser
      raises itself are not pydantic's and propagate unchanged. */
  function Parse(kind: DeviceKind, s: string): (r: Result<DeviceRegister, Exception>)
    requires kind != Base
    ensures r == Err(InvalidDefinition) <==> ParseRegisterDef(s) == Ok(None)
    ensures ParseRegisterDef(s).Err? ==> r == Err(ParseRegisterDef(s).error)
    ensures r.Ok? ==> r.value.kind == kind && IsIdentifier(r.value.name) && MeetsTypeRules(r.value)
  {
    var data :- ParseRegisterDef(s);
    if data.None? then Err(InvalidDefinition) else Validate(kind, data.value)
  }

  // ---------------------------------------------------------------------------
  // Keyword arguments that describe a register

  /** `lo:hi` for a list of consecutive bits. */
  function BitsText(bits: seq<nat>): string {
    if bits == [] then "" else Decimal(bits[0]) + ":" + Decimal(bits[|bits| - 1])
  }

  function ScaleArgument(scale: Scale): Field {
    if scale.Int? then FInt(scale.i) else FFloat(scale.x)
  }

  /** The keyword arguments naming every field of `reg`, with flags given as fields and
      the bits as `lo:hi` text. */
  function Arguments(reg: DeviceRegister): Fields {
    var fixed := map[
      "name" := FText(reg.name),
      "address" := FInt(reg.address),
      "readonly" := FBool(reg.readonly),
      "scale" := ScaleArgument(reg.scale),
      "type" := FType(reg.valueType),
      "unit" := if reg.unit.Some? then FText(reg.unit.value) else FNone,
      "enum" := if reg.enumDefs.Some? then FEnumList(reg.enumDefs.value) else FNone,
      "flags" := if reg.flags.Some? then FFlagList(FlagArguments(reg.flags.value)) else FNone,
      "bit" := FInt(reg.bit)];
    if reg.bits.Some? then fixed["bits" := FText(BitsText(reg.bits.value))] else fixed
  }

  function FlagArguments(flags: seq<FlagDefinition>): (r: seq<FlagInput>)
    ensures |r| == |flags| && forall i :: 0 <= i < |flags| ==> r[i] == FlagFields(flags[i].name, flags[i].bit, flags[i].display)
  {
    seq(|flags|, i requires 0 <= i < |flags| => FlagFields(flags[i].name, flags[i].bit, flags[i].display))
  }

  /** A register the model can hold: a valid name, entries and flags with valid names,
      the rules of `check`, and bits that run from one bound to the other. */
  predicate Describable(reg: DeviceRegister) {
    && IsIdentifier(reg.name)
    && MeetsTypeRules(reg)
    && (reg.enumDefs.Some? ==> ValidEntries(reg.enumDefs.value))
    && (reg.flags.Some? ==> forall i :: 0 <= i < |reg.flags.value| ==> IsIdentifier(reg.flags.value[i].name))
    && (reg.bits.Some? ==> Consecutive(reg.bits.value))
  }

  // ---------------------------------------------------------------------------
  // Validation, field by field

  /** The arguments coerce to the plain fields of `reg`, */
  predicate CoercesPlain(fields: Fields, reg: DeviceRegister) {
    && "name" in fields && CoerceName(fields["name"]) == Some(reg.name)
    && "address" in fields && CoerceInt(fields["address"]) == Some(reg.address)
    && CoerceBool(FieldOr(fields, "readonly", FBool(false))) == Some(reg.readonly)
    && CoerceScale(FieldOr(fields, "scale", FInt(1))) == Some(reg.scale)
    && CoerceType(FieldOr(fields, "type", FType(U16))) == Some(reg.valueType)
    && CoerceUnit(FieldOr(fields, "unit", FNone)) == Some(reg.unit)
    && CoerceInt(FieldOr(fields, "bit", FInt(0))) == Some(reg.bit)
  }

  /** and to its bits, enum table and flags. */
  predicate CoercesLists(fields: Fields, reg: DeviceRegister) {
    && ("bits" in fields <==> reg.bits.Some?)
    && ("bits" in fields ==> CoerceBits(fields["bits"]) == Ok(reg.bits.value))
    && CoerceEnums(FieldOr(fields, "enum", FNone)) == Some(reg.enumDefs)
    && CoerceFlags(FieldOr(fields, "flags", FNone)) == Ok(reg.flags)
  }

  /** Arguments that coerce to the fields of `reg` validate to `reg` exactly when it
      passes `check`. */
  lemma ValidateCoerced(fields: Fields, reg: DeviceRegister)
    requires CoercesPlain(fields, reg) && CoercesLists(fields, reg)
    ensures Validate(reg.kind, fields) == Check(reg)
  {
  }

  /** and a register validated from arguments is the one they coerce to. */
  lemma ValidatedCoerces(kind: DeviceKind, fields: Fields)
    ensures var r := Validate(kind, fields);
      r.Ok? ==> r.value.kind == kind && CoercesPlain(fields, r.value) && CoercesLists(fields, r.value)
  {
  }

  /** Text definitions leave out the enum table and the flags. */
  lemma NoTables(fields: Fields, reg: DeviceRegister)
    requires "enum" !in fields && "flags" !in fields && reg.enumDefs.None? && reg.flags.None?
    requires "bits" in fields <==> reg.bits.Some?
    requires "bits" in fields ==> CoerceBits(fields["bits"]) == Ok(reg.bits.value)
    ensures CoercesLists(fields, reg)
  {
  }

  // ---------------------------------------------------------------------------
  // Round trip

  /** Consecutive bits run from the first to the last. */
  lemma {:induction false} ConsecutiveRange(bits: seq<nat>)
    requires Consecutive(bits)
    ensures bits[0] <= bits[|bits| - 1] && bits == Range(bits[0], bits[|bits| - 1])
  {
    forall i | 0 <= i < |bits|
      ensures bits[i] == bits[0] + i
    {
      ConsecutiveFrom(bits, i);
    }
  }

  lemma {:induction false} ConsecutiveFrom(bits: seq<nat>, i: nat)
    requires Consecutive(bits) && i < |bits|
    ensures bits[i] == bits[0] + i
  {
    if i > 0 {
      ConsecutiveFrom(bits, i - 1);
    }
  }

  /** The `lo:hi` text of consecutive bits parses back to them. */
  lemma BitsTextParses(bits: seq<nat>)
    requires Consecutive(bits)
    ensures CoerceBits(FText(BitsText(bits))) == Ok(bits)
  {
    ConsecutiveRange(bits);
    ParseDecimalBounds(bits[0], bits[|bits| - 1]);
  }

  /** Flags given as fields with valid names validate to themselves. */
  lemma FlagArgumentsValidate(flags: seq<FlagDefinition>)
    requires forall i :: 0 <= i < |flags| ==> IsIdentifier(flags[i].name)
    ensures ValidateFlags(FlagArguments(flags)) == Ok(flags)
  {
    var args := FlagArguments(flags);
    forall i | 0 <= i < |flags|
      ensures ValidateFlag(args[i]) == Ok(flags[i])
    {
    }
    assert ValidateFlags(args).Ok?;
    assert ValidateFlags(args).value == flags;
  }

  lemma ArgumentsPlain(reg: DeviceRegister)
    requires Describable(reg)
    ensures CoercesPlain(Arguments(reg), reg)
  {
  }

  lemma ArgumentsBits(reg: DeviceRegister)
    requires Describable(reg)
    ensures var f := Arguments(reg);
      && ("bits" in f <==> reg.bits.Some?)
      && ("bits" in f ==> CoerceBits(f["bits"]) == Ok(reg.bits.value))
  {
    if reg.bits.Some? {
      BitsTextParses(reg.bits.value);
    }
  }

  lemma ArgumentsTables(reg: DeviceRegister)
    requires Describable(reg)
    ensures var f := Arguments(reg);
      && CoerceEnums(FieldOr(f, "enum", FNone)) == Some(reg.enumDefs)
      && CoerceFlags(FieldOr(f, "flags", FNone)) == Ok(reg.flags)
  {
    if reg.flags.Some? {
      FlagArgumentsValidate(reg.flags.value);
    }
  }

  /** Validating the arguments that name every field of a register gives the register
      back. */
  lemma ValidateArguments(reg: DeviceRegister)
    requires Describable(reg)
    ensures Validate(reg.kind, Arguments(reg)) == Ok(reg)
  {
    ArgumentsPlain(reg);
    ArgumentsBits(reg);
    ArgumentsTables(reg);
    ValidateCoerced(Arguments(reg), reg);
  }

  // ---------------------------------------------------------------------------
  // One-line definitions

  /** The register a definition without a table describes: `uint16`, writable, scale 1,
      no unit, no bits, unless the arguments say otherwise. */
  function Plain(kind: DeviceKind, name: string, a: int): DeviceRegister {
    DeviceRegister(kind, name, a, false, Int(1), U16, None, None, None, None, 0)
  }

  /** `name/address`: every field but the name and the address at its default. */
  lemma ParseBare(kind: DeviceKind, name: string, a: nat)
    requires kind != Base && IsIdentifier(name)
    ensures Parse(kind, name + "/" + Decimal(a)) == Ok(Plain(kind, name, a))
  {
    ParseNameAddress(name, a);
    ValidateBare(kind, name, a);
  }

  lemma ValidateBare(kind: DeviceKind, name: string, a: int)
    requires IsIdentifier(name)
    ensures Validate(kind, map["name" := FText(name), "address" := FInt(a)]) == Ok(Plain(kind, name, a))
  {
    var fields := map["name" := FText(name), "address" := FInt(a)];
    var reg := Plain(kind, name, a);
    assert CoercesPlain(fields, reg);
    NoTables(fields, reg);
    ValidateCoerced(fields, reg);
  }

  /** `name/address/type`: a register of that type, unless the type needs a table,
      which a one-line definition cannot give. */
  lemma ParseTyped(kind: DeviceKind, name: string, a: nat, t: RegisterType)
    requires kind != Base && IsIdentifier(name)
    ensures Parse(kind, name + "/" + Decimal(a) + "/" + t.Name())
         == if t == Enum || t == Flags then Err(ValidationError) else Ok(Plain(kind, name, a).(valueType := t))
  {
    ParseNameAddressType(name, a, t);
    ValidateTyped(kind, name, a, t, FInt(1), FNone);
  }

  /** `name/address/type*scale[unit]`: the scale is a float and the unit is kept. */
  lemma ParseFull(kind: DeviceKind, name: string, a: nat, t: RegisterType, k: nat, unit: string)
    requires kind != Base && IsIdentifier(name)
    requires |unit| > 0 && NoNewline(unit) && ',' !in unit
    ensures Parse(kind, name + "/" + Decimal(a) + "/" + t.Name() + "*" + Decimal(k) + "[" + unit + "]")
         == if t == Enum || t == Flags then Err(ValidationError)
            else Ok(Plain(kind, name, a).(valueType := t, scale := Float(k as real), unit := Some(unit)))
  {
    ParseFullDefinition(name, a, t, k, unit);
    ValidateTyped(kind, name, a, t, FFloat(k as real), FText(unit));
  }

  lemma ValidateTyped(kind: DeviceKind, name: string, a: int, t: RegisterType, scale: Field, unit: Field)
    requires IsIdentifier(name) && (scale.FInt? || scale.FFloat?) && (unit.FNone? || unit.FText?)
    ensures var reg := Plain(kind, name, a).(valueType := t, scale := CoerceScale(scale).value, unit := CoerceUnit(unit).value);
      Validate(kind, map["name" := FText(name), "address" := FInt(a), "type" := FType(t),
                         "scale" := scale, "unit" := unit])
      == if t == Enum || t == Flags then Err(ValidationError) else Ok(reg)
  {
    var fields := map["name" := FText(name), "address" := FInt(a), "type" := FType(t), "scale" := scale, "unit" := unit];
    var reg := Plain(kind, name, a).(valueType := t, scale := CoerceScale(scale).value, unit := CoerceUnit(unit).value);
    assert CoercesPlain(fields, reg);
    NoTables(fields, reg);
    ValidateCoerced(fields, reg);
  }

  /** A definition with one option that sets neither the name nor the address. */
  lemma ParseOneOption(kind: DeviceKind, name: string, a: nat, o: string)
    requires kind != Base && IsIdentifier(name) && ',' !in o
    requires OptionKey(o) != "name" && OptionKey(o) != "address"
    ensures Parse(kind, name + "/" + Decimal(a) + ("," + o))
         == Validate(kind, map["name" := FText(name), "address" := FInt(a), OptionKey(o) := OptionValue(o)])
  {
    OneOption(name, a, o);
  }

  /** The option `readonly` makes the register read-only. */
  lemma ParseReadonly(kind: DeviceKind, name: string, a: nat)
    requires kind != Base && IsIdentifier(name)
    ensures Parse(kind, name + "/" + Decimal(a) + ("," + "readonly")) == Ok(Plain(kind, name, a).(readonly := true))
  {
    ReadonlyOption();
    ParseOneOption(kind, name, a, "readonly");
    ValidateReadonly(kind, name, a);
  }

  lemma ValidateReadonly(kind: DeviceKind, name: string, a: int)
    requires IsIdentifier(name)
    ensures Validate(kind, map["name" := FText(name), "address" := FInt(a), "readonly" := FBool(true)])
         == Ok(Plain(kind, name, a).(readonly := true))
  {
    var fields := map["name" := FText(name), "address" := FInt(a), "readonly" := FBool(true)];
    var reg := Plain(kind, name, a).(readonly := true);
    assert CoercesPlain(fields, reg);
    NoTables(fields, reg);
    ValidateCoerced(fields, reg);
  }

  /** The option `bits` without a value hands `True` to `BitArray.parse`: a `TypeError`. */
  lemma ParseBitsWithoutRange(kind: DeviceKind, name: string, a: nat)
    requires kind != Base && IsIdentifier(name)
    ensures Parse(kind, name + "/" + Decimal(a) + ("," + "bits")) == Err(TypeError)
  {
    BitsFlagOption();
    ParseOneOption(kind, name, a, "bits");
  }

  /** The option `bits=lo:hi` gives the bits from `lo` to `hi`. */
  lemma ParseBitsRange(kind: DeviceKind, name: string, a: nat, lo: nat, hi: nat)
    requires kind != Base && IsIdentifier(name) && lo <= hi
    ensures Parse(kind, name + "/" + Decimal(a) + ("," + ("bits=" + (Decimal(lo) + ":" + Decimal(hi)))))
         == Ok(Plain(kind, name, a).(bits := Some(Range(lo, hi))))
  {
    var v := Decimal(lo) + ":" + Decimal(hi);
    NoComma(name, lo);
    NoComma(name, hi);
    assert ',' !in "bits=" + v;
    BitsOption(v);
    ParseOneOption(kind, name, a, "bits=" + v);
    ParseDecimalBounds(lo, hi);
    ValidateBits(kind, name, a, v, Range(lo, hi));
  }

  lemma ValidateBits(kind: DeviceKind, name: string, a: int, v: string, bits: seq<nat>)
    requires IsIdentifier(name) && ParseBitArray(v) == Ok(bits)
    ensures Validate(kind, map["name" := FText(name), "address" := FInt(a), "bits" := FText(v)])
         == Ok(Plain(kind, name, a).(bits := Some(bits)))
  {
    var fields := map["name" := FText(name), "address" := FInt(a), "bits" := FText(v)];
    var reg := Plain(kind, name, a).(bits := Some(bits));
    assert CoercesPlain(fields, reg);
    NoTables(fields, reg);
    ValidateCoerced(fields, reg);
  }

  /** Every option sets its key to `True` or to text. */
  lemma {:induction false} OptionsAreTexts(strs: seq<string>)
    ensures forall k :: k in Options(strs) ==> Options(strs)[k].FBool? || Options(strs)[k].FText?
  {
    if strs != [] {
      var n := |strs| - 1;
      OptionsAreTexts(strs[..n]);
      assert Options(strs) == Options(strs[..n])[OptionKey(strs[n]) := OptionValue(strs[n])];
    }
  }

  /** A key none of the three forms sets itself comes from the options. */
  predicate FromOptions(r: Result<Option<Fields>, Exception>, options: Fields, key: string) {
    r.Ok? && r.value.Some? && key in r.value.value ==> key in options && r.value.value[key] == options[key]
  }

  predicate OwnKey(key: string) {
    key == "name" || key == "address" || key == "type" || key == "scale" || key == "unit"
  }

  lemma FormsKeepOptions(h: Head, options: Fields, key: string)
    requires !OwnKey(key)
    ensures FromOptions(FieldsOf(h, options), options, key)
  {
    var name := FText(Strip(h.nameGroup));
    var rest := h.rest;
    if rest != [] && rest[0] == '/' && MatchTypedTail(rest[1..]).Some? {
      TypedKeeps(name, h.address, MatchTypedTail(rest[1..]).value, options, key);
    } else if rest != [] && rest[0] == '/' && MatchPlainTail(rest[1..]).Some? {
      PlainKeeps(name, h.address, MatchPlainTail(rest[1..]).value, options, key);
    } else if rest == [] {
      BareKeeps(name, h.address, options, key);
    }
  }

  lemma TypedKeeps(name: Field, a: string, tail: TypedTail, options: Fields, key: string)
    requires !OwnKey(key)
    ensures FromOptions(TypedForm(name, a, tail, options), options, key)
  {
    var address := IntBase0(a);
    var t := TypeField(tail.typeText);
    var scale := ScaleField(tail.scale);
    if address.Ok? && t.Ok? && scale.Ok? {
      var unit := if tail.unit.Some? then FText(tail.unit.value) else FNone;
      var fixed := map["name" := name, "address" := FInt(address.value), "type" := t.value,
                       "scale" := scale.value, "unit" := unit];
      NotOwnKey(key, name, FInt(address.value), t.value, scale.value, unit);
      WithOptionsKeeps(fixed, options, key);
    }
  }

  lemma NotOwnKey(key: string, name: Field, address: Field, t: Field, scale: Field, unit: Field)
    requires !OwnKey(key)
    ensures key !in map["name" := name, "address" := address, "type" := t, "scale" := scale, "unit" := unit]
  {
  }

  lemma PlainKeeps(name: Field, a: string, typeText: string, options: Fields, key: string)
    requires !OwnKey(key)
    ensures FromOptions(PlainForm(name, a, typeText, options), options, key)
  {
    var address := IntBase0(a);
    var t := TypeField(typeText);
    if address.Ok? && t.Ok? {
      var fixed := map["name" := name, "address" := FInt(address.value), "type" := t.value];
      WithOptionsKeeps(fixed, options, key);
    }
  }

  lemma WithOptionsKeeps(fixed: Fields, options: Fields, key: string)
    requires key !in fixed
    ensures var r := WithOptions(fixed, options);
      r.Ok? && key in r.value ==> key in options && r.value[key] == options[key]
  {
  }

  lemma BareKeeps(name: Field, a: string, options: Fields, key: string)
    requires !OwnKey(key)
    ensures FromOptions(BareForm(name, a, options), options, key)
  {
  }

  /** The enum table and the flags of a one-line definition can only come from its
      options, which are `True` or text. */
  lemma ParsedTables(s: string, key: string)
    requires key == "enum" || key == "flags"
    ensures var r := ParseRegisterDef(s);
      r.Ok? && r.value.Some? && key in r.value.value ==> r.value.value[key].FBool? || r.value.value[key].FText?
  {
    var parts := Split(s, ',');
    var options := Options(parts[1..]);
    OptionsAreTexts(parts[1..]);
    match MatchHead(parts[0])
    case None =>
    case Some(h) => FormsKeepOptions(h, options, key);
  }

  /** No one-line definition gives an enum table or flags, so none defines an `enum`
      or a `flags` register: those need the structured form of a device file. */
  lemma TextHasNoTables(kind: DeviceKind, s: string)
    requires kind != Base
    ensures var r := Parse(kind, s);
      r.Ok? ==> r.value.enumDefs.None? && r.value.flags.None? && r.value.valueType != Enum && r.value.valueType != Flags
  {
    ParsedTables(s, "enum");
    ParsedTables(s, "flags");
    var data := ParseRegisterDef(s);
    if data.Ok? && data.value.Some? {
      assert Parse(kind, s) == Validate(kind, data.value.value);
      FieldsWithoutTables(kind, data.value.value);
    }
  }

  /** Fields whose `enum` and `flags` are plain values validate to a register without
      tables. */
  lemma FieldsWithoutTables(kind: DeviceKind, fields: Fields)
    requires kind != Base
    requires "enum" in fields ==> fields["enum"].FBool? || fields["enum"].FText?
    requires "flags" in fields ==> fields["flags"].FBool? || fields["flags"].FText?
    ensures var r := Validate(kind, fields);
      r.Ok? ==> r.value.enumDefs.None? && r.value.flags.None? && r.value.valueType != Enum && r.value.valueType != Flags
  {
    ValidatedCoerces(kind, fields);
  }
}
