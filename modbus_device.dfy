/** The device layer (src/modbus_client/device/modbus_device.py): the registers and
    switches of a device configuration become registers of the register layer, with the
    device's numbering turned into Modbus addresses, and `ModbusDevice` reads and writes
    them through a client for one unit. */
module ModbusDevices {
  import opened Wrappers
  import opened Exceptions
  import opened Text
  import opened Numbers
  import opened RegisterTypes
  import opened EnumDefinitions
  import opened TypeConverters
  import opened WordCodec
  import opened AddressRanges
  import opened Transport
  import opened ReadSessions
  import opened Registers
  import opened DeviceRegisters
  import opened DeviceConfigs

  // ---------------------------------------------------------------------------
  // From device entries to registers

  /** `0 if zero_mode else 1`: a device file numbers from 1 unless it is in zero mode. */
  function ZeroOffset(config: DeviceConfig): (k: int)
    ensures 0 <= k <= 1 && (k == 0 <==> config.zeroMode)
  {
    if config.zeroMode then 0 else 1
  }

  /** The table of an input or holding device register. */
  function Table(kind: DeviceKind): RegisterKind {
    if kind == Input then InputRegister else HoldingRegister
  }

  /** `create_modbus_register`: the table from the register's class (the base class is
      refused), an `enum` register becomes a `uint16` enum register, which needs its
      entries, and every other type a numeric register of that value type. */
  function CreateModbusRegister(config: DeviceConfig, reg: DeviceRegister): (r: Result<Register, Exception>)
    ensures reg.kind == Base ==> r == Err(InvalidType)
    ensures r.Ok? ==> r.value.Valid() && r.value.name == reg.name && r.value.kind == Table(reg.kind)
                      && r.value.address == reg.address - ZeroOffset(config) && r.value.bits == reg.bits
    ensures reg.kind != Base && reg.valueType == Enum ==>
              && (r.Ok? <==> reg.enumDefs.Some?)
              && (r.Err? ==> r.error == AssertionError)
              && (r.Ok? ==> r.value.valueType == U16 && r.value.variant.EnumKind?)
    ensures reg.kind != Base && reg.valueType != Enum ==>
              && (r.Ok? <==> !reg.valueType.IsVirtual() && (reg.bits.Some? ==> reg.valueType == U16))
              && (r.Err? ==> r.error == ValueError)
              && (r.Ok? ==> r.value.valueType == reg.valueType && r.value.variant == Numeric(reg.scale, reg.unit))
  {
    var address := reg.address - ZeroOffset(config);
    if reg.kind == Base then Err(InvalidType)
    else
      var kind := Table(reg.kind);
      if reg.valueType == Enum then
        if reg.enumDefs.None? then Err(AssertionError)
        else NewEnum(reg.name, kind, address, U16, reg.bits, reg.enumDefs.value)
      else NewNumeric(reg.name, kind, address, reg.valueType, reg.bits, reg.scale, reg.unit)
  }

  /** `create_modbus_coil`: the coil of the switch's number in Modbus numbering. */
  function CreateModbusCoil(config: DeviceConfig, sw: DeviceSwitch): (r: Register)
    ensures r.Valid() && r.name == sw.name && r.kind == Coil
    ensures r.variant == CoilKind(sw.number - ZeroOffset(config))
    ensures r.address <= sw.number - ZeroOffset(config) < r.address + r.count
  {
    match sw.switchType
    case CoilSwitch => NewCoil(sw.name, Coil, sw.number - ZeroOffset(config))
  }

  /** `Union[str, IDeviceRegister]`: a register by name, or the device register itself. */
  datatype RegisterRef = RegisterNamed(name: string) | GivenRegister(reg: DeviceRegister)

  /** `Union[str, DeviceSwitch]`. */
  datatype SwitchRef = SwitchNamed(name: string) | GivenSwitch(sw: DeviceSwitch)

  /** `get_register` (`assert reg is not None`) for a name, the register itself otherwise. */
  function DeviceRegisterOf(config: DeviceConfig, ref: RegisterRef): (r: Result<DeviceRegister, Exception>)
    ensures ref.GivenRegister? ==> r == Ok(ref.reg)
    ensures ref.RegisterNamed? ==> (r.Ok? <==> config.FindRegister(ref.name).Some?)
    ensures ref.RegisterNamed? && r.Ok? ==> r.value.name == ref.name && r.value in config.AllRegisters()
    ensures r.Err? ==> r.error == AssertionError
  {
    match ref
    case GivenRegister(reg) => Ok(reg)
    case RegisterNamed(name) =>
      var found := config.FindRegister(name);
      if found.None? then Err(AssertionError) else Ok(found.value)
  }

  /** `get_switch` for a name, the switch itself otherwise. */
  function SwitchOf(config: DeviceConfig, ref: SwitchRef): (r: Result<DeviceSwitch, Exception>)
    ensures ref.GivenSwitch? ==> r == Ok(ref.sw)
    ensures ref.SwitchNamed? ==> (r.Ok? <==> config.FindSwitch(ref.name).Some?)
    ensures ref.SwitchNamed? && r.Ok? ==> r.value.name == ref.name && r.value in config.switches
    ensures r.Err? ==> r.error == AssertionError
  {
    match ref
    case GivenSwitch(sw) => Ok(sw)
    case SwitchNamed(name) =>
      var found := config.FindSwitch(name);
      if found.None? then Err(AssertionError) else Ok(found.value)
  }

  /** `ModbusDevice.create_modbus_register`. */
  function ResolveRegister(config: DeviceConfig, ref: RegisterRef): (r: Result<Register, Exception>)
    ensures r.Ok? ==> DeviceRegisterOf(config, ref).Ok?
                      && CreateModbusRegister(config, DeviceRegisterOf(config, ref).value) == r
  {
    var reg :- DeviceRegisterOf(config, ref);
    CreateModbusRegister(config, reg)
  }

  /** `ModbusDevice.create_modbus_switch`. */
  function ResolveSwitch(config: DeviceConfig, ref: SwitchRef): (r: Result<Register, Exception>)
    ensures r.Ok? <==> SwitchOf(config, ref).Ok?
    ensures r.Ok? ==> r.value == CreateModbusCoil(config, SwitchOf(config, ref).value)
  {
    var sw :- SwitchOf(config, ref);
    Ok(CreateModbusCoil(config, sw))
  }

  /** A register found by name in a well-formed configuration is never refused for its
      class, and keeps the name it was asked for. */
  lemma NamedRegisterHasTable(config: DeviceConfig, name: string)
    requires config.registers.WellFormed() && config.FindRegister(name).Some?
    ensures ResolveRegister(config, RegisterNamed(name)) != Err(InvalidType)
    ensures ResolveRegister(config, RegisterNamed(name)).Ok? ==>
              ResolveRegister(config, RegisterNamed(name)).value.name == name
  {
    FoundHasTable(config, name);
  }

  /** `{k: v ...}` over keys and values taken in order: the first exception, or the map in
      which a later key replaces an earlier one. */
  function DictOf<V>(keys: seq<string>, values: seq<Result<V, Exception>>): (r: Result<map<string, V>, Exception>)
    requires |keys| == |values|
    ensures r.Ok? <==> forall i :: 0 <= i < |values| ==> values[i].Ok?
    ensures r.Ok? ==> forall k :: k in r.value <==> k in keys
    decreases |keys|
  {
    if keys == [] then Ok(map[])
    else
      var n := |keys| - 1;
      var init :- DictOf(keys[..n], values[..n]);
      var v :- values[n];
      assert forall k :: k in keys <==> k in keys[..n] || k == keys[n] by {
        assert keys == keys[..n] + [keys[n]];
      }
      Ok(init[keys[n] := v])
  }

  /** The exception raised is that of the first value that is one. */
  lemma {:induction false} DictOfFirstError<V>(keys: seq<string>, values: seq<Result<V, Exception>>)
    requires |keys| == |values| && DictOf(keys, values).Err?
    ensures exists i :: 0 <= i < |values| && values[i] == Err(DictOf(keys, values).error)
                        && forall j :: 0 <= j < i ==> values[j].Ok?
    decreases |keys|
  {
    var n := |keys| - 1;
    var init := DictOf(keys[..n], values[..n]);
    if init.Err? {
      DictOfFirstError(keys[..n], values[..n]);
      var i :| 0 <= i < n && values[..n][i] == Err(init.error) && forall j :: 0 <= j < i ==> values[..n][j].Ok?;
      assert values[i] == Err(DictOf(keys, values).error);
      assert forall j :: 0 <= j < i ==> values[j].Ok? by {
        forall j | 0 <= j < i ensures values[j].Ok? {
          assert values[..n][j] == values[j];
        }
      }
    } else {
      assert forall j :: 0 <= j < n ==> values[j].Ok? by {
        forall j | 0 <= j < n ensures values[j].Ok? {
          assert values[..n][j] == values[j];
        }
      }
    }
  }

  /** The value under a key is the one given with its last occurrence. */
  lemma {:induction false} DictOfLastWins<V>(keys: seq<string>, values: seq<Result<V, Exception>>, i: nat)
    requires |keys| == |values| && DictOf(keys, values).Ok?
    requires i < |keys| && forall j :: i < j < |keys| ==> keys[j] != keys[i]
    ensures values[i].Ok? && DictOf(keys, values).value[keys[i]] == values[i].value
    decreases |keys|
  {
    var n := |keys| - 1;
    if i < n {
      DictOfLastWins(keys[..n], values[..n], i);
    }
  }

  /** `[self.create_modbus_register(x) for x in registers]`: the first failure is raised. */
  function ResolveAll(config: DeviceConfig, refs: seq<RegisterRef>): (r: Result<seq<Register>, Exception>)
    ensures r.Ok? <==> forall i :: 0 <= i < |refs| ==> ResolveRegister(config, refs[i]).Ok?
    ensures r.Ok? ==> |r.value| == |refs|
                      && forall i :: 0 <= i < |refs| ==> ResolveRegister(config, refs[i]) == Ok(r.value[i])
    ensures r.Err? ==> exists i :: 0 <= i < |refs| && ResolveRegister(config, refs[i]) == Err(r.error)
                                   && forall j :: 0 <= j < i ==> ResolveRegister(config, refs[j]).Ok?
  {
    MapAll(refs, ref => ResolveRegister(config, ref))
  }

  /** The requests of the session that reads `registers`. */
  function Requests(registers: seq<Register>): (qs: seq<Request>)
    ensures |qs| == |registers| && forall i :: 0 <= i < |registers| ==> qs[i] == registers[i].AsRequest()
  {
    seq(|registers|, i requires 0 <= i < |registers| => registers[i].AsRequest())
  }

  predicate AllValid(registers: seq<Register>) {
    forall i :: 0 <= i < |registers| ==> registers[i].Valid()
  }

  function Names(registers: seq<Register>): (ns: seq<string>)
    ensures |ns| == |registers| && forall i :: 0 <= i < |registers| ==> ns[i] == registers[i].name
  {
    seq(|registers|, i requires 0 <= i < |registers| => registers[i].name)
  }

  function Readings(registers: seq<Register>, session: Session, fm: FloatModel): (vs: seq<Result<Reading, Exception>>)
    requires AllValid(registers)
    ensures |vs| == |registers| && forall i :: 0 <= i < |registers| ==> vs[i] == GetValue(registers[i], session, fm)
  {
    seq(|registers|, i requires 0 <= i < |registers| => GetValue(registers[i], session, fm))
  }

  /** `{x.name: x.get_value_from_read_session(read_session) for x in modbus_registers}`:
      the values in order, the first failure raised, a later register replacing an earlier
      one of the same name. */
  function ReadingsByName(registers: seq<Register>, session: Session, fm: FloatModel)
    : (r: Result<map<string, Reading>, Exception>)
    requires AllValid(registers)
    ensures r.Ok? <==> forall i :: 0 <= i < |registers| ==> GetValue(registers[i], session, fm).Ok?
    ensures r.Ok? ==> forall name :: name in r.value <==> name in Names(registers)
    ensures r.Err? ==> exists i :: 0 <= i < |registers| && GetValue(registers[i], session, fm) == Err(r.error)
                                   && forall j :: 0 <= j < i ==> GetValue(registers[j], session, fm).Ok?
  {
    var r := DictOf(Names(registers), Readings(registers, session, fm));
    if r.Err? then
      DictOfFirstError(Names(registers), Readings(registers, session, fm));
      r
    else r
  }

  /** The value under a name is that of the last register with the name. */
  lemma ReadingsLastWins(registers: seq<Register>, session: Session, fm: FloatModel, i: nat)
    requires AllValid(registers) && ReadingsByName(registers, session, fm).Ok?
    requires i < |registers| && forall j :: i < j < |registers| ==> registers[j].name != registers[i].name
    ensures ReadingsByName(registers, session, fm).value[registers[i].name]
         == GetValue(registers[i], session, fm).value
  {
    DictOfLastWins(Names(registers), Readings(registers, session, fm), i);
  }

  // ---------------------------------------------------------------------------
  // The value a write is given

  /** What `write_register` accepts: a number, a text, or an enum entry. */
  datatype WriteValue = GivenValue(v: Value) | GivenEntry(e: EnumDefinition)

  /** `int(x)` of a float: its integer part, rounding toward zero. */
  function Truncate(x: real): (i: int)
    ensures 0.0 <= x ==> i as real <= x < i as real + 1.0
    ensures x < 0.0 ==> i as real - 1.0 < x <= i as real
  {
    if x >= 0.0 then x.Floor else -((-x).Floor)
  }

  /** A text given for a write: `int(s)`, else `float(s)`, else the text itself. */
  function TextValue(s: string): Value {
    match ParseInt(s)
    case Some(i) => Int(i)
    case None =>
      match ParseFloat(s)
      case Some(x) => Float(x)
      case None => Str(s)
  }

  /** The coercion at the head of `write_register` as written: an entry becomes its value,
      and `int()` is tried first, which also accepts a float and drops its fraction. */
  function CoerceWriteValueAsWritten(value: WriteValue): (r: Value)
    ensures value.GivenEntry? ==> r == Int(value.e.value)
    ensures value.GivenValue? && value.v.Int? ==> r == value.v
    ensures value.GivenValue? && value.v.Float? ==> r.Int? && r.i == Truncate(value.v.x)
  {
    match value
    case GivenEntry(e) => Int(e.value)
    case GivenValue(v) =>
      match v
      case Int(i) => Int(i)
      case Float(x) => Int(Truncate(x))
      case Str(s) => TextValue(s)
  }

  /** The coercion as intended: numbers are kept as they are, entries become their value,
      and only a text is parsed, as an int, else a float, else kept for the name lookup. */
  function CoerceWriteValue(value: WriteValue): (r: Value)
    ensures value.GivenValue? && value.v.IsNumber() ==> r == value.v
    ensures value.GivenEntry? ==> r == Int(value.e.value)
    ensures value.GivenValue? && value.v.Str? ==> r == CoerceWriteValueAsWritten(value)
  {
    match value
    case GivenEntry(e) => Int(e.value)
    case GivenValue(v) => if v.Str? then TextValue(v.s) else v
  }

  /** The text of an integer is written as that integer. */
  lemma IntegerTextIsInteger(i: int)
    ensures CoerceWriteValue(GivenValue(Str(IntText(i)))) == Int(i)
    ensures CoerceWriteValueAsWritten(GivenValue(Str(IntText(i)))) == Int(i)
  {
    ParseIntText(i);
  }

  /** As written, a float keeps its value exactly when it is integral. */
  lemma AsWrittenKeepsOnlyIntegralFloats(x: real)
    ensures CoerceWriteValueAsWritten(GivenValue(Float(x))).Real() == x <==> x == x.Floor as real
  {
    var i := Truncate(x);
    var n := x.Floor;
    if x == n as real {
      assert -x == (-n) as real;
      assert (-x).Floor == -n;
    } else {
      assert (i as real).Floor == i;
    }
  }

  /** Without a bitfield the words written do not depend on a session read before. */
  lemma WithoutBitsNoSession(r: Register, value: Value, existing: Option<Session>, fm: FloatModel)
    requires r.Valid() && r.bits.None?
    ensures ValueToWords(r, value, existing, fm) == ValueToWords(r, value, None, fm)
  {
  }

  /** A value that is `k` times the scale of a `uint16` register is written as the word
      `k`. */
  lemma ScaledU16Write(r: Register, value: Value, k: Word, existing: Option<Session>, fm: FloatModel)
    requires IntegerNumeric(r) && r.valueType == U16 && ScaledBy(value, k, r.variant.scale)
    ensures ValueToWords(r, value, existing, fm) == Ok([k])
  {
    WithoutBitsNoSession(r, value, existing, fm);
    NumericWrite(r, value, k, fm);
    assert r.Conv() == Converter('H', false, Round);
    DecodeU16(k, fm);
  }

  /** Writing 2.5 to a `uint16` register with scale 0.1 as written: the value is truncated
      to 2 and the word 20 is sent. */
  lemma TruncatedScaledWrite(r: Register, existing: Option<Session>, fm: FloatModel)
    requires IntegerNumeric(r) && r.valueType == U16 && r.variant.scale == Float(0.1)
    ensures ValueToWords(r, CoerceWriteValueAsWritten(GivenValue(Float(2.5))), existing, fm) == Ok([20])
  {
    assert CoerceWriteValueAsWritten(GivenValue(Float(2.5))) == Int(2);
    assert ScaledBy(Int(2), 20, r.variant.scale);
    ScaledU16Write(r, Int(2), 20, existing, fm);
  }

  /** Writing 2.5 to a `uint16` register with scale 0.1 with the value kept as a float:
      the word 25 is sent. */
  lemma ScaledWriteOfFraction(r: Register, existing: Option<Session>, fm: FloatModel)
    requires IntegerNumeric(r) && r.valueType == U16 && r.variant.scale == Float(0.1)
    ensures ValueToWords(r, CoerceWriteValue(GivenValue(Float(2.5))), existing, fm) == Ok([25])
  {
    assert CoerceWriteValue(GivenValue(Float(2.5))) == Float(2.5);
    assert ScaledBy(Float(2.5), 25, r.variant.scale);
    ScaledU16Write(r, Float(2.5), 25, existing, fm);
  }

  // ---------------------------------------------------------------------------
  // What the device operations do

  /** The result of an operation and the calls it sent, in order. */
  datatype Exchange<T> = Exchange(result: Result<T, Exception>, calls: seq<Call>)

  /** `read_register`: one session for the register, with the device's read settings. */
  function ReadRegisterOutcome(config: DeviceConfig, unit: int, client: Client, history: seq<Call>,
                               ref: RegisterRef, fm: FloatModel): Exchange<Reading>
  {
    match ResolveRegister(config, ref)
    case Err(e) => Exchange(Err(e), [])
    case Ok(mr) =>
      var o := Execute(client, history, Plan([mr.AsRequest()], unit, config.allowHoles, config.maxReadSize));
      if o.failure.Some? then Exchange(Err(Transport(o.failure.value)), o.calls)
      else Exchange(GetValue(mr, o.values, fm), o.calls)
  }

  /** `read_registers`: one session for all the registers, then the values by name. */
  function ReadRegistersOutcome(config: DeviceConfig, unit: int, client: Client, history: seq<Call>,
                                refs: seq<RegisterRef>, fm: FloatModel): Exchange<map<string, Reading>>
  {
    match ResolveAll(config, refs)
    case Err(e) => Exchange(Err(e), [])
    case Ok(mrs) =>
      var o := Execute(client, history, Plan(Requests(mrs), unit, config.allowHoles, config.maxReadSize));
      if o.failure.Some? then Exchange(Err(Transport(o.failure.value)), o.calls)
      else
        assert AllValid(mrs) by {
          forall i | 0 <= i < |mrs| ensures mrs[i].Valid() {
            assert ResolveRegister(config, refs[i]) == Ok(mrs[i]);
          }
        }
        Exchange(ReadingsByName(mrs, o.values, fm), o.calls)
  }

  /** The session `write_register` starts from: empty, or the register read with the
      default settings when the write splices into the word already there. */
  function PreRead(client: Client, history: seq<Call>, unit: int, mr: Register): Outcome {
    if mr.RequiresExistingReading() then
      Execute(client, history, Plan([mr.AsRequest()], unit, false, DefaultMaxReadSize))
    else Outcome(map[], [], None)
  }

  /** The write `write_register` sends: all the words at once when the device forces it
      or there is more than one, otherwise the single word; always to the holding
      registers at the register's address. */
  function WriteCall(config: DeviceConfig, unit: int, address: int, words: seq<Word>): Call
    requires |words| > 0
  {
    if config.forceMultipleWrite || |words| > 1 then WriteHoldingRegisters(unit, address, words)
    else WriteHoldingRegister(unit, address, words[0])
  }

  /** What a write returns: nothing once the device acknowledged it, else the transport
      error. */
  function Acknowledged<T>(reply: Result<T, TransportError>): (r: Result<(), Exception>)
    ensures r.Ok? <==> reply.Ok?
    ensures reply.Err? ==> r == Err(Transport(reply.error))
  {
    match reply
    case Ok(_) => Ok(())
    case Err(e) => Err(Transport(e))
  }

  /** `write_register` once the register is known and the session `pre` is read: the
      words of the value, then one write. */
  function WriteAfterRead(config: DeviceConfig, unit: int, client: Client, history: seq<Call>,
                          mr: Register, v: Value, pre: Outcome, fm: FloatModel): Exchange<()>
    requires mr.Valid()
  {
    if pre.failure.Some? then Exchange(Err(Transport(pre.failure.value)), pre.calls)
    else
      match ValueToWords(mr, v, Some(pre.values), fm)
      case Err(e) => Exchange(Err(e), pre.calls)
      case Ok(words) =>
        var call := WriteCall(config, unit, mr.address, words);
        Exchange(Acknowledged(client(history + pre.calls, call)), pre.calls + [call])
  }

  /** `write_register`. */
  function WriteRegisterOutcome(config: DeviceConfig, unit: int, client: Client, history: seq<Call>,
                                ref: RegisterRef, value: WriteValue, fm: FloatModel): Exchange<()>
  {
    match ResolveRegister(config, ref)
    case Err(e) => Exchange(Err(e), [])
    case Ok(mr) => WriteAfterRead(config, unit, client, history, mr, CoerceWriteValue(value), PreRead(client, history, unit, mr), fm)
  }

  /** `read_switch`: one session for the coil's block, then the coil's own bit. */
  function ReadSwitchOutcome(config: DeviceConfig, unit: int, client: Client, history: seq<Call>,
                             ref: SwitchRef): Exchange<bool>
  {
    match ResolveSwitch(config, ref)
    case Err(e) => Exchange(Err(e), [])
    case Ok(coil) =>
      var o := Execute(client, history, Plan([coil.AsRequest()], unit, false, DefaultMaxReadSize));
      if o.failure.Some? then Exchange(Err(Transport(o.failure.value)), o.calls)
      else Exchange(CoilState(coil, o.values), o.calls)
  }

  /** `switch_set`: one write of the coil at its number. */
  function SwitchSetOutcome(config: DeviceConfig, unit: int, client: Client, history: seq<Call>,
                            ref: SwitchRef, value: bool): Exchange<()>
  {
    match ResolveSwitch(config, ref)
    case Err(e) => Exchange(Err(e), [])
    case Ok(coil) =>
      var call := WriteCoil(unit, coil.variant.number, value);
      Exchange(Acknowledged(client(history, call)), [call])
  }

  /** `switch_toggle`: read the switch, then set it to the opposite. */
  function SwitchToggleOutcome(config: DeviceConfig, unit: int, client: Client, history: seq<Call>,
                               ref: SwitchRef): Exchange<()>
  {
    var read := ReadSwitchOutcome(config, unit, client, history, ref);
    match read.result
    case Err(e) => Exchange(Err(e), read.calls)
    case Ok(current) =>
      var written := SwitchSetOutcome(config, unit, client, history + read.calls, ref, !current);
      Exchange(written.result, read.calls + written.calls)
  }

  // ---------------------------------------------------------------------------
  // What the device operations promise

  /** A single range is its own bucket; no range, no bucket. */
  lemma MergedOne(r: AddressRange, allowHoles: bool, maxReadSize: int)
    ensures Merged([r], allowHoles, maxReadSize) == [r]
    ensures Merged([], allowHoles, maxReadSize) == []
  {
    SortedFixed([]);
    SortedFixed([r]);
    assert [r][1..] == [];
    assert Sweep([r], None, allowHoles, maxReadSize) == Sweep([], Some(r), allowHoles, maxReadSize);
  }

  /** The reads of the tables of a plan for one register other than its own: none. */
  lemma NoCallsOf(q: Request, kind: RegisterKind, unit: int, allowHoles: bool, maxReadSize: int)
    requires kind != q.kind
    ensures ReadCalls(kind, unit, Buckets([q], kind, allowHoles, maxReadSize)) == []
  {
    assert [q][1..] == [];
    assert OfKind([q], kind) == [];
    MergedOne(q.range, allowHoles, maxReadSize);
    MergedOne(q.range, false, 1);
    assert Buckets([q], kind, allowHoles, maxReadSize) == [];
  }

  /** The reads of the register's own table in a plan for one register: its own range. */
  lemma OwnCalls(q: Request, unit: int, allowHoles: bool, maxReadSize: int)
    ensures ReadCalls(q.kind, unit, Buckets([q], q.kind, allowHoles, maxReadSize))
         == [Read(q.kind, unit, q.range.address, q.range.count)]
  {
    assert [q][1..] == [];
    assert OfKind([q], q.kind) == [q.range];
    MergedOne(q.range, allowHoles, maxReadSize);
    MergedOne(q.range, false, 1);
    var bs := Buckets([q], q.kind, allowHoles, maxReadSize);
    assert bs == [q.range];
    assert ReadCalls(q.kind, unit, bs)[0] == Read(q.kind, unit, q.range.address, q.range.count);
  }

  /** A session for one register sends one read, of exactly that register's words,
      whatever the merge settings. */
  lemma SingleRequestPlan(q: Request, unit: int, allowHoles: bool, maxReadSize: int)
    ensures Plan([q], unit, allowHoles, maxReadSize) == [Read(q.kind, unit, q.range.address, q.range.count)]
  {
    var c: seq<Call> := [Read(q.kind, unit, q.range.address, q.range.count)];
    OwnCalls(q, unit, allowHoles, maxReadSize);
    match q.kind
    case Coil =>
      NoCallsOf(q, DiscreteInputs, unit, allowHoles, maxReadSize);
      NoCallsOf(q, InputRegister, unit, allowHoles, maxReadSize);
      NoCallsOf(q, HoldingRegister, unit, allowHoles, maxReadSize);
      assert Plan([q], unit, allowHoles, maxReadSize) == c + [] + [] + [];
    case DiscreteInputs =>
      NoCallsOf(q, Coil, unit, allowHoles, maxReadSize);
      NoCallsOf(q, InputRegister, unit, allowHoles, maxReadSize);
      NoCallsOf(q, HoldingRegister, unit, allowHoles, maxReadSize);
      assert Plan([q], unit, allowHoles, maxReadSize) == [] + c + [] + [];
    case InputRegister =>
      NoCallsOf(q, Coil, unit, allowHoles, maxReadSize);
      NoCallsOf(q, DiscreteInputs, unit, allowHoles, maxReadSize);
      NoCallsOf(q, HoldingRegister, unit, allowHoles, maxReadSize);
      assert Plan([q], unit, allowHoles, maxReadSize) == [] + [] + c + [];
    case HoldingRegister =>
      NoCallsOf(q, Coil, unit, allowHoles, maxReadSize);
      NoCallsOf(q, DiscreteInputs, unit, allowHoles, maxReadSize);
      NoCallsOf(q, InputRegister, unit, allowHoles, maxReadSize);
      assert Plan([q], unit, allowHoles, maxReadSize) == [] + [] + [] + c;
  }

  /** A plan of one call: the call is sent with the history as it is, and its answer is
      kept. */
  lemma ExecuteOne(client: Client, history: seq<Call>, c: Call)
    ensures var o := Execute(client, history, [c]);
      && o.calls == [c]
      && (client(history, c).Err? ==> o.failure == Some(client(history, c).error))
      && (client(history, c).Ok? ==> o.failure.None?)
      && (client(history, c).Ok? && c.Read? ==> o.values == StoreReply(map[], c.kind, c.address, client(history, c).value))
  {
    var o0 := Outcome(map[], [], None);
    assert [c][..0] == [];
    assert Run(client, history, o0, [c][..0]) == o0;
    assert history + o0.calls == history;
    assert Execute(client, history, [c]) == Step(client, history, o0, c);
  }

  /** `read_register` sends one read, of the register's own words; a transport error is
      raised as it is. */
  lemma ReadRegisterOneRead(config: DeviceConfig, unit: int, client: Client, history: seq<Call>,
                            ref: RegisterRef, fm: FloatModel)
    requires ResolveRegister(config, ref).Ok?
    ensures var mr := ResolveRegister(config, ref).value;
      var c := Read(mr.kind, unit, mr.address, mr.count);
      var x := ReadRegisterOutcome(config, unit, client, history, ref, fm);
      && x.calls == [c]
      && (client(history, c).Err? ==> x.result == Err(Transport(client(history, c).error)))
  {
    var mr := ResolveRegister(config, ref).value;
    SingleRequestPlan(mr.AsRequest(), unit, config.allowHoles, config.maxReadSize);
    ExecuteOne(client, history, Read(mr.kind, unit, mr.address, mr.count));
  }

  /** A session for one register whose read is answered with `vs` holds `vs` from the
      register's address up. */
  lemma OneReadSession(client: Client, history: seq<Call>, kind: RegisterKind, unit: int, address: int,
                       count: int, vs: seq<RegisterValue>, allowHoles: bool, maxReadSize: int)
    requires client(history, Read(kind, unit, address, count)) == Ok(vs)
    ensures Execute(client, history, Plan([Request(kind, AddressRange(address, count))], unit, allowHoles, maxReadSize))
         == Outcome(StoreReply(map[], kind, address, vs), [Read(kind, unit, address, count)], None)
  {
    SingleRequestPlan(Request(kind, AddressRange(address, count)), unit, allowHoles, maxReadSize);
    ExecuteOne(client, history, Read(kind, unit, address, count));
  }

  /** The register a `uint16` device register without a bitfield becomes. */
  lemma CreatedU16(config: DeviceConfig, reg: DeviceRegister)
    requires reg.kind != Base && reg.valueType == U16 && reg.bits.None?
    ensures CreateModbusRegister(config, reg)
         == Ok(Register(reg.name, Table(reg.kind), reg.address - ZeroOffset(config), 1, U16, None, Numeric(reg.scale, reg.unit)))
  {
    assert WordCount(ConverterEntry(U16).value.format) == 1;
  }

  /** A numeric `uint16` register over a session holding the word `w` reads `w` times
      its scale. */
  lemma OneWordValue(r: Register, w: Word, fm: FloatModel)
    requires r.Valid() && r.variant.Numeric? && r.valueType == U16 && r.bits.None?
    ensures GetValue(r, StoreReply(map[], r.kind, r.address, [RegisterValue.Word(w)]), fm)
         == Ok(Number(Mul(Int(w), r.variant.scale)))
  {
    var session := StoreReply(map[], r.kind, r.address, [RegisterValue.Word(w)]);
    assert Stored([w]) == [RegisterValue.Word(w)];
    StoredHolds(map[], r.kind, r.address, [w]);
    ReadU16(r, session, w, fm);
    NumericValue(r, session, fm);
  }

  /** Reading a `uint16` register the device numbers `a`: one read of one word at the
      Modbus address `a - 1` (`a` in zero mode) of the register's table, and the value
      is the word times the scale. */
  lemma ReadU16Register(config: DeviceConfig, unit: int, client: Client, history: seq<Call>,
                        ref: RegisterRef, reg: DeviceRegister, w: Word, fm: FloatModel)
    requires DeviceRegisterOf(config, ref) == Ok(reg)
    requires reg.kind != Base && reg.valueType == U16 && reg.bits.None?
    requires client(history, Read(Table(reg.kind), unit, reg.address - ZeroOffset(config), 1))
          == Ok([RegisterValue.Word(w)])
    ensures ReadRegisterOutcome(config, unit, client, history, ref, fm)
         == Exchange(Ok(Number(Mul(Int(w), reg.scale))), [Read(Table(reg.kind), unit, reg.address - ZeroOffset(config), 1)])
  {
    var mr := Register(reg.name, Table(reg.kind), reg.address - ZeroOffset(config), 1, U16, None, Numeric(reg.scale, reg.unit));
    ResolvedU16(config, ref, reg);
    ReadOneWord(config, unit, client, history, ref, mr, w, fm);
  }

  /** A one-word numeric `uint16` register is read in one call, and its value is the
      word the client answers times the scale. */
  lemma ReadOneWord(config: DeviceConfig, unit: int, client: Client, history: seq<Call>,
                    ref: RegisterRef, mr: Register, w: Word, fm: FloatModel)
    requires ResolveRegister(config, ref) == Ok(mr) && mr.count == 1
    requires mr.Valid() && mr.variant.Numeric? && mr.valueType == U16 && mr.bits.None?
    requires client(history, Read(mr.kind, unit, mr.address, 1)) == Ok([RegisterValue.Word(w)])
    ensures ReadRegisterOutcome(config, unit, client, history, ref, fm)
         == Exchange(Ok(Number(Mul(Int(w), mr.variant.scale))), [Read(mr.kind, unit, mr.address, 1)])
  {
    OneReadSession(client, history, mr.kind, unit, mr.address, 1, [RegisterValue.Word(w)], config.allowHoles, config.maxReadSize);
    ReadOutcomeOk(config, unit, client, history, ref, mr, fm);
    OneWordValue(mr, w, fm);
  }

  /** A register that resolves and a session without failure: the reading is the
      register's value over the session. */
  lemma ReadOutcomeOk(config: DeviceConfig, unit: int, client: Client, history: seq<Call>,
                      ref: RegisterRef, mr: Register, fm: FloatModel)
    requires ResolveRegister(config, ref) == Ok(mr)
    ensures var o := Execute(client, history, Plan([Request(mr.kind, AddressRange(mr.address, mr.count))], unit,
                                                   config.allowHoles, config.maxReadSize));
      o.failure.None? ==> ReadRegisterOutcome(config, unit, client, history, ref, fm) == Exchange(GetValue(mr, o.values, fm), o.calls)
  {
  }

  /** `read_registers` runs one session for all the registers: its calls are a prefix of
      the plan, and all of it when it succeeds. */
  lemma ReadRegistersOneSession(config: DeviceConfig, unit: int, client: Client, history: seq<Call>,
                                refs: seq<RegisterRef>, fm: FloatModel)
    requires ResolveAll(config, refs).Ok?
    ensures var mrs := ResolveAll(config, refs).value;
      var plan := Plan(Requests(mrs), unit, config.allowHoles, config.maxReadSize);
      var x := ReadRegistersOutcome(config, unit, client, history, refs, fm);
      && x.calls <= plan
      && (x.result.Ok? ==> x.calls == plan)
  {
    var mrs := ResolveAll(config, refs).value;
    SessionCalls(client, history, Plan(Requests(mrs), unit, config.allowHoles, config.maxReadSize));
  }

  /** When `read_registers` succeeds, the names of its result are the names of the
      registers, among them every name asked for. */
  lemma ReadRegistersNames(config: DeviceConfig, unit: int, client: Client, history: seq<Call>,
                           refs: seq<RegisterRef>, fm: FloatModel)
    requires ResolveAll(config, refs).Ok?
    ensures var mrs := ResolveAll(config, refs).value;
      var x := ReadRegistersOutcome(config, unit, client, history, refs, fm);
      && (x.result.Ok? ==> forall name :: name in x.result.value <==> name in Names(mrs))
      && (x.result.Ok? ==> forall i :: 0 <= i < |refs| && refs[i].RegisterNamed? ==> refs[i].name in x.result.value)
  {
    var mrs := ResolveAll(config, refs).value;
    forall i | 0 <= i < |refs| && refs[i].RegisterNamed?
      ensures mrs[i].name == refs[i].name
    {
      assert ResolveRegister(config, refs[i]) == Ok(mrs[i]);
    }
    assert forall i :: 0 <= i < |refs| ==> Names(mrs)[i] == mrs[i].name;
  }

  /** A write of register `mr` as `write_register` sends it: to the holding registers at
      the register's address, all its words when the device forces it or there is more
      than one, else its single word. */
  predicate IsWriteOf(config: DeviceConfig, unit: int, mr: Register, c: Call) {
    && (c.WriteHoldingRegister? || c.WriteHoldingRegisters?)
    && c.unit == unit && c.address == mr.address
    && (c.WriteHoldingRegisters? <==> config.forceMultipleWrite || mr.count > 1)
    && (c.WriteHoldingRegisters? ==> |c.words| == mr.count)
  }

  /** After the session, at most one call is added, and a write that succeeds added it. */
  lemma WriteAfterReadCalls(config: DeviceConfig, unit: int, client: Client, history: seq<Call>,
                            mr: Register, v: Value, pre: Outcome, fm: FloatModel)
    requires mr.Valid() && !mr.variant.CoilKind?
    ensures var x := WriteAfterRead(config, unit, client, history, mr, v, pre, fm);
      && pre.calls <= x.calls && |x.calls| <= |pre.calls| + 1
      && (x.result.Ok? ==> |x.calls| == |pre.calls| + 1 && IsWriteOf(config, unit, mr, x.calls[|pre.calls|]))
  {
    if pre.failure.None? && ValueToWords(mr, v, Some(pre.values), fm).Ok? {
      var words := ValueToWords(mr, v, Some(pre.values), fm).value;
      assert |words| == mr.count;
    }
  }

  /** The session before a write: one read of the register's words when the write
      splices into the word there, else nothing. */
  lemma PreReadCalls(client: Client, history: seq<Call>, unit: int, mr: Register)
    ensures mr.RequiresExistingReading() ==> PreRead(client, history, unit, mr).calls == [Read(mr.kind, unit, mr.address, mr.count)]
    ensures !mr.RequiresExistingReading() ==> PreRead(client, history, unit, mr) == Outcome(map[], [], None)
  {
    if mr.RequiresExistingReading() {
      SingleRequestPlan(mr.AsRequest(), unit, false, DefaultMaxReadSize);
      ExecuteOne(client, history, Read(mr.kind, unit, mr.address, mr.count));
    }
  }

  /** `write_register` reads the register first exactly when the write splices into the
      word already there; a write that succeeds ends with the write of the register. */
  lemma WriteRegisterCalls(config: DeviceConfig, unit: int, client: Client, history: seq<Call>,
                           ref: RegisterRef, value: WriteValue, fm: FloatModel)
    requires ResolveRegister(config, ref).Ok?
    ensures var mr := ResolveRegister(config, ref).value;
      var x := WriteRegisterOutcome(config, unit, client, history, ref, value, fm);
      && (mr.RequiresExistingReading() ==> x.calls != [] && x.calls[0] == Read(mr.kind, unit, mr.address, mr.count))
      && (!mr.RequiresExistingReading() ==> |x.calls| <= 1)
      && (x.result.Ok? ==> x.calls != [] && IsWriteOf(config, unit, mr, x.calls[|x.calls| - 1]))
  {
    var mr := ResolveRegister(config, ref).value;
    assert !mr.variant.CoilKind?;
    var pre := PreRead(client, history, unit, mr);
    var x := WriteAfterRead(config, unit, client, history, mr, CoerceWriteValue(value), pre, fm);
    assert WriteRegisterOutcome(config, unit, client, history, ref, value, fm) == x;
    PreReadCalls(client, history, unit, mr);
    WriteAfterReadCalls(config, unit, client, history, mr, CoerceWriteValue(value), pre, fm);
    WriteCallsShape(config, unit, mr, pre.calls, x.calls, x.result.Ok?);
  }

  /** The calls of a write: the calls of the session before it, then at most the write. */
  lemma WriteCallsShape(config: DeviceConfig, unit: int, mr: Register, preCalls: seq<Call>, calls: seq<Call>, ok: bool)
    requires mr.RequiresExistingReading() ==> preCalls == [Read(mr.kind, unit, mr.address, mr.count)]
    requires !mr.RequiresExistingReading() ==> preCalls == []
    requires preCalls <= calls && |calls| <= |preCalls| + 1
    requires ok ==> |calls| == |preCalls| + 1 && IsWriteOf(config, unit, mr, calls[|preCalls|])
    ensures mr.RequiresExistingReading() ==> calls != [] && calls[0] == Read(mr.kind, unit, mr.address, mr.count)
    ensures !mr.RequiresExistingReading() ==> |calls| <= 1
    ensures ok ==> calls != [] && IsWriteOf(config, unit, mr, calls[|calls| - 1])
  {
  }

  /** Writing a word to a `uint16` register with scale 1 sends exactly that word, at the
      register's Modbus address, in a single-register write (function 6). */
  lemma WriteU16Register(config: DeviceConfig, unit: int, client: Client, history: seq<Call>,
                         ref: RegisterRef, reg: DeviceRegister, w: Word, fm: FloatModel)
    requires DeviceRegisterOf(config, ref) == Ok(reg) && !config.forceMultipleWrite
    requires reg.kind != Base && reg.valueType == U16 && reg.bits.None? && reg.scale == Int(1)
    ensures var call := WriteHoldingRegister(unit, reg.address - ZeroOffset(config), w);
      WriteRegisterOutcome(config, unit, client, history, ref, GivenValue(Int(w)), fm)
        == Exchange(Acknowledged(client(history, call)), [call])
  {
    var mr := Register(reg.name, Table(reg.kind), reg.address - ZeroOffset(config), 1, U16, None, Numeric(reg.scale, reg.unit));
    ResolvedU16(config, ref, reg);
    OneWordWrite(config, unit, client, history, ref, w, mr, reg.address - ZeroOffset(config), fm);
  }

  /** A device that forces multiple-register writes sends the same word in a
      multiple-register write (function 16) of length one. */
  lemma WriteU16RegisterForced(config: DeviceConfig, unit: int, client: Client, history: seq<Call>,
                               ref: RegisterRef, reg: DeviceRegister, w: Word, fm: FloatModel)
    requires DeviceRegisterOf(config, ref) == Ok(reg) && config.forceMultipleWrite
    requires reg.kind != Base && reg.valueType == U16 && reg.bits.None? && reg.scale == Int(1)
    ensures var call := WriteHoldingRegisters(unit, reg.address - ZeroOffset(config), [w]);
      WriteRegisterOutcome(config, unit, client, history, ref, GivenValue(Int(w)), fm)
        == Exchange(Acknowledged(client(history, call)), [call])
  {
    var mr := Register(reg.name, Table(reg.kind), reg.address - ZeroOffset(config), 1, U16, None, Numeric(reg.scale, reg.unit));
    ResolvedU16(config, ref, reg);
    OneWordWrite(config, unit, client, history, ref, w, mr, reg.address - ZeroOffset(config), fm);
  }

  /** A write of `w` to a register that resolves to a numeric `uint16` register with
      scale 1 and no bitfield reads nothing first and sends the word itself, with the
      function the configuration selects. */
  lemma OneWordWrite(config: DeviceConfig, unit: int, client: Client, history: seq<Call>,
                     ref: RegisterRef, w: Word, mr: Register, address: int, fm: FloatModel)
    requires ResolveRegister(config, ref) == Ok(mr) && mr.address == address
    requires mr.Valid() && mr.valueType == U16 && mr.bits.None? && mr.variant.Numeric? && mr.variant.scale == Int(1)
    ensures var call := WriteHoldingRegisters(unit, address, [w]);
      config.forceMultipleWrite ==>
        WriteRegisterOutcome(config, unit, client, history, ref, GivenValue(Int(w)), fm)
          == Exchange(Acknowledged(client(history, call)), [call])
    ensures var call := WriteHoldingRegister(unit, address, w);
      !config.forceMultipleWrite ==>
        WriteRegisterOutcome(config, unit, client, history, ref, GivenValue(Int(w)), fm)
          == Exchange(Acknowledged(client(history, call)), [call])
  {
    U16Words(mr, w, fm);
    WriteWithoutPreRead(config, unit, client, history, ref, GivenValue(Int(w)), mr, [w], fm);
    OneWordCall(config, unit, mr.address, w);
  }

  /** The register a `uint16` device register without a bitfield resolves to. */
  lemma ResolvedU16(config: DeviceConfig, ref: RegisterRef, reg: DeviceRegister)
    requires DeviceRegisterOf(config, ref) == Ok(reg)
    requires reg.kind != Base && reg.valueType == U16 && reg.bits.None?
    ensures ResolveRegister(config, ref)
         == Ok(Register(reg.name, Table(reg.kind), reg.address - ZeroOffset(config), 1, U16, None, Numeric(reg.scale, reg.unit)))
  {
    CreatedU16(config, reg);
  }

  /** The write of a single word. */
  lemma OneWordCall(config: DeviceConfig, unit: int, address: int, w: Word)
    ensures WriteCall(config, unit, address, [w])
         == if config.forceMultipleWrite then WriteHoldingRegisters(unit, address, [w]) else WriteHoldingRegister(unit, address, w)
  {
  }

  /** A write that does not splice into the word there reads nothing first: its one call
      is the write of the value's words. */
  lemma WriteWithoutPreRead(config: DeviceConfig, unit: int, client: Client, history: seq<Call>,
                            ref: RegisterRef, value: WriteValue, mr: Register, ws: seq<Word>, fm: FloatModel)
    requires ResolveRegister(config, ref) == Ok(mr) && !mr.RequiresExistingReading()
    requires ValueToWords(mr, CoerceWriteValue(value), Some(map[]), fm) == Ok(ws) && |ws| > 0
    ensures var call := WriteCall(config, unit, mr.address, ws);
      WriteRegisterOutcome(config, unit, client, history, ref, value, fm)
        == Exchange(Acknowledged(client(history, call)), [call])
  {
    PreReadCalls(client, history, unit, mr);
    assert WriteRegisterOutcome(config, unit, client, history, ref, value, fm)
        == WriteAfterRead(config, unit, client, history, mr, CoerceWriteValue(value), Outcome(map[], [], None), fm);
    WriteAfterNothing(config, unit, client, history, mr, CoerceWriteValue(value), ws, fm);
  }

  /** The write after an empty session is the only call. */
  lemma WriteAfterNothing(config: DeviceConfig, unit: int, client: Client, history: seq<Call>,
                          mr: Register, v: Value, ws: seq<Word>, fm: FloatModel)
    requires mr.Valid() && ValueToWords(mr, v, Some(map[]), fm) == Ok(ws) && |ws| > 0
    ensures var call := WriteCall(config, unit, mr.address, ws);
      WriteAfterRead(config, unit, client, history, mr, v, Outcome(map[], [], None), fm)
        == Exchange(Acknowledged(client(history, call)), [call])
  {
    assert history + [] == history;
  }

  /** A `uint16` register with scale 1 and no bitfield is written as the word itself. */
  lemma U16Words(mr: Register, w: Word, fm: FloatModel)
    requires mr.Valid() && mr.valueType == U16 && mr.bits.None? && mr.variant.Numeric? && mr.variant.scale == Int(1)
    ensures ValueToWords(mr, Int(w), Some(map[]), fm) == Ok([w])
  {
    assert IntegerNumeric(mr);
    WithoutBitsNoSession(mr, Int(w), Some(map[]), fm);
    NumericWrite(mr, Int(w), w, fm);
    DecodeU16(w, fm);
  }

  /** The device layer does not refuse writes to a register marked read-only. */
  lemma ReadonlyNotEnforced(config: DeviceConfig, unit: int, client: Client, history: seq<Call>,
                            reg: DeviceRegister, value: WriteValue, fm: FloatModel)
    ensures WriteRegisterOutcome(config, unit, client, history, GivenRegister(reg), value, fm)
         == WriteRegisterOutcome(config, unit, client, history, GivenRegister(reg.(readonly := true)), value, fm)
  {
    assert CreateModbusRegister(config, reg) == CreateModbusRegister(config, reg.(readonly := true));
    SameRegisterSameWrite(config, unit, client, history, GivenRegister(reg), GivenRegister(reg.(readonly := true)), value, fm);
  }

  /** `write_register` sees a register only through the register it resolves to. */
  lemma SameRegisterSameWrite(config: DeviceConfig, unit: int, client: Client, history: seq<Call>,
                              ref: RegisterRef, ref': RegisterRef, value: WriteValue, fm: FloatModel)
    requires ResolveRegister(config, ref) == ResolveRegister(config, ref')
    ensures WriteRegisterOutcome(config, unit, client, history, ref, value, fm)
         == WriteRegisterOutcome(config, unit, client, history, ref', value, fm)
  {
  }

  /** `switch_set` sends one write of the coil at the switch's Modbus number (not at the
      start of its block of eight). */
  lemma SwitchSetWritesNumber(config: DeviceConfig, unit: int, client: Client, history: seq<Call>,
                              ref: SwitchRef, sw: DeviceSwitch, value: bool)
    requires SwitchOf(config, ref) == Ok(sw)
    ensures var call := WriteCoil(unit, sw.number - ZeroOffset(config), value);
      SwitchSetOutcome(config, unit, client, history, ref, value)
        == Exchange(Acknowledged(client(history, call)), [call])
  {
    SwitchSetCall(config, unit, client, history, ref, CreateModbusCoil(config, sw), value);
  }

  /** `switch_set` on a switch that resolves: one write of the coil at its number. */
  lemma SwitchSetCall(config: DeviceConfig, unit: int, client: Client, history: seq<Call>,
                      ref: SwitchRef, coil: Register, value: bool)
    requires ResolveSwitch(config, ref) == Ok(coil) && coil.variant.CoilKind?
    ensures var call := WriteCoil(unit, coil.variant.number, value);
      SwitchSetOutcome(config, unit, client, history, ref, value)
        == Exchange(Acknowledged(client(history, call)), [call])
  {
  }

  /** The values a coil read returns. */
  function Bits(bs: seq<bool>): (vs: seq<RegisterValue>)
    ensures |vs| == |bs| && forall i :: 0 <= i < |bs| ==> vs[i] == RegisterValue.Bit(bs[i])
  {
    seq(|bs|, i requires 0 <= i < |bs| => RegisterValue.Bit(bs[i]))
  }

  /** `read_switch` reads the block of eight coils holding the switch's coil and answers
      that coil's own bit. */
  lemma ReadSwitchBit(config: DeviceConfig, unit: int, client: Client, history: seq<Call>,
                      ref: SwitchRef, sw: DeviceSwitch, bs: seq<bool>)
    requires SwitchOf(config, ref) == Ok(sw) && |bs| == 8
    requires var n := sw.number - ZeroOffset(config);
      client(history, Read(Coil, unit, n / 8 * 8, 8)) == Ok(Bits(bs))
    ensures var n := sw.number - ZeroOffset(config);
      ReadSwitchOutcome(config, unit, client, history, ref) == Exchange(Ok(bs[n % 8]), [Read(Coil, unit, n / 8 * 8, 8)])
  {
    var n := sw.number - ZeroOffset(config);
    var coil := CreateModbusCoil(config, sw);
    assert ResolveSwitch(config, ref) == Ok(coil);
    assert coil.address == n / 8 * 8 && coil.count == 8;
    ReadCoilBlock(config, unit, client, history, ref, coil, n, bs);
  }

  /** A switch whose coil `n` resolves to the block of eight at `n / 8 * 8`: one read of
      that block, and the answer is the coil's own bit. */
  lemma ReadCoilBlock(config: DeviceConfig, unit: int, client: Client, history: seq<Call>,
                      ref: SwitchRef, coil: Register, n: int, bs: seq<bool>)
    requires ResolveSwitch(config, ref) == Ok(coil) && coil.kind == Coil && coil.variant == CoilKind(n)
    requires coil.address == n / 8 * 8 && coil.count == 8 && |bs| == 8
    requires client(history, Read(Coil, unit, n / 8 * 8, 8)) == Ok(Bits(bs))
    ensures ReadSwitchOutcome(config, unit, client, history, ref) == Exchange(Ok(bs[n % 8]), [Read(Coil, unit, n / 8 * 8, 8)])
  {
    OneReadSession(client, history, Coil, unit, n / 8 * 8, 8, Bits(bs), false, DefaultMaxReadSize);
    ReadSwitchOk(config, unit, client, history, ref, coil);
    CoilBit(coil, n, bs);
  }

  /** A switch that resolves and a session without failure: the state is the coil's bit
      in the session. */
  lemma ReadSwitchOk(config: DeviceConfig, unit: int, client: Client, history: seq<Call>,
                     ref: SwitchRef, coil: Register)
    requires ResolveSwitch(config, ref) == Ok(coil)
    ensures var o := Execute(client, history, Plan([Request(coil.kind, AddressRange(coil.address, coil.count))], unit,
                                                   false, DefaultMaxReadSize));
      o.failure.None? ==> ReadSwitchOutcome(config, unit, client, history, ref) == Exchange(CoilState(coil, o.values), o.calls)
  {
  }

  /** The coil's state in a session holding its block's bits is its own bit. */
  lemma CoilBit(coil: Register, n: int, bs: seq<bool>)
    requires coil.variant == CoilKind(n) && coil.kind == Coil && |bs| == 8
    ensures CoilState(coil, StoreReply(map[], Coil, n / 8 * 8, Bits(bs))) == Ok(bs[n % 8])
  {
    StoreReplySpec(map[], Coil, n / 8 * 8, Bits(bs), (Coil, n));
    assert n - n / 8 * 8 == n % 8;
  }

  /** `switch_toggle` writes the opposite of the state it has just read, after that
      read; when the read fails nothing is written. */
  lemma ToggleWritesNegation(config: DeviceConfig, unit: int, client: Client, history: seq<Call>,
                             ref: SwitchRef, sw: DeviceSwitch)
    requires SwitchOf(config, ref) == Ok(sw)
    ensures var read := ReadSwitchOutcome(config, unit, client, history, ref);
      var x := SwitchToggleOutcome(config, unit, client, history, ref);
      && (read.result.Ok? ==> x.calls == read.calls + [WriteCoil(unit, sw.number - ZeroOffset(config), !read.result.value)])
      && (read.result.Err? ==> x.calls == read.calls && x.result.Err?)
  {
    var read := ReadSwitchOutcome(config, unit, client, history, ref);
    if read.result.Ok? {
      SwitchSetWritesNumber(config, unit, client, history + read.calls, ref, sw, !read.result.value);
    }
  }

  // ---------------------------------------------------------------------------
  // The device

  /** `ModbusDevice`: a device configuration and the unit it answers as. */
  class ModbusDevice {
    const config: DeviceConfig
    const unit: int

    constructor (config: DeviceConfig, unit: int)
      ensures this.config == config && this.unit == unit
    {
      this.config := config;
      this.unit := unit;
    }

    method ReadRegister(client: Client, history: seq<Call>, ref: RegisterRef, fm: FloatModel)
      returns (result: Result<Reading, Exception>, calls: seq<Call>)
      ensures Exchange(result, calls) == ReadRegisterOutcome(config, unit, client, history, ref, fm)
    {
      var mr := ResolveRegister(config, ref);
      if mr.Err? {
        return Err(mr.error), [];
      }
      var session;
      session, calls := ReadSession.ReadRegisters(client, history, unit, [mr.value.AsRequest()],
                                                  config.allowHoles, config.maxReadSize);
      if session.Err? {
        return Err(Transport(session.error)), calls;
      }
      result := GetValue(mr.value, session.value.registersDict, fm);
    }

    method ReadRegisters(client: Client, history: seq<Call>, refs: seq<RegisterRef>, fm: FloatModel)
      returns (result: Result<map<string, Reading>, Exception>, calls: seq<Call>)
      ensures Exchange(result, calls) == ReadRegistersOutcome(config, unit, client, history, refs, fm)
    {
      var mrs := ResolveAll(config, refs);
      if mrs.Err? {
        return Err(mrs.error), [];
      }
      var session;
      session, calls := ReadSession.ReadRegisters(client, history, unit, Requests(mrs.value),
                                                  config.allowHoles, config.maxReadSize);
      if session.Err? {
        return Err(Transport(session.error)), calls;
      }
      forall i | 0 <= i < |mrs.value| ensures mrs.value[i].Valid() {
        assert ResolveRegister(config, refs[i]) == Ok(mrs.value[i]);
      }
      result := ReadingsByName(mrs.value, session.value.registersDict, fm);
    }

    method WriteRegister(client: Client, history: seq<Call>, ref: RegisterRef, value: WriteValue, fm: FloatModel)
      returns (result: Result<(), Exception>, calls: seq<Call>)
      ensures Exchange(result, calls) == WriteRegisterOutcome(config, unit, client, history, ref, value, fm)
    {
      var v := CoerceWriteValue(value);
      var mr := ResolveRegister(config, ref);
      if mr.Err? {
        return Err(mr.error), [];
      }
      var register := mr.value;
      ghost var pre := PreRead(client, history, unit, register);
      assert WriteRegisterOutcome(config, unit, client, history, ref, value, fm)
          == WriteAfterRead(config, unit, client, history, register, v, pre, fm);
      var ses := new ReadSession();
      calls := [];
      if register.RequiresExistingReading() {
        var read;
        read, calls := ReadSession.ReadRegisters(client, history, unit, [register.AsRequest()], false, DefaultMaxReadSize);
        if read.Err? {
          return Err(Transport(read.error)), calls;
        }
        ses := read.value;
      }
      assert pre == Outcome(ses.registersDict, calls, None);
      result, calls := WriteWords(client, history, register, v, ses.registersDict, calls, fm);
    }

    /** The end of `write_register` once the session before it succeeded: the words of the
        value, then one write. */
    method WriteWords(client: Client, history: seq<Call>, register: Register, v: Value,
                      session: map<Key, RegisterValue>, calls0: seq<Call>, fm: FloatModel)
      returns (result: Result<(), Exception>, calls: seq<Call>)
      requires register.Valid()
      ensures Exchange(result, calls)
           == WriteAfterRead(config, unit, client, history, register, v, Outcome(session, calls0, None), fm)
    {
      var words := ValueToWords(register, v, Some(session), fm);
      if words.Err? {
        return Err(words.error), calls0;
      }
      var call := WriteCall(config, unit, register.address, words.value);
      calls := calls0 + [call];
      match client(history + calls0, call)
      case Ok(_) => result := Ok(());
      case Err(e) => result := Err(Transport(e));
    }

    method ReadSwitch(client: Client, history: seq<Call>, ref: SwitchRef)
      returns (result: Result<bool, Exception>, calls: seq<Call>)
      ensures Exchange(result, calls) == ReadSwitchOutcome(config, unit, client, history, ref)
    {
      var coil := ResolveSwitch(config, ref);
      if coil.Err? {
        return Err(coil.error), [];
      }
      var session;
      session, calls := ReadSession.ReadRegisters(client, history, unit, [coil.value.AsRequest()], false, DefaultMaxReadSize);
      if session.Err? {
        return Err(Transport(session.error)), calls;
      }
      result := CoilState(coil.value, session.value.registersDict);
    }

    method SwitchSet(client: Client, history: seq<Call>, ref: SwitchRef, value: bool)
      returns (result: Result<(), Exception>, calls: seq<Call>)
      ensures Exchange(result, calls) == SwitchSetOutcome(config, unit, client, history, ref, value)
    {
      var coil := ResolveSwitch(config, ref);
      if coil.Err? {
        return Err(coil.error), [];
      }
      var call := WriteCoil(unit, coil.value.variant.number, value);
      var reply := client(history, call);
      calls := [call];
      result := if reply.Ok? then Ok(()) else Err(Transport(reply.error));
    }

    method SwitchToggle(client: Client, history: seq<Call>, ref: SwitchRef)
      returns (result: Result<(), Exception>, calls: seq<Call>)
      ensures Exchange(result, calls) == SwitchToggleOutcome(config, unit, client, history, ref)
    {
      var current;
      current, calls := ReadSwitch(client, history, ref);
      if current.Err? {
        return Err(current.error), calls;
      }
      var more;
      result, more := SwitchSet(client, history + calls, ref, !current.value);
      calls := calls + more;
    }
  }
}
