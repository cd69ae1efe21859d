/** The register variants of src/modbus_client/registers/registers.py: a register names a
    table, a start address and a value type; it reads its value from a read session and
    turns a value to write into register words. `NumericRegister` scales, `EnumRegister`
    names values through its table, `BoolRegister` is one bit of a word, and `Coil` is one
    coil read as part of a block of eight. */
module Registers {
  import opened Wrappers
  import opened Exceptions
  import opened Arithmetic
  import opened Text
  import opened Numbers
  import opened RegisterTypes
  import opened TypeConverters
  import opened WordCodec
  import opened BitFields
  import opened AddressRanges
  import opened Transport
  import opened ReadSessions
  import opened EnumDefinitions

  /** The dictionary of a read session. */
  type Session = map<Key, RegisterValue>

  /** What an enum register reads: the entry's name and display when the value is in the
      table, the raw value always. */
  datatype EnumValue = EnumValue(enumName: Option<string>, enumValue: int, enumDisplay: Option<string>)
  {
    /** `format`: `"name (value)"`, or `"<unknown> (value)"` for a value not in the table. */
    function Format(): (s: string)
      ensures var tail := " (" + IntText(enumValue) + ")";
        |s| >= |tail| && s[|s| - |tail|..] == tail
      ensures enumName.None? ==> |s| > 9 && s[..9] == "<unknown>"
      ensures enumName.Some? ==> |s| > |enumName.value| && s[..|enumName.value|] == enumName.value
      ensures |s| == (if enumName.None? then 9 else |enumName.value|) + |IntText(enumValue)| + 3
    {
      var head := if enumName.None? then "<unknown>" else enumName.value;
      var tail := " (" + IntText(enumValue) + ")";
      assert (head + tail)[|head|..] == tail;
      head + tail
    }
  }

  /** `{key(x): x for x in defs}`: on a repeated key the later entry wins. */
  function IndexBy<K(!new)>(defs: seq<EnumDefinition>, key: EnumDefinition -> K): (m: map<K, EnumDefinition>)
    ensures forall k :: k in m <==> exists d :: d in defs && key(d) == k
    ensures forall k :: k in m ==> m[k] in defs && key(m[k]) == k
  {
    if defs == [] then map[]
    else
      var n := |defs| - 1;
      var m := IndexBy(defs[..n], key);
      assert forall d :: d in defs <==> d in defs[..n] || d == defs[n];
      m[key(defs[n]) := defs[n]]
  }

  /** The two keys of an enum table. */
  function EntryName(d: EnumDefinition): string {
    d.name
  }

  function EntryValue(d: EnumDefinition): int {
    d.value
  }

  /** The entry a key finds is the last entry with that key. */
  lemma {:induction false} IndexByLastWins<K(!new)>(defs: seq<EnumDefinition>, key: EnumDefinition -> K, i: int)
    requires 0 <= i < |defs|
    requires forall j :: i < j < |defs| ==> key(defs[j]) != key(defs[i])
    ensures key(defs[i]) in IndexBy(defs, key) && IndexBy(defs, key)[key(defs[i])] == defs[i]
    decreases |defs|
  {
    var n := |defs| - 1;
    var init := defs[..n];
    assert IndexBy(defs, key) == IndexBy(init, key)[key(defs[n]) := defs[n]];
    if i < n {
      assert init[i] == defs[i] && key(defs[n]) != key(defs[i]);
      assert forall j :: i < j < |init| ==> init[j] == defs[j];
      IndexByLastWins(init, key, i);
    }
  }

  datatype Variant =
    | Numeric(scale: Value, unit: Option<string>)
    | EnumKind(byValue: map<int, EnumDefinition>, byName: map<string, EnumDefinition>)
    | BoolKind
    | CoilKind(number: int)

  datatype Register = Register(name: string, kind: RegisterKind, address: int, count: int,
                               valueType: RegisterType, bits: Option<seq<nat>>, variant: Variant)
  {
    /** What the constructors establish. */
    predicate Valid() {
      && !valueType.IsVirtual()
      && (bits.Some? ==> valueType == U16)
      && (variant.Numeric? ==> variant.scale.IsNumber())
      && (variant.EnumKind? ==> Conv().format != 'f')
      && (variant.BoolKind? ==> bits.Some? && |bits.value| == 1)
      && (variant.CoilKind? ==> valueType == U16 && bits.None? && count == 8 && address == variant.number / 8 * 8)
      && (!variant.CoilKind? ==> count == WordCount(Conv().format))
    }

    function Conv(): Converter
      requires !valueType.IsVirtual()
    {
      ConverterEntry(valueType).value
    }

    /** The words the register occupies, as the read session asks for them. */
    function AsRequest(): Request {
      Request(kind, AddressRange(address, count))
    }

    /** `requires_existing_reading`: a bitfield write splices into the word read before;
        `BoolRegister` always needs it. */
    predicate RequiresExistingReading() {
      variant.BoolKind? || bits.Some?
    }
  }

  // ---------------------------------------------------------------------------
  // Construction

  /** `IRegister.__init__`: the word count comes from the value type's format, and
      bitfields are only allowed on `uint16`. */
  function NewRegister(name: string, kind: RegisterKind, address: int, valueType: RegisterType,
                       bits: Option<seq<nat>>, variant: Variant): (r: Result<Register, Exception>)
    ensures r.Ok? <==> !valueType.IsVirtual() && (bits.Some? ==> valueType == U16)
    ensures r.Err? ==> r.error == ValueError
    ensures r.Ok? ==> r.value == Register(name, kind, address, WordCount(ConverterEntry(valueType).value.format), valueType, bits, variant)
  {
    var conv :- GetTypeConverter(valueType);
    var count := WordCount(conv.format);
    if bits.Some? && valueType != U16 then Err(ValueError)
    else Ok(Register(name, kind, address, count, valueType, bits, variant))
  }

  function NewNumeric(name: string, kind: RegisterKind, address: int, valueType: RegisterType,
                      bits: Option<seq<nat>>, scale: Value, unit: Option<string>): (r: Result<Register, Exception>)
    requires scale.IsNumber()
    ensures r.Ok? ==> r.value.Valid() && r.value.variant == Numeric(scale, unit)
    ensures r.Ok? <==> !valueType.IsVirtual() && (bits.Some? ==> valueType == U16)
  {
    NewRegister(name, kind, address, valueType, bits, Numeric(scale, unit))
  }

  /** `EnumRegister.__init__`: the entries indexed by value and by name. */
  function NewEnum(name: string, kind: RegisterKind, address: int, valueType: RegisterType,
                   bits: Option<seq<nat>>, defs: seq<EnumDefinition>): (r: Result<Register, Exception>)
    requires valueType != F32BE && valueType != F32LE
    ensures r.Ok? ==> r.value.Valid()
    ensures r.Ok? ==> r.value.variant == EnumKind(IndexBy(defs, EntryValue), IndexBy(defs, EntryName))
    ensures r.Ok? <==> !valueType.IsVirtual() && (bits.Some? ==> valueType == U16)
  {
    NewRegister(name, kind, address, valueType, bits, EnumKind(IndexBy(defs, EntryValue), IndexBy(defs, EntryName)))
  }

  /** `BoolRegister.__init__`: bit `bit` of a `uint16` word. */
  function NewBool(name: string, kind: RegisterKind, address: int, bit: nat): (r: Register)
    ensures r.Valid() && r.RequiresExistingReading()
    ensures r.bits == Some([bit]) && r.count == 1 && r.address == address && r.kind == kind
  {
    NewRegister(name, kind, address, U16, Some([bit]), BoolKind).value
  }

  /** `Coil.__init__`: the block of eight coils holding coil `number`. */
  function NewCoil(name: string, kind: RegisterKind, number: int): (r: Register)
    ensures r.Valid() && !r.RequiresExistingReading()
    ensures r.address % 8 == 0 && r.address <= number < r.address + r.count && r.count == 8
    ensures r.kind == kind && r.variant == CoilKind(number)
  {
    NewRegister(name, kind, number / 8 * 8, U16, None, CoilKind(number)).value.(count := 8)
  }

  // ---------------------------------------------------------------------------
  // Reading

  /** `[registers_dict[(kind, address + i)] for i in range(count)]`, or `KeyError`. */
  function Lookup(session: Session, kind: RegisterKind, address: int, count: nat): (r: Result<seq<RegisterValue>, Exception>)
    ensures r.Ok? <==> forall a :: address <= a < address + count ==> (kind, a) in session
    ensures r.Ok? ==> |r.value| == count && forall i :: 0 <= i < count ==> r.value[i] == session[(kind, address + i)]
    ensures r.Err? ==> r.error == KeyError
  {
    if forall a :: address <= a < address + count ==> (kind, a) in session then
      Ok(seq(count, i requires 0 <= i < count => session[(kind, address + i)]))
    else Err(KeyError)
  }

  /** Whether `struct.pack('<H', v)` accepts a stored value: a bool packs as 0 or 1, an
      int must fit in 16 bits. */
  predicate Packable(v: RegisterValue) {
    v.Bit? || 0 <= v.w < 0x1_0000
  }

  function PackedWord(v: RegisterValue): Word
    requires Packable(v)
  {
    if v.Bit? then (if v.b then 1 else 0) else v.w
  }

  /** `struct.pack('<' + 'H' * n, *values)` read back as words, or a struct error. */
  function PackWords(vs: seq<RegisterValue>): (r: Result<seq<Word>, Exception>)
    ensures r.Ok? <==> forall i :: 0 <= i < |vs| ==> Packable(vs[i])
    ensures r.Ok? ==> |r.value| == |vs| && forall i :: 0 <= i < |vs| ==> r.value[i] == PackedWord(vs[i])
    ensures r.Err? ==> r.error == StructError
  {
    if forall i :: 0 <= i < |vs| ==> Packable(vs[i]) then
      Ok(seq(|vs|, i requires 0 <= i < |vs| => PackedWord(vs[i])))
    else Err(StructError)
  }

  /** `_get_base_value_from_read_session`: the register's words, from its address up,
      decoded with its value type. */
  function BaseValue(r: Register, session: Session, fm: FloatModel): (v: Result<Value, Exception>)
    requires !r.valueType.IsVirtual()
    ensures v.Ok? && r.Conv().format != 'f' ==> v.value.Int? && InRange(r.Conv().format, v.value.i)
    ensures v.Ok? && r.Conv().format == 'f' ==> v.value.Float?
    ensures v.Err? ==> v.error == KeyError || v.error == StructError
    ensures !(forall a :: r.address <= a < r.address + WordCount(r.Conv().format) ==> (r.kind, a) in session)
      ==> v == Err(KeyError)
  {
    var conv := r.Conv();
    var stored :- Lookup(session, r.kind, r.address, WordCount(conv.format));
    var ws :- PackWords(stored);
    Ok(Decode(conv, ws, fm))
  }

  /** `get_raw_from_read_session`: the base value, or its listed bits. */
  function RawValue(r: Register, session: Session, fm: FloatModel): (v: Result<Value, Exception>)
    requires r.Valid()
    ensures v.Ok? ==> v.value.IsNumber()
    ensures v.Ok? && r.Conv().format != 'f' ==> v.value.Int?
    ensures v.Ok? && r.bits.Some? ==> v.value.Int? && 0 <= v.value.i < Pow2(|r.bits.value|)
  {
    var val :- BaseValue(r, session, fm);
    if r.bits.None? then Ok(val) else Ok(Int(Extract(val.i, r.bits.value)))
  }

  /** `EnumRegister.get_value_from_read_session` after the raw read: the entry with the
      raw value, or an unnamed value that keeps the raw number. */
  function EnumLookup(byValue: map<int, EnumDefinition>, raw: int): (e: EnumValue)
    ensures e.enumValue == raw
    ensures e.enumName.Some? <==> raw in byValue
    ensures raw in byValue ==> e.enumName == Some(byValue[raw].name) && e.enumDisplay == byValue[raw].display
    ensures raw !in byValue ==> e.enumDisplay.None?
  {
    if raw in byValue then EnumValue(Some(byValue[raw].name), raw, byValue[raw].display)
    else EnumValue(None, raw, None)
  }

  /** `Coil.get_from_read_session`: the coil's own key, which must hold a bool. */
  function CoilState(r: Register, session: Session): (b: Result<bool, Exception>)
    requires r.variant.CoilKind?
    ensures b.Ok? <==> (r.kind, r.variant.number) in session && session[(r.kind, r.variant.number)].Bit?
    ensures b.Ok? ==> b.value == session[(r.kind, r.variant.number)].b
    ensures (r.kind, r.variant.number) !in session ==> b == Err(KeyError)
    ensures b.Err? && (r.kind, r.variant.number) in session ==> b == Err(AssertionError)
  {
    var key := (r.kind, r.variant.number);
    if key !in session then Err(KeyError)
    else if session[key].Bit? then Ok(session[key].b)
    else Err(AssertionError)
  }

  /** What `get_value_from_read_session` returns. */
  datatype Reading = Number(n: Value) | Enumerated(e: EnumValue) | Truth(b: bool)

  /** `get_value_from_read_session` of each variant. */
  function GetValue(r: Register, session: Session, fm: FloatModel): (v: Result<Reading, Exception>)
    requires r.Valid()
    ensures v.Ok? ==> (v.value.Number? <==> r.variant.Numeric? || r.variant.CoilKind?)
    ensures v.Ok? ==> (v.value.Enumerated? <==> r.variant.EnumKind?)
    ensures r.variant.CoilKind? ==> (v.Ok? <==> CoilState(r, session).Ok?)
    ensures v.Ok? && r.variant.CoilKind? ==> v.value == Number(Int(if CoilState(r, session).value then 1 else 0))
  {
    match r.variant
    case Numeric(scale, _) =>
      var raw :- RawValue(r, session, fm);
      Ok(Number(Mul(raw, scale)))
    case EnumKind(byValue, _) =>
      var raw :- RawValue(r, session, fm);
      Ok(Enumerated(EnumLookup(byValue, raw.i)))
    case BoolKind =>
      var raw :- RawValue(r, session, fm);
      Ok(Truth(raw.i != 0))
    case CoilKind(_) =>
      var on :- CoilState(r, session);
      Ok(Number(Int(if on then 1 else 0)))
  }

  /** The text after a number: a space and the unit, or nothing. */
  function UnitSuffix(unit: Option<string>): string {
    if unit.None? then "" else " " + unit.value
  }

  /** `format` of each variant: the number and its unit (floats to three decimals), the
      enum text, `true`/`false`, `ON`/`OFF`. */
  function Format(r: Register, session: Session, fm: FloatModel): (s: Result<string, Exception>)
    requires r.Valid()
    ensures s.Ok? <==> GetValue(r, session, fm).Ok?
    ensures s.Ok? && r.variant.Numeric? && GetValue(r, session, fm).value.n.Int? ==>
      s.value == IntText(GetValue(r, session, fm).value.n.i) + UnitSuffix(r.variant.unit)
    ensures s.Ok? && r.variant.Numeric? && GetValue(r, session, fm).value.n.Float? ==>
      s.value == fm.fixed3(GetValue(r, session, fm).value.n.x) + UnitSuffix(r.variant.unit)
    ensures s.Ok? && r.variant.EnumKind? ==> s.value == GetValue(r, session, fm).value.e.Format()
    ensures s.Ok? && r.variant.BoolKind? ==> s.value == (if GetValue(r, session, fm).value.b then "true" else "false")
    ensures s.Ok? && r.variant.CoilKind? ==> s.value == (if CoilState(r, session).value then "ON" else "OFF")
  {
    match r.variant
    case Numeric(_, unit) =>
      var v :- GetValue(r, session, fm);
      if v.n.Int? then Ok(IntText(v.n.i) + UnitSuffix(unit)) else Ok(fm.fixed3(v.n.x) + UnitSuffix(unit))
    case EnumKind(_, _) =>
      var v :- GetValue(r, session, fm);
      Ok(v.e.Format())
    case BoolKind =>
      var v :- GetValue(r, session, fm);
      Ok(if v.b then "true" else "false")
    case CoilKind(_) =>
      var on :- CoilState(r, session);
      Ok(if on then "ON" else "OFF")
  }

  // ---------------------------------------------------------------------------
  // Writing

  /** `IRegister.value_to_modbus_registers`: for a non-empty bitfield, splice the value's
      bits into the word read before; then encode with the value type. */
  function BaseToWords(r: Register, value: Value, existing: Option<Session>, fm: FloatModel): (w: Result<seq<Word>, Exception>)
    requires r.Valid()
    ensures w.Ok? ==> |w.value| == WordCount(r.Conv().format)
    ensures r.bits.Some? && r.bits.value != [] && (existing.None? || !value.Int?) ==> w == Err(AssertionError)
  {
    var conv := r.Conv();
    if r.bits.Some? && r.bits.value != [] then
      if existing.None? || !value.Int? then Err(AssertionError)
      else
        var ev :- BaseValue(r, existing.value, fm);
        Encode(conv, Int(Splice(r.bits.value, value.i, ev.i)), fm)
    else Encode(conv, value, fm)
  }

  /** `value_to_modbus_registers` of each variant. */
  function ValueToWords(r: Register, value: Value, existing: Option<Session>, fm: FloatModel): (w: Result<seq<Word>, Exception>)
    requires r.Valid()
    ensures w.Ok? ==> |w.value| == WordCount(r.Conv().format)
    ensures r.variant.Numeric? && value.Str? ==> w == Err(AssertionError)
    ensures r.variant.Numeric? && value.IsNumber() && r.variant.scale.Real() == 0.0 ==> w == Err(ZeroDivisionError)
    ensures r.variant.EnumKind? && value.Float? ==> w == Err(AssertionError)
    ensures r.variant.EnumKind? && value.Str? && value.s !in r.variant.byName ==> w == Err(ValueError)
    ensures r.variant.BoolKind? && !value.Int? ==> w == Err(AssertionError)
  {
    match r.variant
    case Numeric(scale, _) =>
      if !value.IsNumber() then Err(AssertionError)
      else if scale.Real() != 1.0 then
        var q :- TrueDiv(value, scale);
        BaseToWords(r, q, existing, fm)
      else BaseToWords(r, value, existing, fm)
    case EnumKind(_, byName) =>
      if value.Float? then Err(AssertionError)
      else if value.Str? then
        if value.s in byName then BaseToWords(r, Int(byName[value.s].value), existing, fm)
        else Err(ValueError)
      else BaseToWords(r, value, existing, fm)
    case BoolKind =>
      if value.Int? then BaseToWords(r, Int(if value.i != 0 then 1 else 0), existing, fm)
      else Err(AssertionError)
    case CoilKind(_) =>
      BaseToWords(r, value, existing, fm)
  }

  // ---------------------------------------------------------------------------
  // Round trips

  /** The words a transport returns for registers holding `ws`. */
  function Stored(ws: seq<Word>): (vs: seq<RegisterValue>)
    ensures |vs| == |ws| && forall i :: 0 <= i < |ws| ==> vs[i] == RegisterValue.Word(ws[i])
  {
    seq(|ws|, i requires 0 <= i < |ws| => RegisterValue.Word(ws[i]))
  }

  /** A single `uint16` word decodes to itself and encodes to itself. */
  lemma DecodeU16(w: Word, fm: FloatModel)
    ensures Decode(Converter('H', false, Round), [w], fm) == Int(w)
    ensures Encode(Converter('H', false, Round), Int(w), fm) == Ok([w])
  {
    assert [w][1..] == [];
    assert FromWords([w]) == w;
    Pow2Of16();
    assert BitCount('H') == 16;
    DivUnique(w, 0x1_0000, 0, w);
    assert ToPattern(w, 16) == w;
    assert PackValue('H', Int(w), fm) == Ok(w);
    assert ToWords(w, 1) == [w];
  }

  /** A `uint16` register reads the word a session holds at its address. */
  lemma ReadU16(r: Register, session: Session, w: Word, fm: FloatModel)
    requires r.valueType == U16 && Holds(session, r.kind, r.address, [w])
    ensures BaseValue(r, session, fm) == Ok(Int(w))
  {
    assert [w][0] == w;
    assert r.Conv() == Converter('H', false, Round);
    LookupOne(session, r.kind, r.address, w);
    PackOne(w);
    DecodeU16(w, fm);
  }

  lemma LookupOne(session: Session, kind: RegisterKind, address: int, w: Word)
    requires (kind, address) in session && session[(kind, address)] == RegisterValue.Word(w)
    ensures Lookup(session, kind, address, 1) == Ok([RegisterValue.Word(w)])
  {
    var stored := Lookup(session, kind, address, 1);
    assert stored.Ok? by {
      forall a | address <= a < address + 1
        ensures (kind, a) in session
      {
        assert a == address;
      }
    }
    assert stored.value[0] == session[(kind, address + 0)];
    assert |stored.value| == 1;
    assert stored.value == [RegisterValue.Word(w)];
  }

  lemma PackOne(w: Word)
    ensures PackWords([RegisterValue.Word(w)]) == Ok([w])
  {
    var vs := [RegisterValue.Word(w)];
    assert Packable(vs[0]);
    var p := PackWords(vs);
    assert p.value[0] == w;
    assert p.value == [w];
  }

  /** A read session holds the words `ws` at the addresses of a table from `address` up. */
  ghost predicate Holds(session: Session, kind: RegisterKind, address: int, ws: seq<Word>) {
    forall i :: 0 <= i < |ws| ==> HoldsWord(session, (kind, address + i), ws[i])
  }

  ghost predicate HoldsWord(session: Session, key: Key, w: Word) {
    key in session && session[key] == RegisterValue.Word(w)
  }

  /** Storing a transport's reply to a read makes the session hold its words. */
  lemma StoredHolds(m: Session, kind: RegisterKind, address: int, ws: seq<Word>)
    ensures Holds(StoreReply(m, kind, address, Stored(ws)), kind, address, ws)
  {
    var vs := Stored(ws);
    var s := StoreReply(m, kind, address, vs);
    forall i | 0 <= i < |ws|
      ensures HoldsWord(s, (kind, address + i), ws[i])
    {
      var key := (kind, address + i);
      StoreReplySpec(m, kind, address, vs, key);
      assert key.1 - address == i && vs[i] == RegisterValue.Word(ws[i]);
    }
  }

  /** A register reads, from a session holding `ws` at its addresses, the value those
      words decode to. */
  lemma BaseValueOfHeld(r: Register, session: Session, ws: seq<Word>, fm: FloatModel)
    requires !r.valueType.IsVirtual() && |ws| == WordCount(r.Conv().format)
    requires Holds(session, r.kind, r.address, ws)
    ensures BaseValue(r, session, fm) == Ok(Decode(r.Conv(), ws, fm))
  {
    LookupHeld(session, r.kind, r.address, ws);
    assert PackWords(Stored(ws)).value == ws;
  }

  /** The words a session holds are the words looked up there. */
  lemma LookupHeld(session: Session, kind: RegisterKind, address: int, ws: seq<Word>)
    requires Holds(session, kind, address, ws)
    ensures Lookup(session, kind, address, |ws|) == Ok(Stored(ws))
  {
    var n := |ws|;
    var stored := Lookup(session, kind, address, n);
    assert stored.Ok? by {
      forall a | address <= a < address + n
        ensures (kind, a) in session
      {
        assert HoldsWord(session, (kind, address + (a - address)), ws[a - address]);
      }
    }
    forall i | 0 <= i < n
      ensures stored.value[i] == Stored(ws)[i]
    {
      assert HoldsWord(session, (kind, address + i), ws[i]);
    }
    assert stored.value == Stored(ws);
  }

  /** A numeric register on an integer type without a bitfield: a written value that is
      `k` times the scale, with `k` in the type's range, is written as the words of `k`,
      and a session holding those words reads back the written value. */
  predicate IntegerNumeric(r: Register) {
    r.Valid() && r.variant.Numeric? && r.bits.None? && r.Conv().format != 'f' && r.Conv().func == Round
    && r.variant.scale.Real() != 0.0
  }

  predicate ScaledBy(value: Value, k: int, scale: Value) {
    value.IsNumber() && scale.IsNumber() && value.Real() == (k as real) * scale.Real()
  }

  lemma NumericRoundTrip(r: Register, value: Value, k: int, later: Session, fm: FloatModel)
    requires IntegerNumeric(r) && ScaledBy(value, k, r.variant.scale) && InRange(r.Conv().format, k)
    ensures ValueToWords(r, value, None, fm) == Encode(r.Conv(), Int(k), fm)
    ensures ValueToWords(r, value, None, fm).Ok?
    ensures Holds(later, r.kind, r.address, ValueToWords(r, value, None, fm).value) ==>
      GetValue(r, later, fm) == Ok(Number(Mul(Int(k), r.variant.scale)))
  {
    NumericWrite(r, value, k, fm);
    var ws := NumericRead(r, later, k, fm);
    if Holds(later, r.kind, r.address, ws) {
      NumericValue(r, later, fm);
    }
  }

  /** The write half of `NumericRoundTrip`: the value divided by the scale rounds to `k`. */
  lemma NumericWrite(r: Register, value: Value, k: int, fm: FloatModel)
    requires IntegerNumeric(r) && ScaledBy(value, k, r.variant.scale)
    ensures ValueToWords(r, value, None, fm) == Encode(r.Conv(), Int(k), fm)
  {
    var scale := r.variant.scale;
    RoundIntegral(k);
    if scale.Real() != 1.0 {
      var q := TrueDiv(value, scale).value;
      assert q.Real() == k as real;
      EncodeRounded(r.Conv(), q, k, fm);
    } else {
      EncodeRounded(r.Conv(), value, k, fm);
    }
  }

  /** Encoding a number that rounds to `k` is encoding `k`. */
  lemma EncodeRounded(conv: Converter, q: Value, k: int, fm: FloatModel)
    requires conv.func == Round && q.IsNumber() && q.Real() == k as real
    ensures Encode(conv, q, fm) == Encode(conv, Int(k), fm)
  {
    RoundIntegral(k);
    assert Convert(Round, q) == Ok(Int(k));
  }

  /** The read half of `NumericRoundTrip`: a session holding the words of `k` reads `k`. */
  lemma NumericRead(r: Register, later: Session, k: int, fm: FloatModel) returns (ws: seq<Word>)
    requires IntegerNumeric(r) && InRange(r.Conv().format, k)
    ensures Encode(r.Conv(), Int(k), fm) == Ok(ws)
    ensures Holds(later, r.kind, r.address, ws) ==> RawValue(r, later, fm) == Ok(Int(k))
  {
    DecodeEncode(r.Conv(), k, fm);
    ws := Encode(r.Conv(), Int(k), fm).value;
    if Holds(later, r.kind, r.address, ws) {
      BaseValueOfHeld(r, later, ws, fm);
    }
  }

  /** A numeric register reads its raw value times its scale. */
  lemma NumericValue(r: Register, session: Session, fm: FloatModel)
    requires r.Valid() && r.variant.Numeric? && RawValue(r, session, fm).Ok?
    ensures GetValue(r, session, fm) == Ok(Number(Mul(RawValue(r, session, fm).value, r.variant.scale)))
  {
  }

  /** The text of an integer numeric register reads back, through `int()`, as the raw
      value times the scale; a unit follows the number after one space. */
  lemma NumericTextReadsBack(r: Register, session: Session, fm: FloatModel)
    requires r.Valid() && r.variant.Numeric? && r.variant.scale.Int?
    ensures RawValue(r, session, fm).Ok? && RawValue(r, session, fm).value.Int? ==>
      var n := RawValue(r, session, fm).value.i * r.variant.scale.i;
      && Format(r, session, fm) == Ok(IntText(n) + UnitSuffix(r.variant.unit))
      && ParseInt(IntText(n)) == Some(n)
  {
    if RawValue(r, session, fm).Ok? && RawValue(r, session, fm).value.Int? {
      var raw := RawValue(r, session, fm).value;
      NumericValue(r, session, fm);
      assert Mul(raw, r.variant.scale) == Int(raw.i * r.variant.scale.i);
      ParseIntText(raw.i * r.variant.scale.i);
    }
  }

  /** What `NumericRoundTrip` reads back, `k` times the scale, is the written value. */
  lemma ScaledBack(k: int, scale: Value, value: Value)
    requires scale.IsNumber() && value.IsNumber() && value.Real() == (k as real) * scale.Real()
    ensures Mul(Int(k), scale).Real() == value.Real()
  {
    var a := Int(k);
    assert a.Real() == k as real;
  }

  /** A register with a non-empty bitfield of distinct bits of its `uint16` word. */
  predicate BitfieldRegister(r: Register) {
    && r.Valid() && r.bits.Some? && r.bits.value != [] && Distinct(r.bits.value)
    && forall i :: 0 <= i < |r.bits.value| ==> r.bits.value[i] < 16
  }

  /** A bitfield write splices the value into the word read before. */
  lemma WriteBitsU16(r: Register, v: int, w: Word, session: Session, fm: FloatModel)
    requires BitfieldRegister(r) && Holds(session, r.kind, r.address, [w])
    ensures 0 <= Splice(r.bits.value, v, w) < 0x1_0000
    ensures BaseToWords(r, Int(v), Some(session), fm) == Ok([Splice(r.bits.value, v, w)])
  {
    var conv := r.Conv();
    assert conv == Converter('H', false, Round);
    ReadU16(r, session, w, fm);
    Pow2Of16();
    SpliceBounded(r.bits.value, v, w, 16);
    var s: Word := Splice(r.bits.value, v, w);
    DecodeU16(s, fm);
    assert Encode(conv, Int(s), fm) == Ok([s]);
    assert BaseToWords(r, Int(v), Some(session), fm) == Encode(conv, Int(s), fm);
  }

  /** A session holding the spliced word reads the field back as the value written,
      modulo the field's width. */
  lemma ReadBitsU16(r: Register, v: int, w: Word, s: Word, later: Session, fm: FloatModel)
    requires BitfieldRegister(r) && s == Splice(r.bits.value, v, w) && Holds(later, r.kind, r.address, [s])
    ensures RawValue(r, later, fm) == Ok(Int(v % Pow2(|r.bits.value|)))
  {
    ReadU16(r, later, s, fm);
    ExtractSplice(r.bits.value, v, w);
  }

  /** A bitfield write on a `uint16` register with scale 1 keeps every bit outside the
      field from the word read before, and a session holding the written word reads the
      field back as the written value modulo the field's width. */
  lemma BitfieldRoundTrip(r: Register, v: int, w: Word, session: Session, later: Session, fm: FloatModel)
    requires BitfieldRegister(r) && r.variant.Numeric? && r.variant.scale == Int(1)
    requires Holds(session, r.kind, r.address, [w])
    ensures ValueToWords(r, Int(v), Some(session), fm).Ok?
    ensures var ws := ValueToWords(r, Int(v), Some(session), fm).value;
      && |ws| == 1 && ws[0] == Splice(r.bits.value, v, w)
      && (forall b: nat :: b !in r.bits.value ==> TestBit(ws[0], b) == TestBit(w, b))
      && (Holds(later, r.kind, r.address, ws) ==>
            GetValue(r, later, fm) == Ok(Number(Int(v % Pow2(|r.bits.value|)))))
  {
    var bits := r.bits.value;
    WriteBitsU16(r, v, w, session, fm);
    var s: Word := Splice(bits, v, w);
    assert ValueToWords(r, Int(v), Some(session), fm) == BaseToWords(r, Int(v), Some(session), fm);
    SpliceOthers(bits, v, w);
    if Holds(later, r.kind, r.address, [s]) {
      ReadBitsU16(r, v, w, s, later, fm);
      NumericValue(r, later, fm);
    }
  }

  /** A `BoolRegister` write sets its bit to whether the value is non-zero and keeps the
      other bits of the word read before; a session holding the written word reads back
      that truth value. */
  lemma BoolRoundTrip(name: string, kind: RegisterKind, address: int, bit: nat, x: int, w: Word,
                      session: Session, later: Session, fm: FloatModel)
    requires bit < 16 && Holds(session, kind, address, [w])
    ensures var r := NewBool(name, kind, address, bit);
      var ws := ValueToWords(r, Int(x), Some(session), fm);
      && ws.Ok? && |ws.value| == 1
      && TestBit(ws.value[0], bit) == (if x != 0 then 1 else 0)
      && (forall b: nat :: b != bit ==> TestBit(ws.value[0], b) == TestBit(w, b))
      && (Holds(later, kind, address, ws.value) ==> GetValue(r, later, fm) == Ok(Truth(x != 0)))
  {
    var r := NewBool(name, kind, address, bit);
    var b := if x != 0 then 1 else 0;
    assert BitfieldRegister(r);
    WriteBitsU16(r, b, w, session, fm);
    var s: Word := Splice([bit], b, w);
    assert ValueToWords(r, Int(x), Some(session), fm) == BaseToWords(r, Int(b), Some(session), fm);
    SpliceOneBit(bit, b, w);
    if Holds(later, kind, address, [s]) {
      BoolRead(r, b, w, s, later, fm);
    }
  }

  /** Reading back the bit a `bool` register wrote. */
  lemma BoolRead(r: Register, b: int, w: Word, s: Word, later: Session, fm: FloatModel)
    requires BitfieldRegister(r) && r.variant.BoolKind? && |r.bits.value| == 1 && (b == 0 || b == 1)
    requires s == Splice(r.bits.value, b, w) && Holds(later, r.kind, r.address, [s])
    ensures GetValue(r, later, fm) == Ok(Truth(b != 0))
  {
    ReadBitsU16(r, b, w, s, later, fm);
    assert Pow2(|r.bits.value|) == 2;
    DivUnique(b, Pow2(|r.bits.value|), 0, b);
    BoolValue(r, later, fm, b);
  }

  lemma BoolValue(r: Register, session: Session, fm: FloatModel, i: int)
    requires r.Valid() && r.variant.BoolKind? && RawValue(r, session, fm) == Ok(Int(i))
    ensures GetValue(r, session, fm) == Ok(Truth(i != 0))
  {
  }

  /** Splicing a one-bit field sets that bit and no other. */
  lemma SpliceOneBit(bit: nat, b: int, w: int)
    requires b == 0 || b == 1
    ensures TestBit(Splice([bit], b, w), bit) == b
    ensures forall j: nat :: j != bit ==> TestBit(Splice([bit], b, w), j) == TestBit(w, j)
  {
    SpliceOthers([bit], b, w);
    SpliceListed([bit], b, w);
    assert TestBit(b, 0) == b;
  }

  /** An enum register on `uint16`: writing an entry's name writes its value, and a
      session holding that word reads back the same entry, provided no later entry reuses
      the name or the value (the tables keep the last entry of each). */
  lemma EnumRoundTrip(defs: seq<EnumDefinition>, i: int, name: string, kind: RegisterKind, address: int,
                      later: Session, fm: FloatModel)
    requires 0 <= i < |defs| && 0 <= defs[i].value < 0x1_0000
    requires forall j :: i < j < |defs| ==> defs[j].name != defs[i].name && defs[j].value != defs[i].value
    ensures NewEnum(name, kind, address, U16, None, defs).Ok?
    ensures var r := NewEnum(name, kind, address, U16, None, defs).value;
      && ValueToWords(r, Str(defs[i].name), None, fm) == Ok([defs[i].value])
      && (Holds(later, kind, address, [defs[i].value]) ==>
            GetValue(r, later, fm) == Ok(Enumerated(EnumValue(Some(defs[i].name), defs[i].value, defs[i].display))))
  {
    EnumTables(defs, i, name, kind, address);
    var r := NewEnum(name, kind, address, U16, None, defs).value;
    EnumWrite(r, defs[i], fm);
    EnumRead(r, defs[i], later, fm);
  }

  /** The tables of the enum register find entry `i` under its name and its value. */
  lemma EnumTables(defs: seq<EnumDefinition>, i: int, name: string, kind: RegisterKind, address: int)
    requires 0 <= i < |defs|
    requires forall j :: i < j < |defs| ==> defs[j].name != defs[i].name && defs[j].value != defs[i].value
    ensures var r := NewEnum(name, kind, address, U16, None, defs);
      && r.Ok? && r.value.Valid() && r.value.valueType == U16 && r.value.bits.None?
      && r.value.kind == kind && r.value.address == address && r.value.variant.EnumKind?
      && defs[i].name in r.value.variant.byName && r.value.variant.byName[defs[i].name] == defs[i]
      && defs[i].value in r.value.variant.byValue && r.value.variant.byValue[defs[i].value] == defs[i]
  {
    IndexByLastWins(defs, EntryName, i);
    IndexByLastWins(defs, EntryValue, i);
  }

  /** Writing the name of an entry writes its value. */
  lemma EnumWrite(r: Register, d: EnumDefinition, fm: FloatModel)
    requires r.Valid() && r.valueType == U16 && r.bits.None? && r.variant.EnumKind?
    requires d.name in r.variant.byName && r.variant.byName[d.name] == d && 0 <= d.value < 0x1_0000
    ensures ValueToWords(r, Str(d.name), None, fm) == Ok([d.value])
  {
    assert r.Conv() == Converter('H', false, Round);
    DecodeU16(d.value, fm);
    assert ValueToWords(r, Str(d.name), None, fm) == BaseToWords(r, Int(d.value), None, fm);
    assert BaseToWords(r, Int(d.value), None, fm) == Encode(r.Conv(), Int(d.value), fm);
  }

  /** A session holding the value of an entry reads back that entry. */
  lemma EnumRead(r: Register, d: EnumDefinition, later: Session, fm: FloatModel)
    requires r.Valid() && r.valueType == U16 && r.bits.None? && r.variant.EnumKind?
    requires d.value in r.variant.byValue && r.variant.byValue[d.value] == d && 0 <= d.value < 0x1_0000
    ensures Holds(later, r.kind, r.address, [d.value]) ==>
              GetValue(r, later, fm) == Ok(Enumerated(EnumValue(Some(d.name), d.value, d.display)))
  {
    if Holds(later, r.kind, r.address, [d.value]) {
      ReadU16(r, later, d.value, fm);
      assert RawValue(r, later, fm) == Ok(Int(d.value));
      assert GetValue(r, later, fm) == Ok(Enumerated(EnumLookup(r.variant.byValue, d.value)));
    }
  }

}
