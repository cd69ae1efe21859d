/** The typed word codec of src/modbus_client/registers/registers.py
    (`value_to_modbus_registers` and `_get_base_value_from_read_session`): a value is
    packed with `struct` into 1, 2 or 4 little-endian 16-bit words, and for the `be`
    tags the word order is reversed, so the lowest address carries the most significant
    word. */
module WordCodec {
  import opened Wrappers
  import opened Exceptions
  import opened Arithmetic
  import opened Text
  import opened Numbers
  import opened TypeConverters

  /** A 16-bit register word. */
  type Word = w: int | 0 <= w < 0x1_0000

  // ---------------------------------------------------------------------------
  // Words and bit patterns

  /** `struct.unpack('<' + 'H' * n, bytes)` of the `n * 16`-bit pattern `p`. */
  function ToWords(p: int, n: nat): (ws: seq<Word>)
    ensures |ws| == n
    decreases n
  {
    if n == 0 then [] else [p % 0x1_0000] + ToWords(p / 0x1_0000, n - 1)
  }

  /** `struct.pack('<' + 'H' * n, *ws)` read as an integer. */
  function FromWords(ws: seq<Word>): (p: nat)
    ensures p < Pow2(16 * |ws|)
  {
    if ws == [] then 0
    else
      var rest := FromWords(ws[1..]);
      Pow2Words(|ws|);
      assert ws[0] + 0x1_0000 * rest < 0x1_0000 * (rest + 1) <= 0x1_0000 * Pow2(16 * (|ws| - 1));
      ws[0] + 0x1_0000 * rest
  }

  lemma Pow2Words(n: nat)
    requires n > 0
    ensures Pow2(16 * n) == 0x1_0000 * Pow2(16 * (n - 1))
  {
    var m := 16 * (n - 1);
    assert 16 * n == 16 + m;
    Pow2Add(16, m);
    Pow2Of16();
  }

  lemma {:induction false} FromToWords(p: int, n: nat)
    requires 0 <= p < Pow2(16 * n)
    ensures FromWords(ToWords(p, n)) == p
  {
    if n > 0 {
      Pow2Words(n);
      DivUnique(p, 0x1_0000, p / 0x1_0000, p % 0x1_0000);
      DivBelow(p, 0x1_0000, Pow2(16 * (n - 1)));
      FromToWords(p / 0x1_0000, n - 1);
      assert ToWords(p, n)[1..] == ToWords(p / 0x1_0000, n - 1);
    }
  }

  lemma {:induction false} ToFromWords(ws: seq<Word>)
    ensures ToWords(FromWords(ws), |ws|) == ws
  {
    if ws != [] {
      var p := FromWords(ws);
      DivUnique(p, 0x1_0000, FromWords(ws[1..]), ws[0]);
      ToFromWords(ws[1..]);
      assert ws == [ws[0]] + ws[1..];
    }
  }

  function Reverse<T>(s: seq<T>): (r: seq<T>)
    ensures |r| == |s|
    ensures forall i :: 0 <= i < |s| ==> r[i] == s[|s| - 1 - i]
  {
    if s == [] then [] else Reverse(s[1..]) + [s[0]]
  }

  lemma ReverseReverse<T>(s: seq<T>)
    ensures Reverse(Reverse(s)) == s
  {
  }

  /** The words in address order: reversed for the `be` tags. */
  function Order<T>(ws: seq<T>, reverseBytes: bool): (r: seq<T>)
    ensures |r| == |ws|
  {
    if reverseBytes then Reverse(ws) else ws
  }

  lemma OrderOrder<T>(ws: seq<T>, reverseBytes: bool)
    ensures Order(Order(ws, reverseBytes), reverseBytes) == ws
  {
    if reverseBytes {
      ReverseReverse(ws);
    }
  }

  // ---------------------------------------------------------------------------
  // Integer formats

  function BitCount(format: FormatChar): (bits: nat)
    ensures bits >= 16
  {
    8 * CalcSize(format)
  }

  /** The integers `struct.pack` accepts for an integer format. */
  predicate InRange(format: FormatChar, v: int) {
    var bits := BitCount(format);
    if IsSigned(format) then -(Pow2(bits - 1) as int) <= v < Pow2(bits - 1) else 0 <= v < Pow2(bits)
  }

  /** The two's-complement bit pattern of `v` in `bits` bits. */
  function ToPattern(v: int, bits: nat): (p: nat)
    ensures p < Pow2(bits)
  {
    v % Pow2(bits)
  }

  /** The integer a `bits`-bit pattern denotes, signed or not. */
  function FromPattern(p: nat, bits: nat, signed: bool): int
    requires bits > 0
  {
    if signed && p >= Pow2(bits - 1) then p - Pow2(bits) else p
  }

  lemma PatternRoundTrip(format: FormatChar, v: int)
    requires InRange(format, v)
    ensures FromPattern(ToPattern(v, BitCount(format)), BitCount(format), IsSigned(format)) == v
  {
    var bits := BitCount(format);
    Pow2Words(1);
    assert Pow2(bits) == 2 * Pow2(bits - 1);
    if v < 0 {
      DivUnique(v, Pow2(bits), -1, v + Pow2(bits));
    } else {
      DivUnique(v, Pow2(bits), 0, v);
    }
  }

  lemma PatternOfValue(format: FormatChar, p: nat)
    requires p < Pow2(BitCount(format))
    ensures var v := FromPattern(p, BitCount(format), IsSigned(format));
      InRange(format, v) && ToPattern(v, BitCount(format)) == p
  {
    var bits := BitCount(format);
    assert Pow2(bits) == 2 * Pow2(bits - 1);
    var v := FromPattern(p, bits, IsSigned(format));
    if v < 0 {
      DivUnique(v, Pow2(bits), -1, p);
    } else {
      DivUnique(v, Pow2(bits), 0, p);
    }
  }

  // ---------------------------------------------------------------------------
  // Encoding

  /** The converter function of the table: `round(v)` or `float(v)`. */
  function Convert(func: ConverterFunc, v: Value): (r: Result<Value, Exception>)
    ensures r.Ok? ==> (func == Round ==> r.value.Int?) && (func == ToFloat ==> r.value.Float?)
    ensures func == Round && v.Int? ==> r == Ok(v)
  {
    match func
    case Round =>
      (match v
       case Int(i) => Ok(Int(i))
       case Float(x) => Ok(Int(RoundHalfEven(x)))
       case Str(_) => Err(TypeError))
    case ToFloat =>
      (match v
       case Int(i) => Ok(Float(i as real))
       case Float(x) => Ok(Float(x))
       case Str(s) => if ParseFloat(s).Some? then Ok(Float(ParseFloat(s).value)) else Err(ValueError))
  }

  /** `struct.pack('<' + format, raw)` read back as a bit pattern. */
  function PackValue(format: FormatChar, raw: Value, fm: FloatModel): (r: Result<nat, Exception>)
    ensures r.Ok? ==> r.value < Pow2(BitCount(format))
    ensures format != 'f' ==> (r.Ok? <==> raw.Int? && InRange(format, raw.i))
    ensures r.Err? && format != 'f' ==> r.error == StructError
  {
    if format == 'f' then
      if raw.Str? then Err(StructError)
      else
        var p :- fm.pack(raw.Real());
        Pow2Of32();
        Ok(p)
    else if raw.Int? && InRange(format, raw.i) then Ok(ToPattern(raw.i, BitCount(format)))
    else Err(StructError)
  }

  /** The words written for `value` (the tail of `value_to_modbus_registers`): convert,
      pack, split into little-endian words, reverse for the `be` tags. */
  function Encode(conv: Converter, value: Value, fm: FloatModel): (r: Result<seq<Word>, Exception>)
    ensures r.Ok? ==> |r.value| == WordCount(conv.format)
  {
    var raw :- Convert(conv.func, value);
    var p :- PackValue(conv.format, raw, fm);
    Ok(Order(ToWords(p, WordCount(conv.format)), conv.reverseBytes))
  }

  // ---------------------------------------------------------------------------
  // Decoding

  /** A format's bits fill its words exactly. */
  lemma WordBits(format: FormatChar)
    ensures BitCount(format) == 16 * WordCount(format)
  {
  }

  /** The value read from words in address order (the tail of
      `_get_base_value_from_read_session`): undo the word order, join little-endian and
      `struct.unpack` with the format. */
  function Decode(conv: Converter, ws: seq<Word>, fm: FloatModel): (v: Value)
    requires |ws| == WordCount(conv.format)
    ensures conv.format != 'f' ==> v.Int? && InRange(conv.format, v.i)
    ensures conv.format == 'f' ==> v.Float?
  {
    var p := FromWords(Order(ws, conv.reverseBytes));
    WordBits(conv.format);
    assert p < Pow2(BitCount(conv.format));
    if conv.format == 'f' then
      Pow2Of32();
      Float(fm.unpack(p))
    else
      PatternOfValue(conv.format, p);
      Int(FromPattern(p, BitCount(conv.format), IsSigned(conv.format)))
  }

  /** An integer the format can hold is decoded from its words unchanged. */
  lemma DecodeEncode(conv: Converter, i: int, fm: FloatModel)
    requires conv.func == Round && conv.format != 'f' && InRange(conv.format, i)
    ensures Encode(conv, Int(i), fm).Ok?
    ensures Decode(conv, Encode(conv, Int(i), fm).value, fm) == Int(i)
  {
    var bits := BitCount(conv.format);
    var p := ToPattern(i, bits);
    var n := WordCount(conv.format);
    WordBits(conv.format);
    OrderOrder(ToWords(p, n), conv.reverseBytes);
    FromToWords(p, n);
    PatternRoundTrip(conv.format, i);
  }

  /** Words read from an integer register are written back unchanged. */
  lemma EncodeDecode(conv: Converter, ws: seq<Word>, fm: FloatModel)
    requires conv.func == Round && conv.format != 'f' && |ws| == WordCount(conv.format)
    ensures Encode(conv, Decode(conv, ws, fm), fm) == Ok(ws)
  {
    var bits := BitCount(conv.format);
    var n := WordCount(conv.format);
    WordBits(conv.format);
    var ordered := Order(ws, conv.reverseBytes);
    var p := FromWords(ordered);
    PatternOfValue(conv.format, p);
    ToFromWords(ordered);
    OrderOrder(ws, conv.reverseBytes);
  }

  /** A value outside the format's range is refused by `struct.pack`. */
  lemma EncodeOutOfRange(conv: Converter, i: int, fm: FloatModel)
    requires conv.func == Round && conv.format != 'f' && !InRange(conv.format, i)
    ensures Encode(conv, Int(i), fm) == Err(StructError)
  {
  }

  /** With the `be` word order the first (lowest-addressed) word is the most significant:
      `uint32be` reads `[hi, lo]` as `hi * 65536 + lo`, `uint32le` reads `[lo, hi]`. */
  lemma WordOrder32(hi: Word, lo: Word, fm: FloatModel)
    ensures Decode(Converter('I', true, Round), [hi, lo], fm) == Int(hi * 0x1_0000 + lo)
    ensures Decode(Converter('I', false, Round), [lo, hi], fm) == Int(hi * 0x1_0000 + lo)
  {
    assert Reverse([hi, lo]) == [lo, hi];
    assert [lo, hi][1..] == [hi];
    assert [hi][1..] == [];
    assert FromWords([lo, hi]) == lo + 0x1_0000 * hi;
  }
}
