/** Python numbers as the register code meets them: an `int`, a `float` or a `str` value,
    `round` (half to even), `*` and true division `/`. A float is modelled by the real
    number it denotes; IEEE-754 rounding, infinities and NaN are not modelled, and the
    float32 encoding is a parameter (`FloatModel`). */
module Numbers {
  import opened Wrappers
  import opened Exceptions

  /** A value handed to a register write or returned by a read. */
  datatype Value = Int(i: int) | Float(x: real) | Str(s: string)
  {
    predicate IsNumber() {
      Int? || Float?
    }

    /** The real a number denotes. */
    function Real(): real
      requires IsNumber()
    {
      if Int? then i as real else x
    }
  }

  /** Python's `round(x)` on a float: the nearest integer, ties to the even one. */
  function RoundHalfEven(x: real): (r: int)
    ensures x - 0.5 <= r as real <= x + 0.5
    ensures (r as real - x == 0.5 || x - r as real == 0.5) ==> r % 2 == 0
  {
    var f := x.Floor;
    var d := x - f as real;
    if d < 0.5 then f
    else if d > 0.5 then f + 1
    else if f % 2 == 0 then f
    else f + 1
  }

  /** Two integers satisfying `RoundHalfEven`'s contract are the same: the contract fixes
      `round`. */
  lemma RoundUnique(x: real, a: int, b: int)
    requires x - 0.5 <= a as real <= x + 0.5
    requires x - 0.5 <= b as real <= x + 0.5
    requires (a as real - x == 0.5 || x - a as real == 0.5) ==> a % 2 == 0
    requires (b as real - x == 0.5 || x - b as real == 0.5) ==> b % 2 == 0
    ensures a == b
  {
  }

  /** Rounding an integral float gives that integer back. */
  lemma RoundIntegral(n: int)
    ensures RoundHalfEven(n as real) == n
  {
  }

  /** `a * b` for two numbers: an int when both are ints, a float otherwise. */
  function Mul(a: Value, b: Value): (r: Value)
    requires a.IsNumber() && b.IsNumber()
    ensures r.IsNumber() && r.Real() == a.Real() * b.Real()
    ensures r.Int? <==> a.Int? && b.Int?
  {
    if a.Int? && b.Int? then Int(a.i * b.i) else Float(a.Real() * b.Real())
  }

  /** `a / b`: always a float, `ZeroDivisionError` for a zero divisor. */
  function TrueDiv(a: Value, b: Value): (r: Result<Value, Exception>)
    requires a.IsNumber() && b.IsNumber()
    ensures r.Err? <==> b.Real() == 0 as real
    ensures r.Err? ==> r.error == ZeroDivisionError
    ensures r.Ok? ==> r.value.Float? && r.value.Real() * b.Real() == a.Real()
  {
    if b.Real() == 0 as real then Err(ZeroDivisionError) else Ok(Float(a.Real() / b.Real()))
  }

  /** Bit pattern of a 32-bit float. */
  type Pattern32 = n: int | 0 <= n < 0x1_0000_0000

  /** The floating-point behaviour the model does not define: `pack` is
      `struct.pack('<f', x)` read back as an integer (rounding to the nearest float32, or
      an error when `x` is too large), `unpack` is `struct.unpack('<f', ...)`, and `fixed3`
      is the text `f"{x:.3f}"`. */
  datatype FloatModel = FloatModel(pack: real -> Result<Pattern32, Exception>, unpack: Pattern32 -> real,
                                   fixed3: real -> string)
}
