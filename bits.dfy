/** Sub-word bitfields (`get_bits` and `put_bits` of src/modbus_client/registers/registers.py):
    a register value is read as the listed bits of a word, and written back by splicing
    the bits of the new value into the word read before. Python ints are two's complement
    of unbounded width, so the model works on `int`. */
module BitFields {
  import opened Arithmetic

  /** Bit `k` of `x`: `(x >> k) & 0x01`. */
  function TestBit(x: int, k: nat): (b: int)
    ensures b == 0 || b == 1
  {
    (x / Pow2(k)) % 2
  }

  /** `x` with bit `k` replaced by `b`: `x & ~(1 << k) | b << k`. */
  function SetBit(x: int, k: nat, b: int): (r: int)
    requires b == 0 || b == 1
    ensures TestBit(r, k) == b
    ensures forall j: nat :: j != k ==> TestBit(r, j) == TestBit(x, j)
  {
    var r := x + (b - TestBit(x, k)) * Pow2(k);
    SetBitSame(x, k, b);
    forall j: nat | j != k
      ensures TestBit(r, j) == TestBit(x, j)
    {
      SetBitOther(x, k, b, j);
    }
    r
  }

  /** The value `get_bits(value, bits)` returns: bit `i` of it is bit `bits[i]` of `value`. */
  function Extract(value: int, bits: seq<nat>): (r: nat)
    ensures r < Pow2(|bits|)
  {
    if bits == [] then 0
    else
      var n := |bits| - 1;
      Extract(value, bits[..n]) + TestBit(value, bits[n]) * Pow2(n)
  }

  /** The value `put_bits(bits, value, existing)` returns: bit `i` of `value` spliced into
      bit `bits[i]` of `existing`, in the order of `bits`. */
  function Splice(bits: seq<nat>, value: int, existing: int): int
  {
    if bits == [] then existing
    else
      var n := |bits| - 1;
      SetBit(Splice(bits[..n], value, existing), bits[n], TestBit(value, n))
  }

  predicate Distinct(bits: seq<nat>) {
    forall i, j :: 0 <= i < j < |bits| ==> bits[i] != bits[j]
  }

  /** `get_bits`: the loop ORs bit `bits[i]` of `value` into bit `i` of the result. */
  method GetBits(value: int, bits: seq<nat>) returns (finalValue: int)
    ensures finalValue == Extract(value, bits)
    ensures 0 <= finalValue < Pow2(|bits|)
    ensures forall i :: 0 <= i < |bits| ==> TestBit(finalValue, i) == TestBit(value, bits[i])
  {
    finalValue := 0;
    for i := 0 to |bits|
      invariant finalValue == Extract(value, bits[..i])
    {
      assert bits[..i + 1][..i] == bits[..i];
      // bit i of finalValue is still clear, so OR-ing in `b << i` adds it
      finalValue := finalValue + ((value / Pow2(bits[i])) % 2) * Pow2(i);
    }
    assert bits[..|bits|] == bits;
    forall i | 0 <= i < |bits|
      ensures TestBit(finalValue, i) == TestBit(value, bits[i])
    {
      ExtractBit(value, bits, i);
    }
  }

  /** `put_bits`: for each listed bit, clear it in the running value and OR in the matching
      bit of `value`. */
  method PutBits(bits: seq<nat>, value: int, existingValue: int) returns (finalValue: int)
    ensures finalValue == Splice(bits, value, existingValue)
    ensures forall b: nat :: b !in bits ==> TestBit(finalValue, b) == TestBit(existingValue, b)
    ensures Distinct(bits) ==> forall i :: 0 <= i < |bits| ==> TestBit(finalValue, bits[i]) == TestBit(value, i)
  {
    finalValue := existingValue;
    for i := 0 to |bits|
      invariant finalValue == Splice(bits[..i], value, existingValue)
    {
      assert bits[..i + 1][..i] == bits[..i];
      var bit := bits[i];
      finalValue := finalValue - TestBit(finalValue, bit) * Pow2(bit);
      finalValue := finalValue + ((value / Pow2(i)) % 2) * Pow2(bit);
    }
    assert bits[..|bits|] == bits;
    SpliceOthers(bits, value, existingValue);
    if Distinct(bits) {
      SpliceListed(bits, value, existingValue);
    }
  }

  // ---------------------------------------------------------------------------
  // Bits of sums

  /** Adding a multiple of `2^k` leaves the bits below `k` alone. */
  lemma BitBelowAdd(x: int, c: int, k: nat, j: nat)
    requires j < k
    ensures TestBit(x + c * Pow2(k), j) == TestBit(x, j)
  {
    var p := Pow2(j);
    var q := Pow2(k - j - 1);
    Pow2Add(j, k - j);
    assert Pow2(k - j) == 2 * q;
    var m := c * q;
    assert c * Pow2(k) == (2 * m) * p by {
      assert Pow2(k) == p * (2 * q);
      MulAssoc(c, p, 2 * q);
      MulAssoc(2, c, q);
    }
    DivAddMultiple(x, 2 * m, p);
    DivAddMultiple(x / p, m, 2);
  }

  lemma MulAssoc(a: int, b: int, c: int)
    ensures a * (b * c) == (a * c) * b
  {
  }

  /** Adding `c * 2^k` adds `c` to the bits from `k` up. */
  lemma DivAdd(x: int, c: int, k: nat)
    ensures (x + c * Pow2(k)) / Pow2(k) == x / Pow2(k) + c
  {
    DivAddMultiple(x, c, Pow2(k));
  }

  lemma SetBitSame(x: int, k: nat, b: int)
    requires b == 0 || b == 1
    ensures TestBit(x + (b - TestBit(x, k)) * Pow2(k), k) == b
  {
    var t := TestBit(x, k);
    var q := x / Pow2(k);
    DivAdd(x, b - t, k);
    assert q == 2 * (q / 2) + t;
    DivAddMultiple(b, q / 2, 2);
  }

  lemma SetBitOther(x: int, k: nat, b: int, j: nat)
    requires b == 0 || b == 1
    requires j != k
    ensures TestBit(x + (b - TestBit(x, k)) * Pow2(k), j) == TestBit(x, j)
  {
    var t := TestBit(x, k);
    var y := x + (b - t) * Pow2(k);
    if j < k {
      BitBelowAdd(x, b - t, k, j);
    } else {
      var q := x / Pow2(k);
      DivAdd(x, b - t, k);
      assert y / Pow2(k) == 2 * (q / 2) + b;
      DivAddMultiple(b, q / 2, 2);
      DivPow2Succ(y, k);
      DivPow2Succ(x, k);
      assert y / Pow2(k + 1) == x / Pow2(k + 1);
      Pow2Add(k + 1, j - k - 1);
      DivDiv(y, Pow2(k + 1), Pow2(j - k - 1));
      DivDiv(x, Pow2(k + 1), Pow2(j - k - 1));
    }
  }

  /** A value below `2^n` has no bits from `n` up. */
  lemma HighBitsClear(a: int, n: nat, i: nat)
    requires 0 <= a < Pow2(n) && n <= i
    ensures TestBit(a, i) == 0
  {
    Pow2Monotone(n, i);
    DivUnique(a, Pow2(i), 0, a);
  }

  // ---------------------------------------------------------------------------
  // get_bits

  /** Bit `i` of `get_bits(value, bits)` is bit `bits[i]` of `value`, and every higher
      bit is clear. */
  lemma {:induction false} ExtractBit(value: int, bits: seq<nat>, i: nat)
    ensures i < |bits| ==> TestBit(Extract(value, bits), i) == TestBit(value, bits[i])
    ensures i >= |bits| ==> TestBit(Extract(value, bits), i) == 0
    decreases |bits|
  {
    if i >= |bits| {
      HighBitsClear(Extract(value, bits), |bits|, i);
    } else {
      var n := |bits| - 1;
      var a := Extract(value, bits[..n]);
      var t := TestBit(value, bits[n]);
      if i < n {
        BitBelowAdd(a, t, n, i);
        ExtractBit(value, bits[..n], i);
      } else {
        DivAdd(a, t, n);
        DivUnique(a, Pow2(n), 0, a);
      }
    }
  }

  /** `x % 2^n` gains bit `n - 1` of `x` at each step. */
  lemma LowBitsStep(x: int, n: nat)
    requires n > 0
    ensures x % Pow2(n) == x % Pow2(n - 1) + TestBit(x, n - 1) * Pow2(n - 1)
  {
    var m := Pow2(n - 1);
    var q := x / m;
    var r := x % m;
    var t := q % 2;
    assert x == m * q + r;
    assert q == 2 * (q / 2) + t;
    assert x == Pow2(n) * (q / 2) + (t * m + r) by {
      assert Pow2(n) == 2 * m;
      assert m * q == m * (2 * (q / 2)) + m * t;
    }
    DivUnique(x, Pow2(n), q / 2, t * m + r);
  }

  /** `get_bits` of a word whose listed bits carry the low bits of `v` returns `v` modulo
      the field width. */
  lemma {:induction false} ExtractOfBits(x: int, bits: seq<nat>, v: int)
    requires forall i :: 0 <= i < |bits| ==> TestBit(x, bits[i]) == TestBit(v, i)
    ensures Extract(x, bits) == v % Pow2(|bits|)
    decreases |bits|
  {
    if bits != [] {
      var n := |bits| - 1;
      ExtractOfBits(x, bits[..n], v);
      LowBitsStep(v, |bits|);
    }
  }

  // ---------------------------------------------------------------------------
  // put_bits

  /** Bits that are not listed keep their value from `existing`. */
  lemma {:induction false} SpliceOthers(bits: seq<nat>, value: int, existing: int)
    ensures forall b: nat :: b !in bits ==> TestBit(Splice(bits, value, existing), b) == TestBit(existing, b)
    decreases |bits|
  {
    if bits != [] {
      var n := |bits| - 1;
      SpliceOthers(bits[..n], value, existing);
      forall b: nat | b !in bits
        ensures TestBit(Splice(bits, value, existing), b) == TestBit(existing, b)
      {
        assert b !in bits[..n];
      }
    }
  }

  /** With distinct bits, bit `bits[i]` of the result is bit `i` of `value`. */
  lemma {:induction false} SpliceListed(bits: seq<nat>, value: int, existing: int)
    requires Distinct(bits)
    ensures forall i :: 0 <= i < |bits| ==> TestBit(Splice(bits, value, existing), bits[i]) == TestBit(value, i)
    decreases |bits|
  {
    if bits != [] {
      var n := |bits| - 1;
      SpliceListed(bits[..n], value, existing);
      forall i | 0 <= i < |bits|
        ensures TestBit(Splice(bits, value, existing), bits[i]) == TestBit(value, i)
      {
        if i < n {
          assert bits[..n][i] == bits[i];
        }
      }
    }
  }

  /** Writing back the field just read leaves the word unchanged:
      `put_bits(bits, get_bits(w, bits), w) == w`. */
  lemma SpliceExtract(bits: seq<nat>, w: int)
    ensures Splice(bits, Extract(w, bits), w) == w
  {
    SplicePrefixExtract(bits, |bits|, w);
    assert bits[..|bits|] == bits;
  }

  lemma {:induction false} SplicePrefixExtract(bits: seq<nat>, m: nat, w: int)
    requires m <= |bits|
    ensures Splice(bits[..m], Extract(w, bits), w) == w
    decreases m
  {
    if m > 0 {
      assert bits[..m][..m - 1] == bits[..m - 1];
      SplicePrefixExtract(bits, m - 1, w);
      ExtractBit(w, bits, m - 1);
      var t := TestBit(w, bits[m - 1]);
      assert w + (t - TestBit(w, bits[m - 1])) * Pow2(bits[m - 1]) == w;
    }
  }

  /** Reading back a written field gives the written value modulo the field width, when
      no bit is listed twice. */
  lemma ExtractSplice(bits: seq<nat>, value: int, existing: int)
    requires Distinct(bits)
    ensures Extract(Splice(bits, value, existing), bits) == value % Pow2(|bits|)
  {
    SpliceListed(bits, value, existing);
    ExtractOfBits(Splice(bits, value, existing), bits, value);
  }

  // ---------------------------------------------------------------------------
  // Width

  /** Setting a bit below `n` keeps a non-negative value below `2^n`. */
  lemma SetBitBounded(x: int, k: nat, b: int, n: nat)
    requires b == 0 || b == 1
    requires 0 <= x < Pow2(n) && k < n
    ensures 0 <= SetBit(x, k, b) < Pow2(n)
  {
    var t := TestBit(x, k);
    assert SetBit(x, k, b) == x + (b - t) * Pow2(k);
    if t == 1 && b == 0 {
      ClearBitBounded(x, k);
    } else if t == 0 && b == 1 {
      RaiseBitBounded(x, k, n);
    }
  }

  /** A set bit `k` means the value is at least `2^k`. */
  lemma ClearBitBounded(x: int, k: nat)
    requires 0 <= x && TestBit(x, k) == 1
    ensures x - Pow2(k) >= 0
  {
    var p := Pow2(k);
    var q := x / p;
    assert x == p * q + x % p;
    MulMonotoneLeft(p, 1, q);
  }

  /** Raising a clear bit below `n` stays below `2^n`. */
  lemma RaiseBitBounded(x: int, k: nat, n: nat)
    requires 0 <= x < Pow2(n) && k < n && TestBit(x, k) == 0
    ensures x + Pow2(k) < Pow2(n)
  {
    var p := Pow2(k);
    var m := Pow2(n - k);
    Pow2Split(k, n);
    DivBelow(x, p, m);
    EvenQuotientStep(x, p, m, Pow2(n));
  }

  lemma Pow2Split(k: nat, n: nat)
    requires k < n
    ensures Pow2(n) == Pow2(k) * Pow2(n - k) && Pow2(n - k) % 2 == 0
  {
    Pow2Add(k, n - k);
  }

  /** With an even quotient below an even `m`, one more `p` still fits below `p * m`. */
  lemma EvenQuotientStep(x: int, p: int, m: int, top: int)
    requires 0 <= x && p > 0 && top == p * m && x / p < m && (x / p) % 2 == 0 && m % 2 == 0
    ensures x + p < top
  {
    var q := x / p;
    assert x == p * q + x % p;
    assert q + 2 <= m;
    MulMonotoneLeft(p, q + 2, m);
  }

  /** Splicing bits below `n` into a value below `2^n` stays below `2^n`. */
  lemma {:induction false} SpliceBounded(bits: seq<nat>, value: int, existing: int, n: nat)
    requires forall i :: 0 <= i < |bits| ==> bits[i] < n
    requires 0 <= existing < Pow2(n)
    ensures 0 <= Splice(bits, value, existing) < Pow2(n)
    decreases |bits|
  {
    if bits != [] {
      var m := |bits| - 1;
      SpliceBounded(bits[..m], value, existing, n);
      SetBitBounded(Splice(bits[..m], value, existing), bits[m], TestBit(value, m), n);
    }
  }
}
