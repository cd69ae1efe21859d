/** Bit ranges written `lo:hi` (src/modbus_client/registers/bitarray.py): the text must
    begin with two digit runs around a colon, and the bits are every number from the
    smaller to the larger, whatever order they are written in. */
module BitArrays {
  import opened Wrappers
  import opened Exceptions
  import opened Text

  /** `list(range(lo, hi + 1))` for `lo <= hi`. */
  function Range(lo: nat, hi: nat): (r: seq<nat>)
    requires lo <= hi
    ensures |r| == hi - lo + 1
    ensures forall i :: 0 <= i < |r| ==> r[i] == lo + i
  {
    seq(hi - lo + 1, i => lo + i)
  }

  /** The prefix match of `(\d+):(\d+)`: the two digit runs, greedy and hence maximal. */
  function MatchRange(s: string): (m: Option<(string, string)>)
    ensures m.Some? ==>
      && |m.value.0| > 0 && AllDigits(m.value.0)
      && |m.value.1| > 0 && AllDigits(m.value.1)
      && |m.value.0| + 1 + |m.value.1| <= |s|
      && s[..|m.value.0| + 1 + |m.value.1|] == m.value.0 + ":" + m.value.1
  {
    var n1 := Span(s, IsDigit);
    if n1 == 0 || n1 == |s| || s[n1] != ':' then None
    else
      var n2 := Span(s[n1 + 1..], IsDigit);
      if n2 == 0 then None
      else
        assert s[..n1 + 1 + n2] == s[..n1] + ":" + s[n1 + 1..][..n2];
        Some((s[..n1], s[n1 + 1..][..n2]))
  }

  /** `BitArray.parse`: the bits from the smaller to the larger bound, `ValueError` when
      the text does not begin with `digits:digits`. */
  function ParseBitArray(s: string): (r: Result<seq<nat>, Exception>)
    ensures r.Err? <==> MatchRange(s).None?
    ensures r.Err? ==> r.error == ValueError
    ensures r.Ok? ==> |r.value| > 0 && forall i :: 0 < i < |r.value| ==> r.value[i] == r.value[i - 1] + 1
  {
    match MatchRange(s)
    case None => Err(ValueError)
    case Some((g1, g2)) =>
      var b1 := DecimalValue(g1);
      var b2 := DecimalValue(g2);
      Ok(Range(if b1 <= b2 then b1 else b2, if b1 <= b2 then b2 else b1))
  }

  /** Written out, `a:b` followed by anything that is not a digit matches with the two
      digit runs as its groups. */
  lemma MatchBounds(da: string, db: string, rest: string)
    requires |da| > 0 && AllDigits(da) && |db| > 0 && AllDigits(db)
    requires rest == [] || !IsDigit(rest[0])
    ensures MatchRange(da + ":" + db + rest) == Some((da, db))
  {
    var s := da + ":" + db + rest;
    assert s[|da|] == ':';
    assert Span(s, IsDigit) == |da|;
    assert s[..|da|] == da;
    var tail := s[|da| + 1..];
    assert tail == db + rest;
    if rest != [] {
      assert tail[|db|] == rest[0];
    }
    assert Span(tail, IsDigit) == |db|;
    assert tail[..|db|] == db;
  }

  /** So such a text gives the bits from the smaller bound to the larger one, both
      included. */
  lemma ParseBounds(da: string, db: string, rest: string)
    requires |da| > 0 && AllDigits(da) && |db| > 0 && AllDigits(db)
    requires rest == [] || !IsDigit(rest[0])
    ensures var lo := if DecimalValue(da) <= DecimalValue(db) then DecimalValue(da) else DecimalValue(db);
      var hi := if DecimalValue(da) <= DecimalValue(db) then DecimalValue(db) else DecimalValue(da);
      ParseBitArray(da + ":" + db + rest) == Ok(Range(lo, hi))
  {
    MatchBounds(da, db, rest);
  }

  /** The order of the bounds does not matter: `a:b` and `b:a` name the same bits. */
  lemma ParseSymmetric(da: string, db: string, rest: string)
    requires |da| > 0 && AllDigits(da) && |db| > 0 && AllDigits(db)
    requires rest == [] || !IsDigit(rest[0])
    ensures ParseBitArray(da + ":" + db + rest) == ParseBitArray(db + ":" + da + rest)
  {
    ParseBounds(da, db, rest);
    ParseBounds(db, da, rest);
  }

  /** `str(lo) + ":" + str(hi)` reads back as the bits `lo` to `hi`. */
  lemma ParseDecimalBounds(lo: nat, hi: nat)
    requires lo <= hi
    ensures ParseBitArray(Decimal(lo) + ":" + Decimal(hi)) == Ok(Range(lo, hi))
  {
    ParseBounds(Decimal(lo), Decimal(hi), []);
    assert Decimal(lo) + ":" + Decimal(hi) + [] == Decimal(lo) + ":" + Decimal(hi);
  }

  /** Text that does not begin with a digit is refused. */
  lemma ParseNeedsDigit(s: string)
    requires s == [] || !IsDigit(s[0])
    ensures ParseBitArray(s) == Err(ValueError)
  {
  }
}
