/** The serial-mode argument of the command line (`mode_parser` in
    cli/argument_parsers.py): a baud rate, a parity letter and a stop-bit count written
    together, as in `9600n1`. */
module ArgumentParsers {
  import opened Wrappers
  import opened Exceptions
  import opened Text

  /** Baud rate, parity (`N`, `E` or `O`) and stop bits. */
  datatype Mode = Mode(baud: nat, parity: char, stopBits: nat)

  /** `[neo]` under IGNORECASE. */
  predicate IsParity(c: char) {
    c in "neoNEO"
  }

  /** `re.match(r"(\d+)([neo])([12])", s, re.IGNORECASE)`, the letter upper-cased and
      the numbers read as ints; anything else is an `ArgumentTypeError`. The digit run is
      greedy and a parity letter is not a digit, so the maximal run is the match. Text
      after the stop-bit digit is ignored. */
  function ParseMode(s: string): (r: Result<Mode, Exception>)
    ensures r.Ok? <==> exists n :: 0 < n && n + 1 < |s| && AllDigits(s[..n]) && IsParity(s[n]) && s[n + 1] in "12"
    ensures r.Ok? ==> r.value.parity in "NEO" && (r.value.stopBits == 1 || r.value.stopBits == 2)
    ensures r.Err? ==> r.error == ArgumentTypeError
  {
    var n := Span(s, IsDigit);
    if n == 0 || n + 1 >= |s| || !IsParity(s[n]) || !(s[n + 1] in "12") then Err(ArgumentTypeError)
    else Ok(Mode(DecimalValue(s[..n]), UpperChar(s[n]), DigitValue(s[n + 1])))
  }

  /** The digits of the baud rate, a parity letter in either case and a stop-bit digit,
      followed by anything, read back as those values with the letter upper-cased. */
  lemma ParseModeText(digits: string, parity: char, stop: char, rest: string)
    requires |digits| > 0 && AllDigits(digits)
    requires IsParity(parity) && stop in "12"
    ensures ParseMode(digits + [parity, stop] + rest)
         == Ok(Mode(DecimalValue(digits), UpperChar(parity), if stop == '1' then 1 else 2))
  {
    var s := digits + [parity, stop] + rest;
    var n := |digits|;
    assert s[n] == parity && s[n + 1] == stop;
    assert !IsDigit(parity);
    assert Span(s, IsDigit) == n;
    assert s[..n] == digits;
    assert DigitValue(stop) == if stop == '1' then 1 else 2;
  }

  /** The mode tuple for `9600n1`. */
  lemma ParseMode9600N1()
    ensures ParseMode("9600n1") == Ok(Mode(9600, 'N', 1))
  {
    ParseModeText("9600", 'n', '1', []);
    assert "9600"[..3] == "960" && "960"[..2] == "96" && "96"[..1] == "9" && "9"[..0] == [];
    assert DecimalValue("9600") == 9600;
    assert UpperChar('n') == 'N';
    assert "9600" + ['n', '1'] + [] == "9600n1";
  }

  /** Every parity letter, in either case, gives the upper-case letter. */
  lemma ParityUpperCase(c: char)
    requires IsParity(c)
    ensures UpperChar(c) in "NEO" && UpperChar(c) == UpperChar(LowerChar(c))
  {
  }

  /** A mode must start with a digit. */
  lemma ParseModeNeedsDigit(s: string)
    requires s == [] || !IsDigit(s[0])
    ensures ParseMode(s) == Err(ArgumentTypeError)
  {
  }
}
