/** Character classes and the Python string operations the definition parsers use:
    `str.strip`, `str.lower`, `str.upper`, `str.split`, `int()` and `float()` on text,
    and the regular-expression classes `\d`, `\s` and the anchor `$`. */
module Text {
  import opened Wrappers

  predicate IsDigit(c: char) {
    '0' <= c <= '9'
  }

  predicate IsHexDigit(c: char) {
    IsDigit(c) || 'a' <= c <= 'f' || 'A' <= c <= 'F'
  }

  predicate IsAsciiLetter(c: char) {
    'a' <= c <= 'z' || 'A' <= c <= 'Z'
  }

  /** `[a-zA-Z0-9_]` */
  predicate IsWordChar(c: char) {
    IsAsciiLetter(c) || IsDigit(c) || c == '_'
  }

  /** Python's `str.isspace` (and the regex class `\s`) on the Latin-1 range. */
  predicate IsSpace(c: char) {
    c == ' ' || '\t' <= c <= '\r' || '\U{1c}' <= c <= '\U{1f}' || c == '\U{85}' || c == '\U{a0}'
  }

  /** The pattern `^[a-zA-Z][a-zA-Z0-9_]*$` that names of registers, enum entries and
      flags must match. */
  predicate IsIdentifier(s: string) {
    |s| > 0 && IsAsciiLetter(s[0]) && forall i :: 0 <= i < |s| ==> IsWordChar(s[i])
  }

  predicate AllDigits(s: string) {
    forall i :: 0 <= i < |s| ==> IsDigit(s[i])
  }

  /** Python's `$` in a pattern without MULTILINE: the end of the text, or just before a
      newline that ends the text. */
  predicate AtEnd(s: string, i: int) {
    i == |s| || (i == |s| - 1 && 0 <= i && s[i] == '\n')
  }

  function DigitValue(c: char): nat
    requires IsDigit(c)
  {
    c as int - '0' as int
  }

  function HexDigitValue(c: char): nat
    requires IsHexDigit(c)
  {
    if IsDigit(c) then DigitValue(c)
    else if 'a' <= c <= 'f' then c as int - 'a' as int + 10
    else c as int - 'A' as int + 10
  }

  /** The value of a run of decimal digits, most significant first. */
  function DecimalValue(s: string): nat
    requires AllDigits(s)
  {
    if s == [] then 0 else DecimalValue(s[..|s| - 1]) * 10 + DigitValue(s[|s| - 1])
  }

  function HexValue(s: string): nat
    requires forall i :: 0 <= i < |s| ==> IsHexDigit(s[i])
  {
    if s == [] then 0 else HexValue(s[..|s| - 1]) * 16 + HexDigitValue(s[|s| - 1])
  }

  /** The shortest decimal text of `n`, as Python's `str(n)` writes it. */
  function Decimal(n: nat): (r: string)
    ensures |r| > 0 && AllDigits(r)
    ensures |r| > 1 ==> r[0] != '0'
    ensures DecimalValue(r) == n
  {
    if n < 10 then [('0' as int + n) as char]
    else
      var r := Decimal(n / 10) + [('0' as int + n % 10) as char];
      assert r[..|r| - 1] == Decimal(n / 10);
      r
  }

  /** `str(i)` of a Python int. */
  function IntText(i: int): string {
    if i < 0 then "-" + Decimal(-i) else Decimal(i)
  }

  /** The length of the longest prefix of `s` whose characters all satisfy `p`. */
  function Span(s: string, p: char -> bool): (n: nat)
    ensures n <= |s|
    ensures forall i :: 0 <= i < n ==> p(s[i])
    ensures n < |s| ==> !p(s[n])
  {
    if s == [] || !p(s[0]) then 0 else 1 + Span(s[1..], p)
  }

  function TrimStart(s: string): (r: string)
    ensures |r| <= |s| && r == s[|s| - |r|..]
    ensures r != [] ==> !IsSpace(r[0])
    ensures forall i :: 0 <= i < |s| - |r| ==> IsSpace(s[i])
  {
    if s != [] && IsSpace(s[0]) then TrimStart(s[1..]) else s
  }

  function TrimEnd(s: string): (r: string)
    ensures |r| <= |s| && r == s[..|r|]
    ensures r != [] ==> !IsSpace(r[|r| - 1])
    ensures forall i :: |r| <= i < |s| ==> IsSpace(s[i])
  {
    if s != [] && IsSpace(s[|s| - 1]) then TrimEnd(s[..|s| - 1]) else s
  }

  /** `str.strip()`: drop leading and trailing whitespace. */
  function Strip(s: string): (r: string)
    ensures r != [] ==> !IsSpace(r[0]) && !IsSpace(r[|r| - 1])
  {
    TrimEnd(TrimStart(s))
  }

  /** Stripping removes exactly the surrounding whitespace. */
  lemma {:induction false} StripPadded(pre: string, t: string, post: string)
    requires forall i :: 0 <= i < |pre| ==> IsSpace(pre[i])
    requires forall i :: 0 <= i < |post| ==> IsSpace(post[i])
    requires t != [] && !IsSpace(t[0]) && !IsSpace(t[|t| - 1])
    ensures Strip(pre + t + post) == t
  {
    var s := pre + t + post;
    TrimStartPadded(pre, t + post);
    assert pre + (t + post) == s;
    TrimEndPadded(t, post);
  }

  lemma {:induction false} TrimStartPadded(pre: string, rest: string)
    requires forall i :: 0 <= i < |pre| ==> IsSpace(pre[i])
    requires rest != [] ==> !IsSpace(rest[0])
    ensures TrimStart(pre + rest) == rest
  {
    if pre != [] {
      assert (pre + rest)[1..] == pre[1..] + rest;
      TrimStartPadded(pre[1..], rest);
    }
  }

  lemma {:induction false} TrimEndPadded(t: string, post: string)
    requires forall i :: 0 <= i < |post| ==> IsSpace(post[i])
    requires t != [] ==> !IsSpace(t[|t| - 1])
    ensures TrimEnd(t + post) == t
  {
    if post != [] {
      var s := t + post;
      assert s[..|s| - 1] == t + post[..|post| - 1];
      TrimEndPadded(t, post[..|post| - 1]);
    } else {
      assert t + post == t;
    }
  }

  function LowerChar(c: char): char {
    if 'A' <= c <= 'Z' then (c as int + 32) as char else c
  }

  function UpperChar(c: char): char {
    if 'a' <= c <= 'z' then (c as int - 32) as char else c
  }

  /** `str.lower()` on ASCII letters. */
  function Lower(s: string): (r: string)
    ensures |r| == |s| && forall i :: 0 <= i < |s| ==> r[i] == LowerChar(s[i])
  {
    if s == [] then [] else [LowerChar(s[0])] + Lower(s[1..])
  }

  /** The index of the first `c` in `s`, or `|s|` when there is none. */
  function IndexOf(s: string, c: char): (i: nat)
    ensures i <= |s| && c !in s[..i]
    ensures i < |s| ==> s[i] == c
  {
    if s == [] then 0 else if s[0] == c then 0 else 1 + IndexOf(s[1..], c)
  }

  /** `sep.join(parts)` */
  function Join(parts: seq<string>, sep: char): string
    requires |parts| > 0
  {
    if |parts| == 1 then parts[0] else parts[0] + [sep] + Join(parts[1..], sep)
  }

  /** `s.split(sep)` for a one-character separator: the pieces between separators. */
  function Split(s: string, sep: char): (parts: seq<string>)
    ensures |parts| >= 1
    ensures forall k :: 0 <= k < |parts| ==> sep !in parts[k]
    ensures Join(parts, sep) == s
    decreases |s|
  {
    var i := IndexOf(s, sep);
    if i == |s| then
      assert s[..i] == s;
      [s]
    else
      var rest := Split(s[i + 1..], sep);
      var parts := [s[..i]] + rest;
      assert parts[1..] == rest;
      assert s == s[..i] + [sep] + s[i + 1..];
      parts
  }

  /** `s.split(sep, 1)`: at most one split, at the first separator. */
  function SplitOnce(s: string, sep: char): (parts: seq<string>)
    ensures 1 <= |parts| <= 2
    ensures sep !in parts[0]
    ensures |parts| == 1 <==> sep !in s
    ensures |parts| == 1 ==> parts[0] == s
    ensures |parts| == 2 ==> s == parts[0] + [sep] + parts[1]
  {
    var i := IndexOf(s, sep);
    if i == |s| then
      assert s[..i] == s;
      [s]
    else
      assert s == s[..i] + [sep] + s[i + 1..];
      [s[..i], s[i + 1..]]
  }

  /** Digits with single underscores between them, as Python's numeric literals allow. */
  predicate IsDigitRun(s: string) {
    && |s| > 0
    && IsDigit(s[0]) && IsDigit(s[|s| - 1])
    && (forall i :: 0 <= i < |s| ==> IsDigit(s[i]) || s[i] == '_')
    && (forall i :: 0 <= i < |s| - 1 ==> !(s[i] == '_' && s[i + 1] == '_'))
  }

  function DropUnderscores(s: string): (r: string)
    requires forall i :: 0 <= i < |s| ==> IsDigit(s[i]) || s[i] == '_'
    ensures AllDigits(r)
  {
    if s == [] then [] else (if s[0] == '_' then [] else [s[0]]) + DropUnderscores(s[1..])
  }

  function RunValue(s: string): nat
    requires IsDigitRun(s)
  {
    DecimalValue(DropUnderscores(s))
  }

  /** A magnitude under a sign character. */
  function Signed(sign: char, n: nat): int {
    if sign == '-' then 0 - n as int else n
  }

  /** Python's `int(s)` on text: surrounding whitespace, an optional sign, then decimal
      digits (with single underscores between them); `None` where Python raises ValueError. */
  function ParseInt(s: string): (r: Option<int>)
  {
    var t := Strip(s);
    if t != [] && (t[0] == '-' || t[0] == '+') then
      (if IsDigitRun(t[1..]) then Some(Signed(t[0], RunValue(t[1..])))
       else None)
    else if IsDigitRun(t) then Some(RunValue(t))
    else None
  }

  function Pow10(n: nat): (r: nat)
    ensures r >= 1
  {
    if n == 0 then 1 else 10 * Pow10(n - 1)
  }

  /** `m * 10^e` as an exact real. */
  function Scaled(m: int, e: int): real {
    if e >= 0 then (m * Pow10(e)) as real else m as real / Pow10(-e) as real
  }

  /** An optional digit run: empty, or a digit run. */
  predicate OptRun(s: string) {
    s == [] || IsDigitRun(s)
  }

  function OptRunValue(s: string): nat
    requires OptRun(s)
  {
    if s == [] then 0 else RunValue(s)
  }

  /** The exponent of a float literal after its `e`: an optional sign and digits. */
  function ParseExponent(x: string): Option<int> {
    if x != [] && (x[0] == '-' || x[0] == '+') then
      (if IsDigitRun(x[1..]) then Some(Signed(x[0], RunValue(x[1..]))) else None)
    else if IsDigitRun(x) then Some(RunValue(x))
    else None
  }

  /** The value of the literal `intPart.fracPart` times ten to the `exponent`. */
  function LiteralValue(intPart: string, fracPart: string, exponent: int): real
    requires OptRun(intPart) && OptRun(fracPart)
  {
    var k := |DropUnderscores(fracPart)|;
    Scaled(OptRunValue(intPart) * Pow10(k) + OptRunValue(fracPart), exponent - k)
  }

  /** The value of an unsigned decimal literal `digits[.digits][(e|E)[sign]digits]`. */
  function ParseDecimalLiteral(t: string): Option<real> {
    var e := IndexOf(Lower(t), 'e');
    var mant := t[..e];
    var d := IndexOf(mant, '.');
    var intPart := mant[..d];
    var fracPart := if d < |mant| then mant[d + 1..] else [];
    var exponent := if e == |t| then Some(0) else ParseExponent(t[e + 1..]);
    if exponent.Some? && OptRun(intPart) && OptRun(fracPart) && (intPart != [] || fracPart != []) then
      Some(LiteralValue(intPart, fracPart, exponent.value))
    else None
  }

  /** Python's `float(s)` on text, for finite decimal literals. */
  function ParseFloat(s: string): Option<real> {
    var t := Strip(s);
    if t != [] && (t[0] == '-' || t[0] == '+') then
      match ParseDecimalLiteral(t[1..])
      case Some(x) => Some(if t[0] == '-' then -x else x)
      case None => None
    else ParseDecimalLiteral(t)
  }

  /** Python's `int(s)` reads back what `str(i)` writes. */
  lemma ParseIntText(i: int)
    ensures ParseInt(IntText(i)) == Some(i)
  {
    var t := IntText(i);
    var d := Decimal(if i < 0 then -i else i);
    NoSpaceDigits(t);
    StripPadded([], t, []);
    assert [] + t + [] == t;
    DigitsAreRun(d);
    if i < 0 {
      assert t[1..] == d;
    }
  }

  lemma NoSpaceDigits(t: string)
    requires t != [] && (t[0] == '-' || IsDigit(t[0])) && IsDigit(t[|t| - 1])
    ensures !IsSpace(t[0]) && !IsSpace(t[|t| - 1])
  {
  }

  lemma {:induction false} DigitsAreRun(d: string)
    requires |d| > 0 && AllDigits(d)
    ensures IsDigitRun(d) && DropUnderscores(d) == d && RunValue(d) == DecimalValue(d)
  {
    NoUnderscores(d);
  }

  lemma {:induction false} NoUnderscores(d: string)
    requires AllDigits(d)
    ensures DropUnderscores(d) == d
  {
    if d != [] {
      NoUnderscores(d[1..]);
    }
  }

  /** `float(d)` of a run of decimal digits is its value. */
  lemma ParseFloatDigits(d: string)
    requires |d| > 0 && AllDigits(d)
    ensures ParseFloat(d) == Some(DecimalValue(d) as real)
  {
    NoSpaceDigits(d);
    StripPadded([], d, []);
    assert [] + d + [] == d;
    assert Strip(d) == d && IsDigit(d[0]);
    DecimalLiteralDigits(d);
  }

  lemma DecimalLiteralDigits(d: string)
    requires |d| > 0 && AllDigits(d)
    ensures ParseDecimalLiteral(d) == Some(DecimalValue(d) as real)
  {
    DigitsHaveNoMarks(d);
    DigitsAreRun(d);
    var mant := d[..IndexOf(Lower(d), 'e')];
    assert mant == d;
    var intPart := mant[..IndexOf(mant, '.')];
    assert intPart == d;
    assert OptRunValue(intPart) == DecimalValue(d);
    IntegerLiteral(d);
  }

  /** A literal without fraction or exponent is its digits' value. */
  lemma IntegerLiteral(d: string)
    requires |d| > 0 && AllDigits(d) && IsDigitRun(d)
    ensures LiteralValue(d, [], 0) == RunValue(d) as real
  {
    assert DropUnderscores([]) == [];
    ScaledByOne(RunValue(d));
  }

  lemma ScaledByOne(m: int)
    ensures Scaled(m, 0) == m as real
  {
    assert Pow10(0) == 1;
  }

  /** A run of digits has neither an exponent mark nor a point. */
  lemma DigitsHaveNoMarks(d: string)
    requires AllDigits(d)
    ensures IndexOf(Lower(d), 'e') == |d| && IndexOf(d, '.') == |d|
  {
    var l := Lower(d);
    forall i | 0 <= i < |l|
      ensures l[i] != 'e'
    {
      assert l[i] == LowerChar(d[i]);
    }
    IndexOfAbsent(l, 'e');
    IndexOfAbsent(d, '.');
  }

  lemma IndexOfAbsent(s: string, c: char)
    requires c !in s
    ensures IndexOf(s, c) == |s|
  {
  }

  /** A character that is not whitespace survives `strip`. */
  lemma StripKeeps(s: string, i: int)
    requires 0 <= i < |s| && !IsSpace(s[i])
    ensures s[i] in Strip(s)
  {
    var a := TrimStart(s);
    var k := |s| - |a|;
    assert a[i - k] == s[i];
    var b := TrimEnd(a);
    assert b[i - k] == a[i - k];
  }

  /** Splitting at the first separator: the piece before it, then the pieces of the rest. */
  lemma SplitFirst(d: string, sep: char, o: string)
    requires sep !in d
    ensures Split(d + [sep] + o, sep) == [d] + Split(o, sep)
  {
    var s := d + [sep] + o;
    assert s[..|d|] == d && s[|d|] == sep;
    assert IndexOf(s, sep) == |d|;
    assert s[|d| + 1..] == o;
  }

  /** Text without the separator is a single piece. */
  lemma SplitNone(d: string, sep: char)
    requires sep !in d
    ensures Split(d, sep) == [d]
  {
    assert IndexOf(d, sep) == |d|;
  }

  /** A run of characters with property `p` that the next character ends is the span. */
  lemma {:induction false} SpanPrefix(d: string, rest: string, p: char -> bool)
    requires forall i :: 0 <= i < |d| ==> p(d[i])
    requires rest == [] || !p(rest[0])
    ensures Span(d + rest, p) == |d|
    decreases |d|
  {
    if d == [] {
      assert d + rest == rest;
    } else {
      assert (d + rest)[0] == d[0];
      assert (d + rest)[1..] == d[1..] + rest;
      SpanPrefix(d[1..], rest, p);
    }
  }

  /** Concatenation is associative. */
  lemma ConcatAssoc(x: string, y: string, z: string)
    ensures x + y + z == x + (y + z)
  {
  }

  /** Dropping a prefix leaves what followed it. */
  lemma DropPrefix(p: string, x: string)
    ensures (p + x)[|p|..] == x && (p + x)[..|p|] == p
  {
  }
}
