/** The one-line register definitions of a device file (`parse_options_str` and
    `parse_register_def` in src/modbus_client/device/registers/device_register.py):
    `name/address[/type[*scale][[unit]]]` followed by comma-separated `key=value` options.
    The parser only splits the text into the keyword arguments of a register; checking
    them is the register's own validation. */
module RegisterDefinitions {
  import opened Wrappers
  import opened Exceptions
  import opened Text
  import opened RegisterTypes
  import opened EnumDefinitions
  import opened FlagDefinitions

  /** A keyword argument for a register, as the parser or a device file gives it: a text,
      a bool, an int, a float, `None`, a value-type tag, or a list of enum entries or
      flags. */
  datatype Field =
    | FText(s: string)
    | FBool(b: bool)
    | FInt(i: int)
    | FFloat(x: real)
    | FNone
    | FType(t: RegisterType)
    | FEnumList(defs: seq<EnumDefinition>)
    | FFlagList(flags: seq<FlagInput>)

  type Fields = map<string, Field>

  // ---------------------------------------------------------------------------
  // Options

  /** The key of an option: the text before the first `=`. */
  function OptionKey(o: string): (k: string)
    ensures '=' !in k && |k| <= |o| && k == o[..|k|]
  {
    SplitOnce(o, '=')[0]
  }

  /** The value of an option: the text after the first `=`, or `True` for a bare key. */
  function OptionValue(o: string): (f: Field)
    ensures f.FBool? <==> '=' !in o
    ensures f.FBool? ==> f.b && OptionKey(o) == o
    ensures f.FText? ==> o == OptionKey(o) + "=" + f.s
    ensures f.FBool? || f.FText?
  {
    var parts := SplitOnce(o, '=');
    if |parts| == 1 then FBool(true) else FText(parts[1])
  }

  /** The dictionary filled by setting `keyOf(x)` to `valueOf(x)` for each `x` in turn, so
      a later element overwrites an earlier one with the same key. */
  function Assigned<T, V>(xs: seq<T>, keyOf: T -> string, valueOf: T -> V): (m: map<string, V>)
    ensures forall k :: k in m <==> exists i :: 0 <= i < |xs| && keyOf(xs[i]) == k
  {
    if xs == [] then map[]
    else
      var n := |xs| - 1;
      assert forall i :: 0 <= i < n ==> xs[..n][i] == xs[i];
      Assigned(xs[..n], keyOf, valueOf)[keyOf(xs[n]) := valueOf(xs[n])]
  }

  /** An element not overwritten by a later one keeps its value. */
  lemma {:induction false} AssignedLastWins<T, V>(xs: seq<T>, keyOf: T -> string, valueOf: T -> V, i: int)
    requires 0 <= i < |xs|
    requires forall j :: i < j < |xs| ==> keyOf(xs[j]) != keyOf(xs[i])
    ensures keyOf(xs[i]) in Assigned(xs, keyOf, valueOf)
    ensures Assigned(xs, keyOf, valueOf)[keyOf(xs[i])] == valueOf(xs[i])
  {
    var n := |xs| - 1;
    if i < n {
      var init := xs[..n];
      assert init[i] == xs[i];
      assert forall j :: i < j < |init| ==> init[j] == xs[j];
      AssignedLastWins(init, keyOf, valueOf, i);
    }
  }

  /** The options dictionary of a list of option texts: each one sets its key, so a later
      option overwrites an earlier one with the same key. */
  function Options(strs: seq<string>): (m: Fields)
    ensures forall k :: k in m <==> exists i :: 0 <= i < |strs| && OptionKey(strs[i]) == k
  {
    Assigned(strs, OptionKey, OptionValue)
  }

  /** `parse_options_str`: the loop filling the dictionary. Splitting at most once gives
      one or two pieces, so its third branch cannot be reached. */
  method ParseOptionsStr(strs: seq<string>) returns (options: Fields)
    ensures options == Options(strs)
  {
    options := map[];
    for k := 0 to |strs|
      invariant options == Options(strs[..k])
    {
      var parts := SplitOnce(strs[k], '=');
      if |parts| == 1 {
        options := options[parts[0] := FBool(true)];
      } else {
        options := options[parts[0] := FText(parts[1])];
      }
      assert strs[..k + 1][..k] == strs[..k];
    }
    assert strs[..|strs|] == strs;
  }

  /** An option not overwritten by a later one keeps its value. */
  lemma OptionsLastWins(strs: seq<string>, i: int)
    requires 0 <= i < |strs|
    requires forall j :: i < j < |strs| ==> OptionKey(strs[j]) != OptionKey(strs[i])
    ensures OptionKey(strs[i]) in Options(strs) && Options(strs)[OptionKey(strs[i])] == OptionValue(strs[i])
  {
    AssignedLastWins(strs, OptionKey, OptionValue, i);
  }

  // ---------------------------------------------------------------------------
  // The grammar

  /** `[^*\[]`: a character of the type part of the first form. */
  predicate IsTypeChar(c: char) {
    c != '*' && c != '['
  }

  predicate AllTypeChars(s: string) {
    forall i :: 0 <= i < |s| ==> IsTypeChar(s[i])
  }

  /** `[0-9.]`: a character of the scale. */
  predicate IsScaleChar(c: char) {
    IsDigit(c) || c == '.'
  }

  predicate NoNewline(s: string) {
    '\n' !in s
  }

  /** `\s*(0x[0-9a-fA-F]+|[0-9]+)\s*` at the start of `s`: the address text and what
      follows the whitespace after it. When the hexadecimal alternative fails to be
      followed by what the pattern needs, the decimal one can only take the `0` before
      the `x`, which fails too; so the first alternative that matches decides. */
  function MatchAddress(s: string): (m: Option<(string, string)>)
    ensures m.Some? ==> |m.value.0| > 0 && (m.value.1 == [] || !IsSpace(m.value.1[0]))
  {
    var t := s[Span(s, IsSpace)..];
    var n :=
      if |t| > 2 && t[0] == '0' && t[1] == 'x' && IsHexDigit(t[2]) then 2 + Span(t[2..], IsHexDigit)
      else Span(t, IsDigit);
    if n == 0 then None
    else
      var rest := t[n..];
      Some((t[..n], rest[Span(rest, IsSpace)..]))
  }

  /** `int(a, 0)` on an address text: `0x` and hexadecimal digits, or decimal digits; a
      decimal number other than zero may not start with `0`. */
  function IntBase0(a: string): (r: Result<int, Exception>)
    ensures r.Ok? ==> r.value >= 0
    ensures r.Err? ==> r.error == ValueError
  {
    if |a| > 2 && a[..2] == "0x" && forall i :: 2 <= i < |a| ==> IsHexDigit(a[i]) then Ok(HexValue(a[2..]))
    else if |a| > 0 && AllDigits(a) && (a[0] != '0' || forall i :: 0 <= i < |a| ==> a[i] == '0') then
      Ok(DecimalValue(a))
    else Err(ValueError)
  }

  /** `\[(?P<unit>.+)]$` on text that starts with `[`: the unit reaches the `]` at the end
      of the text (or before a final newline), and may not hold a newline. */
  function MatchUnit(u: string): (m: Option<string>)
    requires u != [] && u[0] == '['
    ensures m.Some? ==> |m.value| > 0 && NoNewline(m.value)
  {
    var x := u[1..];
    if |x| >= 2 && x[|x| - 1] == ']' && NoNewline(x[..|x| - 1]) then Some(x[..|x| - 1])
    else if |x| >= 3 && x[|x| - 1] == '\n' && x[|x| - 2] == ']' && NoNewline(x[..|x| - 2]) then Some(x[..|x| - 2])
    else None
  }

  /** The groups of the first form after the address: type, scale and unit. */
  datatype TypedTail = TypedTail(typeText: string, scale: Option<string>, unit: Option<string>)

  /** `([^*\[]+)(?:\*(?P<scale>[0-9.]+))?(?:\[(?P<unit>.+)])?$`. The type part is the
      longest run without `*` or `[`; a shorter one would leave a character that neither
      optional group nor the end can take. */
  function MatchTypedTail(s: string): (m: Option<TypedTail>)
    ensures m.Some? ==> |m.value.typeText| > 0 && AllTypeChars(m.value.typeText)
    ensures m.Some? && m.value.scale.Some? ==> |m.value.scale.value| > 0 && forall i :: 0 <= i < |m.value.scale.value| ==> IsScaleChar(m.value.scale.value[i])
    ensures AllTypeChars(s) && s != [] ==> m == Some(TypedTail(s, None, None))
  {
    var t := Span(s, IsTypeChar);
    assert AllTypeChars(s) ==> t == |s| && s[..t] == s;
    if t == 0 then None
    else
      var r := s[t..];
      if r == [] then Some(TypedTail(s[..t], None, None))
      else if r[0] == '*' then
        var n := Span(r[1..], IsScaleChar);
        if n == 0 then None
        else
          var scale := r[1..][..n];
          var u := r[1 + n..];
          if u != [] && u[0] == '[' && MatchUnit(u).Some? then Some(TypedTail(s[..t], Some(scale), MatchUnit(u)))
          else if AtEnd(u, 0) then Some(TypedTail(s[..t], Some(scale), None))
          else None
      else
        if MatchUnit(r).Some? then Some(TypedTail(s[..t], None, MatchUnit(r))) else None
  }

  /** `(.+)$`: the rest of the line, to the end of the text or a final newline. */
  function MatchPlainTail(s: string): (m: Option<string>)
    ensures m.Some? ==> |m.value| > 0 && |s| - 1 <= |m.value| <= |s| && m.value == s[..|m.value|]
  {
    if |s| >= 1 && NoNewline(s) then Some(s)
    else if |s| >= 2 && s[|s| - 1] == '\n' && NoNewline(s[..|s| - 1]) then Some(s[..|s| - 1])
    else None
  }

  /** The part all three forms share: `^([a-zA-Z0-9_ ]+)/` and the address. */
  datatype Head = Head(nameGroup: string, address: string, rest: string)

  function MatchHead(s: string): (m: Option<Head>)
    ensures m.Some? ==> |m.value.address| > 0
  {
    var n := Span(s, IsNameChar);
    if n == 0 || n == |s| || s[n] != '/' then None
    else
      match MatchAddress(s[n + 1..])
      case None => None
      case Some((a, rest)) => Some(Head(s[..n], a, rest))
  }

  /** `float(scale)` when a scale is written, `1` otherwise. */
  function ScaleField(scale: Option<string>): (r: Result<Field, Exception>)
    ensures r.Ok? ==> r.value.FInt? || r.value.FFloat?
    ensures scale.None? ==> r == Ok(FInt(1))
    ensures r.Err? ==> r.error == ValueError
  {
    if scale.None? then Ok(FInt(1))
    else if ParseFloat(scale.value).Some? then Ok(FFloat(ParseFloat(scale.value).value))
    else Err(ValueError)
  }

  /** `dict(**fixed, **options)`: a key given twice is a `TypeError`. */
  function WithOptions(fixed: Fields, options: Fields): (r: Result<Fields, Exception>)
    ensures r.Ok? <==> fixed.Keys !! options.Keys
    ensures r.Ok? ==> r.value == fixed + options
    ensures r.Err? ==> r.error == TypeError
  {
    if fixed.Keys !! options.Keys then Ok(fixed + options) else Err(TypeError)
  }

  /** The type part, stripped and lower-cased, as a tag. Only ASCII letters occur in tag
      names, and no other character lower-cases to one of them, so ASCII lower-casing
      decides the same. */
  function TypeField(text: string): (r: Result<Field, Exception>)
    ensures r.Ok? ==> r.value.FType? && r.value.t.Name() == Lower(Strip(text))
    ensures r.Err? ==> r.error == ValueError
  {
    var t :- FromName(Lower(Strip(text)));
    Ok(FType(t))
  }

  /** `parse_register_def`: the keyword arguments of the first form that matches, `None`
      when none does. */
  function ParseRegisterDef(s: string): (r: Result<Option<Fields>, Exception>)
    ensures r.Ok? && r.value.Some? ==> "name" in r.value.value && "address" in r.value.value
    ensures r.Err? ==> r.error == ValueError || r.error == TypeError
  {
    var parts := Split(s, ',');
    match MatchHead(parts[0])
    case None => Ok(None)
    case Some(h) => FieldsOf(h, Options(parts[1..]))
  }

  /** The three forms, tried in order on what follows the address. */
  function FieldsOf(h: Head, options: Fields): (r: Result<Option<Fields>, Exception>)
    ensures r.Ok? && r.value.Some? ==> "name" in r.value.value && "address" in r.value.value
    ensures r.Err? ==> r.error == ValueError || r.error == TypeError
  {
    var name := FText(Strip(h.nameGroup));
    var rest := h.rest;
    if rest != [] && rest[0] == '/' && MatchTypedTail(rest[1..]).Some? then
      TypedForm(name, h.address, MatchTypedTail(rest[1..]).value, options)
    else if rest != [] && rest[0] == '/' && MatchPlainTail(rest[1..]).Some? then
      PlainForm(name, h.address, MatchPlainTail(rest[1..]).value, options)
    else if rest == [] then
      BareForm(name, h.address, options)
    else Ok(None)
  }

  /** `name/address/type*scale[unit]`. The arguments are computed left to right, so a bad
      address comes before a bad type, a bad type before a bad scale, and those before a
      key repeated by an option. */
  function TypedForm(name: Field, a: string, tail: TypedTail, options: Fields): (r: Result<Option<Fields>, Exception>)
    ensures r.Ok? ==> r.value.Some? && "name" in r.value.value && "address" in r.value.value
    ensures r.Err? ==> r.error == ValueError || r.error == TypeError
  {
    var address :- IntBase0(a);
    var t :- TypeField(tail.typeText);
    var scale :- ScaleField(tail.scale);
    var unit := if tail.unit.Some? then FText(tail.unit.value) else FNone;
    var fields :- WithOptions(map["name" := name, "address" := FInt(address), "type" := t,
                                  "scale" := scale, "unit" := unit], options);
    Ok(Some(fields))
  }

  /** `name/address/type`. */
  function PlainForm(name: Field, a: string, typeText: string, options: Fields): (r: Result<Option<Fields>, Exception>)
    ensures r.Ok? ==> r.value.Some? && "name" in r.value.value && "address" in r.value.value
    ensures r.Err? ==> r.error == ValueError || r.error == TypeError
  {
    var address :- IntBase0(a);
    var t :- TypeField(typeText);
    var fields :- WithOptions(map["name" := name, "address" := FInt(address), "type" := t], options);
    Ok(Some(fields))
  }

  /** `name/address`. */
  function BareForm(name: Field, a: string, options: Fields): (r: Result<Option<Fields>, Exception>)
    ensures r.Ok? ==> r.value.Some? && "name" in r.value.value && "address" in r.value.value
    ensures r.Err? ==> r.error == ValueError || r.error == TypeError
  {
    var address :- IntBase0(a);
    var fields :- WithOptions(map["name" := name, "address" := FInt(address)], options);
    Ok(Some(fields))
  }

  // ---------------------------------------------------------------------------
  // What the grammar gives

  /** A decimal address as Python writes it reads back as itself. */
  lemma IntBase0Decimal(a: nat)
    ensures IntBase0(Decimal(a)) == Ok(a)
  {
    var d := Decimal(a);
    if |d| > 2 {
      assert IsDigit(d[1]);
    }
    if d[0] == '0' {
      assert |d| == 1;
    }
  }

  /** A hexadecimal address `0x...` reads as its hexadecimal value. */
  lemma IntBase0Hex(h: string)
    requires |h| > 0 && forall i :: 0 <= i < |h| ==> IsHexDigit(h[i])
    ensures IntBase0("0x" + h) == Ok(HexValue(h))
  {
    var a := "0x" + h;
    assert a[..2] == "0x" && a[2..] == h;
    assert forall i :: 2 <= i < |a| ==> a[i] == h[i - 2];
  }

  /** A decimal address with a leading zero is refused (`int("010", 0)`). */
  lemma LeadingZeroRefused(d: string)
    requires |d| > 0 && AllDigits(d) && d[0] != '0'
    ensures IntBase0("0" + d) == Err(ValueError)
  {
    var a := "0" + d;
    assert a[1] == d[0];
    assert a[1] != 'x';
  }

  /** The name part of `name/...` is the identifier. */
  lemma NameOf(name: string, tail: string)
    requires IsIdentifier(name)
    ensures var s := name + "/" + tail;
      Span(s, IsNameChar) == |name| && s[|name|] == '/' && s[..|name|] == name && s[|name| + 1..] == tail
  {
    var s := name + "/" + tail;
    assert s[|name|] == '/';
    assert forall i :: 0 <= i < |name| ==> IsNameChar(s[i]);
  }

  /** What may follow a decimal address for the address to be matched whole: the end, or
      a character that is neither a digit nor whitespace (nor the `x` of `0x`). */
  predicate EndsAddress(a: nat, rest: string) {
    rest == [] || (!IsDigit(rest[0]) && !IsSpace(rest[0]) && (a != 0 || rest[0] != 'x'))
  }

  /** The address part of `address/...`, of `address` alone, or of an address followed by
      any other character that ends it. */
  lemma AddressOf(a: nat, rest: string)
    requires EndsAddress(a, rest)
    ensures MatchAddress(Decimal(a) + rest) == Some((Decimal(a), rest))
  {
    var d := Decimal(a);
    var after := d + rest;
    assert after[0] == d[0];
    assert Span(after, IsSpace) == 0;
    assert after[0..] == after;
    if d[0] == '0' {
      assert a == 0 && |d| == 1;
      assert |after| > 2 ==> after[1] == rest[0];
    }
    SpanPrefix(d, rest, IsDigit);
    assert after[..|d|] == d;
    assert after[|d|..] == rest;
    assert rest[0..] == rest;
  }

  /** The groups of `name/address` followed by `rest`. */
  lemma HeadOf(name: string, a: nat, rest: string)
    requires IsIdentifier(name)
    requires EndsAddress(a, rest)
    ensures MatchHead(name + "/" + Decimal(a) + rest) == Some(Head(name, Decimal(a), rest))
  {
    var d := Decimal(a);
    var t := d + rest;
    var s := name + "/" + t;
    ConcatAssoc(name + "/", d, rest);
    NameOf(name, t);
    AddressOf(a, rest);
    assert MatchAddress(s[|name| + 1..]) == Some((d, rest));
    assert MatchHead(s) == Some(Head(name, d, rest));
  }

  lemma IdentifierStrips(name: string)
    requires IsIdentifier(name)
    ensures Strip(name) == name
  {
    StripPadded([], name, []);
    assert [] + name + [] == name;
  }

  /** Names, decimal numbers and tag names hold no comma. */
  lemma NoComma(name: string, a: nat)
    requires IsIdentifier(name)
    ensures ',' !in name && ',' !in Decimal(a)
  {
    forall i | 0 <= i < |name|
      ensures name[i] != ','
    {
      assert IsWordChar(name[i]);
    }
    var d := Decimal(a);
    forall i | 0 <= i < |d|
      ensures d[i] != ','
    {
      assert IsDigit(d[i]);
    }
  }

  lemma PlainNoComma(n: string)
    requires IsPlain(n)
    ensures ',' !in n
  {
    forall i | 0 <= i < |n|
      ensures n[i] != ','
    {
      assert 'a' <= n[i] <= 'z' || '0' <= n[i] <= '9';
    }
  }

  /** A definition with no comma has no options. */
  lemma NoOptions(s: string)
    requires ',' !in s
    ensures ParseRegisterDef(s) == if MatchHead(s).None? then Ok(None) else FieldsOf(MatchHead(s).value, map[])
  {
    SplitNone(s, ',');
    assert Split(s, ',')[1..] == [];
  }

  /** The comma-separated options start after the first comma, so the definition proper
      is the text before it. */
  lemma DefinitionPart(d: string, tail: string)
    requires ',' !in d && (tail == [] || tail[0] == ',')
    ensures Split(d + tail, ',')[0] == d
  {
    if tail == [] {
      assert d + tail == d;
      SplitNone(d, ',');
    } else {
      var o := tail[1..];
      assert tail == [','] + o;
      assert d + tail == d + [','] + o;
      SplitFirst(d, ',', o);
    }
  }

  /** A definition without `/` matches no form, whatever options follow it. */
  lemma NoSlashUnmatched(d: string, tail: string)
    requires ',' !in d && '/' !in d && (tail == [] || tail[0] == ',')
    ensures ParseRegisterDef(d + tail) == Ok(None)
  {
    DefinitionPart(d, tail);
    var n := Span(d, IsNameChar);
    if n < |d| {
      assert d[n] in d;
    }
  }

  /** A character outside `[a-zA-Z0-9_ ]` before the first `/` leaves the name group
      unmatched. */
  lemma BadNameUnmatched(pre: string, c: char, post: string, tail: string)
    requires '/' !in pre && !IsNameChar(c) && c != '/'
    requires ',' !in pre + [c] + post && (tail == [] || tail[0] == ',')
    ensures ParseRegisterDef(pre + [c] + post + tail) == Ok(None)
  {
    var d := pre + [c] + post;
    DefinitionPart(d, tail);
    var n := Span(d, IsNameChar);
    assert d[|pre|] == c;
    assert n <= |pre|;
    if n < |pre| {
      assert d[n] == pre[n] && pre[n] in pre;
    }
  }

  /** `name/address` followed by a character that neither ends the text nor starts a
      type (`/`) matches no form, as `a/3x` does not. */
  lemma TrailingUnmatched(name: string, a: nat, c: char, rest: string, tail: string)
    requires IsIdentifier(name) && EndsAddress(a, [c]) && c != '/'
    requires ',' !in [c] + rest && (tail == [] || tail[0] == ',')
    ensures ParseRegisterDef(name + "/" + Decimal(a) + [c] + rest + tail) == Ok(None)
  {
    var d := name + "/" + Decimal(a) + ([c] + rest);
    assert d == name + "/" + Decimal(a) + [c] + rest;
    NoComma(name, a);
    assert ',' !in d by {
      forall i | 0 <= i < |d|
        ensures d[i] != ','
      {
        if i < |name| {
          assert d[i] == name[i];
        } else if i == |name| {
        } else if i < |name| + 1 + |Decimal(a)| {
          assert d[i] == Decimal(a)[i - |name| - 1];
        } else {
          assert d[i] == ([c] + rest)[i - |name| - 1 - |Decimal(a)|];
        }
      }
    }
    DefinitionPart(d, tail);
    HeadOf(name, a, [c] + rest);
  }

  /** `name/address` is the third form: just the name and the address. */
  lemma ParseNameAddress(name: string, a: nat)
    requires IsIdentifier(name)
    ensures ParseRegisterDef(name + "/" + Decimal(a))
         == Ok(Some(map["name" := FText(name), "address" := FInt(a)]))
  {
    var s := name + "/" + Decimal(a);
    assert s == name + "/" + Decimal(a) + [];
    HeadOf(name, a, []);
    NoComma(name, a);
    assert ',' !in s;
    NoOptions(s);
    IdentifierStrips(name);
    BareFieldsOf(Head(name, Decimal(a), []), map[]);
    BareFormOf(name, a);
  }

  /** Nothing after the address: the third form. */
  lemma BareFieldsOf(h: Head, options: Fields)
    requires h.rest == []
    ensures FieldsOf(h, options) == BareForm(FText(Strip(h.nameGroup)), h.address, options)
  {
  }

  lemma BareFormOf(name: string, a: nat)
    ensures BareForm(FText(name), Decimal(a), map[]) == Ok(Some(map["name" := FText(name), "address" := FInt(a)]))
  {
    IntBase0Decimal(a);
    var fixed := map["name" := FText(name), "address" := FInt(a)];
    assert fixed + map[] == fixed;
    assert WithOptions(fixed, map[]) == Ok(fixed);
  }

  /** The first form, when it matches, decides. */
  lemma TypedFieldsOf(nameGroup: string, a: string, tail: string, options: Fields)
    requires MatchTypedTail(tail).Some?
    ensures FieldsOf(Head(nameGroup, a, "/" + tail), options)
         == TypedForm(FText(Strip(nameGroup)), a, MatchTypedTail(tail).value, options)
  {
    DropPrefix("/", tail);
  }

  /** Lower-case ASCII letters and digits only. */
  predicate IsPlain(n: string) {
    forall i :: 0 <= i < |n| ==> 'a' <= n[i] <= 'z' || '0' <= n[i] <= '9'
  }

  /** Tag names are lower-case letters and digits. */
  lemma TagChars(t: RegisterType)
    ensures |t.Name()| > 0 && IsPlain(t.Name())
  {
  }

  /** Lower-case letters and digits are left alone by `strip` and `lower`. */
  lemma PlainStrip(n: string)
    requires |n| > 0 && IsPlain(n)
    ensures Strip(n) == n
  {
    assert !IsSpace(n[0]) && !IsSpace(n[|n| - 1]);
    StripPadded([], n, []);
    assert [] + n + [] == n;
  }

  lemma PlainLower(n: string)
    requires IsPlain(n)
    ensures Lower(n) == n
  {
    forall i | 0 <= i < |n|
      ensures Lower(n)[i] == n[i]
    {
      assert LowerChar(n[i]) == n[i];
    }
  }

  /** Plain text naming a tag has no `*`, `[` or whitespace, and as a type part gives
      that tag. */
  lemma PlainTypeText(n: string, t: RegisterType)
    requires |n| > 0 && IsPlain(n) && FromName(n) == Ok(t)
    ensures AllTypeChars(n) && TypeField(n) == Ok(FType(t))
  {
    PlainStrip(n);
    PlainLower(n);
  }

  /** Text a type part can be: no `*`, `[` or comma, and naming the tag `t` once
      stripped and lower-cased. */
  predicate TypeText(n: string, t: RegisterType) {
    |n| > 0 && AllTypeChars(n) && ',' !in n && TypeField(n) == Ok(FType(t))
  }

  /** A tag name is such a text: written as a type part it gives its tag. */
  lemma TypeNameText(t: RegisterType)
    ensures TypeText(t.Name(), t)
  {
    TagChars(t);
    FromNameOfName(t);
    PlainTypeText(t.Name(), t);
    PlainNoComma(t.Name());
  }

  /** `name/address/type` is the first form with no scale and no unit: the scale
      defaults to 1 and the unit is `None`. */
  lemma ParseNameAddressType(name: string, a: nat, t: RegisterType)
    requires IsIdentifier(name)
    ensures ParseRegisterDef(name + "/" + Decimal(a) + "/" + t.Name())
         == Ok(Some(map["name" := FText(name), "address" := FInt(a), "type" := FType(t),
                        "scale" := FInt(1), "unit" := FNone]))
  {
    TypeNameText(t);
    ParseTypedText(name, a, t.Name(), t);
  }

  lemma ParseTypedText(name: string, a: nat, n: string, t: RegisterType)
    requires IsIdentifier(name) && TypeText(n, t)
    ensures ParseRegisterDef(name + "/" + Decimal(a) + "/" + n)
         == Ok(Some(map["name" := FText(name), "address" := FInt(a), "type" := FType(t),
                        "scale" := FInt(1), "unit" := FNone]))
  {
    ConcatAssoc(name + "/" + Decimal(a), "/", n);
    DefinitionHead(name, a, "/" + n);
    IntBase0Decimal(a);
    IdentifierStrips(name);
    TypedFieldsPlain(name, Decimal(a), a, n, t);
  }

  lemma TypedFieldsPlain(name: string, d: string, a: nat, n: string, t: RegisterType)
    requires Strip(name) == name && IntBase0(d) == Ok(a) && TypeText(n, t)
    ensures FieldsOf(Head(name, d, "/" + n), map[])
         == Ok(Some(map["name" := FText(name), "address" := FInt(a), "type" := FType(t),
                        "scale" := FInt(1), "unit" := FNone]))
  {
    assert MatchTypedTail(n) == Some(TypedTail(n, None, None));
    TypedFieldsOf(name, d, n, map[]);
    TypedFormOf(name, d, a, n, t, None, None);
  }

  /** A definition without options: `name/address` followed by the rest of the forms. */
  lemma DefinitionHead(name: string, a: nat, rest: string)
    requires IsIdentifier(name)
    requires (rest == [] || rest[0] == '/') && ',' !in rest
    ensures ParseRegisterDef(name + "/" + Decimal(a) + rest) == FieldsOf(Head(name, Decimal(a), rest), map[])
  {
    var s := name + "/" + Decimal(a) + rest;
    HeadOf(name, a, rest);
    NoComma(name, a);
    assert ',' !in s;
    NoOptions(s);
  }

  /** The fields of the first form for a decimal address, a tag name and a whole-number
      scale, when no option is given. */
  lemma TypedFormOf(name: string, d: string, a: nat, n: string, t: RegisterType, scale: Option<string>, unit: Option<string>)
    requires IntBase0(d) == Ok(a) && TypeField(n) == Ok(FType(t))
    requires scale.Some? ==> |scale.value| > 0 && AllDigits(scale.value)
    ensures TypedForm(FText(name), d, TypedTail(n, scale, unit), map[])
         == Ok(Some(map["name" := FText(name), "address" := FInt(a), "type" := FType(t),
                        "scale" := if scale.Some? then FFloat(DecimalValue(scale.value) as real) else FInt(1),
                        "unit" := if unit.Some? then FText(unit.value) else FNone]))
  {
    var sc := if scale.Some? then FFloat(DecimalValue(scale.value) as real) else FInt(1);
    if scale.Some? {
      ScaleDigits(scale.value);
    }
    assert ScaleField(scale) == Ok(sc);
    var un := if unit.Some? then FText(unit.value) else FNone;
    var fixed := map["name" := FText(name), "address" := FInt(a), "type" := FType(t), "scale" := sc, "unit" := un];
    assert fixed + map[] == fixed;
    assert WithOptions(fixed, map[]) == Ok(fixed);
  }

  /** A whole-number scale is read as a float. */
  lemma ScaleDigits(d: string)
    requires |d| > 0 && AllDigits(d)
    ensures ScaleField(Some(d)) == Ok(FFloat(DecimalValue(d) as real))
  {
    ParseFloatDigits(d);
  }

  /** `name/address/type*scale[unit]`: a whole-number scale is read as a float, and the
      unit is the text between the brackets. */
  lemma ParseFullDefinition(name: string, a: nat, t: RegisterType, k: nat, unit: string)
    requires IsIdentifier(name)
    requires |unit| > 0 && NoNewline(unit) && ',' !in unit
    ensures ParseRegisterDef(name + "/" + Decimal(a) + "/" + t.Name() + "*" + Decimal(k) + "[" + unit + "]")
         == Ok(Some(map["name" := FText(name), "address" := FInt(a), "type" := FType(t),
                        "scale" := FFloat(k as real), "unit" := FText(unit)]))
  {
    TypeNameText(t);
    NoComma(name, k);
    ParseFullText(name, a, t.Name(), t, Decimal(k), k, unit);
  }

  lemma ParseFullText(name: string, a: nat, n: string, t: RegisterType, scale: string, k: nat, unit: string)
    requires IsIdentifier(name) && TypeText(n, t)
    requires |scale| > 0 && AllDigits(scale) && DecimalValue(scale) == k && ',' !in scale
    requires |unit| > 0 && NoNewline(unit) && ',' !in unit
    ensures ParseRegisterDef(name + "/" + Decimal(a) + "/" + n + "*" + scale + "[" + unit + "]")
         == Ok(Some(map["name" := FText(name), "address" := FInt(a), "type" := FType(t),
                        "scale" := FFloat(k as real), "unit" := FText(unit)]))
  {
    FullHead(name, a, n, scale, unit);
    IntBase0Decimal(a);
    IdentifierStrips(name);
    TypedFieldsFull(name, Decimal(a), a, n, t, scale, k, unit);
  }

  /** The head of `name/address/type*scale[unit]` with no options. */
  lemma FullHead(name: string, a: nat, n: string, scale: string, unit: string)
    requires IsIdentifier(name) && ',' !in n && ',' !in scale && ',' !in unit
    ensures ParseRegisterDef(name + "/" + Decimal(a) + "/" + n + "*" + scale + "[" + unit + "]")
         == FieldsOf(Head(name, Decimal(a), "/" + (n + "*" + scale + "[" + unit + "]")), map[])
  {
    FullShape(name + "/" + Decimal(a), n, scale, unit);
    TailNoComma(n, scale, unit);
    DefinitionHead(name, a, "/" + (n + "*" + scale + "[" + unit + "]"));
  }

  lemma FullShape(head: string, n: string, scale: string, unit: string)
    ensures head + "/" + n + "*" + scale + "[" + unit + "]" == head + ("/" + (n + "*" + scale + "[" + unit + "]"))
  {
  }

  lemma TailNoComma(n: string, scale: string, unit: string)
    requires ',' !in n && ',' !in scale && ',' !in unit
    ensures ',' !in "/" + (n + "*" + scale + "[" + unit + "]")
  {
  }

  lemma TypedFieldsFull(name: string, d: string, a: nat, n: string, t: RegisterType, scale: string, k: nat, unit: string)
    requires Strip(name) == name && IntBase0(d) == Ok(a) && TypeText(n, t)
    requires |scale| > 0 && AllDigits(scale) && DecimalValue(scale) == k
    requires |unit| > 0 && NoNewline(unit)
    ensures FieldsOf(Head(name, d, "/" + (n + "*" + scale + "[" + unit + "]")), map[])
         == Ok(Some(map["name" := FText(name), "address" := FInt(a), "type" := FType(t),
                        "scale" := FFloat(k as real), "unit" := FText(unit)]))
  {
    var tail := n + "*" + scale + "[" + unit + "]";
    TypedTailOf(n, scale, unit);
    TypedFieldsOf(name, d, tail, map[]);
    TypedFormOf(name, d, a, n, t, Some(scale), Some(unit));
  }

  /** The groups of `type*scale[unit]`. */
  lemma TypedTailOf(typeText: string, scale: string, unit: string)
    requires |typeText| > 0 && AllTypeChars(typeText)
    requires |scale| > 0 && AllDigits(scale)
    requires |unit| > 0 && NoNewline(unit)
    ensures MatchTypedTail(typeText + "*" + scale + "[" + unit + "]") == Some(TypedTail(typeText, Some(scale), Some(unit)))
  {
    var u := "[" + unit + "]";
    var r := "*" + scale + u;
    var s := typeText + r;
    assert s == typeText + "*" + scale + "[" + unit + "]";
    var n := |typeText|;
    assert s[n] == '*';
    assert Span(s, IsTypeChar) == n;
    assert s[..n] == typeText && s[n..] == r;
    ScaleOf(scale, u);
    UnitOf(unit);
  }

  lemma ScaleOf(scale: string, u: string)
    requires |scale| > 0 && AllDigits(scale)
    requires u != [] && u[0] == '['
    ensures var r := "*" + scale + u;
      Span(r[1..], IsScaleChar) == |scale| && r[1..][..|scale|] == scale && r[1 + |scale|..] == u
  {
    var r := "*" + scale + u;
    assert r[1..] == scale + u;
    assert r[1..][|scale|] == '[';
  }

  lemma UnitOf(unit: string)
    requires |unit| > 0 && NoNewline(unit)
    ensures MatchUnit("[" + unit + "]") == Some(unit)
  {
    var x := ("[" + unit + "]")[1..];
    assert x == unit + "]";
    assert x[..|x| - 1] == unit;
  }

  /** When the first form does not match but the second does, the type part holds a `*`
      or a `[`, which no tag name has: the second form can only end in `ValueError`. */
  lemma SecondFormRefused(h: Head, options: Fields)
    requires h.rest != [] && h.rest[0] == '/'
    requires MatchTypedTail(h.rest[1..]).None? && MatchPlainTail(h.rest[1..]).Some?
    ensures FieldsOf(h, options) == Err(ValueError)
  {
    var tail := h.rest[1..];
    var x := MatchPlainTail(tail).value;
    assert tail != [];
    var i :| 0 <= i < |tail| && !IsTypeChar(tail[i]);
    assert i < |x| && x[i] == tail[i];
    TypeFieldRefuses(x, i);
    PlainFormRefused(FText(Strip(h.nameGroup)), h.address, x, options);
  }

  lemma PlainFormRefused(name: Field, a: string, x: string, options: Fields)
    requires TypeField(x) == Err(ValueError)
    ensures PlainForm(name, a, x, options) == Err(ValueError)
  {
  }

  /** A type part holding `*` or `[` names no tag. */
  lemma TypeFieldRefuses(x: string, i: int)
    requires 0 <= i < |x| && !IsTypeChar(x[i])
    ensures TypeField(x) == Err(ValueError)
  {
    StripKeeps(x, i);
    var st := Strip(x);
    var j :| 0 <= j < |st| && st[j] == x[i];
    assert Lower(st)[j] == x[i];
    assert !AllTypeChars(Lower(st));
    NamesTypeChars();
  }

  /** Every tag name is a type part. */
  lemma NamesTypeChars()
    ensures forall t: RegisterType :: AllTypeChars(t.Name())
  {
    forall t: RegisterType
      ensures AllTypeChars(t.Name())
    {
      TypeNameText(t);
    }
  }

  /** A key given both by the form and by an option is a `TypeError`. */
  lemma RepeatedKey(name: string, a: nat, value: string)
    requires IsIdentifier(name) && ',' !in value
    ensures ParseRegisterDef(name + "/" + Decimal(a) + ",address=" + value) == Err(TypeError)
  {
    var o := "address=" + value;
    RepeatedKeyParts(name, a, value);
    OptionShape(name + "/" + Decimal(a), value);
    OptionHead(name, a, o);
  }

  lemma RepeatedKeyParts(name: string, a: nat, value: string)
    requires ',' !in value
    ensures ',' !in "address=" + value
    ensures FieldsOf(Head(name, Decimal(a), []), Options(["address=" + value])) == Err(TypeError)
  {
    AddressRepeated(name, a, value);
    AddressComma(value);
  }

  /** The text of an `address` option has no comma when its value has none. */
  lemma AddressComma(value: string)
    requires ',' !in value
    ensures ',' !in "address=" + value
  {
    CommaFree("address=", value);
  }

  lemma AddressRepeated(name: string, a: nat, value: string)
    ensures FieldsOf(Head(name, Decimal(a), []), Options(["address=" + value])) == Err(TypeError)
  {
    var o := "address=" + value;
    AddressOption(value);
    BareFieldsOf(Head(name, Decimal(a), []), Options([o]));
    IntBase0Decimal(a);
    BareRepeated(FText(Strip(name)), Decimal(a), a, Options([o]));
  }

  /** `name/address` followed by one option. */
  lemma OptionHead(name: string, a: nat, o: string)
    requires IsIdentifier(name) && ',' !in o
    ensures ParseRegisterDef(name + "/" + Decimal(a) + ("," + o)) == FieldsOf(Head(name, Decimal(a), []), Options([o]))
  {
    var d := name + "/" + Decimal(a);
    NoComma(name, a);
    assert ',' !in d;
    SplitFirst(d, ',', o);
    SplitNone(o, ',');
    assert d + ("," + o) == d + [','] + o;
    assert Split(d + [','] + o, ',')[1..] == [o];
    assert d == name + "/" + Decimal(a) + [];
    HeadOf(name, a, []);
  }

  lemma CommaFree(p: string, q: string)
    requires ',' !in p && ',' !in q
    ensures ',' !in p + q
  {
    forall i | 0 <= i < |p + q|
      ensures (p + q)[i] != ','
    {
      if i < |p| {
        assert (p + q)[i] == p[i];
      } else {
        assert (p + q)[i] == q[i - |p|];
      }
    }
  }

  lemma OptionShape(d: string, value: string)
    ensures d + ",address=" + value == d + ("," + ("address=" + value))
  {
  }

  /** The option `address=...` sets the key `address`. */
  lemma AddressOption(value: string)
    ensures "address" in Options(["address=" + value])
  {
    var o := "address=" + value;
    assert o[7] == '=' && o[..7] == "address";
    assert IndexOf(o, '=') == 7;
    assert OptionKey(o) == "address";
  }

  lemma BareRepeated(name: Field, d: string, a: nat, options: Fields)
    requires IntBase0(d) == Ok(a) && "address" in options
    ensures BareForm(name, d, options) == Err(TypeError)
  {
    assert "address" in map["name" := name, "address" := FInt(a)];
  }

  /** `name/address` with one option that sets neither the name nor the address: the
      option's key joins the two. */
  lemma OneOption(name: string, a: nat, o: string)
    requires IsIdentifier(name) && ',' !in o
    requires OptionKey(o) != "name" && OptionKey(o) != "address"
    ensures ParseRegisterDef(name + "/" + Decimal(a) + ("," + o))
         == Ok(Some(map["name" := FText(name), "address" := FInt(a), OptionKey(o) := OptionValue(o)]))
  {
    OptionHead(name, a, o);
    SingleOption(o);
    BareFieldsOf(Head(name, Decimal(a), []), Options([o]));
    IdentifierStrips(name);
    IntBase0Decimal(a);
    BareOption(name, Decimal(a), a, OptionKey(o), OptionValue(o));
  }

  lemma SingleOption(o: string)
    ensures Options([o]) == map[OptionKey(o) := OptionValue(o)]
  {
    assert [o][..0] == [];
  }

  lemma BareOption(name: string, d: string, a: nat, k: string, v: Field)
    requires IntBase0(d) == Ok(a) && k != "name" && k != "address"
    ensures BareForm(FText(name), d, map[k := v])
         == Ok(Some(map["name" := FText(name), "address" := FInt(a), k := v]))
  {
    var fixed := map["name" := FText(name), "address" := FInt(a)];
    assert fixed.Keys !! map[k := v].Keys;
    assert fixed + map[k := v] == map["name" := FText(name), "address" := FInt(a), k := v];
  }

  /** The bare option `readonly` sets `readonly` to `True`. */
  lemma ReadonlyOption()
    ensures OptionKey("readonly") == "readonly" && OptionValue("readonly") == FBool(true)
    ensures ',' !in "readonly"
  {
    assert '=' !in "readonly";
  }

  /** The option `bits` without a value sets `bits` to `True`. */
  lemma BitsFlagOption()
    ensures OptionKey("bits") == "bits" && OptionValue("bits") == FBool(true)
  {
    assert '=' !in "bits";
  }

  /** The option `bits=lo:hi` sets `bits` to the text `lo:hi`. */
  lemma BitsOption(v: string)
    ensures OptionKey("bits=" + v) == "bits" && OptionValue("bits=" + v) == FText(v)
  {
    var o := "bits=" + v;
    assert o[4] == '=' && o[..4] == "bits";
    assert IndexOf(o, '=') == 4;
    assert OptionKey(o) == "bits";
    DropPrefix("bits=", v);
  }
}
