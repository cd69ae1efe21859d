/** The display text shared by enum entries and flags (`get_display` in
    src/modbus_client/device/registers/enum_definition.py and flag_definition.py):
    `"{display} ({name})"` when a display text is set, the bare name otherwise. */
module Labels {
  import opened Wrappers
  import opened Text

  function DisplayText(name: string, display: Option<string>): (s: string)
    ensures display.None? ==> s == name
    ensures display.Some? ==> |s| == |display.value| + |name| + 3 && s[..|display.value|] == display.value
    ensures display.Some? ==> s[|display.value|] == ' ' && s[|display.value| + 1] == '(' && s[|s| - 1] == ')'
    ensures display.Some? ==> s[|display.value| + 2 .. |s| - 1] == name
    ensures IsIdentifier(name) ==> NameShown(s) == name
  {
    var s := if display.Some? then display.value + " (" + name + ")" else name;
    NameShownOfDisplay(name, display, s);
    s
  }

  /** The position of the last `c` in `s`. */
  function LastIndexOf(s: string, c: char): (r: Option<nat>)
    ensures r.Some? ==> r.value < |s| && s[r.value] == c && forall j :: r.value < j < |s| ==> s[j] != c
    ensures r.None? ==> forall j :: 0 <= j < |s| ==> s[j] != c
  {
    if s == [] then None
    else if s[|s| - 1] == c then Some(|s| - 1)
    else LastIndexOf(s[..|s| - 1], c)
  }

  /** The name a display text shows: the text inside the final parentheses when there are
      any, otherwise all of it. */
  function NameShown(s: string): string {
    if |s| > 0 && s[|s| - 1] == ')' && LastIndexOf(s, '(').Some? then
      s[LastIndexOf(s, '(').value + 1 .. |s| - 1]
    else s
  }

  /** An identifier is read back from either form of the display text. */
  lemma NameShownOfDisplay(name: string, display: Option<string>, s: string)
    requires s == if display.Some? then display.value + " (" + name + ")" else name
    ensures IsIdentifier(name) ==> NameShown(s) == name
  {
    if IsIdentifier(name) && display.Some? {
      var d := display.value;
      var k := |d| + 1;
      assert s[k] == '(';
      forall j | k < j < |s|
        ensures s[j] != '('
      {
        if j < |s| - 1 {
          assert s[j] == name[j - k - 1];
        }
      }
      assert s[k + 1 .. |s| - 1] == name;
    }
  }
}
