// The option tables of the WGX library (trunk/src/dll/wgx/config.c):
// WgxGetOptions fills the table with its defaults and then with the
// globals a Lua configuration script defines; WgxSaveOptions writes the
// table back as a Lua program, quoting strings with the escapes of
// section 2.1 of the Lua 5.1 Reference Manual.
//
// Running the script (luaL_dofile) is outside the model: its globals
// are a parameter.

module WgxConfig {
  import opened Types

  /**
   * One row of a WGX_OPTION table: an empty line, a comment whose text
   * is the name, an integer or a string with its buffer size.
   */
  datatype WgxOption =
    | EmptyLine
    | Comment(name: string)
    | IntOption(name: string, intValue: int, defaultInt: int)
    | StringOption(name: string, strValue: string, valueLength: nat, defaultString: string)

  /** What lua_tointeger and lua_tostring make of a global that is not nil. */
  datatype Global = Global(asInteger: int, asString: Option<string>)

  /** The table as passed in; the rows end where the C table has its NULL name. */
  class OptionTable {
    var options: seq<WgxOption>

    constructor (options: seq<WgxOption>)
      ensures this.options == options
    {
      this.options := options;
    }
  }

  /** Every string row has room for at least the terminating NUL. */
  predicate Buffers(options: seq<WgxOption>)
  {
    forall i :: 0 <= i < |options| && options[i].StringOption? ==> options[i].valueLength >= 1
  }

  // ---------------------------------------------------------------------
  // WgxGetOptions
  // ---------------------------------------------------------------------

  /** `strncpy(value, s, n)` followed by `value[n - 1] = 0`. */
  function Truncated(s: string, n: nat): (t: string)
    requires n >= 1
    ensures t <= s
    ensures |t| == if |s| < n then |s| else n - 1
  {
    if |s| <= n - 1 then s else s[..n - 1]
  }

  /** A row after its default is copied into its buffer. */
  function WithDefault(o: WgxOption): (r: WgxOption)
    requires o.StringOption? ==> o.valueLength >= 1
    ensures r.EmptyLine? == o.EmptyLine? && r.Comment? == o.Comment? && r.IntOption? == o.IntOption?
    ensures r.StringOption? == o.StringOption?
    ensures o.IntOption? ==> r == o.(intValue := o.defaultInt)
    ensures o.StringOption? ==> r == o.(strValue := Truncated(o.defaultString, o.valueLength))
    ensures !o.IntOption? && !o.StringOption? ==> r == o
  {
    match o
    case IntOption(name, _, d) => IntOption(name, d, d)
    case StringOption(name, _, n, d) => StringOption(name, Truncated(d, n), n, d)
    case _ => o
  }

  /** A row after the global of its name, when the script defines one, is read into it. */
  function WithGlobal(o: WgxOption, globals: map<string, Global>): (r: WgxOption)
    requires o.StringOption? ==> o.valueLength >= 1
    ensures o.IntOption? && o.name in globals ==> r == o.(intValue := Int32(globals[o.name].asInteger))
    ensures o.StringOption? && o.name in globals ==>
      r == o.(strValue := if globals[o.name].asString.Some?
        then Truncated(globals[o.name].asString.value, o.valueLength) else "")
    ensures !((o.IntOption? || o.StringOption?) && o.name in globals) ==> r == o
  {
    match o
    case IntOption(name, _, d) =>
      if name in globals then IntOption(name, Int32(globals[name].asInteger), d) else o
    case StringOption(name, _, n, d) =>
      if name !in globals then o
      else
        var s := globals[name].asString;
        StringOption(name, if s.Some? then Truncated(s.value, n) else "", n, d)
    case _ => o
  }

  /**
   * WgxGetOptions: FALSE for a NULL table; otherwise the defaults are
   * set, and with a path the globals of the script (None when Lua cannot
   * be started or the script fails) are read over them.
   */
  method GetOptions(path: Option<string>, table: OptionTable?, script: Option<map<string, Global>>) returns (ok: bool)
    requires table != null ==> Buffers(table.options)
    modifies table
    ensures ok == (table != null && (path.None? || script.Some?))
    ensures table != null ==> |table.options| == |old(table.options)|
    ensures table != null ==> forall i :: 0 <= i < |table.options| ==>
      table.options[i] ==
        if path.Some? && script.Some? then WithGlobal(WithDefault(old(table.options)[i]), script.value)
        else WithDefault(old(table.options)[i])
  {
    if table == null {
      return false;
    }
    ghost var original := table.options;
    var i := 0;
    while i < |table.options|
      invariant |table.options| == |original| && i <= |original|
      invariant forall k :: 0 <= k < i ==> table.options[k] == WithDefault(original[k])
      invariant forall k :: i <= k < |original| ==> table.options[k] == original[k]
    {
      table.options := table.options[i := WithDefault(table.options[i])];
      i := i + 1;
    }
    if path.None? {
      return true;
    }
    if script.None? {
      return false;
    }
    ghost var defaults := table.options;
    i := 0;
    while i < |table.options|
      invariant |table.options| == |original| && i <= |original|
      invariant forall k :: 0 <= k < i ==> table.options[k] == WithGlobal(defaults[k], script.value)
      invariant forall k :: i <= k < |original| ==> table.options[k] == defaults[k]
    {
      table.options := table.options[i := WithGlobal(table.options[i], script.value)];
      i := i + 1;
    }
    return true;
  }

  // ---------------------------------------------------------------------
  // Escapes
  // ---------------------------------------------------------------------

  /** The `esq` table: each character written as an escape, with its sequence. */
  const ESQ: seq<(char, string)> := [
    ('\\', "\\\\"),
    ('\U{7}', "\\a"),
    ('\U{8}', "\\b"),
    ('\U{C}', "\\f"),
    ('\n', "\\n"),
    ('\r', "\\r"),
    ('\t', "\\t"),
    ('\U{B}', "\\v"),
    ('\'', "\\'"),
    ('"', "\\\"")
  ]

  /**
   * The letter that follows the backslash for a character with an
   * escape of its own in section 2.1 of the Lua 5.1 Reference Manual.
   */
  function EscapeLetter(c: char): (l: Option<char>)
  {
    if c == '\U{7}' then Some('a')
    else if c == '\U{8}' then Some('b')
    else if c == '\U{C}' then Some('f')
    else if c == '\n' then Some('n')
    else if c == '\r' then Some('r')
    else if c == '\t' then Some('t')
    else if c == '\U{B}' then Some('v')
    else if c == '\\' || c == '"' || c == '\'' then Some(c)
    else None
  }

  /** The character an escape letter stands for, as the Lua lexer reads it. */
  function Unescaped(l: char): (c: Option<char>)
    ensures c.Some? ==> EscapeLetter(c.value) == Some(l)
  {
    if l == 'a' then Some('\U{7}')
    else if l == 'b' then Some('\U{8}')
    else if l == 'f' then Some('\U{C}')
    else if l == 'n' then Some('\n')
    else if l == 'r' then Some('\r')
    else if l == 't' then Some('\t')
    else if l == 'v' then Some('\U{B}')
    else if l == '\\' || l == '"' || l == '\'' then Some(l)
    else None
  }

  /** The table lists exactly the characters that have an escape, each once, with that escape. */
  lemma EsqIsLuaEscapes(c: char)
    ensures (exists k :: 0 <= k < |ESQ| && ESQ[k].0 == c) <==> EscapeLetter(c).Some?
    ensures forall k :: 0 <= k < |ESQ| && ESQ[k].0 == c ==> ESQ[k].1 == ['\\', EscapeLetter(c).value]
    ensures forall i, j :: 0 <= i < j < |ESQ| ==> ESQ[i].0 != ESQ[j].0
  {
    if EscapeLetter(c).Some? {
      var k :=
        if c == '\\' then 0 else if c == '\U{7}' then 1 else if c == '\U{8}' then 2
        else if c == '\U{C}' then 3 else if c == '\n' then 4 else if c == '\r' then 5
        else if c == '\t' then 6 else if c == '\U{B}' then 7 else if c == '\'' then 8 else 9;
      assert ESQ[k].0 == c;
    }
  }

  /** The text written for one character. */
  function EscapedChar(c: char): (e: string)
    ensures EscapeLetter(c).None? ==> e == [c]
    ensures EscapeLetter(c).Some? ==> e == ['\\', EscapeLetter(c).value]
  {
    if EscapeLetter(c).Some? then ['\\', EscapeLetter(c).value] else [c]
  }

  /** The body of a quoted string, character by character. */
  function Escaped(s: string): (e: string)
    ensures |e| >= |s|
  {
    if |s| == 0 then "" else EscapedChar(s[0]) + Escaped(s[1..])
  }

  lemma {:induction false} EscapedSnoc(s: string, c: char)
    ensures Escaped(s + [c]) == Escaped(s) + EscapedChar(c)
    decreases |s|
  {
    if |s| == 0 {
      assert s + [c] == [c];
      assert Escaped([c]) == EscapedChar(c) + Escaped([]);
    } else {
      assert (s + [c])[1..] == s[1..] + [c];
      EscapedSnoc(s[1..], c);
    }
  }

  /**
   * The sequence the inner loop of WgxSaveOptions finds for `c`: the
   * last entry of the table for it.
   */
  method EscapeSequence(c: char) returns (sq: Option<string>)
    ensures sq.None? <==> EscapeLetter(c).None?
    ensures sq.Some? ==> sq.value == EscapedChar(c)
  {
    EsqIsLuaEscapes(c);
    sq := None;
    var k := 0;
    while k < |ESQ|
      invariant k <= |ESQ|
      invariant sq.None? ==> forall j :: 0 <= j < k ==> ESQ[j].0 != c
      invariant sq.Some? ==> exists j :: 0 <= j < k && ESQ[j].0 == c && sq.value == ESQ[j].1
    {
      if ESQ[k].0 == c {
        sq := Some(ESQ[k].1);
      }
      k := k + 1;
    }
  }

  /** The loop over the characters of a string value. */
  method EscapeString(s: string) returns (out: string)
    ensures out == Escaped(s)
  {
    out := "";
    var j := 0;
    while j < |s|
      invariant j <= |s|
      invariant out == Escaped(s[..j])
    {
      var sq := EscapeSequence(s[j]);
      EscapedSnoc(s[..j], s[j]);
      assert s[..j + 1] == s[..j] + [s[j]];
      if sq.Some? {
        out := out + sq.value;
      } else {
        out := out + [s[j]];
      }
      j := j + 1;
    }
    assert s[..j] == s;
  }

  // ---------------------------------------------------------------------
  // Reading a quoted string back
  // ---------------------------------------------------------------------

  /**
   * The Lua lexer after an opening double quote, for the escapes of the
   * table: the string up to the closing quote and the text after it, or
   * None for an unfinished string or an escape outside the table.
   */
  function ReadQuoted(t: string): (r: Option<(string, string)>)
    decreases |t|
  {
    if |t| == 0 || t[0] == '\n' || t[0] == '\r' then None
    else if t[0] == '"' then Some(("", t[1..]))
    else if t[0] == '\\' then
      if |t| < 2 || Unescaped(t[1]).None? then None
      else
        match ReadQuoted(t[2..])
        case None => None
        case Some(p) => Some(([Unescaped(t[1]).value] + p.0, p.1))
    else
      match ReadQuoted(t[1..])
      case None => None
      case Some(p) => Some(([t[0]] + p.0, p.1))
  }

  /**
   * Reading back an escaped body stops at the quote written after it and
   * gives the string back: no character of the body ends the string
   * early, which needs the backslash itself to be escaped.
   */
  lemma {:induction false} ReadEscaped(s: string, rest: string)
    ensures ReadQuoted(Escaped(s) + "\"" + rest) == Some((s, rest))
    decreases |s|
  {
    if |s| == 0 {
      assert Escaped(s) + "\"" + rest == "\"" + rest;
    } else {
      var tail := Escaped(s[1..]) + "\"" + rest;
      ReadEscaped(s[1..], rest);
      ReadEscapedChar(s[0], tail, s[1..], rest);
      assert Escaped(s) + "\"" + rest == EscapedChar(s[0]) + tail;
      assert [s[0]] + s[1..] == s;
    }
  }

  /** One character's text in front of a body that reads back. */
  lemma ReadEscapedChar(c: char, tail: string, s: string, rest: string)
    requires ReadQuoted(tail) == Some((s, rest))
    ensures ReadQuoted(EscapedChar(c) + tail) == Some(([c] + s, rest))
  {
    var t := EscapedChar(c) + tail;
    if EscapeLetter(c).Some? {
      assert t[0] == '\\' && t[1] == EscapeLetter(c).value;
      assert t[2..] == tail;
      assert Unescaped(t[1]) == Some(c);
    } else {
      assert t[0] == c;
      assert t[1..] == tail;
    }
  }

  // ---------------------------------------------------------------------
  // WgxSaveOptions
  // ---------------------------------------------------------------------

  /** The text written for one row. */
  function Line(o: WgxOption): (l: string)
    ensures o.EmptyLine? ==> l == "\n"
    ensures o.Comment? ==> l == "-- " + o.name + "\n"
    ensures o.IntOption? ==> l == o.name + " = " + IntToString(o.intValue) + "\n"
    ensures o.StringOption? ==> l == o.name + " = \"" + Escaped(o.strValue) + "\"\n"
  {
    match o
    case EmptyLine => "\n"
    case Comment(name) => "-- " + name + "\n"
    case IntOption(name, v, _) => name + " = " + IntToString(v) + "\n"
    case StringOption(name, v, _, _) => name + " = \"" + Escaped(v) + "\"\n"
  }

  /** The assignment written for a string row reads back as the row's value, up to the end of the line. */
  lemma StringLineReadsBack(o: WgxOption)
    requires o.StringOption?
    ensures var l := Line(o);
      (|l| >= |o.name| + 4 && l[..|o.name| + 4] == o.name + " = \"" &&
       ReadQuoted(l[|o.name| + 4..]) == Some((o.strValue, "\n")))
  {
    var l := Line(o);
    ReadEscaped(o.strValue, "\n");
    assert l == (o.name + " = \"") + (Escaped(o.strValue) + "\"" + "\n");
  }

  /** The whole file: the lines of the rows, in order. */
  function Text(options: seq<WgxOption>): string
  {
    if |options| == 0 then "" else Text(options[..|options| - 1]) + Line(options[|options| - 1])
  }

  /** The `fprintf` calls for one row. */
  method WriteLine(o: WgxOption) returns (line: string)
    ensures line == Line(o)
  {
    match o {
      case EmptyLine =>
        line := "\n";
      case Comment(name) =>
        line := "-- " + name + "\n";
      case IntOption(name, v, _) =>
        line := name + " = " + IntToString(v) + "\n";
      case StringOption(name, v, _, _) =>
        var body := EscapeString(v);
        line := name + " = \"" + body + "\"\n";
    }
  }

  /** What WgxSaveOptions ends with. */
  datatype SaveResult =
    | InvalidParameter(message: string)
    | CannotOpen(message: string)
    | Saved(text: string)

  const INVALID_PARAMETER_MESSAGE: string := "WgxSaveOptions: invalid parameter"
  const OPEN_NO_MEMORY_MESSAGE: string := "Cannot open file: not enough memory!"

  /**
   * WgxSaveOptions: FALSE with the invalid parameter message for the
   * callback for a NULL path or table; FALSE with a message for the
   * callback when the file does not open (`errorText` is what _strerror
   * gives, `memory` whether the message can be formatted); otherwise the
   * text of the table.
   */
  method SaveOptions(path: Option<string>, table: OptionTable?, opens: bool, errorText: string, memory: bool)
    returns (r: SaveResult)
    ensures path.None? || table == null <==> r == InvalidParameter(INVALID_PARAMETER_MESSAGE)
    ensures path.Some? && table != null && !opens ==>
      r == CannotOpen(if memory then "Cannot open " + path.value + " file: " + errorText else OPEN_NO_MEMORY_MESSAGE)
    ensures path.Some? && table != null && opens ==> r == Saved(Text(table.options))
  {
    if path.None? || table == null {
      return InvalidParameter(INVALID_PARAMETER_MESSAGE);
    }
    if !opens {
      if memory {
        return CannotOpen("Cannot open " + path.value + " file: " + errorText);
      }
      return CannotOpen(OPEN_NO_MEMORY_MESSAGE);
    }
    var options := table.options;
    var text := "";
    var i := 0;
    while i < |options|
      invariant i <= |options|
      invariant text == Text(options[..i])
    {
      assert options[..i + 1][..i] == options[..i];
      var line := WriteLine(options[i]);
      text := text + line;
      i := i + 1;
    }
    assert options[..i] == options;
    return Saved(text);
  }
}
