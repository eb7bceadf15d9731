// BootExecute Control (src/bootexctrl/bootexctrl.c): registers or
// unregisters a command in the BootExecute value of the Session Manager
// key. The registry calls become a SmssKey record saying which of them
// succeed and what the value holds.

module BootExCtrl {
  import opened Types
  import opened MultiSz

  const CR: char := '\r'
  const LF: char := '\n'

  // ---------------------------------------------------------------------
  // remove_crlf
  // ---------------------------------------------------------------------

  /** The C string `s` with every CR and LF before its NUL made a space. */
  function CrlfRemoved(s: seq<char>): (r: seq<char>)
    ensures |r| == |s|
  {
    if |s| == 0 || s[0] == NUL then s
    else [if s[0] == CR || s[0] == LF then ' ' else s[0]] + CrlfRemoved(s[1..])
  }

  /**
   * Up to the first NUL, CR and LF become spaces and all other
   * characters stay; from the NUL on nothing changes.
   */
  lemma {:induction false} CrlfRemovedSpec(s: seq<char>, n: nat)
    requires n <= |s| && NoNul(s[..n]) && (n == |s| || s[n] == NUL)
    ensures |CrlfRemoved(s)| == |s|
    ensures forall k :: 0 <= k < n ==> CrlfRemoved(s)[k] == if s[k] == CR || s[k] == LF then ' ' else s[k]
    ensures CrlfRemoved(s)[n..] == s[n..]
    ensures forall k :: 0 <= k < n ==> CrlfRemoved(s)[k] != CR && CrlfRemoved(s)[k] != LF
  {
    if n > 0 {
      assert s[1..][..n - 1] == s[..n][1..];
      CrlfRemovedSpec(s[1..], n - 1);
    }
  }

  /** The index of the first NUL, or the length when there is none. */
  function FirstNul(s: seq<char>): (n: nat)
    ensures n <= |s| && NoNul(s[..n]) && (n == |s| || s[n] == NUL)
  {
    if |s| == 0 || s[0] == NUL then 0
    else
      var n := FirstNul(s[1..]) + 1;
      assert s[..n] == [s[0]] + s[1..][..n - 1];
      n
  }

  /** remove_crlf: the in-place version over a buffer holding a C string. */
  method RemoveCrlf(s: array?<char>)
    requires s != null ==> exists k :: 0 <= k < s.Length && s[k] == NUL
    modifies s
    ensures s != null ==> s[..] == CrlfRemoved(old(s[..]))
  {
    if s != null {
      ghost var o := s[..];
      ghost var n := FirstNul(o);
      CrlfRemovedSpec(o, n);
      var i := 0;
      while s[i] != NUL
        invariant 0 <= i <= n < s.Length
        invariant forall k :: 0 <= k < i ==> s[k] == CrlfRemoved(o)[k]
        invariant forall k :: i <= k < s.Length ==> s[k] == o[k]
        decreases n - i
      {
        assert o[..n][i] == o[i];
        if s[i] == CR || s[i] == LF {
          s[i] := ' ';
        }
        i := i + 1;
      }
      assert o[..n][..i] == o[..i];
      forall k | n <= k < s.Length
        ensures s[k] == CrlfRemoved(o)[k]
      {
        assert CrlfRemoved(o)[n..][k - n] == o[n..][k - n];
      }
    }
  }

  // ---------------------------------------------------------------------
  // register_cmd and unregister_cmd
  // ---------------------------------------------------------------------

  /**
   * The outcomes of the registry calls around the editing: whether the
   * key opens, the size query and the allocations succeed, the value
   * read (None when the query fails), and whether the write succeeds.
   */
  datatype SmssKey = SmssKey(opens: bool, sizeQueried: bool, memory: bool, value: Option<seq<char>>, sets: bool)

  /** The value with its last two characters made NUL, as both routines do first. */
  function Terminated(v: seq<char>): (d: seq<char>)
    requires |v| >= 2
    ensures |d| == |v| && d[|d| - 1] == NUL && d[|d| - 2] == NUL
    ensures forall k :: 0 <= k < |v| - 2 ==> d[k] == v[k]
  {
    v[|v| - 2 := NUL][|v| - 1 := NUL]
  }

  /** The strings both routines walk in a value; a value of fewer than two characters has none. */
  function Strings(v: seq<char>): seq<seq<char>>
  {
    if |v| < 2 then [] else Entries(Terminated(v), 0, |v| - 1)
  }

  /**
   * What register_cmd writes for the value it reads, as written: the
   * command with two NULs for a value of fewer than two characters,
   * nothing when a string of the value is the command, and otherwise the
   * value with the command appended after its last string.
   */
  function RegisterValueAsWritten(v: seq<char>, cmd: seq<char>, allocOk: bool): Option<seq<char>>
  {
    if |v| < 2 then Some(cmd + [NUL, NUL])
    else
      var d := Terminated(v);
      if AnyMatch(Entries(d, 0, |d| - 1), cmd, allocOk) then None
      else Some(d[..|d| - 1] + cmd + [NUL, NUL])
  }

  /**
   * The empty value "\0\0" has two characters, so the guard `size < 2`
   * lets it through to the walk, which appends the command after the
   * empty string: the value written starts with an empty string, which
   * ends a REG_MULTI_SZ for its readers, and the command is hidden.
   */
  lemma {:induction false} RegisterOnEmptyPair(cmd: seq<char>, allocOk: bool)
    requires NoNul(cmd) && cmd != []
    ensures RegisterValueAsWritten([NUL, NUL], cmd, allocOk) == Some([NUL] + cmd + [NUL, NUL])
    ensures Strings([NUL] + cmd + [NUL, NUL]) == [[], cmd]
  {
    var d: seq<char> := [NUL, NUL];
    assert Terminated(d) == d;
    assert Entries(d, 0, 1) == [[]] by {
      assert d[0..0] == [];
    }
    assert !AnyMatch([[]], cmd, allocOk) by {
      assert |LowerStr(cmd)| != 0;
      assert |LowerStr(AUTOCHECK + cmd)| != 0;
    }
    assert d[..1] + cmd + [NUL, NUL] == [NUL] + cmd + [NUL, NUL];
    var w := [NUL] + cmd + [NUL, NUL];
    assert Terminated(w) == w;
    assert w[0..0] == [];
    assert w[1..1 + |cmd|] == cmd;
    EntriesLast(w, 1, cmd);
  }

  /**
   * What register_cmd writes, with the empty value "\0\0" (`size <= 2`,
   * whose last two characters are made NUL anyway) treated as empty.
   */
  function RegisterValue(v: seq<char>, cmd: seq<char>, allocOk: bool): (w: Option<seq<char>>)
    ensures |v| != 2 ==> w == RegisterValueAsWritten(v, cmd, allocOk)
    ensures |v| == 2 ==> w == Some(cmd + [NUL, NUL])
  {
    if |v| <= 2 then Some(cmd + [NUL, NUL])
    else
      var d := Terminated(v);
      if AnyMatch(Entries(d, 0, |d| - 1), cmd, allocOk) then None
      else Some(d[..|d| - 1] + cmd + [NUL, NUL])
  }

  /**
   * Registering writes nothing exactly when the command is already
   * among the strings of a non-empty value; otherwise the new value
   * holds the old strings followed by the command (only the command for
   * an empty value), and is already terminated by two NULs.
   */
  lemma {:induction false} RegisterAppends(v: seq<char>, cmd: seq<char>, allocOk: bool)
    requires NoNul(cmd)
    ensures RegisterValue(v, cmd, allocOk).None? <==> |v| > 2 && AnyMatch(Strings(v), cmd, allocOk)
    ensures RegisterValue(v, cmd, allocOk).Some? ==>
      var w := RegisterValue(v, cmd, allocOk).value;
      |w| >= 2 && Terminated(w) == w && Strings(w) == (if |v| <= 2 then [] else Strings(v)) + [cmd]
  {
    if |v| <= 2 {
      var w := cmd + [NUL, NUL];
      assert w[0..|cmd|] == cmd;
      EntriesLast(w, 0, cmd);
      assert Terminated(w) == w;
    } else {
      var d := Terminated(v);
      var w := d[..|d| - 1] + cmd + [NUL, NUL];
      EntriesAppend(d, cmd);
      assert Terminated(w) == w;
    }
  }

  /** Registering a command (never empty once parsed) twice writes nothing the second time. */
  lemma {:induction false} RegisterIdempotent(v: seq<char>, cmd: seq<char>, allocOk: bool, allocOk': bool)
    requires NoNul(cmd) && cmd != [] && RegisterValue(v, cmd, allocOk).Some?
    ensures RegisterValue(RegisterValue(v, cmd, allocOk).value, cmd, allocOk').None?
  {
    var w := RegisterValue(v, cmd, allocOk).value;
    RegisterAppends(v, cmd, allocOk);
    RegisterAppends(w, cmd, allocOk');
    assert |w| > 2;
    var k := |Strings(w)| - 1;
    assert Strings(w)[k] == cmd && CmdCompare(cmd, cmd, allocOk') == 1;
  }

  /**
   * What unregister_cmd writes for the value it reads: nothing for a
   * value of fewer than two characters, otherwise the strings that are
   * not the command, in their order, each with its NUL, and one more NUL.
   */
  function UnregisterValue(v: seq<char>, cmd: seq<char>, allocOk: bool): Option<seq<char>>
  {
    if |v| < 2 then None else Some(Join(Kept(Strings(v), cmd, allocOk)) + [NUL])
  }

  /** The value written by unregistering holds exactly the strings kept. */
  lemma {:induction false} UnregisterKeeps(v: seq<char>, cmd: seq<char>, allocOk: bool)
    ensures UnregisterValue(v, cmd, allocOk).Some? ==>
      Strings(UnregisterValue(v, cmd, allocOk).value) == Kept(Strings(v), cmd, allocOk)
    ensures UnregisterValue(v, cmd, allocOk).Some? ==>
      !AnyMatch(Strings(UnregisterValue(v, cmd, allocOk).value), cmd, allocOk)
  {
    if |v| >= 2 {
      KeptExactly(Strings(v), cmd, allocOk);
      StringsOfJoin(Kept(Strings(v), cmd, allocOk));
    }
  }

  /** A list of C strings joined and closed by one more NUL is read back as the same list. */
  lemma {:induction false} StringsOfJoin(es: seq<seq<char>>)
    requires forall k :: 0 <= k < |es| ==> NoNul(es[k])
    ensures Strings(Join(es) + [NUL]) == es
  {
    var w := Join(es) + [NUL];
    if |es| == 0 {
      assert w == [NUL];
    } else {
      JoinEndsWithNul(es);
      assert Terminated(w) == w;
      assert Strings(w) == Entries(w, 0, |w| - 1);
      EntriesOfJoin(w, 0, es);
    }
  }

  /** A joined non-empty list ends with a NUL. */
  lemma JoinEndsWithNul(es: seq<seq<char>>)
    requires |es| > 0
    ensures |Join(es)| > 0 && Join(es)[|Join(es)| - 1] == NUL
  {
  }

  /** The return code of register_cmd and what it passes to RegSetValueEx. */
  function RegisterOutcome(key: SmssKey, cmd: seq<char>, allocOk: bool): (int, Option<seq<char>>)
  {
    if !key.opens then (3, None)
    else if !key.sizeQueried then (4, None)
    else if !key.memory then (5, None)
    else if key.value.None? then (6, None)
    else match RegisterValue(key.value.value, cmd, allocOk)
      case None => (0, None)
      case Some(w) => (if key.sets then 0 else 7, Some(w))
  }

  /** The return code of unregister_cmd and what it passes to RegSetValueEx. */
  function UnregisterOutcome(key: SmssKey, cmd: seq<char>, allocOk: bool): (int, Option<seq<char>>)
  {
    if !key.opens then (3, None)
    else if !key.sizeQueried then (4, None)
    else if !key.memory then (5, None)
    else if key.value.None? then (6, None)
    else match UnregisterValue(key.value.value, cmd, allocOk)
      case None => (0, None)
      case Some(w) => (if key.sets then 0 else 7, Some(w))
  }

  /** register_cmd: the walk of the value with index i, and the append. */
  method RegisterCmd(key: SmssKey, cmd: seq<char>, allocOk: bool) returns (code: int, written: Option<seq<char>>)
    requires NoNul(cmd)
    ensures (code, written) == RegisterOutcome(key, cmd, allocOk)
  {
    code, written := 0, None;
    if !key.opens {
      code := 3;
    } else if !key.sizeQueried {
      code := 4;
    } else if !key.memory {
      code := 5;
    } else if key.value.None? {
      code := 6;
    } else {
      var data := key.value.value;
      var size := |data|;
      if size <= 2 {
        data := cmd + [NUL, NUL];
        assert data[..|cmd| + 2] == data;
        written := Some(data[..|cmd| + 2]);
      } else {
        data := data[size - 2 := NUL][size - 1 := NUL];
        var length := size - 1;
        ghost var m := RegisterValue(key.value.value, cmd, allocOk);
        assert data == Terminated(key.value.value);
        var found, i := FindCmd(data, length, cmd, allocOk);
        WalkEndExact(data, 0);
        if !found {
          data := data[..i] + cmd + [NUL, NUL];
          length := length + |cmd| + 1 + 1;
          assert data[..length] == data;
          written := Some(data[..length]);
          assert m == written;
        } else {
          assert m.None?;
        }
      }
      if written.Some? && !key.sets {
        code := 7;
      }
    }
  }

  /** unregister_cmd: the walk of the value copying every other string into new_data. */
  method UnregisterCmd(key: SmssKey, cmd: seq<char>, allocOk: bool) returns (code: int, written: Option<seq<char>>)
    ensures (code, written) == UnregisterOutcome(key, cmd, allocOk)
  {
    code, written := 0, None;
    if !key.opens {
      code := 3;
    } else if !key.sizeQueried {
      code := 4;
    } else if !key.memory {
      code := 5;
    } else if key.value.None? {
      code := 6;
    } else if |key.value.value| >= 2 {
      var data := key.value.value;
      var size := |data|;
      data := data[size - 2 := NUL][size - 1 := NUL];
      var length := size - 1;
      var newData := CopyOthers(data, length, cmd, allocOk);
      written := Some(newData + [NUL]);
      if !key.sets {
        code := 7;
      }
    }
  }

  // ---------------------------------------------------------------------
  // parse_cmdline and WinMain
  // ---------------------------------------------------------------------

  const MAX_PATH: nat := 260

  /** The flags and the command parse_cmdline leaves in its globals. */
  datatype Options = Options(r: bool, u: bool, h: bool, silent: bool, cmd: seq<char>)

  /**
   * parse_cmdline either exits, with 1 when the command line cannot be
   * split and with 2 for a command longer than MAX_PATH, or returns.
   */
  datatype ParseResult = ArgvFailed | CommandTooLong | Parsed(opts: Options)

  /** The switches the loop recognises. */
  predicate IsSwitch(a: seq<char>)
  {
    a == "/r" || a == "/u" || a == "/h" || a == "/?" || a == "/s"
  }

  /** One argument: a switch sets its flag, anything else is the command unless it is too long. */
  function Step(a: seq<char>, o: Options): (r: Option<Options>)
    ensures r.None? <==> !IsSwitch(a) && |a| > MAX_PATH
  {
    if a == "/r" then Some(o.(r := true))
    else if a == "/u" then Some(o.(u := true))
    else if a == "/h" || a == "/?" then Some(o.(h := true))
    else if a == "/s" then Some(o.(silent := true))
    else if |a| > MAX_PATH then None
    else Some(o.(cmd := a))
  }

  /** The loop over the arguments, which takes the last one first. */
  function Scan(args: seq<seq<char>>, o: Options): Option<Options>
  {
    if |args| == 0 then Some(o)
    else match Scan(args[1..], o)
      case None => None
      case Some(o') => Step(args[0], o')
  }

  /** Some argument that is no switch is longer than MAX_PATH. */
  predicate TooLong(args: seq<seq<char>>)
  {
    exists k :: 0 <= k < |args| && !IsSwitch(args[k]) && |args[k]| > MAX_PATH
  }

  /** The first argument that is no switch, or `d` when there is none. */
  function FirstCommand(args: seq<seq<char>>, d: seq<char>): (c: seq<char>)
    ensures c == d || c in args
  {
    if |args| == 0 then d else if !IsSwitch(args[0]) then args[0] else FirstCommand(args[1..], d)
  }

  /** The loop fails exactly when some command is too long. */
  lemma {:induction false} ScanFails(args: seq<seq<char>>, o: Options)
    ensures Scan(args, o).None? <==> TooLong(args)
    decreases |args|
  {
    if |args| > 0 {
      var rest := args[1..];
      ScanFails(rest, o);
      if TooLong(rest) {
        var k :| 0 <= k < |rest| && !IsSwitch(rest[k]) && |rest[k]| > MAX_PATH;
        assert args[k + 1] == rest[k];
      }
    }
  }

  /**
   * What the loop leaves when it does not fail: each flag is set when its
   * switch is present anywhere, and the command is the first argument
   * that is no switch, because that one is assigned last.
   */
  lemma {:induction false} ScanSpec(args: seq<seq<char>>, o: Options)
    ensures Scan(args, o).Some? ==> Scan(args, o).value == Options(
      o.r || "/r" in args, o.u || "/u" in args, o.h || "/h" in args || "/?" in args,
      o.silent || "/s" in args, FirstCommand(args, o.cmd))
    decreases |args|
  {
    if |args| > 0 {
      var rest := args[1..];
      ScanSpec(rest, o);
      assert args == [args[0]] + rest;
      InCons(args[0], rest, "/r");
      InCons(args[0], rest, "/u");
      InCons(args[0], rest, "/h");
      InCons(args[0], rest, "/?");
      InCons(args[0], rest, "/s");
    }
  }

  lemma InCons(a: seq<char>, rest: seq<seq<char>>, x: seq<char>)
    ensures x in [a] + rest <==> x == a || x in rest
  {
  }

  /** The arguments after the program name. */
  function Arguments(argv: seq<seq<char>>): seq<seq<char>>
  {
    if |argv| == 0 then [] else argv[1..]
  }

  /**
   * parse_cmdline for the command line and its split by
   * CommandLineToArgvW (None when that fails), both already lower-cased:
   * silent when "/s" occurs anywhere in the line, then the loop, then
   * help when there is no command or neither /r nor /u.
   */
  function ParseOutcome(commandLine: seq<char>, argv: Option<seq<seq<char>>>): ParseResult
  {
    if argv.None? then ArgvFailed
    else
      match Scan(Arguments(argv.value), Options(false, false, false, Contains(commandLine, "/s"), []))
      case None => CommandTooLong
      case Some(o) => Parsed(o.(h := o.h || o.cmd == [] || (!o.r && !o.u)))
  }

  /**
   * The help decision: help is shown exactly when /h or /? is given, when
   * no argument is a command (or the first command is empty), or when
   * neither /r nor /u is given; the command is the first argument that is
   * no switch, and an exit for a too-long command happens exactly when
   * one of the arguments is one.
   */
  lemma HelpDecision(commandLine: seq<char>, argv: seq<seq<char>>)
    ensures var args := Arguments(argv); var p := ParseOutcome(commandLine, Some(argv));
      (p == CommandTooLong <==> TooLong(args)) &&
      (p.Parsed? ==>
        p.opts.r == ("/r" in args) && p.opts.u == ("/u" in args) &&
        p.opts.cmd == FirstCommand(args, []) &&
        p.opts.silent == (Contains(commandLine, "/s") || "/s" in args) &&
        (p.opts.h <==>
          ("/h" in args || "/?" in args || FirstCommand(args, []) == [] || ("/r" !in args && "/u" !in args))))
  {
    ScanFails(Arguments(argv), Options(false, false, false, Contains(commandLine, "/s"), []));
    ScanSpec(Arguments(argv), Options(false, false, false, Contains(commandLine, "/s"), []));
  }

  /** parse_cmdline: the loop over argv from its last element down to argv[1]. */
  method ParseCmdline(commandLine: seq<char>, argv: Option<seq<seq<char>>>) returns (res: ParseResult)
    ensures res == ParseOutcome(commandLine, argv)
  {
    var silent := Contains(commandLine, "/s");
    if argv.None? {
      return ArgvFailed;
    }
    var args := argv.value;
    ghost var o0 := Options(false, false, false, silent, []);
    var rFlag, uFlag, hFlag, cmd := false, false, false, [];
    var argc := |args| - 1;
    while argc >= 1
      invariant -1 <= argc < |args| && (argc == -1 ==> |args| == 0)
      invariant Scan(args[argc + 1..], o0) == Some(Options(rFlag, uFlag, hFlag, silent, cmd))
    {
      var a := args[argc];
      assert args[argc..][1..] == args[argc + 1..];
      if a == "/r" {
        rFlag := true;
      } else if a == "/u" {
        uFlag := true;
      } else if a == "/h" {
        hFlag := true;
      } else if a == "/?" {
        hFlag := true;
      } else if a == "/s" {
        silent := true;
      } else if |a| > MAX_PATH {
        ScanFails(args[1..], o0);
        assert args[1..][argc - 1] == a;
        return CommandTooLong;
      } else {
        cmd := a;
      }
      argc := argc - 1;
    }
    assert args[argc + 1..] == Arguments(args);
    if cmd == [] {
      hFlag := true;
    }
    if !rFlag && !uFlag {
      hFlag := true;
    }
    res := Parsed(Options(rFlag, uFlag, hFlag, silent, cmd));
  }

  /**
   * WinMain: help and exit code 0, exit code 1 without administrative
   * rights, otherwise register_cmd with /r and unregister_cmd without it.
   * Returns the exit code and what is written to BootExecute.
   */
  function Run(p: ParseResult, isAdmin: bool, key: SmssKey, allocOk: bool): (int, Option<seq<char>>)
  {
    match p
    case ArgvFailed => (1, None)
    case CommandTooLong => (2, None)
    case Parsed(o) =>
      if o.h then (0, None)
      else if !isAdmin then (1, None)
      else if o.r then RegisterOutcome(key, o.cmd, allocOk)
      else UnregisterOutcome(key, o.cmd, allocOk)
  }

  /**
   * BootExecute is written only by an administrator who gave /r or /u
   * and a non-empty command; /r wins over /u.
   */
  lemma RunWrites(commandLine: seq<char>, argv: Option<seq<seq<char>>>, isAdmin: bool, key: SmssKey, allocOk: bool)
    ensures var p := ParseOutcome(commandLine, argv);
      Run(p, isAdmin, key, allocOk).1.Some? ==>
        isAdmin && p.Parsed? && p.opts.cmd != [] && !p.opts.h && (p.opts.r || p.opts.u) &&
        Run(p, isAdmin, key, allocOk) ==
          if p.opts.r then RegisterOutcome(key, p.opts.cmd, allocOk) else UnregisterOutcome(key, p.opts.cmd, allocOk)
  {
  }
}
