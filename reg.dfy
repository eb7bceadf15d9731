// zenwinx's winx_register_boot_exec_command and
// winx_unregister_boot_exec_command (src/dll/zenwinx/reg.c): the native
// counterparts of bootexctrl's routines, over the wide characters of the
// BootExecute value.
//
// Unlike bootexctrl, the value is not terminated by two NULs first: it is
// walked as read, inside a buffer that read_boot_exec_value follows with
// zeros for wcslen(command) + 1 more characters. The last index of the
// walk is `(DataLength >> 1) - 1` computed as a DWORD. An access past one
// of the buffers is the outcome OutOfBounds.

module ZenwinxReg {
  import opened Types
  import opened MultiSz
  import BootExCtrl

  const DWORD_MOD: nat := 0x1_0000_0000

  /** The BootExecute value as NtQueryValueKey returns it: whether its type is REG_MULTI_SZ, and its wide characters. */
  datatype BootExecValue = BootExecValue(isMultiSz: bool, data: seq<char>)

  /**
   * The outcomes of the calls around the editing: whether open_smss_key
   * succeeds, what read_boot_exec_value returns (None when one of its
   * queries or its allocation fails), whether the allocation of
   * new_value succeeds, and whether NtSetValueKey succeeds.
   */
  datatype SmssKey = SmssKey(opens: bool, value: Option<BootExecValue>, memory: bool, sets: bool)

  /** The return code and what is passed to NtSetValueKey, or an access past a buffer. */
  datatype Outcome = Done(code: int, written: Option<seq<char>>) | OutOfBounds

  /** What the editing does with the value. */
  datatype Edit = Unchanged | Write(value: seq<char>) | Overflow

  /** The buffer read_boot_exec_value fills: the value, then zeros for (wcslen(command) + 1) characters. */
  function Padded(v: seq<char>, cmd: seq<char>): (b: seq<char>)
    ensures |b| == |v| + |cmd| + 1 && b[|b| - 1] == NUL && b[..|v|] == v
    ensures forall k :: 0 <= k < |v| ==> b[k] == v[k]
    ensures forall k :: |v| <= k < |b| ==> b[k] == NUL
  {
    v + seq(|cmd| + 1, _ => NUL)
  }

  /**
   * `(DataLength >> 1) - 1` as a DWORD for a value of |v| wide
   * characters: the last index, or 0xFFFFFFFF for an empty value.
   */
  function LastIndex(v: seq<char>): (n: nat)
    requires 2 * |v| < DWORD_MOD
    ensures |v| > 0 ==> n == |v| - 1
    ensures |v| == 0 ==> n == DWORD_MOD - 1
  {
    ((2 * |v|) / 2 + DWORD_MOD - 1) % DWORD_MOD
  }

  /**
   * The register edit as written. For an empty value the last index
   * wraps, and the walk goes through the empty strings of the zero
   * padding and past the buffer unless the empty string is the command.
   * Otherwise nothing is written when a string is the command; else the
   * command is copied where the walk ends, and its second NUL lands past
   * the buffer when the walk ends at or after the value's end.
   */
  function RegisterEdit(v: seq<char>, cmd: seq<char>, allocOk: bool): Edit
  {
    if |v| == 0 then (if CmdCompare([], cmd, allocOk) > 0 then Unchanged else Overflow)
    else
      var b := Padded(v, cmd);
      if AnyMatch(Entries(b, 0, |v| - 1), cmd, allocOk) then Unchanged
      else
        var i := WalkEnd(b, 0, |v| - 1);
        if i >= |v| then Overflow else Write(b[..i] + cmd + [NUL, NUL])
  }

  /** The register edit with an empty value taken as a value with no strings. */
  function RegisterEditCorrected(v: seq<char>, cmd: seq<char>, allocOk: bool): (e: Edit)
    ensures |v| > 0 ==> e == RegisterEdit(v, cmd, allocOk)
  {
    if |v| == 0 then Write(cmd + [NUL, NUL]) else RegisterEdit(v, cmd, allocOk)
  }

  /**
   * The unregister edit as written. For an empty value the size of
   * new_value wraps to 0 and the walk goes past the buffer. Otherwise
   * the strings that are not the command are copied into new_value,
   * which has room for |v| characters, and one more NUL is put after
   * them; the copy goes past it when they need |v| characters or more.
   */
  function UnregisterEdit(v: seq<char>, cmd: seq<char>, allocOk: bool): Edit
  {
    if |v| == 0 then Overflow
    else
      var kept := Join(Kept(Entries(Padded(v, cmd), 0, |v| - 1), cmd, allocOk));
      if |kept| >= |v| then Overflow else Write(kept + [NUL])
  }

  /** The unregister edit with an empty value left empty: a single NUL. */
  function UnregisterEditCorrected(v: seq<char>, cmd: seq<char>, allocOk: bool): (e: Edit)
    ensures |v| > 0 ==> e == UnregisterEdit(v, cmd, allocOk)
  {
    if |v| == 0 then Write([NUL]) else UnregisterEdit(v, cmd, allocOk)
  }

  /** The return code of either routine for an edit. */
  function Finish(key: SmssKey, e: Edit): Outcome
  {
    match e
    case Unchanged => Done(0, None)
    case Write(w) => Done(if key.sets then 0 else -1, Some(w))
    case Overflow => OutOfBounds
  }

  /** A failing call, or a value that is not REG_MULTI_SZ, gives -1. */
  predicate Fails(key: SmssKey)
  {
    !key.opens || key.value.None? || !key.value.value.isMultiSz
  }

  /** winx_register_boot_exec_command. */
  function RegisterOutcome(key: SmssKey, cmd: seq<char>, allocOk: bool): Outcome
  {
    if Fails(key) then Done(-1, None) else Finish(key, RegisterEdit(key.value.value.data, cmd, allocOk))
  }

  /** winx_unregister_boot_exec_command; the allocation of new_value comes before the walk. */
  function UnregisterOutcome(key: SmssKey, cmd: seq<char>, allocOk: bool): Outcome
  {
    if Fails(key) || !key.memory then Done(-1, None)
    else Finish(key, UnregisterEdit(key.value.value.data, cmd, allocOk))
  }

  /** Both routines return -1, and write nothing, when the value is not REG_MULTI_SZ. */
  lemma WrongTypeFails(key: SmssKey, cmd: seq<char>, allocOk: bool)
    requires key.opens && key.value.Some? && !key.value.value.isMultiSz
    ensures RegisterOutcome(key, cmd, allocOk) == Done(-1, None)
    ensures UnregisterOutcome(key, cmd, allocOk) == Done(-1, None)
  {
  }

  // ---------------------------------------------------------------------
  // The walk over the padded buffer
  // ---------------------------------------------------------------------

  /** A buffer that extends a NUL-ended value is walked like the value, up to a limit inside it. */
  lemma {:induction false} EntriesExtend(v: seq<char>, b: seq<char>, i: nat, limit: nat)
    requires limit < |v| <= |b| && i <= |v|
    requires (forall k :: 0 <= k < |v| ==> b[k] == v[k]) && v[|v| - 1] == NUL && b[|b| - 1] == NUL
    ensures Entries(b, i, limit) == Entries(v, i, limit)
    ensures WalkEnd(b, i, limit) == WalkEnd(v, i, limit)
    decreases |v| - i
  {
    if i < limit {
      NulFromAgree(v, b, i);
      var p := NulFrom(v, i);
      assert b[i..p] == v[i..p];
      EntriesExtend(v, b, p + 1, limit);
    }
  }

  /** A value terminated by two NULs: how both routines see it here and in bootexctrl. */
  predicate WellFormed(v: seq<char>)
  {
    |v| >= 2 && v[|v| - 1] == NUL && v[|v| - 2] == NUL
  }

  /**
   * On a value terminated by two NULs the register edit never writes
   * past the buffer, and it is the one of bootexctrl's register_cmd:
   * nothing when a string is the command, else the command appended as
   * the last string.
   */
  lemma RegisterLikeBootExCtrl(v: seq<char>, cmd: seq<char>, allocOk: bool)
    requires WellFormed(v)
    ensures RegisterEdit(v, cmd, allocOk) != Overflow
    ensures RegisterEdit(v, cmd, allocOk) == Unchanged <==> BootExCtrl.RegisterValueAsWritten(v, cmd, allocOk).None?
    ensures RegisterEdit(v, cmd, allocOk).Write? ==>
      RegisterEdit(v, cmd, allocOk).value == BootExCtrl.RegisterValueAsWritten(v, cmd, allocOk).value
  {
    var b := Padded(v, cmd);
    EntriesExtend(v, b, 0, |v| - 1);
    WalkEndExact(v, 0);
    assert BootExCtrl.Terminated(v) == v;
    assert b[..|v| - 1] == v[..|v| - 1];
  }

  /**
   * On a value terminated by two NULs the unregister edit never writes
   * past new_value, and it is the one of bootexctrl's unregister_cmd:
   * the strings that are not the command, in their order, and one more
   * NUL.
   */
  lemma UnregisterLikeBootExCtrl(v: seq<char>, cmd: seq<char>, allocOk: bool)
    requires WellFormed(v)
    ensures UnregisterEdit(v, cmd, allocOk) == Write(BootExCtrl.UnregisterValue(v, cmd, allocOk).value)
  {
    var b := Padded(v, cmd);
    EntriesExtend(v, b, 0, |v| - 1);
    WalkEndExact(v, 0);
    assert BootExCtrl.Terminated(v) == v;
    var es := Entries(v, 0, |v| - 1);
    JoinEntries(v, 0, |v| - 1);
    KeptShorter(es, cmd, allocOk);
  }

  /** Joining the walked strings gives back the characters the walk passed over. */
  lemma {:induction false} JoinEntries(b: seq<char>, i: nat, limit: nat)
    requires limit < |b| && b[|b| - 1] == NUL && i <= |b|
    ensures |Join(Entries(b, i, limit))| == WalkEnd(b, i, limit) - i
    decreases |b| - i
  {
    if i < limit {
      var p := NulFrom(b, i);
      var es := Entries(b, i, limit);
      JoinEntries(b, p + 1, limit);
      JoinCons(es);
      assert es[1..] == Entries(b, p + 1, limit);
    }
  }

  /** Dropping strings never makes the joined list longer. */
  lemma {:induction false} KeptShorter(es: seq<seq<char>>, cmd: seq<char>, allocOk: bool)
    ensures |Join(Kept(es, cmd, allocOk))| <= |Join(es)|
  {
    if |es| > 0 {
      KeptShorter(es[..|es| - 1], cmd, allocOk);
    }
  }

  /**
   * The empty value: as written, registering a command that is not
   * empty runs the walk past the buffer, and so does unregistering.
   */
  lemma EmptyValueOverflows(cmd: seq<char>, allocOk: bool)
    requires cmd != []
    ensures RegisterEdit([], cmd, allocOk) == Overflow
    ensures UnregisterEdit([], cmd, allocOk) == Overflow
  {
    assert |LowerStr(cmd)| != 0;
    assert |LowerStr(AUTOCHECK + cmd)| != 0;
  }

  /**
   * Taken as a value with no strings, the empty value gets exactly the
   * command followed by two NULs when registering, and stays empty when
   * unregistering.
   */
  lemma EmptyValueCorrected(cmd: seq<char>, allocOk: bool)
    requires NoNul(cmd)
    ensures RegisterEditCorrected([], cmd, allocOk) == Write(cmd + [NUL, NUL])
    ensures BootExCtrl.Strings(cmd + [NUL, NUL]) == [cmd]
    ensures UnregisterEditCorrected([], cmd, allocOk) == Write([NUL])
    ensures BootExCtrl.Strings([NUL]) == []
  {
    var w := cmd + [NUL, NUL];
    assert w[0..|cmd|] == cmd;
    EntriesLast(w, 0, cmd);
    assert BootExCtrl.Terminated(w) == w;
  }

  // ---------------------------------------------------------------------
  // The two routines
  // ---------------------------------------------------------------------

  /** winx_register_boot_exec_command: the calls that can fail, then the edit of the value. */
  method RegisterBootExecCommand(key: SmssKey, cmd: seq<char>, allocOk: bool) returns (out: Outcome)
    requires key.value.Some? ==> 2 * |key.value.value.data| < DWORD_MOD
    requires 2 * (|cmd| + 1) < DWORD_MOD
    ensures out == RegisterOutcome(key, cmd, allocOk)
    ensures out.Done? && out.written.Some? ==>
      var v := key.value.value.data;
      |out.written.value| == WalkEnd(Padded(v, cmd), 0, |v| - 1) + |cmd| + 2
  {
    if !key.opens || key.value.None? || !key.value.value.isMultiSz {
      return Done(-1, None);
    }
    var edit := AppendCommand(key.value.value.data, cmd, allocOk);
    match edit
    case Unchanged => out := Done(0, None);
    case Overflow => out := OutOfBounds;
    case Write(w) => out := Done(if key.sets then 0 else -1, Some(w));
  }

  /** The walk with index i over the padded value, then wcscpy of the command at i. */
  method AppendCommand(v: seq<char>, cmd: seq<char>, allocOk: bool) returns (edit: Edit)
    requires 2 * |v| < DWORD_MOD && 2 * (|cmd| + 1) < DWORD_MOD
    ensures edit == RegisterEdit(v, cmd, allocOk)
    ensures edit.Write? ==> |edit.value| == WalkEnd(Padded(v, cmd), 0, |v| - 1) + |cmd| + 2
  {
    var value := Padded(v, cmd);
    var length := LastIndex(v);
    if length >= |value| {
      // Only an empty value: the walk visits the empty strings of the
      // zero padding, one character at a time, past the buffer's end.
      if CmdCompare([], cmd, allocOk) > 0 {
        return Unchanged;
      }
      return Overflow;
    }
    var found, i := FindCmd(value, length, cmd, allocOk);
    if found {
      return Unchanged;
    }
    if i + |cmd| + 1 >= |value| {
      // value[i + wcslen(command) + 1] = 0 is past the buffer.
      return Overflow;
    }
    value := value[..i] + cmd + [NUL] + value[i + |cmd| + 1..];
    value := value[i + |cmd| + 1 := NUL];
    var valueSize := i + |cmd| + 1 + 1;
    ghost var b := Padded(v, cmd);
    assert value[..valueSize] == b[..i] + cmd + [NUL, NUL];
    edit := Write(value[..valueSize]);
  }

  /** winx_unregister_boot_exec_command: the calls that can fail, the allocation of new_value, then the copy. */
  method UnregisterBootExecCommand(key: SmssKey, cmd: seq<char>, allocOk: bool) returns (out: Outcome)
    requires key.value.Some? ==> 2 * |key.value.value.data| < DWORD_MOD
    requires 2 * (|cmd| + 1) < DWORD_MOD
    ensures out == UnregisterOutcome(key, cmd, allocOk)
  {
    if !key.opens || key.value.None? || !key.value.value.isMultiSz {
      return Done(-1, None);
    }
    var v := key.value.value.data;
    var length := LastIndex(v);
    var newValueSize := ((length + 1) * 2) % DWORD_MOD;
    if !key.memory {
      return Done(-1, None);
    }
    var edit := CopyOthersInto(v, cmd, allocOk, length, newValueSize);
    match edit
    case Unchanged => out := Done(0, None);
    case Overflow => out := OutOfBounds;
    case Write(w) => out := Done(if key.sets then 0 else -1, Some(w));
  }

  /** The copy loop into the zero-filled new_value of `newValueSize` bytes, and its closing NUL. */
  method CopyOthersInto(v: seq<char>, cmd: seq<char>, allocOk: bool, length: nat, newValueSize: nat) returns (edit: Edit)
    requires 2 * |v| < DWORD_MOD && 2 * (|cmd| + 1) < DWORD_MOD
    requires length == LastIndex(v) && newValueSize == ((length + 1) * 2) % DWORD_MOD
    ensures edit == UnregisterEdit(v, cmd, allocOk)
  {
    var value := Padded(v, cmd);
    assert |v| > 0 ==> newValueSize == 2 * |v| by {
      if |v| > 0 {
        assert (length + 1) * 2 == 2 * |v| < DWORD_MOD;
      }
    }
    var newValue := seq(newValueSize / 2, _ => NUL);
    if length >= |value| {
      // Only an empty value: new_value has no room, and the walk runs
      // past the buffer's end.
      assert |v| == 0;
      return Overflow;
    }
    assert |v| > 0 && length == |v| - 1 && |newValue| == |v|;
    var newData := CopyOthers(value, length, cmd, allocOk);
    if |newData| >= |newValue| {
      // A copy or new_value[new_length] = 0 is past new_value.
      return Overflow;
    }
    // new_value[..new_length + 1]: the copied strings, then a zero of the fill.
    edit := Write(newData + [NUL]);
  }
}
