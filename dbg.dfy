// The debugging output of zenwinx (src/dll/zenwinx/dbg.c): the decorated
// header line, the table of NT status descriptions, the handling of a
// trailing newline and of the ": $NS" and ": $LE" endings in
// winx_dbg_print, and the log that winx_enable_dbg_log switches on.
//
// Formatting with winx_vsprintf, the message tables of kernel32.dll and
// ntdll.dll, the spin locks and the clock are outside the model: their
// results are parameters.

module Dbg {
  import opened Types

  // ---------------------------------------------------------------------
  // winx_dbg_print_header
  // ---------------------------------------------------------------------

  /** DEFAULT_DBG_PRINT_DECORATION_CHAR and DEFAULT_DBG_PRINT_HEADER_WIDTH. */
  const DEFAULT_DECORATION_CHAR: char := '-'
  const DEFAULT_HEADER_WIDTH: int := 64

  /** Where the leading space goes: `(width - length - 2) / 2`. */
  function Left(width: int, length: nat): int
  {
    (width - length - 2) / 2
  }

  /**
   * A decorated line: `width` characters of `ch`, except a space at
   * `left`, the string after it and another space after the string.
   */
  predicate IsDecorated(line: seq<char>, ch: char, width: int, s: seq<char>)
  {
    var left := Left(width, |s|);
    |line| == width && 0 <= left && left + |s| + 2 <= width &&
    line[left] == ' ' && line[left + 1..left + 1 + |s|] == s && line[left + 1 + |s|] == ' ' &&
    (forall k :: 0 <= k < left ==> line[k] == ch) &&
    (forall k :: left + |s| + 2 <= k < width ==> line[k] == ch)
  }

  /**
   * A string that fits is centred: at least one decoration character on
   * the left, and on the right as many or one more.
   */
  lemma DecorationBalanced(width: int, s: seq<char>)
    requires |s| <= width - 4
    ensures Left(width, |s|) >= 1
    ensures var right := width - Left(width, |s|) - |s| - 2;
      right == Left(width, |s|) || right == Left(width, |s|) + 1
  {
  }

  /**
   * winx_dbg_print_header: the string `s` that winx_vsprintf formats
   * (None when the format is NULL or the formatting fails) is passed
   * on undecorated when it is longer than `width - 4` or the buffer
   * cannot be allocated, and decorated otherwise. Returns the string
   * given to winx_dbg_print.
   */
  method PrintHeader(ch: char, width: int, s: Option<string>, allocOk: bool) returns (printed: Option<string>)
    ensures printed.Some? <==> s.Some?
    ensures s.Some? ==>
      var c := if ch == '\0' then DEFAULT_DECORATION_CHAR else ch;
      var w := if width <= 0 then DEFAULT_HEADER_WIDTH else width;
      if |s.value| > w - 4 || !allocOk then printed.value == s.value
      else IsDecorated(printed.value, c, w, s.value)
  {
    var c := ch;
    var w := width;
    if c == '\0' {
      c := DEFAULT_DECORATION_CHAR;
    }
    if w <= 0 {
      w := DEFAULT_HEADER_WIDTH;
    }
    if s.None? {
      printed := None;
    } else if |s.value| > w - 4 || !allocOk {
      printed := Some(s.value);
    } else {
      var line := Decorate(c, w, s.value);
      printed := Some(line);
    }
  }

  /**
   * The buffer of winx_dbg_print_header: filled with `c`, terminated at
   * `width`, with the string copied in between two spaces.
   */
  method Decorate(c: char, width: int, str: string) returns (line: string)
    requires |str| <= width - 4
    ensures IsDecorated(line, c, width, str)
  {
    var length := |str|;
    var buffer := new char[width + 1];
    // memset(buffer, ch, width)
    for k := 0 to width
      invariant forall j :: 0 <= j < k ==> buffer[j] == c
    {
      buffer[k] := c;
    }
    buffer[width] := '\0';
    var left := (width - length - 2) / 2;
    buffer[left] := ' ';
    // memcpy(buffer + left + 1, string, length)
    for k := 0 to length
      invariant buffer[left] == ' '
      invariant forall j :: 0 <= j < k ==> buffer[left + 1 + j] == str[j]
      invariant forall j :: 0 <= j < left ==> buffer[j] == c
      invariant forall j :: left + 1 + length <= j < width ==> buffer[j] == c
    {
      buffer[left + 1 + k] := str[k];
    }
    buffer[left + 1 + length] := ' ';
    line := buffer[..width];
    assert line[left + 1..left + 1 + length] == str;
  }

  // ---------------------------------------------------------------------
  // winx_get_error_description
  // ---------------------------------------------------------------------

  /**
   * The NT status codes the table names, with the values the Windows
   * Driver Kit's ntstatus.h gives them; ntstatus.h is not part of this model.
   */
  const STATUS_SUCCESS: nat := 0x0000_0000
  const STATUS_OBJECT_NAME_INVALID: nat := 0xC000_0033
  const STATUS_OBJECT_NAME_NOT_FOUND: nat := 0xC000_0034
  const STATUS_OBJECT_NAME_COLLISION: nat := 0xC000_0035
  const STATUS_OBJECT_PATH_INVALID: nat := 0xC000_0039
  const STATUS_OBJECT_PATH_NOT_FOUND: nat := 0xC000_003A
  const STATUS_OBJECT_PATH_SYNTAX_BAD: nat := 0xC000_003B
  const STATUS_BUFFER_TOO_SMALL: nat := 0xC000_0023
  const STATUS_ACCESS_DENIED: nat := 0xC000_0022
  const STATUS_NO_MEMORY: nat := 0xC000_0017
  const STATUS_UNSUCCESSFUL: nat := 0xC000_0001
  const STATUS_NOT_IMPLEMENTED: nat := 0xC000_0002
  const STATUS_INVALID_INFO_CLASS: nat := 0xC000_0003
  const STATUS_INFO_LENGTH_MISMATCH: nat := 0xC000_0004
  const STATUS_ACCESS_VIOLATION: nat := 0xC000_0005
  const STATUS_INVALID_HANDLE: nat := 0xC000_0008
  const STATUS_INVALID_PARAMETER: nat := 0xC000_000D
  const STATUS_NO_SUCH_DEVICE: nat := 0xC000_000E
  const STATUS_NO_SUCH_FILE: nat := 0xC000_000F
  const STATUS_INVALID_DEVICE_REQUEST: nat := 0xC000_0010
  const STATUS_END_OF_FILE: nat := 0xC000_0011
  const STATUS_WRONG_VOLUME: nat := 0xC000_0012
  const STATUS_NO_MEDIA_IN_DEVICE: nat := 0xC000_0013
  const STATUS_UNRECOGNIZED_VOLUME: nat := 0xC000_014F
  const STATUS_VARIABLE_NOT_FOUND: nat := 0xC000_0100
  const STATUS_SHARING_VIOLATION: nat := 0xC000_0043
  const STATUS_ALREADY_COMMITTED: nat := 0xC000_0021

  /** The NT status codes of the table and their texts, in the table's order. */
  const DESCRIPTIONS: seq<(nat, string)> := [
    (STATUS_SUCCESS, "operation successful"),
    (STATUS_OBJECT_NAME_INVALID, "object name invalid"),
    (STATUS_OBJECT_NAME_NOT_FOUND, "object name not found"),
    (STATUS_OBJECT_NAME_COLLISION, "object name already exists"),
    (STATUS_OBJECT_PATH_INVALID, "path is invalid"),
    (STATUS_OBJECT_PATH_NOT_FOUND, "path not found"),
    (STATUS_OBJECT_PATH_SYNTAX_BAD, "bad syntax in path"),
    (STATUS_BUFFER_TOO_SMALL, "buffer is too small"),
    (STATUS_ACCESS_DENIED, "access denied"),
    (STATUS_NO_MEMORY, "not enough memory"),
    (STATUS_UNSUCCESSFUL, "operation failed"),
    (STATUS_NOT_IMPLEMENTED, "not implemented"),
    (STATUS_INVALID_INFO_CLASS, "invalid info class"),
    (STATUS_INFO_LENGTH_MISMATCH, "info length mismatch"),
    (STATUS_ACCESS_VIOLATION, "access violation"),
    (STATUS_INVALID_HANDLE, "invalid handle"),
    (STATUS_INVALID_PARAMETER, "invalid parameter"),
    (STATUS_NO_SUCH_DEVICE, "device not found"),
    (STATUS_NO_SUCH_FILE, "file not found"),
    (STATUS_INVALID_DEVICE_REQUEST, "invalid device request"),
    (STATUS_END_OF_FILE, "end of file reached"),
    (STATUS_WRONG_VOLUME, "wrong volume"),
    (STATUS_NO_MEDIA_IN_DEVICE, "no media in device"),
    (STATUS_UNRECOGNIZED_VOLUME, "cannot recognize file system"),
    (STATUS_VARIABLE_NOT_FOUND, "environment variable not found"),
    (STATUS_SHARING_VIOLATION, "file is locked by another process"),
    (STATUS_ALREADY_COMMITTED, "target clusters are already in use")
  ]

  /** No status appears twice in the table, and no text is empty. */
  lemma DescriptionsDistinct()
    ensures forall i, j :: 0 <= i < j < |DESCRIPTIONS| ==> DESCRIPTIONS[i].0 != DESCRIPTIONS[j].0
    ensures forall i :: 0 <= i < |DESCRIPTIONS| ==> |DESCRIPTIONS[i].1| > 0
  {
  }

  /**
   * winx_get_error_description: the text of the first entry for the
   * status, or "" when the table has none.
   */
  method GetErrorDescription(status: nat) returns (desc: string)
    ensures (forall k :: 0 <= k < |DESCRIPTIONS| ==> DESCRIPTIONS[k].0 != status) ==> desc == ""
    ensures forall k :: 0 <= k < |DESCRIPTIONS| && DESCRIPTIONS[k].0 == status ==> desc == DESCRIPTIONS[k].1
  {
    DescriptionsDistinct();
    var i := 0;
    while i < |DESCRIPTIONS|
      invariant i <= |DESCRIPTIONS|
      invariant forall k :: 0 <= k < i ==> DESCRIPTIONS[k].0 != status
    {
      if DESCRIPTIONS[i].0 == status {
        return DESCRIPTIONS[i].1;
      }
      i := i + 1;
    }
    return "";
  }

  // ---------------------------------------------------------------------
  // winx_dbg_print
  // ---------------------------------------------------------------------

  const NS_TAG: string := ": $NS"
  const LE_TAG: string := ": $LE"

  /** Which code a message asks to be appended: none, the NT status or the last error. */
  datatype Magic = Plain | NtStatus | LastError

  /** The message without one trailing newline. */
  function WithoutNewline(msg: string): (m: string)
    ensures |m| <= |msg| <= |m| + 1 && m == msg[..|m|]
    ensures |m| < |msg| <==> |msg| > 0 && msg[|msg| - 1] == '\n'
  {
    if |msg| > 0 && msg[|msg| - 1] == '\n' then msg[..|msg| - 1] else msg
  }

  /** `tag` ends `m`, and occurs nowhere before. */
  predicate EndsOnlyWith(m: string, tag: string)
  {
    |m| >= |tag| && m[|m| - |tag|..] == tag &&
    forall k :: 0 <= k < |m| - |tag| ==> !StartsAt(m, tag, k)
  }

  /** `strstr(m, tag)` points at `m + p`: the first occurrence is there. */
  predicate FoundAt(m: string, tag: string, p: int)
  {
    var k := FirstIndex(m, tag);
    0 <= k && k == p
  }

  /**
   * The endings as written: `strstr` must find the tag at
   * `length - 5`, where `length` was taken before the newline was
   * removed.
   */
  function ClassifyAsWritten(msg: string): (Magic, string)
  {
    var length := |msg|;
    var m := WithoutNewline(msg);
    assert |NS_TAG| == 5 && |LE_TAG| == 5;
    if FoundAt(m, NS_TAG, length - 5) then (NtStatus, m[..length - 5])
    else if FoundAt(m, LE_TAG, length - 5) then (LastError, m[..length - 5])
    else (Plain, m)
  }

  /** The endings, looked for at the end of the message after the newline is removed. */
  function Classify(msg: string): (Magic, string)
  {
    var m := WithoutNewline(msg);
    assert |NS_TAG| == 5 && |LE_TAG| == 5;
    if FoundAt(m, NS_TAG, |m| - 5) then (NtStatus, m[..|m| - 5])
    else if FoundAt(m, LE_TAG, |m| - 5) then (LastError, m[..|m| - 5])
    else (Plain, m)
  }

  /**
   * ": $NS" is recognised exactly when its first occurrence ends the
   * message, ": $LE" likewise when ": $NS" is not, and the ending is cut
   * off; any other message is kept without its newline.
   */
  lemma ClassifySpec(msg: string)
    ensures var m := WithoutNewline(msg);
      (Classify(msg).0 == NtStatus <==> EndsOnlyWith(m, NS_TAG)) &&
      (Classify(msg).0 == LastError <==> !EndsOnlyWith(m, NS_TAG) && EndsOnlyWith(m, LE_TAG)) &&
      (Classify(msg).0 == NtStatus ==> Classify(msg).1 + NS_TAG == m) &&
      (Classify(msg).0 == LastError ==> Classify(msg).1 + LE_TAG == m) &&
      (Classify(msg).0 == Plain ==> Classify(msg).1 == m)
  {
    var m := WithoutNewline(msg);
    EndsAtFirst(m, NS_TAG);
    EndsAtFirst(m, LE_TAG);
  }

  /** The first occurrence is at the end exactly when the tag ends the string and occurs nowhere before. */
  lemma EndsAtFirst(m: string, tag: string)
    requires |tag| == 5
    ensures FoundAt(m, tag, |m| - 5) <==> EndsOnlyWith(m, tag)
    ensures FoundAt(m, tag, |m| - 5) ==> m[..|m| - 5] + tag == m
  {
    if EndsOnlyWith(m, tag) {
      assert StartsAt(m, tag, |m| - 5);
    }
    if FoundAt(m, tag, |m| - 5) {
      assert StartsAt(m, tag, |m| - 5);
      assert m[..|m| - 5] + m[|m| - 5..] == m;
    }
  }

  /**
   * As written, a message that ends with a newline is never given a
   * code: "x: $NS\n" stays plain, with its ending, where the ending
   * without the newline is recognised.
   */
  lemma NewlineHidesEnding()
    ensures ClassifyAsWritten("x: $NS\n") == (Plain, "x: $NS")
    ensures Classify("x: $NS\n") == (NtStatus, "x")
  {
    var m := "x: $NS";
    assert WithoutNewline("x: $NS\n") == m;
    assert m[1..6] == NS_TAG;
    assert m[0..5][0] == 'x';
    assert FirstIndex(m, NS_TAG) == 1;
    assert m[1..6][3] != LE_TAG[3];
    assert m[0..5][0] == 'x';
    assert FirstIndex(m, LE_TAG) == -1;
    assert m[..1] == "x";
  }

  /** Without a trailing newline the two agree; with one, the code as written finds no ending. */
  lemma ClassifyAsWrittenAgrees(msg: string)
    ensures !(|msg| > 0 && msg[|msg| - 1] == '\n') ==> ClassifyAsWritten(msg) == Classify(msg)
    ensures |msg| > 0 && msg[|msg| - 1] == '\n' ==> ClassifyAsWritten(msg) == (Plain, WithoutNewline(msg))
  {
    assert |NS_TAG| == 5 && |LE_TAG| == 5;
  }

  /**
   * The extended message `msg: 0x<code> status|error[: desc]`, with a
   * newline for the debugger's copy; a description loses one trailing
   * newline.
   */
  function Extended(msg: string, magic: Magic, code: nat, desc: Option<string>, newline: bool): (e: string)
    requires magic != Plain
    ensures |e| > |msg| + 4 && e[..|msg| + 4] == msg + ": 0x"
    ensures newline ==> e[|e| - 1] == '\n'
  {
    var head := msg + ": 0x";
    var e := head + NatToHex(code) + " " + (if magic == NtStatus then "status" else "error") +
      (if desc.Some? then ": " + WithoutNewline(desc.value) else "") + (if newline then "\n" else "");
    assert e[..|head|] == head;
    e
  }

  /**
   * What winx_dbg_print hands to add_dbg_log_entry and to
   * OutputDebugString (None when that is not available or a formatting
   * fails), given the message winx_vsprintf formats, the saved status
   * and last error, the UTF-8 and the ANSI descriptions of the code
   * looked up (RtlNtStatusToDosError of the status, or the last error),
   * and whether winx_sprintf succeeds.
   */
  function PrintOutcome(msg: string, status: nat, error: nat,
    utf8Desc: Option<string>, ansiDesc: Option<string>, memory: bool, debugger: bool): (Option<string>, Option<string>)
  {
    var (magic, m) := Classify(msg);
    var code := if magic == NtStatus then status else error;
    var logged := if magic != Plain && memory then Extended(m, magic, code, utf8Desc, false) else m;
    var shown :=
      if !debugger || !memory then None
      else if magic != Plain then Some(Extended(m, magic, code, ansiDesc, true))
      else Some(m + "\n");
    (Some(logged), shown)
  }

  /** The newline and the ending of the message, removed in place; the length is taken again after the newline. */
  method StripEnding(msg: string) returns (magic: Magic, m: string)
    ensures (magic, m) == Classify(msg)
  {
    m := msg;
    var length := |m|;
    if length > 0 && m[length - 1] == '\n' {
      m := m[..length - 1];
      length := length - 1;
    }
    assert m == WithoutNewline(msg) && length == |m|;
    assert |NS_TAG| == 5 && |LE_TAG| == 5;
    magic := Plain;
    var p := FirstIndex(m, NS_TAG);
    if 0 <= p && p == length - 5 {
      m := m[..length - 5];
      magic := NtStatus;
    } else {
      p := FirstIndex(m, LE_TAG);
      if 0 <= p && p == length - 5 {
        m := m[..length - 5];
        magic := LastError;
      }
    }
  }

  /** winx_dbg_print with the length of the message taken again after its newline is removed. */
  method DbgPrint(msg: Option<string>, status: nat, error: nat,
    utf8Desc: Option<string>, ansiDesc: Option<string>, memory: bool, debugger: bool)
    returns (logged: Option<string>, shown: Option<string>)
    ensures msg.None? ==> logged.None? && shown.None?
    ensures msg.Some? ==> (logged, shown) == PrintOutcome(msg.value, status, error, utf8Desc, ansiDesc, memory, debugger)
    ensures msg.Some? ==> logged.Some? && Classify(msg.value).1 <= logged.value
  {
    if msg.None? {
      return None, None;
    }
    var magic, m := StripEnding(msg.value);
    var extMsg: Option<string> := None;
    var ansiExtMsg: Option<string> := None;
    if magic != Plain && memory {
      var code := if magic == NtStatus then status else error;
      extMsg := Some(Extended(m, magic, code, utf8Desc, false));
      if debugger {
        ansiExtMsg := Some(Extended(m, magic, code, ansiDesc, true));
      }
    }
    logged := if extMsg.Some? then extMsg else Some(m);
    if debugger && ansiExtMsg.Some? {
      shown := ansiExtMsg;
    } else if debugger && memory {
      shown := Some(m + "\n");
    } else {
      shown := None;
    }
  }

  // ---------------------------------------------------------------------
  // The log: add_dbg_log_entry, flush_dbg_log, winx_enable_dbg_log
  // ---------------------------------------------------------------------

  /** The entries flush_dbg_log writes out: the non-empty ones, in order. */
  function NonEmpty(entries: seq<string>): (r: seq<string>)
    ensures |r| <= |entries|
    ensures forall k :: 0 <= k < |r| ==> |r[k]| > 0 && r[k] in entries
  {
    if |entries| == 0 then []
    else
      var init := NonEmpty(entries[..|entries| - 1]);
      if |entries[|entries| - 1]| > 0 then init + [entries[|entries| - 1]] else init
  }

  /** Every non-empty entry is written. */
  lemma {:induction false} NonEmptyKeepsAll(entries: seq<string>)
    ensures forall e :: e in entries && |e| > 0 ==> e in NonEmpty(entries)
  {
    if |entries| > 0 {
      var init := entries[..|entries| - 1];
      NonEmptyKeepsAll(init);
      forall e | e in entries && |e| > 0
        ensures e in NonEmpty(entries)
      {
        if e != entries[|entries| - 1] {
          var k :| 0 <= k < |entries| && entries[k] == e;
          assert init[k] == e;
        }
      }
    }
  }

  /** The messages winx_enable_dbg_log prints. */
  function LogPathMessage(path: string): string
  {
    "winx_enable_dbg_log: log_path = " + path
  }

  const ENABLE_NO_MEMORY: string := "winx_enable_dbg_log: cannot allocate memory for log path"

  /** What winx_dbg_print hands to add_dbg_log_entry for a message when its allocations succeed. */
  function Entry(msg: string, status: nat, error: nat, desc: Option<string>): string
  {
    PrintOutcome(msg, status, error, desc, None, true, false).0.value
  }

  /** The messages collected in memory and the file they go to. */
  class DbgLog {
    var loggingEnabled: bool
    var logPath: Option<string>
    var entries: seq<string>

    constructor ()
      ensures !loggingEnabled && logPath.None? && entries == []
    {
      loggingEnabled, logPath, entries := false, None, [];
    }

    /** add_dbg_log_entry: the message is kept only while logging is on and its copy is allocated. */
    method AddEntry(msg: string, memory: bool)
      modifies this
      ensures entries == if old(loggingEnabled) && memory then old(entries) + [msg] else old(entries)
      ensures loggingEnabled == old(loggingEnabled) && logPath == old(logPath)
    {
      if loggingEnabled && memory {
        entries := entries + [msg];
      }
    }

    /**
     * flush_dbg_log: the entries are taken off the log in any case, and
     * the non-empty ones written, each with a time stamp and CR LF, when
     * there is a non-empty log path and the file opens. Returns the path
     * and the entries written.
     */
    method Flush(opens: bool) returns (saved: Option<(string, seq<string>)>)
      modifies this
      ensures entries == [] && loggingEnabled == old(loggingEnabled) && logPath == old(logPath)
      ensures saved ==
        if old(entries) != [] && old(logPath).Some? && old(logPath).value != [] && opens
        then Some((old(logPath).value, NonEmpty(old(entries)))) else None
    {
      var oldLog := entries;
      entries := [];
      saved := None;
      if oldLog != [] && logPath.Some? && logPath.value != [] && opens {
        var written: seq<string> := [];
        var i := 0;
        while i < |oldLog|
          invariant i <= |oldLog|
          invariant written == NonEmpty(oldLog[..i])
        {
          assert oldLog[..i + 1][..i] == oldLog[..i];
          if |oldLog[i]| > 0 {
            written := written + [oldLog[i]];
          }
          i := i + 1;
        }
        assert oldLog[..i] == oldLog;
        saved := Some((logPath.value, written));
      }
    }

    /**
     * winx_enable_dbg_log: logging is on exactly for a non-empty path;
     * the log is flushed to the old path when the new one differs from
     * it (a missing path on one side only counts as a difference); the
     * new path is kept while logging is on and its copy is allocated
     * (`memory`). While logging is on the routine then logs, through
     * winx_dbg_print, the new path and, when its copy cannot be had, that
     * memory ran out; `logMemory` tells whether the allocations of those
     * messages and their log entries succeed, and `status`, `error` and
     * `desc` are what winx_dbg_print reads for them.
     */
    method Enable(path: Option<string>, memory: bool, opens: bool, logMemory: bool,
                  status: nat, error: nat, desc: Option<string>)
      returns (saved: Option<(string, seq<string>)>)
      modifies this
      ensures loggingEnabled == (path.Some? && path.value != [])
      ensures logPath == if loggingEnabled && memory then path else None
      ensures var kept := if path == old(logPath) then old(entries) else [];
        var own := if loggingEnabled && logMemory
          then [Entry(LogPathMessage(path.value), status, error, desc)] +
               (if memory then [] else [Entry(ENABLE_NO_MEMORY, status, error, desc)])
          else [];
        entries == kept + own
      ensures path == old(logPath) ==> saved.None?
      ensures path != old(logPath) ==>
        saved == if old(entries) != [] && old(logPath).Some? && old(logPath).value != [] && opens
          then Some((old(logPath).value, NonEmpty(old(entries)))) else None
    {
      if path.None? {
        loggingEnabled := false;
      } else {
        loggingEnabled := path.value != [];
      }
      saved := None;
      if path.Some? || logPath.Some? {
        if path.None? || logPath.None? {
          saved := Flush(opens);
        } else if path.value != logPath.value {
          saved := Flush(opens);
        }
      }
      logPath := None;
      if loggingEnabled {
        LogNewPath(path.value, memory, logMemory, status, error, desc);
        if memory {
          logPath := path;
        }
      }
    }

    /** The messages winx_enable_dbg_log logs, while logging is on, after setting the new path. */
    method LogNewPath(path: string, memory: bool, logMemory: bool, status: nat, error: nat, desc: Option<string>)
      requires loggingEnabled
      modifies this
      ensures loggingEnabled && logPath == old(logPath)
      ensures entries == old(entries) + if logMemory
        then [Entry(LogPathMessage(path), status, error, desc)] +
             (if memory then [] else [Entry(ENABLE_NO_MEMORY, status, error, desc)])
        else []
    {
      var logged, shown := DbgPrint(Some(LogPathMessage(path)), status, error, desc, None, logMemory, false);
      AddEntry(logged.value, logMemory);
      if !memory {
        logged, shown := DbgPrint(Some(ENABLE_NO_MEMORY), status, error, desc, None, logMemory, false);
        AddEntry(logged.value, logMemory);
      }
    }
  }
}
