// The keyboard queue and keyboard count of zenwinx (src/dll/zenwinx/keyboard.c).
//
// The reader threads push key hits into a ring buffer of KB_QUEUE_LENGTH
// items and kb_read pops them; both run here one after the other, with
// the keys other threads push while kb_read sleeps given as a schedule.

module Keyboard {
  import opened Types

  const KB_QUEUE_LENGTH: nat := 100
  const MAX_NUM_OF_KEYBOARDS: nat := 100
  /** The polling interval of kb_read, in milliseconds. */
  const MAX_TYPING_DELAY: nat := 10

  /** A KEYBOARD_INPUT_DATA record; its fields are copied, never read. */
  datatype KeyInput = KeyInput(unitId: nat, makeCode: nat, flags: nat, extraInformation: nat)

  /** An opened keyboard: a slot of kb[] whose device handle is not NULL. */
  datatype Device = Device(deviceNumber: int, device: nat, event: nat)

  // ---------------------------------------------------------------------
  // The ring buffer
  // ---------------------------------------------------------------------

  /** The "unexpected condition #1" reset: an out-of-range start_index becomes 0. */
  function ResetStart(start: int): (r: nat)
    ensures r < KB_QUEUE_LENGTH
    ensures 0 <= start < KB_QUEUE_LENGTH ==> r == start
    ensures !(0 <= start < KB_QUEUE_LENGTH) ==> r == 0
  {
    if start < 0 || start >= KB_QUEUE_LENGTH then 0 else start
  }

  /** The "unexpected condition #2" reset: an out-of-range n_written becomes 0. */
  function ResetCount(n: int): (r: nat)
    ensures r <= KB_QUEUE_LENGTH
    ensures 0 <= n <= KB_QUEUE_LENGTH ==> r == n
    ensures !(0 <= n <= KB_QUEUE_LENGTH) ==> r == 0
  {
    if n < 0 || n > KB_QUEUE_LENGTH then 0 else n
  }

  /** The `n` items of the ring from slot `start` on, oldest first. */
  function Window(ring: seq<KeyInput>, start: nat, n: nat): (w: seq<KeyInput>)
    requires |ring| == KB_QUEUE_LENGTH && start < KB_QUEUE_LENGTH && n <= KB_QUEUE_LENGTH
    ensures |w| == n
    ensures forall j :: 0 <= j < n ==> w[j] == ring[(start + j) % KB_QUEUE_LENGTH]
  {
    seq(n, j requires 0 <= j < n => ring[(start + j) % KB_QUEUE_LENGTH])
  }

  /** The queue after a key hit: a full queue loses its oldest item. */
  function Pushed(items: seq<KeyInput>, kid: KeyInput): (r: seq<KeyInput>)
    requires |items| <= KB_QUEUE_LENGTH
    ensures |r| == if |items| == KB_QUEUE_LENGTH then |items| else |items| + 1
    ensures r[|r| - 1] == kid
    ensures |items| < KB_QUEUE_LENGTH ==> r[..|items|] == items
    ensures |items| == KB_QUEUE_LENGTH ==> r[..|items| - 1] == items[1..]
  {
    if |items| == KB_QUEUE_LENGTH then items[1..] + [kid] else items + [kid]
  }

  /**
   * The index arithmetic of a push as the source writes it, from the
   * state after the resets: the slot written, then the new start_index
   * and n_written. A push into a full queue moves start_index on by
   * one and does not wrap it.
   */
  function PushIndicesAsWritten(start: nat, n: nat): (r: (nat, nat, nat))
  {
    var index := if start + n >= KB_QUEUE_LENGTH then start + n - KB_QUEUE_LENGTH else start + n;
    if n == KB_QUEUE_LENGTH then (index, start + 1, n) else (index, start, n + 1)
  }

  /** The same arithmetic with start_index wrapped to 0, as the pop of kb_read does. */
  function PushIndices(start: nat, n: nat): (r: (nat, nat, nat))
    requires start < KB_QUEUE_LENGTH && n <= KB_QUEUE_LENGTH
    ensures r.0 < KB_QUEUE_LENGTH && r.1 < KB_QUEUE_LENGTH && r.2 <= KB_QUEUE_LENGTH
    ensures r.0 == (start + n) % KB_QUEUE_LENGTH
  {
    var index := if start + n >= KB_QUEUE_LENGTH then start + n - KB_QUEUE_LENGTH else start + n;
    if n == KB_QUEUE_LENGTH then (index, if start + 1 >= KB_QUEUE_LENGTH then 0 else start + 1, n)
    else (index, start, n + 1)
  }

  /**
   * The two agree except on a full queue whose start_index is the last
   * slot: there the push as written leaves start_index == KB_QUEUE_LENGTH,
   * one past the end of kids[], which is where the next pop reads.
   */
  lemma PushAsWrittenDiffers(start: nat, n: nat)
    requires start < KB_QUEUE_LENGTH && n <= KB_QUEUE_LENGTH
    ensures PushIndicesAsWritten(start, n) != PushIndices(start, n) <==>
      start == KB_QUEUE_LENGTH - 1 && n == KB_QUEUE_LENGTH
    ensures PushIndicesAsWritten(KB_QUEUE_LENGTH - 1, KB_QUEUE_LENGTH).1 == KB_QUEUE_LENGTH
  {
  }

  /** The slot kb_open_internal fills: the first one without a device. */
  function FirstFree(slots: seq<Option<Device>>): (r: Option<nat>)
    ensures r.None? <==> forall i :: 0 <= i < |slots| ==> slots[i].Some?
    ensures r.Some? ==>
      r.value < |slots| && slots[r.value].None? && forall i :: 0 <= i < r.value ==> slots[i].Some?
  {
    if |slots| == 0 then None
    else if slots[0].None? then Some(0)
    else match FirstFree(slots[1..])
      case None => None
      case Some(i) => Some(i + 1)
  }

  /**
   * The outcome of the polling that kb_read does once the queue is
   * found empty: `left` attempts remain, and the j-th sleep brings the
   * key (if any) other threads push meanwhile and the clock check.
   */
  function Polling(arrivals: seq<Option<KeyInput>>, timedOut: seq<bool>, j: nat, left: nat): (r: Option<KeyInput>)
    requires left >= 1
    decreases left
  {
    if left == 1 || (j < |timedOut| && timedOut[j]) then None
    else if j < |arrivals| && arrivals[j].Some? then arrivals[j]
    else Polling(arrivals, timedOut, j + 1, left - 1)
  }

  /** A key found by polling is one of the keys pushed meanwhile, within the first `left - 1` sleeps. */
  lemma {:induction false} PollingFinds(arrivals: seq<Option<KeyInput>>, timedOut: seq<bool>, j: nat, left: nat)
    requires left >= 1
    ensures Polling(arrivals, timedOut, j, left).Some? ==>
      exists i :: j <= i < j + left - 1 && i < |arrivals| && arrivals[i] == Polling(arrivals, timedOut, j, left)
    decreases left
  {
    if left == 1 || (j < |timedOut| && timedOut[j]) {
    } else if j < |arrivals| && arrivals[j].Some? {
      assert arrivals[j] == Polling(arrivals, timedOut, j, left);
    } else {
      PollingFinds(arrivals, timedOut, j + 1, left - 1);
    }
  }

  /** What kb_read returns: the oldest queued key, or the first key pushed while it polls. */
  function ReadOutcome(keyboards: int, items: seq<KeyInput>, msecTimeout: nat,
                       arrivals: seq<Option<KeyInput>>, timedOut: seq<bool>): (r: Option<KeyInput>)
  {
    if keyboards == 0 then None
    else if |items| > 0 then Some(items[0])
    else Polling(arrivals, timedOut, 0, msecTimeout / MAX_TYPING_DELAY + 1)
  }

  /**
   * The keyboard globals of keyboard.c: the kb[] array with
   * number_of_keyboards, and the queue kids[] with start_index and
   * n_written.
   */
  class KeyboardState {
    const kb: array<Option<Device>>
    var numberOfKeyboards: int
    const kids: array<KeyInput>
    var startIndex: int
    var nWritten: int

    /** The queue indices are in range. */
    predicate InRange()
      reads this
    {
      kids.Length == KB_QUEUE_LENGTH && 0 <= startIndex < KB_QUEUE_LENGTH && 0 <= nWritten <= KB_QUEUE_LENGTH
    }

    /** The queued keys, oldest first. */
    function Contents(): (items: seq<KeyInput>)
      requires InRange()
      reads this, kids
      ensures |items| == nWritten
    {
      Window(kids[..], startIndex, nWritten)
    }

    constructor ()
      ensures kb.Length == MAX_NUM_OF_KEYBOARDS && forall i :: 0 <= i < kb.Length ==> kb[i].None?
      ensures numberOfKeyboards == 0
      ensures InRange() && Contents() == []
      ensures fresh(kb) && fresh(kids)
    {
      kb := new Option<Device>[MAX_NUM_OF_KEYBOARDS](_ => None);
      numberOfKeyboards := 0;
      kids := new KeyInput[KB_QUEUE_LENGTH](_ => KeyInput(0, 0, 0, 0));
      startIndex := 0;
      nWritten := 0;
    }

    /**
     * The push of kb_wait_for_input: out-of-range indices are reset
     * first, then the key is stored after the queued ones and a full
     * queue drops its oldest key. start_index wraps to 0 here.
     */
    method Push(kid: KeyInput)
      requires kids.Length == KB_QUEUE_LENGTH
      modifies this, kids
      ensures InRange()
      ensures Contents() == Pushed(Window(old(kids[..]), ResetStart(old(startIndex)), ResetCount(old(nWritten))), kid)
      ensures var p := PushIndices(ResetStart(old(startIndex)), ResetCount(old(nWritten)));
        kids[..] == old(kids[..])[p.0 := kid] && startIndex == p.1 && nWritten == p.2
      ensures numberOfKeyboards == old(numberOfKeyboards)
    {
      if startIndex < 0 || startIndex >= KB_QUEUE_LENGTH {
        startIndex := 0;
      }
      if nWritten < 0 || nWritten > KB_QUEUE_LENGTH {
        nWritten := 0;
      }
      ghost var ring, s0, n0 := kids[..], startIndex as nat, nWritten as nat;
      ghost var p := PushIndices(s0, n0);
      var index := startIndex + nWritten;
      if index >= KB_QUEUE_LENGTH {
        index := index - KB_QUEUE_LENGTH;
      }
      assert index == p.0;
      if nWritten == KB_QUEUE_LENGTH {
        startIndex := startIndex + 1;
        if startIndex >= KB_QUEUE_LENGTH {
          startIndex := 0;
        }
      } else {
        nWritten := nWritten + 1;
      }
      assert startIndex == p.1 && nWritten == p.2;
      kids[index] := kid;
      assert kids[..] == ring[p.0 := kid];
      PushedWindow(ring, s0, n0, kid);
    }

    /** The pop of kb_read: the oldest key, with start_index wrapped to 0. */
    method Pop() returns (kid: Option<KeyInput>)
      requires InRange()
      modifies this
      ensures InRange()
      ensures old(nWritten) == 0 ==> kid.None? && Contents() == old(Contents())
      ensures old(nWritten) > 0 ==> kid == Some(old(Contents())[0]) && Contents() == old(Contents())[1..]
      ensures numberOfKeyboards == old(numberOfKeyboards)
    {
      kid := None;
      if nWritten > 0 {
        ghost var items := Contents();
        kid := Some(kids[startIndex]);
        startIndex := startIndex + 1;
        if startIndex >= KB_QUEUE_LENGTH {
          startIndex := 0;
        }
        nWritten := nWritten - 1;
        PoppedWindow(kids[..], old(startIndex), old(nWritten));
      }
    }

    /**
     * A timed kb_read: 0 and a key, or -1 once the attempts run out or
     * the clock says the timeout has passed; at most
     * msecTimeout / MAX_TYPING_DELAY + 1 polls.
     */
    method Read(msecTimeout: nat, arrivals: seq<Option<KeyInput>>, timedOut: seq<bool>)
      returns (result: int, kid: Option<KeyInput>, polls: nat)
      requires InRange()
      modifies this, kids
      ensures InRange()
      ensures result == 0 <==> kid.Some?
      ensures result == 0 || result == -1
      ensures kid == ReadOutcome(old(numberOfKeyboards), old(Contents()), msecTimeout, arrivals, timedOut)
      ensures polls <= msecTimeout / MAX_TYPING_DELAY + 1
    {
      var attempts: nat := msecTimeout / MAX_TYPING_DELAY + 1;
      ghost var items := Contents();
      var j: nat := 0;
      result, kid, polls := -1, None, 0;
      if numberOfKeyboards != 0 {
        kid := Pop();
        polls := 1;
        if kid.None? {
          assert items == [];
          while true
            invariant InRange() && Contents() == [] && numberOfKeyboards == old(numberOfKeyboards)
            invariant 1 <= attempts && polls == j + 1 && j + attempts == msecTimeout / MAX_TYPING_DELAY + 1
            invariant Polling(arrivals, timedOut, 0, msecTimeout / MAX_TYPING_DELAY + 1)
              == Polling(arrivals, timedOut, j, attempts)
            invariant kid.None?
            decreases attempts
          {
            if j < |arrivals| && arrivals[j].Some? {
              Push(arrivals[j].value);
            }
            attempts := attempts - 1;
            if attempts == 0 || (j < |timedOut| && timedOut[j]) {
              break;
            }
            kid := Pop();
            polls := polls + 1;
            j := j + 1;
            if kid.Some? {
              break;
            }
          }
        }
        if kid.Some? {
          result := 0;
        }
      }
    }

    /** The slot filling of kb_open_internal: the first free slot of kb[] takes the device. */
    method AddKeyboard(dev: Device) returns (result: int)
      modifies kb, this
      ensures result == 0 || result == -1
      ensures result == -1 <==> FirstFree(old(kb[..])).None?
      ensures result == 0 ==>
        kb[..] == old(kb[..])[FirstFree(old(kb[..])).value := Some(dev)] && numberOfKeyboards == old(numberOfKeyboards) + 1
      ensures result == -1 ==> kb[..] == old(kb[..]) && numberOfKeyboards == old(numberOfKeyboards)
      ensures startIndex == old(startIndex) && nWritten == old(nWritten)
    {
      result := -1;
      var i := 0;
      while i < kb.Length
        invariant 0 <= i <= kb.Length
        invariant forall a :: 0 <= a < i ==> kb[a].Some?
        invariant kb[..] == old(kb[..]) && numberOfKeyboards == old(numberOfKeyboards)
      {
        if kb[i].None? {
          FirstFreeAt(kb[..], i);
          kb[i] := Some(dev);
          numberOfKeyboards := numberOfKeyboards + 1;
          result := 0;
          return;
        }
        i := i + 1;
      }
      assert FirstFree(kb[..]).None?;
    }
  }

  /** The window after a push is the window before, pushed. */
  lemma PushedWindow(ring: seq<KeyInput>, start: nat, n: nat, kid: KeyInput)
    requires |ring| == KB_QUEUE_LENGTH && start < KB_QUEUE_LENGTH && n <= KB_QUEUE_LENGTH
    ensures var p := PushIndices(start, n);
      Window(ring[p.0 := kid], p.1, p.2) == Pushed(Window(ring, start, n), kid)
  {
    var p := PushIndices(start, n);
    var w := Window(ring[p.0 := kid], p.1, p.2);
    var v := Pushed(Window(ring, start, n), kid);
    assert |w| == |v|;
    forall j | 0 <= j < |w|
      ensures w[j] == v[j]
    {
      if n == KB_QUEUE_LENGTH {
        if j < n - 1 {
          assert (p.1 + j) % KB_QUEUE_LENGTH == (start + j + 1) % KB_QUEUE_LENGTH;
        }
      }
    }
  }

  /** The window after a pop is the window before without its first key. */
  lemma PoppedWindow(ring: seq<KeyInput>, start: nat, n: nat)
    requires |ring| == KB_QUEUE_LENGTH && start < KB_QUEUE_LENGTH && 0 < n <= KB_QUEUE_LENGTH
    ensures Window(ring, if start + 1 >= KB_QUEUE_LENGTH then 0 else start + 1, n - 1) == Window(ring, start, n)[1..]
  {
    var s := if start + 1 >= KB_QUEUE_LENGTH then 0 else start + 1;
    var w, v := Window(ring, s, n - 1), Window(ring, start, n)[1..];
    forall j | 0 <= j < n - 1
      ensures w[j] == v[j]
    {
      assert (s + j) % KB_QUEUE_LENGTH == (start + j + 1) % KB_QUEUE_LENGTH;
    }
  }

  /** A free slot with only used slots before it is the first free one. */
  lemma FirstFreeAt(slots: seq<Option<Device>>, i: nat)
    requires i < |slots| && slots[i].None? && forall a :: 0 <= a < i ==> slots[a].Some?
    ensures FirstFree(slots) == Some(i)
  {
  }

  // ---------------------------------------------------------------------
  // The keyboard count
  // ---------------------------------------------------------------------

  /** A REG_DWORD value. */
  type DWord = x: nat | x < 0x1_0000_0000

  /** The C cast (int) of a DWORD: values of 2^31 and more become negative. */
  function ToInt(d: DWord): (r: int)
    ensures -0x8000_0000 <= r < 0x8000_0000
    ensures r % 0x1_0000_0000 == d
  {
    if d < 0x8000_0000 then d else d - 0x1_0000_0000
  }

  /**
   * What winx_query_dev_count reads from the three Enum keys: the Count
   * value when it is a REG_DWORD, None when a key or value cannot be read
   * or has another type.
   */
  function DevCount(defaultValue: int, reads_: seq<Option<DWord>>): int
  {
    if |reads_| == 0 then defaultValue
    else
      var c := DevCount(defaultValue, reads_[..|reads_| - 1]);
      match reads_[|reads_| - 1]
      case None => c
      case Some(d) => if ToInt(d) > c then ToInt(d) else c
  }

  /** The count is the largest of the default and every value read, and is one of them. */
  lemma {:induction false} DevCountMax(defaultValue: int, reads_: seq<Option<DWord>>)
    ensures DevCount(defaultValue, reads_) >= defaultValue
    ensures forall i :: 0 <= i < |reads_| && reads_[i].Some? ==> DevCount(defaultValue, reads_) >= ToInt(reads_[i].value)
    ensures DevCount(defaultValue, reads_) == defaultValue ||
      exists i :: 0 <= i < |reads_| && reads_[i].Some? && DevCount(defaultValue, reads_) == ToInt(reads_[i].value)
  {
    if |reads_| > 0 {
      var init := reads_[..|reads_| - 1];
      DevCountMax(defaultValue, init);
      assert forall i :: 0 <= i < |init| ==> init[i] == reads_[i];
    }
  }

  /** winx_query_dev_count over the values it manages to read. */
  method QueryDevCount(defaultValue: int, reads_: seq<Option<DWord>>) returns (count: int)
    ensures count == DevCount(defaultValue, reads_)
  {
    count := defaultValue;
    for i := 0 to |reads_|
      invariant count == DevCount(defaultValue, reads_[..i])
    {
      assert reads_[..i + 1][..i] == reads_[..i];
      if reads_[i].Some? {
        count := if count > ToInt(reads_[i].value) then count else ToInt(reads_[i].value);
      }
    }
    assert reads_[..|reads_|] == reads_;
  }

  /** The version code winx_get_os_version gives Windows XP. */
  const WINDOWS_XP: int := 51

  /**
   * query_keyboard_count: on Windows XP, which may leave USB keyboards
   * out of the class count, the HID count is added when it is at least
   * the class count, and a lone keyboard counts as two.
   */
  function KeyboardCount(osVersion: int, total: int, hid: int): (count: int)
  {
    if osVersion == WINDOWS_XP then
      if hid > 0 then (if total <= hid then total + hid else total)
      else (if total == 1 then 2 else total)
    else total
  }

  /** The count is never below the class count, and exceeds it only on Windows XP. */
  lemma KeyboardCountBounds(osVersion: int, total: int, hid: int)
    ensures KeyboardCount(osVersion, total, hid) >= total
    ensures KeyboardCount(osVersion, total, hid) > total <==>
      osVersion == WINDOWS_XP && ((hid > 0 && total <= hid) || (hid <= 0 && total == 1))
    ensures osVersion == WINDOWS_XP && 0 <= total <= hid ==> KeyboardCount(osVersion, total, hid) >= hid
  {
  }
}
