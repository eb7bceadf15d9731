// The keyboard counts of the trunk's zenwinx (trunk/src/dll/zenwinx/keyboard.c).
//
// The trunk keeps the queue and kb[] of the earlier version unchanged,
// so those are the ones of module Keyboard; what differs is how the
// Count values of the Enum keys are combined.

module KeyboardTrunk {
  import opened Types
  import Keyboard

  /** Some Count value was read. */
  predicate AnyRead(reads_: seq<Option<Keyboard.DWord>>)
  {
    exists i :: 0 <= i < |reads_| && reads_[i].Some?
  }

  /**
   * kbdCount and old_kbdCount of query_keyboard_count_class and
   * query_keyboard_count_hid after the given reads: each value read
   * replaces kbdCount unless old_kbdCount is larger.
   */
  function RunningCount(defaultValue: int, reads_: seq<Option<Keyboard.DWord>>): (int, int)
  {
    if |reads_| == 0 then (defaultValue, 0)
    else
      var p := RunningCount(defaultValue, reads_[..|reads_| - 1]);
      match reads_[|reads_| - 1]
      case None => p
      case Some(d) =>
        var k := if p.1 > Keyboard.ToInt(d) then p.1 else Keyboard.ToInt(d);
        (k, k)
  }

  /**
   * The default survives only when nothing is read; otherwise the count
   * is the largest of 0 and the values read, i.e. the earlier
   * version's maximum with a default of 0.
   */
  lemma {:induction false} RunningCountIsMax(defaultValue: int, reads_: seq<Option<Keyboard.DWord>>)
    ensures RunningCount(defaultValue, reads_) ==
      if AnyRead(reads_) then (Keyboard.DevCount(0, reads_), Keyboard.DevCount(0, reads_)) else (defaultValue, 0)
  {
    if |reads_| > 0 {
      var init := reads_[..|reads_| - 1];
      RunningCountIsMax(defaultValue, init);
      assert forall i :: 0 <= i < |init| ==> init[i] == reads_[i];
      if !AnyRead(init) {
        Keyboard.DevCountMax(0, init);
        assert Keyboard.DevCount(0, init) == 0;
      }
      if AnyRead(reads_) && !AnyRead(init) {
        assert reads_[|reads_| - 1].Some?;
      }
    }
  }

  /**
   * The two counts differ from winx_query_dev_count in one case: a
   * Count value of 0 gives 0 here where the earlier version keeps its
   * default of 1.
   */
  lemma ClassCountOfZero()
    ensures RunningCount(1, [Some(0), None, None]).0 == 0
    ensures Keyboard.DevCount(1, [Some(0), None, None]) == 1
  {
    var r: seq<Option<Keyboard.DWord>> := [Some(0), None, None];
    var r1, r2: seq<Option<Keyboard.DWord>> := [Some(0)], [Some(0), None];
    assert r[..2] == r2 && r2[..1] == r1 && r1[..0] == [];
    assert RunningCount(1, r1) == (0, 0) && Keyboard.DevCount(1, r1) == 1;
    assert RunningCount(1, r2) == (0, 0) && Keyboard.DevCount(1, r2) == 1;
  }

  /**
   * query_keyboard_count_class (default 1) and query_keyboard_count_hid
   * (default 0): the loop over the Enum keys, where a failure at the
   * last key returns at once.
   */
  method QueryCount(defaultValue: int, reads_: seq<Option<Keyboard.DWord>>) returns (count: int)
    ensures count == RunningCount(defaultValue, reads_).0
    ensures !AnyRead(reads_) ==> count == defaultValue
    ensures AnyRead(reads_) ==>
      count >= 0 && forall i :: 0 <= i < |reads_| && reads_[i].Some? ==> count >= Keyboard.ToInt(reads_[i].value)
  {
    count := defaultValue;
    var oldCount := 0;
    var i := 0;
    while i < |reads_|
      invariant 0 <= i <= |reads_|
      invariant (count, oldCount) == RunningCount(defaultValue, reads_[..i])
    {
      assert reads_[..i + 1][..i] == reads_[..i];
      if reads_[i].None? {
        if i == |reads_| - 1 {
          assert reads_[..i + 1] == reads_;
          break;
        }
      } else {
        count := Keyboard.ToInt(reads_[i].value);
        if oldCount > count {
          count := oldCount;
        }
        oldCount := count;
      }
      i := i + 1;
    }
    assert reads_[..|reads_|] == reads_;
    RunningCountIsMax(defaultValue, reads_);
    Keyboard.DevCountMax(0, reads_);
  }
}
