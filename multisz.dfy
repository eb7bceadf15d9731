// The REG_MULTI_SZ walks shared by bootexctrl.c and zenwinx's reg.c: a
// value is a run of NUL-terminated strings, visited with
// `for(i = 0; i < length;) { len = strlen(value + i) + 1; ...; i += len; }`,
// and two BootExecute commands are the same when they are equal, or one
// is "autocheck " followed by the other, ignoring case.

module MultiSz {
  import opened Types

  const NUL: char := '\0'

  /** A C string: no NUL inside. */
  predicate NoNul(s: seq<char>)
  {
    forall k :: 0 <= k < |s| ==> s[k] != NUL
  }

  /** strlen(b + i) + i: the first NUL at or after `i`. */
  function NulFrom(b: seq<char>, i: nat): (p: nat)
    requires i < |b| && b[|b| - 1] == NUL
    ensures i <= p < |b| && b[p] == NUL
    ensures forall k :: i <= k < p ==> b[k] != NUL
    decreases |b| - i
  {
    if b[i] == NUL then i else NulFrom(b, i + 1)
  }

  /** A NUL at `q` bounds the one found from `i`. */
  lemma NulFromAtMost(b: seq<char>, i: nat, q: nat)
    requires i <= q < |b| && b[q] == NUL && b[|b| - 1] == NUL
    ensures NulFrom(b, i) <= q
  {
  }

  /** Two buffers that agree from `i` up to a NUL find it at the same place. */
  lemma NulFromAgree(b: seq<char>, c: seq<char>, i: nat)
    requires i < |b| && b[|b| - 1] == NUL && i < |c| && c[|c| - 1] == NUL
    requires forall k :: i <= k <= NulFrom(b, i) ==> k < |c| && c[k] == b[k]
    ensures NulFrom(c, i) == NulFrom(b, i)
  {
    NulFromAtMost(c, i, NulFrom(b, i));
  }

  /** A string without NUL followed by a NUL is found whole. */
  lemma NulAfter(b: seq<char>, i: nat, s: seq<char>)
    requires i + |s| < |b| && b[|b| - 1] == NUL && b[i..i + |s|] == s && NoNul(s) && b[i + |s|] == NUL
    ensures NulFrom(b, i) == i + |s|
  {
    NulFromAtMost(b, i, i + |s|);
    assert forall k :: i <= k < i + |s| ==> b[k] == s[k - i];
  }

  /** The strings the walk visits from index `i` while `i < limit`. */
  function Entries(b: seq<char>, i: nat, limit: nat): (es: seq<seq<char>>)
    requires limit < |b| && b[|b| - 1] == NUL && i <= |b|
    ensures forall k :: 0 <= k < |es| ==> NoNul(es[k])
    decreases |b| - i
  {
    if i >= limit then []
    else
      var p := NulFrom(b, i);
      [b[i..p]] + Entries(b, p + 1, limit)
  }

  /**
   * One step of the walk: when the strings before `i` have been walked,
   * the one at `i` is next.
   */
  lemma {:induction false} EntriesStep(b: seq<char>, i: nat, limit: nat, walked: seq<seq<char>>)
    requires limit < |b| && b[|b| - 1] == NUL && i < limit
    requires Entries(b, 0, limit) == walked + Entries(b, i, limit)
    ensures Entries(b, 0, limit) == (walked + [b[i..NulFrom(b, i)]]) + Entries(b, NulFrom(b, i) + 1, limit)
  {
  }

  /** The walk from `i` before the limit: the string at `i`, then the walk after its NUL. */
  lemma EntriesUnfold(b: seq<char>, i: nat, limit: nat)
    requires limit < |b| && b[|b| - 1] == NUL && i < limit
    ensures Entries(b, i, limit) == [b[i..NulFrom(b, i)]] + Entries(b, NulFrom(b, i) + 1, limit)
  {
  }

  /** The index at which the walk stops. */
  function WalkEnd(b: seq<char>, i: nat, limit: nat): (e: nat)
    requires limit < |b| && b[|b| - 1] == NUL && i <= |b|
    ensures i <= e <= |b| && (i >= limit ==> e == i) && (i < limit ==> e >= limit)
    decreases |b| - i
  {
    if i >= limit then i else WalkEnd(b, NulFrom(b, i) + 1, limit)
  }

  /** A buffer whose last two characters are NUL ends the walk to its last index exactly there. */
  lemma {:induction false} WalkEndExact(b: seq<char>, i: nat)
    requires |b| >= 2 && b[|b| - 1] == NUL && b[|b| - 2] == NUL && i <= |b| - 1
    ensures WalkEnd(b, i, |b| - 1) == |b| - 1
    decreases |b| - i
  {
    if i < |b| - 1 {
      NulFromAtMost(b, i, |b| - 2);
      WalkEndExact(b, NulFrom(b, i) + 1);
    }
  }

  /**
   * A buffer `w` that agrees with `d` before the last index of `d` is
   * walked through the strings of `d` first.
   */
  lemma EntriesAgree(d: seq<char>, w: seq<char>, i: nat)
    requires |d| >= 2 && d[|d| - 1] == NUL && d[|d| - 2] == NUL && i <= |d| - 1
    requires |w| >= |d| && w[|w| - 1] == NUL && forall k :: 0 <= k < |d| - 1 ==> w[k] == d[k]
    ensures Entries(w, i, |w| - 1) == Entries(d, i, |d| - 1) + Entries(w, |d| - 1, |w| - 1)
  {
    EntriesSplit(w, i, |d| - 1, |w| - 1);
    EntriesPrefix(d, w, i);
    WalkPrefix(d, w, i);
    WalkEndExact(d, i);
  }

  /** Walking up to `m` first, then on from where that walk stopped. */
  lemma {:induction false} EntriesSplit(b: seq<char>, i: nat, m: nat, limit: nat)
    requires limit < |b| && b[|b| - 1] == NUL && i <= |b| && m <= limit
    ensures Entries(b, i, limit) == Entries(b, i, m) + Entries(b, WalkEnd(b, i, m), limit)
    decreases |b| - i
  {
    if i < m {
      var p := NulFrom(b, i);
      EntriesSplit(b, p + 1, m, limit);
      var x, head, tail := b[i..p], Entries(b, p + 1, m), Entries(b, WalkEnd(b, p + 1, m), limit);
      assert WalkEnd(b, i, m) == WalkEnd(b, p + 1, m);
      EntriesUnfold(b, i, limit);
      EntriesUnfold(b, i, m);
      ConsAssoc(x, head, tail);
    } else {
      assert Entries(b, i, m) == [] && WalkEnd(b, i, m) == i;
    }
  }

  /** Before the last index of a list ended by "\0\0", a buffer that agrees with it is walked alike. */
  lemma {:induction false} EntriesPrefix(d: seq<char>, w: seq<char>, i: nat)
    requires |d| >= 2 && d[|d| - 1] == NUL && d[|d| - 2] == NUL && i <= |d| - 1
    requires |w| >= |d| && w[|w| - 1] == NUL && forall k :: 0 <= k < |d| - 1 ==> w[k] == d[k]
    ensures Entries(w, i, |d| - 1) == Entries(d, i, |d| - 1)
    decreases |d| - i
  {
    if i < |d| - 1 {
      NulFromAtMost(d, i, |d| - 2);
      NulFromAgree(d, w, i);
      var p := NulFrom(d, i);
      assert w[i..p] == d[i..p];
      EntriesPrefix(d, w, p + 1);
    }
  }

  /** ... and stops at the same index. */
  lemma {:induction false} WalkPrefix(d: seq<char>, w: seq<char>, i: nat)
    requires |d| >= 2 && d[|d| - 1] == NUL && d[|d| - 2] == NUL && i <= |d| - 1
    requires |w| >= |d| && w[|w| - 1] == NUL && forall k :: 0 <= k < |d| - 1 ==> w[k] == d[k]
    ensures WalkEnd(w, i, |d| - 1) == WalkEnd(d, i, |d| - 1)
    decreases |d| - i
  {
    if i < |d| - 1 {
      NulFromAtMost(d, i, |d| - 2);
      NulFromAgree(d, w, i);
      WalkPrefix(d, w, NulFrom(d, i) + 1);
    }
  }

  lemma ConsAssoc<T>(x: T, a: seq<T>, c: seq<T>)
    ensures [x] + (a + c) == ([x] + a) + c
  {
  }

  /**
   * Appending a command after the list: the walk of
   * `d[..|d| - 1] + cmd + "\0\0"` visits the strings of `d`, then `cmd`.
   */
  lemma {:induction false} EntriesAppend(d: seq<char>, cmd: seq<char>)
    requires |d| >= 2 && d[|d| - 1] == NUL && d[|d| - 2] == NUL && NoNul(cmd)
    ensures var w := d[..|d| - 1] + cmd + [NUL, NUL];
      Entries(w, 0, |w| - 1) == Entries(d, 0, |d| - 1) + [cmd]
  {
    var w := d[..|d| - 1] + cmd + [NUL, NUL];
    EntriesAgree(d, w, 0);
    EntriesLast(w, |d| - 1, cmd);
  }

  /** The last string of a list terminated by "\0\0" is visited alone. */
  lemma {:induction false} EntriesLast(w: seq<char>, i: nat, cmd: seq<char>)
    requires i + |cmd| + 2 == |w| && w[i..i + |cmd|] == cmd && NoNul(cmd)
    requires w[|w| - 2] == NUL && w[|w| - 1] == NUL
    ensures Entries(w, i, |w| - 1) == [cmd]
  {
    NulAfter(w, i, cmd);
  }

  /** Each string followed by its NUL, as strcpy leaves them one after the other. */
  function Join(es: seq<seq<char>>): (b: seq<char>)
  {
    if |es| == 0 then [] else Join(es[..|es| - 1]) + es[|es| - 1] + [NUL]
  }

  /** Join from the front. */
  lemma {:induction false} JoinCons(es: seq<seq<char>>)
    requires |es| > 0
    ensures Join(es) == es[0] + [NUL] + Join(es[1..])
    decreases |es|
  {
    if |es| > 1 {
      var init := es[..|es| - 1];
      JoinCons(init);
      assert init[1..] == es[1..][..|es[1..]| - 1];
      assert init[0] == es[0];
    } else {
      assert es[..0] == [] && es[1..] == [];
    }
  }

  /**
   * The round trip of the unregister loop: a list of C strings joined
   * and closed by one more NUL is walked back into the same list.
   */
  lemma {:induction false} EntriesOfJoin(b: seq<char>, i: nat, es: seq<seq<char>>)
    requires forall k :: 0 <= k < |es| ==> NoNul(es[k])
    requires i <= |b| && b[i..] == Join(es) + [NUL]
    ensures b[|b| - 1] == NUL && Entries(b, i, |b| - 1) == es
    decreases |es|
  {
    assert b[|b| - 1] == b[i..][|b| - 1 - i];
    if |es| > 0 {
      var e := es[0];
      var next := i + |e| + 1;
      JoinCons(es);
      SplitAt(b, i, e, Join(es[1..]) + [NUL]);
      EntriesOfJoin(b, next, es[1..]);
      EntriesHead(b, i, |b| - 1, e, next);
      assert es == [e] + es[1..];
    }
  }

  /** The suffix `e + [NUL] + rest` of `b` from `i`, read piece by piece. */
  lemma SplitAt(b: seq<char>, i: nat, e: seq<char>, rest: seq<char>)
    requires i <= |b| && b[i..] == e + [NUL] + rest
    ensures i + |e| < |b| && b[i..i + |e|] == e && b[i + |e|] == NUL
    ensures b[i + |e| + 1..] == rest
  {
    forall k | 0 <= k < |e| ensures b[i..i + |e|][k] == e[k] {
      assert b[i + k] == b[i..][k];
    }
    assert b[i + |e|] == b[i..][|e|];
    var next := i + |e| + 1;
    forall k | 0 <= k < |b| - next ensures b[next..][k] == rest[k] {
      assert b[next + k] == b[i..][|e| + 1 + k];
    }
  }

  /** A string without NUL followed by a NUL at `i` is the first one the walk visits. */
  lemma {:induction false} EntriesHead(b: seq<char>, i: nat, limit: nat, s: seq<char>, next: nat)
    requires limit < |b| && b[|b| - 1] == NUL && i < limit
    requires i + |s| < |b| && b[i..i + |s|] == s && NoNul(s) && b[i + |s|] == NUL && next == i + |s| + 1
    ensures Entries(b, i, limit) == [s] + Entries(b, next, limit)
  {
    NulAfter(b, i, s);
    EntriesUnfold(b, i, limit);
  }

  // ---------------------------------------------------------------------
  // cmd_compare
  // ---------------------------------------------------------------------

  const AUTOCHECK: seq<char> := "autocheck "

  /**
   * cmd_compare: 1 when the registry entry is the command or
   * "autocheck " and the command, ignoring case; -1 when the longer
   * form cannot be allocated; 0 otherwise.
   */
  function CmdCompare(regCmd: seq<char>, cmd: seq<char>, allocOk: bool): int
  {
    if EqualsIgnoreCase(cmd, regCmd) then 1
    else if !allocOk then -1
    else if EqualsIgnoreCase(AUTOCHECK + cmd, regCmd) then 1
    else 0
  }

  /** The three results and when each is given. */
  lemma CmdCompareCases(regCmd: seq<char>, cmd: seq<char>, allocOk: bool)
    ensures CmdCompare(regCmd, cmd, allocOk) > 0 <==>
      EqualsIgnoreCase(regCmd, cmd) || (allocOk && EqualsIgnoreCase(regCmd, AUTOCHECK + cmd))
    ensures CmdCompare(regCmd, cmd, allocOk) < 0 <==> !allocOk && !EqualsIgnoreCase(regCmd, cmd)
    ensures -1 <= CmdCompare(regCmd, cmd, allocOk) <= 1
    ensures CmdCompare(cmd, cmd, allocOk) == 1
  {
  }

  /** Some visited string is the command. */
  predicate AnyMatch(es: seq<seq<char>>, cmd: seq<char>, allocOk: bool)
  {
    exists k :: 0 <= k < |es| && CmdCompare(es[k], cmd, allocOk) > 0
  }

  /** The strings an unregister keeps: those that are not the command, in their order. */
  function Kept(es: seq<seq<char>>, cmd: seq<char>, allocOk: bool): (r: seq<seq<char>>)
    ensures |r| <= |es|
    ensures forall k :: 0 <= k < |r| ==> r[k] in es && CmdCompare(r[k], cmd, allocOk) <= 0
  {
    if |es| == 0 then []
    else
      var init := Kept(es[..|es| - 1], cmd, allocOk);
      if CmdCompare(es[|es| - 1], cmd, allocOk) <= 0 then init + [es[|es| - 1]] else init
  }

  /** Every string that is not the command is kept, and the command is not. */
  lemma {:induction false} KeptExactly(es: seq<seq<char>>, cmd: seq<char>, allocOk: bool)
    ensures forall e :: e in es && CmdCompare(e, cmd, allocOk) <= 0 ==> e in Kept(es, cmd, allocOk)
    ensures !AnyMatch(Kept(es, cmd, allocOk), cmd, allocOk)
  {
    if |es| > 0 {
      KeptExactly(es[..|es| - 1], cmd, allocOk);
      forall e | e in es && CmdCompare(e, cmd, allocOk) <= 0
        ensures e in Kept(es, cmd, allocOk)
      {
        if e != es[|es| - 1] {
          var k :| 0 <= k < |es| && es[k] == e;
          assert es[..|es| - 1][k] == e;
        }
      }
    }
  }

  // ---------------------------------------------------------------------
  // The walks, as both programs loop over a buffer
  // ---------------------------------------------------------------------

  /**
   * `len = strlen(data + i) + 1`: the string at `i` and the index after
   * its NUL, which is where the walk goes on.
   */
  method NextString(b: seq<char>, limit: nat, i: nat, ghost walked: seq<seq<char>>) returns (s: seq<char>, next: nat)
    requires limit < |b| && b[|b| - 1] == NUL && i < limit
    requires Entries(b, 0, limit) == walked + Entries(b, i, limit)
    ensures i < next <= |b| && s == b[i..next - 1] && NoNul(s) && b[next - 1] == NUL
    ensures Entries(b, 0, limit) == (walked + [s]) + Entries(b, next, limit)
    ensures WalkEnd(b, next, limit) == WalkEnd(b, i, limit)
  {
    var p := NulFrom(b, i);
    s := b[i..p];
    next := p + 1;
    EntriesStep(b, i, limit, walked);
  }

  /**
   * The search loop of register_cmd and winx_register_boot_exec_command:
   * walks the strings until one is the command; when none is, it stops
   * where the walk ends.
   */
  method FindCmd(b: seq<char>, limit: nat, cmd: seq<char>, allocOk: bool) returns (found: bool, i: nat)
    requires limit < |b| && b[|b| - 1] == NUL
    ensures found <==> AnyMatch(Entries(b, 0, limit), cmd, allocOk)
    ensures !found ==> i == WalkEnd(b, 0, limit)
  {
    found, i := false, 0;
    ghost var walked: seq<seq<char>> := [];
    while i < limit
      invariant i <= |b|
      invariant Entries(b, 0, limit) == walked + Entries(b, i, limit)
      invariant WalkEnd(b, 0, limit) == WalkEnd(b, i, limit)
      invariant !AnyMatch(walked, cmd, allocOk)
      decreases |b| - i
    {
      var s, next := NextString(b, limit, i, walked);
      if CmdCompare(s, cmd, allocOk) > 0 {
        assert Entries(b, 0, limit)[|walked|] == s;
        found := true;
        break;
      }
      walked := walked + [s];
      i := next;
    }
  }

  /**
   * The copy loop of unregister_cmd and
   * winx_unregister_boot_exec_command: every string that is not the
   * command is copied after the previous one, with its NUL.
   */
  method CopyOthers(b: seq<char>, limit: nat, cmd: seq<char>, allocOk: bool) returns (newData: seq<char>)
    requires limit < |b| && b[|b| - 1] == NUL
    ensures newData == Join(Kept(Entries(b, 0, limit), cmd, allocOk))
  {
    newData := [];
    var i := 0;
    ghost var walked: seq<seq<char>> := [];
    while i < limit
      invariant i <= |b|
      invariant Entries(b, 0, limit) == walked + Entries(b, i, limit)
      invariant newData == Join(Kept(walked, cmd, allocOk))
      decreases |b| - i
    {
      var s, next := NextString(b, limit, i, walked);
      KeptSnoc(walked, s, cmd, allocOk);
      if CmdCompare(s, cmd, allocOk) <= 0 {
        newData := newData + s + [NUL];
      }
      walked := walked + [s];
      i := next;
    }
    assert Entries(b, i, limit) == [];
    assert walked + [] == walked;
  }

  /** Kept and Join over one more string. */
  lemma {:induction false} KeptSnoc(es: seq<seq<char>>, e: seq<char>, cmd: seq<char>, allocOk: bool)
    ensures Join(Kept(es + [e], cmd, allocOk)) ==
      if CmdCompare(e, cmd, allocOk) <= 0 then Join(Kept(es, cmd, allocOk)) + e + [NUL] else Join(Kept(es, cmd, allocOk))
  {
    assert (es + [e])[..|es|] == es;
    var k := Kept(es, cmd, allocOk);
    assert (k + [e])[..|k|] == k;
  }
}
