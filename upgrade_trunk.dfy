/**
 * The upgrade check of the later GUI (trunk/src/wxgui/upgrade.cpp): the
 * first line of the downloaded version file and the title of the running
 * program are read with `swscanf` into three numbers each, packed into
 * `mj*10000 + mn*100 + rev`, and an upgrade is offered when the published
 * release is greater, or equal while the running one is an alpha, beta or
 * release candidate.
 */
module UpgradeTrunk {
  import opened Types
  import opened Scanf
  import UpgradeSrc

  /** The product name that the title starts with. */
  const PRODUCT: string := "UltraDefrag"

  /** `"UltraDefrag %u.%u.%u"`: the name, a blank (any white space), then the numbers. */
  const TITLE_FORMAT: seq<Directive> := Literals(PRODUCT) + [Blank] + NUMBERS

  // ---------------------------------------------------------------------
  // Reading and packing the numbers
  // ---------------------------------------------------------------------

  /**
   * The three `int` variables after `swscanf`: the scanned values in
   * order, and for each variable it did not assign the value it held
   * before (`unset`; the source leaves them uninitialised).
   */
  function Stored(scanned: seq<int>, unset: seq<int>): (r: seq<int>)
    requires |unset| == 3
    ensures |r| == 3
    ensures forall k :: 0 <= k < 3 ==> r[k] == (if k < |scanned| then scanned[k] else unset[k])
  {
    if |scanned| >= 3 then scanned[..3] else scanned + unset[|scanned|..]
  }

  /** `mj * 10000 + mn * 100 + rev` in a 32-bit `int`. */
  function VersionCode(mj: int, mn: int, rev: int): int
  {
    Int32(mj * 10000 + mn * 100 + rev)
  }

  /** The code of the published version: `swscanf(lv, "%u.%u.%u", ...)`. */
  function LastCode(line: string, unset: seq<int>): int
    requires |unset| == 3
  {
    var n := Stored(Scan(line, 0, NUMBERS).0, unset);
    VersionCode(n[0], n[1], n[2])
  }

  /** The code of the running version: `swscanf(cv, "UltraDefrag %u.%u.%u", ...)`. */
  function CurrentCode(title: string, unset: seq<int>): int
    requires |unset| == 3
  {
    var n := Stored(Scan(title, 0, TITLE_FORMAT).0, unset);
    VersionCode(n[0], n[1], n[2])
  }

  /** The running version is unstable when its lower-cased title contains "alpha", "beta" or "rc". */
  predicate Unstable(title: string)
  {
    var l := LowerStr(title);
    Contains(l, "alpha") || Contains(l, "beta") || Contains(l, "rc")
  }

  /** `upgrade = last > current`, also set when the codes are equal and the running version is unstable. */
  predicate Upgrade(last: int, current: int, unstable: bool)
  {
    last > current || (last == current && unstable)
  }

  /** The line the dialog is posted with, if any, once the version file has been read (None: the download failed). */
  function Offer(firstLine: Option<string>, title: string, lastUnset: seq<int>, currentUnset: seq<int>): Option<string>
    requires |lastUnset| == 3 && |currentUnset| == 3
  {
    match firstLine
    case None => None
    case Some(line) =>
      var lv := Trim(line);
      if Upgrade(LastCode(lv, lastUnset), CurrentCode(title, currentUnset), Unstable(title)) then Some(lv) else None
  }

  // ---------------------------------------------------------------------
  // Versions as the release process writes them
  // ---------------------------------------------------------------------

  /** The program's title for a version, as in "UltraDefrag 5.0.0 beta2". */
  function Title(v: UpgradeSrc.Version): string
  {
    PRODUCT + " " + UpgradeSrc.Render(v)
  }

  /** Numbers whose packed code fits an `int` and keeps minor and revision apart. */
  predicate Fits(v: UpgradeSrc.Version)
  {
    v.mj < 214748 && v.mn < 100 && v.rev < 100 && (v.stage.Final? || v.stage.n < INT_MOD / 2)
  }

  /** `a` has a smaller `mj.mn.rev` than `b`, by major, minor, then revision. */
  predicate NumbersBefore(a: UpgradeSrc.Version, b: UpgradeSrc.Version)
  {
    a.mj < b.mj || (a.mj == b.mj && (a.mn < b.mn || (a.mn == b.mn && a.rev < b.rev)))
  }

  predicate SameNumbers(a: UpgradeSrc.Version, b: UpgradeSrc.Version)
  {
    a.mj == b.mj && a.mn == b.mn && a.rev == b.rev
  }

  // ---------------------------------------------------------------------
  // Properties of the packing and of the parse
  // ---------------------------------------------------------------------

  /** For numbers that fit, the packed code orders versions by their numbers. */
  lemma {:induction false} CodeOrder(a: UpgradeSrc.Version, b: UpgradeSrc.Version)
    requires Fits(a) && Fits(b)
    ensures VersionCode(a.mj, a.mn, a.rev) < VersionCode(b.mj, b.mn, b.rev) <==> NumbersBefore(a, b)
    ensures VersionCode(a.mj, a.mn, a.rev) == VersionCode(b.mj, b.mn, b.rev) <==> SameNumbers(a, b)
  {
    var xa := a.mj * 10000 + a.mn * 100 + a.rev;
    var xb := b.mj * 10000 + b.mn * 100 + b.rev;
    assert 0 <= xa < INT_MOD / 2 && 0 <= xb < INT_MOD / 2;
    assert VersionCode(a.mj, a.mn, a.rev) == xa && VersionCode(b.mj, b.mn, b.rev) == xb;
    assert a.mn * 100 + a.rev < 10000 && b.mn * 100 + b.rev < 10000;
    if a.mj < b.mj {
      assert xa < a.mj * 10000 + 10000 <= b.mj * 10000 <= xb;
    } else if a.mj > b.mj {
      assert xb < b.mj * 10000 + 10000 <= a.mj * 10000 <= xa;
    } else if a.mn < b.mn {
      assert a.mn * 100 + a.rev < a.mn * 100 + 100 <= b.mn * 100;
    } else if a.mn > b.mn {
      assert b.mn * 100 + b.rev < b.mn * 100 + 100 <= a.mn * 100;
    }
  }

  /** The pieces of a title. */
  lemma {:induction false} TitleParts(v: UpgradeSrc.Version)
    ensures var t := NumbersText(v.mj, v.mn, v.rev); var s := Title(v); var i := |PRODUCT| + 1;
      (|s| == i + |UpgradeSrc.Render(v)| && s[..|PRODUCT|] == PRODUCT && s[|PRODUCT|] == ' ' &&
       s[i..i + |t|] == t && s[i + |t|..] == UpgradeSrc.Suffix(v.stage))
  {
    var t := NumbersText(v.mj, v.mn, v.rev);
    var r := UpgradeSrc.Render(v);
    var s := Title(v);
    var i := |PRODUCT| + 1;
    UpgradeSrc.RenderParts(v);
    assert s[..|PRODUCT|] == PRODUCT;
    assert s[i..] == r;
    forall k | 0 <= k < |t| ensures s[i..i + |t|][k] == t[k] {
      assert s[i + k] == r[k] == r[0..|t|][k];
    }
    forall k | 0 <= k < |s| - (i + |t|) ensures s[i + |t|..][k] == UpgradeSrc.Suffix(v.stage)[k] {
      assert s[i + |t| + k] == r[|t| + k] == r[|t|..][k];
    }
  }

  /** After the product name: one blank, then the numbers, ended by the text end or a space. */
  lemma {:induction false} NumbersAfterBlank(s: string, j: nat, v: UpgradeSrc.Version)
    requires Fits(v)
    requires var t := NumbersText(v.mj, v.mn, v.rev);
      j + 1 + |t| <= |s| && s[j] == ' ' && s[j + 1..j + 1 + |t|] == t &&
      (j + 1 + |t| == |s| || s[j + 1 + |t|] == ' ')
    ensures Scan(s, j, [Blank] + NUMBERS).0 == [v.mj, v.mn, v.rev]
  {
    var t := NumbersText(v.mj, v.mn, v.rev);
    var i := j + 1;
    assert s[i] == s[i..i + |t|][0] == t[0];
    UpgradeSrc.BlankThen(s, j, t[0]);
    BlankStep(s, j, NUMBERS);
    NumbersAt(s, i, v.mj, v.mn, v.rev);
  }

  /** A text made of the product name, a blank and the numbers, then the text end or a space, scans to the numbers. */
  lemma {:induction false} ProductNumbersScan(s: string, v: UpgradeSrc.Version)
    requires Fits(v)
    requires var t := NumbersText(v.mj, v.mn, v.rev); var i := |PRODUCT| + 1;
      i + |t| <= |s| && s[..|PRODUCT|] == PRODUCT && s[|PRODUCT|] == ' ' && s[i..i + |t|] == t &&
      (i + |t| == |s| || s[i + |t|] == ' ')
    ensures Scan(s, 0, TITLE_FORMAT).0 == [v.mj, v.mn, v.rev]
  {
    assert s[0..|PRODUCT|] == s[..|PRODUCT|];
    assert TITLE_FORMAT == Literals(PRODUCT) + ([Blank] + NUMBERS);
    LiteralsThen(s, 0, PRODUCT, [Blank] + NUMBERS);
    NumbersAfterBlank(s, |PRODUCT|, v);
  }

  /** The title scans to the version's three numbers. */
  lemma {:induction false} TitleScan(v: UpgradeSrc.Version)
    requires Fits(v)
    ensures Scan(Title(v), 0, TITLE_FORMAT).0 == [v.mj, v.mn, v.rev]
  {
    var s := Title(v);
    var t := NumbersText(v.mj, v.mn, v.rev);
    var i := |PRODUCT| + 1;
    TitleParts(v);
    assert i + |t| == |s| || s[i + |t|] == s[i + |t|..][0] == ' ';
    ProductNumbersScan(s, v);
  }

  /** The published line scans to its three numbers; its stage is not read. */
  lemma {:induction false} LastOfRendered(v: UpgradeSrc.Version, unset: seq<int>)
    requires Fits(v) && |unset| == 3
    ensures LastCode(UpgradeSrc.Render(v), unset) == VersionCode(v.mj, v.mn, v.rev)
  {
    var s := UpgradeSrc.Render(v);
    var t := NumbersText(v.mj, v.mn, v.rev);
    UpgradeSrc.RenderParts(v);
    assert |t| == |s| || s[|t|] == s[|t|..][0] == ' ';
    NumbersAt(s, 0, v.mj, v.mn, v.rev);
  }

  lemma {:induction false} CurrentOfTitle(v: UpgradeSrc.Version, unset: seq<int>)
    requires Fits(v) && |unset| == 3
    ensures CurrentCode(Title(v), unset) == VersionCode(v.mj, v.mn, v.rev)
  {
    TitleScan(v);
  }

  /** 5.0.0 outranks 4.99.99. */
  lemma FiveOutranks(lastUnset: seq<int>, currentUnset: seq<int>)
    requires |lastUnset| == 3 && |currentUnset| == 3
    ensures LastCode("5.0.0", lastUnset) > CurrentCode("UltraDefrag 4.99.99", currentUnset)
  {
    var a := UpgradeSrc.Version(5, 0, 0, UpgradeSrc.Final);
    var b := UpgradeSrc.Version(4, 99, 99, UpgradeSrc.Final);
    assert UpgradeSrc.Render(a) == "5.0.0";
    assert Title(b) == "UltraDefrag 4.99.99";
    LastOfRendered(a, lastUnset);
    CurrentOfTitle(b, currentUnset);
    CodeOrder(b, a);
  }

  // ---------------------------------------------------------------------
  // Unstable titles
  // ---------------------------------------------------------------------

  /** A character that lower-cases to none of 'h', 'b', 'c', one of which each tag holds. */
  predicate Plain(c: char)
  {
    Lower(c) != 'h' && Lower(c) != 'b' && Lower(c) != 'c'
  }

  lemma ProductPlain()
    ensures forall k :: 0 <= k < |PRODUCT| ==> Plain(PRODUCT[k])
  {
    forall k | 0 <= k < |PRODUCT| ensures Plain(PRODUCT[k]) {
      assert k == 0 || k == 1 || k == 2 || k == 3 || k == 4 || k == 5 || k == 6 || k == 7 || k == 8 || k == 9 || k == 10;
    }
  }

  /** A text without a given character of `p` does not contain `p`. */
  lemma {:induction false} Absent(s: string, p: string, j: nat)
    requires j < |p| && forall k :: 0 <= k < |s| ==> s[k] != p[j]
    ensures !Contains(s, p)
  {
    forall k | 0 <= k <= |s| ensures !StartsAt(s, p, k) {
      if k + |p| <= |s| {
        assert s[k..k + |p|][j] == s[k + j];
      }
    }
  }

  /** A lower-case word found in a text is found in its lower-cased copy. */
  lemma {:induction false} Found(s: string, p: string, i: nat)
    requires StartsAt(s, p, i) && UpgradeSrc.NoUpper(p)
    ensures Contains(LowerStr(s), p)
  {
    var l := LowerStr(s);
    forall k | 0 <= k < |p| ensures l[i..i + |p|][k] == p[k] {
      assert l[i + k] == Lower(s[i + k]) == Lower(s[i..i + |p|][k]) == Lower(p[k]) == p[k];
    }
    assert StartsAt(l, p, i);
  }

  /** The title of a final release holds none of the tags. */
  lemma {:induction false} FinalStable(v: UpgradeSrc.Version)
    requires v.stage.Final?
    ensures !Unstable(Title(v))
  {
    var s := Title(v);
    var l := LowerStr(s);
    var t := NumbersText(v.mj, v.mn, v.rev);
    var i := |PRODUCT| + 1;
    TitleParts(v);
    ProductPlain();
    forall k | 0 <= k < |s| ensures Plain(s[k]) {
      if k < |PRODUCT| {
        assert s[k] == s[..|PRODUCT|][k];
      } else if k >= i {
        assert s[k] == t[k - i] by {
          assert s[k] == s[i..i + |t|][k - i];
        }
        NumbersChar(v.mj, v.mn, v.rev, k - i);
      }
    }
    assert forall k :: 0 <= k < |l| ==> l[k] != 'h' && l[k] != 'b' && l[k] != 'c';
    Absent(l, "alpha", 3);
    Absent(l, "beta", 0);
    Absent(l, "rc", 1);
  }

  /** Every character of a printed version is a digit or the dot. */
  lemma {:induction false} NumbersChar(mj: nat, mn: nat, rev: nat, k: nat)
    requires k < |NumbersText(mj, mn, rev)|
    ensures IsDigit(NumbersText(mj, mn, rev)[k]) || NumbersText(mj, mn, rev)[k] == '.'
  {
    var a, b, c := NatToString(mj), NatToString(mn), NatToString(rev);
    var t := NumbersText(mj, mn, rev);
    assert t == a + "." + b + "." + c;
    if k < |a| {
      assert t[k] == a[k];
    } else if k == |a| {
    } else if k < |a| + 1 + |b| {
      assert t[k] == b[k - |a| - 1];
    } else if k == |a| + 1 + |b| {
    } else {
      assert t[k] == c[k - |a| - 2 - |b|];
    }
  }

  /** The title of an alpha, beta or release candidate holds its tag. */
  lemma {:induction false} TaggedUnstable(v: UpgradeSrc.Version)
    requires !v.stage.Final?
    ensures Unstable(Title(v))
  {
    var s := Title(v);
    var t := NumbersText(v.mj, v.mn, v.rev);
    var p := |PRODUCT| + 1 + |t| + 1;
    TitleParts(v);
    var u := s[p - 1..];
    assert u == UpgradeSrc.Suffix(v.stage);
    match v.stage
    case Alpha(n) =>
      TagAt(s, p, "alpha", u);
    case Beta(n) =>
      TagAt(s, p, "beta", u);
    case Rc(n) =>
      TagAt(s, p, "rc", u);
  }

  /** The tag that a suffix `" " + tag + digits` places right after its blank. */
  lemma {:induction false} TagAt(s: string, p: nat, tag: string, u: string)
    requires 0 < p <= |s| && u == s[p - 1..]
    requires tag == "alpha" || tag == "beta" || tag == "rc"
    requires exists d: string :: u == " " + tag + d
    ensures Unstable(s)
  {
    var d: string :| u == " " + tag + d;
    assert p + |tag| <= |s|;
    forall k | 0 <= k < |tag| ensures s[p..p + |tag|][k] == tag[k] {
      assert s[p + k] == u[1 + k];
    }
    assert UpgradeSrc.NoUpper(tag);
    Found(s, tag, p);
  }

  /** A running version counts as unstable exactly when it is not a final release. */
  lemma {:induction false} UnstableIffTagged(v: UpgradeSrc.Version)
    ensures Unstable(Title(v)) <==> !v.stage.Final?
  {
    if v.stage.Final? {
      FinalStable(v);
    } else {
      TaggedUnstable(v);
    }
  }

  /** The test lower-cases the title, so case does not matter. */
  lemma {:induction false} UnstableIgnoresCase(title: string)
    ensures Unstable(UpperStr(title)) <==> Unstable(title)
  {
    var u := UpperStr(title);
    forall k | 0 <= k < |title|
      ensures LowerStr(u)[k] == LowerStr(title)[k]
    {
      assert u[k] == Upper(title[k]);
    }
    assert LowerStr(u) == LowerStr(title);
  }

  /**
   * Over printed versions the decision is: the published numbers are
   * greater, or they are the same and the running version is not a final
   * release. The stage of the published version plays no part.
   */
  lemma {:induction false} UpgradeIff(last: UpgradeSrc.Version, current: UpgradeSrc.Version, lastUnset: seq<int>, currentUnset: seq<int>)
    requires Fits(last) && Fits(current) && |lastUnset| == 3 && |currentUnset| == 3
    ensures Upgrade(LastCode(UpgradeSrc.Render(last), lastUnset), CurrentCode(Title(current), currentUnset), Unstable(Title(current))) <==>
      (NumbersBefore(current, last) || (SameNumbers(current, last) && !current.stage.Final?))
  {
    LastOfRendered(last, lastUnset);
    CurrentOfTitle(current, currentUnset);
    UnstableIffTagged(current);
    CodeOrder(current, last);
  }

  // ---------------------------------------------------------------------
  // The thread and the menu
  // ---------------------------------------------------------------------

  method CompareVersions(firstLine: Option<string>, title: string, lastUnset: seq<int>, currentUnset: seq<int>)
    returns (offer: Option<string>)
    requires |lastUnset| == 3 && |currentUnset| == 3
    ensures offer == Offer(firstLine, title, lastUnset, currentUnset)
  {
    offer := None;
    if firstLine.Some? {
      var lv := Trim(firstLine.value);
      var l := Stored(Scan(lv, 0, NUMBERS).0, lastUnset);
      var c := Stored(Scan(title, 0, TITLE_FORMAT).0, currentUnset);
      var unstable := false;
      var lower := LowerStr(title);
      if Contains(lower, "alpha") { unstable := true; }
      if Contains(lower, "beta") { unstable := true; }
      if Contains(lower, "rc") { unstable := true; }
      var current := VersionCode(c[0], c[1], c[2]);
      var last := VersionCode(l[0], l[1], l[2]);
      var upgrade := last > current;
      if last == current && unstable { upgrade := true; }
      if upgrade {
        offer := Some(lv);
      }
    }
  }

  class UpgradeThread {
    var check: bool
    var level: int

    /** The thread starts with a check pending. */
    constructor(level: int)
      ensures this.level == level && check
    {
      this.level := level;
      check := true;
    }

    /**
     * The body of the polling loop: when a check is pending and the level
     * is positive, the version file is downloaded (`firstLine` is its first
     * line, None when the download fails), the dialog is offered with the
     * trimmed line, and the pending check is cleared.
     */
    method Poll(firstLine: Option<string>, title: string, lastUnset: seq<int>, currentUnset: seq<int>)
      returns (url: Option<string>, offer: Option<string>)
      requires |lastUnset| == 3 && |currentUnset| == 3
      modifies this
      ensures level == old(level)
      ensures old(check) && level > 0 ==>
        (!check && url == Some(UpgradeSrc.VERSION_URL) && offer == Offer(firstLine, title, lastUnset, currentUnset))
      ensures !(old(check) && level > 0) ==> (check == old(check) && url.None? && offer.None?)
    {
      url, offer := None, None;
      if check && level > 0 {
        url := Some(UpgradeSrc.VERSION_URL);
        offer := CompareVersions(firstLine, title, lastUnset, currentUnset);
        check := false;
      }
    }

    /**
     * `OnHelpUpdate`: "Never", "Stable" and "All" set the level to the
     * item's offset from "Never" and request no check; "Check now" only
     * requests one.
     */
    method OnHelpUpdate(item: UpgradeSrc.UpgradeItem)
      modifies this
      ensures item != UpgradeSrc.UpdateCheck ==> level == UpgradeSrc.ItemOffset(item) && check == old(check)
      ensures item == UpgradeSrc.UpdateCheck ==> level == old(level) && check
    {
      match item
      case UpdateCheck =>
        check := true;
      case _ =>
        level := UpgradeSrc.ItemOffset(item);
    }
  }
}
