// The upgrade check of the wxWidgets interface, src/wxgui/upgrade.cpp:
// version strings of the form "mj.mn.rev [alpha|beta|rc]N" are turned
// into integers and compared, one poll of the upgrade thread decides
// whether the upgrade dialog is posted, and the Help > Upgrade menu sets
// the check level.

module UpgradeSrc {
  import opened Types
  import opened Scanf

  const UPGRADE_NONE: int := 0
  const UPGRADE_STABLE: int := 1
  const UPGRADE_ALL: int := 2

  const VERSION_URL: string := "http://ultradefrag.sourceforge.net/version.ini"
  const STABLE_VERSION_URL: string := "http://ultradefrag.sourceforge.net/stable-version.ini"

  /** `&cv[12]`: the version in the title starts after "UltraDefrag ". */
  const TITLE_SKIP: nat := 12

  /** What follows `%u.%u.%u` in `"%u.%u.%u <tag>%u"`. */
  function TagPart(tag: string): seq<Directive>
  {
    [Blank] + Literals(tag) + [Unsigned]
  }

  /** The format `"%u.%u.%u <tag>%u"`. */
  function Tagged(tag: string): seq<Directive>
  {
    NUMBERS + TagPart(tag)
  }

  /** `mj * 10000000 + mn * 100000 + rev * 1000 + uv` in 32-bit `int` arithmetic. */
  function Code(mj: int, mn: int, rev: int, uv: int): int
  {
    Int32(mj * 10000000 + mn * 100000 + rev * 1000 + uv)
  }

  /** The unstable releases in the order they are tried, with what they add to the number after the tag. */
  const TAGS: seq<(string, int)> := [("alpha", 100), ("beta", 200), ("rc", 300)]

  /**
   * The formats tried in turn: the first tagged one that assigns all four
   * values decides, then the plain `"%u.%u.%u"` with `uv = 999`; 0 when
   * none assigns all its values.
   */
  function ParseLowered(s: string, tags: seq<(string, int)>): int
    decreases |tags|, |s|
  {
    if |tags| == 0 then
      var p := Scan(s, 0, NUMBERS).0;
      if |p| == 3 then Code(p[0], p[1], p[2], 999) else 0
    else
      var a := Scan(s, 0, Tagged(tags[0].0)).0;
      if |a| == 4 then Code(a[0], a[1], a[2], Int32(a[3] + tags[0].1)) else ParseLowered(s, tags[1..])
  }

  /** `ParseVersionString`: the lower-cased copy is parsed; 0 when the copy cannot be allocated. */
  function ParseVersionString(version: string, memory: bool): int
  {
    if !memory then 0 else ParseLowered(LowerStr(version), TAGS)
  }

  // ---------------------------------------------------------------------
  // Versions as the release process writes them
  // ---------------------------------------------------------------------

  datatype Stage = Alpha(n: nat) | Beta(n: nat) | Rc(n: nat) | Final

  datatype Version = Version(mj: nat, mn: nat, rev: nat, stage: Stage)

  /** The unstable part of a version: `uv` after the additions of the parser. */
  function StageValue(st: Stage): int
  {
    match st
    case Alpha(n) => Int32(n + 100)
    case Beta(n) => Int32(n + 200)
    case Rc(n) => Int32(n + 300)
    case Final => 999
  }

  function Encoded(v: Version): int
  {
    Code(v.mj, v.mn, v.rev, StageValue(v.stage))
  }

  function Suffix(st: Stage): string
  {
    match st
    case Alpha(n) => " " + "alpha" + NatToString(n)
    case Beta(n) => " " + "beta" + NatToString(n)
    case Rc(n) => " " + "rc" + NatToString(n)
    case Final => ""
  }

  /** The version string, as in "4.99.99 rc10" or "5.0.0". */
  function Render(v: Version): string
  {
    NumbersText(v.mj, v.mn, v.rev) + Suffix(v.stage)
  }

  /** Every number of the version fits the `int` that `%u` stores it in. */
  predicate Parsable(v: Version)
  {
    v.mj < INT_MOD / 2 && v.mn < INT_MOD / 2 && v.rev < INT_MOD / 2 &&
    (v.stage.Final? || v.stage.n < INT_MOD / 2)
  }

  /** Release-style numbers: the code of every such version fits an `int`. */
  predicate Small(v: Version)
  {
    v.mj < 214 && v.mn < 100 && v.rev < 100 && (v.stage.Final? || v.stage.n < 100)
  }

  function Rank(st: Stage): nat
  {
    match st
    case Alpha(_) => 0
    case Beta(_) => 1
    case Rc(_) => 2
    case Final => 3
  }

  /** Release order of the stages: alpha, beta, rc, then the final release; by number within one stage. */
  predicate StageOlder(x: Stage, y: Stage)
  {
    Rank(x) < Rank(y) || (Rank(x) == Rank(y) && !x.Final? && !y.Final? && x.n < y.n)
  }

  /** `a` was released before `b`: by major, minor, revision, then stage. */
  predicate Older(a: Version, b: Version)
  {
    a.mj < b.mj ||
    (a.mj == b.mj && (a.mn < b.mn ||
    (a.mn == b.mn && (a.rev < b.rev ||
    (a.rev == b.rev && StageOlder(a.stage, b.stage))))))
  }

  // ---------------------------------------------------------------------
  // Properties of the parser
  // ---------------------------------------------------------------------

  predicate NoUpper(s: string)
  {
    forall k :: 0 <= k < |s| ==> !('A' <= s[k] <= 'Z')
  }

  lemma {:induction false} LowerNoUpper(s: string)
    requires NoUpper(s)
    ensures LowerStr(s) == s
  {
    assert forall k :: 0 <= k < |s| ==> LowerStr(s)[k] == s[k];
  }

  lemma {:induction false} RenderNoUpper(v: Version)
    ensures NoUpper(Render(v))
  {
    var t := NumbersText(v.mj, v.mn, v.rev);
    assert NoUpper(NatToString(v.mj)) && NoUpper(NatToString(v.mn)) && NoUpper(NatToString(v.rev));
    assert NoUpper(t);
    match v.stage
    case Alpha(n) => assert NoUpper(NatToString(n));
    case Beta(n) => assert NoUpper(NatToString(n));
    case Rc(n) => assert NoUpper(NatToString(n));
    case Final =>
  }

  /** The scan of `"%u.%u.%u <tag>%u"` over a text that starts with a printed version. */
  lemma {:induction false} TaggedScan(s: string, mj: nat, mn: nat, rev: nat, tag: string)
    requires mj < INT_MOD / 2 && mn < INT_MOD / 2 && rev < INT_MOD / 2
    requires |NumbersText(mj, mn, rev)| <= |s| && s[0..|NumbersText(mj, mn, rev)|] == NumbersText(mj, mn, rev)
    requires |NumbersText(mj, mn, rev)| == |s| || !IsDigit(s[|NumbersText(mj, mn, rev)|])
    ensures Scan(s, 0, Tagged(tag)).0 == [mj, mn, rev] + Scan(s, |NumbersText(mj, mn, rev)|, TagPart(tag)).0
  {
    ScanAppend(s, 0, NUMBERS, TagPart(tag));
    NumbersAt(s, 0, mj, mn, rev);
  }

  /** A version string whose suffix is `" <tag>n"` fills all four values of the tag's format. */
  lemma {:induction false} TaggedHit(s: string, mj: nat, mn: nat, rev: nat, tag: string, n: nat)
    requires mj < INT_MOD / 2 && mn < INT_MOD / 2 && rev < INT_MOD / 2 && n < INT_MOD / 2
    requires |tag| > 0 && !IsSpace(tag[0])
    requires |NumbersText(mj, mn, rev)| <= |s| && s[0..|NumbersText(mj, mn, rev)|] == NumbersText(mj, mn, rev)
    requires s[|NumbersText(mj, mn, rev)|..] == " " + tag + NatToString(n)
    ensures Scan(s, 0, Tagged(tag)).0 == [mj, mn, rev, n]
  {
    var t := NumbersText(mj, mn, rev);
    assert s[|t|] == s[|t|..][0] == ' ';
    TaggedScan(s, mj, mn, rev, tag);
    TagAt(s, |t|, tag, n);
  }

  /** A version string whose text after the numbers and the blanks does not start the tag assigns only the three numbers. */
  lemma {:induction false} TaggedMiss(s: string, mj: nat, mn: nat, rev: nat, tag: string)
    requires mj < INT_MOD / 2 && mn < INT_MOD / 2 && rev < INT_MOD / 2 && |tag| > 0
    requires |NumbersText(mj, mn, rev)| <= |s| && s[0..|NumbersText(mj, mn, rev)|] == NumbersText(mj, mn, rev)
    requires |NumbersText(mj, mn, rev)| == |s| || !IsDigit(s[|NumbersText(mj, mn, rev)|])
    requires SkipBlanks(s, |NumbersText(mj, mn, rev)|) == |s| || s[SkipBlanks(s, |NumbersText(mj, mn, rev)|)] != tag[0]
    ensures |Scan(s, 0, Tagged(tag)).0| == 3
  {
    TaggedScan(s, mj, mn, rev, tag);
    TagMismatch(s, |NumbersText(mj, mn, rev)|, tag);
  }

  /** The facts about a rendered version that the scans of its suffix need. */
  lemma {:induction false} RenderParts(v: Version)
    ensures var t := NumbersText(v.mj, v.mn, v.rev); var s := Render(v);
      (|t| <= |s| && s[0..|t|] == t && s[|t|..] == Suffix(v.stage) && LowerStr(s) == s)
  {
    var t := NumbersText(v.mj, v.mn, v.rev);
    var s := Render(v);
    assert s[0..|t|] == t;
    assert s[|t|..] == Suffix(v.stage);
    RenderNoUpper(v);
    LowerNoUpper(s);
  }

  /** The first format that assigns all four values decides. */
  lemma {:induction false} ParseHit(s: string, tags: seq<(string, int)>, mj: int, mn: int, rev: int, n: int)
    requires |tags| > 0 && Scan(s, 0, Tagged(tags[0].0)).0 == [mj, mn, rev, n]
    ensures ParseLowered(s, tags) == Code(mj, mn, rev, Int32(n + tags[0].1))
  {
  }

  /** A format that assigns fewer values passes on to the next one. */
  lemma {:induction false} ParseMiss(s: string, tags: seq<(string, int)>)
    requires |tags| > 0 && |Scan(s, 0, Tagged(tags[0].0)).0| != 4
    ensures ParseLowered(s, tags) == ParseLowered(s, tags[1..])
  {
  }

  /** After the tagged formats, `"%u.%u.%u"` with all three values gives `uv = 999`. */
  lemma {:induction false} ParsePlain(s: string, tags: seq<(string, int)>, mj: int, mn: int, rev: int)
    requires |tags| == 0 && Scan(s, 0, NUMBERS).0 == [mj, mn, rev]
    ensures ParseLowered(s, tags) == Code(mj, mn, rev, 999)
  {
  }

  /** What the four formats assign over a rendered version. */
  lemma {:induction false} RenderScans(v: Version)
    requires Parsable(v)
    ensures v.stage.Alpha? ==> Scan(Render(v), 0, Tagged("alpha")).0 == [v.mj, v.mn, v.rev, v.stage.n]
    ensures !v.stage.Alpha? ==> |Scan(Render(v), 0, Tagged("alpha")).0| == 3
    ensures v.stage.Beta? ==> Scan(Render(v), 0, Tagged("beta")).0 == [v.mj, v.mn, v.rev, v.stage.n]
    ensures v.stage.Rc? || v.stage.Final? ==> |Scan(Render(v), 0, Tagged("beta")).0| == 3
    ensures v.stage.Rc? ==> Scan(Render(v), 0, Tagged("rc")).0 == [v.mj, v.mn, v.rev, v.stage.n]
    ensures v.stage.Final? ==> |Scan(Render(v), 0, Tagged("rc")).0| == 3
    ensures v.stage.Final? ==> Scan(Render(v), 0, NUMBERS).0 == [v.mj, v.mn, v.rev]
  {
    RenderParts(v);
    match v.stage
    case Alpha(n) => TaggedHit(Render(v), v.mj, v.mn, v.rev, "alpha", n);
    case Beta(n) => BetaScans(v);
    case Rc(n) => RcScans(v);
    case Final => FinalScans(v);
  }

  lemma {:induction false} BetaScans(v: Version)
    requires Parsable(v) && v.stage.Beta?
    ensures |Scan(Render(v), 0, Tagged("alpha")).0| == 3
    ensures Scan(Render(v), 0, Tagged("beta")).0 == [v.mj, v.mn, v.rev, v.stage.n]
  {
    var s := Render(v);
    var t := NumbersText(v.mj, v.mn, v.rev);
    RenderParts(v);
    BlankThen(s, |t|, 'b');
    TaggedMiss(s, v.mj, v.mn, v.rev, "alpha");
    TaggedHit(s, v.mj, v.mn, v.rev, "beta", v.stage.n);
  }

  lemma {:induction false} RcScans(v: Version)
    requires Parsable(v) && v.stage.Rc?
    ensures |Scan(Render(v), 0, Tagged("alpha")).0| == 3
    ensures |Scan(Render(v), 0, Tagged("beta")).0| == 3
    ensures Scan(Render(v), 0, Tagged("rc")).0 == [v.mj, v.mn, v.rev, v.stage.n]
  {
    var s := Render(v);
    var t := NumbersText(v.mj, v.mn, v.rev);
    RenderParts(v);
    BlankThen(s, |t|, 'r');
    TaggedMiss(s, v.mj, v.mn, v.rev, "alpha");
    TaggedMiss(s, v.mj, v.mn, v.rev, "beta");
    TaggedHit(s, v.mj, v.mn, v.rev, "rc", v.stage.n);
  }

  lemma {:induction false} FinalScans(v: Version)
    requires Parsable(v) && v.stage.Final?
    ensures |Scan(Render(v), 0, Tagged("alpha")).0| == 3
    ensures |Scan(Render(v), 0, Tagged("beta")).0| == 3
    ensures |Scan(Render(v), 0, Tagged("rc")).0| == 3
    ensures Scan(Render(v), 0, NUMBERS).0 == [v.mj, v.mn, v.rev]
  {
    var s := Render(v);
    var t := NumbersText(v.mj, v.mn, v.rev);
    RenderParts(v);
    assert s == t;
    TaggedMiss(s, v.mj, v.mn, v.rev, "alpha");
    TaggedMiss(s, v.mj, v.mn, v.rev, "beta");
    TaggedMiss(s, v.mj, v.mn, v.rev, "rc");
    NumbersAt(s, 0, v.mj, v.mn, v.rev);
  }

  /** One blank, then a letter: the white-space directive stops at the letter. */
  lemma {:induction false} BlankThen(s: string, i: nat, c: char)
    requires i + 1 < |s| && s[i] == ' ' && s[i + 1] == c && !IsSpace(c)
    ensures SkipBlanks(s, i) == i + 1
  {
  }

  /**
   * Round trip: a version string as releases write it parses to its code,
   * with alpha N, beta N and rc N adding N + 100, N + 200 and N + 300 and
   * a final release 999.
   */
  lemma {:induction false} ParseRendered(v: Version)
    requires Parsable(v)
    ensures ParseVersionString(Render(v), true) == Encoded(v)
  {
    RenderParts(v);
    RenderScans(v);
    ParseOfScans(Render(v), v);
  }

  /** The parse of a lower-case text over which the four formats assign what they assign over `Render(v)`. */
  lemma {:induction false} ParseOfScans(s: string, v: Version)
    requires v.stage.Alpha? ==> Scan(s, 0, Tagged("alpha")).0 == [v.mj, v.mn, v.rev, v.stage.n]
    requires !v.stage.Alpha? ==> |Scan(s, 0, Tagged("alpha")).0| == 3
    requires v.stage.Beta? ==> Scan(s, 0, Tagged("beta")).0 == [v.mj, v.mn, v.rev, v.stage.n]
    requires v.stage.Rc? || v.stage.Final? ==> |Scan(s, 0, Tagged("beta")).0| == 3
    requires v.stage.Rc? ==> Scan(s, 0, Tagged("rc")).0 == [v.mj, v.mn, v.rev, v.stage.n]
    requires v.stage.Final? ==> |Scan(s, 0, Tagged("rc")).0| == 3
    requires v.stage.Final? ==> Scan(s, 0, NUMBERS).0 == [v.mj, v.mn, v.rev]
    ensures ParseLowered(s, TAGS) == Encoded(v)
  {
    assert TAGS[0] == ("alpha", 100) && TAGS[1..][0] == ("beta", 200) && TAGS[2..][0] == ("rc", 300) && TAGS[3..] == [];
    assert TAGS[1..][1..] == TAGS[2..] && TAGS[2..][1..] == TAGS[3..];
    if v.stage.Alpha? {
      ParseHit(s, TAGS, v.mj, v.mn, v.rev, v.stage.n);
    } else {
      ParseMiss(s, TAGS);
      ParseAfterAlpha(s, v);
    }
  }

  lemma {:induction false} ParseAfterAlpha(s: string, v: Version)
    requires !v.stage.Alpha?
    requires v.stage.Beta? ==> Scan(s, 0, Tagged("beta")).0 == [v.mj, v.mn, v.rev, v.stage.n]
    requires v.stage.Rc? || v.stage.Final? ==> |Scan(s, 0, Tagged("beta")).0| == 3
    requires v.stage.Rc? ==> Scan(s, 0, Tagged("rc")).0 == [v.mj, v.mn, v.rev, v.stage.n]
    requires v.stage.Final? ==> |Scan(s, 0, Tagged("rc")).0| == 3
    requires v.stage.Final? ==> Scan(s, 0, NUMBERS).0 == [v.mj, v.mn, v.rev]
    ensures ParseLowered(s, TAGS[1..]) == Encoded(v)
  {
    var t := TAGS[1..];
    assert t[0] == ("beta", 200) && t[1..][0] == ("rc", 300) && t[2..] == [] && t[1..][1..] == t[2..];
    if v.stage.Beta? {
      ParseHit(s, t, v.mj, v.mn, v.rev, v.stage.n);
      assert ParseLowered(s, t) == Code(v.mj, v.mn, v.rev, Int32(v.stage.n + 200));
    } else {
      ParseMiss(s, t);
      assert t[1..] == TAGS[2..];
      ParseAfterBeta(s, v);
      assert ParseLowered(s, t) == ParseLowered(s, TAGS[2..]);
    }
  }

  lemma {:induction false} ParseAfterBeta(s: string, v: Version)
    requires v.stage.Rc? || v.stage.Final?
    requires v.stage.Rc? ==> Scan(s, 0, Tagged("rc")).0 == [v.mj, v.mn, v.rev, v.stage.n]
    requires v.stage.Final? ==> |Scan(s, 0, Tagged("rc")).0| == 3
    requires v.stage.Final? ==> Scan(s, 0, NUMBERS).0 == [v.mj, v.mn, v.rev]
    ensures ParseLowered(s, TAGS[2..]) == Encoded(v)
  {
    var t := TAGS[2..];
    assert t[0] == ("rc", 300) && t[1..] == [];
    if v.stage.Rc? {
      ParseHit(s, t, v.mj, v.mn, v.rev, v.stage.n);
    } else {
      ParseMiss(s, t);
      ParsePlain(s, t[1..], v.mj, v.mn, v.rev);
    }
  }

  /** 0 when the copy cannot be allocated or the text does not start with `%u.%u.%u`. */
  lemma {:induction false} ParseFails(version: string, memory: bool)
    requires !memory || |Scan(LowerStr(version), 0, NUMBERS).0| < 3
    ensures ParseVersionString(version, memory) == 0
  {
    if memory {
      ParseShort(LowerStr(version), TAGS);
    }
  }

  /** When `%u.%u.%u` assigns fewer than three values, none of the formats assigns enough. */
  lemma {:induction false} ParseShort(s: string, tags: seq<(string, int)>)
    requires |Scan(s, 0, NUMBERS).0| < 3
    ensures ParseLowered(s, tags) == 0
    decreases |tags|
  {
    ScanCount(s, 0, NUMBERS);
    assert Conversions(NUMBERS) == 3;
    if |tags| > 0 {
      ScanAppend(s, 0, NUMBERS, TagPart(tags[0].0));
      ParseMiss(s, tags);
      ParseShort(s, tags[1..]);
    }
  }

  /** The parser lower-cases its input, so case does not matter. */
  lemma {:induction false} ParseIgnoresCase(version: string, memory: bool)
    ensures ParseVersionString(UpperStr(version), memory) == ParseVersionString(version, memory)
  {
    var u := UpperStr(version);
    forall k | 0 <= k < |version|
      ensures LowerStr(u)[k] == LowerStr(version)[k]
    {
      assert u[k] == Upper(version[k]);
    }
    assert LowerStr(u) == LowerStr(version);
  }

  /** For release-style numbers the code orders versions as releases are ordered. */
  lemma {:induction false} CodeOrder(a: Version, b: Version)
    requires Small(a) && Small(b)
    ensures Encoded(a) < Encoded(b) <==> Older(a, b)
    ensures Encoded(a) == Encoded(b) <==> a == b
  {
    StageOrder(a.stage, b.stage);
    var ua, ub := StageValue(a.stage), StageValue(b.stage);
    var xa := a.mj * 10000000 + a.mn * 100000 + a.rev * 1000 + ua;
    var xb := b.mj * 10000000 + b.mn * 100000 + b.rev * 1000 + ub;
    assert 0 <= xa < INT_MOD / 2 && 0 <= xb < INT_MOD / 2;
    assert Encoded(a) == xa && Encoded(b) == xb;
  }

  /** The stage values lie in [100, 999] and order the stages as releases are ordered. */
  lemma {:induction false} StageOrder(x: Stage, y: Stage)
    requires (x.Final? || x.n < 100) && (y.Final? || y.n < 100)
    ensures 100 <= StageValue(x) <= 999 && 100 <= StageValue(y) <= 999
    ensures StageValue(x) < StageValue(y) <==> StageOlder(x, y)
    ensures StageValue(x) == StageValue(y) <==> x == y
  {
  }

  /** The case the source comments on: 5.0.0 is newer than 4.99.99 rc10. */
  lemma FiveOutranksRc10()
    ensures ParseVersionString("5.0.0", true) > ParseVersionString("4.99.99 rc10", true)
  {
    var a := Version(5, 0, 0, Final);
    var b := Version(4, 99, 99, Rc(10));
    assert Render(a) == "5.0.0";
    assert Render(b) == "4.99.99 rc10";
    ParseRendered(a);
    ParseRendered(b);
    CodeOrder(b, a);
  }

  // ---------------------------------------------------------------------
  // One poll of the upgrade thread
  // ---------------------------------------------------------------------

  /** The dialog is posted when both versions parse and the last one is greater. */
  predicate Offered(last: int, current: int)
  {
    last != 0 && current != 0 && last > current
  }

  /** The upgrade is offered exactly when the published release is newer than the running one. */
  lemma {:induction false} OfferedIffNewer(last: Version, current: Version)
    requires Small(last) && Small(current)
    ensures Offered(ParseVersionString(Render(last), true), ParseVersionString(Render(current), true)) <==> Older(current, last)
  {
    ParseRendered(last);
    ParseRendered(current);
    OfferedCodes(last, current);
  }

  lemma {:induction false} OfferedCodes(last: Version, current: Version)
    requires Small(last) && Small(current)
    ensures Parsable(last) && Parsable(current)
    ensures Offered(Encoded(last), Encoded(current)) <==> Older(current, last)
  {
    CodeOrder(current, last);
    assert StageValue(last.stage) >= 100 && StageValue(current.stage) >= 100;
  }

  /** The line the dialog is posted with, if any, after the first line of the downloaded file has been read. */
  function Offer(firstLine: Option<string>, title: string, memLast: bool, memCurrent: bool): Option<string>
    requires |title| >= TITLE_SKIP
  {
    match firstLine
    case None => None
    case Some(line) =>
      var lv := Trim(line);
      if Offered(ParseVersionString(lv, memLast), ParseVersionString(title[TITLE_SKIP..], memCurrent)) then Some(lv) else None
  }

  /**
   * The comparison made once the version file has been read: the trimmed
   * first line and the title after `"UltraDefrag "` are parsed, and the line
   * is offered when both parse and the published one is greater.
   */
  method CompareVersions(firstLine: Option<string>, title: string, memLast: bool, memCurrent: bool)
    returns (offer: Option<string>)
    requires |title| >= TITLE_SKIP
    ensures offer == Offer(firstLine, title, memLast, memCurrent)
  {
    offer := None;
    if firstLine.Some? {
      var lv := Trim(firstLine.value);
      var last := ParseVersionString(lv, memLast);
      var current := ParseVersionString(title[TITLE_SKIP..], memCurrent);
      if last != 0 && current != 0 && last > current {
        offer := Some(lv);
      }
    }
  }

  /** The items of the Help > Upgrade menu, whose identifiers are consecutive. */
  datatype UpgradeItem = UpdateNone | UpdateStable | UpdateAll | UpdateCheck

  /** `event.GetId() - ID_HelpUpdateNone`. */
  function ItemOffset(item: UpgradeItem): (n: nat)
    ensures item == UpdateStable <==> n == UPGRADE_STABLE
    ensures item == UpdateAll <==> n == UPGRADE_ALL
  {
    match item
    case UpdateNone => 0
    case UpdateStable => 1
    case UpdateAll => 2
    case UpdateCheck => 3
  }

  class UpgradeThread {
    var check: bool
    var level: int

    /** The thread starts with a check pending. */
    constructor(level: int)
      ensures this.level == level && check
    {
      this.level := level;
      check := true;
    }

    /**
     * The body of the polling loop: when a check is pending and the level
     * is not 0, the version file is downloaded (`firstLine` is its first
     * line, None when the download fails), the dialog is offered with the
     * trimmed line, and the pending check is cleared.
     */
    method Poll(firstLine: Option<string>, title: string, memLast: bool, memCurrent: bool)
      returns (url: Option<string>, offer: Option<string>)
      requires |title| >= TITLE_SKIP
      modifies this
      ensures level == old(level)
      ensures old(check) && level != UPGRADE_NONE ==>
        (!check && url == Some(if level == UPGRADE_ALL then VERSION_URL else STABLE_VERSION_URL) &&
         offer == Offer(firstLine, title, memLast, memCurrent))
      ensures !(old(check) && level != UPGRADE_NONE) ==> (check == old(check) && url.None? && offer.None?)
    {
      url, offer := None, None;
      if check && level != UPGRADE_NONE {
        url := Some(if level == UPGRADE_ALL then VERSION_URL else STABLE_VERSION_URL);
        offer := CompareVersions(firstLine, title, memLast, memCurrent);
        check := false;
      }
    }

    /**
     * `OnHelpUpdate`: "Never" sets level 0 and leaves the pending check
     * alone; "Stable" and "All" set the level and fall through to "Check
     * now", which requests a check.
     */
    method OnHelpUpdate(item: UpgradeItem)
      modifies this
      ensures item == UpdateNone ==> level == UPGRADE_NONE && check == old(check)
      ensures (item == UpdateStable || item == UpdateAll) ==> level == ItemOffset(item) && check
      ensures item == UpdateCheck ==> level == old(level) && check
    {
      match item
      case UpdateNone =>
        level := 0;
      case UpdateStable =>
        level := ItemOffset(item);
        check := true;
      case UpdateAll =>
        level := ItemOffset(item);
        check := true;
      case UpdateCheck =>
        check := true;
    }
  }
}
