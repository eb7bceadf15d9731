// The part of `sscanf`/`swscanf` (section 7.21.6.2 of ISO/IEC 9899) that
// the version parsers of src/wxgui/upgrade.cpp and
// trunk/src/wxgui/upgrade.cpp rely on: white-space directives, literal
// characters and `%u`, plus the white-space trimming of wxString::Trim.

module Scanf {
  import opened Types

  /** `isspace` in the "C" locale. */
  predicate IsSpace(c: char)
  {
    c == ' ' || c == '\t' || c == '\n' || c == '\U{B}' || c == '\U{C}' || c == '\r'
  }

  predicate IsDigit(c: char)
  {
    '0' <= c <= '9'
  }

  /** One directive of a format string. */
  datatype Directive = Blank | Literal(c: char) | Unsigned

  /** The directives of literal text without white space. */
  function Literals(t: string): (f: seq<Directive>)
    ensures |f| == |t| && forall k :: 0 <= k < |t| ==> f[k] == Literal(t[k])
  {
    seq(|t|, k requires 0 <= k < |t| => Literal(t[k]))
  }

  /** Where a white-space directive stops: after every white-space character from `i`. */
  function SkipBlanks(s: string, i: nat): (j: nat)
    requires i <= |s|
    ensures i <= j <= |s|
    ensures j == |s| || !IsSpace(s[j])
    decreases |s| - i
  {
    if i == |s| || !IsSpace(s[i]) then i else SkipBlanks(s, i + 1)
  }

  /** The end of the run of digits from `i`. */
  function DigitsEnd(s: string, i: nat): (j: nat)
    requires i <= |s|
    ensures i <= j <= |s|
    ensures j == |s| || !IsDigit(s[j])
    decreases |s| - i
  {
    if i == |s| || !IsDigit(s[i]) then i else DigitsEnd(s, i + 1)
  }

  /** The number the decimal digits `s[i..e]` stand for. */
  function DigitsValue(s: string, i: nat, e: nat): int
    requires i <= e <= |s|
    decreases e
  {
    if e == i then 0 else DigitsValue(s, i, e - 1) * 10 + (s[e - 1] as int - 48)
  }

  /** The value of digits depends only on the digits. */
  lemma {:induction false} DigitsValueShift(s: string, i: nat, d: string, m: nat)
    requires i + |d| <= |s| && m <= |d| && s[i..i + |d|] == d
    requires forall k :: 0 <= k < |d| ==> IsDigit(d[k])
    ensures DigitsValue(s, i, i + m) == DigitsValue(d, 0, m)
    decreases m
  {
    if m > 0 {
      assert s[i + m - 1] == d[m - 1];
      DigitsValueShift(s, i, d, m - 1);
    }
  }

  /** The digits `%u` prints read back as the number. */
  lemma {:induction false} DigitsOfNat(n: nat)
    ensures forall k :: 0 <= k < |NatToString(n)| ==> IsDigit(NatToString(n)[k])
    ensures DigitsValue(NatToString(n), 0, |NatToString(n)|) == n
    decreases n
  {
    var d := NatToString(n);
    if n >= 10 {
      var h := NatToString(n / 10);
      DigitsOfNat(n / 10);
      assert d == h + [(48 + n % 10) as char];
      DigitsValueShift(d, 0, h, |h|);
    }
  }

  /**
   * `%u`: white space, an optional sign, then the longest run of
   * digits, at least one; the value is stored through an `int *`. None
   * is a matching failure.
   */
  function ScanUnsigned(s: string, i: nat): (r: Option<(int, nat)>)
    requires i <= |s|
    ensures r.Some? ==> i < r.value.1 <= |s| && (r.value.1 == |s| || !IsDigit(s[r.value.1]))
  {
    var j := SkipBlanks(s, i);
    var neg := j < |s| && s[j] == '-';
    var k := if j < |s| && (s[j] == '+' || s[j] == '-') then j + 1 else j;
    var e := DigitsEnd(s, k);
    if e == k then None
    else
      var n: int := DigitsValue(s, k, e);
      Some((Int32(if neg then -n else n), e))
  }

  /**
   * The values a scan assigns, in order, up to the first directive that
   * fails, and the position reached when none fails.
   */
  function Scan(s: string, i: nat, fmt: seq<Directive>): (r: (seq<int>, Option<nat>))
    requires i <= |s|
    ensures r.1.Some? ==> i <= r.1.value <= |s|
    decreases |fmt|, |s| - i
  {
    if |fmt| == 0 then ([], Some(i))
    else
      match fmt[0]
      case Blank => Scan(s, SkipBlanks(s, i), fmt[1..])
      case Literal(c) => if i < |s| && s[i] == c then Scan(s, i + 1, fmt[1..]) else ([], None)
      case Unsigned =>
        match ScanUnsigned(s, i)
        case None => ([], None)
        case Some(p) =>
          var r := Scan(s, p.1, fmt[1..]);
          ([p.0] + r.0, r.1)
  }

  /** The number of values `sscanf(s, fmt, ...)` assigns. */
  function Assigned(s: string, fmt: seq<Directive>): (n: nat)
    ensures n == |Scan(s, 0, fmt).0|
  {
    |Scan(s, 0, fmt).0|
  }

  /** The number of `%u` conversions in a format. */
  function Conversions(fmt: seq<Directive>): nat
  {
    if |fmt| == 0 then 0 else (if fmt[0] == Unsigned then 1 else 0) + Conversions(fmt[1..])
  }

  /** A scan assigns at most one value per conversion, and all of them when no directive fails. */
  lemma {:induction false} ScanCount(s: string, i: nat, fmt: seq<Directive>)
    requires i <= |s|
    ensures |Scan(s, i, fmt).0| <= Conversions(fmt)
    ensures Scan(s, i, fmt).1.Some? ==> |Scan(s, i, fmt).0| == Conversions(fmt)
    decreases |fmt|
  {
    if |fmt| > 0 {
      match fmt[0]
      case Blank =>
        ScanCount(s, SkipBlanks(s, i), fmt[1..]);
      case Literal(c) =>
        if i < |s| && s[i] == c {
          ScanCount(s, i + 1, fmt[1..]);
        }
      case Unsigned =>
        var p := ScanUnsigned(s, i);
        if p.Some? {
          ScanCount(s, p.value.1, fmt[1..]);
        }
    }
  }

  /** Scanning with two formats one after the other: the second starts where the first stopped. */
  lemma {:induction false} ScanAppend(s: string, i: nat, f1: seq<Directive>, f2: seq<Directive>)
    requires i <= |s|
    ensures Scan(s, i, f1).1.None? ==> Scan(s, i, f1 + f2) == Scan(s, i, f1)
    ensures Scan(s, i, f1).1.Some? ==>
      var r := Scan(s, Scan(s, i, f1).1.value, f2);
      Scan(s, i, f1 + f2) == (Scan(s, i, f1).0 + r.0, r.1)
    decreases |f1|
  {
    if |f1| == 0 {
      assert f1 + f2 == f2;
      assert Scan(s, i, f1) == ([], Some(i));
      assert [] + Scan(s, i, f2).0 == Scan(s, i, f2).0;
    } else {
      assert (f1 + f2)[0] == f1[0] && (f1 + f2)[1..] == f1[1..] + f2;
      match f1[0]
      case Blank =>
        ScanAppend(s, SkipBlanks(s, i), f1[1..], f2);
        assert Scan(s, i, f1) == Scan(s, SkipBlanks(s, i), f1[1..]);
        assert Scan(s, i, f1 + f2) == Scan(s, SkipBlanks(s, i), f1[1..] + f2);
      case Literal(c) =>
        if i < |s| && s[i] == c {
          ScanAppend(s, i + 1, f1[1..], f2);
          assert Scan(s, i, f1) == Scan(s, i + 1, f1[1..]);
          assert Scan(s, i, f1 + f2) == Scan(s, i + 1, f1[1..] + f2);
        }
      case Unsigned =>
        var p := ScanUnsigned(s, i);
        if p.Some? {
          var q := p.value;
          ScanAppend(s, q.1, f1[1..], f2);
          var a := Scan(s, q.1, f1[1..]);
          var b := Scan(s, q.1, f1[1..] + f2);
          assert Scan(s, i, f1) == ([q.0] + a.0, a.1);
          assert Scan(s, i, f1 + f2) == ([q.0] + b.0, b.1);
          if a.1.Some? {
            var r := Scan(s, a.1.value, f2);
            assert b == (a.0 + r.0, r.1);
            assert [q.0] + (a.0 + r.0) == ([q.0] + a.0) + r.0;
          }
        }
    }
  }

  /** `%u` at the digits of a number that fits an `int` reads the number and stops after it. */
  lemma {:induction false} UnsignedAt(s: string, i: nat, n: nat)
    requires n < INT_MOD / 2
    requires i + |NatToString(n)| <= |s| && s[i..i + |NatToString(n)|] == NatToString(n)
    requires i + |NatToString(n)| == |s| || !IsDigit(s[i + |NatToString(n)|])
    ensures ScanUnsigned(s, i) == Some((n, i + |NatToString(n)|))
  {
    var d := NatToString(n);
    DigitsOfNat(n);
    assert s[i] == d[0];
    assert SkipBlanks(s, i) == i;
    DigitsEndAt(s, i, |d|);
    assert s[i..i + |d|] == d;
    DigitsValueShift(s, i, d, |d|);
  }

  lemma {:induction false} DigitsEndAt(s: string, i: nat, m: nat)
    requires i + m <= |s|
    requires forall k :: i <= k < i + m ==> IsDigit(s[k])
    requires i + m == |s| || !IsDigit(s[i + m])
    ensures DigitsEnd(s, i) == i + m
    decreases m
  {
    if m > 0 {
      DigitsEndAt(s, i + 1, m - 1);
    }
  }

  /** Literal directives match the same text and move past it. */
  lemma {:induction false} LiteralsAt(s: string, i: nat, t: string)
    requires i + |t| <= |s| && s[i..i + |t|] == t
    ensures Scan(s, i, Literals(t)).0 == [] && Scan(s, i, Literals(t)).1 == Some(i + |t|)
    decreases |t|
  {
    if |t| > 0 {
      assert s[i] == t[0];
      assert s[i + 1..i + 1 + |t[1..]|] == t[1..];
      assert Literals(t)[1..] == Literals(t[1..]);
      LiteralsAt(s, i + 1, t[1..]);
    }
  }

  /** A literal directive that meets another character fails, assigning nothing more. */
  lemma {:induction false} LiteralMismatch(s: string, i: nat, t: string)
    requires |t| > 0 && i <= |s| && (i == |s| || s[i] != t[0])
    ensures Scan(s, i, Literals(t)) == ([], None)
  {
    assert Literals(t)[0] == Literal(t[0]);
  }

  /** A `%u` directive that reads `n` and stops at `e`: the rest of the format goes on from `e`. */
  lemma {:induction false} UnsignedStep(s: string, i: nat, n: int, e: nat, f: seq<Directive>)
    requires i < e <= |s| && ScanUnsigned(s, i) == Some((n, e))
    ensures Scan(s, i, [Unsigned] + f).0 == [n] + Scan(s, e, f).0
    ensures Scan(s, i, [Unsigned] + f).1 == Scan(s, e, f).1
  {
    assert ([Unsigned] + f)[1..] == f;
  }

  /** A literal directive at its own character moves on by one. */
  lemma {:induction false} LiteralStep(s: string, i: nat, c: char, f: seq<Directive>)
    requires i < |s| && s[i] == c
    ensures Scan(s, i, [Literal(c)] + f) == Scan(s, i + 1, f)
  {
    assert ([Literal(c)] + f)[1..] == f;
  }

  /** The format `"%u<sep>%u<sep>%u"`. */
  function Numbers(sep: char): (f: seq<Directive>)
    ensures |f| == 5 && f[1] == f[3] == Literal(sep)
  {
    [Unsigned, Literal(sep), Unsigned, Literal(sep), Unsigned]
  }

  /** The format `"%u.%u.%u"`. */
  const NUMBERS: seq<Directive> := [Unsigned, Literal('.'), Unsigned, Literal('.'), Unsigned]

  /** A `%u` directive at the digits of a number that fits an `int`: the number, then the rest of the format after them. */
  lemma {:induction false} NumberThen(s: string, i: nat, n: nat, f: seq<Directive>)
    requires n < INT_MOD / 2
    requires i + |NatToString(n)| <= |s| && s[i..i + |NatToString(n)|] == NatToString(n)
    requires i + |NatToString(n)| == |s| || !IsDigit(s[i + |NatToString(n)|])
    ensures Scan(s, i, [Unsigned] + f).0 == [n] + Scan(s, i + |NatToString(n)|, f).0
    ensures Scan(s, i, [Unsigned] + f).1 == Scan(s, i + |NatToString(n)|, f).1
  {
    UnsignedAt(s, i, n);
    UnsignedStep(s, i, n, i + |NatToString(n)|, f);
  }

  /** A separator, then the digits of a number: the number, then the rest of the format after them. */
  lemma {:induction false} DotNumber(s: string, i: nat, sep: char, n: nat, f: seq<Directive>)
    requires n < INT_MOD / 2
    requires i < |s| && s[i] == sep
    requires i + 1 + |NatToString(n)| <= |s| && s[i + 1..i + 1 + |NatToString(n)|] == NatToString(n)
    requires i + 1 + |NatToString(n)| == |s| || !IsDigit(s[i + 1 + |NatToString(n)|])
    ensures Scan(s, i, [Literal(sep)] + ([Unsigned] + f)).0 == [n] + Scan(s, i + 1 + |NatToString(n)|, f).0
    ensures Scan(s, i, [Literal(sep)] + ([Unsigned] + f)).1 == Scan(s, i + 1 + |NatToString(n)|, f).1
  {
    LiteralStep(s, i, sep, [Unsigned] + f);
    NumberThen(s, i + 1, n, f);
  }

  /**
   * Three numbers printed with a separator that is not a digit between
   * them, and anything but a digit after them, scan back to the three.
   */
  lemma {:induction false} NumbersScan(s: string, sep: char, i: nat, mj: nat, mn: nat, rev: nat, p1: nat, p2: nat, p3: nat)
    requires mj < INT_MOD / 2 && mn < INT_MOD / 2 && rev < INT_MOD / 2 && !IsDigit(sep)
    requires p1 == i + |NatToString(mj)| && p2 == p1 + 1 + |NatToString(mn)| && p3 == p2 + 1 + |NatToString(rev)|
    requires p3 <= |s| && s[p1] == sep && s[p2] == sep
    requires s[i..p1] == NatToString(mj) && s[p1 + 1..p2] == NatToString(mn) && s[p2 + 1..p3] == NatToString(rev)
    requires p3 == |s| || !IsDigit(s[p3])
    ensures Scan(s, i, Numbers(sep)).0 == [mj, mn, rev]
    ensures Scan(s, i, Numbers(sep)).1 == Some(p3)
  {
    var f4: seq<Directive> := [];
    DotNumber(s, p2, sep, rev, f4);
    var f2 := [Literal(sep)] + ([Unsigned] + f4);
    DotNumber(s, p1, sep, mn, f2);
    var f0 := [Literal(sep)] + ([Unsigned] + f2);
    NumberThen(s, i, mj, f0);
    assert Numbers(sep) == [Unsigned] + f0;
    assert Scan(s, p3, f4) == ([], Some(p3));
    assert [mj] + ([mn] + ([rev] + [])) == [mj, mn, rev];
  }

  /** A version `mj.mn.rev` as `%u.%u.%u` prints it. */
  function NumbersText(mj: nat, mn: nat, rev: nat): (t: string)
    ensures |t| > 0 && IsDigit(t[0]) && IsDigit(t[|t| - 1])
  {
    DigitsOfNat(mj);
    DigitsOfNat(rev);
    NatToString(mj) + "." + NatToString(mn) + "." + NatToString(rev)
  }

  /** A printed version at `i`, followed by anything but a digit, scans back to its three numbers. */
  lemma {:induction false} NumbersAt(s: string, i: nat, mj: nat, mn: nat, rev: nat)
    requires mj < INT_MOD / 2 && mn < INT_MOD / 2 && rev < INT_MOD / 2
    requires i + |NumbersText(mj, mn, rev)| <= |s| && s[i..i + |NumbersText(mj, mn, rev)|] == NumbersText(mj, mn, rev)
    requires i + |NumbersText(mj, mn, rev)| == |s| || !IsDigit(s[i + |NumbersText(mj, mn, rev)|])
    ensures Scan(s, i, NUMBERS).0 == [mj, mn, rev]
    ensures Scan(s, i, NUMBERS).1 == Some(i + |NumbersText(mj, mn, rev)|)
  {
    var p1 := i + |NatToString(mj)|;
    var p2 := p1 + 1 + |NatToString(mn)|;
    NumbersPieces(s, i, mj, mn, rev);
    NumbersScan(s, '.', i, mj, mn, rev, p1, p2, i + |NumbersText(mj, mn, rev)|);
    assert Numbers('.') == NUMBERS;
  }

  /** The digits of each number and the dots of a printed version at `i`. */
  lemma {:induction false} NumbersPieces(s: string, i: nat, mj: nat, mn: nat, rev: nat)
    requires i + |NumbersText(mj, mn, rev)| <= |s| && s[i..i + |NumbersText(mj, mn, rev)|] == NumbersText(mj, mn, rev)
    ensures var p1 := i + |NatToString(mj)|; var p2 := p1 + 1 + |NatToString(mn)|;
      (i + |NumbersText(mj, mn, rev)| == p2 + 1 + |NatToString(rev)| && s[p1] == '.' && s[p2] == '.' &&
       s[i..p1] == NatToString(mj) && s[p1 + 1..p2] == NatToString(mn) &&
       s[p2 + 1..i + |NumbersText(mj, mn, rev)|] == NatToString(rev))
  {
    var d1, d2, d3 := NatToString(mj), NatToString(mn), NatToString(rev);
    var p1 := i + |d1|;
    var p2 := p1 + 1 + |d2|;
    var t := NumbersText(mj, mn, rev);
    var u := s[i..i + |t|];
    assert t == d1 + "." + d2 + "." + d3;
    forall k | 0 <= k < |d1| ensures s[i..p1][k] == d1[k] {
      assert s[i + k] == u[k] == t[k];
    }
    forall k | 0 <= k < |d2| ensures s[p1 + 1..p2][k] == d2[k] {
      assert s[p1 + 1 + k] == u[|d1| + 1 + k] == t[|d1| + 1 + k];
    }
    forall k | 0 <= k < |d3| ensures s[p2 + 1..i + |t|][k] == d3[k] {
      assert s[p2 + 1 + k] == u[|d1| + 1 + |d2| + 1 + k] == t[|d1| + 1 + |d2| + 1 + k];
    }
    assert s[p1] == u[|d1|] == t[|d1|] == '.';
    assert s[p2] == u[|d1| + 1 + |d2|] == t[|d1| + 1 + |d2|] == '.';
  }

  /** A white-space directive skips the white space at `i`, and the rest of the format goes on from there. */
  lemma {:induction false} BlankStep(s: string, i: nat, f: seq<Directive>)
    requires i <= |s|
    ensures Scan(s, i, [Blank] + f) == Scan(s, SkipBlanks(s, i), f)
  {
    assert ([Blank] + f)[1..] == f;
  }

  /**
   * `" <tag>%u"` over a blank, the tag and the digits of `n` that end the
   * text reads `n` and reaches the end.
   */
  lemma {:induction false} TagAt(s: string, i: nat, tag: string, n: nat)
    requires n < INT_MOD / 2 && |tag| > 0 && !IsSpace(tag[0])
    requires i <= |s| && s[i..] == " " + tag + NatToString(n)
    ensures Scan(s, i, [Blank] + Literals(tag) + [Unsigned]).0 == [n]
    ensures Scan(s, i, [Blank] + Literals(tag) + [Unsigned]).1 == Some(|s|)
  {
    TagPieces(s, i, tag, n);
    TagScan(s, i, tag, n);
  }

  /** The blank, the tag and the digits of `" <tag><n>"` at the end of `s`. */
  lemma {:induction false} TagPieces(s: string, i: nat, tag: string, n: nat)
    requires i <= |s| && s[i..] == " " + tag + NatToString(n)
    ensures i + 1 + |tag| + |NatToString(n)| == |s| && s[i] == ' '
    ensures s[i + 1..i + 1 + |tag|] == tag && s[i + 1 + |tag|..] == NatToString(n)
  {
    var q := i + 1;
    var e := q + |tag|;
    var d := NatToString(n);
    var u := s[i..];
    assert s[i] == u[0] == ' ';
    forall k | 0 <= k < |tag| ensures s[q..e][k] == tag[k] {
      assert s[q + k] == u[1 + k];
    }
    forall k | 0 <= k < |d| ensures s[e..][k] == d[k] {
      assert s[e + k] == u[1 + |tag| + k];
    }
  }

  /** The scan of `" <tag>%u"` over the pieces `TagPieces` names. */
  lemma {:induction false} TagScan(s: string, i: nat, tag: string, n: nat)
    requires n < INT_MOD / 2 && |tag| > 0 && !IsSpace(tag[0])
    requires i + 1 + |tag| + |NatToString(n)| == |s| && s[i] == ' '
    requires s[i + 1..i + 1 + |tag|] == tag && s[i + 1 + |tag|..] == NatToString(n)
    ensures Scan(s, i, [Blank] + Literals(tag) + [Unsigned]).0 == [n]
    ensures Scan(s, i, [Blank] + Literals(tag) + [Unsigned]).1 == Some(|s|)
  {
    var q := i + 1;
    var f := [Blank] + Literals(tag) + [Unsigned];
    assert s[q] == tag[0];
    assert SkipBlanks(s, i) == q;
    assert f == [Blank] + (Literals(tag) + [Unsigned]);
    BlankStep(s, i, Literals(tag) + [Unsigned]);
    LiteralsThen(s, q, tag, [Unsigned]);
    LastNumber(s, q + |tag|, n);
  }

  /** Literal text that is there moves the scan past it, assigning nothing. */
  lemma {:induction false} LiteralsThen(s: string, i: nat, t: string, f: seq<Directive>)
    requires i + |t| <= |s| && s[i..i + |t|] == t
    ensures Scan(s, i, Literals(t) + f) == Scan(s, i + |t|, f)
  {
    ScanAppend(s, i, Literals(t), f);
    LiteralsAt(s, i, t);
    assert [] + Scan(s, i + |t|, f).0 == Scan(s, i + |t|, f).0;
  }

  /** A last `%u` over the digits of `n` that end the text reads `n` and reaches the end. */
  lemma {:induction false} LastNumber(s: string, i: nat, n: nat)
    requires n < INT_MOD / 2 && i <= |s| && s[i..] == NatToString(n)
    ensures Scan(s, i, [Unsigned]).0 == [n] && Scan(s, i, [Unsigned]).1 == Some(|s|)
  {
    assert s[i..i + |NatToString(n)|] == s[i..];
    NumberThen(s, i, n, []);
    assert [Unsigned] + [] == [Unsigned];
    assert Scan(s, |s|, []).0 == [] && Scan(s, |s|, []).1 == Some(|s|);
    assert [n] + [] == [n];
  }

  /** `" <tag>%u"` fails, assigning nothing, when the text after the white space at `i` does not start with the tag's first letter. */
  lemma {:induction false} TagMismatch(s: string, i: nat, tag: string)
    requires |tag| > 0 && i <= |s|
    requires SkipBlanks(s, i) == |s| || s[SkipBlanks(s, i)] != tag[0]
    ensures Scan(s, i, [Blank] + Literals(tag) + [Unsigned]) == ([], None)
  {
    var q := SkipBlanks(s, i);
    assert [Blank] + Literals(tag) + [Unsigned] == [Blank] + (Literals(tag) + [Unsigned]);
    BlankStep(s, i, Literals(tag) + [Unsigned]);
    ScanAppend(s, q, Literals(tag), [Unsigned]);
    LiteralMismatch(s, q, tag);
  }

  // ---------------------------------------------------------------------
  // wxString::Trim
  // ---------------------------------------------------------------------

  function TrimLeft(s: string): (t: string)
    ensures |t| <= |s| && t == s[|s| - |t|..]
    ensures |t| == 0 || !IsSpace(t[0])
    ensures forall k :: 0 <= k < |s| - |t| ==> IsSpace(s[k])
  {
    if |s| > 0 && IsSpace(s[0]) then TrimLeft(s[1..]) else s
  }

  function TrimRight(s: string): (t: string)
    ensures |t| <= |s| && t == s[..|t|]
    ensures |t| == 0 || !IsSpace(t[|t| - 1])
    ensures forall k :: |t| <= k < |s| ==> IsSpace(s[k])
  {
    if |s| > 0 && IsSpace(s[|s| - 1]) then TrimRight(s[..|s| - 1]) else s
  }

  /** `Trim(true)` then `Trim(false)`: white space removed from both ends. */
  function Trim(s: string): (t: string)
    ensures |t| == 0 || (!IsSpace(t[0]) && !IsSpace(t[|t| - 1]))
  {
    TrimLeft(TrimRight(s))
  }

  /** What is trimmed off is white space only, so the rest of the text is untouched. */
  lemma {:induction false} TrimKeepsMiddle(s: string)
    ensures exists a, b :: (0 <= a <= b <= |s| && Trim(s) == s[a..b] &&
      (forall k :: 0 <= k < a ==> IsSpace(s[k])) && (forall k :: b <= k < |s| ==> IsSpace(s[k])))
  {
    var r := TrimRight(s);
    var t := TrimLeft(r);
    var a := |r| - |t|;
    assert t == s[a..|r|];
  }
}
