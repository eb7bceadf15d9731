/**
 * The language redirector of the HTML handbook
 * (trunk/doc/html/Scripts/redirector.js): the English page looks up the
 * `language` cookie, else takes the browser's two-letter language code
 * when a translation exists for it, else English; it saves the choice in
 * the cookie and replaces itself with the page of that language.
 *
 * JavaScript strings are modelled as `string`; `undefined` and `null` are
 * `None`.
 */
module Redirector {
  import opened Types

  /** The list of existing translations. */
  const TRANSLATIONS: seq<string> := ["en", "de", "fa", "ru"]

  const DEFAULT_LANGUAGE: string := "en"

  const COOKIE_NAME: string := "language"

  /** The separator of the pairs of `document.cookie`, as in section 5.4 of RFC 6265. */
  const PAIR_SEPARATOR: string := "; "

  // ---------------------------------------------------------------------
  // String.prototype.split and unescape
  // ---------------------------------------------------------------------

  /** `s.split(sep)` for a non-empty separator: the texts between the occurrences, left to right. */
  function Split(s: string, sep: string): (parts: seq<string>)
    requires |sep| > 0
    ensures |parts| > 0
    decreases |s|
  {
    var k := FirstIndex(s, sep);
    if k == -1 then [s] else [s[..k]] + Split(s[k + |sep|..], sep)
  }

  /** `parts.join(sep)`. */
  function Join(parts: seq<string>, sep: string): string
  {
    if |parts| == 0 then "" else if |parts| == 1 then parts[0] else parts[0] + sep + Join(parts[1..], sep)
  }

  /** Joining the pieces with the separator gives the text back. */
  lemma {:induction false} JoinSplit(s: string, sep: string)
    requires |sep| > 0
    ensures Join(Split(s, sep), sep) == s
    decreases |s|
  {
    var k := FirstIndex(s, sep);
    if k != -1 {
      var rest := s[k + |sep|..];
      JoinSplit(rest, sep);
      assert s[k..k + |sep|] == sep;
      assert Split(s, sep) == [s[..k]] + Split(rest, sep);
      assert s == s[..k] + sep + rest by {
        assert s == s[..k] + s[k..k + |sep|] + s[k + |sep|..];
      }
    }
  }

  /** No piece contains the separator. */
  lemma {:induction false} SplitPieces(s: string, sep: string)
    requires |sep| > 0
    ensures forall p :: p in Split(s, sep) ==> !Contains(p, sep)
    decreases |s|
  {
    var k := FirstIndex(s, sep);
    if k != -1 {
      SplitPieces(s[k + |sep|..], sep);
      var a := s[..k];
      forall j | 0 <= j <= |a| ensures !StartsAt(a, sep, j) {
        if StartsAt(a, sep, j) {
          assert s[j..j + |sep|] == a[j..j + |sep|];
          assert StartsAt(s, sep, j);
        }
      }
    }
  }

  /** A text whose first part holds no first character of the separator splits there. */
  lemma {:induction false} SplitFront(a: string, sep: string, b: string)
    requires |sep| > 0
    requires forall k :: 0 <= k < |a| ==> a[k] != sep[0]
    ensures Split(a + sep + b, sep) == [a] + Split(b, sep)
  {
    var s := a + sep + b;
    forall j | 0 <= j < |a| ensures !StartsAt(s, sep, j) {
      if j + |sep| <= |s| {
        assert s[j..j + |sep|][0] == s[j] == a[j];
      }
    }
    assert s[|a|..|a| + |sep|] == sep;
    assert StartsAt(s, sep, |a|);
    var k := FirstIndex(s, sep);
    assert k != -1;
    assert k == |a|;
    assert s[..|a|] == a && s[|a| + |sep|..] == b;
  }

  /** A text without the separator's first character is one piece. */
  lemma {:induction false} SplitWhole(a: string, sep: string)
    requires |sep| > 0
    requires forall k :: 0 <= k < |a| ==> a[k] != sep[0]
    ensures Split(a, sep) == [a]
  {
    forall j | 0 <= j <= |a| ensures !StartsAt(a, sep, j) {
      if j + |sep| <= |a| {
        assert a[j..j + |sep|][0] == a[j];
      }
    }
  }

  predicate IsHex(c: char)
  {
    '0' <= c <= '9' || 'a' <= c <= 'f' || 'A' <= c <= 'F'
  }

  function HexValue(c: char): (n: nat)
    requires IsHex(c)
    ensures n < 16
  {
    if '0' <= c <= '9' then c as int - '0' as int
    else if 'a' <= c <= 'f' then c as int - 'a' as int + 10
    else c as int - 'A' as int + 10
  }

  /** The value of the hexadecimal digits `s[i..i + n]`, most significant first. */
  function HexNumber(s: string, i: nat, n: nat): (v: nat)
    requires i + n <= |s| && forall k :: i <= k < i + n ==> IsHex(s[k])
    decreases n
  {
    if n == 0 then 0 else HexNumber(s, i, n - 1) * 16 + HexValue(s[i + n - 1])
  }

  lemma {:induction false} HexNumberBound(s: string, i: nat, n: nat)
    requires i + n <= |s| && forall k :: i <= k < i + n ==> IsHex(s[k])
    ensures HexNumber(s, i, n) < Pow16(n)
    decreases n
  {
    if n > 0 {
      HexNumberBound(s, i, n - 1);
    }
  }

  function Pow16(n: nat): (p: nat)
    ensures p > 0
  {
    if n == 0 then 1 else 16 * Pow16(n - 1)
  }

  predicate HexAt(s: string, i: nat, n: nat)
  {
    i + n <= |s| && forall k :: i <= k < i + n ==> IsHex(s[k])
  }

  /**
   * The global `unescape` of section B.2.1.2 of ECMA-262: `%uXXXX` and
   * `%XX` become the character with that code, everything else is kept.
   */
  function Unescape(s: string): (r: string)
    ensures |r| <= |s|
    decreases |s|
  {
    if |s| == 0 then ""
    else if s[0] == '%' && HexAt(s, 2, 4) && s[1] == 'u' && ScalarCode(HexNumber(s, 2, 4)) then
      HexNumberBound(s, 2, 4);
      [HexNumber(s, 2, 4) as char] + Unescape(s[6..])
    else if s[0] == '%' && HexAt(s, 1, 2) then
      HexNumberBound(s, 1, 2);
      [HexNumber(s, 1, 2) as char] + Unescape(s[3..])
    else [s[0]] + Unescape(s[1..])
  }

  /** A code that is a character of its own (not half of a surrogate pair). */
  predicate ScalarCode(n: nat)
  {
    n < 0xD800 || (0xE000 <= n < 0x11_0000)
  }

  /** Text without a `%` is kept as it is. */
  lemma {:induction false} UnescapePlain(s: string)
    requires forall k :: 0 <= k < |s| ==> s[k] != '%'
    ensures Unescape(s) == s
    decreases |s|
  {
    if |s| > 0 {
      UnescapePlain(s[1..]);
    }
  }

  // ---------------------------------------------------------------------
  // get_cookie
  // ---------------------------------------------------------------------

  /** `c[1]` of `pair.split("=")`: the text between the first and second `=`; `unescape(undefined)` is "undefined". */
  function ValueField(pair: string): string
  {
    var c := Split(pair, "=");
    if |c| > 1 then c[1] else "undefined"
  }

  function NameField(pair: string): string
  {
    Split(pair, "=")[0]
  }

  /** The unescaped value of the first pair with the name, or None. */
  function CookieIn(pairs: seq<string>, name: string): Option<string>
  {
    if |pairs| == 0 then None
    else if NameField(pairs[0]) == name then Some(Unescape(ValueField(pairs[0])))
    else CookieIn(pairs[1..], name)
  }

  function GetCookie(cookies: string, name: string): Option<string>
  {
    CookieIn(Split(cookies, PAIR_SEPARATOR), name)
  }

  /** The first pair with the name decides. */
  lemma {:induction false} CookieFirst(pairs: seq<string>, name: string, i: nat)
    requires i < |pairs| && NameField(pairs[i]) == name
    requires forall j :: 0 <= j < i ==> NameField(pairs[j]) != name
    ensures CookieIn(pairs, name) == Some(Unescape(ValueField(pairs[i])))
    decreases i
  {
    if i > 0 {
      assert NameField(pairs[0]) != name;
      assert forall j :: 0 <= j < i - 1 ==> pairs[1..][j] == pairs[j + 1];
      CookieFirst(pairs[1..], name, i - 1);
    }
  }

  /** Without a pair of that name the lookup gives None. */
  lemma {:induction false} CookieAbsent(pairs: seq<string>, name: string)
    requires forall j :: 0 <= j < |pairs| ==> NameField(pairs[j]) != name
    ensures CookieIn(pairs, name) == None
    decreases |pairs|
  {
    if |pairs| > 0 {
      assert NameField(pairs[0]) != name;
      assert forall j :: 0 <= j < |pairs| - 1 ==> pairs[1..][j] == pairs[j + 1];
      CookieAbsent(pairs[1..], name);
    }
  }

  /** Only the text between the first and the second `=` is the value. */
  lemma {:induction false} ValueBetween(name: string, v: string, w: string)
    requires forall k :: 0 <= k < |name| ==> name[k] != '='
    requires forall k :: 0 <= k < |v| ==> v[k] != '='
    ensures NameField(name + "=" + v + "=" + w) == name
    ensures ValueField(name + "=" + v + "=" + w) == v
  {
    assert name + "=" + v + "=" + w == name + "=" + (v + "=" + w);
    SplitFront(name, "=", v + "=" + w);
    SplitFront(v, "=", w);
  }

  /** `get_cookie(name)`: the loop over the pairs of `document.cookie` (`cookies`). */
  method GetCookieOf(cookies: string, name: string) returns (value: Option<string>)
    ensures value == GetCookie(cookies, name)
  {
    var cookie := Split(cookies, PAIR_SEPARATOR);
    var i := 0;
    while i < |cookie|
      invariant 0 <= i <= |cookie|
      invariant CookieIn(cookie[i..], name) == CookieIn(cookie, name)
    {
      assert cookie[i..][1..] == cookie[i + 1..];
      var c := Split(cookie[i], "=");
      if name == c[0] {
        return Some(Unescape(if |c| > 1 then c[1] else "undefined"));
      }
      i := i + 1;
    }
    return None;
  }

  // ---------------------------------------------------------------------
  // The choice of language
  // ---------------------------------------------------------------------

  /** A value that `if (!x)` does not take as false: defined and not empty. */
  predicate Truthy(v: Option<string>)
  {
    v.Some? && v.value != ""
  }

  /** `navigator.language || navigator.systemLanguage`. */
  function Preferred(language: Option<string>, systemLanguage: Option<string>): (p: Option<string>)
    ensures Truthy(language) ==> p == language
    ensures !Truthy(language) ==> p == systemLanguage
  {
    if Truthy(language) then language else systemLanguage
  }

  /** `lang_code.toLowerCase().substr(0, 2)`. */
  function LanguagePrefix(code: string): (l: string)
    ensures |l| == Min(2, |code|)
    ensures forall k :: 0 <= k < |l| ==> l[k] == Lower(code[k])
  {
    LowerStr(code)[..Min(2, |code|)]
  }

  /** The outcome of `redirect` up to the navigation: the language, or the TypeError of `toLowerCase` on `undefined`. */
  datatype Choice = Chosen(lang: string) | TypeError

  function Choose(cookie: Option<string>, language: Option<string>, systemLanguage: Option<string>): Choice
  {
    if Truthy(cookie) then Chosen(cookie.value)
    else
      match Preferred(language, systemLanguage)
      case None => TypeError
      case Some(code) =>
        var lang := LanguagePrefix(code);
        if lang in TRANSLATIONS then Chosen(lang) else Chosen(DEFAULT_LANGUAGE)
  }

  /** A cookie value is taken as it is: it need not be one of the translations. */
  lemma {:induction false} CookieUnchecked(v: string, language: Option<string>, systemLanguage: Option<string>)
    requires v != "" && forall k :: 0 <= k < |v| ==> v[k] != '=' && v[k] != ';' && v[k] != '%'
    ensures Choose(GetCookie(COOKIE_NAME + "=" + v, COOKIE_NAME), language, systemLanguage) == Chosen(v)
  {
    SavedCookieReadsBack(v);
  }

  /** Without a cookie, the choice is always one of the translations. */
  lemma {:induction false} CookielessListed(cookie: Option<string>, language: Option<string>, systemLanguage: Option<string>)
    requires !Truthy(cookie)
    ensures Choose(cookie, language, systemLanguage).Chosen? ==> Choose(cookie, language, systemLanguage).lang in TRANSLATIONS
  {
    assert DEFAULT_LANGUAGE == TRANSLATIONS[0];
  }

  /** Without a cookie, a browser code that starts with a translation's letters, in either case, picks that translation. */
  lemma {:induction false} BrowserCodeChooses(lang: string, rest: string, systemLanguage: Option<string>)
    requires lang in TRANSLATIONS
    ensures Choose(None, Some(UpperStr(lang) + rest), systemLanguage) == Chosen(lang)
  {
    var code := UpperStr(lang) + rest;
    assert |lang| == 2 && 'a' <= lang[0] <= 'z' && 'a' <= lang[1] <= 'z';
    var l := LanguagePrefix(code);
    assert |l| == 2;
    assert code[0] == Upper(lang[0]) && code[1] == Upper(lang[1]);
    assert l[0] == lang[0] && l[1] == lang[1];
    assert l == lang;
  }

  /** The script fails exactly when there is no cookie and neither browser language is defined. */
  lemma {:induction false} FailsIff(cookie: Option<string>, language: Option<string>, systemLanguage: Option<string>)
    ensures Choose(cookie, language, systemLanguage) == TypeError <==> (!Truthy(cookie) && !Truthy(language) && systemLanguage.None?)
  {
  }

  /** The first translation equal to the code: `for (i = 0; ...) if (lang == translations[i]) ...`. */
  method FindTranslation(lang: string) returns (found: Option<string>)
    ensures found == (if lang in TRANSLATIONS then Some(lang) else None)
  {
    found := None;
    var i := 0;
    while i < |TRANSLATIONS|
      invariant 0 <= i <= |TRANSLATIONS|
      invariant lang !in TRANSLATIONS[..i]
    {
      if lang == TRANSLATIONS[i] {
        found := Some(lang);
        break;
      }
      assert TRANSLATIONS[..i + 1] == TRANSLATIONS[..i] + [TRANSLATIONS[i]];
      i := i + 1;
    }
    assert i == |TRANSLATIONS| ==> TRANSLATIONS[..i] == TRANSLATIONS;
  }

  // ---------------------------------------------------------------------
  // The saved cookie and the target page
  // ---------------------------------------------------------------------

  /** The string assigned to `document.cookie`. */
  function SavedCookie(lang: string): (c: string)
    ensures c == COOKIE_NAME + "=" + lang + "; path=/"
  {
    COOKIE_NAME + "=" + lang + "; path=/"
  }

  /** The saved pair, as `document.cookie` later returns it, reads back to the language. */
  lemma {:induction false} SavedCookieReadsBack(lang: string)
    requires forall k :: 0 <= k < |lang| ==> lang[k] != '=' && lang[k] != ';' && lang[k] != '%'
    ensures GetCookie(COOKIE_NAME + "=" + lang, COOKIE_NAME) == Some(lang)
  {
    var pair := COOKIE_NAME + "=" + lang;
    assert forall k :: 0 <= k < |COOKIE_NAME| ==> COOKIE_NAME[k] != '=' by {
      assert COOKIE_NAME == "language";
    }
    forall k | 0 <= k < |pair| ensures pair[k] != ';' {
      if k >= |COOKIE_NAME| + 1 {
        assert pair[k] == lang[k - |COOKIE_NAME| - 1];
      }
    }
    SplitWhole(pair, PAIR_SEPARATOR);
    SplitFront(COOKIE_NAME, "=", lang);
    SplitWhole(lang, "=");
    UnescapePlain(lang);
  }

  /** Every translation can be saved and read back. */
  lemma ListedReadBack(lang: string)
    requires lang in TRANSLATIONS
    ensures GetCookie(COOKIE_NAME + "=" + lang, COOKIE_NAME) == Some(lang)
  {
    SavedCookieReadsBack(lang);
  }

  /** `s.lastIndexOf(c)`. */
  function LastIndexOf(s: string, c: char): (k: int)
    ensures -1 <= k < |s|
    ensures k == -1 <==> c !in s
    ensures k >= 0 ==> s[k] == c && forall j :: k < j < |s| ==> s[j] != c
    decreases |s|
  {
    if |s| == 0 then -1
    else if s[|s| - 1] == c then |s| - 1
    else LastIndexOf(s[..|s| - 1], c)
  }

  /** `href.substring(0, href.lastIndexOf("/"))`; a negative end counts as 0. */
  function Root(href: string): string
  {
    var k := LastIndexOf(href, '/');
    if k < 0 then "" else href[..k]
  }

  /** The root is the address up to its last `/`, or empty when there is none. */
  lemma {:induction false} RootOfHref(href: string)
    ensures '/' !in href ==> Root(href) == ""
    ensures '/' in href ==>
      exists page: string :: href == Root(href) + "/" + page && '/' !in page
  {
    var k := LastIndexOf(href, '/');
    if k >= 0 {
      var page := href[k + 1..];
      assert href == href[..k] + "/" + page;
      assert '/' !in page by {
        forall j | 0 <= j < |page| ensures page[j] != '/' {
          assert page[j] == href[k + 1 + j];
        }
      }
    }
  }

  /** The page of the chosen language next to the current one. */
  function Target(root: string, lang: string, page: string): string
  {
    root + "/" + lang + "/" + page
  }

  /** The target of a listed language lies in that language's folder under the root. */
  lemma {:induction false} TargetInFolder(root: string, lang: string, page: string)
    ensures var t := Target(root, lang, page);
      (t[..|root| + 1] == root + "/" && t[|root| + 1..|root| + 1 + |lang|] == lang &&
       t[|root| + 1 + |lang|..] == "/" + page)
  {
    var t := Target(root, lang, page);
    assert t == (root + "/") + lang + ("/" + page);
  }

  /** The script's globals and the parts of the browser it writes. */
  class Page {
    var root: string
    var targetLanguage: Option<string>
    var assignedCookie: Option<string>
    var location: string

    /** Loading the script: `target_language` is null and `root` is taken from the address. */
    constructor(href: string)
      ensures root == Root(href) && targetLanguage.None? && assignedCookie.None? && location == href
    {
      root := Root(href);
      targetLanguage := None;
      assignedCookie := None;
      location := href;
    }

    /**
     * `redirect(page)`: `cookies` is what `document.cookie` returns,
     * `language` and `systemLanguage` the navigator's properties. False
     * when `toLowerCase` throws; the cookie is then neither saved nor the
     * page left.
     */
    method Redirect(page: string, cookies: string, language: Option<string>, systemLanguage: Option<string>)
      returns (ok: bool)
      modifies this
      ensures root == old(root)
      ensures var choice := Choose(GetCookie(cookies, COOKIE_NAME), language, systemLanguage);
        (ok <==> choice.Chosen?) &&
        (ok ==> (targetLanguage == Some(choice.lang) &&
                 assignedCookie == Some(SavedCookie(choice.lang)) &&
                 location == Target(root, choice.lang, page))) &&
        (!ok ==> (targetLanguage == GetCookie(cookies, COOKIE_NAME) &&
                  assignedCookie == old(assignedCookie) && location == old(location)))
    {
      targetLanguage := GetCookieOf(cookies, COOKIE_NAME);
      if !Truthy(targetLanguage) {
        var langCode := Preferred(language, systemLanguage);
        if langCode.None? {
          return false;
        }
        var lang := LanguagePrefix(langCode.value);
        var found := FindTranslation(lang);
        if found.Some? {
          targetLanguage := found;
        }
      }
      if !Truthy(targetLanguage) {
        targetLanguage := Some(DEFAULT_LANGUAGE);
      }
      assignedCookie := Some(SavedCookie(targetLanguage.value));
      location := Target(root, targetLanguage.value, page);
      return true;
    }
  }
}
