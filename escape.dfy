/** The two escapers of plugin.js: `escapeHtml` for element content and
    `escapeAttribute` for a double-quoted attribute value. Each is written as
    the source writes it, a chain of global replacements, and is proved equal
    to a one-pass reference that maps every character (or CRLF pair) to its
    replacement at once; the properties are then proved of that reference. */
module Escape {
  import opened Text

  // ---------------------------------------------------------------------
  // escapeHtml
  // ---------------------------------------------------------------------

  /** `escapeHtml`: `&` first, then `<`, `>`, `"` and `'`. */
  function EscapeHtml(unsafe: string): string {
    ReplaceAll(ReplaceAll(ReplaceAll(ReplaceAll(ReplaceAll(
      unsafe, "&", "&amp;"), "<", "&lt;"), ">", "&gt;"), "\"", "&quot;"), "'", "&#039;")
  }

  /** The character reference `escapeHtml` writes for one character. */
  function HtmlChar(c: char): string {
    match c
    case '&' => "&amp;"
    case '<' => "&lt;"
    case '>' => "&gt;"
    case '"' => "&quot;"
    case '\'' => "&#039;"
    case _ => [c]
  }

  /** One-pass reference for `escapeHtml`. */
  function HtmlRef(s: string): string {
    if s == [] then [] else HtmlChar(s[0]) + HtmlRef(s[1..])
  }

  predicate IsHtmlSpecial(c: char) {
    c == '&' || c == '<' || c == '>' || c == '"' || c == '\''
  }

  /** The chain of `escapeHtml` written with character classes. */
  function HtmlPasses(s: string): string {
    ReplaceAny(ReplaceAny(ReplaceAny(ReplaceAny(ReplaceAny(
      s, {'&'}, "&amp;"), {'<'}, "&lt;"), {'>'}, "&gt;"), {'"'}, "&quot;"), {'\''}, "&#039;")
  }

  lemma EscapeHtmlPasses(s: string)
    ensures EscapeHtml(s) == HtmlPasses(s)
  {
    var s1 := ReplaceAll(s, "&", "&amp;");
    var s2 := ReplaceAll(s1, "<", "&lt;");
    var s3 := ReplaceAll(s2, ">", "&gt;");
    var s4 := ReplaceAll(s3, "\"", "&quot;");
    ReplaceCharIsClass(s, '&', "&amp;");
    ReplaceCharIsClass(s1, '<', "&lt;");
    ReplaceCharIsClass(s2, '>', "&gt;");
    ReplaceCharIsClass(s3, '"', "&quot;");
    ReplaceCharIsClass(s4, '\'', "&#039;");
  }

  lemma HtmlPassesAppend(a: string, b: string)
    ensures HtmlPasses(a + b) == HtmlPasses(a) + HtmlPasses(b)
  {
    var a1, b1 := ReplaceAny(a, {'&'}, "&amp;"), ReplaceAny(b, {'&'}, "&amp;");
    var a2, b2 := ReplaceAny(a1, {'<'}, "&lt;"), ReplaceAny(b1, {'<'}, "&lt;");
    var a3, b3 := ReplaceAny(a2, {'>'}, "&gt;"), ReplaceAny(b2, {'>'}, "&gt;");
    var a4, b4 := ReplaceAny(a3, {'"'}, "&quot;"), ReplaceAny(b3, {'"'}, "&quot;");
    ReplaceAnyAppend(a, b, {'&'}, "&amp;");
    ReplaceAnyAppend(a1, b1, {'<'}, "&lt;");
    ReplaceAnyAppend(a2, b2, {'>'}, "&gt;");
    ReplaceAnyAppend(a3, b3, {'"'}, "&quot;");
    ReplaceAnyAppend(a4, b4, {'\''}, "&#039;");
  }

  lemma ReplaceAnySingle(x: char, cs: set<char>, rep: string)
    ensures ReplaceAny([x], cs, rep) == if x in cs then rep else [x]
  {
    assert [x][1..] == [];
  }

  lemma HtmlPassesChar(x: char)
    ensures HtmlPasses([x]) == HtmlChar(x)
  {
    if IsHtmlSpecial(x) {
      HtmlPassesSpecial(x);
    } else {
      ReplaceAnySingle(x, {'&'}, "&amp;");
      ReplaceAnySingle(x, {'<'}, "&lt;");
      ReplaceAnySingle(x, {'>'}, "&gt;");
      ReplaceAnySingle(x, {'"'}, "&quot;");
      ReplaceAnySingle(x, {'\''}, "&#039;");
    }
  }

  /** Passes after the one that writes reference `e` keep it. */
  lemma HtmlTailPasses(e: string, from: nat)
    requires 1 <= from <= 5
    requires from <= 1 ==> '<' !in e
    requires from <= 2 ==> '>' !in e
    requires from <= 3 ==> '"' !in e
    requires from <= 4 ==> '\'' !in e
    ensures from <= 1 ==> ReplaceAny(e, {'<'}, "&lt;") == e
    ensures from <= 2 ==> ReplaceAny(e, {'>'}, "&gt;") == e
    ensures from <= 3 ==> ReplaceAny(e, {'"'}, "&quot;") == e
    ensures from <= 4 ==> ReplaceAny(e, {'\''}, "&#039;") == e
  {
    if from <= 1 { ReplaceAnyIdentity(e, {'<'}, "&lt;"); }
    if from <= 2 { ReplaceAnyIdentity(e, {'>'}, "&gt;"); }
    if from <= 3 { ReplaceAnyIdentity(e, {'"'}, "&quot;"); }
    if from <= 4 { ReplaceAnyIdentity(e, {'\''}, "&#039;"); }
  }

  /** The references hold none of the characters the later passes replace. */
  lemma AmpPlain()
    ensures '<' !in "&amp;" && '>' !in "&amp;" && '"' !in "&amp;" && '\'' !in "&amp;"
  {
  }

  lemma LtPlain()
    ensures '>' !in "&lt;" && '"' !in "&lt;" && '\'' !in "&lt;"
  {
  }

  lemma GtPlain()
    ensures '"' !in "&gt;" && '\'' !in "&gt;"
  {
  }

  lemma QuotPlain()
    ensures '<' !in "&quot;" && '>' !in "&quot;" && '\'' !in "&quot;"
  {
  }

  lemma AposPlain()
    ensures '"' !in "&apos;" && '<' !in "&apos;" && '>' !in "&apos;"
  {
  }

  lemma HtmlPassesSpecial(x: char)
    requires IsHtmlSpecial(x)
    ensures HtmlPasses([x]) == HtmlChar(x)
  {
    var e := HtmlChar(x);
    ReplaceAnySingle(x, {'&'}, "&amp;");
    if x != '&' { ReplaceAnySingle(x, {'<'}, "&lt;"); }
    if x != '&' && x != '<' { ReplaceAnySingle(x, {'>'}, "&gt;"); }
    if x == '"' || x == '\'' { ReplaceAnySingle(x, {'"'}, "&quot;"); }
    if x == '\'' { ReplaceAnySingle(x, {'\''}, "&#039;"); }
    match x
    case '&' =>
      AmpPlain();
      HtmlTailPasses(e, 1);
    case '<' =>
      LtPlain();
      HtmlTailPasses(e, 2);
    case '>' =>
      GtPlain();
      HtmlTailPasses(e, 3);
    case '"' =>
      QuotPlain();
      HtmlTailPasses(e, 4);
    case '\'' =>
  }

  /** The five passes of `escapeHtml` equal the one-pass reference: because
      `&` is replaced first, no later pass touches a reference written by an
      earlier one. */
  lemma {:induction false} EscapeHtmlIsOnePass(s: string)
    ensures EscapeHtml(s) == HtmlRef(s)
  {
    EscapeHtmlPasses(s);
    HtmlPassesIsRef(s);
  }

  lemma {:induction false} HtmlPassesIsRef(s: string)
    ensures HtmlPasses(s) == HtmlRef(s)
  {
    if s != [] {
      assert s == [s[0]] + s[1..];
      HtmlPassesAppend([s[0]], s[1..]);
      HtmlPassesChar(s[0]);
      HtmlPassesIsRef(s[1..]);
    } else {
      assert HtmlPasses(s) == [];
    }
  }

  // ---------------------------------------------------------------------
  // escapeAttribute
  // ---------------------------------------------------------------------

  /** The line-break unit of `escapeAttribute`: the character reference for
      CR when `preserveCR` holds (the default), a bare LF otherwise. */
  function Newline(preserveCR: bool): string {
    if preserveCR then "&#13;" else "\n"
  }

  /** `escapeAttribute(unsafe, preserveCR)`: the five characters first, then
      CRLF as one unit, then every remaining CR or LF. */
  function EscapeAttribute(unsafe: string, preserveCR: bool): string {
    var newline := Newline(preserveCR);
    ReplaceAny(
      ReplaceAll(
        ReplaceAll(ReplaceAll(ReplaceAll(ReplaceAll(ReplaceAll(
          unsafe, "&", "&amp;"), "'", "&apos;"), "\"", "&quot;"), "<", "&lt;"), ">", "&gt;"),
        "\r\n", newline),
      {'\r', '\n'}, newline)
  }

  /** The character reference `escapeAttribute` writes for one of its five
      characters. */
  function AttrChar(c: char): string {
    match c
    case '&' => "&amp;"
    case '\'' => "&apos;"
    case '"' => "&quot;"
    case '<' => "&lt;"
    case '>' => "&gt;"
    case _ => [c]
  }

  predicate IsLineBreakChar(c: char) {
    c == '\r' || c == '\n'
  }

  /** One-pass reference for `escapeAttribute`: a CRLF pair, a lone CR and a
      lone LF each become one line-break unit. */
  function AttrRef(s: string, newline: string): string {
    if s == [] then []
    else if |s| >= 2 && s[0] == '\r' && s[1] == '\n' then newline + AttrRef(s[2..], newline)
    else (if IsLineBreakChar(s[0]) then newline else AttrChar(s[0])) + AttrRef(s[1..], newline)
  }

  /** The five character passes of `escapeAttribute`, with classes. */
  function AttrPasses(s: string): string {
    ReplaceAny(ReplaceAny(ReplaceAny(ReplaceAny(ReplaceAny(
      s, {'&'}, "&amp;"), {'\''}, "&apos;"), {'"'}, "&quot;"), {'<'}, "&lt;"), {'>'}, "&gt;")
  }

  /** The per-character map the five passes amount to. */
  function AttrChars(s: string): string {
    if s == [] then [] else AttrChar(s[0]) + AttrChars(s[1..])
  }

  lemma AttrPassesAppend(a: string, b: string)
    ensures AttrPasses(a + b) == AttrPasses(a) + AttrPasses(b)
  {
    var a1, b1 := ReplaceAny(a, {'&'}, "&amp;"), ReplaceAny(b, {'&'}, "&amp;");
    var a2, b2 := ReplaceAny(a1, {'\''}, "&apos;"), ReplaceAny(b1, {'\''}, "&apos;");
    var a3, b3 := ReplaceAny(a2, {'"'}, "&quot;"), ReplaceAny(b2, {'"'}, "&quot;");
    var a4, b4 := ReplaceAny(a3, {'<'}, "&lt;"), ReplaceAny(b3, {'<'}, "&lt;");
    ReplaceAnyAppend(a, b, {'&'}, "&amp;");
    ReplaceAnyAppend(a1, b1, {'\''}, "&apos;");
    ReplaceAnyAppend(a2, b2, {'"'}, "&quot;");
    ReplaceAnyAppend(a3, b3, {'<'}, "&lt;");
    ReplaceAnyAppend(a4, b4, {'>'}, "&gt;");
  }

  predicate IsAttrSpecial(c: char) {
    c == '&' || c == '\'' || c == '"' || c == '<' || c == '>'
  }

  /** Passes after the one that writes reference `e` keep it. */
  lemma AttrTailPasses(e: string, from: nat)
    requires 1 <= from <= 5
    requires from <= 1 ==> '\'' !in e
    requires from <= 2 ==> '"' !in e
    requires from <= 3 ==> '<' !in e
    requires from <= 4 ==> '>' !in e
    ensures from <= 1 ==> ReplaceAny(e, {'\''}, "&apos;") == e
    ensures from <= 2 ==> ReplaceAny(e, {'"'}, "&quot;") == e
    ensures from <= 3 ==> ReplaceAny(e, {'<'}, "&lt;") == e
    ensures from <= 4 ==> ReplaceAny(e, {'>'}, "&gt;") == e
  {
    if from <= 1 { ReplaceAnyIdentity(e, {'\''}, "&apos;"); }
    if from <= 2 { ReplaceAnyIdentity(e, {'"'}, "&quot;"); }
    if from <= 3 { ReplaceAnyIdentity(e, {'<'}, "&lt;"); }
    if from <= 4 { ReplaceAnyIdentity(e, {'>'}, "&gt;"); }
  }

  lemma AttrPassesChar(x: char)
    ensures AttrPasses([x]) == AttrChar(x)
  {
    ReplaceAnySingle(x, {'&'}, "&amp;");
    ReplaceAnySingle(x, {'\''}, "&apos;");
    ReplaceAnySingle(x, {'"'}, "&quot;");
    ReplaceAnySingle(x, {'<'}, "&lt;");
    ReplaceAnySingle(x, {'>'}, "&gt;");
    if IsAttrSpecial(x) {
      AttrPassesSpecial(x);
    }
  }

  lemma AttrPassesSpecial(x: char)
    requires IsAttrSpecial(x)
    ensures AttrPasses([x]) == AttrChar(x)
  {
    var e := AttrChar(x);
    match x
    case '&' =>
      assert AttrPasses([x]) == e by {
        ReplaceAnySingle(x, {'&'}, "&amp;");
        AmpPlain();
        AttrTailPasses(e, 1);
      }
    case '\'' =>
      assert AttrPasses([x]) == e by {
        ReplaceAnySingle(x, {'&'}, "&amp;");
        ReplaceAnySingle(x, {'\''}, "&apos;");
        AposPlain();
        AttrTailPasses(e, 2);
      }
    case '"' =>
      assert AttrPasses([x]) == e by {
        ReplaceAnySingle(x, {'&'}, "&amp;");
        ReplaceAnySingle(x, {'\''}, "&apos;");
        ReplaceAnySingle(x, {'"'}, "&quot;");
        QuotPlain();
        AttrTailPasses(e, 3);
      }
    case '<' =>
      assert AttrPasses([x]) == e by {
        ReplaceAnySingle(x, {'&'}, "&amp;");
        ReplaceAnySingle(x, {'\''}, "&apos;");
        ReplaceAnySingle(x, {'"'}, "&quot;");
        ReplaceAnySingle(x, {'<'}, "&lt;");
        LtPlain();
        AttrTailPasses(e, 4);
      }
    case '>' =>
      assert AttrPasses([x]) == e by {
        ReplaceAnySingle(x, {'&'}, "&amp;");
        ReplaceAnySingle(x, {'\''}, "&apos;");
        ReplaceAnySingle(x, {'"'}, "&quot;");
        ReplaceAnySingle(x, {'<'}, "&lt;");
        ReplaceAnySingle(x, {'>'}, "&gt;");
      }
  }

  lemma {:induction false} AttrPassesIsChars(s: string)
    ensures AttrPasses(s) == AttrChars(s)
  {
    if s != [] {
      assert s == [s[0]] + s[1..];
      AttrPassesAppend([s[0]], s[1..]);
      AttrPassesChar(s[0]);
      AttrPassesIsChars(s[1..]);
    } else {
      assert AttrPasses(s) == [];
    }
  }

  lemma EscapeAttributePasses(s: string, preserveCR: bool)
    ensures EscapeAttribute(s, preserveCR) ==
      ReplaceAny(ReplaceAll(AttrChars(s), "\r\n", Newline(preserveCR)), {'\r', '\n'}, Newline(preserveCR))
  {
    var s1 := ReplaceAll(s, "&", "&amp;");
    var s2 := ReplaceAll(s1, "'", "&apos;");
    var s3 := ReplaceAll(s2, "\"", "&quot;");
    var s4 := ReplaceAll(s3, "<", "&lt;");
    ReplaceCharIsClass(s, '&', "&amp;");
    ReplaceCharIsClass(s1, '\'', "&apos;");
    ReplaceCharIsClass(s2, '"', "&quot;");
    ReplaceCharIsClass(s3, '<', "&lt;");
    ReplaceCharIsClass(s4, '>', "&gt;");
    AttrPassesIsChars(s);
  }

  /** The CRLF pass skips over a prefix that holds no CR. */
  lemma {:induction false} CrlfSkip(e: string, rest: string, nl: string)
    requires '\r' !in e
    ensures ReplaceAll(e + rest, "\r\n", nl) == e + ReplaceAll(rest, "\r\n", nl)
  {
    if e == [] {
      assert e + rest == rest;
    } else if |e + rest| < 2 {
      assert |rest| < 2;
    } else {
      var u := e + rest;
      assert u[0] == e[0] && u[1..] == e[1..] + rest;
      assert u[..2] != "\r\n" by { assert u[..2][0] == e[0]; }
      CrlfSkip(e[1..], rest, nl);
    }
  }

  /** The per-character map starts with LF exactly when its input does. */
  lemma AttrCharsHead(t: string)
    requires t != [] && t[0] != '\n'
    ensures AttrChars(t) != [] && AttrChars(t)[0] != '\n'
  {
  }

  lemma NewlineUnit(preserveCR: bool)
    ensures ReplaceAny(Newline(preserveCR), {'\r', '\n'}, Newline(preserveCR)) == Newline(preserveCR)
  {
    if preserveCR {
      ReplaceAnyIdentity("&#13;", {'\r', '\n'}, "&#13;");
    } else {
      assert ReplaceAny("\n", {'\r', '\n'}, "\n") == "\n" + ReplaceAny([], {'\r', '\n'}, "\n");
    }
  }

  /** The two line-break passes of `escapeAttribute`, applied to the output
      of its five character passes. */
  function BreakPasses(s: string, preserveCR: bool): string {
    ReplaceAny(ReplaceAll(AttrChars(s), "\r\n", Newline(preserveCR)), {'\r', '\n'}, Newline(preserveCR))
  }

  lemma AttrCharsCrlf(s: string)
    requires |s| >= 2 && s[0] == '\r' && s[1] == '\n'
    ensures AttrChars(s) == "\r\n" + AttrChars(s[2..])
  {
    var t, rest := s[1..], s[2..];
    assert t[1..] == rest;
    AttrCharsBreak(s, '\r');
    AttrCharsBreak(t, '\n');
    CrlfPrefix(AttrChars(rest));
  }

  lemma CrlfPrefix(x: string)
    ensures ['\r'] + (['\n'] + x) == "\r\n" + x
  {
  }

  /** A line-break character is kept by the five character passes. */
  lemma AttrCharsBreak(s: string, c: char)
    requires s != [] && s[0] == c && IsLineBreakChar(c)
    ensures AttrChars(s) == [c] + AttrChars(s[1..])
  {
  }

  lemma CrlfHead(t: string, nl: string)
    ensures ReplaceAll("\r\n" + t, "\r\n", nl) == nl + ReplaceAll(t, "\r\n", nl)
  {
    var u := "\r\n" + t;
    assert u[..2] == "\r\n" && u[2..] == t;
  }

  lemma BreakPassesCrlf(s: string, preserveCR: bool)
    requires |s| >= 2 && s[0] == '\r' && s[1] == '\n'
    ensures BreakPasses(s, preserveCR) == Newline(preserveCR) + BreakPasses(s[2..], preserveCR)
  {
    var nl := Newline(preserveCR);
    var t := s[2..];
    AttrCharsCrlf(s);
    CrlfHead(AttrChars(t), nl);
    ReplaceAnyAppend(nl, ReplaceAll(AttrChars(t), "\r\n", nl), {'\r', '\n'}, nl);
    NewlineUnit(preserveCR);
  }

  lemma BreakPassesCr(s: string, preserveCR: bool)
    requires s != [] && s[0] == '\r' && !(|s| >= 2 && s[1] == '\n')
    ensures BreakPasses(s, preserveCR) == Newline(preserveCR) + BreakPasses(s[1..], preserveCR)
  {
    var nl := Newline(preserveCR);
    var t := s[1..];
    var mid := ReplaceAll(AttrChars(t), "\r\n", nl);
    assert AttrChars(s) == "\r" + AttrChars(t);
    if t != [] {
      AttrCharsHead(t);
    }
    assert ReplaceAll("\r" + AttrChars(t), "\r\n", nl) == "\r" + mid by {
      var u := "\r" + AttrChars(t);
      if |u| >= 2 {
        assert u[..2] != "\r\n" by { assert u[1] == AttrChars(t)[0]; }
        assert u[1..] == AttrChars(t);
      } else {
        assert AttrChars(t) == [];
      }
    }
    ReplaceAnyAppend("\r", mid, {'\r', '\n'}, nl);
    ReplaceAnySingle('\r', {'\r', '\n'}, nl);
  }

  lemma CrlfSkipsChar(s: string, nl: string)
    requires s != [] && s[0] != '\r'
    ensures ReplaceAll(AttrChars(s), "\r\n", nl) == AttrChar(s[0]) + ReplaceAll(AttrChars(s[1..]), "\r\n", nl)
  {
    var e := AttrChar(s[0]);
    assert AttrChars(s) == e + AttrChars(s[1..]);
    assert '\r' !in e;
    CrlfSkip(e, AttrChars(s[1..]), nl);
  }

  lemma LineBreakPassChar(x: char, nl: string)
    requires x != '\r'
    ensures ReplaceAny(AttrChar(x), {'\r', '\n'}, nl) == if x == '\n' then nl else AttrChar(x)
  {
    var e := AttrChar(x);
    if x == '\n' {
      ReplaceAnySingle(x, {'\r', '\n'}, nl);
    } else {
      assert forall k :: 0 <= k < |e| ==> e[k] !in {'\r', '\n'};
      ReplaceAnyIdentity(e, {'\r', '\n'}, nl);
    }
  }

  lemma BreakPassesOther(s: string, preserveCR: bool)
    requires s != [] && s[0] != '\r'
    ensures BreakPasses(s, preserveCR) ==
      (if s[0] == '\n' then Newline(preserveCR) else AttrChar(s[0])) + BreakPasses(s[1..], preserveCR)
  {
    var nl := Newline(preserveCR);
    var cs := {'\r', '\n'};
    var x, t := s[0], s[1..];
    var e := AttrChar(x);
    var mid := ReplaceAll(AttrChars(t), "\r\n", nl);
    CrlfSkipsChar(s, nl);
    LineBreakPassChar(x, nl);
    ReplaceAnyAppend(e, mid, cs, nl);
  }

  lemma {:induction false} BreakPassesIsRef(s: string, preserveCR: bool)
    ensures BreakPasses(s, preserveCR) == AttrRef(s, Newline(preserveCR))
    decreases |s|
  {
    if s == [] {
    } else if |s| >= 2 && s[0] == '\r' && s[1] == '\n' {
      BreakPassesCrlf(s, preserveCR);
      BreakPassesIsRef(s[2..], preserveCR);
    } else if s[0] == '\r' {
      BreakPassesCr(s, preserveCR);
      BreakPassesIsRef(s[1..], preserveCR);
    } else {
      BreakPassesOther(s, preserveCR);
      BreakPassesIsRef(s[1..], preserveCR);
    }
  }

  /** The seven passes of `escapeAttribute` equal the one-pass reference. */
  lemma EscapeAttributeIsOnePass(s: string, preserveCR: bool)
    ensures EscapeAttribute(s, preserveCR) == AttrRef(s, Newline(preserveCR))
  {
    EscapeAttributePasses(s, preserveCR);
    BreakPassesIsRef(s, preserveCR);
  }

  // ---------------------------------------------------------------------
  // Properties: what the escaped text can and cannot contain
  // ---------------------------------------------------------------------

  /** The character references `escapeHtml` writes. */
  const HtmlRefs: seq<string> := ["&amp;", "&lt;", "&gt;", "&quot;", "&#039;"]

  /** The character references `escapeAttribute` writes. */
  const AttrRefs: seq<string> := ["&amp;", "&apos;", "&quot;", "&lt;", "&gt;", "&#13;"]

  /** Every `&` of `r` begins one of `refs`. */
  predicate AmpersandsBeginRefs(r: string, refs: seq<string>) {
    forall i :: 0 <= i < |r| && r[i] == '&' ==> exists j :: 0 <= j < |refs| && OccursAt(r, refs[j], i)
  }

  lemma AmpersandsAppend(a: string, b: string, refs: seq<string>)
    requires AmpersandsBeginRefs(a, refs) && AmpersandsBeginRefs(b, refs)
    ensures AmpersandsBeginRefs(a + b, refs)
  {
    forall i | 0 <= i < |a + b| && (a + b)[i] == '&'
      ensures exists j :: 0 <= j < |refs| && OccursAt(a + b, refs[j], i)
    {
      if i < |a| {
        var j :| 0 <= j < |refs| && OccursAt(a, refs[j], i);
        OccursInPrefix(a, b, refs[j], i);
      } else {
        assert b[i - |a|] == '&';
        var j :| 0 <= j < |refs| && OccursAt(b, refs[j], i - |a|);
        OccursInSuffix(a, b, refs[j], i - |a|);
      }
    }
  }

  /** A reference holds its `&` only at its start. */
  lemma SingleRef(e: string, refs: seq<string>, j: nat)
    requires j < |refs| && e == refs[j] && e != [] && '&' !in e[1..]
    ensures AmpersandsBeginRefs(e, refs)
  {
    assert OccursAt(e, refs[j], 0);
    assert forall i :: 1 <= i < |e| ==> e[1..][i - 1] == e[i];
  }

  lemma HtmlCharSafe(x: char)
    ensures var e := HtmlChar(x);
      '<' !in e && '>' !in e && '"' !in e && '\'' !in e && AmpersandsBeginRefs(e, HtmlRefs)
  {
    var e := HtmlChar(x);
    match x
    case '&' => SingleRef(e, HtmlRefs, 0);
    case '<' => SingleRef(e, HtmlRefs, 1);
    case '>' => SingleRef(e, HtmlRefs, 2);
    case '"' => SingleRef(e, HtmlRefs, 3);
    case '\'' => SingleRef(e, HtmlRefs, 4);
    case _ =>
  }

  lemma {:induction false} HtmlRefSafe(s: string)
    ensures '<' !in HtmlRef(s) && '>' !in HtmlRef(s) && '"' !in HtmlRef(s) && '\'' !in HtmlRef(s)
    ensures AmpersandsBeginRefs(HtmlRef(s), HtmlRefs)
  {
    if s != [] {
      var e := HtmlChar(s[0]);
      HtmlRefSafe(s[1..]);
      HtmlCharSafe(s[0]);
      AmpersandsAppend(e, HtmlRef(s[1..]), HtmlRefs);
    }
  }

  /** `escapeHtml` leaves no `<`, `>`, `"` or `'`, and every `&` of its
      output begins one of the five references it writes. */
  lemma EscapeHtmlSafe(s: string)
    ensures '<' !in EscapeHtml(s) && '>' !in EscapeHtml(s)
    ensures '"' !in EscapeHtml(s) && '\'' !in EscapeHtml(s)
    ensures AmpersandsBeginRefs(EscapeHtml(s), HtmlRefs)
  {
    EscapeHtmlIsOnePass(s);
    HtmlRefSafe(s);
  }

  lemma {:induction false} HtmlRefIdentity(s: string)
    requires forall k :: 0 <= k < |s| ==> !IsHtmlSpecial(s[k])
    ensures HtmlRef(s) == s
  {
    if s != [] {
      HtmlRefIdentity(s[1..]);
    }
  }

  /** `escapeHtml` is the identity on text without `& < > " '`. */
  lemma EscapeHtmlIdentity(s: string)
    requires forall k :: 0 <= k < |s| ==> !IsHtmlSpecial(s[k])
    ensures EscapeHtml(s) == s
  {
    EscapeHtmlIsOnePass(s);
    HtmlRefIdentity(s);
  }

  /** What one unit of `AttrRef` may contain. */
  predicate AttrSafe(r: string, preserveCR: bool) {
    '<' !in r && '>' !in r && '"' !in r && '\'' !in r && '\r' !in r &&
    (preserveCR ==> '\n' !in r) && AmpersandsBeginRefs(r, AttrRefs)
  }

  lemma AttrSafeAppend(a: string, b: string, preserveCR: bool)
    requires AttrSafe(a, preserveCR) && AttrSafe(b, preserveCR)
    ensures AttrSafe(a + b, preserveCR)
  {
    AmpersandsAppend(a, b, AttrRefs);
  }

  lemma NewlineSafe(preserveCR: bool)
    ensures AttrSafe(Newline(preserveCR), preserveCR)
  {
    if preserveCR {
      SingleRef(Newline(preserveCR), AttrRefs, 5);
    }
  }

  lemma AttrCharSafe(x: char, preserveCR: bool)
    requires !IsLineBreakChar(x)
    ensures AttrSafe(AttrChar(x), preserveCR)
  {
    var e := AttrChar(x);
    match x
    case '&' => SingleRef(e, AttrRefs, 0);
    case '\'' => SingleRef(e, AttrRefs, 1);
    case '"' => SingleRef(e, AttrRefs, 2);
    case '<' => SingleRef(e, AttrRefs, 3);
    case '>' => SingleRef(e, AttrRefs, 4);
    case _ =>
  }

  lemma {:induction false} AttrRefSafe(s: string, preserveCR: bool)
    ensures AttrSafe(AttrRef(s, Newline(preserveCR)), preserveCR)
    decreases |s|
  {
    var nl := Newline(preserveCR);
    NewlineSafe(preserveCR);
    if s == [] {
    } else if |s| >= 2 && s[0] == '\r' && s[1] == '\n' {
      AttrRefSafe(s[2..], preserveCR);
      AttrSafeAppend(nl, AttrRef(s[2..], nl), preserveCR);
    } else {
      AttrRefSafe(s[1..], preserveCR);
      if IsLineBreakChar(s[0]) {
        AttrSafeAppend(nl, AttrRef(s[1..], nl), preserveCR);
      } else {
        AttrCharSafe(s[0], preserveCR);
        AttrSafeAppend(AttrChar(s[0]), AttrRef(s[1..], nl), preserveCR);
      }
    }
  }

  /** `escapeAttribute` leaves no `<`, `>`, `"`, `'` or CR; with
      `preserveCR` no LF either; and every `&` of its output begins one of
      the six references it writes. */
  lemma EscapeAttributeSafe(s: string, preserveCR: bool)
    ensures var r := EscapeAttribute(s, preserveCR);
      '<' !in r && '>' !in r && '"' !in r && '\'' !in r && '\r' !in r
    ensures preserveCR ==> '\n' !in EscapeAttribute(s, preserveCR)
    ensures AmpersandsBeginRefs(EscapeAttribute(s, preserveCR), AttrRefs)
  {
    EscapeAttributeIsOnePass(s, preserveCR);
    AttrRefSafe(s, preserveCR);
  }

  lemma {:induction false} AttrRefIdentity(s: string, nl: string)
    requires forall k :: 0 <= k < |s| ==> !IsAttrSpecial(s[k]) && !IsLineBreakChar(s[k])
    ensures AttrRef(s, nl) == s
  {
    if s != [] {
      AttrRefIdentity(s[1..], nl);
    }
  }

  /** `escapeAttribute` is the identity on text without `& ' " < >`, CR
      and LF. */
  lemma EscapeAttributeIdentity(s: string, preserveCR: bool)
    requires forall k :: 0 <= k < |s| ==> !IsAttrSpecial(s[k]) && !IsLineBreakChar(s[k])
    ensures EscapeAttribute(s, preserveCR) == s
  {
    EscapeAttributeIsOnePass(s, preserveCR);
    AttrRefIdentity(s, Newline(preserveCR));
  }

  lemma {:induction false} AttrRefLineBreak(a: string, b: string, nl: string)
    requires forall k :: 0 <= k < |a| ==> !IsAttrSpecial(a[k]) && !IsLineBreakChar(a[k])
    requires forall k :: 0 <= k < |b| ==> !IsAttrSpecial(b[k]) && !IsLineBreakChar(b[k])
    ensures AttrRef(a + "\n" + b, nl) == a + nl + b
  {
    var s := a + "\n" + b;
    if a == [] {
      assert s[0] == '\n' && s[1..] == b;
      AttrRefIdentity(b, nl);
    } else {
      assert s[0] == a[0] && s[1..] == a[1..] + "\n" + b;
      AttrRefLineBreak(a[1..], b, nl);
      assert a == [a[0]] + a[1..];
    }
  }

  /** Two lines of plain text escaped with `preserveCR` keep one `&#13;`
      where the line break was and no raw line break. */
  lemma EscapeAttributeTwoLines(a: string, b: string)
    requires forall k :: 0 <= k < |a| ==> !IsAttrSpecial(a[k]) && !IsLineBreakChar(a[k])
    requires forall k :: 0 <= k < |b| ==> !IsAttrSpecial(b[k]) && !IsLineBreakChar(b[k])
    ensures EscapeAttribute(a + "\n" + b, true) == a + "&#13;" + b
  {
    EscapeAttributeIsOnePass(a + "\n" + b, true);
    AttrRefLineBreak(a, b, "&#13;");
  }

  // ---------------------------------------------------------------------
  // Decoding: the escapers lose nothing but the line-break style
  // ---------------------------------------------------------------------

  /** An HTML decoder for the references the two escapers write. */
  function Unescape(s: string): string
    decreases |s|
  {
    if s == [] then []
    else if OccursAt(s, "&amp;", 0) then "&" + Unescape(s[5..])
    else if OccursAt(s, "&lt;", 0) then "<" + Unescape(s[4..])
    else if OccursAt(s, "&gt;", 0) then ">" + Unescape(s[4..])
    else if OccursAt(s, "&quot;", 0) then "\"" + Unescape(s[6..])
    else if OccursAt(s, "&#039;", 0) then "'" + Unescape(s[6..])
    else if OccursAt(s, "&apos;", 0) then "'" + Unescape(s[6..])
    else if OccursAt(s, "&#13;", 0) then "\r" + Unescape(s[5..])
    else [s[0]] + Unescape(s[1..])
  }

  /** The character a reference decodes to. */
  function Decoded(e: string): char
    requires e in HtmlRefs || e in AttrRefs
  {
    match e
    case "&amp;" => '&'
    case "&lt;" => '<'
    case "&gt;" => '>'
    case "&quot;" => '"'
    case "&#039;" => '\''
    case "&apos;" => '\''
    case "&#13;" => '\r'
  }

  /** A string whose `k`-th character differs from that of `pat` does not
      start with `pat`. */
  lemma NotStartingWith(u: string, pat: string, k: nat)
    requires k < |pat| && (k >= |u| || u[k] != pat[k])
    ensures !OccursAt(u, pat, 0)
  {
    if |pat| <= |u| {
      assert u[..|pat|][k] == u[k];
    }
  }

  lemma UnescapeRef(e: string, rest: string)
    requires e in HtmlRefs || e in AttrRefs
    ensures Unescape(e + rest) == [Decoded(e)] + Unescape(rest)
  {
    var u := e + rest;
    assert u[..|e|] == e && u[|e|..] == rest;
    assert OccursAt(u, e, 0);
    assert forall k :: 0 <= k < |e| ==> u[k] == e[k];
    match e
    case "&amp;" =>
    case "&lt;" =>
      NotStartingWith(u, "&amp;", 1);
    case "&gt;" =>
      NotStartingWith(u, "&amp;", 1);
      NotStartingWith(u, "&lt;", 1);
    case "&quot;" =>
      NotStartingWith(u, "&amp;", 1);
      NotStartingWith(u, "&lt;", 1);
      NotStartingWith(u, "&gt;", 1);
    case "&#039;" =>
      NotStartingWith(u, "&amp;", 1);
      NotStartingWith(u, "&lt;", 1);
      NotStartingWith(u, "&gt;", 1);
      NotStartingWith(u, "&quot;", 1);
    case "&apos;" =>
      NotStartingWith(u, "&amp;", 2);
      NotStartingWith(u, "&lt;", 1);
      NotStartingWith(u, "&gt;", 1);
      NotStartingWith(u, "&quot;", 1);
      NotStartingWith(u, "&#039;", 1);
    case "&#13;" =>
      NotStartingWith(u, "&amp;", 1);
      NotStartingWith(u, "&lt;", 1);
      NotStartingWith(u, "&gt;", 1);
      NotStartingWith(u, "&quot;", 1);
      NotStartingWith(u, "&#039;", 2);
      NotStartingWith(u, "&apos;", 1);
  }

  lemma UnescapePlain(x: char, rest: string)
    requires x != '&'
    ensures Unescape([x] + rest) == [x] + Unescape(rest)
  {
    var u := [x] + rest;
    assert u[0] == x && u[1..] == rest;
    NotStartingWith(u, "&amp;", 0);
    NotStartingWith(u, "&lt;", 0);
    NotStartingWith(u, "&gt;", 0);
    NotStartingWith(u, "&quot;", 0);
    NotStartingWith(u, "&#039;", 0);
    NotStartingWith(u, "&apos;", 0);
    NotStartingWith(u, "&#13;", 0);
  }

  /** Decoding undoes `escapeHtml`. */
  lemma {:induction false} UnescapeEscapeHtml(s: string)
    ensures Unescape(EscapeHtml(s)) == s
  {
    EscapeHtmlIsOnePass(s);
    UnescapeHtmlRef(s);
  }

  lemma {:induction false} UnescapeHtmlRef(s: string)
    ensures Unescape(HtmlRef(s)) == s
  {
    if s != [] {
      var x := s[0];
      UnescapeHtmlRef(s[1..]);
      if IsHtmlSpecial(x) {
        UnescapeRef(HtmlChar(x), HtmlRef(s[1..]));
      } else {
        UnescapePlain(x, HtmlRef(s[1..]));
      }
      assert s == [x] + s[1..];
    }
  }

  /** `s` with every line break (CRLF, lone CR, lone LF) made one `b`. */
  function UnifyBreaks(s: string, b: char): string {
    if s == [] then []
    else if |s| >= 2 && s[0] == '\r' && s[1] == '\n' then [b] + UnifyBreaks(s[2..], b)
    else (if IsLineBreakChar(s[0]) then [b] else [s[0]]) + UnifyBreaks(s[1..], b)
  }

  lemma UnescapeNewline(preserveCR: bool, rest: string)
    ensures Unescape(Newline(preserveCR) + rest) == [if preserveCR then '\r' else '\n'] + Unescape(rest)
  {
    if preserveCR {
      UnescapeRef("&#13;", rest);
    } else {
      UnescapePlain('\n', rest);
    }
  }

  lemma {:induction false} UnescapeAttrRef(s: string, preserveCR: bool)
    ensures Unescape(AttrRef(s, Newline(preserveCR))) == UnifyBreaks(s, if preserveCR then '\r' else '\n')
    decreases |s|
  {
    var nl := Newline(preserveCR);
    if s == [] {
    } else if |s| >= 2 && s[0] == '\r' && s[1] == '\n' {
      UnescapeAttrRef(s[2..], preserveCR);
      UnescapeNewline(preserveCR, AttrRef(s[2..], nl));
    } else {
      var x := s[0];
      UnescapeAttrRef(s[1..], preserveCR);
      if IsLineBreakChar(x) {
        UnescapeNewline(preserveCR, AttrRef(s[1..], nl));
      } else if IsAttrSpecial(x) {
        UnescapeRef(AttrChar(x), AttrRef(s[1..], nl));
      } else {
        UnescapePlain(x, AttrRef(s[1..], nl));
      }
    }
  }

  /** Decoding undoes `escapeAttribute` up to line breaks: each CRLF, lone CR
      and lone LF comes back as exactly one CR (with `preserveCR`) or one LF
      (without), and every other character comes back as it was. */
  lemma UnescapeEscapeAttribute(s: string, preserveCR: bool)
    ensures Unescape(EscapeAttribute(s, preserveCR)) == UnifyBreaks(s, if preserveCR then '\r' else '\n')
  {
    EscapeAttributeIsOnePass(s, preserveCR);
    UnescapeAttrRef(s, preserveCR);
  }
}
