/** `generate(svg, dotSource)` from plugin.js: the rendered SVG element is
    rewritten so that it carries `role="img"`, an `aria-label`, a `<title>`
    and a `<desc>` made from the DOT source's starting comments and body. */
module Annotate {
  import opened Wrappers
  import opened Text
  import opened Escape
  import opened Extract

  // ---------------------------------------------------------------------
  // The SVG parts regular expression
  // ---------------------------------------------------------------------

  /** A match of `/(<svg)(?<attributes>[\S\s]*?)>(?<body>[\S\s]*?)<\/svg>/`,
      by index: `<svg` at `start`, the `>` closing the opening tag at `close`
      and `</svg>` at `end`. */
  datatype Span = Span(start: nat, close: nat, end: nat)

  predicate IsSvgMatch(s: string, m: Span) {
    OccursAt(s, "<svg", m.start) && m.start + 4 <= m.close < |s| && s[m.close] == '>' &&
    m.close + 1 <= m.end && OccursAt(s, "</svg>", m.end)
  }

  /** The `attributes` group: everything between `<svg` and the `>`. */
  function Attributes(s: string, m: Span): string
    requires IsSvgMatch(s, m)
  {
    s[m.start + 4..m.close]
  }

  /** The `body` group: everything between the `>` and `</svg>`. */
  function Body(s: string, m: Span): string
    requires IsSvgMatch(s, m)
  {
    s[m.close + 1..m.end]
  }

  /** `svg.match(svgPartsRegex)`: the first `<svg`, the first `>` after it
      and the first `</svg>` after that, which is where the backtracking
      matcher stops with both groups lazy. */
  function MatchSvg(s: string): (r: Option<Span>)
    ensures r.Some? ==> IsSvgMatch(s, r.value)
    ensures r.Some? ==> '>' !in Attributes(s, r.value)
    ensures r.Some? ==> forall k :: r.value.close + 1 <= k < r.value.end ==> !OccursAt(s, "</svg>", k)
    ensures r.Some? ==> forall k :: 0 <= k < r.value.start ==> !OccursAt(s, "<svg", k)
  {
    match Find(s, "<svg", 0)
    case None => None
    case Some(i) =>
      match Find(s, ">", i + 4)
      case None => None
      case Some(a) =>
        match Find(s, "</svg>", a + 1)
        case None => None
        case Some(b) =>
          assert forall k :: i + 4 <= k < a ==> s[k] != '>' by {
            forall k | i + 4 <= k < a ensures s[k] != '>' {
              SingleCharOccurs(s, '>', k);
            }
          }
          SingleCharOccurs(s, '>', a);
          Some(Span(i, a, b))
  }

  lemma SingleCharOccurs(s: string, c: char, k: int)
    requires 0 <= k < |s|
    ensures OccursAt(s, [c], k) <==> s[k] == c
  {
    assert s[k..k + 1] == [s[k]];
  }

  /** The match found is the least one in every index, so it is the one the
      regular expression returns; and there is none only when no `<svg`,
      `>`, `</svg>` sequence exists at all. */
  lemma MatchSvgLeast(s: string, m: Span)
    requires IsSvgMatch(s, m)
    ensures MatchSvg(s).Some?
    ensures MatchSvg(s).value.start <= m.start
    ensures MatchSvg(s).value.close <= m.close
    ensures MatchSvg(s).value.end <= m.end
  {
    var i := Find(s, "<svg", 0);
    assert i.Some? && i.value <= m.start;
    SingleCharOccurs(s, '>', m.close);
    var a := Find(s, ">", i.value + 4);
    assert a.Some? && a.value <= m.close;
    var b := Find(s, "</svg>", a.value + 1);
    assert b.Some? && b.value <= m.end;
    SingleCharOccurs(s, '>', a.value);
  }

  lemma MatchSvgNone(s: string)
    ensures MatchSvg(s).None? <==> forall m :: !IsSvgMatch(s, m)
  {
    if MatchSvg(s).None? {
      forall m ensures !IsSvgMatch(s, m) {
        if IsSvgMatch(s, m) {
          MatchSvgLeast(s, m);
        }
      }
    }
  }

  // ---------------------------------------------------------------------
  // generate
  // ---------------------------------------------------------------------

  /** `svg.match` returned `null`, so reading `found.groups` throws a
      `TypeError`. */
  datatype GenerateError = NoSvgElement

  /** The text used when the DOT source has no starting comments. */
  const Fallback: string := "SVG diagram " + "of graph " + "generated from " + "DOT notation"

  /** The `<title>` text: the escaped comments, or the fallback. */
  function Title(e: Extraction): string {
    if e.startingComments != [] then EscapeHtml(e.startingComments) else Fallback
  }

  /** The `<desc>` text: the escaped body of the graph. */
  function Desc(e: Extraction): string {
    EscapeHtml(e.body)
  }

  /** The `aria-label` value: the comments, or the fallback followed by the
      graph's body, escaped for an attribute with line breaks as `&#13;`. */
  function AriaLabel(e: Extraction): string {
    if e.startingComments != [] then EscapeAttribute(e.startingComments, true)
    else Fallback + ": " + EscapeAttribute(e.body, true)
  }

  /** The attributes put in front of the element's own. */
  function InjectedAttributes(e: Extraction): string {
    " role=\"img\" aria-label=\"" + AriaLabel(e) + "\""
  }

  /** The elements put in front of the element's own body. */
  function InjectedBody(e: Extraction): string {
    "<title>" + Title(e) + "</title><desc>" + Desc(e) + "</desc>"
  }

  function Generate(svg: string, dotSource: string): (r: Result<string, GenerateError>)
    ensures r.Err? <==> MatchSvg(svg).None?
  {
    match MatchSvg(svg)
    case None => Err(NoSvgElement)
    case Some(m) =>
      Ok(Annotated(ExtractSpec(dotSource), Attributes(svg, m), Body(svg, m)))
  }

  /** The element `generate` writes from the matched groups. */
  function Annotated(e: Extraction, attributes: string, body: string): string {
    "<svg " + (InjectedAttributes(e) + attributes) + ">" + (InjectedBody(e) + body) + "</svg>"
  }

  /** `generate` throws exactly when the SVG holds no `<svg ...>...</svg>`. */
  lemma GenerateFailsIffNoSvg(svg: string, dotSource: string)
    ensures Generate(svg, dotSource).Err? <==> forall m :: !IsSvgMatch(svg, m)
  {
    MatchSvgNone(svg);
  }

  // ---------------------------------------------------------------------
  // What the injected texts hold
  // ---------------------------------------------------------------------

  /** None of the characters either escaper replaces. */
  predicate PlainChar(c: char) {
    c != '&' && c != '<' && c != '>' && c != '"' && c != '\'' && c != '\r' && c != '\n'
  }

  predicate Plain(s: string) {
    forall k :: 0 <= k < |s| ==> PlainChar(s[k])
  }

  lemma PlainAppend(a: string, b: string)
    requires Plain(a) && Plain(b)
    ensures Plain(a + b)
  {
    assert forall k :: |a| <= k < |a + b| ==> (a + b)[k] == b[k - |a|];
  }

  lemma FallbackPieces()
    ensures Plain("SVG diagram ") && Plain("of graph ") && Plain("generated from ")
    ensures Plain("DOT notation") && Plain(": ")
  {
  }

  lemma FallbackIsPlain()
    ensures Plain(Fallback) && Plain(Fallback + ": ")
  {
    var a, b, c, d := "SVG diagram ", "of graph ", "generated from ", "DOT notation";
    FallbackPieces();
    PlainAppend(a, b);
    PlainAppend(a + b, c);
    PlainAppend(a + b + c, d);
    PlainAppend(Fallback, ": ");
  }

  lemma PlainIsSafe(s: string)
    requires Plain(s)
    ensures '&' !in s && '<' !in s && '>' !in s
    ensures AttrSafe(s, true)
  {
    assert forall c :: c in s ==> PlainChar(c);
  }

  lemma FallbackPlain()
    ensures Plain(Fallback) && Plain(Fallback + ": ")
    ensures '&' !in Fallback + ": " && '<' !in Fallback && '>' !in Fallback
    ensures AttrSafe(Fallback + ": ", true)
  {
    FallbackIsPlain();
    PlainIsSafe(Fallback);
    PlainIsSafe(Fallback + ": ");
  }

  /** The label cannot end the attribute value or the tag, and holds no line
      break; the title and the description cannot open or close an
      element. */
  lemma InjectedTextsSafe(e: Extraction)
    ensures AttrSafe(AriaLabel(e), true)
    ensures '<' !in Title(e) && '>' !in Title(e)
    ensures '<' !in Desc(e) && '>' !in Desc(e)
  {
    FallbackPlain();
    EscapeAttributeSafe(e.startingComments, true);
    EscapeAttributeSafe(e.body, true);
    AttrSafeAppend(Fallback + ": ", EscapeAttribute(e.body, true), true);
    EscapeHtmlSafe(e.startingComments);
    EscapeHtmlSafe(e.body);
  }

  lemma {:induction false} UnescapePlainPrefix(p: string, rest: string)
    requires '&' !in p
    ensures Unescape(p + rest) == p + Unescape(rest)
  {
    if p == [] {
      assert p + rest == rest && p + Unescape(rest) == Unescape(rest);
    } else {
      var x, t := p[0], p[1..];
      assert p + rest == [x] + (t + rest);
      UnescapePlain(x, t + rest);
      assert '&' !in t by { assert forall c :: c in t ==> c in p; }
      UnescapePlainPrefix(t, rest);
      assert p + Unescape(rest) == [x] + (t + Unescape(rest)) by { assert p == [x] + t; }
    }
  }

  /** Decoding the title, the description and the label gives back the
      comments and the body of the DOT source (with every line break of the
      label as a carriage return). */
  lemma InjectedTextsDecode(e: Extraction)
    ensures e.startingComments != [] ==> Unescape(Title(e)) == e.startingComments
    ensures e.startingComments == [] ==> Title(e) == Fallback
    ensures Unescape(Desc(e)) == e.body
    ensures e.startingComments != [] ==>
      Unescape(AriaLabel(e)) == UnifyBreaks(e.startingComments, '\r')
    ensures e.startingComments == [] ==>
      Unescape(AriaLabel(e)) == Fallback + ": " + UnifyBreaks(e.body, '\r')
  {
    UnescapeEscapeHtml(e.startingComments);
    UnescapeEscapeHtml(e.body);
    UnescapeEscapeAttribute(e.startingComments, true);
    UnescapeEscapeAttribute(e.body, true);
    FallbackPlain();
    assert '&' !in Fallback + ": ";
    UnescapePlainPrefix(Fallback + ": ", EscapeAttribute(e.body, true));
  }

  // ---------------------------------------------------------------------
  // The output is again one SVG element
  // ---------------------------------------------------------------------

  lemma OccursInMiddle(a: string, b: string, c: string, pat: string, j: int)
    requires 0 <= j
    ensures OccursAt(a + b + c, pat, |a| + j) <== OccursAt(b, pat, j)
    ensures OccursAt(a + b, pat, |a| + j) ==> OccursAt(b, pat, j)
  {
    if OccursAt(b, pat, j) {
      OccursInPrefix(b, c, pat, j);
      OccursInSuffix(a, b + c, pat, j);
      assert a + b + c == a + (b + c);
    }
    if OccursAt(a + b, pat, |a| + j) {
      assert (a + b)[|a| + j..|a| + j + |pat|] == b[j..j + |pat|];
    }
  }

  /** No `<` of `x` is followed, inside `x`, by `/s`: no `</svg>` can start
      in `x`, whatever follows it. */
  predicate NoCloseStart(x: string) {
    forall j :: 0 <= j < |x| && x[j] == '<' ==> j + 2 < |x| && (x[j + 1] != '/' || x[j + 2] != 's')
  }

  lemma NoCloseStartAppend(a: string, b: string)
    requires NoCloseStart(a) && NoCloseStart(b)
    ensures NoCloseStart(a + b)
  {
    forall j | 0 <= j < |a + b| && (a + b)[j] == '<'
      ensures j + 2 < |a + b| && ((a + b)[j + 1] != '/' || (a + b)[j + 2] != 's')
    {
      if j < |a| {
        assert (a + b)[j + 1] == a[j + 1] && (a + b)[j + 2] == a[j + 2];
      } else {
        assert (a + b)[j] == b[j - |a|];
        assert (a + b)[j + 1] == b[j - |a| + 1] && (a + b)[j + 2] == b[j - |a| + 2];
      }
    }
  }

  lemma NoCloseStartNoOccurrence(x: string, rest: string, j: int)
    requires NoCloseStart(x) && 0 <= j < |x|
    ensures !OccursAt(x + rest, "</svg>", j)
  {
    var u := x + rest;
    if j + 6 <= |u| {
      var w := u[j..j + 6];
      assert w[0] == x[j];
      if x[j] == '<' {
        assert w[1] == x[j + 1] && w[2] == x[j + 2];
      }
    }
  }

  /** No `</svg>` starts inside the injected title and description. */
  lemma TagsNoCloseStart()
    ensures NoCloseStart("<title>") && NoCloseStart("</title><desc>") && NoCloseStart("</desc>")
  {
  }

  lemma InjectedBodyNoClose(e: Extraction)
    ensures NoCloseStart(InjectedBody(e))
  {
    InjectedTextsSafe(e);
    var t, d := Title(e), Desc(e);
    assert NoCloseStart(t) && NoCloseStart(d);
    var p, q, r := "<title>", "</title><desc>", "</desc>";
    TagsNoCloseStart();
    NoCloseStartAppend(p, t);
    NoCloseStartAppend(p + t, q);
    NoCloseStartAppend(p + t + q, d);
    NoCloseStartAppend(p + t + q + d, r);
  }

  /** The indices of an element written out as `<svg attrs>body</svg>`. */
  function ElementSpan(attrs: string, body: string): Span {
    Span(0, 4 + |attrs|, 5 + |attrs| + |body|)
  }

  lemma ElementIsMatch(attrs: string, body: string)
    ensures var s := "<svg" + attrs + ">" + body + "</svg>";
      IsSvgMatch(s, ElementSpan(attrs, body)) &&
      Attributes(s, ElementSpan(attrs, body)) == attrs &&
      Body(s, ElementSpan(attrs, body)) == body
  {
    var s := "<svg" + attrs + ">" + body + "</svg>";
    var r := ElementSpan(attrs, body);
    assert s[..4] == "<svg";
    assert s[4 + |attrs|] == '>';
    assert s[r.end..r.end + 6] == "</svg>";
    assert s[4..r.close] == attrs;
    assert s[r.close + 1..r.end] == body;
  }

  lemma ElementNoEarlierClose(attrs: string, body: string)
    requires forall j :: 0 <= j < |body| ==> !OccursAt(body + "</svg>", "</svg>", j)
    ensures var s := "<svg" + attrs + ">" + body + "</svg>";
      forall k :: 5 + |attrs| <= k < 5 + |attrs| + |body| ==> !OccursAt(s, "</svg>", k)
  {
    var y := "<svg" + attrs + ">";
    var s := "<svg" + attrs + ">" + body + "</svg>";
    assert y + (body + "</svg>") + [] == s;
    forall k | |y| <= k < |y| + |body| ensures !OccursAt(s, "</svg>", k) {
      OccursInMiddle(y, body + "</svg>", [], "</svg>", k - |y|);
    }
  }

  /** An element whose attributes hold no `>` and whose body holds no
      `</svg>` is matched as a whole. */
  lemma ParseElement(attrs: string, body: string)
    requires '>' !in attrs
    requires forall j :: 0 <= j < |body| ==> !OccursAt(body + "</svg>", "</svg>", j)
    ensures MatchSvg("<svg" + attrs + ">" + body + "</svg>") == Some(ElementSpan(attrs, body))
  {
    var s := "<svg" + attrs + ">" + body + "</svg>";
    var r := ElementSpan(attrs, body);
    ElementIsMatch(attrs, body);
    MatchSvgLeast(s, r);
    var found := MatchSvg(s).value;
    assert found.close == r.close by {
      forall k | 4 <= k < r.close ensures s[k] != '>' {
        assert s[k] == attrs[k - 4];
      }
    }
    ElementNoEarlierClose(attrs, body);
  }

  /** The original body holds no `</svg>` before its end. */
  lemma OriginalBodyNoClose(svg: string, m: Span)
    requires IsSvgMatch(svg, m)
    requires forall k :: m.close + 1 <= k < m.end ==> !OccursAt(svg, "</svg>", k)
    ensures forall j :: 0 <= j < |Body(svg, m)| ==> !OccursAt(Body(svg, m) + "</svg>", "</svg>", j)
  {
    var tail := svg[m.close + 1..m.end + 6];
    assert svg[m.end..m.end + 6] == "</svg>";
    assert tail == Body(svg, m) + "</svg>";
    assert svg[..m.close + 1] + tail + svg[m.end + 6..] == svg;
    forall j | 0 <= j < |Body(svg, m)| ensures !OccursAt(tail, "</svg>", j) {
      if OccursAt(tail, "</svg>", j) {
        OccursInMiddle(svg[..m.close + 1], tail, svg[m.end + 6..], "</svg>", j);
      }
    }
  }

  /** The injected body and the original body together hold no `</svg>`. */
  lemma OutputBodyNoClose(e: Extraction, body: string)
    requires forall j :: 0 <= j < |body| ==> !OccursAt(body + "</svg>", "</svg>", j)
    ensures forall j :: 0 <= j < |InjectedBody(e) + body| ==>
      !OccursAt(InjectedBody(e) + body + "</svg>", "</svg>", j)
  {
    var h := InjectedBody(e);
    InjectedBodyNoClose(e);
    assert h + body + "</svg>" == h + (body + "</svg>");
    forall j | 0 <= j < |h + body| ensures !OccursAt(h + (body + "</svg>"), "</svg>", j) {
      if j < |h| {
        NoCloseStartNoOccurrence(h, body + "</svg>", j);
      } else {
        OccursInMiddle(h, body + "</svg>", [], "</svg>", j - |h|);
        assert h + (body + "</svg>") + [] == h + (body + "</svg>");
      }
    }
  }

  lemma AnnotatedShape(e: Extraction, attributes: string, body: string)
    ensures Annotated(e, attributes, body) ==
      "<svg" + (" " + (InjectedAttributes(e) + attributes)) + ">" + (InjectedBody(e) + body) + "</svg>"
  {
    var a := InjectedAttributes(e) + attributes;
    assert "<svg " + a == "<svg" + (" " + a);
  }

  /** The new attributes hold no `>`: the label is escaped and the
      original attributes stopped before the first `>`. */
  lemma NewAttributesNoGt(e: Extraction, original: string)
    requires '>' !in original
    ensures '>' !in " " + (InjectedAttributes(e) + original)
  {
    InjectedTextsSafe(e);
    var p := " role=\"img\" aria-label=\"";
    assert forall k :: 0 <= k < |p| ==> p[k] != '>';
    assert '>' !in p && '>' !in AriaLabel(e) && '>' !in "\"" && '>' !in " ";
  }

  /** Matching the output of `generate` again finds one element spanning
      all of it, whose attributes are the injected ones before the
      original's, and whose body is the title and description before the
      original body. */
  lemma GenerateReparses(svg: string, dotSource: string)
    requires Generate(svg, dotSource).Ok?
    ensures var out := Generate(svg, dotSource).value;
      var m := MatchSvg(svg).value;
      var e := ExtractSpec(dotSource);
      MatchSvg(out).Some? && MatchSvg(out).value.start == 0 && MatchSvg(out).value.end + 6 == |out| &&
      Attributes(out, MatchSvg(out).value) == " " + (InjectedAttributes(e) + Attributes(svg, m)) &&
      Body(out, MatchSvg(out).value) == InjectedBody(e) + Body(svg, m)
  {
    var m := MatchSvg(svg).value;
    var e := ExtractSpec(dotSource);
    var attrs := " " + (InjectedAttributes(e) + Attributes(svg, m));
    var body := InjectedBody(e) + Body(svg, m);
    AnnotatedShape(e, Attributes(svg, m), Body(svg, m));
    NewAttributesNoGt(e, Attributes(svg, m));
    OriginalBodyNoClose(svg, m);
    OutputBodyNoClose(e, Body(svg, m));
    ParseElement(attrs, body);
    ElementIsMatch(attrs, body);
  }
}
