/** The Gatsby plugin of index.js: which code blocks are graphs, the markup
    that replaces them and the update of the replaced node. */
module Orchestrator {
  import opened Wrappers
  import opened Text
  import opened Extract
  import opened Annotate
  import opened Options

  /** `languageTags`: the Graphviz layout engines a code block may name. */
  const LanguageTags: seq<string> := ["circo", "dot", "fdp", "neato", "osage", "patchwork", "twopi"]

  /** A markdown `code` node, updated in place when it is replaced. `type`
      is a keyword in Dafny, so the node's `type` is `nodeType`. */
  class CodeNode {
    var nodeType: string
    var lang: Option<string>
    var value: string
    var children: Option<seq<CodeNode>>

    constructor(lang: Option<string>, value: string)
      ensures nodeType == "code" && this.lang == lang && this.value == value && children.None?
    {
      nodeType := "code";
      this.lang := lang;
      this.value := value;
      children := None;
    }
  }

  // ---------------------------------------------------------------------
  // Eligibility and selection
  // ---------------------------------------------------------------------

  /** `node.lang ? node.lang.trim().toLowerCase() : ''`. */
  function Layout(lang: Option<string>): string {
    if lang.Some? && lang.value != [] then ToLower(Trim(lang.value)) else []
  }

  /** `layout && languageTags.includes(layout)`. */
  predicate Eligible(lang: Option<string>) {
    Layout(lang) != [] && Layout(lang) in LanguageTags
  }

  /** `x` spells `tag` letter by letter, each letter in either case. */
  predicate Spells(x: string, tag: string) {
    |x| == |tag| && forall k :: 0 <= k < |x| ==> CaseVariant(x[k], tag[k])
  }

  lemma TagsLowerCase()
    ensures forall tag :: tag in LanguageTags ==> LowerAsciiLetters(tag)
  {
  }

  /** A trimmed language lowers to a layout tag exactly when it spells one
      of the tags in any letter case (the Kelvin sign standing for `k`). */
  lemma LowerIsTagIff(x: string)
    ensures ToLower(x) in LanguageTags <==> exists tag :: tag in LanguageTags && Spells(x, tag)
  {
    TagsLowerCase();
    if ToLower(x) in LanguageTags {
      ToLowerSpells(x, ToLower(x));
      assert Spells(x, ToLower(x));
    }
    forall tag | tag in LanguageTags && Spells(x, tag)
      ensures ToLower(x) in LanguageTags
    {
      ToLowerSpells(x, tag);
    }
  }

  /** `s` is a layout tag in any letter case with whitespace around it. */
  ghost predicate PaddedTag(s: string) {
    exists a, x, b ::
      s == a + x + b && AllWhitespace(a) && AllWhitespace(b) && Trimmed(x) && ToLower(x) in LanguageTags
  }

  /** A code block is a graph exactly when its language is a layout tag in
      any letter case, with any whitespace around it; the layout recorded
      is then that tag in lower case. */
  lemma EligibleIff(lang: Option<string>)
    ensures Eligible(lang) <==> lang.Some? && PaddedTag(lang.value)
    ensures Eligible(lang) ==> forall a, x, b ::
      lang.value == a + x + b && AllWhitespace(a) && AllWhitespace(b) && Trimmed(x) ==>
        Layout(lang) == ToLower(x)
  {
    if Eligible(lang) {
      TrimSplit(lang.value);
      var a, b :| AllWhitespace(a) && AllWhitespace(b) && lang.value == a + Trim(lang.value) + b;
      assert Trimmed(Trim(lang.value));
    }
    if lang.Some? {
      forall a, x, b | lang.value == a + x + b && AllWhitespace(a) && AllWhitespace(b) && Trimmed(x)
        ensures Trim(lang.value) == x
      {
        TrimPadded(a, x, b);
      }
    }
  }

  /** The `{node, layout}` pairs pushed onto `graphvizNodes`, in visit order. */
  function Selection(nodes: seq<CodeNode>): seq<(CodeNode, string)>
    reads set n | n in nodes
  {
    if nodes == [] then []
    else
      var last := nodes[|nodes| - 1];
      Selection(nodes[..|nodes| - 1]) + (if Eligible(last.lang) then [(last, Layout(last.lang))] else [])
  }

  /** The visitor over the code nodes, in the order the tree walk meets
      them, pushing each eligible node with its layout. */
  method SelectGraphvizNodes(nodes: seq<CodeNode>) returns (graphvizNodes: seq<(CodeNode, string)>)
    ensures graphvizNodes == Selection(nodes)
  {
    graphvizNodes := [];
    var i := 0;
    while i < |nodes|
      invariant 0 <= i <= |nodes|
      invariant graphvizNodes == Selection(nodes[..i])
    {
      var node := nodes[i];
      var layout := Layout(node.lang);
      if layout != [] && layout in LanguageTags {
        graphvizNodes := graphvizNodes + [(node, layout)];
      }
      assert nodes[..i + 1][..i] == nodes[..i] && nodes[..i + 1][i] == node;
      i := i + 1;
    }
    assert nodes[..i] == nodes;
  }

  /** Exactly the eligible nodes are selected, each with its layout. */
  lemma {:induction false} SelectionMembers(nodes: seq<CodeNode>, n: CodeNode, layout: string)
    ensures (n, layout) in Selection(nodes) <==> n in nodes && Eligible(n.lang) && layout == Layout(n.lang)
  {
    if nodes != [] {
      var init := nodes[..|nodes| - 1];
      SelectionMembers(init, n, layout);
      assert nodes == init + [nodes[|nodes| - 1]];
    }
  }

  /** Selection keeps visit order: selecting from two runs of nodes is
      selecting from each in turn. */
  lemma {:induction false} SelectionAppend(a: seq<CodeNode>, b: seq<CodeNode>)
    ensures Selection(a + b) == Selection(a) + Selection(b)
    decreases |b|
  {
    if b == [] {
      assert a + b == a;
    } else {
      assert (a + b)[..|a + b| - 1] == a + b[..|b| - 1];
      SelectionAppend(a, b[..|b| - 1]);
    }
  }

  // ---------------------------------------------------------------------
  // The replacement markup
  // ---------------------------------------------------------------------

  /** `String(options.key)`. */
  function Opt(options: map<string, Value>, key: string): string {
    ToJsString(Property(options, key))
  }

  /** `<W class="C">`. */
  function WrapperOpen(options: map<string, Value>): string {
    "<" + Opt(options, "wrapperTag") + " class=\"" + Opt(options, "wrapperClass") + "\">"
  }

  /** `</W>`. */
  function WrapperClose(options: map<string, Value>): string {
    "</" + Opt(options, "wrapperTag") + ">"
  }

  /** `<figure class="F">`. */
  function FigureOpen(options: map<string, Value>): string {
    "<figure class=\"" + Opt(options, "figureClass") + "\">"
  }

  /** `<W class="C">svg</W>`. */
  function Wrapped(svg: Value, options: map<string, Value>): string {
    WrapperOpen(options) + ToJsString(svg) + WrapperClose(options)
  }

  /** `<figcaption class="G">caption</figcaption>` for a truthy caption. */
  function Figcaption(caption: Value, options: map<string, Value>): string {
    if Truthy(caption) then
      "<figcaption class=\"" + Opt(options, "figcaptionClass") + "\">" + ToJsString(caption) + "</figcaption>"
    else []
  }

  /** The value given to the replaced node. */
  function WrapperMarkup(svg: Value, caption: Value, options: map<string, Value>): string {
    if Truthy(Property(options, "firstCommentIsCaption")) then
      FigureOpen(options) + Wrapped(svg, options) + Figcaption(caption, options) + "</figure>"
    else Wrapped(svg, options)
  }

  /** With captions on, the markup is the plain wrapper inside a figure,
      followed by the caption only when the caption is truthy; with captions
      off, the caption plays no part. */
  lemma FigureWrapsPlain(svg: Value, caption: Value, options: map<string, Value>)
    ensures Truthy(Property(options, "firstCommentIsCaption")) ==>
      WrapperMarkup(svg, caption, options) ==
        FigureOpen(options) + WrapperMarkup(svg, caption, options["firstCommentIsCaption" := Bool(false)]) +
        (if Truthy(caption) then Figcaption(caption, options) else []) + "</figure>"
    ensures !Truthy(Property(options, "firstCommentIsCaption")) ==>
      WrapperMarkup(svg, caption, options) == WrapperMarkup(svg, Undefined, options)
  {
    var off := options["firstCommentIsCaption" := Bool(false)];
    assert Property(off, "firstCommentIsCaption") == Bool(false);
    assert Opt(off, "wrapperTag") == Opt(options, "wrapperTag");
    assert Opt(off, "wrapperClass") == Opt(options, "wrapperClass");
    assert WrapperMarkup(svg, caption, off) == Wrapped(svg, options);
  }

  /** The wrapped svg is the whole markup, or sits inside the figure when
      captions are on. */
  lemma SvgInsideWrapper(svg: Value, caption: Value, options: map<string, Value>)
    ensures exists before, after ::
      WrapperMarkup(svg, caption, options) == before + Wrapped(svg, options) + after &&
      (before == [] <==> !Truthy(Property(options, "firstCommentIsCaption")))
  {
    var m := WrapperMarkup(svg, caption, options);
    var w := Wrapped(svg, options);
    var on := Truthy(Property(options, "firstCommentIsCaption"));
    if on {
      var before := FigureOpen(options);
      var after := Figcaption(caption, options) + "</figure>";
      assert before != [] by { assert before[0] == '<'; }
      Regroup3(before, w, Figcaption(caption, options), "</figure>");
      Surrounded(m, before, w, after, on);
    } else {
      assert m == [] + w + [];
      Surrounded(m, [], w, [], on);
    }
  }

  lemma Surrounded(m: string, before: string, w: string, after: string, on: bool)
    requires m == before + w + after && (before == [] <==> !on)
    ensures exists b, a :: m == b + w + a && (b == [] <==> !on)
  {
  }

  /** The string given as svg appears whole in the markup. */
  lemma StringInsideMarkup(v: string, caption: Value, options: map<string, Value>)
    ensures exists before, after :: WrapperMarkup(Str(v), caption, options) == before + v + after
  {
    SvgInsideWrapper(Str(v), caption, options);
    var before, after :| WrapperMarkup(Str(v), caption, options) ==
      before + Wrapped(Str(v), options) + after;
    Regroup(before, WrapperOpen(options), v, WrapperClose(options), after);
  }

  lemma Regroup3(a: string, b: string, c: string, d: string)
    ensures a + b + c + d == a + b + (c + d)
  {
  }

  lemma Regroup(b: string, o: string, v: string, c: string, a: string)
    ensures b + (o + v + c) + a == (b + o) + v + (c + a)
  {
  }

  // ---------------------------------------------------------------------
  // Replacing the node
  // ---------------------------------------------------------------------

  /** `node.type = 'html'; node.children = undefined; node.value = markup`. */
  method ReplaceNode(node: CodeNode, markup: string)
    modifies node
    ensures node.nodeType == "html" && node.children.None? && node.value == markup
    ensures node.lang == old(node.lang)
  {
    node.nodeType := "html";
    node.children := None;
    node.value := markup;
  }

  /** The SVG the pipeline hands to `generate`: compiled, then optimized
      when `options.optimize` is truthy. Graphviz and SVGO are outside the
      model, so the compiled SVG and the optimizer are parameters. */
  function Optimized(compiled: string, optimizer: string -> string, options: map<string, Value>): string {
    if Truthy(Property(options, "optimize")) then optimizer(compiled) else compiled
  }

  /** `generateDiagramAndReplaceNode` as written: `generate` returns a
      string, and reading `svg` and `caption` off a string gives `undefined`
      for both, so the wrapper holds the text `undefined`. When `generate`
      throws the node is left as it was. */
  method GenerateDiagramAndReplaceNode(node: CodeNode, compiled: string,
                                       optimizer: string -> string, options: map<string, Value>)
    returns (r: Result<(), GenerateError>)
    modifies node
    ensures r.Err? <==> Generate(Optimized(compiled, optimizer, options), old(node.value)).Err?
    ensures r.Err? ==> unchanged(node)
    ensures r.Ok? ==> (node.nodeType == "html" && node.children.None? &&
      node.value == WrapperMarkup(Undefined, Undefined, options) && node.lang == old(node.lang))
  {
    var optimized := compiled;
    if Truthy(Property(options, "optimize")) {
      optimized := optimizer(compiled);
    }
    var generated := Generate(optimized, node.value);
    if generated.Err? {
      return Err(generated.error);
    }
    var svg, caption := Undefined, Undefined;
    ReplaceNode(node, WrapperMarkup(svg, caption, options));
    r := Ok(());
  }

  /** The options when the user gives none. */
  lemma DefaultOptionValues()
    ensures var options := MergeSpec([DefaultPluginOptions, Picked(map[])]);
      Opt(options, "wrapperTag") == "div" && Opt(options, "wrapperClass") == "remark-graphviz-graph" &&
      Opt(options, "figureClass") == "remark-graviz-figure" &&
      Truthy(Property(options, "firstCommentIsCaption"))
  {
    NoUserOptions(1);
    NoUserOptions(2);
    NoUserOptions(3);
    NoUserOptions(5);
  }

  lemma DefaultMarkup(options: map<string, Value>)
    requires Opt(options, "wrapperTag") == "div" && Opt(options, "wrapperClass") == "remark-graphviz-graph"
    requires Opt(options, "figureClass") == "remark-graviz-figure"
    requires Truthy(Property(options, "firstCommentIsCaption"))
    ensures WrapperMarkup(Undefined, Undefined, options) ==
      "<figure class=\"remark-graviz-figure\">" + "<div class=\"remark-graphviz-graph\">" +
      "undefined" + "</div>" + "</figure>"
  {
    DefaultTags(options);
    assert Figcaption(Undefined, options) == [];
    assert ToJsString(Undefined) == "undefined";
  }

  lemma DefaultTags(options: map<string, Value>)
    requires Opt(options, "wrapperTag") == "div" && Opt(options, "wrapperClass") == "remark-graphviz-graph"
    requires Opt(options, "figureClass") == "remark-graviz-figure"
    ensures FigureOpen(options) == "<figure class=\"remark-graviz-figure\">"
    ensures WrapperOpen(options) == "<div class=\"remark-graphviz-graph\">"
    ensures WrapperClose(options) == "</div>"
  {
    DefaultFigureOpen(options);
    DefaultWrapperOpen(options);
    DefaultWrapperClose(options);
  }

  lemma DefaultFigureOpen(options: map<string, Value>)
    requires Opt(options, "figureClass") == "remark-graviz-figure"
    ensures FigureOpen(options) == "<figure class=\"remark-graviz-figure\">"
  {
  }

  lemma DefaultWrapperOpen(options: map<string, Value>)
    requires Opt(options, "wrapperTag") == "div" && Opt(options, "wrapperClass") == "remark-graphviz-graph"
    ensures WrapperOpen(options) == "<div class=\"remark-graphviz-graph\">"
  {
  }

  lemma DefaultWrapperClose(options: map<string, Value>)
    requires Opt(options, "wrapperTag") == "div"
    ensures WrapperClose(options) == "</div>"
  {
  }

  /** With the default options, every graph is replaced by the same markup,
      which holds no SVG at all. */
  lemma AsWrittenDropsSvg()
    ensures WrapperMarkup(Undefined, Undefined, MergeSpec([DefaultPluginOptions, Picked(map[])])) ==
      "<figure class=\"remark-graviz-figure\">" + "<div class=\"remark-graphviz-graph\">" +
      "undefined" + "</div>" + "</figure>"
  {
    DefaultOptionValues();
    DefaultMarkup(MergeSpec([DefaultPluginOptions, Picked(map[])]));
  }

  /** `generateDiagramAndReplaceNode` with the annotated SVG string as the
      wrapper's content, the caption absent since `generate` provides
      none. */
  method GenerateDiagramAndReplaceNodeFixed(node: CodeNode, compiled: string,
                                            optimizer: string -> string, options: map<string, Value>)
    returns (r: Result<(), GenerateError>)
    modifies node
    ensures r.Err? <==> Generate(Optimized(compiled, optimizer, options), old(node.value)).Err?
    ensures r.Err? ==> unchanged(node)
    ensures r.Ok? ==> (node.nodeType == "html" && node.children.None? && node.lang == old(node.lang) &&
      node.value == WrapperMarkup(Str(Generate(Optimized(compiled, optimizer, options), old(node.value)).value),
                                  Undefined, options))
  {
    var optimized := compiled;
    if Truthy(Property(options, "optimize")) {
      optimized := optimizer(compiled);
    }
    var generated := Generate(optimized, node.value);
    if generated.Err? {
      return Err(generated.error);
    }
    ReplaceNode(node, WrapperMarkup(Str(generated.value), Undefined, options));
    r := Ok(());
  }

  /** With the fix, the replaced node holds the annotated SVG inside the
      wrapper, and that SVG is one element whose body opens with the title
      and description made from the graph's source. */
  lemma FixedMarkupHoldsAnnotatedSvg(svg: string, dotSource: string, options: map<string, Value>)
    requires Generate(svg, dotSource).Ok?
    ensures var out := Generate(svg, dotSource).value;
      (exists before, after :: WrapperMarkup(Str(out), Undefined, options) == before + out + after) &&
      MatchSvg(out).Some? && MatchSvg(out).value.start == 0 && MatchSvg(out).value.end + 6 == |out| &&
      Body(out, MatchSvg(out).value) == InjectedBody(ExtractSpec(dotSource)) + Body(svg, MatchSvg(svg).value)
  {
    GenerateReparses(svg, dotSource);
    StringInsideMarkup(Generate(svg, dotSource).value, Undefined, options);
  }
}
