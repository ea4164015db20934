# gatsby-remark-graphviz in Dafny

A model of the string logic of the gatsby-remark-graphviz plugin, with proofs about it.
The plugin turns markdown code blocks written in Graphviz's DOT language into SVG
diagrams. The model covers the part between the external Graphviz renderer and the
external SVG optimizer:

- `extractStartingComments` splits a DOT source into its leading comment lines and
  the graph that follows them. `isStartOfGraph` is the regular expression that finds
  the first line of the graph.
- `escapeHtml` and `escapeAttribute` are the two escapers.
- `generate` rewrites the rendered `<svg>` element. It adds `role="img"`, an
  `aria-label`, a `<title>` and a `<desc>`, all built from the DOT source.
- From index.js:
  - `merge` and `defaultPluginOptions`;
  - the language-tag test that picks which code blocks are graphs;
  - the wrapper and figure markup that replaces a selected node;
  - the in-place update of that node.

Modules, one per file:

| file | module | models |
|---|---|---|
| wrappers.dfy | Wrappers | `Option` and `Result` |
| text.dfy | Text | the JavaScript string primitives: `trim`, `toLowerCase`, `indexOf`, `split(/\r?\n/)`, `join`, `replace` with a global literal or character-class pattern, and `replace` with a one-character string |
| escape.dfy | Escape | `escapeHtml` and `escapeAttribute`, as the source's chains of passes. Each is proved equal to a one-pass reference, and an HTML decoder undoes both |
| extract.dfy | Extract | `isStartOfGraph` as a scanner and as a declarative predicate; `extractStartingComments` as a loop over `shift`/`unshift`, proved against a specification function |
| annotate.dfy | Annotate | `generate` and the `svgPartsRegex` match |
| options.dfy | Options | the JavaScript values of an options object, `merge` (nested loops), `defaultPluginOptions` and the options the plugin resolves |
| orchestrator.dfy | Orchestrator | the code nodes, their selection, the replacement markup and `generateDiagramAndReplaceNode` |

Notes on the model:

- A regular expression becomes two things: a declarative predicate that says what
  matches, and a left-to-right scanner or finder proved to decide it.
  - `isStartOfGraph` becomes `Extract.IsStartOfGraph` and `Extract.ScanFrom`.
  - `svgPartsRegex` becomes `Annotate.IsSvgMatch` and `Annotate.MatchSvg`.
- A thrown `TypeError` becomes an `Err`. `generate` throws when `svg.match` returns
  `null`; this is `Annotate.GenerateError.NoSvgElement`.
- JavaScript values and objects:
  - An options object is a `map<string, Value>`.
  - An object literal passed to `merge` is a sequence of entries in `Object.keys`
    order.
  - `undefined` is a `Value` of its own.
  - A template literal writes a value as `Options.ToJsString` says.
- The code and the documents around it disagree in four places, and in each the
  model follows the code.
  - The callers in index.js:96-99 (and the repository's tests) call
    `generate(svg, source, options)` and destructure `{ svg, caption }` from the
    result. The `generate` of plugin.js:105-130 takes two arguments, always writes
    both `<title>` and `<desc>`, and returns a plain string. The model keeps that
    `generate`. The consequence of the mismatch is under "Findings".
  - tests/test.js:32-48 expects `startingComments` and `body` to be arrays of
    lines. `extractStartingComments` (plugin.js:157-160) returns both as strings,
    the lines joined with LF. The model returns the joined strings, and
    `Extract.ExtractTestExample` states the test's example in that joined form.
  - The comment at plugin.js:132-135 says start lines are lines that start with
    `digraph`, `graph` or `strict`. The regular expression at plugin.js:136 is not
    anchored: a keyword anywhere in the line counts when no `#` precedes it on the
    same run of characters that `.` matches. So `subgraph cluster_0 {` and
    `// a digraph of x` are start lines. `Extract.IsStartOfGraph` and
    `Extract.StartOfGraphSimplified` state the code's rule.
  - The comment at plugin.js:138-142 says starting comments are lines beginning
    with `#`. The loop at plugin.js:149-152 takes every line before the first start
    line, with or without `#`, so a `rankdir=LR` line before `digraph {` becomes a
    starting comment and ends up in the `<title>` and `aria-label`.
    `Extract.ExtractSpec`, `Extract.CleanCommentCases` and `Extract.NoStartLine`
    state the code's rule.
- Some JavaScript primitives are modelled by functions that have no row of their
  own. The rows of the lemmas about them state what they mean:
  - `replace(/x/g, …)` is `Text.ReplaceAll` and `Text.ReplaceAny`; see the
    `Escape.EscapeHtmlIsOnePass` and `Escape.EscapeAttributeIsOnePass` rows.
  - `join` is `Text.Join`; see `Text.JoinSplitLines`.
  - `shift`, `unshift` and the final `join` of an array that may hold `undefined`
    are `Extract.Shift`, `Extract.Unshift` and `Extract.JoinArray`; see
    `Extract.JoinUnshift` and `Extract.ExtractStartingComments`.
  - The destructuring of the user's options at index.js:29-38 is `Options.Picked`;
    see `Options.ResolveOptions`.

## Model

| member | source | states |
|---|---|---|
| Text.SplitLines | plugin.js:144 | `code.split(/\r?\n/)` gives at least one line and no line holds an LF |
| Text.JoinSplitLines | plugin.js:144 | joining the split lines with LF gives the source with every CRLF made LF |
| Text.SplitLinesJoin | plugin.js:144 | lines with no LF and no final CR come back unchanged from a join with LF and a split |
| Text.Trim | plugin.js:150 | `trim()` leaves no whitespace or line terminator at either end |
| Text.TrimPadded | plugin.js:150 | trimming whitespace + t + whitespace, with t trimmed, gives exactly t |
| Text.TrimSplit | index.js:54 | every string is its trimmed core padded by whitespace on both sides |
| Text.TrimIdempotent | plugin.js:150 | trimming twice is trimming once, so the second `trim()` of a line without `#` changes nothing |
| Text.TrimChars | plugin.js:150 | trimming adds no character |
| Text.RemoveFirstCutsFirst | plugin.js:150 | `replace('#', '')` cuts out the character at `indexOf('#')` and nothing else, and leaves a string without `#` unchanged |
| Text.IndexOfChar | plugin.js:150 | the index found holds the character and no earlier index does |
| Text.Find | plugin.js:120-121 | `indexOf(pat, from)` finds an occurrence at or after `from` with none between, and `None` only when there is none |
| Text.ToLowerIdempotent | index.js:54 | lower-casing the lowered layout again changes nothing |
| Text.ToLowerSpells | index.js:54 | `toLowerCase` gives a word of lower-case ASCII letters exactly when the string has its length and each character is that letter in either case, or the Kelvin sign for `k` |
| Extract.ScannerIsRegex | plugin.js:136 | the scanner accepts a line exactly when the start-of-graph regular expression matches it: a keyword with no `#` before it on the same run of characters that `.` matches |
| Extract.StartOfGraphSimplified | plugin.js:132-136 | a line is a start line iff `graph` or `strict` occurs in it with no `#` earlier on the same run of characters that `.` matches (no CR, LF, U+2028 or U+2029 between); `digraph` adds nothing |
| Extract.HashFirstIsComment | plugin.js:132-136 | a `#` before every keyword makes the line a comment, whatever keywords follow it |
| Extract.CommentLineIsNotStart | plugin.js:136 | an indented `# text` line is not a start line, even when the text says `digraph`, `strict` or `graph` |
| Extract.GraphLineIsStart | plugin.js:136 | an indented line that begins with `graph` is a start line |
| Extract.FirstStart | plugin.js:149 | the index returned is the first start line, or the line count when there is none |
| Extract.ExtractStartingComments | plugin.js:143-161 | the loop of `shift`, `push` and the final `unshift` computes the specification: the cleaned lines before the first start line joined with LF, and the lines from it joined with LF (`""` when none) |
| Extract.IsStartOfGraph | plugin.js:132-136 | the regular expression read declaratively: `graph`, `digraph` or `strict` begins at a position that no `#` precedes with only non-terminator characters between; `Extract.ScannerIsRegex` ties the scanner to it |
| Extract.CleanComment | plugin.js:150 | `line.trim().replace('#', '').trim()`; its meaning is stated by `Extract.CleanCommentCases` and `Extract.CleanCommentShape` |
| Extract.CleanCommentCases | plugin.js:150 | a line without `#` is only trimmed; otherwise the first `#` of the trimmed line is cut out and the rest trimmed again |
| Extract.CleanAllEntries | plugin.js:149-152 | every pushed comment entry is trimmed, is its trimmed line when the line has no `#`, and is the trimmed line without its first `#`, trimmed again, otherwise |
| Extract.ExtractSpec | plugin.js:143-161 | the declarative result of `extractStartingComments`: the cleaned lines before the first start line joined with LF, and the lines from it joined with LF; the loop is proved to compute it |
| Extract.CleanCommentShape | plugin.js:150 | a cleaned line is trimmed and holds only characters of the raw line |
| Extract.CleanCommentLine | plugin.js:150 | cleaning an indented `# text` line gives back `text` |
| Extract.CommentsRoundTrip | plugin.js:144-158 | splitting `startingComments` again on line breaks gives back the cleaned lines one per line, blank lines included |
| Extract.BodyIsRestOfSource | plugin.js:144-159 | the source (with CRLF made LF) is the raw comment lines, each ended by LF, followed by the body |
| Extract.BodyIsSuffix | plugin.js:144-159 | without CR in the source, the body is a suffix of the source |
| Extract.NoLeadingComments | plugin.js:144-159 | when the first line is a start line, the comments are `""` and the body is the whole source with CRLF made LF |
| Extract.NoStartLine | plugin.js:149-159 | with no start line, every line is a comment and the body is the `""` that joining `[undefined]` gives |
| Extract.JoinUnshift | plugin.js:155-159 | putting the last shifted line back and joining gives the rest of the source, or `""` for `undefined` |
| Extract.ExtractCommentsThenGraph | plugin.js:143-161 | for comment lines followed by a graph, the comments are the texts, one per line, and the body is the graph untouched |
| Extract.ExtractTestExample | tests/test.js:17-49 | the repository's test source gives the six comment entries listed there, the blank one included, joined with LF, and the graph lines joined with LF as the body (the test itself expects arrays) |
| Escape.EscapeHtml | plugin.js:187-194 | the five global replacements in the source's order; the lemmas below state what they amount to |
| Escape.EscapeHtmlIsOnePass | plugin.js:187-194 | the five global replacements, `&` first, equal one left-to-right pass mapping each special character to its reference |
| Escape.EscapeHtmlSafe | plugin.js:187-194 | the output holds no `<`, `>`, `"` or `'`, and every `&` begins one of the five references |
| Escape.EscapeHtmlIdentity | plugin.js:187-194 | text without `& < > " '` is unchanged |
| Escape.UnescapeEscapeHtml | plugin.js:187-194 | decoding the references gives back the input, so the escaping loses nothing |
| Escape.EscapeAttribute | plugin.js:169-179 | the seven global replacements in the source's order, `preserveCR` choosing `&#13;` or LF; the lemmas below state what they amount to |
| Escape.EscapeAttributeIsOnePass | plugin.js:169-179 | the seven replacements equal one pass in which each CRLF, lone CR and lone LF becomes one line-break unit (`&#13;`, or LF when `preserveCR` is false) and `& ' " < >` become references |
| Escape.EscapeAttributeSafe | plugin.js:169-179 | the output holds no `<`, `>`, `"`, `'` or CR, no LF with `preserveCR`, and every `&` begins one of the six references |
| Escape.EscapeAttributeIdentity | plugin.js:169-179 | text without `& ' " < >`, CR and LF is unchanged |
| Escape.EscapeAttributeTwoLines | plugin.js:177-178 | two plain lines joined by LF become the two lines joined by one `&#13;` |
| Escape.UnescapeEscapeAttribute | plugin.js:169-179 | decoding gives back the input with every line break (CRLF, CR, LF) made one CR (or one LF without `preserveCR`): only the line-break style is lost |
| Annotate.MatchSvg | plugin.js:120-121 | a match found has `<svg`, then a `>` with none in the attributes, then `</svg>` with none earlier in the body, and no `<svg` before it |
| Annotate.MatchSvgLeast | plugin.js:120-121 | the match found is the least in start, `>` and `</svg>` among all matches, which is the lazy match the regular expression returns |
| Annotate.MatchSvgNone | plugin.js:120-121 | no match is found exactly when no `<svg`, `>`, `</svg>` sequence exists |
| Annotate.Title | plugin.js:111-113 | the escaped starting comments, or the fixed text "SVG diagram of graph generated from DOT notation" (`Annotate.Fallback`) when they are empty |
| Annotate.Desc | plugin.js:114 | the escaped body of the graph |
| Annotate.AriaLabel | plugin.js:115-118 | the starting comments escaped for an attribute, or the fixed text, `: ` and the body so escaped when the comments are empty |
| Annotate.Annotated | plugin.js:123-129 | `<svg ` + the injected `role` and `aria-label` attributes + the matched attributes + `>` + the title and description + the matched body + `</svg>`; `Annotate.GenerateReparses` states what it means |
| Annotate.Generate | plugin.js:105-130 | `generate` fails exactly when the match fails |
| Annotate.GenerateFailsIffNoSvg | plugin.js:121-123 | `generate` throws exactly when the SVG holds no `<svg ...>...</svg>` |
| Annotate.InjectedTextsSafe | plugin.js:111-118 | the label cannot close the attribute value or the tag and holds no raw line break; the title and description hold no `<` or `>` |
| Annotate.InjectedTextsDecode | plugin.js:111-118 | the title decodes to the comments (or is the fallback when there are none), the description to the body, and the label to the comments or to the fallback + `: ` + the body, line breaks as CR |
| Annotate.GenerateReparses | plugin.js:120-129 | matching the output again finds one element spanning all of it: the attributes are the injected ones before the original's, and the body is the title and description before the original body |
| Options.Merge | index.js:122-134 | the nested loops compute the specification: the entries of all arguments applied in order, each defined value written over the key |
| Options.MergeKeys | index.js:118-133 | the result's keys are exactly those with a defined value in some argument, and no value in it is `undefined` |
| Options.MergeLastDefinerWins | index.js:125-129 | a key takes the value of the last argument that defines it |
| Options.MergeUndefinedIgnored | index.js:127 | an argument whose values are all `undefined` changes nothing |
| Options.AssignAllAppend | index.js:125 | merging two runs of entries is merging the first, then the second over the result |
| Options.ResolveOptions | index.js:40-48 | the options are `merge(defaultPluginOptions, { the seven options the user gave })` |
| Options.ResolvedOptions | index.js:7-15 | each option is the user's value when defined and the default otherwise, so `{ optimize: undefined }` keeps `optimize: true` |
| Options.ResolvedOptionKeys | index.js:40-48 | the options hold exactly the seven names; `svgoPlugins` and unknown keys never reach them |
| Options.NoUserOptions | index.js:7-15 | with no user options every option is its default |
| Options.Truthy | index.js:105-109 | JavaScript truthiness: `undefined`, `null`, `false`, `0` and `""` are falsy, everything else truthy |
| Options.ToJsString | index.js:106-114 | what a template literal writes for a value: `undefined`, `null`, `true`/`false`, the decimal digits with a minus sign for a negative number, or the string itself |
| Options.DecimalValue | index.js:106-114 | the digits written for a number denote that number, and only `0` is written with a leading `0` |
| Options.Decimal | index.js:106-114 | a number is written as a nonempty run of decimal digits |
| Orchestrator.Layout | index.js:54 | `node.lang ? node.lang.trim().toLowerCase() : ''` |
| Orchestrator.Eligible | index.js:56 | `layout && languageTags.includes(layout)`; `Orchestrator.EligibleIff` and `Orchestrator.LowerIsTagIff` state when it holds |
| Orchestrator.LowerIsTagIff | index.js:17-25 | a trimmed language lowers to one of the seven layout names exactly when it spells one of them letter by letter in either case, the Kelvin sign standing for `k` |
| Orchestrator.EligibleIff | index.js:17-25 | a node is a graph iff its language is one of the seven layout names in any letter case, the Kelvin sign standing for `k`, with whitespace around it; its layout is then that name in lower case |
| Orchestrator.SelectGraphvizNodes | index.js:50-59 | the visitor's loop pushes the specification's pairs: one `{node, layout}` per eligible node, in visit order |
| Orchestrator.SelectionMembers | index.js:54-57 | a pair is selected iff its node is in the sequence, is eligible and has that layout |
| Orchestrator.SelectionAppend | index.js:50-59 | selection keeps visit order: selecting from two runs is selecting from each in turn |
| Orchestrator.FigureWrapsPlain | index.js:105-114 | with captions on, the markup is the figure around the plain wrapper, followed by the caption only when it is truthy; with captions off, the caption plays no part |
| Orchestrator.SvgInsideWrapper | index.js:105-114 | the wrapped SVG is the whole markup, or sits inside the figure exactly when captions are on |
| Orchestrator.StringInsideMarkup | index.js:105-114 | a string given as the SVG appears whole in the markup |
| Orchestrator.WrapperMarkup | index.js:105-114 | the figure, wrapper and optional figcaption markup, or the plain wrapper when `firstCommentIsCaption` is falsy; the lemmas below state its shape |
| Orchestrator.Optimized | index.js:88-93 | the compiled SVG, passed through the optimizer only when `options.optimize` is truthy |
| Orchestrator.ReplaceNode | index.js:102-115 | the node becomes `html` with no children and the markup as its value, and its language is kept |
| Orchestrator.GenerateDiagramAndReplaceNode | index.js:79-116 | as written: the node is replaced exactly when `generate` succeeds, the markup wraps `undefined`, and a failure leaves the node untouched |
| Orchestrator.AsWrittenDropsSvg | index.js:96-114 | with the default options every graph becomes the same markup, holding the text `undefined` and no SVG |
| Orchestrator.DefaultOptionValues | index.js:7-15 | the defaults give wrapper `div`, class `remark-graphviz-graph`, figure class `remark-graviz-figure` and captions on |
| Orchestrator.GenerateDiagramAndReplaceNodeFixed | index.js:79-116 | with the fix, the markup wraps the annotated SVG string returned by `generate` |
| Orchestrator.FixedMarkupHoldsAnnotatedSvg | index.js:96-114 | with the fix, the node's markup holds the annotated SVG whole, and that SVG is one element whose body opens with the title and description |

## Left out

- `compile` and `optimize` (plugin.js:55-103) wrap Graphviz and SVGO, which are not
  part of this model. The compiled SVG is an input string. The optimizer is a
  function parameter of `Orchestrator.Optimized`.
- The tree walk of `unist-util-visit` (index.js:52-59) is an external library. The
  code nodes are given as a sequence in visit order.
- `Promise.all`, the per-node `.catch`, `reporter.error` and the `async` sequencing
  (index.js:61-93) are asynchronous orchestration. A failing `generate` is an `Err`
  result that leaves the node unchanged.
- The options form of `generate` and the caption (index.js:96-99) are called by
  index.js but do not exist in plugin.js. They are not invented here; see "Findings".
- Orchestrator.Layout: `toLowerCase` is modelled only for the code points whose lower
  case is ASCII: the Latin capitals and the Kelvin sign. Every other code point is
  kept. So the layout of a non-eligible node may differ from JavaScript's, but the
  eligibility test does not.
- Options.Value: numbers are integers. Floating point, `NaN` and the JavaScript
  number-to-string algorithm are not modelled.
- Options.ResolveOptions: a second argument of `null` throws in JavaScript during
  destructuring. The model takes an options object, `{}` when none is given.
- Options.MergeKeys: in JavaScript, assigning the key `__proto__` calls the
  prototype setter and creates no own property, so that key would not appear in
  `merged`. The model treats `__proto__` as an ordinary key. index.js:40-48 never
  passes it.
- Strings are sequences of Unicode scalar values rather than UTF-16 code units, so
  lone surrogates are not modelled.
- The snapshot tests and their fixture reading (tests/test.js:51-92) are file I/O and
  renderer output.
- demo/src/pages/index.js is a user-interface page. It is not part of this model.

## Findings

| source | as written | input that shows it | evidently intended | confidence | as-written member | corrected member |
|---|---|---|---|---|---|---|
| index.js:96 | `const { svg, caption } = generate(...)` destructures a string, so `svg` and `caption` are both `undefined` and every graph becomes a wrapper around the text `undefined` | any eligible code block whose SVG has an `<svg ...>...</svg>` element, with default options | the wrapper holds the annotated SVG that `generate` returns | high for plugin.js as given; not executed | Orchestrator.AsWrittenDropsSvg | Orchestrator.FixedMarkupHoldsAnnotatedSvg |
