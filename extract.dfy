/** `extractStartingComments` of plugin.js: the leading comment lines of a
    DOT source are split off from the graph that follows them. */
module Extract {
  import opened Wrappers
  import opened Text

  datatype Extraction = Extraction(startingComments: string, body: string)

  // ---------------------------------------------------------------------
  // The start-of-graph test, /(?<!#.*)(?:(?:(?:di)?graph)|strict)/
  // ---------------------------------------------------------------------

  /** One of the alternatives `graph`, `digraph`, `strict` begins at `p`. */
  predicate KeywordAt(line: string, p: int) {
    OccursAt(line, "graph", p) || OccursAt(line, "digraph", p) || OccursAt(line, "strict", p)
  }

  /** The negative lookbehind `(?<!#.*)` fails at `p`: some `#` before `p`
      is followed, up to `p`, only by characters that `.` matches. */
  predicate HashBefore(line: string, p: int)
    requires p <= |line|
  {
    exists q :: 0 <= q < p && line[q] == '#' && NoTerminator(line, q + 1, p)
  }

  predicate NoTerminator(line: string, i: int, j: int)
    requires j <= |line|
  {
    forall k :: i <= k < j && 0 <= k ==> !IsLineTerminator(line[k])
  }

  /** `isStartOfGraph.test(line)`: the regular expression matches somewhere
      in the line. It is a substring test, not a token test. */
  predicate IsStartOfGraph(line: string) {
    exists p :: 0 <= p < |line| && KeywordAt(line, p) && !HashBefore(line, p)
  }

  /** The scanner that decides `IsStartOfGraph`, left to right, remembering
      whether a `#` has been seen since the last line terminator. */
  function ScanFrom(line: string, i: nat, hash: bool): bool
    decreases |line| - i
  {
    if i >= |line| then false
    else if !hash && KeywordAt(line, i) then true
    else ScanFrom(line, i + 1, line[i] == '#' || (hash && !IsLineTerminator(line[i])))
  }

  predicate MatchesStartOfGraph(line: string) {
    ScanFrom(line, 0, false)
  }

  /** How the lookbehind changes by one character. */
  lemma HashBeforeStep(line: string, i: nat)
    requires i < |line|
    ensures HashBefore(line, i + 1) <==>
      line[i] == '#' || (HashBefore(line, i) && !IsLineTerminator(line[i]))
  {
    if line[i] == '#' {
      assert NoTerminator(line, i + 1, i + 1);
    }
    if HashBefore(line, i) && !IsLineTerminator(line[i]) {
      var q :| 0 <= q < i && line[q] == '#' && NoTerminator(line, q + 1, i);
      assert NoTerminator(line, q + 1, i + 1);
    }
    if HashBefore(line, i + 1) && line[i] != '#' {
      var q :| 0 <= q < i + 1 && line[q] == '#' && NoTerminator(line, q + 1, i + 1);
      assert q < i && NoTerminator(line, q + 1, i);
    }
  }

  lemma {:induction false} ScanFromCorrect(line: string, i: nat)
    requires i <= |line|
    ensures ScanFrom(line, i, HashBefore(line, i)) <==>
      exists p :: i <= p < |line| && KeywordAt(line, p) && !HashBefore(line, p)
    decreases |line| - i
  {
    if i < |line| {
      HashBeforeStep(line, i);
      ScanFromCorrect(line, i + 1);
      if !HashBefore(line, i) && KeywordAt(line, i) {
      } else {
        var w := exists p :: i + 1 <= p < |line| && KeywordAt(line, p) && !HashBefore(line, p);
        assert (exists p :: i <= p < |line| && KeywordAt(line, p) && !HashBefore(line, p)) == w;
      }
    }
  }

  /** The scanner decides the regular expression exactly. */
  lemma ScannerIsRegex(line: string)
    ensures MatchesStartOfGraph(line) <==> IsStartOfGraph(line)
  {
    assert !HashBefore(line, 0);
    ScanFromCorrect(line, 0);
  }

  /** The `digraph` alternative adds nothing: every line it matches has a
      `graph` with no `#` before it (two characters later). So a line is a
      start line iff `graph` or `strict` occurs in it with no `#` earlier
      on the same line. */
  lemma StartOfGraphSimplified(line: string)
    ensures IsStartOfGraph(line) <==>
      exists p :: 0 <= p < |line| && (OccursAt(line, "graph", p) || OccursAt(line, "strict", p)) && !HashBefore(line, p)
  {
    if IsStartOfGraph(line) {
      var p :| 0 <= p < |line| && KeywordAt(line, p) && !HashBefore(line, p);
      if OccursAt(line, "digraph", p) && !OccursAt(line, "graph", p) && !OccursAt(line, "strict", p) {
        assert line[p..p + 7] == "digraph";
        assert line[p] == line[p..p + 7][0] == 'd';
        assert line[p + 1] == line[p..p + 7][1] == 'i';
        HashBeforeStep(line, p);
        HashBeforeStep(line, p + 1);
        assert line[p + 2..p + 7] == "graph";
        assert OccursAt(line, "graph", p + 2) && !HashBefore(line, p + 2);
      }
    }
  }

  /** A `#` ahead of every keyword makes the line a comment, however many
      keywords follow it. */
  lemma HashFirstIsComment(line: string, h: nat)
    requires h < |line| && line[h] == '#'
    requires forall k :: h < k < |line| ==> !IsLineTerminator(line[k])
    requires forall p :: 0 <= p <= h ==> !KeywordAt(line, p)
    ensures !IsStartOfGraph(line)
  {
    forall p | h < p < |line|
      ensures HashBefore(line, p)
    {
      assert NoTerminator(line, h + 1, p);
    }
  }

  // ---------------------------------------------------------------------
  // The extraction
  // ---------------------------------------------------------------------

  /** One comment line as the source cleans it: trimmed, its first `#`
      removed wherever it stands, trimmed again. */
  function CleanComment(line: string): string {
    Trim(RemoveFirst(Trim(line), '#'))
  }

  /** A cleaned line is trimmed and made of characters of the raw line. */
  lemma CleanCommentShape(line: string)
    ensures Trimmed(CleanComment(line))
    ensures forall c :: c in CleanComment(line) ==> c in line
  {
    var t := Trim(line);
    var u := RemoveFirst(t, '#');
    TrimChars(line);
    RemoveFirstChars(t, '#');
    TrimChars(u);
  }

  function CleanAll(lines: seq<string>): (r: seq<string>)
    ensures |r| == |lines| && forall i :: 0 <= i < |lines| ==> r[i] == CleanComment(lines[i])
  {
    seq(|lines|, i requires 0 <= i < |lines| => CleanComment(lines[i]))
  }

  /** Cleaning a line without `#` only trims it; otherwise it cuts out the
      first `#` of the trimmed line and trims what is left. */
  lemma CleanCommentCases(line: string)
    ensures '#' !in line ==> CleanComment(line) == Trim(line)
    ensures '#' in Trim(line) ==>
      var t := Trim(line);
      var h := IndexOfChar(t, '#');
      CleanComment(line) == Trim(t[..h] + t[h + 1..])
  {
    var t := Trim(line);
    TrimChars(line);
    RemoveFirstCutsFirst(t, '#');
    if '#' !in line {
      assert '#' !in t;
      TrimIdempotent(line);
    }
  }

  /** Each comment entry is trimmed, is its line trimmed when the line has
      no `#`, and is the trimmed line without its first `#`, trimmed again,
      otherwise. */
  lemma CleanAllEntries(lines: seq<string>)
    ensures forall i :: 0 <= i < |lines| ==>
      var r := CleanAll(lines)[i];
      var t := Trim(lines[i]);
      Trimmed(r) &&
      ('#' !in lines[i] ==> r == t) &&
      ('#' in t ==> r == Trim(t[..IndexOfChar(t, '#')] + t[IndexOfChar(t, '#') + 1..]))
  {
    forall i | 0 <= i < |lines|
      ensures Trimmed(CleanAll(lines)[i])
      ensures '#' !in lines[i] ==> CleanAll(lines)[i] == Trim(lines[i])
      ensures '#' in Trim(lines[i]) ==>
        var t := Trim(lines[i]);
        CleanAll(lines)[i] == Trim(t[..IndexOfChar(t, '#')] + t[IndexOfChar(t, '#') + 1..])
    {
      CleanCommentShape(lines[i]);
      CleanCommentCases(lines[i]);
    }
  }

  /** The index of the first start line, or the number of lines if there is
      none. */
  function FirstStart(lines: seq<string>): (k: nat)
    ensures k <= |lines|
    ensures forall i :: 0 <= i < k ==> !IsStartOfGraph(lines[i])
    ensures k < |lines| ==> IsStartOfGraph(lines[k])
  {
    if lines == [] then 0
    else
      ScannerIsRegex(lines[0]);
      if MatchesStartOfGraph(lines[0]) then 0 else 1 + FirstStart(lines[1..])
  }

  /** What `extractStartingComments(code)` returns. */
  function ExtractSpec(code: string): Extraction {
    var lines := SplitLines(code);
    var k := FirstStart(lines);
    Extraction(Join(CleanAll(lines[..k]), "\n"), if k < |lines| then Join(lines[k..], "\n") else "")
  }

  /** `lines.shift()`: the first element, or `undefined` for an empty array. */
  function Shift(lines: seq<string>): (Option<string>, seq<string>) {
    if lines == [] then (None, []) else (Some(lines[0]), lines[1..])
  }

  /** `lines.unshift(line)`, which may put `undefined` back. */
  function Unshift(lines: seq<string>, line: Option<string>): seq<Option<string>> {
    [line] + seq(|lines|, i requires 0 <= i < |lines| => Some(lines[i]))
  }

  /** `Array.prototype.join(sep)`, which writes `undefined` as "". */
  function JoinArray(xs: seq<Option<string>>, sep: string): string {
    Join(seq(|xs|, i requires 0 <= i < |xs| => if xs[i].Some? then xs[i].value else ""), sep)
  }

  /** `extractStartingComments(code)`: lines are shifted off the front while
      they are not start lines; the start line is put back in front of the
      rest. */
  method ExtractStartingComments(code: string) returns (r: Extraction)
    ensures r == ExtractSpec(code)
  {
    var lines := SplitLines(code);
    ghost var all := lines;
    ghost var n := 0;
    var commentLines: seq<string> := [];
    var shifted := Shift(lines);
    var line := shifted.0;
    lines := shifted.1;
    while line.Some? && !MatchesStartOfGraph(line.value)
      invariant 0 <= n <= |all|
      invariant commentLines == CleanAll(all[..n])
      invariant forall i :: 0 <= i < n ==> !IsStartOfGraph(all[i])
      invariant line == (if n < |all| then Some(all[n]) else None)
      invariant lines == (if n < |all| then all[n + 1..] else [])
      decreases |all| - n
    {
      ScannerIsRegex(line.value);
      CleanAllSnoc(all, n);
      commentLines := commentLines + [CleanComment(line.value)];
      n := n + 1;
      shifted := Shift(lines);
      line, lines := shifted.0, shifted.1;
    }
    if n < |all| {
      ScannerIsRegex(all[n]);
    }
    FirstStartUnique(all, n);
    JoinUnshift(all, n, lines, line);
    assert ExtractSpec(code) == Extraction(Join(CleanAll(all[..n]), "\n"), if n < |all| then Join(all[n..], "\n") else "");
    r := Extraction(Join(commentLines, "\n"), JoinArray(Unshift(lines, line), "\n"));
  }

  lemma CleanAllSnoc(lines: seq<string>, n: nat)
    requires n < |lines|
    ensures CleanAll(lines[..n + 1]) == CleanAll(lines[..n]) + [CleanComment(lines[n])]
  {
    var a := CleanAll(lines[..n + 1]);
    var b := CleanAll(lines[..n]) + [CleanComment(lines[n])];
    assert |a| == |b|;
    forall i | 0 <= i < |a|
      ensures a[i] == b[i]
    {
      if i < n {
        assert lines[..n + 1][i] == lines[..n][i];
      }
    }
  }

  /** Putting the start line back and joining gives the body; putting
      `undefined` back into an empty array and joining gives "". */
  lemma JoinUnshift(all: seq<string>, n: nat, lines: seq<string>, line: Option<string>)
    requires n <= |all|
    requires line == (if n < |all| then Some(all[n]) else None)
    requires lines == (if n < |all| then all[n + 1..] else [])
    ensures JoinArray(Unshift(lines, line), "\n") == if n < |all| then Join(all[n..], "\n") else ""
  {
    var xs := Unshift(lines, line);
    var strs := seq(|xs|, i requires 0 <= i < |xs| => if xs[i].Some? then xs[i].value else "");
    if n < |all| {
      assert strs == all[n..];
    } else {
      assert strs == [""];
    }
  }

  lemma FirstStartUnique(lines: seq<string>, n: nat)
    requires n <= |lines|
    requires forall i :: 0 <= i < n ==> !IsStartOfGraph(lines[i])
    requires n < |lines| ==> IsStartOfGraph(lines[n])
    ensures FirstStart(lines) == n
  {
  }

  // ---------------------------------------------------------------------
  // Properties of the extraction
  // ---------------------------------------------------------------------

  /** The source with every CRLF made LF, which is what the lines rejoined
      with LF spell. */
  function Normalized(code: string): string {
    ReplaceAll(code, "\r\n", "\n")
  }

  /** The comments keep the line structure: split again on line breaks they
      give back exactly the cleaned lines before the first start line, one
      entry per line, blank lines included. */
  lemma {:induction false} CommentsRoundTrip(code: string)
    requires FirstStart(SplitLines(code)) > 0
    ensures var lines := SplitLines(code);
      SplitLines(ExtractSpec(code).startingComments) == CleanAll(lines[..FirstStart(lines)])
  {
    var lines := SplitLines(code);
    var cleaned := CleanAll(lines[..FirstStart(lines)]);
    forall i | 0 <= i < |cleaned|
      ensures '\n' !in cleaned[i] && (cleaned[i] == [] || cleaned[i][|cleaned[i]| - 1] != '\r')
    {
      assert '\n' !in lines[i];
      CleanCommentShape(lines[i]);
    }
    SplitLinesJoin(cleaned);
  }

  /** The body is the source from the first start line on, unchanged (up to
      CRLF, which the split turns into LF): the source is the raw comment
      lines, each ended by a line break, followed by the body. */
  lemma {:induction false} BodyIsRestOfSource(code: string)
    requires FirstStart(SplitLines(code)) < |SplitLines(code)|
    ensures var lines := SplitLines(code);
      var k := FirstStart(lines);
      Normalized(code) == (if k == 0 then "" else Join(lines[..k], "\n") + "\n") + ExtractSpec(code).body
  {
    var lines := SplitLines(code);
    var k := FirstStart(lines);
    JoinSplitLines(code);
    if k > 0 {
      assert lines == lines[..k] + lines[k..];
      JoinAppend(lines[..k], lines[k..], "\n");
    } else {
      assert lines[0..] == lines;
    }
  }

  /** For a source without CR the body is a suffix of the source itself. */
  lemma BodyIsSuffix(code: string)
    requires '\r' !in code
    requires FirstStart(SplitLines(code)) < |SplitLines(code)|
    ensures var body := ExtractSpec(code).body;
      |body| <= |code| && code[|code| - |body|..] == body
  {
    BodyIsRestOfSource(code);
    ReplaceAllAbsent(code, "\r\n", "\n");
  }

  /** A source whose first line is already a start line has no comments, and
      its body is the whole source (up to CRLF). */
  lemma NoLeadingComments(code: string)
    requires IsStartOfGraph(SplitLines(code)[0])
    ensures ExtractSpec(code).startingComments == ""
    ensures ExtractSpec(code).body == Normalized(code)
  {
    FirstStartUnique(SplitLines(code), 0);
    BodyIsRestOfSource(code);
    assert SplitLines(code)[..0] == [];
  }

  /** A source with no start line at all is comments only: the body is the
      empty string that joining `[undefined]` gives. */
  lemma NoStartLine(code: string)
    requires forall i :: 0 <= i < |SplitLines(code)| ==> !IsStartOfGraph(SplitLines(code)[i])
    ensures ExtractSpec(code).body == ""
    ensures ExtractSpec(code).startingComments == Join(CleanAll(SplitLines(code)), "\n")
  {
    var lines := SplitLines(code);
    FirstStartUnique(lines, |lines|);
    assert lines[..|lines|] == lines;
  }

  // ---------------------------------------------------------------------
  // The repository's own example
  // ---------------------------------------------------------------------

  predicate AllSpaces(s: string) {
    forall k :: 0 <= k < |s| ==> s[k] == ' '
  }

  lemma OccursAtHead(s: string, pat: string, p: int)
    requires OccursAt(s, pat, p) && pat != []
    ensures s[p] == pat[0]
  {
    assert s[p..p + |pat|][0] == s[p];
  }

  /** An indented `# text` line is a comment line, whatever `text` says. */
  lemma CommentLineIsNotStart(pad: string, text: string)
    requires AllSpaces(pad)
    requires NoLineTerminator(text)
    ensures !IsStartOfGraph(pad + "# " + text)
  {
    var line := pad + "# " + text;
    var h := |pad|;
    forall p | 0 <= p <= h ensures !KeywordAt(line, p) {
      assert line[p] == ' ' || line[p] == '#';
      if OccursAt(line, "graph", p) { OccursAtHead(line, "graph", p); }
      if OccursAt(line, "digraph", p) { OccursAtHead(line, "digraph", p); }
      if OccursAt(line, "strict", p) { OccursAtHead(line, "strict", p); }
    }
    forall k | h < k < |line| ensures !IsLineTerminator(line[k]) {
      if k > h + 1 {
        assert line[k] == text[k - h - 2];
      }
    }
    HashFirstIsComment(line, h);
  }

  /** An indented line that begins with `graph` is a start line. */
  lemma GraphLineIsStart(pad: string, rest: string)
    requires AllSpaces(pad)
    ensures IsStartOfGraph(pad + "graph" + rest)
  {
    var line := pad + "graph" + rest;
    assert line[|pad|..|pad| + 5] == "graph";
    assert KeywordAt(line, |pad|);
    assert !HashBefore(line, |pad|) by {
      forall q | 0 <= q < |pad| ensures line[q] != '#' {
        assert line[q] == pad[q];
      }
    }
  }

  lemma TrimAfterPad(pad: string, t: string)
    requires AllWhitespace(pad) && Trimmed(t)
    ensures Trim(pad + t) == t
  {
    TrimPadded(pad, t, []);
    assert pad + t + [] == pad + t;
  }

  /** Cleaning an indented `# text` line gives `text`. */
  lemma CleanCommentLine(pad: string, text: string)
    requires AllSpaces(pad) && text != [] && Trimmed(text)
    ensures CleanComment(pad + "# " + text) == text
  {
    HashLineTrim(pad, text);
    HashRemoved(text);
    TrimAfterPad(" ", text);
  }

  lemma HashLineTrim(pad: string, text: string)
    requires AllSpaces(pad) && text != [] && Trimmed(text)
    ensures Trim(pad + "# " + text) == "# " + text
  {
    var core := "# " + text;
    assert pad + "# " + text == pad + core;
    assert core[0] == '#' && core[|core| - 1] == text[|text| - 1];
    TrimAfterPad(pad, core);
  }

  lemma HashRemoved(text: string)
    ensures RemoveFirst("# " + text, '#') == " " + text
  {
    var core := "# " + text;
    assert core[0] == '#' && core[1..] == " " + text;
  }

  /** Extraction from a source given as its lines: the lines before the
      first start line are cleaned, the rest is the body. */
  lemma ExtractLines(lines: seq<string>, n: nat)
    requires |lines| >= 1
    requires forall i :: 0 <= i < |lines| ==> '\n' !in lines[i] && (lines[i] == [] || lines[i][|lines[i]| - 1] != '\r')
    requires n <= |lines|
    requires forall i :: 0 <= i < n ==> !IsStartOfGraph(lines[i])
    requires n < |lines| ==> IsStartOfGraph(lines[n])
    ensures ExtractSpec(Join(lines, "\n")) ==
      Extraction(Join(CleanAll(lines[..n]), "\n"), if n < |lines| then Join(lines[n..], "\n") else "")
  {
    SplitLinesJoin(lines);
    FirstStartUnique(lines, n);
  }

  /** A comment line: a blank line for empty text, otherwise `pad# text`. */
  function CommentLine(pad: string, text: string): string {
    if text == [] then [] else pad + "# " + text
  }

  /** The comment lines written for `(indentation, text)` pairs. */
  function CommentLines(comments: seq<(string, string)>): (r: seq<string>)
    ensures |r| == |comments|
  {
    seq(|comments|, i requires 0 <= i < |comments| => CommentLine(comments[i].0, comments[i].1))
  }

  /** The texts of `(indentation, text)` pairs. */
  function Texts(comments: seq<(string, string)>): (r: seq<string>)
    ensures |r| == |comments|
  {
    seq(|comments|, i requires 0 <= i < |comments| => comments[i].1)
  }

  /** A well-formed comment line is neither a start line nor split by
      `\n`, and cleaning it gives back its text. */
  lemma CommentLineFacts(pad: string, text: string)
    requires AllSpaces(pad) && Trimmed(text) && NoLineTerminator(text)
    ensures !IsStartOfGraph(CommentLine(pad, text))
    ensures CleanComment(CommentLine(pad, text)) == text
    ensures NoLineTerminator(CommentLine(pad, text))
  {
    if text == [] {
      BlankLineFacts();
    } else {
      CommentLineIsNotStart(pad, text);
      CleanCommentLine(pad, text);
      CommentLinePlain(pad, text);
    }
  }

  lemma BlankLineFacts()
    ensures !IsStartOfGraph([]) && CleanComment([]) == []
  {
  }

  lemma CommentLinePlain(pad: string, text: string)
    requires AllSpaces(pad) && NoLineTerminator(text)
    ensures NoLineTerminator(pad + "# " + text)
  {
    var line := pad + "# " + text;
    forall k | 0 <= k < |line| ensures !IsLineTerminator(line[k]) {
      if k >= |pad| + 2 { assert line[k] == text[k - |pad| - 2]; }
    }
  }

  /** A source made of comment lines (indented or not, blank or not) and then
      a graph: the comments are the texts, one per line, and the body is
      the graph, untouched. */
  lemma ExtractCommentsThenGraph(comments: seq<(string, string)>, graph: seq<string>)
    requires forall i :: 0 <= i < |comments| ==>
      AllSpaces(comments[i].0) && Trimmed(comments[i].1) && NoLineTerminator(comments[i].1)
    requires |graph| >= 1 && IsStartOfGraph(graph[0])
    requires forall i :: 0 <= i < |graph| ==> '\n' !in graph[i] && (graph[i] == [] || graph[i][|graph[i]| - 1] != '\r')
    ensures ExtractSpec(Join(CommentLines(comments) + graph, "\n")) ==
      Extraction(Join(Texts(comments), "\n"), Join(graph, "\n"))
  {
    var head := CommentLines(comments);
    var lines := head + graph;
    var n := |comments|;
    forall i | 0 <= i < n
      ensures !IsStartOfGraph(head[i]) && CleanComment(head[i]) == comments[i].1 && NoLineTerminator(head[i])
    {
      CommentLineFacts(comments[i].0, comments[i].1);
    }
    forall i | 0 <= i < |lines|
      ensures '\n' !in lines[i] && (lines[i] == [] || lines[i][|lines[i]| - 1] != '\r')
    {
      if i < n {
        assert lines[i] == head[i];
        if lines[i] != [] {
          assert !IsLineTerminator(lines[i][|lines[i]| - 1]);
        }
      } else {
        assert lines[i] == graph[i - n];
      }
    }
    assert lines[..n] == head && lines[n..] == graph;
    assert CleanAll(head) == Texts(comments);
    ExtractLines(lines, n);
  }

  /** The first line of the repository's test source. */
  function TestCaption(): (r: string)
    ensures NoLineTerminator(r) && Trimmed(r)
  {
    NoLineTerminatorAppend("A simple digraph ", "that connects two ");
    NoLineTerminatorAppend("A simple digraph " + "that connects two ", "nodes in both directions");
    "A simple digraph " + "that connects two " + "nodes in both directions"
  }

  /** The comments of the repository's test source, before the graph. */
  function TestComments(): seq<(string, string)> {
    [("", TestCaption()), ("", ""), ("    ", "This is another comment"), ("    ", "strict"),
     ("    ", "digraph"), ("    ", "graph")]
  }

  /** The graph lines of the repository's test source. */
  function TestGraph(): seq<string> {
    ["    graph {", "        A -> B; # Connect A to B", "        # Connect B back to A",
     "        B -> A;", "    }"]
  }

  /** The repository's test of `extractStartingComments` (tests/test.js):
      the six lines before `graph {` become the comments, with the `#` and
      the indentation removed and the blank line kept; the graph is the
      body, its own comments untouched. */
  lemma ExtractTestExample()
    ensures ExtractSpec(Join(CommentLines(TestComments()) + TestGraph(), "\n")) ==
      Extraction(
        Join([TestCaption(), "", "This is another comment", "strict", "digraph", "graph"], "\n"),
        Join(TestGraph(), "\n"))
  {
    TestCommentsWellFormed();
    TestGraphWellFormed();
    TestTexts();
    ExtractCommentsThenGraph(TestComments(), TestGraph());
  }

  lemma TestCommentsWellFormed()
    ensures var cs := TestComments(); forall i :: 0 <= i < |cs| ==>
      AllSpaces(cs[i].0) && Trimmed(cs[i].1) && NoLineTerminator(cs[i].1)
  {
  }

  lemma TestGraphWellFormed()
    ensures var graph := TestGraph(); |graph| >= 1 && IsStartOfGraph(graph[0])
    ensures var graph := TestGraph();
      forall i :: 0 <= i < |graph| ==> '\n' !in graph[i] && (graph[i] == [] || graph[i][|graph[i]| - 1] != '\r')
  {
    var graph := TestGraph();
    assert graph[0] == "    " + "graph" + " {";
    GraphLineIsStart("    ", " {");
  }

  lemma TestTexts()
    ensures Texts(TestComments()) == [TestCaption(), "", "This is another comment", "strict", "digraph", "graph"]
  {
  }
}
