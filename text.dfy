/** The JavaScript string primitives the core relies on, as functions over
    `seq<char>`: `trim`, `toLowerCase`, `indexOf`, `split(/\r?\n/)`,
    `Array.prototype.join` and `replace` with a global pattern. */
module Text {
  import opened Wrappers

  /** A code point that `String.prototype.trim` removes: ECMAScript's
      WhiteSpace (tab, vertical tab, form feed, the byte order mark and the
      Unicode space separators) and LineTerminator. */
  predicate IsWhitespace(c: char) {
    c == '\t' || c == '\n' || c == '\U{000B}' || c == '\U{000C}' || c == '\r' ||
    c == ' ' || c == '\U{00A0}' || c == '\U{1680}' ||
    ('\U{2000}' <= c <= '\U{200A}') ||
    c == '\U{2028}' || c == '\U{2029}' || c == '\U{202F}' || c == '\U{205F}' ||
    c == '\U{3000}' || c == '\U{FEFF}'
  }

  /** A code point that the regular-expression `.` does not match. */
  predicate IsLineTerminator(c: char) {
    c == '\n' || c == '\r' || c == '\U{2028}' || c == '\U{2029}'
  }

  predicate NoLineTerminator(s: string) {
    forall k :: 0 <= k < |s| ==> !IsLineTerminator(s[k])
  }

  lemma NoLineTerminatorAppend(a: string, b: string)
    requires NoLineTerminator(a) && NoLineTerminator(b)
    ensures NoLineTerminator(a + b)
  {
    assert forall k :: |a| <= k < |a + b| ==> (a + b)[k] == b[k - |a|];
  }

  predicate AllWhitespace(s: string) {
    forall k :: 0 <= k < |s| ==> IsWhitespace(s[k])
  }

  /** `s` has no whitespace at either end (the empty string included). */
  predicate Trimmed(s: string) {
    s == [] || (!IsWhitespace(s[0]) && !IsWhitespace(s[|s| - 1]))
  }

  function TrimStart(s: string): string {
    if s != [] && IsWhitespace(s[0]) then TrimStart(s[1..]) else s
  }

  function TrimEnd(s: string): string {
    if s != [] && IsWhitespace(s[|s| - 1]) then TrimEnd(s[..|s| - 1]) else s
  }

  /** `TrimStart` drops a whitespace prefix and stops at a non-whitespace
      character. */
  lemma {:induction false} TrimStartShape(s: string)
    ensures var r := TrimStart(s);
      |r| <= |s| && r == s[|s| - |r|..] && AllWhitespace(s[..|s| - |r|]) &&
      (r == [] || !IsWhitespace(r[0]))
  {
    if s != [] && IsWhitespace(s[0]) {
      TrimStartShape(s[1..]);
      var r := TrimStart(s);
      assert s[..|s| - |r|] == [s[0]] + s[1..][..|s| - 1 - |r|];
    }
  }

  /** `TrimEnd` drops a whitespace suffix and stops at a non-whitespace
      character. */
  lemma {:induction false} TrimEndShape(s: string)
    ensures var r := TrimEnd(s);
      |r| <= |s| && r == s[..|r|] && AllWhitespace(s[|r|..]) &&
      (r == [] || !IsWhitespace(r[|r| - 1]))
  {
    if s != [] && IsWhitespace(s[|s| - 1]) {
      var init := s[..|s| - 1];
      TrimEndShape(init);
      var r := TrimEnd(s);
      assert s[|r|..] == init[|r|..] + [s[|s| - 1]];
    }
  }

  /** `String.prototype.trim`. */
  function Trim(s: string): (r: string)
    ensures Trimmed(r)
  {
    TrimStartShape(s);
    TrimEndShape(TrimStart(s));
    TrimEnd(TrimStart(s))
  }

  /** Trimming only removes characters. */
  lemma TrimChars(s: string)
    ensures forall c :: c in Trim(s) ==> c in s
  {
    var t := TrimStart(s);
    var r := TrimEnd(t);
    TrimStartShape(s);
    TrimEndShape(t);
    forall c | c in r
      ensures c in s
    {
      var k :| 0 <= k < |r| && r[k] == c;
      assert t[k] == c;
      assert s[|s| - |t| + k] == c;
    }
  }

  /** Trimming strips exactly the whitespace padding around a trimmed core. */
  lemma {:induction false} TrimPadded(a: string, t: string, b: string)
    requires AllWhitespace(a) && AllWhitespace(b) && Trimmed(t)
    ensures Trim(a + t + b) == t
  {
    if t == [] {
      assert a + t + b == a + b;
      TrimStartPadded(a + b, []);
      assert a + b + [] == a + b;
    } else {
      assert a + t + b == a + (t + b);
      TrimStartPadded(a, t + b);
      TrimEndPadded(t, b);
    }
  }

  lemma {:induction false} TrimStartPadded(a: string, u: string)
    requires AllWhitespace(a)
    requires u == [] || !IsWhitespace(u[0])
    ensures TrimStart(a + u) == u
  {
    if a != [] {
      assert (a + u)[1..] == a[1..] + u;
      TrimStartPadded(a[1..], u);
    } else {
      assert a + u == u;
    }
  }

  lemma {:induction false} TrimEndPadded(t: string, b: string)
    requires AllWhitespace(b)
    requires t == [] || !IsWhitespace(t[|t| - 1])
    ensures TrimEnd(t + b) == t
  {
    if b != [] {
      assert (t + b)[..|t + b| - 1] == t + b[..|b| - 1];
      TrimEndPadded(t, b[..|b| - 1]);
    } else {
      assert t + b == t;
    }
  }

  /** Every string is its trimmed core padded by whitespace on both sides. */
  lemma TrimSplit(s: string)
    ensures exists a, b :: AllWhitespace(a) && AllWhitespace(b) && s == a + Trim(s) + b
  {
    var t := TrimStart(s);
    TrimStartShape(s);
    var a := s[..|s| - |t|];
    var r := TrimEnd(t);
    TrimEndShape(t);
    var b := t[|r|..];
    assert Trim(s) == r;
    Padding(s, a, t, r, b);
  }

  lemma Padding(s: string, a: string, t: string, r: string, b: string)
    requires s == a + t && t == r + b && AllWhitespace(a) && AllWhitespace(b)
    ensures exists a', b' :: AllWhitespace(a') && AllWhitespace(b') && s == a' + r + b'
  {
    assert s == a + r + b;
  }

  /** Trimming twice is trimming once. */
  lemma TrimIdempotent(s: string)
    ensures Trim(Trim(s)) == Trim(s)
  {
    TrimPadded([], Trim(s), []);
    assert [] + Trim(s) + [] == Trim(s);
  }

  /** `pat` occurs in `s` starting at index `i`. */
  predicate OccursAt(s: string, pat: string, i: int) {
    0 <= i && i + |pat| <= |s| && s[i..i + |pat|] == pat
  }

  /** `s.indexOf(pat, from)`, with `None` for JavaScript's -1: the first
      occurrence at or after `from`. */
  function Find(s: string, pat: string, from: nat): (r: Option<nat>)
    decreases |s| - from
    ensures r.Some? ==> from <= r.value && OccursAt(s, pat, r.value)
    ensures r.Some? ==> forall k :: from <= k < r.value ==> !OccursAt(s, pat, k)
    ensures r.None? ==> forall k :: from <= k ==> !OccursAt(s, pat, k)
  {
    if from + |pat| > |s| then None
    else if OccursAt(s, pat, from) then Some(from)
    else Find(s, pat, from + 1)
  }

  /** `s.indexOf(c)` for a character known to occur. */
  function IndexOfChar(s: string, c: char): (i: nat)
    requires c in s
    ensures i < |s| && s[i] == c && c !in s[..i]
  {
    if s[0] == c then 0
    else
      var i := 1 + IndexOfChar(s[1..], c);
      assert s[..i] == [s[0]] + s[1..][..i - 1];
      i
  }

  /** `String.prototype.replace(c, '')` with a one-character string pattern:
      only the first occurrence is removed. */
  function RemoveFirst(s: string, c: char): string {
    if s == [] then []
    else if s[0] == c then s[1..]
    else [s[0]] + RemoveFirst(s[1..], c)
  }

  /** Removing a character only removes. */
  lemma {:induction false} RemoveFirstChars(s: string, c: char)
    ensures forall x :: x in RemoveFirst(s, c) ==> x in s
  {
    if s != [] && s[0] != c {
      RemoveFirstChars(s[1..], c);
    }
  }

  /** The removal cuts out exactly the character at `s.indexOf(c)`, and
      leaves a string without `c` untouched. */
  lemma {:induction false} RemoveFirstCutsFirst(s: string, c: char)
    ensures c !in s ==> RemoveFirst(s, c) == s
    ensures c in s ==> RemoveFirst(s, c) == s[..IndexOfChar(s, c)] + s[IndexOfChar(s, c) + 1..]
  {
    if s != [] && s[0] != c {
      RemoveFirstCutsFirst(s[1..], c);
      if c in s {
        var j := IndexOfChar(s[1..], c);
        assert IndexOfChar(s, c) == j + 1;
        assert s[..j + 1] == [s[0]] + s[1..][..j];
        assert s[j + 2..] == s[1..][j + 1..];
      } else {
        assert s == [s[0]] + s[1..];
      }
    }
  }

  /** `Array.prototype.join(sep)` over strings. */
  function Join(xs: seq<string>, sep: string): string {
    if |xs| == 0 then ""
    else if |xs| == 1 then xs[0]
    else xs[0] + sep + Join(xs[1..], sep)
  }

  /** `s.split(/\r?\n/)`: cut at every CRLF and every LF, scanning left to
      right; a CR not followed by LF stays in its line. */
  function SplitLines(s: string): (r: seq<string>)
    ensures |r| >= 1
    ensures forall k :: 0 <= k < |r| ==> '\n' !in r[k]
  {
    if s == [] then [""]
    else if |s| >= 2 && s[0] == '\r' && s[1] == '\n' then [""] + SplitLines(s[2..])
    else if s[0] == '\n' then [""] + SplitLines(s[1..])
    else
      var rest := SplitLines(s[1..]);
      [[s[0]] + rest[0]] + rest[1..]
  }

  /** Replacement of every non-overlapping occurrence of `pat`, scanning left
      to right, as `replace(/pat/g, rep)` does for a literal pattern. */
  function ReplaceAll(s: string, pat: string, rep: string): string
    requires pat != []
    decreases |s|
  {
    if |s| < |pat| then s
    else if s[..|pat|] == pat then rep + ReplaceAll(s[|pat|..], pat, rep)
    else [s[0]] + ReplaceAll(s[1..], pat, rep)
  }

  /** Replacement of every character of the class `cs`, as
      `replace(/[...]/g, rep)` does. */
  function ReplaceAny(s: string, cs: set<char>, rep: string): string {
    if s == [] then [] else (if s[0] in cs then rep else [s[0]]) + ReplaceAny(s[1..], cs, rep)
  }

  /** A one-character pattern is a one-member character class. */
  lemma {:induction false} ReplaceCharIsClass(s: string, c: char, rep: string)
    ensures ReplaceAll(s, [c], rep) == ReplaceAny(s, {c}, rep)
  {
    if s != [] {
      assert s[..1] == [s[0]];
      ReplaceCharIsClass(s[1..], c, rep);
    }
  }

  /** Class replacement works character by character, so it distributes over
      concatenation. */
  lemma {:induction false} ReplaceAnyAppend(a: string, b: string, cs: set<char>, rep: string)
    ensures ReplaceAny(a + b, cs, rep) == ReplaceAny(a, cs, rep) + ReplaceAny(b, cs, rep)
  {
    if a == [] {
      assert a + b == b;
    } else {
      assert (a + b)[0] == a[0] && (a + b)[1..] == a[1..] + b;
      ReplaceAnyAppend(a[1..], b, cs, rep);
    }
  }

  /** After a class replacement only the replacement text can hold a
      character of the class, and no other character appears that was not
      already there. */
  lemma {:induction false} ReplaceAnyChars(s: string, cs: set<char>, rep: string, d: char)
    ensures d in ReplaceAny(s, cs, rep) ==> (d in s && d !in cs) || d in rep
  {
    if s != [] {
      ReplaceAnyChars(s[1..], cs, rep, d);
    }
  }

  /** A class replacement leaves a string with no character of the class
      unchanged. */
  lemma {:induction false} ReplaceAnyIdentity(s: string, cs: set<char>, rep: string)
    requires forall k :: 0 <= k < |s| ==> s[k] !in cs
    ensures ReplaceAny(s, cs, rep) == s
  {
    if s != [] {
      ReplaceAnyIdentity(s[1..], cs, rep);
    }
  }

  /** `toLowerCase` on one code point, for the code points whose lower case
      is ASCII: the Latin capitals and the Kelvin sign. Every other code point
      is kept, which never turns a non-ASCII code point into ASCII. */
  function LowerChar(c: char): char {
    if 'A' <= c <= 'Z' then (c as int + 32) as char
    else if c == '\U{212A}' then 'k'
    else c
  }

  function ToLower(s: string): (r: string)
    ensures |r| == |s| && forall k :: 0 <= k < |s| ==> r[k] == LowerChar(s[k])
  {
    seq(|s|, k requires 0 <= k < |s| => LowerChar(s[k]))
  }

  /** `c` is the lower-case ASCII letter `t` written in either case, or the
      Kelvin sign written for `k`. */
  predicate CaseVariant(c: char, t: char) {
    c == t || ('a' <= t <= 'z' && c as int == t as int - 32) || (t == 'k' && c == '\U{212A}')
  }

  predicate LowerAsciiLetters(t: string) {
    forall k :: 0 <= k < |t| ==> 'a' <= t[k] <= 'z'
  }

  /** Lowering a character gives a lower-case letter exactly when the
      character is one of that letter's case variants. */
  lemma LowerCharVariant(c: char, t: char)
    requires 'a' <= t <= 'z'
    ensures LowerChar(c) == t <==> CaseVariant(c, t)
  {
  }

  /** Lower-casing a second time changes nothing. */
  lemma ToLowerIdempotent(s: string)
    ensures ToLower(ToLower(s)) == ToLower(s)
  {
    var r := ToLower(s);
    forall k | 0 <= k < |s|
      ensures ToLower(r)[k] == r[k]
    {
      assert r[k] == LowerChar(s[k]);
    }
  }

  /** `toLowerCase` gives a word of lower-case letters exactly when the
      string spells that word letter by letter in any case. */
  lemma ToLowerSpells(x: string, t: string)
    requires LowerAsciiLetters(t)
    ensures ToLower(x) == t <==> |x| == |t| && forall k :: 0 <= k < |x| ==> CaseVariant(x[k], t[k])
  {
    if |x| == |t| {
      forall k | 0 <= k < |x|
        ensures ToLower(x)[k] == t[k] <==> CaseVariant(x[k], t[k])
      {
        LowerCharVariant(x[k], t[k]);
      }
      if forall k :: 0 <= k < |x| ==> CaseVariant(x[k], t[k]) {
        assert ToLower(x) == t;
      }
    }
  }

  lemma OccursInPrefix(a: string, b: string, pat: string, i: int)
    requires OccursAt(a, pat, i)
    ensures OccursAt(a + b, pat, i)
  {
    assert (a + b)[i..i + |pat|] == a[i..i + |pat|];
  }

  lemma OccursInSuffix(a: string, b: string, pat: string, j: int)
    requires OccursAt(b, pat, j)
    ensures OccursAt(a + b, pat, |a| + j)
  {
    assert (a + b)[|a| + j..|a| + j + |pat|] == b[j..j + |pat|];
  }

  lemma {:induction false} JoinAppend(a: seq<string>, b: seq<string>, sep: string)
    requires |a| >= 1 && |b| >= 1
    ensures Join(a + b, sep) == Join(a, sep) + sep + Join(b, sep)
  {
    if |a| == 1 {
      assert (a + b)[1..] == b;
    } else {
      assert (a + b)[1..] == a[1..] + b;
      JoinAppend(a[1..], b, sep);
    }
  }

  /** Joining the lines of `s` with LF gives back `s` with every CRLF made
      LF: splitting loses nothing but the CR of each CRLF. */
  lemma {:induction false} JoinSplitLines(s: string)
    ensures Join(SplitLines(s), "\n") == ReplaceAll(s, "\r\n", "\n")
    decreases |s|
  {
    if s == [] {
    } else if |s| >= 2 && s[0] == '\r' && s[1] == '\n' {
      JoinSplitLines(s[2..]);
      assert s[..2] == "\r\n";
      assert Join([""] + SplitLines(s[2..]), "\n") == "" + "\n" + Join(SplitLines(s[2..]), "\n") by {
        JoinAppend([""], SplitLines(s[2..]), "\n");
      }
    } else if s[0] == '\n' {
      JoinSplitLines(s[1..]);
      assert Join([""] + SplitLines(s[1..]), "\n") == "" + "\n" + Join(SplitLines(s[1..]), "\n") by {
        JoinAppend([""], SplitLines(s[1..]), "\n");
      }
      if |s| >= 2 {
        assert s[..2] != "\r\n" by { assert s[..2][0] == '\n'; }
      } else {
        assert s[1..] == [];
      }
    } else {
      var rest := SplitLines(s[1..]);
      JoinSplitLines(s[1..]);
      JoinConsHead([s[0]], rest, "\n");
      if |s| >= 2 {
        assert s[..2] != "\r\n" by { assert s[..2][0] == s[0] && s[..2][1] == s[1]; }
      } else {
        assert s[1..] == [];
      }
    }
  }

  /** Text put in front of the first element comes out in front of the
      joined string. */
  lemma JoinConsHead(p: string, rest: seq<string>, sep: string)
    requires |rest| >= 1
    ensures Join([p + rest[0]] + rest[1..], sep) == p + Join(rest, sep)
  {
    var xs := [p + rest[0]] + rest[1..];
    assert xs[0] == p + rest[0];
    if |rest| > 1 {
      assert xs[1..] == rest[1..];
    }
  }

  /** Splitting a string on its first LF, when the text before it is not
      left ending in CR. */
  lemma {:induction false} SplitLinesHead(x: string, tail: string)
    requires '\n' !in x && (x == [] || x[|x| - 1] != '\r')
    ensures SplitLines(x + "\n" + tail) == [x] + SplitLines(tail)
  {
    var s := x + "\n" + tail;
    if x == [] {
      assert s == "\n" + tail && s[1..] == tail;
    } else {
      assert s[0] == x[0] && s[1..] == x[1..] + "\n" + tail;
      SplitLinesHead(x[1..], tail);
      if x[0] == '\r' {
        assert |x| >= 2 && s[1] == x[1];
      }
      assert [x[0]] + x[1..] == x;
    }
  }

  /** A single line without LF and without a final CR splits to itself. */
  lemma {:induction false} SplitLinesOne(x: string)
    requires '\n' !in x && (x == [] || x[|x| - 1] != '\r')
    ensures SplitLines(x) == [x]
  {
    if x != [] {
      SplitLinesOne(x[1..]);
      if x[0] == '\r' {
        assert |x| >= 2 && x[1] != '\n';
      }
      assert [x[0]] + x[1..] == x;
    }
  }

  /** Lines without LF and not ending in CR survive a join and a split. */
  lemma {:induction false} SplitLinesJoin(xs: seq<string>)
    requires |xs| >= 1
    requires forall i :: 0 <= i < |xs| ==> '\n' !in xs[i] && (xs[i] == [] || xs[i][|xs[i]| - 1] != '\r')
    ensures SplitLines(Join(xs, "\n")) == xs
  {
    if |xs| == 1 {
      SplitLinesOne(xs[0]);
    } else {
      SplitLinesJoin(xs[1..]);
      SplitLinesHead(xs[0], Join(xs[1..], "\n"));
      assert [xs[0]] + xs[1..] == xs;
    }
  }

  /** A string without the first character of `pat` has nothing to replace. */
  lemma {:induction false} ReplaceAllAbsent(s: string, pat: string, rep: string)
    requires pat != [] && pat[0] !in s
    ensures ReplaceAll(s, pat, rep) == s
  {
    if |s| >= |pat| {
      assert s[..|pat|][0] == s[0];
      ReplaceAllAbsent(s[1..], pat, rep);
    }
  }
}
