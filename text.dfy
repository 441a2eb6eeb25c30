/** Text vocabulary for the echo stage's word-wrapper: Python's notion of
    whitespace, the pieces `re.split(r"(\n|\S+)", s)` cuts a fragment into,
    the lines of a text, its whitespace-free skeleton, and the whitespace
    normalisation a terminal re-flow is measured against. */
module Text {

  /** Python's `str.isspace` on one character; the same characters are the
      ones `\s` matches in a `str` pattern. */
  predicate IsSpace(c: char) {
    var n := c as int;
    (0x09 <= n <= 0x0D) || (0x1C <= n <= 0x20) || n == 0x85 || n == 0xA0
    || n == 0x1680 || (0x2000 <= n <= 0x200A) || n == 0x2028 || n == 0x2029
    || n == 0x202F || n == 0x205F || n == 0x3000
  }

  /** Python's `t.isspace()`: false on the empty string. */
  predicate AllSpace(t: string) {
    |t| > 0 && forall i :: 0 <= i < |t| ==> IsSpace(t[i])
  }

  /** Whitespace without a newline, possibly empty: what `re.split` leaves
      between two matches of `\n|\S+`. */
  predicate IsGap(t: string) {
    forall i :: 0 <= i < |t| ==> IsSpace(t[i]) && t[i] != '\n'
  }

  /** Text without any whitespace. */
  predicate NoSpace(t: string) {
    forall i :: 0 <= i < |t| ==> !IsSpace(t[i])
  }

  /** A match of `\S+`. */
  predicate IsWord(t: string) {
    |t| > 0 && NoSpace(t)
  }

  /** Python's `" " * n`. */
  function Spaces(n: nat): string {
    if n == 0 then [] else Spaces(n - 1) + " "
  }

  lemma {:induction false} SpacesSpec(n: nat)
    ensures |Spaces(n)| == n && OnlySpaces(Spaces(n)) && IsGap(Spaces(n))
  {
    if n > 0 {
      SpacesSpec(n - 1);
      assert IsSpace(' ');
    }
  }

  predicate OnlySpaces(s: string) {
    forall i :: 0 <= i < |s| ==> s[i] == ' '
  }

  /** The text a consumer sees when it prints the fragments one after another. */
  function Concat(parts: seq<string>): string {
    if parts == [] then [] else Concat(parts[..|parts| - 1]) + parts[|parts| - 1]
  }

  lemma {:induction false} ConcatSnoc(parts: seq<string>, x: string)
    ensures Concat(parts + [x]) == Concat(parts) + x
  {
    assert (parts + [x])[..|parts|] == parts;
  }

  lemma {:induction false} ConcatAppend(a: seq<string>, b: seq<string>)
    ensures Concat(a + b) == Concat(a) + Concat(b)
    decreases |b|
  {
    if b == [] {
      assert a + b == a;
    } else {
      var b' := b[..|b| - 1];
      assert a + b == (a + b') + [b[|b| - 1]];
      ConcatSnoc(a + b', b[|b| - 1]);
      ConcatAppend(a, b');
    }
  }

  lemma {:induction false} ConcatCons(x: string, parts: seq<string>)
    ensures Concat([x] + parts) == x + Concat(parts)
  {
    ConcatAppend([x], parts);
    assert Concat([x]) == Concat([]) + x;
  }

  lemma {:induction false} ConcatSingle(a: string)
    ensures Concat([a]) == a
  {
    ConcatSnoc([], a);
    assert [] + [a] == [a];
  }

  lemma {:induction false} ConcatPair(a: string, b: string)
    ensures Concat([a, b]) == a + b
  {
    assert [a, b] == [a] + [b];
    ConcatSnoc([a], b);
    ConcatSnoc([], a);
  }

  // ---------------------------------------------------------------------------
  // re.split(r"(\n|\S+)", s)

  /** Length of the longest prefix of `s` that is a gap. */
  function GapLength(s: string): (n: nat)
    ensures n <= |s|
  {
    if s == [] || !IsSpace(s[0]) || s[0] == '\n' then 0 else 1 + GapLength(s[1..])
  }

  /** Length of the longest prefix of `s` without whitespace: the greedy `\S+`. */
  function WordLength(s: string): (n: nat)
    ensures n <= |s|
  {
    if s == [] || IsSpace(s[0]) then 0 else 1 + WordLength(s[1..])
  }

  /** The gap is as long as possible: it stops at a newline or a non-space. */
  lemma {:induction false} GapLengthSpec(s: string)
    ensures IsGap(s[..GapLength(s)])
    ensures GapLength(s) < |s| ==> !IsSpace(s[GapLength(s)]) || s[GapLength(s)] == '\n'
    decreases |s|
  {
    if s != [] && IsSpace(s[0]) && s[0] != '\n' {
      GapLengthSpec(s[1..]);
      var n := GapLength(s);
      assert forall i :: 1 <= i < n ==> s[..n][i] == s[1..][..n - 1][i - 1];
    }
  }

  /** The word is as long as possible: it stops at whitespace. */
  lemma {:induction false} WordLengthSpec(s: string)
    ensures NoSpace(s[..WordLength(s)])
    ensures WordLength(s) < |s| ==> IsSpace(s[WordLength(s)])
    decreases |s|
  {
    if s != [] && !IsSpace(s[0]) {
      WordLengthSpec(s[1..]);
      var n := WordLength(s);
      assert forall i :: 1 <= i < n ==> s[..n][i] == s[1..][..n - 1][i - 1];
    }
  }

  /** The list `re.split(r"(\n|\S+)", s)` returns: the captured matches at odd
      positions, the (possibly empty) text between them at even positions. */
  function Split(s: string): seq<string>
    decreases |s|
  {
    var g := GapLength(s);
    if g == |s| then [s]
    else if s[g] == '\n' then [s[..g], "\n"] + Split(s[g + 1..])
    else
      var w := g + WordLength(s[g..]);
      [s[..g], s[g..w]] + Split(s[w..])
  }

  /** The shape of a `re.split` result: gaps alternate with matches, each
      match is a newline or a word, and two words are never adjacent (`\S+`
      is greedy). */
  predicate SplitShaped(p: seq<string>) {
    |p| % 2 == 1
    && (forall k :: 0 <= k < |p| && k % 2 == 0 ==> IsGap(p[k]))
    && (forall k :: 0 <= k < |p| && k % 2 == 1 ==> p[k] == "\n" || IsWord(p[k]))
    && (forall k :: 0 < k < |p| - 1 && IsWord(p[k - 1]) && IsWord(p[k + 1]) ==> p[k] != [])
  }

  lemma {:induction false} SplitShapedCons(g: string, m: string, p: seq<string>)
    requires IsGap(g) && (m == "\n" || IsWord(m)) && SplitShaped(p)
    requires IsWord(m) && |p| > 1 && IsWord(p[1]) ==> p[0] != []
    ensures SplitShaped([g, m] + p)
  {
    var q := [g, m] + p;
    forall k | 0 <= k < |q| && k % 2 == 0
      ensures IsGap(q[k])
    {
      if k >= 2 { assert q[k] == p[k - 2]; }
    }
    forall k | 0 <= k < |q| && k % 2 == 1
      ensures q[k] == "\n" || IsWord(q[k])
    {
      if k >= 2 { assert q[k] == p[k - 2]; }
    }
    forall k | 0 < k < |q| - 1 && IsWord(q[k - 1]) && IsWord(q[k + 1])
      ensures q[k] != []
    {
      if k >= 3 {
        assert q[k - 1] == p[k - 3] && q[k] == p[k - 2] && q[k + 1] == p[k - 1];
      } else if k == 2 {
        assert q[k] == p[0] && q[k + 1] == p[1];
      }
    }
  }

  /** After a word the rest starts with whitespace, so the first piece of its
      split is a non-empty gap or is followed by a newline. */
  lemma {:induction false} SplitAfterWord(rest: string)
    requires rest != [] ==> IsSpace(rest[0])
    ensures |Split(rest)| > 1 && IsWord(Split(rest)[1]) ==> Split(rest)[0] != []
  {
    var g := GapLength(rest);
    GapLengthSpec(rest);
    if g == |rest| {
      assert |Split(rest)| == 1;
    } else if g == 0 {
      assert rest[0] == '\n';
      assert Split(rest) == [rest[..0], "\n"] + Split(rest[1..]);
      assert Split(rest)[1] == "\n" && IsSpace("\n"[0]);
    } else {
      assert Split(rest)[0] == rest[..g];
    }
  }

  /** One step of the split: the leading gap, the match after it, and the rest. */
  lemma {:induction false} SplitStep(s: string) returns (g: string, m: string, rest: string)
    requires GapLength(s) < |s|
    ensures Split(s) == [g, m] + Split(rest)
    ensures s == g + m + rest && |rest| < |s|
    ensures IsGap(g) && (m == "\n" || IsWord(m))
    ensures IsWord(m) ==> rest == [] || IsSpace(rest[0])
  {
    var n := GapLength(s);
    GapLengthSpec(s);
    g := s[..n];
    if s[n] == '\n' {
      m, rest := "\n", s[n + 1..];
      assert s == g + m + rest by {
        assert s == s[..n] + s[n..] && s[n..] == [s[n]] + s[n + 1..];
      }
    } else {
      m, rest := SplitWordAt(s, n);
    }
  }

  /** The word case of `SplitStep`: after a gap of length `n` comes a word. */
  lemma {:induction false} SplitWordAt(s: string, n: nat) returns (m: string, rest: string)
    requires n == GapLength(s) < |s| && s[n] != '\n' && !IsSpace(s[n])
    ensures Split(s) == [s[..n], m] + Split(rest)
    ensures s == s[..n] + m + rest && |rest| < |s|
    ensures IsWord(m) && (rest == [] || IsSpace(rest[0]))
  {
    var w := n + WordLength(s[n..]);
    assert Split(s) == [s[..n], s[n..w]] + Split(s[w..]);
    WordAt(s, n);
    m, rest := s[n..w], s[w..];
    SliceJoin(s, n, w);
  }

  /** The greedy `\S+` starting at position `n`, where there is no space: a
      word, followed by nothing or by whitespace. */
  lemma {:induction false} WordAt(s: string, n: nat)
    requires n < |s| && !IsSpace(s[n])
    ensures n < n + WordLength(s[n..]) <= |s|
    ensures IsWord(s[n..n + WordLength(s[n..])])
    ensures n + WordLength(s[n..]) < |s| ==> IsSpace(s[n + WordLength(s[n..])])
  {
    var k := WordLength(s[n..]);
    WordLengthSpec(s[n..]);
    assert s[n..][..k] == s[n..n + k];
    if n + k < |s| {
      assert s[n..][k] == s[n + k];
    }
  }

  lemma {:induction false} SliceJoin(s: string, i: nat, j: nat)
    requires i <= j <= |s|
    ensures s[..i] + s[i..j] + s[j..] == s
  {
    assert s[..i] + s[i..j] == s[..j];
  }

  /** The pieces join back to the fragment. */
  lemma {:induction false} SplitConcat(s: string)
    ensures Concat(Split(s)) == s
    decreases |s|
  {
    if GapLength(s) == |s| {
      assert Split(s) == [s] by { assert s[..|s|] == s; }
      ConcatSingle(s);
    } else {
      var g, m, rest := SplitStep(s);
      SplitConcat(rest);
      ConcatPair(g, m);
      ConcatAppend([g, m], Split(rest));
    }
  }

  /** The pieces have the shape `re.split` gives. */
  lemma {:induction false} SplitShape(s: string)
    ensures SplitShaped(Split(s))
    decreases |s|
  {
    if GapLength(s) == |s| {
      GapLengthSpec(s);
      assert s[..|s|] == s && Split(s) == [s];
    } else {
      var g, m, rest := SplitStep(s);
      SplitShape(rest);
      if IsWord(m) {
        SplitAfterWord(rest);
      }
      SplitShapedCons(g, m, Split(rest));
    }
  }

  // ---------------------------------------------------------------------------
  // Skeleton and content

  /** `s` without its whitespace; newlines stay when `keepNewlines` holds. */
  function Strip(s: string, keepNewlines: bool): string {
    if s == [] then []
    else
      var c := s[|s| - 1];
      Strip(s[..|s| - 1], keepNewlines) + (if !IsSpace(c) || (keepNewlines && c == '\n') then [c] else [])
  }

  /** The words and newlines of a text, in order. */
  function Skeleton(s: string): string {
    Strip(s, true)
  }

  /** The non-whitespace characters of a text, in order. */
  function Content(s: string): string {
    Strip(s, false)
  }

  lemma {:induction false} StripAppend(a: string, b: string, keepNewlines: bool)
    ensures Strip(a + b, keepNewlines) == Strip(a, keepNewlines) + Strip(b, keepNewlines)
    decreases |b|
  {
    if b == [] {
      assert a + b == a;
    } else {
      assert (a + b)[..|a + b| - 1] == a + b[..|b| - 1];
      StripAppend(a, b[..|b| - 1], keepNewlines);
    }
  }

  lemma {:induction false} StripGap(g: string, keepNewlines: bool)
    requires IsGap(g)
    ensures Strip(g, keepNewlines) == []
    decreases |g|
  {
    if g != [] {
      StripGap(g[..|g| - 1], keepNewlines);
    }
  }

  lemma {:induction false} StripNoSpace(w: string, keepNewlines: bool)
    requires NoSpace(w)
    ensures Strip(w, keepNewlines) == w
    decreases |w|
  {
    if w != [] {
      StripNoSpace(w[..|w| - 1], keepNewlines);
    }
  }

  /** Dropping the newlines from the skeleton leaves the content. */
  lemma {:induction false} ContentOfSkeleton(s: string)
    ensures Content(Skeleton(s)) == Content(s)
    decreases |s|
  {
    if s != [] {
      var p := s[..|s| - 1];
      var c := s[|s| - 1];
      ContentOfSkeleton(p);
      var kept := if !IsSpace(c) || c == '\n' then [c] else [];
      StripAppend(Skeleton(p), kept, false);
      assert Strip(kept, false) == (if !IsSpace(c) then [c] else []) by {
        if kept != [] {
          assert kept[..0] == [];
        }
      }
    }
  }

  /** `b` is `a` with zero or more newlines inserted. */
  predicate NewlinesAdded(a: string, b: string)
    decreases |b|
  {
    if b == [] then a == []
    else
      (b[|b| - 1] == '\n' && NewlinesAdded(a, b[..|b| - 1]))
      || (a != [] && a[|a| - 1] == b[|b| - 1] && NewlinesAdded(a[..|a| - 1], b[..|b| - 1]))
  }

  lemma {:induction false} NewlinesAddedExtend(a: string, b: string, x: string)
    requires NewlinesAdded(a, b)
    ensures NewlinesAdded(a + x, b + x)
    decreases |x|
  {
    if x == [] {
      assert a + x == a && b + x == b;
    } else {
      var x' := x[..|x| - 1];
      NewlinesAddedExtend(a, b, x');
      assert (a + x)[..|a + x| - 1] == a + x';
      assert (b + x)[..|b + x| - 1] == b + x';
    }
  }

  lemma {:induction false} NewlinesAddedNewline(a: string, b: string)
    requires NewlinesAdded(a, b)
    ensures NewlinesAdded(a, b + "\n")
  {
    assert (b + "\n")[..|b|] == b;
  }

  /** Inserting newlines leaves the non-whitespace content as it was. */
  lemma {:induction false} NewlinesAddedContent(a: string, b: string)
    requires NewlinesAdded(a, b)
    ensures Content(a) == Content(b)
    decreases |b|
  {
    if b != [] {
      if b[|b| - 1] == '\n' && NewlinesAdded(a, b[..|b| - 1]) {
        NewlinesAddedContent(a, b[..|b| - 1]);
      } else {
        NewlinesAddedContent(a[..|a| - 1], b[..|b| - 1]);
      }
    }
  }

  // ---------------------------------------------------------------------------
  // Lines

  /** The lines of a text, split at "\n" (a trailing newline starts an empty
      last line). On text whose only whitespace is " " and "\n" these are the
      lines of Python's `splitlines()`, plus that last line. */
  function Lines(s: string): (lines: seq<string>)
    ensures |lines| > 0
  {
    if s == [] then [[]]
    else
      var ls := Lines(s[..|s| - 1]);
      var c := s[|s| - 1];
      if c == '\n' then ls + [[]] else ls[..|ls| - 1] + [ls[|ls| - 1] + [c]]
  }

  /** The line the next character would be written to. */
  function CurrentLine(s: string): string {
    Lines(s)[|Lines(s)| - 1]
  }

  predicate NoNewline(x: string) {
    forall i :: 0 <= i < |x| ==> x[i] != '\n'
  }

  lemma {:induction false} LinesExtend(s: string, x: string)
    requires NoNewline(x)
    ensures Lines(s + x) == Lines(s)[..|Lines(s)| - 1] + [CurrentLine(s) + x]
    decreases |x|
  {
    var ls := Lines(s);
    if x == [] {
      assert s + x == s && CurrentLine(s) + x == CurrentLine(s);
      assert ls == ls[..|ls| - 1] + [ls[|ls| - 1]];
    } else {
      var x' := x[..|x| - 1];
      var c := x[|x| - 1];
      var ls' := Lines(s + x');
      assert ls' == ls[..|ls| - 1] + [CurrentLine(s) + x'] by {
        LinesExtend(s, x');
      }
      assert Lines(s + x) == ls'[..|ls'| - 1] + [ls'[|ls'| - 1] + [c]] by {
        assert (s + x)[..|s + x| - 1] == s + x';
        assert (s + x)[|s + x| - 1] == c && c != '\n';
      }
      assert ls'[..|ls'| - 1] == ls[..|ls| - 1];
      assert CurrentLine(s) + x == (CurrentLine(s) + x') + [c];
    }
  }

  lemma {:induction false} LinesNewline(s: string)
    ensures Lines(s + "\n") == Lines(s) + [[]]
  {
    assert (s + "\n")[..|s|] == s;
  }

  /** A line without a newline fits when it is at most `width` long or holds
      no whitespace at all, that is, when it is one unbreakable word. */
  predicate LineFits(line: string, width: int) {
    |line| <= width || NoSpace(line)
  }

  /** Every line fits the width or is a single unbreakable word. */
  predicate WithinWidth(s: string, width: int) {
    forall line :: line in Lines(s) ==> LineFits(line, width)
  }

  /** No line begins with a space. */
  predicate NoIndent(s: string) {
    forall line :: line in Lines(s) ==> line == [] || line[0] != ' '
  }

  /** The only whitespace is " " and "\n". */
  predicate PlainSpacing(s: string) {
    forall i :: 0 <= i < |s| && IsSpace(s[i]) ==> s[i] == ' ' || s[i] == '\n'
  }

  predicate LinesAtMost(s: string, width: int) {
    forall line :: line in Lines(s) ==> |line| <= width
  }

  /** Writing text without a newline keeps the layout properties when the
      extended current line keeps them. */
  lemma {:induction false} WriteText(s: string, x: string, width: int)
    requires NoNewline(x)
    requires WithinWidth(s, width) && LineFits(CurrentLine(s) + x, width)
    requires NoIndent(s) && (CurrentLine(s) == [] && x != [] ==> x[0] != ' ')
    requires PlainSpacing(s) && PlainSpacing(x)
    ensures CurrentLine(s + x) == CurrentLine(s) + x
    ensures WithinWidth(s + x, width) && NoIndent(s + x) && PlainSpacing(s + x)
  {
    LinesExtend(s, x);
    var ls := Lines(s);
    forall line | line in Lines(s + x)
      ensures LineFits(line, width) && (line == [] || line[0] != ' ')
    {
      if line != CurrentLine(s) + x {
        assert line in ls[..|ls| - 1];
      }
    }
    forall i | 0 <= i < |s + x| && IsSpace((s + x)[i])
      ensures (s + x)[i] == ' ' || (s + x)[i] == '\n'
    {
      if i >= |s| { assert (s + x)[i] == x[i - |s|]; }
    }
  }

  lemma {:induction false} WriteNewline(s: string, width: int)
    requires WithinWidth(s, width) && NoIndent(s) && PlainSpacing(s)
    ensures CurrentLine(s + "\n") == []
    ensures WithinWidth(s + "\n", width) && NoIndent(s + "\n") && PlainSpacing(s + "\n")
  {
    LinesNewline(s);
  }

  /** A prefix of a text whose lines are all at most `width` long has the same property. */
  lemma {:induction false} LinesAtMostPrefix(a: string, b: string, width: int)
    requires a <= b && LinesAtMost(b, width)
    ensures LinesAtMost(a, width)
    decreases |b|
  {
    if a != b {
      var b' := b[..|b| - 1];
      var ls, ls' := Lines(b), Lines(b');
      forall line | line in ls'
        ensures |line| <= width
      {
        if b[|b| - 1] != '\n' && line == ls'[|ls'| - 1] {
          assert |line| < |ls[|ls| - 1]|;
        } else if b[|b| - 1] != '\n' {
          assert line in ls'[..|ls'| - 1];
        }
      }
      LinesAtMostPrefix(a, b', width);
    }
  }

  // ---------------------------------------------------------------------------
  // Words

  /** The maximal runs of non-whitespace characters of `s`, in order: the
      words a whitespace-insensitive reader sees. */
  function Words(s: string): (r: seq<string>)
    ensures s != [] && !IsSpace(s[|s| - 1]) ==> r != []
    decreases |s|
  {
    if s == [] then []
    else
      var p := s[..|s| - 1];
      var c := s[|s| - 1];
      var ws := Words(p);
      if IsSpace(c) then ws
      else if p == [] || IsSpace(p[|p| - 1]) then ws + [[c]]
      else ws[..|ws| - 1] + [ws[|ws| - 1] + [c]]
  }

  /** Whitespace adds no word and changes none. */
  lemma {:induction false} WordsBlank(s: string, g: string)
    requires Blank(g)
    ensures Words(s + g) == Words(s)
    decreases |g|
  {
    if g == [] {
      assert s + g == s;
    } else {
      var g' := g[..|g| - 1];
      assert (s + g)[..|s + g| - 1] == s + g';
      WordsBlank(s, g');
    }
  }

  /** A word written after whitespace, or at the very start, is one new word. */
  lemma {:induction false} WordsAfterSpace(s: string, w: string)
    requires s == [] || IsSpace(s[|s| - 1])
    requires IsWord(w)
    ensures Words(s + w) == Words(s) + [w]
    decreases |w|
  {
    var w' := w[..|w| - 1];
    var c := w[|w| - 1];
    assert w == w' + [c];
    var p := s + w';
    assert s + w == p + [c];
    if w' == [] {
      assert p == s;
      WordsStart(s, c);
    } else {
      assert IsWord(w');
      WordsAfterSpace(s, w');
      assert p[|p| - 1] == w'[|w'| - 1];
      WordsExtend(p, Words(s), w', c);
    }
  }

  lemma {:induction false} WordsExtend(p: string, ws: seq<string>, w: string, c: char)
    requires w != [] && p != [] && p[|p| - 1] == w[|w| - 1]
    requires Words(p) == ws + [w]
    requires !IsSpace(p[|p| - 1]) && !IsSpace(c)
    ensures Words(p + [c]) == ws + [w + [c]]
  {
    WordsGlue(p, c);
    assert (ws + [w])[..|ws|] == ws;
  }

  lemma {:induction false} WordsStart(p: string, c: char)
    requires p == [] || IsSpace(p[|p| - 1])
    requires !IsSpace(c)
    ensures Words(p + [c]) == Words(p) + [[c]]
  {
    assert (p + [c])[..|p|] == p;
  }

  lemma {:induction false} WordsGlue(p: string, c: char)
    requires p != [] && !IsSpace(p[|p| - 1])
    requires !IsSpace(c)
    ensures var ws := Words(p); Words(p + [c]) == ws[..|ws| - 1] + [ws[|ws| - 1] + [c]]
  {
    assert (p + [c])[..|p|] == p;
  }

  // ---------------------------------------------------------------------------
  // Whitespace normalisation

  predicate Blank(line: string) {
    forall i :: 0 <= i < |line| ==> IsSpace(line[i])
  }

  /** The text with each line's leading whitespace dropped and every other
      whitespace character other than "\n" written as one space: the layout
      a re-flow keeps when no line is too long. */
  function Normalize(s: string): string {
    if s == [] then []
    else
      var p := s[..|s| - 1];
      var c := s[|s| - 1];
      Normalize(p)
      + (if c == '\n' then "\n"
         else if !IsSpace(c) then [c]
         else if Blank(CurrentLine(p)) then []
         else " ")
  }

  lemma {:induction false} NormalizeNewline(s: string)
    ensures Normalize(s + "\n") == Normalize(s) + "\n"
  {
    assert (s + "\n")[..|s|] == s;
  }

  lemma {:induction false} NormalizeWord(s: string, w: string)
    requires NoSpace(w)
    ensures Normalize(s + w) == Normalize(s) + w
    decreases |w|
  {
    if w == [] {
      assert s + w == s;
    } else {
      var w' := w[..|w| - 1];
      NormalizeWord(s, w');
      assert (s + w)[..|s + w| - 1] == s + w';
    }
  }

  lemma {:induction false} BlankExtend(line: string, g: string)
    requires IsGap(g)
    ensures Blank(line + g) <==> Blank(line)
  {
    if Blank(line) {
      forall i | 0 <= i < |line + g|
        ensures IsSpace((line + g)[i])
      {
        if i >= |line| { assert (line + g)[i] == g[i - |line|]; }
      }
    } else {
      var i :| 0 <= i < |line| && !IsSpace(line[i]);
      assert (line + g)[i] == line[i];
    }
  }

  lemma {:induction false} NormalizeSpace(p: string, c: char)
    requires IsSpace(c) && c != '\n'
    ensures Normalize(p + [c]) == Normalize(p) + (if Blank(CurrentLine(p)) then [] else " ")
  {
    assert (p + [c])[..|p|] == p;
  }

  lemma {:induction false} NormalizeGap(s: string, g: string)
    requires IsGap(g)
    ensures Normalize(s + g) == Normalize(s) + (if Blank(CurrentLine(s)) then [] else Spaces(|g|))
    decreases |g|
  {
    if g == [] {
      assert s + g == s;
    } else {
      var g' := g[..|g| - 1];
      var c := g[|g| - 1];
      assert s + g == (s + g') + [c];
      NormalizeSpace(s + g', c);
      NormalizeGap(s, g');
      assert Blank(CurrentLine(s + g')) == Blank(CurrentLine(s)) by {
        LinesExtend(s, g');
        BlankExtend(CurrentLine(s), g');
      }
      assert Spaces(|g|) == Spaces(|g'|) + " ";
    }
  }

  /** The current line of the normalised text is no longer than the current
      line of the text, and is empty exactly when that line is blank. */
  lemma {:induction false} NormalizeCurrentLine(s: string)
    ensures |CurrentLine(Normalize(s))| <= |CurrentLine(s)|
    ensures CurrentLine(Normalize(s)) == [] <==> Blank(CurrentLine(s))
    decreases |s|
  {
    if s != [] {
      var p := s[..|s| - 1];
      var c := s[|s| - 1];
      NormalizeCurrentLine(p);
      assert s == p + [c];
      if c == '\n' {
        NormalizeNewline(p);
        LinesNewline(p);
        assert s == p + "\n";
      } else {
        NormalizeCurrentLineChar(p, c);
      }
    }
  }

  /** The step of `NormalizeCurrentLine` for a character other than "\n". */
  lemma {:induction false} NormalizeCurrentLineChar(p: string, c: char)
    requires c != '\n'
    requires |CurrentLine(Normalize(p))| <= |CurrentLine(p)|
    requires CurrentLine(Normalize(p)) == [] <==> Blank(CurrentLine(p))
    ensures |CurrentLine(Normalize(p + [c]))| <= |CurrentLine(p + [c])|
    ensures CurrentLine(Normalize(p + [c])) == [] <==> Blank(CurrentLine(p + [c]))
  {
    if IsSpace(c) {
      NormalizeCurrentLineSpace(p, c);
    } else {
      NormalizeCurrentLineWord(p, c);
    }
  }

  lemma {:induction false} NormalizeCurrentLineSpace(p: string, c: char)
    requires IsSpace(c) && c != '\n'
    requires |CurrentLine(Normalize(p))| <= |CurrentLine(p)|
    requires CurrentLine(Normalize(p)) == [] <==> Blank(CurrentLine(p))
    ensures |CurrentLine(Normalize(p + [c]))| <= |CurrentLine(p + [c])|
    ensures CurrentLine(Normalize(p + [c])) == [] <==> Blank(CurrentLine(p + [c]))
  {
    LinesExtend(p, [c]);
    NormalizeSpace(p, c);
    var added := if Blank(CurrentLine(p)) then [] else " ";
    LinesExtend(Normalize(p), added);
    BlankExtend(CurrentLine(p), [c]);
  }

  lemma {:induction false} NormalizeCurrentLineWord(p: string, c: char)
    requires !IsSpace(c)
    requires |CurrentLine(Normalize(p))| <= |CurrentLine(p)|
    requires CurrentLine(Normalize(p)) == [] <==> Blank(CurrentLine(p))
    ensures |CurrentLine(Normalize(p + [c]))| <= |CurrentLine(p + [c])|
    ensures CurrentLine(Normalize(p + [c])) == [] <==> Blank(CurrentLine(p + [c]))
  {
    LinesExtend(p, [c]);
    NormalizeWord(p, [c]);
    LinesExtend(Normalize(p), [c]);
    assert !Blank(CurrentLine(p) + [c]) by {
      assert (CurrentLine(p) + [c])[|CurrentLine(p)|] == c;
    }
  }
}
