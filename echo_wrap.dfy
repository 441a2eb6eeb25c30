/** The echo stage's word-wrapper (`EchoMiddleware._wrap`): it re-flows the
    stream of reply fragments for a terminal of a given width, gluing words
    split across fragments, dropping whitespace at the start of a line,
    writing whitespace as spaces and breaking the line before a word that
    would overflow it. */
module EchoWrap {
  import opened Text

  /** The length of the last line of `s`. */
  function LineWidth(s: string): nat {
    if s == [] || s[|s| - 1] == '\n' then 0 else LineWidth(s[..|s| - 1]) + 1
  }

  lemma {:induction false} LineWidthSpec(s: string)
    ensures LineWidth(s) == |CurrentLine(s)|
    decreases |s|
  {
    if s != [] {
      var p := s[..|s| - 1];
      assert s == p + [s[|s| - 1]];
      if s[|s| - 1] == '\n' {
        LinesNewline(p);
      } else {
        LineWidthSpec(p);
        LinesExtend(p, [s[|s| - 1]]);
      }
    }
  }

  /** What holds of the text yielded so far, given the input whose words it
      has written (`flushed`): `lineWidth` is the length of its last line,
      its skeleton is the input's with newlines added, and it is laid out
      within the width with single plain spaces and no indentation. */
  ghost predicate Written(flushed: string, text: string, lineWidth: int, width: int) {
    lineWidth == LineWidth(text)
    && NewlinesAdded(Skeleton(flushed), Skeleton(text))
    && WithinWidth(text, width) && NoIndent(text) && PlainSpacing(text)
  }

  /** What is read but not yet written: the whitespace piece still pending
      (`gap`, of which `spaces` characters are still owed) and the word being
      glued together across fragments (`prequel`). */
  ghost predicate Pending(gap: string, prequel: string, spaces: int) {
    IsGap(gap) && NoSpace(prequel) && 0 <= spaces <= |gap|
  }

  /** Until a line break has been injected, what was yielded is the
      normalised flushed input, and `spaces` counts the whole pending gap. */
  ghost predicate Unbroken(flushed: string, gap: string, text: string, spaces: int) {
    text == Normalize(flushed) && spaces == |gap|
  }

  /** What was written has the words of the flushed input, the pending word
      starts a new word of the input (it follows the pending gap, a
      whitespace character, or nothing), and spaces are owed unless the line
      is empty. */
  ghost predicate Separated(flushed: string, gap: string, text: string, lineWidth: int, spaces: int) {
    Words(text) == Words(flushed)
    && (gap != [] || flushed == [] || IsSpace(flushed[|flushed| - 1]))
    && (spaces > 0 || lineWidth == 0)
  }

  /** Injecting a line break keeps what was written in shape. */
  lemma {:induction false} BreakLine(flushed: string, text: string, lineWidth: int, width: int)
    requires Written(flushed, text, lineWidth, width)
    ensures Written(flushed, text + "\n", 0, width)
  {
    WriteNewline(text, width);
    StripAppend(text, "\n", true);
    assert Strip("\n", true) == "\n" by {
      assert "\n"[..0] == [];
    }
    NewlinesAddedNewline(Skeleton(flushed), Skeleton(text));
  }

  /** Passing the reply's own newline through keeps what was written in shape. */
  lemma {:induction false} PassNewline(flushed: string, text: string, lineWidth: int, width: int)
    requires Written(flushed, text, lineWidth, width)
    ensures Written(flushed + "\n", text + "\n", 0, width)
  {
    WriteNewline(text, width);
    assert Strip("\n", true) == "\n" by {
      assert "\n"[..0] == [];
    }
    assert Skeleton(text + "\n") == Skeleton(text) + "\n" by {
      StripAppend(text, "\n", true);
    }
    assert Skeleton(flushed + "\n") == Skeleton(flushed) + "\n" by {
      StripAppend(flushed, "\n", true);
    }
    NewlinesAddedExtend(Skeleton(flushed), Skeleton(text), "\n");
  }

  /** Passing the reply's own newline through keeps the words, and a word
      after it starts a new word. */
  lemma {:induction false} PassNewlineWords(flushed: string, text: string)
    requires Words(text) == Words(flushed)
    ensures Separated(flushed + "\n", [], text + "\n", 0, 0)
  {
    WordsBlank(text, "\n");
    WordsBlank(flushed, "\n");
    assert IsSpace('\n');
  }

  /** The reply's own newline after a flush that yielded `emitted`: the
      written text keeps its shape and its words and, without a break, stays
      the normalised input. */
  lemma {:induction false} PassNewlineAfterFlush(flushed: string, text: string, emitted: seq<string>,
                                                 lineWidth: int, width: int, fits: bool)
    requires Written(flushed, text + Concat(emitted), lineWidth, width)
    requires Words(text + Concat(emitted)) == Words(flushed)
    requires fits ==> text + Concat(emitted) == Normalize(flushed)
    ensures Concat(emitted + ["\n"]) == Concat(emitted) + "\n"
    ensures Written(flushed + "\n", text + Concat(emitted + ["\n"]), 0, width)
    ensures Separated(flushed + "\n", [], text + Concat(emitted + ["\n"]), 0, 0)
    ensures fits ==> Unbroken(flushed + "\n", [], text + Concat(emitted + ["\n"]), 0)
  {
    var written := text + Concat(emitted);
    ConcatSnoc(emitted, "\n");
    assert text + Concat(emitted + ["\n"]) == written + "\n";
    PassNewlineWords(flushed, written);
    PassNewline(flushed, written, lineWidth, width);
    NormalizeNewline(flushed);
  }

  /** Writing the owed spaces on a non-empty line that they do not overflow
      keeps what was written in shape. */
  lemma {:induction false} WriteSpaces(flushed: string, text: string, lineWidth: int, n: nat, width: int)
    requires Written(flushed, text, lineWidth, width)
    requires 0 < lineWidth && lineWidth + n <= width
    ensures Written(flushed, text + Spaces(n), lineWidth + n, width)
  {
    SpacesSpec(n);
    LineWidthSpec(text);
    LineWidthSpec(text + Spaces(n));
    WriteText(text, Spaces(n), width);
    assert Skeleton(text + Spaces(n)) == Skeleton(text) by {
      StripAppend(text, Spaces(n), true);
      StripGap(Spaces(n), true);
      assert Skeleton(text) + [] == Skeleton(text);
    }
  }

  /** Writing the glued word at the start of a line, or where it fits,
      flushes the pending gap and word and keeps what was written in shape. */
  lemma {:induction false} WriteWord(flushed: string, gap: string, word: string, text: string, lineWidth: int, width: int)
    requires Written(flushed, text, lineWidth, width)
    requires IsGap(gap) && NoSpace(word)
    requires lineWidth == 0 || lineWidth + |word| <= width
    ensures Written(flushed + gap + word, text + word, lineWidth + |word|, width)
  {
    WordLayout(text, word, lineWidth, width);
    SkeletonWord(text, [], word);
    assert text + [] + word == text + word;
    SkeletonWord(flushed, gap, word);
    NewlinesAddedExtend(Skeleton(flushed), Skeleton(text), word);
  }

  /** The layout half of `WriteWord`. */
  lemma {:induction false} WordLayout(text: string, word: string, lineWidth: int, width: int)
    requires lineWidth == LineWidth(text)
    requires WithinWidth(text, width) && NoIndent(text) && PlainSpacing(text)
    requires NoSpace(word)
    requires lineWidth == 0 || lineWidth + |word| <= width
    ensures lineWidth + |word| == LineWidth(text + word)
    ensures WithinWidth(text + word, width) && NoIndent(text + word) && PlainSpacing(text + word)
  {
    WordShape(word);
    LineWidthSpec(text);
    LineWidthSpec(text + word);
    assert LineFits(CurrentLine(text) + word, width) by {
      if lineWidth == 0 {
        assert CurrentLine(text) + word == word;
      }
    }
    WriteText(text, word, width);
  }

  /** A word has no space, no newline and no other whitespace. */
  lemma {:induction false} WordShape(word: string)
    requires NoSpace(word)
    ensures ' ' !in word && PlainSpacing(word) && NoNewline(word)
  {
    assert IsSpace(' ') && IsSpace('\n');
  }

  /** A gap followed by a word adds the word to the skeleton. */
  lemma {:induction false} SkeletonWord(s: string, gap: string, word: string)
    requires IsGap(gap) && NoSpace(word)
    ensures Skeleton(s + gap + word) == Skeleton(s) + word
  {
    StripAppend(s + gap, word, true);
    StripAppend(s, gap, true);
    StripGap(gap, true);
    StripNoSpace(word, true);
    assert Skeleton(s) + [] == Skeleton(s);
  }

  /** Without an injected break, flushing the pending gap and word yields
      exactly what normalisation makes of them. */
  lemma {:induction false} FlushUnbroken(flushed: string, gap: string, prequel: string, text: string)
    requires IsGap(gap) && NoSpace(prequel) && text == Normalize(flushed)
    ensures LineWidth(text) > 0 ==> Normalize(flushed + gap + prequel) == text + Spaces(|gap|) + prequel
    ensures LineWidth(text) == 0 ==> Normalize(flushed + gap + prequel) == text + prequel
  {
    LineWidthSpec(text);
    NormalizeCurrentLine(flushed);
    NormalizeGap(flushed, gap);
    NormalizeWord(flushed + gap, prequel);
    assert text + [] == text;
  }

  /** When every line of the whole input fits, the width check never fires
      before a break has been injected: the line written so far, the pending
      gap and the glued word all come from one input line. */
  lemma {:induction false} PendingFits(consumed: string, full: string, flushed: string, gap: string, prequel: string,
                    text: string, width: int)
    requires consumed <= full && LinesAtMost(full, width)
    requires consumed == flushed + gap + prequel && IsGap(gap) && NoSpace(prequel)
    requires text == Normalize(flushed)
    ensures LineWidth(text) + |gap| + |prequel| <= width
  {
    LinesAtMostPrefix(consumed, full, width);
    GapWordNoNewline(gap, prequel);
    assert consumed == flushed + (gap + prequel);
    LinesExtend(flushed, gap + prequel);
    var ls := Lines(consumed);
    assert ls[|ls| - 1] == CurrentLine(flushed) + (gap + prequel);
    assert |CurrentLine(flushed)| + |gap| + |prequel| <= width;
    NormalizeCurrentLine(flushed);
    LineWidthSpec(text);
  }

  /** A gap followed by a word holds no newline. */
  lemma {:induction false} GapWordNoNewline(gap: string, prequel: string)
    requires IsGap(gap) && NoSpace(prequel)
    ensures NoNewline(gap + prequel)
  {
    forall i | 0 <= i < |gap + prequel|
      ensures (gap + prequel)[i] != '\n'
    {
      if i >= |gap| {
        assert (gap + prequel)[i] == prequel[i - |gap|];
        assert !IsSpace(prequel[i - |gap|]);
      }
    }
  }

  /** What `re.split(r"(\n|\S+)", ...)` hands to the loop: a gap, a newline
      or a word. */
  predicate IsPiece(t: string) {
    t == "\n" || IsGap(t) || IsWord(t)
  }

  /** A non-empty piece for which `isspace()` holds is the newline or a gap;
      any other non-empty piece is a word. */
  lemma {:induction false} PieceKind(t: string)
    requires IsPiece(t) && t != []
    ensures AllSpace(t) ==> t == "\n" || IsGap(t)
    ensures !AllSpace(t) ==> NoSpace(t)
  {
    if IsWord(t) {
      assert !IsSpace(t[0]);
    } else if IsGap(t) {
      assert AllSpace(t);
    } else {
      assert IsSpace(t[0]);
    }
  }

  lemma {:induction false} ConcatUncons(parts: seq<string>, j: nat)
    requires j < |parts|
    ensures Concat(parts[j..]) == parts[j] + Concat(parts[j + 1..])
  {
    assert parts[j..] == [parts[j]] + parts[j + 1..];
    ConcatCons(parts[j], parts[j + 1..]);
  }

  /** At the end of the stream a pending gap is dropped: the skeleton is
      unchanged and, without an injected break, the output falls short of the
      normalised input by spaces only. */
  lemma {:induction false} FlushGap(flushed: string, gap: string, text: string, injected: bool)
    requires IsGap(gap) && NewlinesAdded(Skeleton(flushed), Skeleton(text))
    requires !injected ==> text == Normalize(flushed)
    ensures NewlinesAdded(Skeleton(flushed + gap), Skeleton(text))
    ensures !injected ==> text <= Normalize(flushed + gap) && OnlySpaces(Normalize(flushed + gap)[|text|..])
  {
    StripAppend(flushed, gap, true);
    StripGap(gap, true);
    assert Skeleton(flushed) + [] == Skeleton(flushed);
    if !injected {
      NormalizeGap(flushed, gap);
      SpacesSpec(|gap|);
      var n := Normalize(flushed + gap);
      assert n[|text|..] == [] || n[|text|..] == Spaces(|gap|);
    }
  }

  /** Concatenation regrouped, stated apart from the loops' large contexts,
      where the solver does not find it on its own. */
  lemma {:induction false} Regroup(a: string, b: string, c: string)
    ensures a + b + c == a + (b + c)
  {
  }

  /** The flush when the owed spaces and the word overflow the line: a line
      break, then the word at the start of the new line. */
  lemma {:induction false} FlushBroken(flushed: string, gap: string, prequel: string, text: string, lineWidth: int, width: int)
    requires Written(flushed, text, lineWidth, width) && IsGap(gap) && NoSpace(prequel)
    ensures Written(flushed + gap + prequel, text + Concat(["\n", prequel]), |prequel|, width)
  {
    ConcatPair("\n", prequel);
    assert text + Concat(["\n", prequel]) == (text + "\n") + prequel;
    BreakLine(flushed, text, lineWidth, width);
    WriteWord(flushed, gap, prequel, text + "\n", 0, width);
  }

  /** The flush on a non-empty line where everything fits: the owed spaces,
      then the word. */
  lemma {:induction false} FlushSpaced(flushed: string, gap: string, prequel: string, text: string,
                                       lineWidth: int, spaces: int, width: int)
    requires Written(flushed, text, lineWidth, width) && Pending(gap, prequel, spaces)
    requires 0 < spaces && 0 < lineWidth && lineWidth + spaces + |prequel| <= width
    ensures Written(flushed + gap + prequel, text + Concat([Spaces(spaces), prequel]),
                    lineWidth + spaces + |prequel|, width)
  {
    ConcatPair(Spaces(spaces), prequel);
    assert text + Concat([Spaces(spaces), prequel]) == text + Spaces(spaces) + prequel;
    WriteSpaces(flushed, text, lineWidth, spaces, width);
    WriteWord(flushed, gap, prequel, text + Spaces(spaces), lineWidth + spaces, width);
  }

  /** Without an injected break, the owed spaces and the word are what
      normalisation makes of the pending gap and word on a non-empty line. */
  lemma {:induction false} FlushSpacedUnbroken(flushed: string, gap: string, prequel: string, text: string,
                                               spaces: int)
    requires Pending(gap, prequel, spaces) && Unbroken(flushed, gap, text, spaces)
    requires 0 < LineWidth(text)
    ensures text + Concat([Spaces(spaces), prequel]) == Normalize(flushed + gap + prequel)
  {
    ConcatPair(Spaces(spaces), prequel);
    assert text + Concat([Spaces(spaces), prequel]) == text + Spaces(spaces) + prequel;
    FlushUnbroken(flushed, gap, prequel, text);
  }

  /** The flush when no spaces are owed or the line is empty: the word alone. */
  lemma {:induction false} FlushWord(flushed: string, gap: string, prequel: string, text: string,
                  lineWidth: int, spaces: int, width: int)
    requires Written(flushed, text, lineWidth, width) && Pending(gap, prequel, spaces)
    requires spaces == 0 || lineWidth == 0
    requires lineWidth + spaces + |prequel| <= width
    ensures Written(flushed + gap + prequel, text + Concat([prequel]), lineWidth + |prequel|, width)
  {
    ConcatSingle(prequel);
    WriteWord(flushed, gap, prequel, text, lineWidth, width);
  }

  /** Without an injected break, the word alone is what normalisation makes
      of the pending gap and word when nothing is owed or the line is empty. */
  lemma {:induction false} FlushWordUnbroken(flushed: string, gap: string, prequel: string, text: string, spaces: int)
    requires Pending(gap, prequel, spaces) && Unbroken(flushed, gap, text, spaces)
    requires spaces == 0 || LineWidth(text) == 0
    ensures text + Concat([prequel]) == Normalize(flushed + gap + prequel)
  {
    ConcatSingle(prequel);
    FlushUnbroken(flushed, gap, prequel, text);
    var r := Normalize(flushed + gap + prequel);
    if LineWidth(text) > 0 {
      assert |gap| == 0;
      assert Spaces(|gap|) == [];
      assert r == text + [] + prequel;
      assert text + [] == text;
    }
    assert r == text + prequel;
  }

  /** What the flush writes before the glued word: a line break when the owed
      spaces and the word would overflow the line, the owed spaces when the
      line is not empty, and nothing otherwise. It is a line break exactly
      when the check fires; otherwise the line, the separator and the word
      stay within the width, and the word is not indented. */
  function Separator(lineWidth: int, spaces: nat, wordLength: nat, width: int): (r: string)
    ensures r == "\n" <==> lineWidth + spaces + wordLength > width
    ensures r != "\n" ==> lineWidth + |r| + wordLength <= width && (r == [] || lineWidth > 0)
  {
    if lineWidth + spaces + wordLength > width then "\n"
    else if spaces > 0 && lineWidth > 0 then
      SpacesSpec(spaces);
      assert Spaces(spaces)[0] == ' ';
      Spaces(spaces)
    else []
  }

  /** The separator is whitespace, and on a line that owes spaces or is
      empty, it leaves the text empty or ending in whitespace. */
  lemma {:induction false} SeparatorSeparates(text: string, spaces: nat, wordLength: nat, width: int)
    requires spaces > 0 || LineWidth(text) == 0
    ensures Blank(Separator(LineWidth(text), spaces, wordLength, width))
    ensures var s := text + Separator(LineWidth(text), spaces, wordLength, width);
            s == [] || IsSpace(s[|s| - 1])
  {
    var sep := Separator(LineWidth(text), spaces, wordLength, width);
    var s := text + sep;
    SpacesSpec(spaces);
    assert IsSpace(' ') && IsSpace('\n');
    if sep == [] {
      assert s == text && LineWidth(text) == 0;
    } else {
      assert s[|s| - 1] == sep[|sep| - 1];
    }
  }

  /** Flushing keeps the words: what was written then has the words of the
      flushed input, the pending gap and the glued word. */
  lemma {:induction false} FlushWords(flushed: string, gap: string, prequel: string, text: string,
                                      spaces: nat, width: int, out: string)
    requires Pending(gap, prequel, spaces) && Separated(flushed, gap, text, LineWidth(text), spaces)
    requires out == Separator(LineWidth(text), spaces, |prequel|, width) + prequel
    ensures Words(text + out) == Words(flushed + gap + prequel)
  {
    WrittenWords(text, spaces, prequel, width, out);
    ReadWords(flushed, gap, prequel);
  }

  /** The written side of `FlushWords`: the separator adds no word, and the
      glued word starts a new one. */
  lemma {:induction false} WrittenWords(text: string, spaces: nat, prequel: string, width: int, out: string)
    requires NoSpace(prequel) && (spaces > 0 || LineWidth(text) == 0)
    requires out == Separator(LineWidth(text), spaces, |prequel|, width) + prequel
    ensures Words(text + out) == Words(text) + (if prequel == [] then [] else [prequel])
  {
    var sep := Separator(LineWidth(text), spaces, |prequel|, width);
    SeparatorSeparates(text, spaces, |prequel|, width);
    WordsBlank(text, sep);
    assert text + out == text + sep + prequel;
    if prequel == [] {
      assert text + sep + prequel == text + sep;
    } else {
      WordsAfterSpace(text + sep, prequel);
    }
  }

  /** The read side of `FlushWords`: the pending gap adds no word, and the
      glued word starts a new one. */
  lemma {:induction false} ReadWords(flushed: string, gap: string, prequel: string)
    requires IsGap(gap) && NoSpace(prequel)
    requires gap != [] || flushed == [] || IsSpace(flushed[|flushed| - 1])
    ensures Words(flushed + gap + prequel) == Words(flushed) + (if prequel == [] then [] else [prequel])
  {
    var read := flushed + gap;
    WordsBlank(flushed, gap);
    if prequel == [] {
      assert read + prequel == read;
    } else {
      assert read == [] || IsSpace(read[|read| - 1]) by {
        if gap != [] {
          assert read[|read| - 1] == gap[|gap| - 1];
        } else {
          assert read == flushed;
        }
      }
      WordsAfterSpace(read, prequel);
    }
  }

  /** The flushed fragments start with an injected line break. */
  predicate Breaks(emitted: seq<string>) {
    emitted != [] && emitted[0] == "\n"
  }

  /** The flush `_wrap` performs before a whitespace piece and at the end of
      the stream: break the line if the owed spaces and the glued word would
      overflow it, write the owed spaces unless the line is empty (after a
      break nothing is owed), then write the word. Returns the yielded
      fragments and the new line width. When the check cannot fire, what is
      yielded is exactly what normalisation makes of the pending gap and
      word. */
  method Flush(lineWidth: int, spaces: int, prequel: string, width: int,
               ghost flushed: string, ghost gap: string, ghost text: string, ghost fits: bool)
    returns (emitted: seq<string>, newWidth: int)
    requires Written(flushed, text, lineWidth, width) && Pending(gap, prequel, spaces)
    requires fits ==> Unbroken(flushed, gap, text, spaces) && lineWidth + spaces + |prequel| <= width
    ensures Concat(emitted) == Separator(lineWidth, spaces, |prequel|, width) + prequel
    ensures Written(flushed + gap + prequel, text + Concat(emitted), newWidth, width)
    ensures fits ==> text + Concat(emitted) == Normalize(flushed + gap + prequel)
    ensures Breaks(emitted) <==> lineWidth + spaces + |prequel| > width
  {
    if lineWidth + spaces + |prequel| > width {
      emitted, newWidth := ["\n", prequel], |prequel|;
      ConcatPair("\n", prequel);
      FlushBroken(flushed, gap, prequel, text, lineWidth, width);
    } else if spaces > 0 && lineWidth > 0 {
      emitted, newWidth := [Spaces(spaces), prequel], lineWidth + spaces + |prequel|;
      ConcatPair(Spaces(spaces), prequel);
      FlushSpaced(flushed, gap, prequel, text, lineWidth, spaces, width);
      SpacesSpec(spaces);
      assert Spaces(spaces)[0] == ' ';
      if fits {
        FlushSpacedUnbroken(flushed, gap, prequel, text, spaces);
      }
    } else {
      emitted, newWidth := [prequel], lineWidth + |prequel|;
      ConcatSingle(prequel);
      assert [] + prequel == prequel;
      FlushWord(flushed, gap, prequel, text, lineWidth, spaces, width);
      assert prequel == [] || !IsSpace(prequel[0]);
      assert IsSpace('\n');
      if fits {
        FlushWordUnbroken(flushed, gap, prequel, text, spaces);
      }
    }
  }

  /** One turn of `_wrap`'s loop over the pieces of a fragment: an empty
      piece is skipped; a whitespace piece is handled by `FeedSpace`; a word
      piece is glued to the pending word. Returns what is yielded and the new
      line width, owed spaces and pending word; what has been read grows by
      the piece, and the written text stays in shape. */
  method Feed(t: string, lineWidth: int, spaces: int, prequel: string, width: int,
              ghost flushed: string, ghost gap: string, ghost text: string, ghost fits: bool)
    returns (emitted: seq<string>, newWidth: int, newSpaces: int, newPrequel: string,
             ghost newFlushed: string, ghost newGap: string)
    requires IsPiece(t)
    requires Written(flushed, text, lineWidth, width) && Pending(gap, prequel, spaces)
    requires fits ==> Unbroken(flushed, gap, text, spaces)
    requires fits && AllSpace(t) ==> lineWidth + spaces + |prequel| <= width
    requires Separated(flushed, gap, text, lineWidth, spaces)
    ensures !AllSpace(t) ==> emitted == [] && newWidth == lineWidth && newSpaces == spaces
                             && newPrequel == prequel + t
    ensures AllSpace(t) ==>
              Concat(emitted) == Separator(lineWidth, spaces, |prequel|, width) + prequel
                                 + (if t == "\n" then "\n" else [])
              && newSpaces == (if t == "\n" then 0 else |t|) && newPrequel == []
    ensures newFlushed + newGap + newPrequel == flushed + gap + prequel + t
    ensures Written(newFlushed, text + Concat(emitted), newWidth, width)
    ensures Pending(newGap, newPrequel, newSpaces)
    ensures fits ==> Unbroken(newFlushed, newGap, text + Concat(emitted), newSpaces)
    ensures Separated(newFlushed, newGap, text + Concat(emitted), newWidth, newSpaces)
  {
    if t == [] {
      emitted, newWidth, newSpaces, newPrequel := [], lineWidth, spaces, prequel;
      newFlushed, newGap := flushed, gap;
      assert text + Concat(emitted) == text;
      assert prequel + t == prequel && flushed + gap + prequel + t == flushed + gap + prequel;
    } else if AllSpace(t) {
      PieceKind(t);
      emitted, newWidth, newSpaces, newFlushed, newGap :=
        FeedSpace(t, lineWidth, spaces, prequel, width, flushed, gap, text, fits);
      newPrequel := "";
    } else {
      PieceKind(t);
      emitted, newWidth, newSpaces, newPrequel := [], lineWidth, spaces, prequel + t;
      newFlushed, newGap := flushed, gap;
      assert text + Concat(emitted) == text;
      assert newFlushed + newGap + newPrequel == flushed + gap + prequel + t;
    }
  }

  /** A whitespace piece: flush the pending gap and word, then pass the
      newline through, or owe the piece's length in spaces. The pending word
      is empty afterwards. */
  method FeedSpace(t: string, lineWidth: int, spaces: int, prequel: string, width: int,
                   ghost flushed: string, ghost gap: string, ghost text: string, ghost fits: bool)
    returns (emitted: seq<string>, newWidth: int, newSpaces: int,
             ghost newFlushed: string, ghost newGap: string)
    requires t == "\n" || (t != [] && IsGap(t))
    requires Written(flushed, text, lineWidth, width) && Pending(gap, prequel, spaces)
    requires fits ==> Unbroken(flushed, gap, text, spaces) && lineWidth + spaces + |prequel| <= width
    requires Separated(flushed, gap, text, lineWidth, spaces)
    ensures newFlushed + newGap == flushed + gap + prequel + t
    ensures Concat(emitted) == Separator(lineWidth, spaces, |prequel|, width) + prequel
                               + (if t == "\n" then "\n" else [])
    ensures newSpaces == (if t == "\n" then 0 else |t|)
    ensures Written(newFlushed, text + Concat(emitted), newWidth, width)
    ensures Pending(newGap, "", newSpaces)
    ensures fits ==> Unbroken(newFlushed, newGap, text + Concat(emitted), newSpaces)
    ensures Separated(newFlushed, newGap, text + Concat(emitted), newWidth, newSpaces)
    ensures t == "\n" <==> newWidth == 0 && newSpaces == 0 && emitted != [] && emitted[|emitted| - 1] == "\n"
  {
    emitted, newWidth := Flush(lineWidth, spaces, prequel, width, flushed, gap, text, fits);
    ghost var written := text + Concat(emitted);
    newFlushed, newGap := flushed + gap + prequel, [];
    FlushWords(flushed, gap, prequel, text, spaces, width, Concat(emitted));
    if t == "\n" {
      PassNewlineAfterFlush(newFlushed, text, emitted, newWidth, width, fits);
      newWidth, newSpaces := 0, 0;
      emitted := emitted + ["\n"];  // the reply's own newline
      newFlushed := newFlushed + "\n";
    } else {
      newSpaces := |t|;
      newGap := t;
      assert newFlushed + newGap == flushed + gap + prequel + t;
      assert Separated(newFlushed, newGap, written, newWidth, newSpaces);
    }
  }

  /** `_wrap`'s loop over the pieces `re.split(r"(\n|\S+)", ...)` cuts one
      fragment into. What has been read grows by the fragment, the written
      text stays in shape and, when every line of the whole reply `full`
      fits, stays its normalisation. */
  method WrapFragment(fragment: string, lineWidth: int, spaces: int, prequel: string, width: int,
                      ghost flushed: string, ghost gap: string, ghost text: string,
                      ghost full: string, ghost fits: bool)
    returns (emitted: seq<string>, newWidth: int, newSpaces: int, newPrequel: string,
             ghost newFlushed: string, ghost newGap: string)
    requires flushed + gap + prequel + fragment <= full
    requires fits ==> LinesAtMost(full, width)
    requires Written(flushed, text, lineWidth, width) && Pending(gap, prequel, spaces)
    requires fits ==> Unbroken(flushed, gap, text, spaces)
    requires Separated(flushed, gap, text, lineWidth, spaces)
    ensures newFlushed + newGap + newPrequel == flushed + gap + prequel + fragment
    ensures Written(newFlushed, text + Concat(emitted), newWidth, width)
    ensures Pending(newGap, newPrequel, newSpaces)
    ensures fits ==> Unbroken(newFlushed, newGap, text + Concat(emitted), newSpaces)
    ensures Separated(newFlushed, newGap, text + Concat(emitted), newWidth, newSpaces)
  {
    var pieces := Split(fragment);
    SplitConcat(fragment);
    emitted, newWidth, newSpaces, newPrequel := [], lineWidth, spaces, prequel;
    newFlushed, newGap := flushed, gap;
    ghost var start := flushed + gap + prequel;
    assert Concat(pieces[0..]) == fragment by {
      assert pieces[0..] == pieces;
    }
    ghost var out := text;  // what has been yielded so far
    assert text + Concat(emitted) == out;
    var j := 0;
    while j < |pieces|
      invariant j <= |pieces|
      invariant newFlushed + newGap + newPrequel + Concat(pieces[j..]) == start + fragment
      invariant out == text + Concat(emitted)
      invariant Written(newFlushed, out, newWidth, width)
      invariant Pending(newGap, newPrequel, newSpaces)
      invariant fits ==> Unbroken(newFlushed, newGap, out, newSpaces)
      invariant Separated(newFlushed, newGap, out, newWidth, newSpaces)
    {
      var t := pieces[j];
      ghost var consumed := newFlushed + newGap + newPrequel;
      assert consumed + t + Concat(pieces[j + 1..]) == start + fragment by {
        ConcatUncons(pieces, j);
        Regroup(consumed, t, Concat(pieces[j + 1..]));
      }
      assert IsPiece(t) by {
        SplitShape(fragment);
      }
      if fits && AllSpace(t) {
        assert consumed <= full by {
          assert consumed <= start + fragment;
        }
        PendingFits(consumed, full, newFlushed, newGap, newPrequel, out, width);
      }
      var more;
      more, newWidth, newSpaces, newPrequel, newFlushed, newGap :=
        Feed(t, newWidth, newSpaces, newPrequel, width, newFlushed, newGap, out, fits);
      ConcatAppend(emitted, more);
      Regroup(text, Concat(emitted), Concat(more));
      emitted := emitted + more;
      out := out + Concat(more);
      j := j + 1;
    }
  }

  /** `EchoMiddleware._wrap(stream)` with `self.width == width`: the yielded
      fragments. Every word and every newline of the reply comes out in order,
      and the only other characters are spaces and injected newlines; every
      line fits the width unless it is one overlong word; no line starts with
      a space; an empty stream yields nothing; and when every line of the
      reply fits, the output is the normalised reply, short of the spaces it
      ended with. */
  method Wrap(stream: seq<string>, width: int) returns (out: seq<string>)
    ensures stream == [] ==> out == []
    ensures NewlinesAdded(Skeleton(Concat(stream)), Skeleton(Concat(out)))
    ensures Content(Concat(out)) == Content(Concat(stream))
    ensures Words(Concat(out)) == Words(Concat(stream))
    ensures WithinWidth(Concat(out), width)
    ensures NoIndent(Concat(out)) && PlainSpacing(Concat(out))
    ensures LinesAtMost(Concat(stream), width) ==>
              Concat(out) <= Normalize(Concat(stream))
              && OnlySpaces(Normalize(Concat(stream))[|Concat(out)|..])
  {
    var lineWidth := 0;  // the length of the line written so far
    var spaces := 0;
    var prequel := "";
    out := [];
    ghost var text, flushed, gap := "", "", "";
    ghost var full := Concat(stream);
    ghost var fits := LinesAtMost(full, width);
    var i := 0;
    while i < |stream|
      invariant i <= |stream|
      invariant flushed + gap + prequel + Concat(stream[i..]) == full
      invariant text == Concat(out)
      invariant Written(flushed, text, lineWidth, width) && Pending(gap, prequel, spaces)
      invariant fits ==> Unbroken(flushed, gap, text, spaces)
      invariant Separated(flushed, gap, text, lineWidth, spaces)
      invariant stream == [] ==> out == [] && prequel == []
    {
      ghost var consumed := flushed + gap + prequel;
      assert consumed + stream[i] + Concat(stream[i + 1..]) == full by {
        ConcatUncons(stream, i);
        Regroup(consumed, stream[i], Concat(stream[i + 1..]));
      }
      var emitted;
      emitted, lineWidth, spaces, prequel, flushed, gap :=
        WrapFragment(stream[i], lineWidth, spaces, prequel, width, flushed, gap, text, full, fits);
      ConcatAppend(out, emitted);
      out := out + emitted;
      text := text + Concat(emitted);
      i := i + 1;
    }
    assert flushed + gap + prequel == full by {
      assert stream[i..] == [];
    }
    var emitted := Finish(lineWidth, spaces, prequel, width, flushed, gap, text, fits);
    ConcatAppend(out, emitted);
    out := out + emitted;
    ContentPreserved(Concat(stream), Concat(out));
  }

  /** The end of `_wrap`: a pending word is flushed, and a pending gap is
      dropped. What was read is then the whole reply; the written text keeps
      its shape and its words and, when every line fits, falls short of the
      normalised reply by spaces only. */
  method Finish(lineWidth: int, spaces: int, prequel: string, width: int,
                ghost flushed: string, ghost gap: string, ghost text: string, ghost fits: bool)
    returns (emitted: seq<string>)
    requires Written(flushed, text, lineWidth, width) && Pending(gap, prequel, spaces)
    requires fits ==> Unbroken(flushed, gap, text, spaces) && LinesAtMost(flushed + gap + prequel, width)
    requires Separated(flushed, gap, text, lineWidth, spaces)
    ensures prequel == [] ==> emitted == []
    ensures prequel != [] ==> Concat(emitted) == Separator(lineWidth, spaces, |prequel|, width) + prequel
    ensures NewlinesAdded(Skeleton(flushed + gap + prequel), Skeleton(text + Concat(emitted)))
    ensures WithinWidth(text + Concat(emitted), width)
    ensures NoIndent(text + Concat(emitted)) && PlainSpacing(text + Concat(emitted))
    ensures Words(text + Concat(emitted)) == Words(flushed + gap + prequel)
    ensures fits ==> text + Concat(emitted) <= Normalize(flushed + gap + prequel)
                     && OnlySpaces(Normalize(flushed + gap + prequel)[|text + Concat(emitted)|..])
  {
    ghost var full := flushed + gap + prequel;
    if prequel != [] {
      if fits {
        PendingFits(full, full, flushed, gap, prequel, text, width);
      }
      var newWidth;
      emitted, newWidth := Flush(lineWidth, spaces, prequel, width, flushed, gap, text, fits);
      FlushWords(flushed, gap, prequel, text, spaces, width, Concat(emitted));
      if fits {
        var n := Normalize(full);
        assert text + Concat(emitted) == n;
        assert n[|n|..] == [];
      }
    } else {
      emitted := [];
      assert text + Concat(emitted) == text && full == flushed + gap;
      FlushGap(flushed, gap, text, !fits);
      WordsBlank(flushed, gap);
    }
  }

  /** Text whose skeleton is the input's skeleton with newlines inserted has
      the input's non-whitespace characters, in order. */
  lemma {:induction false} ContentPreserved(input: string, output: string)
    requires NewlinesAdded(Skeleton(input), Skeleton(output))
    ensures Content(output) == Content(input)
  {
    NewlinesAddedContent(Skeleton(input), Skeleton(output));
    ContentOfSkeleton(input);
    ContentOfSkeleton(output);
  }
}
