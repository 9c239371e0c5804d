/**
 * The Python port's output files read back: the text _write puts in a book's
 * file, how _read_existing_blocks cuts an existing file into lines and drops
 * its title, how _split_into_blocks groups the remaining lines into blocks,
 * and the merge of those old blocks into a book's ordered set.
 */
module PyBlocks {
  import opened Text
  import opened OrderedSets
  import opened Files
  import opened PyFormat

  // ---------------------------------------------------------------------------
  // str.splitlines()
  // ---------------------------------------------------------------------------

  /** The characters at which Python's str.splitlines cuts a string. */
  predicate IsLineBoundary(c: char)
  {
    || c == '\n' || c == '\r' || c == '\U{0b}' || c == '\U{0c}'
    || c == '\U{1c}' || c == '\U{1d}' || c == '\U{1e}' || c == '\U{85}'
    || c == '\U{2028}' || c == '\U{2029}'
  }

  predicate NoBoundary(l: string)
  {
    forall j :: 0 <= j < |l| ==> !IsLineBoundary(l[j])
  }

  /** Where the first line of `s` ends for splitlines. */
  function BoundaryEnd(s: string): (i: nat)
    ensures i <= |s|
    decreases |s|
  {
    if s == [] || IsLineBoundary(s[0]) then 0 else 1 + BoundaryEnd(s[1..])
  }

  /** The first line runs up to the first boundary character. */
  lemma {:induction false} BoundaryEndSpec(s: string)
    ensures var i := BoundaryEnd(s);
      && (forall j :: 0 <= j < i ==> !IsLineBoundary(s[j]))
      && (i < |s| ==> IsLineBoundary(s[i]))
    decreases |s|
  {
    if s != [] && !IsLineBoundary(s[0]) {
      BoundaryEndSpec(s[1..]);
    }
  }

  /**
   * Python's str.splitlines(): the lines without their breaks, "\r\n"
   * counting as one break, and no empty line after a final break.
   */
  function SplitLines(s: string): seq<string>
    decreases |s|
  {
    if s == [] then []
    else
      var i := BoundaryEnd(s);
      if i == |s| then [s]
      else if s[i] == '\r' && i + 1 < |s| && s[i + 1] == '\n' then [s[..i]] + SplitLines(s[i + 2..])
      else [s[..i]] + SplitLines(s[i + 1..])
  }

  /** No line splitlines returns holds a boundary character. */
  lemma {:induction false} SplitLinesNoBoundary(s: string)
    ensures forall i :: 0 <= i < |SplitLines(s)| ==> NoBoundary(SplitLines(s)[i])
    decreases |s|
  {
    if s != [] {
      var i := BoundaryEnd(s);
      BoundaryEndSpec(s);
      if i < |s| {
        if s[i] == '\r' && i + 1 < |s| && s[i + 1] == '\n' {
          SplitLinesNoBoundary(s[i + 2..]);
        } else {
          SplitLinesNoBoundary(s[i + 1..]);
        }
      }
    }
  }

  /** splitlines() gives back the lines of a file whose lines hold no boundary character. */
  lemma {:induction false} SplitLinesOfUnlines(ls: seq<string>)
    requires forall i :: 0 <= i < |ls| ==> NoBoundary(ls[i])
    ensures SplitLines(Unlines(ls)) == ls
    decreases |ls|
  {
    if ls != [] {
      var l, s := ls[0], Unlines(ls);
      assert s == l + "\n" + Unlines(ls[1..]);
      var i := BoundaryEnd(s);
      BoundaryEndSpec(s);
      assert s[|l|] == '\n';
      assert i == |l|;
      assert s[..i] == l;
      assert s[i + 1..] == Unlines(ls[1..]);
      SplitLinesOfUnlines(ls[1..]);
    }
  }

  // ---------------------------------------------------------------------------
  // _split_into_blocks
  // ---------------------------------------------------------------------------

  /** A line that ends the current block: strip() leaves nothing. */
  predicate Blank(l: string)
  {
    Strip(l) == []
  }

  /** The lines seen so far: the finished blocks and the lines of the current one. */
  datatype Splitter = Splitter(blocks: seq<string>, current: seq<string>)

  const Start := Splitter([], [])

  /** "\n".join(current_block) + "\n" */
  function Close(current: seq<string>): string
  {
    Join(current, "\n") + "\n"
  }

  /** One turn of the loop: a blank line closes a non-empty current block, any other line joins it. */
  function Feed(st: Splitter, line: string): Splitter
  {
    if Blank(line) then
      if st.current != [] then Splitter(st.blocks + [Close(st.current)], []) else st
    else Splitter(st.blocks, st.current + [line])
  }

  /** The whole loop over `lines`. */
  function FeedAll(st: Splitter, lines: seq<string>): Splitter
    decreases |lines|
  {
    if lines == [] then st else Feed(FeedAll(st, lines[..|lines| - 1]), lines[|lines| - 1])
  }

  /** After the loop: a block still open is closed. */
  function Finish(st: Splitter): seq<string>
  {
    if st.current != [] then st.blocks + [Close(st.current)] else st.blocks
  }

  /** _split_into_blocks(text) */
  function SplitBlocks(text: string): seq<string>
  {
    Finish(FeedAll(Start, Split(text, '\n')))
  }

  /** The lines of a block: its text before the final newline, cut at each '\n'. */
  function LinesOf(b: string): seq<string>
  {
    if b == [] then [] else Split(b[..|b| - 1], '\n')
  }

  /** What _split_into_blocks yields: a non-empty block, ending in '\n', none of whose lines is blank. */
  predicate BlockShape(b: string)
  {
    && b != [] && b[|b| - 1] == '\n'
    && forall i :: 0 <= i < |LinesOf(b)| ==> !Blank(LinesOf(b)[i])
  }

  /** Closing lines that hold no '\n' gives a block whose lines are those lines. */
  lemma LinesOfClose(current: seq<string>)
    requires current != []
    requires forall i :: 0 <= i < |current| ==> '\n' !in current[i]
    ensures LinesOf(Close(current)) == current
  {
    var b := Close(current);
    assert b[..|b| - 1] == Join(current, "\n");
    SplitJoin(current, '\n');
  }

  /** Closing the lines of a block that ends in '\n' gives the block back. */
  lemma CloseLinesOf(b: string)
    requires b != [] && b[|b| - 1] == '\n'
    ensures Close(LinesOf(b)) == b
  {
    JoinSplit(b[..|b| - 1], '\n');
  }

  /** What the loop keeps true: finished blocks have the block shape, and current lines are neither blank nor hold '\n'. */
  predicate Consistent(st: Splitter)
  {
    && (forall i :: 0 <= i < |st.blocks| ==> BlockShape(st.blocks[i]))
    && (forall i :: 0 <= i < |st.current| ==> !Blank(st.current[i]) && '\n' !in st.current[i])
  }

  lemma CloseShape(current: seq<string>)
    requires current != []
    requires forall i :: 0 <= i < |current| ==> !Blank(current[i]) && '\n' !in current[i]
    ensures BlockShape(Close(current))
  {
    LinesOfClose(current);
  }

  lemma FeedConsistent(st: Splitter, line: string)
    requires Consistent(st) && '\n' !in line
    ensures Consistent(Feed(st, line))
  {
    if Blank(line) && st.current != [] {
      CloseShape(st.current);
    }
  }

  lemma {:induction false} FeedAllConsistent(st: Splitter, lines: seq<string>)
    requires Consistent(st)
    requires forall i :: 0 <= i < |lines| ==> '\n' !in lines[i]
    ensures Consistent(FeedAll(st, lines))
    decreases |lines|
  {
    if lines != [] {
      FeedAllConsistent(st, lines[..|lines| - 1]);
      FeedConsistent(FeedAll(st, lines[..|lines| - 1]), lines[|lines| - 1]);
    }
  }

  /**
   * Every block _split_into_blocks returns is non-empty, ends in '\n' and has
   * no whitespace-only line, so runs of blank lines yield no empty block.
   */
  lemma SplitBlocksShape(text: string)
    ensures forall i :: 0 <= i < |SplitBlocks(text)| ==> BlockShape(SplitBlocks(text)[i])
  {
    var st := FeedAll(Start, Split(text, '\n'));
    SplitSpec(text, '\n');
    FeedAllConsistent(Start, Split(text, '\n'));
    if st.current != [] {
      CloseShape(st.current);
    }
  }

  lemma {:induction false} FeedAllAppend(st: Splitter, a: seq<string>, b: seq<string>)
    ensures FeedAll(st, a + b) == FeedAll(FeedAll(st, a), b)
    decreases |b|
  {
    if b == [] {
      assert a + b == a;
    } else {
      assert (a + b)[..|a + b| - 1] == a + b[..|b| - 1];
      FeedAllAppend(st, a, b[..|b| - 1]);
    }
  }

  /** Lines that are not blank all join the current block. */
  lemma {:induction false} FeedAllNonBlank(st: Splitter, ls: seq<string>)
    requires forall i :: 0 <= i < |ls| ==> !Blank(ls[i])
    ensures FeedAll(st, ls) == Splitter(st.blocks, st.current + ls)
    decreases |ls|
  {
    if ls != [] {
      var init := ls[..|ls| - 1];
      FeedAllNonBlank(st, init);
      assert st.current + init + [ls[|ls| - 1]] == st.current + ls;
    }
  }

  // ---------------------------------------------------------------------------
  // The file _write produces, and _read_existing_blocks
  // ---------------------------------------------------------------------------

  /** The first line of a book's file: f"{title}, {author}". */
  function TitleLine(ta: TitleAuthor): string
  {
    ta.title + ", " + ta.author
  }

  /** Each block followed by "\n", in order. */
  function BlocksText(bs: seq<string>): string
    decreases |bs|
  {
    if bs == [] then "" else BlocksText(bs[..|bs| - 1]) + bs[|bs| - 1] + "\n"
  }

  /** The contents _write gives a book's file: the title line, a blank line, then the blocks. */
  function FileText(ta: TitleAuthor, bs: seq<string>): string
  {
    TitleLine(ta) + "\n\n" + BlocksText(bs)
  }

  /** lines[idx:], where idx skips the title line and then one blank line. */
  function AnnotationLines(lines: seq<string>): seq<string>
  {
    if |lines| <= 1 then []
    else if Blank(lines[1]) then lines[2..]
    else lines[1..]
  }

  /** _read_existing_blocks on a file with these contents, read in text mode. */
  function ExistingBlocks(content: string): seq<string>
  {
    SplitBlocks(Join(AnnotationLines(SplitLines(Translate(content))), "\n"))
  }

  /** Every block read back from a file is non-empty, ends in '\n' and has no whitespace-only line. */
  lemma ExistingBlocksShape(content: string)
    ensures forall i :: 0 <= i < |ExistingBlocks(content)| ==> BlockShape(ExistingBlocks(content)[i])
  {
    SplitBlocksShape(Join(AnnotationLines(SplitLines(Translate(content))), "\n"));
  }

  /** The lines a file of these blocks holds: each block's lines, then an empty line. */
  function Flat(bs: seq<string>): seq<string>
    decreases |bs|
  {
    if bs == [] then [] else Flat(bs[..|bs| - 1]) + LinesOf(bs[|bs| - 1]) + [""]
  }

  /** A block ending in '\n' whose only line breaks are '\n': written out, its lines come back as they were. */
  predicate LineBreaksOnly(b: string)
  {
    && b != [] && b[|b| - 1] == '\n'
    && forall i :: 0 <= i < |LinesOf(b)| ==> NoBoundary(LinesOf(b)[i])
  }

  /** A block that comes back unchanged: a block's shape, and no line break but '\n' inside. */
  predicate Reparsable(b: string)
  {
    BlockShape(b) && LineBreaksOnly(b)
  }

  lemma {:induction false} UnlinesAppend(a: seq<string>, b: seq<string>)
    ensures Unlines(a + b) == Unlines(a) + Unlines(b)
    decreases |a|
  {
    if a == [] {
      assert a + b == b;
    } else {
      assert (a + b)[1..] == a[1..] + b;
      UnlinesAppend(a[1..], b);
    }
  }

  lemma {:induction false} UnlinesJoin(ls: seq<string>)
    requires ls != []
    ensures Unlines(ls) == Join(ls, "\n") + "\n"
    decreases |ls|
  {
    if |ls| > 1 {
      UnlinesJoin(ls[1..]);
    }
  }

  /** A block written with its "\n" is its lines and one empty line. */
  lemma BlockUnlines(b: string)
    requires b != [] && b[|b| - 1] == '\n'
    ensures Unlines(LinesOf(b) + [""]) == b + "\n"
  {
    UnlinesAppend(LinesOf(b), [""]);
    UnlinesJoin(LinesOf(b));
    CloseLinesOf(b);
  }

  lemma {:induction false} BlocksTextUnlines(bs: seq<string>)
    requires forall i :: 0 <= i < |bs| ==> bs[i] != [] && bs[i][|bs[i]| - 1] == '\n'
    ensures BlocksText(bs) == Unlines(Flat(bs))
    decreases |bs|
  {
    if bs != [] {
      var init, b := bs[..|bs| - 1], bs[|bs| - 1];
      BlocksTextUnlines(init);
      BlockUnlines(b);
      UnlinesAppend(Flat(init), LinesOf(b) + [""]);
      assert Flat(bs) == Flat(init) + (LinesOf(b) + [""]);
    }
  }

  /** The lines of Flat(bs) hold no boundary character when the blocks are reparsable. */
  lemma {:induction false} FlatNoBoundary(bs: seq<string>)
    requires forall i :: 0 <= i < |bs| ==> LineBreaksOnly(bs[i])
    ensures forall i :: 0 <= i < |Flat(bs)| ==> NoBoundary(Flat(bs)[i])
    decreases |bs|
  {
    if bs != [] {
      var init, b := bs[..|bs| - 1], bs[|bs| - 1];
      FlatNoBoundary(init);
      assert LineBreaksOnly(b);
      forall i | 0 <= i < |Flat(bs)| ensures NoBoundary(Flat(bs)[i]) {
        if i < |Flat(init)| {
          assert Flat(bs)[i] == Flat(init)[i];
        } else if i < |Flat(init)| + |LinesOf(b)| {
          assert Flat(bs)[i] == LinesOf(b)[i - |Flat(init)|];
        }
      }
    }
  }

  /** The file _write produces is the title line, an empty line and the blocks' lines, each ended by '\n'. */
  lemma FileTextUnlines(ta: TitleAuthor, bs: seq<string>)
    requires forall i :: 0 <= i < |bs| ==> bs[i] != [] && bs[i][|bs[i]| - 1] == '\n'
    ensures FileText(ta, bs) == Unlines([TitleLine(ta), ""] + Flat(bs))
  {
    BlocksTextUnlines(bs);
    UnlinesAppend([TitleLine(ta), ""], Flat(bs));
    assert Unlines([TitleLine(ta), ""]) == TitleLine(ta) + "\n\n";
  }

  lemma TitleLineNoBoundary(ta: TitleAuthor)
    requires NoBoundary(ta.title) && NoBoundary(ta.author)
    ensures NoBoundary(TitleLine(ta))
  {
    var t := TitleLine(ta);
    forall j | 0 <= j < |t| ensures !IsLineBoundary(t[j]) {
      if j < |ta.title| {
        assert t[j] == ta.title[j];
      } else if j >= |ta.title| + 2 {
        assert t[j] == ta.author[j - |ta.title| - 2];
      }
    }
  }

  lemma FileLinesNoBoundary(ta: TitleAuthor, bs: seq<string>)
    requires NoBoundary(ta.title) && NoBoundary(ta.author)
    requires forall i :: 0 <= i < |bs| ==> LineBreaksOnly(bs[i])
    ensures var ls := [TitleLine(ta), ""] + Flat(bs); forall i :: 0 <= i < |ls| ==> NoBoundary(ls[i])
  {
    var ls := [TitleLine(ta), ""] + Flat(bs);
    FlatNoBoundary(bs);
    TitleLineNoBoundary(ta);
    forall i | 0 <= i < |ls| ensures NoBoundary(ls[i]) {
      if i >= 2 {
        assert ls[i] == Flat(bs)[i - 2];
      }
    }
  }

  /** Writing reparsable blocks and reading the lines back gives the title line, a blank line and Flat(bs). */
  lemma FileTextLines(ta: TitleAuthor, bs: seq<string>)
    requires NoBoundary(ta.title) && NoBoundary(ta.author)
    requires forall i :: 0 <= i < |bs| ==> LineBreaksOnly(bs[i])
    ensures SplitLines(Translate(FileText(ta, bs))) == [TitleLine(ta), ""] + Flat(bs)
  {
    var ls := [TitleLine(ta), ""] + Flat(bs);
    FileTextUnlines(ta, bs);
    FileLinesNoBoundary(ta, bs);
    NoCarriageReturnInUnlines(ls);
    TranslateWithoutCarriageReturn(Unlines(ls));
    SplitLinesOfUnlines(ls);
  }

  lemma {:induction false} NoCarriageReturnInUnlines(ls: seq<string>)
    requires forall i :: 0 <= i < |ls| ==> NoBoundary(ls[i])
    ensures forall j :: 0 <= j < |Unlines(ls)| ==> Unlines(ls)[j] != '\r'
    decreases |ls|
  {
    if ls != [] {
      NoCarriageReturnInUnlines(ls[1..]);
      var s, l := Unlines(ls), ls[0];
      assert s == l + "\n" + Unlines(ls[1..]);
      forall j | 0 <= j < |s| ensures s[j] != '\r' {
        if j < |l| {
          assert s[j] == l[j];
        } else if j > |l| {
          assert s[j] == Unlines(ls[1..])[j - |l| - 1];
        }
      }
    }
  }

  /** Every line of Flat(bs) is free of '\n'. */
  lemma {:induction false} FlatNoNewline(bs: seq<string>)
    ensures forall i :: 0 <= i < |Flat(bs)| ==> '\n' !in Flat(bs)[i]
    decreases |bs|
  {
    if bs != [] {
      var init, b := bs[..|bs| - 1], bs[|bs| - 1];
      FlatNoNewline(init);
      if b != [] {
        SplitSpec(b[..|b| - 1], '\n');
      }
      forall i | 0 <= i < |Flat(bs)| ensures '\n' !in Flat(bs)[i] {
        if i < |Flat(init)| {
          assert Flat(bs)[i] == Flat(init)[i];
        } else if i < |Flat(init)| + |LinesOf(b)| {
          assert Flat(bs)[i] == LinesOf(b)[i - |Flat(init)|];
        }
      }
    }
  }

  /**
   * Reading back a file of reparsable blocks runs the block splitter over
   * exactly the lines of the blocks, each block followed by an empty line.
   */
  lemma ReadBackLines(ta: TitleAuthor, bs: seq<string>)
    requires NoBoundary(ta.title) && NoBoundary(ta.author)
    requires forall i :: 0 <= i < |bs| ==> LineBreaksOnly(bs[i])
    ensures ExistingBlocks(FileText(ta, bs)) == Finish(FeedAll(Start, Flat(bs)))
  {
    FileTextLines(ta, bs);
    SkipTitleLine(TitleLine(ta), Flat(bs));
    RejoinFlat(bs);
  }

  /** The title line and the blank line after it are skipped. */
  lemma SkipTitleLine(title: string, rest: seq<string>)
    ensures AnnotationLines([title, ""] + rest) == rest
  {
    var ls := [title, ""] + rest;
    assert ls[1] == "" && Blank("");
    assert ls[2..] == rest;
  }

  /** Joining the lines of a file of blocks and cutting them again feeds the splitter the same lines. */
  lemma RejoinFlat(bs: seq<string>)
    ensures Finish(FeedAll(Start, Split(Join(Flat(bs), "\n"), '\n'))) == Finish(FeedAll(Start, Flat(bs)))
  {
    if bs == [] {
      assert Split("", '\n') == [""];
      assert FeedAll(Start, [""]) == Feed(FeedAll(Start, []), "");
    } else {
      FlatNoNewline(bs);
      SplitJoin(Flat(bs), '\n');
    }
  }

  /** A block's lines followed by an empty line close exactly that block. */
  lemma FeedBlock(done: seq<string>, b: string)
    requires BlockShape(b)
    ensures FeedAll(Splitter(done, []), LinesOf(b) + [""]) == Splitter(done + [b], [])
  {
    var st := Splitter(done, []);
    FeedAllAppend(st, LinesOf(b), [""]);
    FeedAllNonBlank(st, LinesOf(b));
    assert [] + LinesOf(b) == LinesOf(b);
    var open := Splitter(done, LinesOf(b));
    assert FeedAll(open, [""]) == Feed(FeedAll(open, []), "");
    assert Blank("");
    assert LinesOf(b) != [] by {
      assert |Split(b[..|b| - 1], '\n')| >= 1;
    }
    CloseLinesOf(b);
  }

  lemma FlatSnoc(bs: seq<string>, b: string)
    ensures Flat(bs + [b]) == Flat(bs) + (LinesOf(b) + [""])
  {
    assert (bs + [b])[..|bs|] == bs;
  }

  /** The splitter, run over the lines of blocks that each have the block shape, finds exactly those blocks. */
  lemma {:induction false} FeedAllFlat(bs: seq<string>)
    requires forall i :: 0 <= i < |bs| ==> BlockShape(bs[i])
    ensures FeedAll(Start, Flat(bs)) == Splitter(bs, [])
    decreases |bs|
  {
    if bs != [] {
      var init, b := bs[..|bs| - 1], bs[|bs| - 1];
      assert bs == init + [b];
      assert forall i :: 0 <= i < |init| ==> init[i] == bs[i];
      calc {
        FeedAll(Start, Flat(bs));
        { FlatSnoc(init, b); }
        FeedAll(Start, Flat(init) + (LinesOf(b) + [""]));
        { FeedAllAppend(Start, Flat(init), LinesOf(b) + [""]); }
        FeedAll(FeedAll(Start, Flat(init)), LinesOf(b) + [""]);
        { FeedAllFlat(init); }
        FeedAll(Splitter(init, []), LinesOf(b) + [""]);
        { FeedBlock(init, b); }
        Splitter(bs, []);
      }
    }
  }

  /**
   * The round trip the docstring of _split_into_blocks describes: reading back
   * the file _write produced gives back its blocks, provided no block holds a
   * whitespace-only line or a line break other than '\n', and the title and
   * author hold no line break.
   */
  lemma ReadBackFileText(ta: TitleAuthor, bs: seq<string>)
    requires NoBoundary(ta.title) && NoBoundary(ta.author)
    requires forall i :: 0 <= i < |bs| ==> Reparsable(bs[i])
    ensures ExistingBlocks(FileText(ta, bs)) == bs
  {
    ReadBackLines(ta, bs);
    FeedAllFlat(bs);
  }

  lemma LinesOfWhitespaceBlock()
    ensures LinesOf("a\n \nb\n") == ["a", " ", "b"]
  {
    var b := "a\n \nb\n";
    assert b[..|b| - 1] == "a" + ['\n'] + (" " + ['\n'] + "b");
    SplitNoSep("b", '\n');
    SplitAfterLine(" ", "b", '\n');
    SplitAfterLine("a", " " + ['\n'] + "b", '\n');
  }

  lemma FeedAllSnoc(st: Splitter, lines: seq<string>, line: string)
    ensures FeedAll(st, lines + [line]) == Feed(FeedAll(st, lines), line)
  {
    assert (lines + [line])[..|lines|] == lines;
  }

  lemma BlankExamples()
    ensures !Blank("a") && Blank(" ") && !Blank("b") && Blank("")
    ensures Close(["a"]) == "a\n" && Close(["b"]) == "b\n"
  {
  }

  /** The splitter cuts the lines "a", " ", "b", "" into two blocks at the whitespace-only line. */
  lemma FeedWhitespaceLines()
    ensures FeedAll(Start, ["a", " ", "b", ""]) == Splitter(["a\n", "b\n"], [])
  {
    BlankExamples();
    assert FeedAll(Start, ["a"]) == Splitter([], ["a"]) by {
      FeedAllSnoc(Start, [], "a");
      assert [] + ["a"] == ["a"];
    }
    assert FeedAll(Start, ["a", " "]) == Splitter(["a\n"], []) by {
      FeedAllSnoc(Start, ["a"], " ");
      assert ["a"] + [" "] == ["a", " "];
    }
    assert FeedAll(Start, ["a", " ", "b"]) == Splitter(["a\n"], ["b"]) by {
      FeedAllSnoc(Start, ["a", " "], "b");
      assert ["a", " "] + ["b"] == ["a", " ", "b"];
    }
    FeedAllSnoc(Start, ["a", " ", "b"], "");
    assert ["a", " ", "b"] + [""] == ["a", " ", "b", ""];
  }

  /**
   * The limit of that round trip: a block with a whitespace-only line is
   * written out and comes back as two blocks.
   */
  lemma WhitespaceLineSplitsBlock()
    ensures ExistingBlocks(FileText(TitleAuthor("t", "a"), ["a\n \nb\n"])) == ["a\n", "b\n"]
  {
    var b := "a\n \nb\n";
    LinesOfWhitespaceBlock();
    assert Flat([b]) == ["a", " ", "b", ""] by {
      assert Flat([b]) == Flat([]) + LinesOf(b) + [""];
    }
    assert LineBreaksOnly(b) by {
      forall i | 0 <= i < 3 ensures NoBoundary(LinesOf(b)[i]) {
      }
    }
    ReadBackLines(TitleAuthor("t", "a"), [b]);
    FeedWhitespaceLines();
  }

  // ---------------------------------------------------------------------------
  // _merge_with_existing
  // ---------------------------------------------------------------------------

  /** Each block normalised, in order. */
  function NormalizeAll(bs: seq<string>): (r: seq<string>)
    ensures |r| == |bs|
    decreases |bs|
  {
    if bs == [] then [] else NormalizeAll(bs[..|bs| - 1]) + [Normalize(bs[|bs| - 1])]
  }

  /** Each block is replaced by its normal form, in place. */
  lemma {:induction false} NormalizeAllSpec(bs: seq<string>)
    ensures forall i :: 0 <= i < |bs| ==> NormalizeAll(bs)[i] == Normalize(bs[i])
    decreases |bs|
  {
    if bs != [] {
      NormalizeAllSpec(bs[..|bs| - 1]);
    }
  }

  /** A book's blocks after _merge_with_existing on a file with these contents. */
  function MergeBlocks(blocks: seq<string>, content: string): (m: seq<string>)
    ensures blocks <= m
  {
    AddAllExtends(blocks, NormalizeAll(ExistingBlocks(content)));
    AddAll(blocks, NormalizeAll(ExistingBlocks(content)))
  }

  /** The normalised blocks are exactly the normal forms of the blocks. */
  lemma NormalizeAllMembers(bs: seq<string>)
    ensures forall x :: x in NormalizeAll(bs) <==> exists b :: b in bs && x == Normalize(b)
  {
    NormalizeAllSpec(bs);
    forall x ensures x in NormalizeAll(bs) <==> exists b :: b in bs && x == Normalize(b) {
      if x in NormalizeAll(bs) {
        var i :| 0 <= i < |bs| && NormalizeAll(bs)[i] == x;
        assert bs[i] in bs;
      }
      if exists b :: b in bs && x == Normalize(b) {
        var b :| b in bs && x == Normalize(b);
        var i :| 0 <= i < |bs| && bs[i] == b;
        assert NormalizeAll(bs)[i] == x;
      }
    }
  }

  /**
   * Merging keeps the book's own blocks first and in order, adds each old
   * block in normalised form after them, and repeats nothing.
   */
  lemma MergeSpec(blocks: seq<string>, content: string)
    requires Distinct(blocks)
    ensures var m := MergeBlocks(blocks, content);
      && blocks <= m
      && Distinct(m)
      && forall x :: x in m <==> x in blocks || exists ob :: ob in ExistingBlocks(content) && x == Normalize(ob)
  {
    AddAllSpec(blocks, NormalizeAll(ExistingBlocks(content)));
    NormalizeAllMembers(ExistingBlocks(content));
  }

  /** Normalising blocks that are already normalised changes nothing. */
  lemma NormalizeAllFixed(bs: seq<string>)
    requires forall i :: 0 <= i < |bs| ==> Normalize(bs[i]) == bs[i]
    ensures NormalizeAll(bs) == bs
  {
    NormalizeAllSpec(bs);
  }

  /** Every normal form is normalised. */
  lemma NormalizeAllNormalized(bs: seq<string>)
    ensures forall x :: x in NormalizeAll(bs) ==> Normalize(x) == x
  {
    NormalizeAllSpec(bs);
    forall x | x in NormalizeAll(bs) ensures Normalize(x) == x {
      var j :| 0 <= j < |bs| && NormalizeAll(bs)[j] == x;
      NormalizeIdempotent(bs[j]);
    }
  }

  /** When the book's own blocks are normalised, every merged block is. */
  lemma MergeNormalized(blocks: seq<string>, content: string)
    requires Distinct(blocks)
    requires forall i :: 0 <= i < |blocks| ==> Normalize(blocks[i]) == blocks[i]
    ensures var m := MergeBlocks(blocks, content); forall i :: 0 <= i < |m| ==> Normalize(m[i]) == m[i]
  {
    var news := NormalizeAll(ExistingBlocks(content));
    var m := MergeBlocks(blocks, content);
    AddAllSpec(blocks, news);
    NormalizeAllNormalized(ExistingBlocks(content));
    forall i | 0 <= i < |m| ensures Normalize(m[i]) == m[i] {
      assert m[i] in blocks || m[i] in news;
      if m[i] in blocks {
        var j :| 0 <= j < |blocks| && blocks[j] == m[i];
      }
    }
  }

  /**
   * Merging the same blocks again with the file written from a merge
   * changes nothing, when every merged block is reparsable.
   */
  lemma MergeIsStable(blocks: seq<string>, content: string, ta: TitleAuthor)
    requires Distinct(blocks)
    requires forall i :: 0 <= i < |blocks| ==> Normalize(blocks[i]) == blocks[i]
    requires NoBoundary(ta.title) && NoBoundary(ta.author)
    requires var m := MergeBlocks(blocks, content); forall i :: 0 <= i < |m| ==> Reparsable(m[i])
    ensures MergeBlocks(blocks, FileText(ta, MergeBlocks(blocks, content))) == MergeBlocks(blocks, content)
  {
    var m := MergeBlocks(blocks, content);
    ReadBackFileText(ta, m);
    MergeNormalized(blocks, content);
    NormalizeAllFixed(m);
    AddAllAbsorbs(blocks, NormalizeAll(ExistingBlocks(content)));
  }
  /**
   * Merging blocks with the file written from those same blocks gives the
   * blocks back, when they are normalised and reparsable.
   */
  lemma MergeOwnFile(blocks: seq<string>, ta: TitleAuthor)
    requires forall i :: 0 <= i < |blocks| ==> Normalize(blocks[i]) == blocks[i]
    requires NoBoundary(ta.title) && NoBoundary(ta.author)
    requires forall i :: 0 <= i < |blocks| ==> Reparsable(blocks[i])
    ensures MergeBlocks(blocks, FileText(ta, blocks)) == blocks
  {
    ReadBackFileText(ta, blocks);
    NormalizeAllFixed(blocks);
    AddAllPresent(blocks, blocks);
  }
}
