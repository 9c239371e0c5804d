/**
 * The reading rules of the Python port: raw lines as readline() returns them
 * (line ending kept), header cleaning, blocks collected up to a line that
 * strips to the delimiter, block normalisation, and the insertion-ordered
 * table of books, each an ordered set of distinct blocks. Also the title and
 * author split and the output file name.
 */
module PyFormat {
  import opened Text
  import opened Decimal
  import opened OrderedSets
  import opened Files
  import JavaFormat

  const Delimiter := "=========="
  const NewLine := "\n"
  const MaxTitleLength: nat := 112

  // ---------------------------------------------------------------------------
  // The tokenizer: _read and _read_block
  // ---------------------------------------------------------------------------

  /** A raw line that ends a block: with its surrounding whitespace stripped it is the delimiter. */
  predicate IsDelimiterLine(raw: string)
  {
    Strip(raw) == Delimiter
  }

  /**
   * A header line without its line ending and, when its first character is
   * not alphanumeric, without that character.
   */
  function HeaderOf(raw: string, isAlnum: char -> bool): string
  {
    var l := RStripNewlines(raw);
    if l != [] && !isAlnum(l[0]) then l[1..] else l
  }

  /**
   * Header cleaning drops the line ending and at most one character, the
   * first, and drops it exactly when it is not alphanumeric.
   */
  lemma HeaderOfSpec(raw: string, isAlnum: char -> bool)
    ensures var l := RStripNewlines(raw); var h := HeaderOf(raw, isAlnum);
      && l <= raw
      && (forall i :: |l| <= i < |raw| ==> raw[i] == '\r' || raw[i] == '\n')
      && (h == l || (l != [] && h == l[1..]))
      && (|h| < |l| <==> l != [] && !isAlnum(l[0]))
  {
    RStripNewlinesSpec(raw);
  }

  /** What one body line adds to a block: nothing when it is empty, else its text and a newline. */
  function BlockLine(raw: string): string
  {
    var l := RStripNewlines(raw);
    if l == "" then "" else l + NewLine
  }

  /** The text that lines start..end add to a block. */
  function BlockText(lines: seq<string>, start: nat, end: nat): string
    requires start <= end <= |lines|
    decreases end - start
  {
    if end == start then "" else BlockText(lines, start, end - 1) + BlockLine(lines[end - 1])
  }

  /** Index of the first delimiter line at or after `start`, or the number of lines. */
  function BlockEnd(lines: seq<string>, start: nat): (e: nat)
    requires start <= |lines|
    ensures start <= e <= |lines|
    decreases |lines| - start
  {
    if start == |lines| || IsDelimiterLine(lines[start]) then start else BlockEnd(lines, start + 1)
  }

  /** A block runs to the first line that strips to the delimiter, or to the end of the input. */
  lemma {:induction false} BlockEndSpec(lines: seq<string>, start: nat)
    requires start <= |lines|
    ensures var e := BlockEnd(lines, start);
      && (forall j :: start <= j < e ==> !IsDelimiterLine(lines[j]))
      && (e < |lines| ==> IsDelimiterLine(lines[e]))
    decreases |lines| - start
  {
    if start < |lines| && !IsDelimiterLine(lines[start]) {
      BlockEndSpec(lines, start + 1);
    }
  }

  /** The block _read_block returns: the body lines' text, then one more newline. */
  function Block(lines: seq<string>, start: nat, end: nat): (b: string)
    requires start <= end <= |lines|
  {
    BlockText(lines, start, end) + NewLine
  }

  /** Block text is additive over the body lines, so an empty line contributes nothing wherever it stands. */
  lemma {:induction false} BlockTextSplit(lines: seq<string>, start: nat, mid: nat, end: nat)
    requires start <= mid <= end <= |lines|
    ensures BlockText(lines, start, end) == BlockText(lines, start, mid) + BlockText(lines, mid, end)
    decreases end - mid
  {
    if mid < end {
      BlockTextSplit(lines, start, mid, end - 1);
      var front, middle, back := BlockText(lines, start, mid), BlockText(lines, mid, end - 1), BlockLine(lines[end - 1]);
      assert (front + middle) + back == front + (middle + back);
    }
  }

  /**
   * Read in the same way, a Python line "l\n" adds to a block what the Java
   * tokenizer adds for the line "l" with "\n" as line separator.
   */
  lemma BlockLineOfJavaLine(l: string)
    requires IsLineText(l)
    ensures BlockLine(l + "\n") == JavaFormat.LineText(l, "\n")
  {
    assert (l + "\n")[..|l|] == l;
    assert RStripNewlines(l + "\n") == RStripNewlines(l);
    assert RStripNewlines(l) == l;
  }

  /** Python's block.rstrip() + "\n": trailing whitespace replaced by exactly one newline. */
  function Normalize(block: string): (r: string)
    ensures r != [] && r[|r| - 1] == '\n'
    ensures r[..|r| - 1] <= block
  {
    RStripSpec(block);
    var s := RStrip(block);
    assert (s + NewLine)[..|s|] == s;
    s + NewLine
  }

  lemma NormalizeSpec(block: string)
    ensures var r := Normalize(block);
      && r != [] && r[|r| - 1] == '\n'
      && (|r| == 1 || !IsSpace(r[|r| - 2]))
      && r[..|r| - 1] <= block
      && (forall i :: |r| - 1 <= i < |block| ==> IsSpace(block[i]))
  {
    RStripSpec(block);
  }

  /** Normalising a normalised block changes nothing. */
  lemma NormalizeIdempotent(block: string)
    ensures Normalize(Normalize(block)) == Normalize(block)
  {
    var s := RStrip(block);
    var n := s + NewLine;
    assert n[..|n| - 1] == s;
    RStripSpec(block);
    assert RStrip(n) == RStrip(s);
    assert RStrip(s) == s;
  }

  /** A record: the cleaned header and its normalised block. */
  datatype Record = Record(header: string, block: string)

  /**
   * The records of the raw input from line k on. An empty header reads no
   * block: the next line is taken as a header.
   */
  function RecordsFrom(lines: seq<string>, k: nat, isAlnum: char -> bool): seq<Record>
    requires k <= |lines|
    decreases |lines| - k
  {
    if k == |lines| then []
    else
      var header := HeaderOf(lines[k], isAlnum);
      if header == "" then RecordsFrom(lines, k + 1, isAlnum)
      else
        var e := BlockEnd(lines, k + 1);
        var next := if e < |lines| then e + 1 else e;
        [Record(header, Normalize(Block(lines, k + 1, e)))] + RecordsFrom(lines, next, isAlnum)
  }

  function Records(lines: seq<string>, isAlnum: char -> bool): seq<Record>
  {
    RecordsFrom(lines, 0, isAlnum)
  }

  /** One step of the tokenizer at a non-empty header: its record, then the rest. */
  lemma RecordsFromStep(lines: seq<string>, k: nat, isAlnum: char -> bool, record: Record, next: nat)
    requires k < |lines| && HeaderOf(lines[k], isAlnum) != ""
    requires record == Record(HeaderOf(lines[k], isAlnum), Normalize(Block(lines, k + 1, BlockEnd(lines, k + 1))))
    requires next == if BlockEnd(lines, k + 1) < |lines| then BlockEnd(lines, k + 1) + 1 else BlockEnd(lines, k + 1)
    ensures RecordsFrom(lines, k, isAlnum) == [record] + RecordsFrom(lines, next, isAlnum)
  {
  }

  /** At an empty header the tokenizer moves on to the next line. */
  lemma RecordsFromSkip(lines: seq<string>, k: nat, isAlnum: char -> bool)
    requires k < |lines| && HeaderOf(lines[k], isAlnum) == ""
    ensures RecordsFrom(lines, k, isAlnum) == RecordsFrom(lines, k + 1, isAlnum)
  {
  }

  /** A record as the tokenizer yields it: a non-empty header and a block that is already normalised. */
  predicate WellFormed(r: Record)
  {
    r.header != "" && Normalize(r.block) == r.block
  }

  lemma {:induction false} RecordsWellFormed(lines: seq<string>, k: nat, isAlnum: char -> bool)
    requires k <= |lines|
    ensures forall i :: 0 <= i < |RecordsFrom(lines, k, isAlnum)| ==> WellFormed(RecordsFrom(lines, k, isAlnum)[i])
    decreases |lines| - k
  {
    if k < |lines| {
      var header := HeaderOf(lines[k], isAlnum);
      if header == "" {
        RecordsFromSkip(lines, k, isAlnum);
        RecordsWellFormed(lines, k + 1, isAlnum);
      } else {
        var e := BlockEnd(lines, k + 1);
        var next := if e < |lines| then e + 1 else e;
        var record := Record(header, Normalize(Block(lines, k + 1, e)));
        RecordsFromStep(lines, k, isAlnum, record, next);
        RecordsWellFormed(lines, next, isAlnum);
        NormalizeIdempotent(Block(lines, k + 1, e));
        assert WellFormed(record);
      }
    }
  }

  // ---------------------------------------------------------------------------
  // The book table: self.books, header -> {block: True}
  // ---------------------------------------------------------------------------

  /** The book table: headers in insertion order, and each header's blocks in insertion order. */
  datatype Books = Books(headers: seq<string>, blocks: map<string, seq<string>>)

  /** Headers are distinct and are the table's keys; each book's blocks are distinct. */
  ghost predicate Valid(b: Books)
  {
    && Distinct(b.headers)
    && (forall h :: h in b.blocks <==> h in b.headers)
    && (forall h :: h in b.blocks ==> Distinct(b.blocks[h]))
  }

  const NoBooks := Books([], map[])

  /** A header's blocks, or none for a header not in the table. */
  function BlocksOf(b: Books, h: string): seq<string>
  {
    if h in b.blocks then b.blocks[h] else []
  }

  /** `books.setdefault(header, {})` then `books[header].setdefault(block, True)`. */
  function Insert(b: Books, r: Record): Books
  {
    Books(Add(b.headers, r.header), b.blocks[r.header := Add(BlocksOf(b, r.header), r.block)])
  }

  /** The table after inserting the records in order. */
  function Group(b: Books, records: seq<Record>): Books
    decreases |records|
  {
    if records == [] then b else Insert(Group(b, records[..|records| - 1]), records[|records| - 1])
  }

  /** The headers of the records, in order, repeats included. */
  function Headers(records: seq<Record>): (hs: seq<string>)
    ensures |hs| == |records|
    ensures forall i :: 0 <= i < |records| ==> hs[i] == records[i].header
    decreases |records|
  {
    if records == [] then [] else Headers(records[..|records| - 1]) + [records[|records| - 1].header]
  }

  /** The blocks of the records with header h, in order, repeats included. */
  function BlocksFor(records: seq<Record>, h: string): seq<string>
    decreases |records|
  {
    if records == [] then []
    else
      var r := records[|records| - 1];
      BlocksFor(records[..|records| - 1], h) + (if r.header == h then [r.block] else [])
  }

  lemma AddSpec<T>(s: seq<T>, x: T)
    requires Distinct(s)
    ensures Distinct(Add(s, x)) && forall y :: y in Add(s, x) <==> y in s || y == x
  {
  }

  /** One insertion keeps the table valid and touches only the record's header. */
  lemma InsertSpec(g: Books, r: Record)
    requires Valid(g)
    ensures Valid(Insert(g, r))
    ensures forall h :: BlocksOf(Insert(g, r), h) == if h == r.header then Add(BlocksOf(g, h), r.block) else BlocksOf(g, h)
  {
    AddSpec(g.headers, r.header);
    AddSpec(BlocksOf(g, r.header), r.block);
  }

  /** A header's blocks after one more record: its ordered set of blocks grows by that record's block or not at all. */
  lemma BlocksForStep(b: Books, records: seq<Record>, h: string)
    requires records != []
    ensures var init, r := records[..|records| - 1], records[|records| - 1];
      AddAll(BlocksOf(b, h), BlocksFor(records, h)) ==
        if h == r.header then Add(AddAll(BlocksOf(b, h), BlocksFor(init, h)), r.block) else AddAll(BlocksOf(b, h), BlocksFor(init, h))
  {
    var init, r := records[..|records| - 1], records[|records| - 1];
    if h == r.header {
      assert BlocksFor(records, h) == BlocksFor(init, h) + [r.block];
      assert (BlocksFor(init, h) + [r.block])[..|BlocksFor(init, h)|] == BlocksFor(init, h);
    } else {
      assert BlocksFor(records, h) == BlocksFor(init, h) + [];
      assert BlocksFor(init, h) + [] == BlocksFor(init, h);
    }
  }

  /**
   * Grouping is ordered-set insertion per header: the headers are the old
   * ones followed by the new ones in first-seen order, and each book's
   * blocks are its old ones followed by its new distinct blocks in
   * first-seen order.
   */
  lemma {:induction false} GroupSpec(b: Books, records: seq<Record>)
    requires Valid(b)
    ensures Valid(Group(b, records))
    ensures Group(b, records).headers == AddAll(b.headers, Headers(records))
    ensures forall h :: BlocksOf(Group(b, records), h) == AddAll(BlocksOf(b, h), BlocksFor(records, h))
    decreases |records|
  {
    if records != [] {
      var init, r := records[..|records| - 1], records[|records| - 1];
      GroupSpec(b, init);
      InsertSpec(Group(b, init), r);
      assert Headers(records)[..|records| - 1] == Headers(init);
      forall h
        ensures BlocksOf(Group(b, records), h) == AddAll(BlocksOf(b, h), BlocksFor(records, h))
      {
        BlocksForStep(b, records, h);
      }
    }
  }

  lemma {:induction false} GroupCons(b: Books, r: Record, records: seq<Record>)
    ensures Group(b, [r] + records) == Group(Insert(b, r), records)
    decreases |records|
  {
    if records == [] {
      assert [r] + records == [r];
      assert [r][..0] == [];
    } else {
      var init := records[..|records| - 1];
      assert ([r] + records)[..|records|] == [r] + init;
      GroupCons(b, r, init);
    }
  }

  /** number_of_books after a read into an empty table: the number of distinct headers. */
  lemma BookCountIsDistinctHeaders(records: seq<Record>)
    ensures |Group(NoBooks, records).headers| == |set r | r in records :: r.header|
  {
    var hs := AddAll([], Headers(records));
    assert Group(NoBooks, records).headers == hs by {
      GroupSpec(NoBooks, records);
    }
    AddAllSpec([], Headers(records));
    HeaderSet(records, hs);
    DistinctSize(hs);
  }

  /** A list holding exactly the records' headers has the set of them as its elements. */
  lemma HeaderSet(records: seq<Record>, hs: seq<string>)
    requires forall h :: h in hs <==> h in [] || h in Headers(records)
    ensures Elements(hs) == set r | r in records :: r.header
  {
    forall h | h in Elements(hs) ensures h in set r | r in records :: r.header {
      var i :| 0 <= i < |records| && Headers(records)[i] == h;
      assert records[i] in records;
    }
    forall h | h in set r | r in records :: r.header ensures h in Elements(hs) {
      var r :| r in records && r.header == h;
      var i :| 0 <= i < |records| && records[i] == r;
      assert Headers(records)[i] == h;
    }
  }

  // ---------------------------------------------------------------------------
  // _get_title_author
  // ---------------------------------------------------------------------------

  datatype TitleAuthor = TitleAuthor(title: string, author: string)

  /**
   * Splits a header at its last '(' and last ')' under the same guard as the
   * Java code, stripping the title and the author; otherwise the stripped
   * header with an empty author.
   */
  function GetTitleAuthor(header: string): (ta: TitleAuthor)
    ensures Stripped(ta.title) && Stripped(ta.author)
    ensures ta.author != "" ==> LastIndexOf(header, '(') > 0
  {
    var open := LastIndexOf(header, '(');
    var close := LastIndexOf(header, ')');
    if open > 0 && close > open then
      StripIsStripped(header[..open]);
      StripIsStripped(header[open + 1..close]);
      TitleAuthor(Strip(header[..open]), Strip(header[open + 1..close]))
    else
      StripIsStripped(header);
      TitleAuthor(Strip(header), "")
  }

  /**
   * The Python split is the Java split with whitespace stripped: where the
   * Java code drops the one character before '(', Python keeps it and strips.
   */
  lemma TitleAuthorAgreesWithJava(header: string)
    ensures var j := JavaFormat.GetTitleAuthor(header);
      var open := LastIndexOf(header, '(');
      var close := LastIndexOf(header, ')');
      if open > 0 && close > open then
        GetTitleAuthor(header) == TitleAuthor(Strip(j.title + [header[open - 1]]), Strip(j.author))
      else
        GetTitleAuthor(header) == TitleAuthor(Strip(j.title), "") && j.author == ""
  {
    var open := LastIndexOf(header, '(');
    if open > 0 && LastIndexOf(header, ')') > open {
      assert header[..open] == header[..open - 1] + [header[open - 1]];
    }
  }

  /** The last '(' of "title (author)" + tail is the one after the title, and the last ')' the one after the author. */
  lemma ParenthesesOfHeader(title: string, author: string, tail: string)
    requires forall j :: 0 <= j < |author| ==> author[j] != '('
    requires forall j :: 0 <= j < |tail| ==> tail[j] != '(' && tail[j] != ')'
    ensures var header := title + " (" + author + ")" + tail;
      && LastIndexOf(header, '(') == |title| + 1
      && LastIndexOf(header, ')') == |title| + 2 + |author|
      && header[..|title| + 1] == title + " "
      && header[|title| + 2..|title| + 2 + |author|] == author
  {
    var header := title + " (" + author + ")" + tail;
    var o, c := |title| + 1, |title| + 2 + |author|;
    LastIndexOfSpec(header, '(');
    LastIndexOfSpec(header, ')');
    assert header[o] == '(';
    forall j | o < j < |header| ensures header[j] != '(' {
      if j < c { assert header[j] == author[j - o - 1]; }
      else if j > c { assert header[j] == tail[j - c - 1]; }
    }
    assert header[c] == ')';
    forall j | c < j < |header| ensures header[j] != ')' {
      assert header[j] == tail[j - c - 1];
    }
    assert header[..o] == title + " ";
    assert header[o + 1..c] == author;
  }

  /**
   * The header Kindle writes, "title (author)" followed by a tail without
   * parentheses, splits back into that title and author when neither has
   * surrounding whitespace.
   */
  lemma TitleAuthorOfHeader(title: string, author: string, tail: string)
    requires Stripped(title) && Stripped(author)
    requires forall j :: 0 <= j < |author| ==> author[j] != '('
    requires forall j :: 0 <= j < |tail| ==> tail[j] != '(' && tail[j] != ')'
    ensures GetTitleAuthor(title + " (" + author + ")" + tail) == TitleAuthor(title, author)
  {
    var header := title + " (" + author + ")" + tail;
    var o, c := |title| + 1, |title| + 2 + |author|;
    ParenthesesOfHeader(title, author, tail);
    StripTrailingSpace(title, ' ');
    StripStripped(author);
  }

  // ---------------------------------------------------------------------------
  // _write: the file name
  // ---------------------------------------------------------------------------

  /** Characters kept in a file name: alphanumerics and " ._()-". */
  predicate IsCleanChar(isAlnum: char -> bool, c: char)
  {
    isAlnum(c) || c in " ._()-"
  }

  /** The title's kept characters, in order, cut to MaxTitleLength. */
  function CleanTitle(title: string, isAlnum: char -> bool): (clean: string)
    ensures |clean| <= MaxTitleLength
    ensures clean <= Filter(title, c => IsCleanChar(isAlnum, c))
  {
    Take(Filter(title, c => IsCleanChar(isAlnum, c)), MaxTitleLength)
  }

  /**
   * The clean title holds only kept characters and at most MaxTitleLength of
   * them; it is a prefix of the filtered title, and all of it when that fits.
   */
  lemma CleanTitleSpec(title: string, isAlnum: char -> bool)
    ensures var clean, kept := CleanTitle(title, isAlnum), Filter(title, c => IsCleanChar(isAlnum, c));
      && |clean| <= MaxTitleLength
      && (forall i :: 0 <= i < |clean| ==> IsCleanChar(isAlnum, clean[i]))
      && clean <= kept
      && (|kept| <= MaxTitleLength ==> clean == kept)
  {
    FilterSpec(title, c => IsCleanChar(isAlnum, c));
  }

  /** The file name of a book: clean title, '_', str(hash(header)), ".txt". */
  function BookName(header: string, isAlnum: char -> bool, hash: string -> int): string
  {
    CleanTitle(GetTitleAuthor(header).title, isAlnum) + "_" + DecimalString(hash(header)) + ".txt"
  }

  /** os.path.join(output_path, name) */
  function BookPath(outputPath: string, header: string, isAlnum: char -> bool, hash: string -> int): (p: string)
    ensures var name := BookName(header, isAlnum, hash); |name| <= |p| && p[|p| - |name|..] == name
    ensures |p| >= 5 && p[|p| - 4..] == ".txt"
  {
    var name := BookName(header, isAlnum, hash);
    var p := PathJoin(outputPath, name);
    assert p[|p| - 4..] == name[|name| - 4..];
    p
  }

  /** A file name never starts with '/', so joining it to the output directory keeps the directory. */
  lemma BookNameIsRelative(header: string, isAlnum: char -> bool, hash: string -> int)
    requires !isAlnum('/')
    ensures var n := BookName(header, isAlnum, hash); n != [] && n[0] != '/'
  {
    var c := CleanTitle(GetTitleAuthor(header).title, isAlnum);
    CleanTitleSpec(GetTitleAuthor(header).title, isAlnum);
    var n := BookName(header, isAlnum, hash);
    if c != [] {
      assert n[0] == c[0];
    } else {
      assert n[0] == '_';
    }
  }

  /** A name of the form title + '_' + digits + ".txt" determines its title and its digits. */
  lemma NamePartsCollision(c1: string, d1: string, c2: string, d2: string)
    requires forall j :: 0 <= j < |d1| ==> d1[j] != '_'
    requires forall j :: 0 <= j < |d2| ==> d2[j] != '_'
    ensures c1 + "_" + d1 + ".txt" == c2 + "_" + d2 + ".txt" <==> c1 == c2 && d1 == d2
  {
    if c1 + "_" + d1 + ".txt" == c2 + "_" + d2 + ".txt" {
      assert "" + c1 == c1 && "" + c2 == c2;
      JavaFormat.NamePartsEqual("", c1, d1, c2, d2);
    }
  }

  /** Two file names are equal exactly when their clean titles and their hashes are. */
  lemma BookNameCollision(h1: string, h2: string, isAlnum: char -> bool, hash: string -> int)
    ensures BookName(h1, isAlnum, hash) == BookName(h2, isAlnum, hash) <==>
      CleanTitle(GetTitleAuthor(h1).title, isAlnum) == CleanTitle(GetTitleAuthor(h2).title, isAlnum) && hash(h1) == hash(h2)
  {
    var d1, d2 := DecimalString(hash(h1)), DecimalString(hash(h2));
    NamePartsCollision(CleanTitle(GetTitleAuthor(h1).title, isAlnum), d1, CleanTitle(GetTitleAuthor(h2).title, isAlnum), d2);
    if d1 == d2 {
      DecimalStringInjective(hash(h1), hash(h2));
    }
  }

  /**
   * Two headers share an output file exactly when their clean titles and
   * their hashes are equal ('/' is not alphanumeric, so no name is an
   * absolute path).
   */
  lemma BookPathCollision(outputPath: string, h1: string, h2: string, isAlnum: char -> bool, hash: string -> int)
    requires !isAlnum('/')
    ensures BookPath(outputPath, h1, isAlnum, hash) == BookPath(outputPath, h2, isAlnum, hash) <==>
      CleanTitle(GetTitleAuthor(h1).title, isAlnum) == CleanTitle(GetTitleAuthor(h2).title, isAlnum) && hash(h1) == hash(h2)
  {
    BookNameCollision(h1, h2, isAlnum, hash);
    if BookPath(outputPath, h1, isAlnum, hash) == BookPath(outputPath, h2, isAlnum, hash) {
      BookNameIsRelative(h1, isAlnum, hash);
      BookNameIsRelative(h2, isAlnum, hash);
      PathJoinInjective(outputPath, BookName(h1, isAlnum, hash), BookName(h2, isAlnum, hash));
    }
  }

  /**
   * str(hash(header)) is salted per interpreter process unless PYTHONHASHSEED
   * is fixed: the same header under two hash functions gets the same path
   * exactly when the two hashes of it agree.
   */
  lemma BookPathOfHash(outputPath: string, h: string, isAlnum: char -> bool, hash1: string -> int, hash2: string -> int)
    requires !isAlnum('/')
    ensures BookPath(outputPath, h, isAlnum, hash1) == BookPath(outputPath, h, isAlnum, hash2) <==> hash1(h) == hash2(h)
  {
    var c := CleanTitle(GetTitleAuthor(h).title, isAlnum);
    var d1, d2 := DecimalString(hash1(h)), DecimalString(hash2(h));
    if BookPath(outputPath, h, isAlnum, hash1) == BookPath(outputPath, h, isAlnum, hash2) {
      BookNameIsRelative(h, isAlnum, hash1);
      BookNameIsRelative(h, isAlnum, hash2);
      PathJoinInjective(outputPath, BookName(h, isAlnum, hash1), BookName(h, isAlnum, hash2));
      NamePartsCollision(c, d1, c, d2);
      DecimalStringInjective(hash1(h), hash2(h));
    }
  }
}
