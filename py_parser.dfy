/**
 * The Python AnnotationParser object: it reads a clippings file into its
 * table of books, each an insertion-ordered set of normalised blocks, then
 * rewrites one file per book, first merging in the blocks of the book's
 * existing file when asked to. The reader, the table and the file system are
 * updated in place, as in the source.
 */
module PyAnnotationParser {
  import opened Wrappers
  import opened Files
  import opened Text
  import opened Decimal
  import opened OrderedSets
  import opened PyFormat
  import opened PyBlocks

  /** The exception _read raises when the input file does not exist. */
  datatype IOError = FileNotFound(path: string)

  class AnnotationParser {
    const inputPath: string
    const outputPath: string
    /** true: merge with the existing output files; false: overwrite them. */
    const mergeOption: bool
    /** str.isalnum for one character */
    const isAlnum: char -> bool
    /** Python's hash() on strings, fixed for the run */
    const hash: string -> int
    /** self.books: header -> ordered set of blocks */
    var books: Books

    ghost predicate Valid()
      reads this
    {
      PyFormat.Valid(books)
    }

    constructor (inputPath: string, outputPath: string, mergeOption: bool, isAlnum: char -> bool, hash: string -> int)
      ensures this.inputPath == inputPath && this.outputPath == outputPath && this.mergeOption == mergeOption
      ensures this.isAlnum == isAlnum && this.hash == hash
      ensures books == NoBooks && Valid()
    {
      this.inputPath := inputPath;
      this.outputPath := outputPath;
      this.mergeOption := mergeOption;
      this.isAlnum := isAlnum;
      this.hash := hash;
      books := NoBooks;
    }

    /** Reads the input, then writes the output files. Nothing is written if the input is missing. */
    method Parse(fs: FileSystem) returns (r: Outcome<IOError>, ghost js: seq<Job>)
      requires Valid()
      modifies this`books, fs
      ensures Valid()
      ensures inputPath !in old(fs.files) ==>
        r == Fail(FileNotFound(inputPath)) && fs.files == old(fs.files) && books == old(books)
      ensures inputPath in old(fs.files) ==>
        var read := Group(old(books), Records(PyLines(old(fs.files)[inputPath]), isAlnum));
        && PyFormat.Valid(read)
        && r == Pass
        && books.headers == read.headers
        && JobsOf(js, read.headers, outputPath, isAlnum, hash)
        && Output(books.blocks, fs.files) == WriteAll(Output(read.blocks, old(fs.files)), js, |js|, mergeOption)
    {
      js := [];
      r := Read(fs);
      if r.Pass? {
        js := Write(fs);
      }
    }

    /** len(self.books) */
    method NumberOfBooks() returns (n: nat)
      requires Valid()
      ensures n == |books.headers|
    {
      n := |books.headers|;
    }

    /** Reads the input file, inserting each record's normalised block into its book. */
    method Read(fs: FileSystem) returns (r: Outcome<IOError>)
      requires Valid()
      modifies this`books
      ensures Valid()
      ensures inputPath !in fs.files ==> r == Fail(FileNotFound(inputPath)) && books == old(books)
      ensures inputPath in fs.files ==>
        r == Pass && books == Group(old(books), Records(PyLines(fs.files[inputPath]), isAlnum))
    {
      if inputPath !in fs.files {
        return Fail(FileNotFound(inputPath));
      }
      var infile := new LineReader(PyLines(fs.files[inputPath]));
      ghost var goal := Group(books, Records(infile.lines, isAlnum));
      while true
        invariant infile.Valid() && fresh(infile)
        invariant Valid()
        invariant Group(books, RecordsFrom(infile.lines, infile.pos, isAlnum)) == goal
        decreases |infile.lines| - infile.pos
      {
        var eof := ReadRecord(infile);
        if eof {
          break;
        }
      }
      r := Pass;
    }

    /**
     * One turn of _read's loop: the header line, cleaned, then, unless the
     * header is empty, its block, normalised and added to the header's book.
     * The table built from the rest of the input is the one it would have
     * been.
     */
    method ReadRecord(infile: LineReader) returns (eof: bool)
      requires Valid() && infile.Valid()
      modifies this`books, infile`pos
      ensures Valid() && infile.Valid()
      ensures eof <==> old(infile.pos) == |infile.lines|
      ensures eof ==> books == old(books) && infile.pos == old(infile.pos)
      ensures !eof ==> old(infile.pos) < infile.pos
      ensures Group(old(books), RecordsFrom(infile.lines, old(infile.pos), isAlnum)) ==
        Group(books, RecordsFrom(infile.lines, infile.pos, isAlnum))
    {
      ghost var k := infile.pos;
      var headerLine := infile.ReadLine();
      if headerLine.None? {
        return true;
      }
      var header := RStripNewlines(headerLine.value);
      if header != "" && !isAlnum(header[0]) {
        header := header[1..];
      }
      assert header == HeaderOf(infile.lines[k], isAlnum);
      if header == "" {
        RecordsFromSkip(infile.lines, k, isAlnum);
        return false;
      }
      var block := ReadBlock(infile);
      ReadStep(infile.lines, k, isAlnum, block, infile.pos, books);
      block := Normalize(block);
      AddBlock(header, block);
      eof := false;
    }

    /** Marks the block as seen in the header's book, adding the book first if it is new. */
    method AddBlock(header: string, block: string)
      requires Valid()
      modifies this`books
      ensures Valid() && books == Insert(old(books), Record(header, block))
    {
      ghost var before := books;
      if header !in books.blocks {
        books := Books(books.headers + [header], books.blocks[header := []]);
      }
      books := books.(blocks := books.blocks[header := Add(books.blocks[header], block)]);
      InsertInPlace(before, Record(header, block), books);
    }

    /**
     * Reads lines up to EOF or to a line that strips to the delimiter, which
     * is consumed; returns their text and one more newline.
     */
    method ReadBlock(infile: LineReader) returns (block: string)
      requires infile.Valid()
      modifies infile`pos
      ensures infile.Valid()
      ensures var e := BlockEnd(infile.lines, old(infile.pos));
        && block == Block(infile.lines, old(infile.pos), e)
        && infile.pos == (if e < |infile.lines| then e + 1 else e)
    {
      ghost var start := infile.pos;
      ghost var lines := infile.lines;
      var annotation := "";
      while true
        invariant infile.Valid() && infile.lines == lines && start <= infile.pos
        invariant BlockEnd(lines, start) == BlockEnd(lines, infile.pos)
        invariant annotation == BlockText(lines, start, infile.pos)
        decreases |lines| - infile.pos
      {
        ghost var p := infile.pos;
        var currentLine := infile.ReadLine();
        if currentLine.None? || Strip(currentLine.value) == Delimiter {
          break;
        }
        assert !IsDelimiterLine(lines[p]);
        assert BlockEnd(lines, p) == BlockEnd(lines, p + 1);
        var line := RStripNewlines(currentLine.value);
        assert BlockText(lines, start, p + 1) == annotation + BlockLine(lines[p]);
        if line == "" {
          annotation := annotation + line;
        } else {
          annotation := annotation + (line + NewLine);
        }
      }
      block := annotation + NewLine;
    }

    /**
     * Rewrites each book's file in the table's order, merging in the blocks
     * of the existing file first when mergeOption is set.
     */
    method Write(fs: FileSystem) returns (ghost js: seq<Job>)
      requires Valid()
      modifies this`books, fs
      ensures Valid() && books.headers == old(books).headers
      ensures JobsOf(js, old(books).headers, outputPath, isAlnum, hash)
      ensures Output(books.blocks, fs.files) == WriteAll(Output(old(books).blocks, old(fs.files)), js, |js|, mergeOption)
    {
      ghost var hs := books.headers;
      ghost var o0 := Output(books.blocks, fs.files);
      ghost var mo := mergeOption;
      js := JobsExist(hs, outputPath, isAlnum, hash);
      var i := 0;
      while i < |books.headers|
        invariant books.headers == hs && i <= |hs|
        invariant PyFormat.Valid(books)
        invariant Output(books.blocks, fs.files) == WriteAll(o0, js, i, mo)
      {
        ghost var prev := Output(books.blocks, fs.files);
        WriteBookFile(fs, i, js);
        WriteAllNext(o0, js, i, prev, Output(books.blocks, fs.files), mo);
        i := i + 1;
      }
      assert i == |old(books).headers| && o0 == Output(old(books).blocks, old(fs.files));
    }

    /** One turn of _write's loop: the book's path, the merge if asked for, then the file. */
    method WriteBookFile(fs: FileSystem, i: nat, ghost js: seq<Job>)
      requires Valid() && i < |books.headers| && JobsOf(js, books.headers, outputPath, isAlnum, hash)
      modifies this`books, fs
      ensures Valid() && books.headers == old(books).headers
      ensures Output(books.blocks, fs.files) == WriteBook(Output(old(books).blocks, old(fs.files)), js[i], mergeOption)
    {
      ghost var before := Output(books.blocks, fs.files);
      var rawHeader := books.headers[i];
      assert js[i] == JobOf(rawHeader, outputPath, isAlnum, hash);
      var titleAuthor := GetTitleAuthor(rawHeader);
      var cleanTitle := CleanTitle(titleAuthor.title, isAlnum);
      var hashStr := DecimalString(hash(rawHeader));
      var outputFilename := cleanTitle + "_" + hashStr + ".txt";
      var fullpath := PathJoin(outputPath, outputFilename);
      assert fullpath == BookPath(outputPath, rawHeader, isAlnum, hash);
      if mergeOption && fullpath in fs.files {
        MergeWithExisting(fs, fullpath, rawHeader);
      } else {
        assert books.blocks == before.blocks[rawHeader := before.blocks[rawHeader]];
      }
      WriteFile(fs, fullpath, titleAuthor, books.blocks[rawHeader]);
    }

    /** The `with open(fullpath, "w")` block of _write: the title line, a blank line, then each block and a newline. */
    method WriteFile(fs: FileSystem, fullpath: string, titleAuthor: TitleAuthor, blocks: seq<string>)
      modifies fs
      ensures fs.files == old(fs.files)[fullpath := FileText(titleAuthor, blocks)]
    {
      ghost var files1 := fs.files;
      fs.Open(fullpath, false);
      fs.Write(fullpath, titleAuthor.title + ", " + titleAuthor.author + "\n\n");
      Rewritten(files1, fullpath, TitleLine(titleAuthor) + "\n\n");
      assert FileText(titleAuthor, blocks[..0]) == TitleLine(titleAuthor) + "\n\n" by {
        assert blocks[..0] == [];
      }
      var j := 0;
      while j < |blocks|
        invariant j <= |blocks|
        invariant fs.files == files1[fullpath := FileText(titleAuthor, blocks[..j])]
      {
        fs.Write(fullpath, blocks[j] + "\n");
        FileTextSnoc(titleAuthor, blocks, j);
        Appended(files1, fullpath, FileText(titleAuthor, blocks[..j]), blocks[j] + "\n");
        j := j + 1;
      }
      assert blocks[..j] == blocks;
    }

    /** Adds the normalised blocks of the book's existing file to the book, after its own. */
    method MergeWithExisting(fs: FileSystem, filepath: string, header: string)
      requires Valid() && filepath in fs.files && header in books.blocks
      modifies this`books
      ensures Valid()
      ensures books == old(books).(blocks := old(books).blocks[header := MergeBlocks(old(books).blocks[header], fs.files[filepath])])
    {
      var oldBlocks := ReadExistingBlocks(fs, filepath);
      ghost var own := books.blocks[header];
      ghost var b0 := books;
      var i := 0;
      while i < |oldBlocks|
        invariant i <= |oldBlocks|
        invariant books.headers == b0.headers
        invariant books.blocks == b0.blocks[header := AddAll(own, NormalizeAll(oldBlocks[..i]))]
      {
        var block := Normalize(oldBlocks[i]);
        books := books.(blocks := books.blocks[header := Add(books.blocks[header], block)]);
        MergeStep(own, oldBlocks, i);
        ReplaceTwice(b0.blocks, header, AddAll(own, NormalizeAll(oldBlocks[..i])), Add(AddAll(own, NormalizeAll(oldBlocks[..i])), block));
        i := i + 1;
      }
      assert oldBlocks[..i] == oldBlocks;
      AddAllSpec(own, NormalizeAll(oldBlocks));
      ValidReplace(b0, header, books.blocks[header]);
    }

    /** The blocks of an existing output file, after its title line and the blank line after it. */
    method ReadExistingBlocks(fs: FileSystem, filepath: string) returns (blocks: seq<string>)
      requires filepath in fs.files
      ensures blocks == ExistingBlocks(fs.files[filepath])
    {
      var content := Translate(fs.files[filepath]);
      var lines := SplitLines(content);
      var idx := 0;
      idx := idx + 1;
      if idx < |lines| && Strip(lines[idx]) == "" {
        idx := idx + 1;
      }
      var annotationLines := if idx <= |lines| then lines[idx..] else [];
      var annotationText := Join(annotationLines, "\n");
      blocks := SplitIntoBlocks(annotationText);
    }

    /**
     * Cuts text into blocks at its blank lines; each block is its lines
     * joined with '\n', and one more '\n'.
     */
    method SplitIntoBlocks(annotationText: string) returns (blocks: seq<string>)
      ensures blocks == SplitBlocks(annotationText)
      ensures forall i :: 0 <= i < |blocks| ==> BlockShape(blocks[i])
    {
      var lines := Split(annotationText, '\n');
      blocks := [];
      var currentBlock: seq<string> := [];
      for i := 0 to |lines|
        invariant Splitter(blocks, currentBlock) == FeedAll(Start, lines[..i])
      {
        var line := lines[i];
        FeedAllSnoc(Start, lines[..i], line);
        assert lines[..i + 1] == lines[..i] + [line];
        if Strip(line) == "" {
          if currentBlock != [] {
            var block := Join(currentBlock, "\n") + "\n";
            blocks := blocks + [block];
            currentBlock := [];
          }
        } else {
          currentBlock := currentBlock + [line];
        }
      }
      if currentBlock != [] {
        var block := Join(currentBlock, "\n") + "\n";
        blocks := blocks + [block];
      }
      assert lines[..|lines|] == lines;
      SplitBlocksShape(annotationText);
    }
  }

  /** One record read: the table built from the rest of the input is the same. */
  lemma ReadStep(lines: seq<string>, k: nat, isAlnum: char -> bool, raw: string, next: nat, before: Books)
    requires k < |lines| && HeaderOf(lines[k], isAlnum) != ""
    requires raw == Block(lines, k + 1, BlockEnd(lines, k + 1))
    requires next == if BlockEnd(lines, k + 1) < |lines| then BlockEnd(lines, k + 1) + 1 else BlockEnd(lines, k + 1)
    ensures next <= |lines|
    ensures Group(before, RecordsFrom(lines, k, isAlnum)) ==
      Group(Insert(before, Record(HeaderOf(lines[k], isAlnum), Normalize(raw))), RecordsFrom(lines, next, isAlnum))
  {
    var record := Record(HeaderOf(lines[k], isAlnum), Normalize(raw));
    RecordsFromStep(lines, k, isAlnum, record, next);
    GroupCons(before, record, RecordsFrom(lines, next, isAlnum));
  }

  /** Inserting a record by hand, as _read does, is Insert. */
  lemma InsertInPlace(b: Books, r: Record, after: Books)
    requires PyFormat.Valid(b)
    requires var b1 := if r.header !in b.blocks then Books(b.headers + [r.header], b.blocks[r.header := []]) else b;
      after == b1.(blocks := b1.blocks[r.header := Add(b1.blocks[r.header], r.block)])
    ensures after == Insert(b, r)
    ensures PyFormat.Valid(after)
  {
    var h := r.header;
    if h in b.blocks {
      assert h in b.headers;
      AddSpec(b.blocks[h], r.block);
    } else {
      assert h !in b.headers;
      ReplaceTwice(b.blocks, h, [], Add([], r.block));
      AddSpec(b.headers, h);
      AddSpec([], r.block);
    }
  }

  /** One more existing block merged in. */
  lemma MergeStep(own: seq<string>, blocks: seq<string>, i: nat)
    requires i < |blocks|
    ensures AddAll(own, NormalizeAll(blocks[..i + 1])) == Add(AddAll(own, NormalizeAll(blocks[..i])), Normalize(blocks[i]))
  {
    var xs := NormalizeAll(blocks[..i]);
    assert blocks[..i + 1][..i] == blocks[..i];
    assert NormalizeAll(blocks[..i + 1]) == xs + [Normalize(blocks[i])];
    assert (xs + [Normalize(blocks[i])])[..|xs|] == xs;
  }

  lemma ReplaceTwice<K, V>(m: map<K, V>, k: K, a: V, b: V)
    ensures m[k := a][k := b] == m[k := b]
  {
  }

  /** Replacing a book's blocks by distinct ones keeps the table valid. */
  lemma ValidReplace(b: Books, h: string, bs: seq<string>)
    requires PyFormat.Valid(b) && h in b.blocks && Distinct(bs)
    ensures PyFormat.Valid(b.(blocks := b.blocks[h := bs]))
  {
  }

  /** Opening a file for writing and writing `text` leaves exactly `text` in it. */
  lemma Rewritten(files: map<string, string>, path: string, text: string)
    ensures files[path := ""][path := files[path := ""][path] + text] == files[path := text]
  {
    assert "" + text == text;
  }

  /** Writing `more` to a file holding `text`. */
  lemma Appended(files: map<string, string>, path: string, text: string, more: string)
    ensures files[path := text][path := files[path := text][path] + more] == files[path := text + more]
  {
  }

  /** One more block written to a book's file. */
  lemma FileTextSnoc(ta: TitleAuthor, bs: seq<string>, j: nat)
    requires j < |bs|
    ensures FileText(ta, bs[..j + 1]) == FileText(ta, bs[..j]) + (bs[j] + "\n")
  {
    assert bs[..j + 1][..j] == bs[..j];
  }

  // ---------------------------------------------------------------------------
  // What _write does, book by book
  // ---------------------------------------------------------------------------

  /** The books' blocks and the file system, as _write updates them. */
  datatype Output = Output(blocks: map<string, seq<string>>, files: map<string, string>)

  /** A book to write: its header, the title and author its file starts with, and the path of the file. */
  datatype Job = Job(header: string, titleAuthor: TitleAuthor, path: string)

  /** The book of header `h`, with the title line and the path _write gives its file. */
  function JobOf(h: string, outputPath: string, isAlnum: char -> bool, hash: string -> int): Job
  {
    Job(h, GetTitleAuthor(h), BookPath(outputPath, h, isAlnum, hash))
  }

  /** `js` are the books of `hs`, in order. */
  ghost predicate JobsOf(js: seq<Job>, hs: seq<string>, outputPath: string, isAlnum: char -> bool, hash: string -> int)
  {
    && |js| == |hs|
    && forall i {:trigger JobOf(hs[i], outputPath, isAlnum, hash)} :: 0 <= i < |hs| ==> js[i] == JobOf(hs[i], outputPath, isAlnum, hash)
  }

  /** Every list of headers has its books. */
  lemma JobsExist(hs: seq<string>, outputPath: string, isAlnum: char -> bool, hash: string -> int) returns (js: seq<Job>)
    ensures JobsOf(js, hs, outputPath, isAlnum, hash)
  {
    js := seq(|hs|, i requires 0 <= i < |hs| => JobOf(hs[i], outputPath, isAlnum, hash));
  }


  /**
   * _write's loop body for one book: merge with the file at its path if
   * asked to and the file exists, then rewrite the file.
   */
  function WriteBook(o: Output, job: Job, merge: bool): Output
  {
    var merged := Merged(o, job, merge);
    Output(o.blocks[job.header := merged], o.files[job.path := FileText(job.titleAuthor, merged)])
  }

  /** The book's blocks after the optional merge with the file at its path. */
  function Merged(o: Output, job: Job, merge: bool): seq<string>
  {
    var own := if job.header in o.blocks then o.blocks[job.header] else [];
    if merge && job.path in o.files then MergeBlocks(own, o.files[job.path]) else own
  }

  /**
   * One book written: the book's blocks become the merged ones, its file is
   * created or replaced with the title line and those blocks, and no other
   * book or file changes.
   */
  lemma WriteBookSpec(o: Output, job: Job, merge: bool)
    ensures var r := WriteBook(o, job, merge);
      && r.blocks.Keys == o.blocks.Keys + {job.header} && r.files.Keys == o.files.Keys + {job.path}
      && r.blocks[job.header] == Merged(o, job, merge)
      && r.files[job.path] == FileText(job.titleAuthor, r.blocks[job.header])
      && (forall h :: h in o.blocks && h != job.header ==> r.blocks[h] == o.blocks[h])
      && (forall p :: p in o.files && p != job.path ==> r.files[p] == o.files[p])
  {
  }

  /** _write's loop over the first n jobs, in order. */
  function WriteAll(o: Output, js: seq<Job>, n: nat, merge: bool): (r: Output)
    requires n <= |js|
  {
    if n == 0 then o else WriteBook(WriteAll(o, js, n - 1, merge), js[n - 1], merge)
  }

  lemma WriteAllNext(o: Output, js: seq<Job>, i: nat, prev: Output, next: Output, merge: bool)
    requires i < |js|
    requires prev == WriteAll(o, js, i, merge)
    requires next == WriteBook(prev, js[i], merge)
    ensures next == WriteAll(o, js, i + 1, merge)
  {
  }

  /** No two jobs share a header or a file. */
  ghost predicate Separate(js: seq<Job>)
  {
    forall i, j :: 0 <= i < j < |js| ==> js[i].header != js[j].header && js[i].path != js[j].path
  }

  /**
   * Distinct headers get distinct files exactly when no two of them have
   * the same cleaned title and the same hash.
   */
  lemma JobsSeparate(js: seq<Job>, hs: seq<string>, outputPath: string, isAlnum: char -> bool, hash: string -> int)
    requires !isAlnum('/')
    requires Distinct(hs) && JobsOf(js, hs, outputPath, isAlnum, hash)
    ensures Separate(js) <==>
      forall i, j :: 0 <= i < j < |hs| ==>
        CleanTitle(GetTitleAuthor(hs[i]).title, isAlnum) != CleanTitle(GetTitleAuthor(hs[j]).title, isAlnum) || hash(hs[i]) != hash(hs[j])
  {
    forall i, j | 0 <= i < j < |hs|
      ensures js[i].header != js[j].header
      ensures js[i].path != js[j].path <==>
        CleanTitle(GetTitleAuthor(hs[i]).title, isAlnum) != CleanTitle(GetTitleAuthor(hs[j]).title, isAlnum) || hash(hs[i]) != hash(hs[j])
    {
      assert js[i] == JobOf(hs[i], outputPath, isAlnum, hash) && js[j] == JobOf(hs[j], outputPath, isAlnum, hash);
      BookPathCollision(outputPath, hs[i], hs[j], isAlnum, hash);
    }
  }

  /** A file no job writes is left as it was. */
  lemma {:induction false} WriteAllOtherFile(o: Output, js: seq<Job>, n: nat, p: string, merge: bool)
    requires n <= |js|
    requires forall j :: 0 <= j < n ==> js[j].path != p
    ensures var r := WriteAll(o, js, n, merge);
      (p in r.files <==> p in o.files) && (p in o.files ==> r.files[p] == o.files[p])
    decreases n
  {
    if n > 0 {
      WriteAllOtherFile(o, js, n - 1, p, merge);
    }
  }

  /** The blocks of a header no job names are left as they were. */
  lemma {:induction false} WriteAllOtherBook(o: Output, js: seq<Job>, n: nat, h: string, merge: bool)
    requires n <= |js|
    requires forall j :: 0 <= j < n ==> js[j].header != h
    ensures var r := WriteAll(o, js, n, merge);
      (h in r.blocks <==> h in o.blocks) && (h in o.blocks ==> r.blocks[h] == o.blocks[h])
    decreases n
  {
    if n > 0 {
      WriteAllOtherBook(o, js, n - 1, h, merge);
    }
  }

  /**
   * When no two jobs share a header or a file, each book ends up with its
   * own blocks, merged with the file that was at its path before the run
   * when merging is on, and its file holds the title line and exactly
   * those blocks.
   */
  lemma {:induction false} WriteAllBook(o: Output, js: seq<Job>, n: nat, j: nat, merge: bool)
    requires j < n <= |js|
    requires Separate(js)
    ensures var r, h, p := WriteAll(o, js, n, merge), js[j].header, js[j].path;
      && h in r.blocks && r.blocks[h] == Merged(o, js[j], merge)
      && p in r.files && r.files[p] == FileText(js[j].titleAuthor, Merged(o, js[j], merge))
    decreases n
  {
    if j == n - 1 {
      var prev := WriteAll(o, js, n - 1, merge);
      WriteAllOtherFile(o, js, n - 1, js[j].path, merge);
      WriteAllOtherBook(o, js, n - 1, js[j].header, merge);
      assert Merged(prev, js[j], merge) == Merged(o, js[j], merge);
    } else {
      WriteAllBook(o, js, n - 1, j, merge);
    }
  }

  /** Without merging, writing leaves every book's blocks as they were. */
  lemma {:induction false} WriteWithoutMergeKeepsBlocks(o: Output, js: seq<Job>, n: nat)
    requires n <= |js|
    requires forall j :: 0 <= j < n ==> js[j].header in o.blocks
    ensures WriteAll(o, js, n, false).blocks == o.blocks
    decreases n
  {
    if n > 0 {
      WriteWithoutMergeKeepsBlocks(o, js, n - 1);
    }
  }

  /**
   * Running the merge write a second time with the same books over the
   * files the first run wrote changes neither the files nor the books,
   * provided no two books share a file, each book's blocks are distinct and
   * normalised as _normalize_block leaves them, the title line has no line
   * break, and every block of the first run reads back as written.
   */
  lemma WriteTwiceStable(blocks: map<string, seq<string>>, files: map<string, string>, js: seq<Job>)
    requires Separate(js)
    requires forall j :: 0 <= j < |js| ==> js[j].header in blocks
    requires forall h :: h in blocks ==> Distinct(blocks[h])
    requires forall h, i :: h in blocks && 0 <= i < |blocks[h]| ==> Normalize(blocks[h][i]) == blocks[h][i]
    requires forall j :: 0 <= j < |js| ==> NoBoundary(js[j].titleAuthor.title) && NoBoundary(js[j].titleAuthor.author)
    requires var first := WriteAll(Output(blocks, files), js, |js|, true);
      forall h, i :: h in first.blocks && 0 <= i < |first.blocks[h]| ==> Reparsable(first.blocks[h][i])
    ensures var first := WriteAll(Output(blocks, files), js, |js|, true);
      WriteAll(Output(blocks, first.files), js, |js|, true) == first
  {
    var n := |js|;
    var o1 := Output(blocks, files);
    var first := WriteAll(o1, js, n, true);
    var o2 := Output(blocks, first.files);
    var second := WriteAll(o2, js, n, true);
    forall j | 0 <= j < n
      ensures var h := js[j].header; h in first.blocks && h in second.blocks && second.blocks[h] == first.blocks[h]
      ensures var p := js[j].path; p in first.files && p in second.files && second.files[p] == first.files[p]
    {
      var h, p, ta := js[j].header, js[j].path, js[j].titleAuthor;
      WriteAllBook(o1, js, n, j, true);
      WriteAllBook(o2, js, n, j, true);
      var m1 := Merged(o1, js[j], true);
      assert first.files[p] == FileText(ta, m1);
      assert Merged(o2, js[j], true) == MergeBlocks(blocks[h], FileText(ta, m1));
      if p in files {
        assert m1 == MergeBlocks(blocks[h], files[p]);
        MergeIsStable(blocks[h], files[p], ta);
      } else {
        assert m1 == blocks[h];
        MergeOwnFile(blocks[h], ta);
      }
    }
    forall h | !exists j :: 0 <= j < n && js[j].header == h
      ensures (h in second.blocks <==> h in first.blocks) && (h in first.blocks ==> second.blocks[h] == first.blocks[h])
    {
      WriteAllOtherBook(o1, js, n, h, true);
      WriteAllOtherBook(o2, js, n, h, true);
    }
    forall p | !exists j :: 0 <= j < n && js[j].path == p
      ensures (p in second.files <==> p in first.files) && (p in first.files ==> second.files[p] == first.files[p])
    {
      WriteAllOtherFile(o1, js, n, p, true);
      WriteAllOtherFile(o2, js, n, p, true);
    }
    assert second.blocks == first.blocks;
    assert second.files == first.files;
  }

  /**
   * Two merge runs in separate processes, whose salted hashes of a header
   * differ: the second run does not find the first run's file, so it merges
   * nothing and writes the book to a second file, leaving the first one as
   * it was.
   */
  lemma SaltedHashSplitsFiles(blocks: map<string, seq<string>>, files: map<string, string>, h: string,
                              outputPath: string, isAlnum: char -> bool, hash1: string -> int, hash2: string -> int)
    requires !isAlnum('/') && h in blocks && hash1(h) != hash2(h)
    requires JobOf(h, outputPath, isAlnum, hash2).path !in files
    ensures var job1, job2 := JobOf(h, outputPath, isAlnum, hash1), JobOf(h, outputPath, isAlnum, hash2);
      var first := WriteAll(Output(blocks, files), [job1], 1, true);
      var second := WriteAll(Output(blocks, first.files), [job2], 1, true);
      && job1.path != job2.path
      && second.files.Keys == first.files.Keys + {job2.path}
      && second.files[job1.path] == first.files[job1.path]
      && second.blocks[h] == blocks[h]
      && second.files[job2.path] == FileText(job2.titleAuthor, blocks[h])
  {
    var job1, job2 := JobOf(h, outputPath, isAlnum, hash1), JobOf(h, outputPath, isAlnum, hash2);
    BookPathOfHash(outputPath, h, isAlnum, hash1, hash2);
    var o1 := Output(blocks, files);
    WriteOne(o1, job1, true);
    var first := WriteBook(o1, job1, true);
    WriteBookSpec(o1, job1, true);
    var o2 := Output(blocks, first.files);
    WriteOne(o2, job2, true);
    var second := WriteBook(o2, job2, true);
    WriteBookSpec(o2, job2, true);
    assert Merged(o2, job2, true) == blocks[h];
    assert second.files[job1.path] == first.files[job1.path];
  }

  /** A run over one job is that job's write. */
  lemma WriteOne(o: Output, job: Job, merge: bool)
    ensures WriteAll(o, [job], 1, merge) == WriteBook(o, job, merge)
  {
    assert WriteAll(o, [job], 0, merge) == o;
  }
}
