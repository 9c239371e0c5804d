/**
 * The Java AnnotationParser object: it reads a clippings file into its book
 * map, then writes one file per book. The reader, the book map and the file
 * system are updated in place, as in the source.
 */
module JavaAnnotationParser {
  import opened Wrappers
  import opened Files
  import opened Text
  import opened Decimal
  import opened JavaHash
  import opened OrderedSets
  import opened JavaFormat

  /** The exception read raises when the input file does not exist. */
  datatype IOError = FileNotFound(path: string)

  class AnnotationParser {
    const inputPath: string
    const outputPath: string
    /** true: append to an existing output file; false: replace it. */
    const mergeOption: bool
    /** System.lineSeparator() */
    const newLine: string
    /** Character.isLetterOrDigit */
    const isLetterOrDigit: char -> bool
    /** Maps each book's title key to its annotations. */
    var bookContentMap: map<string, string>

    constructor (inputPath: string, outputPath: string, mergeOption: bool, newLine: string, isLetterOrDigit: char -> bool)
      ensures this.inputPath == inputPath && this.outputPath == outputPath && this.mergeOption == mergeOption
      ensures this.newLine == newLine && this.isLetterOrDigit == isLetterOrDigit
      ensures bookContentMap == map[]
    {
      this.inputPath := inputPath;
      this.outputPath := outputPath;
      this.mergeOption := mergeOption;
      this.newLine := newLine;
      this.isLetterOrDigit := isLetterOrDigit;
      bookContentMap := map[];
    }

    /** Reads the input, then writes the output files. Nothing is written if the input is missing. */
    method Parse(fs: FileSystem) returns (r: Outcome<IOError>, ghost order: seq<string>)
      modifies this`bookContentMap, fs
      ensures inputPath !in old(fs.files) ==>
        r == Fail(FileNotFound(inputPath)) && fs.files == old(fs.files) && bookContentMap == old(bookContentMap)
      ensures inputPath in old(fs.files) ==>
        && r == Pass
        && bookContentMap == Aggregate(old(bookContentMap), Records(JavaLines(old(fs.files)[inputPath]), isLetterOrDigit, newLine))
        && Distinct(order) && (forall k :: k in order <==> k in bookContentMap)
        && fs.files == Apply(old(fs.files), BookWrites(bookContentMap, order, outputPath, newLine), mergeOption)
    {
      order := [];
      r := Read(fs);
      if r.Pass? {
        order := Write(fs);
      }
    }

    /** Returns the number of books parsed. */
    method NumberOfBooks() returns (n: nat)
      ensures n == |bookContentMap|
    {
      n := |bookContentMap|;
    }

    /** Reads the input file, merging each record's annotation into the book map. */
    method Read(fs: FileSystem) returns (r: Outcome<IOError>)
      modifies this`bookContentMap
      ensures inputPath !in fs.files ==> r == Fail(FileNotFound(inputPath)) && bookContentMap == old(bookContentMap)
      ensures inputPath in fs.files ==>
        r == Pass && bookContentMap == Aggregate(old(bookContentMap), Records(JavaLines(fs.files[inputPath]), isLetterOrDigit, newLine))
    {
      if inputPath !in fs.files {
        return Fail(FileNotFound(inputPath));
      }
      var input := new LineReader(JavaLines(fs.files[inputPath]));
      ghost var lines := input.lines;
      ghost var m0 := bookContentMap;
      ghost var k := 0;
      var line := input.ReadLine();
      while line.Some?
        invariant input.Valid() && input.lines == lines && k <= |lines|
        invariant k < |lines| ==> line == Some(lines[k]) && input.pos == k + 1
        invariant k == |lines| ==> line == None && input.pos == k
        invariant ReadFrom(bookContentMap, lines, k, isLetterOrDigit, newLine) == ReadFrom(m0, lines, 0, isLetterOrDigit, newLine)
        decreases |lines| - k
      {
        var key := line.value;
        if key != "" && !isLetterOrDigit(key[0]) {
          key := key[1..];
        }
        var annotation := GetAnnotation(input);
        ReadFromStep(bookContentMap, lines, k, isLetterOrDigit, newLine, key, annotation, input.pos);
        bookContentMap := Merge(bookContentMap, Record(key, annotation));
        k := input.pos;
        line := input.ReadLine();
      }
      ReadFromAggregates(m0, lines, 0, isLetterOrDigit, newLine);
      r := Pass;
    }

    /**
     * Reads the lines of one clipping after its title line, up to and
     * including the delimiter line or to the end of the input.
     */
    method GetAnnotation(input: LineReader) returns (annotation: string)
      requires input.Valid()
      modifies input
      ensures input.Valid()
      ensures var e := BodyEnd(input.lines, old(input.pos));
        && annotation == Annotation(input.lines, old(input.pos), e, newLine)
        && input.pos == (if e < |input.lines| then e + 1 else e)
    {
      ghost var start := input.pos;
      ghost var lines := input.lines;
      annotation := "";
      var currentLine := input.ReadLine();
      ghost var k := start;
      while currentLine.Some? && currentLine.value != Delimiter
        invariant input.Valid() && input.lines == lines && start <= k <= |lines|
        invariant k < |lines| ==> currentLine == Some(lines[k]) && input.pos == k + 1
        invariant k == |lines| ==> currentLine == None && input.pos == k
        invariant BodyEnd(lines, start) == BodyEnd(lines, k)
        invariant annotation == BodyText(lines, start, k, newLine)
        decreases |lines| - k
      {
        if currentLine.value == "" {
          annotation := annotation + currentLine.value;
        } else {
          annotation := annotation + (currentLine.value + newLine);
        }
        currentLine := input.ReadLine();
        k := k + 1;
      }
      annotation := annotation + newLine;
    }

    /**
     * Writes each book of the book map to its own file, in the map's
     * (unspecified) iteration order, which is returned as `order`.
     */
    method Write(fs: FileSystem) returns (ghost order: seq<string>)
      modifies fs
      ensures Distinct(order) && (forall k :: k in order <==> k in bookContentMap)
      ensures fs.files == Apply(old(fs.files), BookWrites(bookContentMap, order, outputPath, newLine), mergeOption)
    {
      ghost var files0 := fs.files;
      var remaining := bookContentMap.Keys;
      order := [];
      while remaining != {}
        invariant remaining <= bookContentMap.Keys
        invariant forall k :: k in order <==> k in bookContentMap && k !in remaining
        invariant Distinct(order)
        invariant fs.files == Apply(files0, BookWrites(bookContentMap, order, outputPath, newLine), mergeOption)
        decreases remaining
      {
        var currentBook :| currentBook in remaining;
        var titleAuthor := GetTitleAuthor(currentBook);
        var cleanTitle := CleanTitle(titleAuthor.title);
        var outputName := outputPath + cleanTitle + "_" + DecimalString(HashCode(currentBook)) + ".txt";
        ghost var before := fs.files;
        fs.Open(outputName, mergeOption);
        fs.Write(outputName, titleAuthor.title + ", " + titleAuthor.author + newLine);
        fs.Write(outputName, newLine);
        fs.Write(outputName, bookContentMap[currentBook] + newLine);
        fs.Write(outputName, newLine);
        WriteBookStep(files0, bookContentMap, order, currentBook, outputPath, mergeOption, newLine, before, fs.files);
        order := order + [currentBook];
        remaining := remaining - {currentBook};
      }
    }
  }

  /** One file written by write: its name and the text written to it. */
  datatype FileWrite = FileWrite(name: string, text: string)

  /** The file writes for the books in `order`, one per book, in that order. */
  function BookWrites(books: map<string, string>, order: seq<string>, outputPath: string, newLine: string): (ws: seq<FileWrite>)
    requires forall k :: k in order ==> k in books
    ensures |ws| == |order|
    decreases |order|
  {
    if order == [] then []
    else
      var k := order[|order| - 1];
      BookWrites(books, order[..|order| - 1], outputPath, newLine) + [BookWrite(books, k, outputPath, newLine)]
  }

  /** The write for one book: its output name and its header and annotations. */
  function BookWrite(books: map<string, string>, key: string, outputPath: string, newLine: string): FileWrite
    requires key in books
  {
    FileWrite(OutputName(outputPath, key), BookText(key, books[key], newLine))
  }

  /** The i-th write is the i-th book's. */
  lemma {:induction false} BookWritesAt(books: map<string, string>, order: seq<string>, outputPath: string, newLine: string, i: nat)
    requires forall k :: k in order ==> k in books
    requires i < |order|
    ensures BookWrites(books, order, outputPath, newLine)[i] == BookWrite(books, order[i], outputPath, newLine)
    decreases |order|
  {
    if i < |order| - 1 {
      BookWritesAt(books, order[..|order| - 1], outputPath, newLine, i);
    }
  }

  /** The files after `text` is written to `name`: appended when `append`, replacing the file otherwise. */
  function Written(files: map<string, string>, w: FileWrite, append: bool): (r: map<string, string>)
    ensures r.Keys == files.Keys + {w.name}
    ensures append && w.name in files ==> r[w.name] == files[w.name] + w.text
    ensures !(append && w.name in files) ==> r[w.name] == w.text
    ensures forall p :: p in files && p != w.name ==> r[p] == files[p]
  {
    files[w.name := (if append && w.name in files then files[w.name] else "") + w.text]
  }

  /**
   * What write's loop body does to the files (open the book's file, then
   * write the header line, a blank line, the annotations and a blank line)
   * extends the writes done so far by the book's write.
   */
  lemma WriteBookStep(files0: map<string, string>, books: map<string, string>, order: seq<string>, key: string,
                      outputPath: string, merge: bool, newLine: string, before: map<string, string>, after: map<string, string>)
    requires forall k :: k in order ==> k in books
    requires key in books
    requires before == Apply(files0, BookWrites(books, order, outputPath, newLine), merge)
    requires var name, ta := OutputName(outputPath, key), GetTitleAuthor(key);
      var base := if merge && name in before then before[name] else "";
      var f1 := before[name := base];
      var f2 := f1[name := f1[name] + (ta.title + ", " + ta.author + newLine)];
      var f3 := f2[name := f2[name] + newLine];
      var f4 := f3[name := f3[name] + (books[key] + newLine)];
      after == f4[name := f4[name] + newLine]
    ensures after == Apply(files0, BookWrites(books, order + [key], outputPath, newLine), merge)
  {
    var ta := GetTitleAuthor(key);
    BookTextInParts(key, books[key], newLine);
    FourWrites(before, OutputName(outputPath, key), merge, ta.title + ", " + ta.author + newLine, newLine, books[key] + newLine, newLine);
    var order' := order + [key];
    assert order'[..|order'| - 1] == order;
  }

  /** Opening a file and writing four pieces to it is one write of their concatenation. */
  lemma FourWrites(files: map<string, string>, name: string, append: bool, t1: string, t2: string, t3: string, t4: string)
    ensures var base := if append && name in files then files[name] else "";
      var f1 := files[name := base];
      var f2 := f1[name := f1[name] + t1];
      var f3 := f2[name := f2[name] + t2];
      var f4 := f3[name := f3[name] + t3];
      f4[name := f4[name] + t4] == Written(files, FileWrite(name, t1 + t2 + t3 + t4), append)
  {
    var base := if append && name in files then files[name] else "";
    assert base + t1 + t2 + t3 + t4 == base + (t1 + t2 + t3 + t4);
  }

  /** The files after the writes, in order. */
  function Apply(files: map<string, string>, ws: seq<FileWrite>, append: bool): map<string, string>
    decreases |ws|
  {
    if ws == [] then files else Written(Apply(files, ws[..|ws| - 1], append), ws[|ws| - 1], append)
  }

  /** The names written to. */
  function Names(ws: seq<FileWrite>): (names: set<string>)
    ensures forall i :: 0 <= i < |ws| ==> ws[i].name in names
    ensures forall p :: p in names ==> exists i :: 0 <= i < |ws| && ws[i].name == p
    decreases |ws|
  {
    if ws == [] then {} else Names(ws[..|ws| - 1]) + {ws[|ws| - 1].name}
  }

  /** Exactly the old files and the written names exist afterwards; a file nobody writes to is left as it was. */
  lemma {:induction false} ApplyUntouched(files: map<string, string>, ws: seq<FileWrite>, append: bool)
    ensures Apply(files, ws, append).Keys == files.Keys + Names(ws)
    ensures forall p :: p in files && p !in Names(ws) ==> Apply(files, ws, append)[p] == files[p]
    decreases |ws|
  {
    if ws != [] {
      ApplyUntouched(files, ws[..|ws| - 1], append);
    }
  }

  /** A name written once ends up with that write's text, after the old contents when appending. */
  lemma {:induction false} ApplyOwnFile(files: map<string, string>, ws: seq<FileWrite>, append: bool, i: nat)
    requires i < |ws|
    requires forall j :: 0 <= j < |ws| && j != i ==> ws[j].name != ws[i].name
    ensures var name, result := ws[i].name, Apply(files, ws, append);
      name in result && result[name] == (if append && name in files then files[name] else "") + ws[i].text
    decreases |ws|
  {
    var init := ws[..|ws| - 1];
    if i == |ws| - 1 {
      ApplyUntouched(files, init, append);
      assert ws[i].name !in Names(init);
    } else {
      ApplyOwnFile(files, init, append, i);
    }
  }

  /** When appending, every old file's contents stay a prefix of its new contents. */
  lemma {:induction false} ApplyAppendOnly(files: map<string, string>, ws: seq<FileWrite>)
    ensures var result := Apply(files, ws, true);
      forall p :: p in files ==> p in result && files[p] <= result[p]
    decreases |ws|
  {
    if ws != [] {
      ApplyAppendOnly(files, ws[..|ws| - 1]);
    }
  }

  /** For each name, the text of the last write to it. */
  function LastWritten(ws: seq<FileWrite>): map<string, string>
    decreases |ws|
  {
    if ws == [] then map[] else LastWritten(ws[..|ws| - 1])[ws[|ws| - 1].name := ws[|ws| - 1].text]
  }

  /** When replacing, each written file holds just the text of the last write to it. */
  lemma {:induction false} ApplyReplaces(files: map<string, string>, ws: seq<FileWrite>)
    ensures Apply(files, ws, false) == files + LastWritten(ws)
    decreases |ws|
  {
    if ws != [] {
      var init, w := ws[..|ws| - 1], ws[|ws| - 1];
      ApplyReplaces(files, init);
      var last := LastWritten(init);
      assert (files + last)[w.name := w.text] == files + last[w.name := w.text];
    }
  }

  /** When replacing, doing the writes a second time leaves exactly the files of the first time. */
  lemma OverwriteTwice(files: map<string, string>, ws: seq<FileWrite>)
    ensures Apply(Apply(files, ws, false), ws, false) == Apply(files, ws, false)
  {
    var last := LastWritten(ws);
    ApplyReplaces(files, ws);
    ApplyReplaces(files + last, ws);
    assert (files + last) + last == files + last;
  }

  /**
   * When appending, a file written once per run holds, after two runs, its
   * old contents followed by the written text twice.
   */
  lemma MergeTwice(files: map<string, string>, ws: seq<FileWrite>, i: nat)
    requires i < |ws|
    requires forall j :: 0 <= j < |ws| && j != i ==> ws[j].name != ws[i].name
    ensures var name, twice := ws[i].name, Apply(Apply(files, ws, true), ws, true);
      name in twice && twice[name] == (if name in files then files[name] else "") + ws[i].text + ws[i].text
  {
    ApplyOwnFile(files, ws, true, i);
    ApplyOwnFile(Apply(files, ws, true), ws, true, i);
  }

  /**
   * A book whose file name no other book shares gets a file holding its
   * header and annotations: after the old contents when merging, alone
   * otherwise.
   */
  lemma BookFile(files: map<string, string>, books: map<string, string>, order: seq<string>,
                 outputPath: string, merge: bool, newLine: string, key: string)
    requires forall k :: k in order ==> k in books
    requires Distinct(order) && key in order
    requires forall k :: k in order && k != key ==> OutputName(outputPath, k) != OutputName(outputPath, key)
    ensures var name := OutputName(outputPath, key);
      var result := Apply(files, BookWrites(books, order, outputPath, newLine), merge);
      name in result &&
      result[name] == (if merge && name in files then files[name] else "") + BookText(key, books[key], newLine)
  {
    var ws := BookWrites(books, order, outputPath, newLine);
    var i :| 0 <= i < |order| && order[i] == key;
    forall j | 0 <= j < |ws| && j != i
      ensures ws[j].name != ws[i].name
    {
      BookWritesAt(books, order, outputPath, newLine, i);
      BookWritesAt(books, order, outputPath, newLine, j);
    }
    BookWritesAt(books, order, outputPath, newLine, i);
    ApplyOwnFile(files, ws, merge, i);
  }
}
