# Kindle clippings parser, modelled in Dafny

The program reads a Kindle "My Clippings.txt" export and regroups it into one
text file per book. Two engines do this, and both are modelled here.

- **The Java class `AnnotationParser`** (`src/AnnotationParser.java`).
  - `read` walks the input with `readLine`. Each title line loses at most one
    leading marker character and becomes a key.
  - `getAnnotation` collects the body lines up to the `==========` line.
    Empty lines are dropped, every other line is followed by the line
    separator, and one more separator closes the body.
  - The bodies are folded into a `HashMap` by concatenation.
  - `write` splits each key at its last `(`…`)` pair into title and author.
    It names the file after the title, cut down to `[a-zA-Z0-9._ -]` and 112
    characters, plus `"_" + key.hashCode() + ".txt"`. It appends to that file
    or replaces it.
- **The Python port** (`annotation_parser.py`).
  - The tokenizer is the same, except that the delimiter is recognised after
    `strip()` and an empty header is skipped.
  - Each block is normalised (`rstrip()` plus one `"\n"`).
  - Every book keeps an insertion-ordered set of distinct blocks.
  - In merge mode `_write` reads the book's previous output file back,
    splits it into blocks, adds those blocks after the new ones without
    duplicates, and rewrites the file.

How the program's state is represented:

- The file system is an object holding a map from path to contents (`Files.FileSystem`).
- An open input file is an object holding the lines `readLine`/`readline`
  would return, plus a position (`Files.LineReader`).
- `JavaLines` gives Java's line splitting (`\n`, `\r` or `\r\n`).
- `PyLines` gives Python's universal-newline `readline`, with each line keeping its `"\n"`.
- Each parser is a class whose book table is a field updated in place.
- The loops of `read`/`_read`, `getAnnotation`/`_read_block`, `write`/`_write`
  and `_split_into_blocks` are `while` loops. Each is proved against a
  specification function:
  - `JavaFormat.RecordsFrom` / `JavaFormat.Aggregate`;
  - `PyFormat.RecordsFrom` / `PyFormat.Group`;
  - `JavaAnnotationParser.Apply` / `BookWrites`;
  - `PyAnnotationParser.WriteAll`;
  - `PyBlocks.FeedAll`.

  Lemmas state the program's properties about those functions.

`getAnnotation` returns the body followed by one more separator
(src/AnnotationParser.java:140), and `_normalize_block` ends every block with
one `"\n"` that `_write` follows with another (annotation_parser.py:244 and
:147). So two highlights of one book are separated by a blank line in the
output of both engines.

"Line boundary" below means a character at which Python's `str.splitlines`
cuts: `\n`, `\r`, `\v`, `\f`, `\x1c`, `\x1d`, `\x1e`, `\x85`, `\u2028` or
`\u2029`.

## Model

| member | source | states |
|---|---|---|
| JavaAnnotationParser.AnnotationParser.constructor | src/AnnotationParser.java:14-23 | the paths and the merge switch are stored and the book map starts empty |
| JavaAnnotationParser.AnnotationParser.Parse | src/AnnotationParser.java:29-36 | a missing input fails with FileNotFound and writes nothing; otherwise the map is the fold of the input's records and the files are the old files after one write per book, each book exactly once |
| JavaAnnotationParser.AnnotationParser.NumberOfBooks | src/AnnotationParser.java:42-45 | returns the number of keys in the book map |
| JavaAnnotationParser.AnnotationParser.Read | src/AnnotationParser.java:53-75 | a missing input fails and leaves the map alone; otherwise the new map is the old one with every record of the input merged in input order |
| JavaAnnotationParser.AnnotationParser.GetAnnotation | src/AnnotationParser.java:128-141 | consumes the lines up to and including the first `==========` line, or to the end of input, and returns the annotation of the lines before it |
| JavaAnnotationParser.AnnotationParser.Write | src/AnnotationParser.java:83-119 | visits every key of the map exactly once, in some order, and the files are the old files after that book's write at each step |
| JavaAnnotationParser.BookWritesAt | src/AnnotationParser.java:90-111 | the i-th write goes to the i-th visited key's output name, with its header and annotations |
| JavaAnnotationParser.Written | src/AnnotationParser.java:104 | opening with append keeps the old contents as a prefix; otherwise only the new text remains; no other file changes |
| JavaAnnotationParser.WriteBookStep | src/AnnotationParser.java:100-111 | one turn of write's loop (open, then four writes) extends the writes so far by that book's write |
| JavaAnnotationParser.FourWrites | src/AnnotationParser.java:104-111 | opening a file and writing four strings is one write of their concatenation |
| JavaAnnotationParser.Names | src/AnnotationParser.java:100 | the written names are exactly the names of the writes |
| JavaAnnotationParser.ApplyUntouched | src/AnnotationParser.java:90-118 | afterwards the files are the old ones plus the written names, and a file no book writes to is unchanged |
| JavaAnnotationParser.ApplyOwnFile | src/AnnotationParser.java:104-111 | a name written once holds its write's text, after the old contents when appending |
| JavaAnnotationParser.ApplyAppendOnly | src/AnnotationParser.java:104 | with mergeOption every old file's contents stay a prefix of its new contents |
| JavaAnnotationParser.ApplyReplaces | src/AnnotationParser.java:104 | without mergeOption each written file holds just the text of its last write |
| JavaAnnotationParser.OverwriteTwice | src/AnnotationParser.java:104 | without mergeOption running the writes twice gives the files of one run |
| JavaAnnotationParser.MergeTwice | src/AnnotationParser.java:104 | with mergeOption a file written once per run holds, after two runs, its old contents and then the text twice |
| JavaAnnotationParser.BookFile | src/AnnotationParser.java:100-111 | a book whose output name is its own gets its header and annotations, after the old contents when merging |
| JavaFormat.TitleKey | src/AnnotationParser.java:64-65 | at most one character is dropped, the first, exactly when the line is non-empty and starts with a non letter or digit; an empty line stays the key "" |
| JavaFormat.BodyEndSpec | src/AnnotationParser.java:134 | the body ends at the first line equal to `==========`, so no body line is the delimiter, or at the end of input |
| JavaFormat.BodyTextSplit | src/AnnotationParser.java:135-138 | the annotation text is additive over the body lines |
| JavaFormat.BlankLineAddsNothing | src/AnnotationParser.java:135-136 | an empty body line contributes no characters wherever it stands |
| JavaFormat.BodyTextShift | src/AnnotationParser.java:134-138 | the annotation depends only on the body lines, not on where they stand in the input |
| JavaFormat.RecordsFromStep | src/AnnotationParser.java:61-66 | one step of the tokenizer: the record at a title line, then tokenizing resumes after its delimiter |
| JavaFormat.RecordsOfEntries | src/AnnotationParser.java:61-68 | an input made of clippings whose bodies hold no delimiter tokenizes back into exactly those clippings' keys and annotations |
| JavaFormat.Records | src/AnnotationParser.java:53-75 | read's tokenizer finds no record exactly when the input has no line, and the first record's key is the first line's title key |
| JavaFormat.UnterminatedRecord | src/AnnotationParser.java:134-140 | a last clipping without a delimiter takes the lines to the end of input |
| JavaFormat.AggregateCons | src/AnnotationParser.java:66 | merging the first record and then the rest is merging them all |
| JavaFormat.ReadFromStep | src/AnnotationParser.java:61-66 | one turn of read's loop merges the record at the current title line |
| JavaFormat.ReadFromAggregates | src/AnnotationParser.java:61-68 | reading record by record is the fold of the record sequence into the map |
| JavaFormat.BodiesOfAbsentKey | src/AnnotationParser.java:66 | a key with no record has no annotation text |
| JavaFormat.AggregateSpec | src/AnnotationParser.java:66 | the keys are the old keys and the record keys; a key seen at records i1 < i2 < ... maps to its old text then body(i1) + body(i2) + ... |
| JavaFormat.BookCountIsDistinctKeys | src/AnnotationParser.java:42-45 | numberOfBooks after one read is the number of distinct title keys |
| JavaFormat.GetTitleAuthor | src/AnnotationParser.java:150-172 | the title is a prefix of the key; a title equal to the key has no author; the author holds no '(' |
| JavaFormat.TitleIsKeyIffNoGroup | src/AnnotationParser.java:158-168 | the title is the whole key exactly when the last '(' is at 0 or missing or no ')' follows it |
| JavaFormat.TitleAuthorOfHeader | src/AnnotationParser.java:154-162 | "title" + one character + "(author)" + a tail without parentheses splits into that title and author, whatever parentheses the title holds |
| JavaFormat.LastGroupWins | src/AnnotationParser.java:154-162 | "A (b) (c)" splits into title "A (b)" and author "c" |
| JavaFormat.CleanTitle | src/AnnotationParser.java:95-98 | the clean title holds only characters of [a-zA-Z0-9._ -], at most 112 of them, is a prefix of the filtered title and all of it when that fits |
| JavaFormat.OutputName | src/AnnotationParser.java:100 | the name starts with the output path as given, with no separator added, and ends in ".txt" |
| JavaFormat.SplitAtLastUnderscore | src/AnnotationParser.java:100 | a name with a '_' followed by no other '_' comes apart at that '_' in one way only |
| JavaFormat.NamePartsEqual | src/AnnotationParser.java:100 | equal output names have equal clean titles and equal hash texts |
| JavaFormat.OutputNameCollision | src/AnnotationParser.java:100 | two keys share an output file exactly when their clean titles and their hash codes are equal |
| JavaFormat.BookTextInParts | src/AnnotationParser.java:108-111 | a book's file text is "title, author" + NL, NL, the annotations + NL, NL |
| JavaHash.Wrap | src/AnnotationParser.java:100 | the result is a Java int congruent to the argument modulo 2^32 |
| JavaHash.HashCode | src/AnnotationParser.java:100 | String.hashCode is a Java int |
| JavaHash.WrapCongruent | src/AnnotationParser.java:100 | numbers congruent modulo 2^32 wrap to the same int |
| JavaHash.HashCodeIsWrappedPolynomial | src/AnnotationParser.java:100 | the step-by-step int hash equals the documented polynomial s[0]*31^(n-1) + ... + s[n-1] wrapped to 32 bits |
| Decimal.DigitChar | src/AnnotationParser.java:100 | a digit is rendered as its character |
| Decimal.NatDigits | src/AnnotationParser.java:100 | a natural number renders as decimal digits without a leading zero |
| Decimal.DecimalString | src/AnnotationParser.java:100 | the rendering of an int is digits with a leading '-' exactly for negatives |
| Decimal.DigitsValueOfNatDigits | src/AnnotationParser.java:100 | the digits of n read back as n |
| Decimal.ParseDecimalString | src/AnnotationParser.java:100 | reading the rendering of an int gives the int back |
| Decimal.DecimalStringInjective | annotation_parser.py:134 | distinct ints render differently |
| Text.LastIndexOf | src/AnnotationParser.java:154-156 | the result is -1 or an index of the string |
| Text.LastIndexBefore | src/AnnotationParser.java:154-156 | the result is -1 or an index below the bound |
| Text.LastIndexBeforeSpec | src/AnnotationParser.java:154-156 | -1 exactly when the character is absent from the first n characters, otherwise an occurrence with none after it |
| Text.LastIndexOfSpec | annotation_parser.py:250-251 | -1 exactly when the character is absent, otherwise its last occurrence |
| Text.Filter | src/AnnotationParser.java:95 | no longer than the input |
| Text.FilterSpec | src/AnnotationParser.java:95 | every kept character passes the test and each passing character is kept as often as it occurs |
| Text.FilterAppend | annotation_parser.py:132 | filtering distributes over concatenation, so kept characters keep their order |
| Text.Take | src/AnnotationParser.java:98 | a prefix of length min(len, n) |
| Text.RStripSpec | annotation_parser.py:242 | rstrip() removes exactly the trailing whitespace |
| Text.LStripSpec | annotation_parser.py:253-254 | lstrip() removes exactly the leading whitespace |
| Text.StripEmptyIffAllSpace | annotation_parser.py:209 | strip() leaves "" exactly when every character is whitespace |
| Text.StripStripped | annotation_parser.py:253-256 | stripping a string without surrounding whitespace changes nothing |
| Text.StripIsStripped | annotation_parser.py:253-256 | strip() leaves no whitespace at either end |
| Text.StripTrailingSpace | annotation_parser.py:253 | a stripped string with one whitespace character after it strips back to itself |
| Text.RStripNewlinesSpec | annotation_parser.py:105 | rstrip('\r\n') removes exactly the trailing carriage returns and line feeds |
| Text.Split | annotation_parser.py:204 | split always gives at least one piece |
| Text.SplitSpec | annotation_parser.py:204 | no piece of a split holds the separator |
| Text.JoinSplit | annotation_parser.py:204 | joining the pieces of a split gives the string back |
| Text.SplitNoSep | annotation_parser.py:204 | a string without the separator splits into itself |
| Text.SplitAfterLine | annotation_parser.py:204 | a split cuts at a separator after a separator-free line |
| Text.SplitJoin | annotation_parser.py:179 | splitting a join of separator-free lines gives the lines back |
| Text.JoinAppend | annotation_parser.py:213 | a join over a concatenation is the two joins around a separator |
| OrderedSets.DistinctSize | annotation_parser.py:41-43 | a list without repeats has as many elements as its set |
| OrderedSets.FirstIndex | annotation_parser.py:87 | the first position of an element |
| OrderedSets.FirstIndexOfPrefix | annotation_parser.py:87 | an element's first position is found in the prefix that holds it |
| OrderedSets.AddAllSpec | annotation_parser.py:87 | setdefault over a list keeps the old keys as a prefix, repeats nothing and holds exactly the old and the added elements |
| OrderedSets.AddAllExtends | annotation_parser.py:159 | setdefault over a list keeps the old keys as a prefix, whether or not they are distinct |
| OrderedSets.AddAllFirstSeenOrder | annotation_parser.py:83-87 | keys come out in order of their first occurrence |
| OrderedSets.AddAllConcat | annotation_parser.py:157-159 | adding two lists is adding one after the other |
| OrderedSets.AddAllPresent | annotation_parser.py:159 | adding keys already present changes nothing |
| OrderedSets.AddAllFresh | annotation_parser.py:159 | adding new distinct keys appends them |
| OrderedSets.AddAllAbsorbs | annotation_parser.py:157-159 | merging the result of a merge into the same start again changes nothing |
| Files.FileSystem.Open | src/AnnotationParser.java:104 | opening for append keeps the file, otherwise truncates it; no other file changes |
| Files.FileSystem.Write | annotation_parser.py:144-147 | the text is added at the end of the file; no other file changes |
| Files.LineReader.ReadLine | src/AnnotationParser.java:61 | the next line and one step on, or None at the end of input |
| Files.LineEnd | src/AnnotationParser.java:61 | the first line ends inside the string |
| Files.LineEndSpec | src/AnnotationParser.java:61 | the first line ends at the first '\n' or '\r' |
| Files.JavaLinesAreLineTexts | src/AnnotationParser.java:61 | no line readLine returns holds a terminator |
| Files.JavaLinesOfUnlines | src/AnnotationParser.java:134 | readLine gives back the lines of a file of terminator-free lines |
| Files.TranslateWithoutCarriageReturn | annotation_parser.py:168-169 | text-mode reading leaves text without '\r' unchanged |
| Files.SplitKeepEnds | annotation_parser.py:64 | no more lines than characters |
| Files.SplitKeepEndsSpec | annotation_parser.py:64 | readline returns no empty line before EOF, '\n' only at a line's end, and every line but the last ends in '\n' |
| Files.SplitKeepEndsConcat | annotation_parser.py:64 | the lines readline returns, concatenated, are the text |
| Files.PyLinesNonEmpty | annotation_parser.py:64-67 | readline's result is "" only at the end of the file |
| Files.PyLinesConcat | annotation_parser.py:62-64 | reading a file line by line yields its text after newline translation, nothing lost or changed |
| Files.PathJoin | annotation_parser.py:136 | os.path.join ends with the name |
| Files.PathJoinInjective | annotation_parser.py:136 | joining one directory with two relative names gives two paths unless the names are equal |
| PyAnnotationParser.AnnotationParser.constructor | annotation_parser.py:16-32 | the paths and merge switch are stored and the table starts empty |
| PyAnnotationParser.AnnotationParser.Parse | annotation_parser.py:34-39 | a missing input fails with FileNotFoundError and changes nothing; otherwise the table is the grouped input and the files and books are the result of _write's loop over its headers in order |
| PyAnnotationParser.AnnotationParser.NumberOfBooks | annotation_parser.py:41-43 | returns the number of headers in the table |
| PyAnnotationParser.AnnotationParser.Read | annotation_parser.py:48-87 | a missing input fails and leaves the table alone; otherwise the table is the old one with each record of the input inserted in input order |
| PyAnnotationParser.AnnotationParser.ReadRecord | annotation_parser.py:63-87 | one turn of the loop: at EOF nothing changes; otherwise input is consumed and the table grouped from the rest is unchanged |
| PyAnnotationParser.AnnotationParser.AddBlock | annotation_parser.py:83-87 | the header's book is added if new and the block is added to it once |
| PyAnnotationParser.AnnotationParser.ReadBlock | annotation_parser.py:89-115 | consumes the lines up to and including the first line that strips to `==========`, or to EOF, and returns the block of the lines before it |
| PyAnnotationParser.AnnotationParser.Write | annotation_parser.py:120-147 | the headers stay; files and books are the result of one WriteBook per header in table order |
| PyAnnotationParser.AnnotationParser.WriteBookFile | annotation_parser.py:128-147 | one turn of _write's loop is WriteBook of that header's job |
| PyAnnotationParser.AnnotationParser.WriteFile | annotation_parser.py:143-147 | the file at the path holds the title line, a blank line and each block with a newline, and nothing else changes |
| PyAnnotationParser.AnnotationParser.MergeWithExisting | annotation_parser.py:149-159 | only the header's blocks change, to the merge with the file's existing blocks |
| PyAnnotationParser.AnnotationParser.ReadExistingBlocks | annotation_parser.py:161-184 | returns the blocks of the file after its title line and one blank line |
| PyAnnotationParser.AnnotationParser.SplitIntoBlocks | annotation_parser.py:186-225 | returns the splitter's blocks, each non-empty, ending in '\n', with no whitespace-only line |
| PyAnnotationParser.ReadStep | annotation_parser.py:79-87 | inserting one record and grouping the rest equals grouping from that record on |
| PyAnnotationParser.InsertInPlace | annotation_parser.py:83-87 | the in-place update of the dict is Insert and keeps the table valid |
| PyAnnotationParser.MergeStep | annotation_parser.py:157-159 | one more old block merged in is one more setdefault of its normal form |
| PyAnnotationParser.ValidReplace | annotation_parser.py:159 | replacing a book's blocks by distinct ones keeps the table valid |
| PyAnnotationParser.Rewritten | annotation_parser.py:143-144 | opening with 'w' and writing leaves just that text |
| PyAnnotationParser.Appended | annotation_parser.py:146-147 | a further write appends to the file |
| PyAnnotationParser.FileTextSnoc | annotation_parser.py:146-147 | one more block written adds the block and a newline to the file text |
| PyAnnotationParser.JobsExist | annotation_parser.py:128-136 | every header list has its jobs (header, title and author, path) |
| PyAnnotationParser.WriteBookSpec | annotation_parser.py:128-147 | one book written: its blocks become the merged ones, its file holds the title line and those blocks, and no other book or file changes |
| PyAnnotationParser.WriteOne | annotation_parser.py:128 | a loop over one book is that book's write |
| PyAnnotationParser.WriteAllNext | annotation_parser.py:128 | one more turn of the loop is one more WriteBook |
| PyAnnotationParser.JobsSeparate | annotation_parser.py:132-136 | distinct headers get distinct files exactly when no two share clean title and hash |
| PyAnnotationParser.WriteAllOtherFile | annotation_parser.py:128-147 | a file no book writes is left as it was |
| PyAnnotationParser.WriteAllOtherBook | annotation_parser.py:128-147 | a book not written is left as it was |
| PyAnnotationParser.WriteAllBook | annotation_parser.py:128-147 | when books have distinct files, each book holds its own blocks, merged with its old file when merging, and its file holds the title line and exactly those blocks |
| PyAnnotationParser.WriteWithoutMergeKeepsBlocks | annotation_parser.py:139 | without merge_option no book's blocks change |
| PyAnnotationParser.WriteTwiceStable | annotation_parser.py:139-147 | with the same hash function in both runs (one process, or a fixed PYTHONHASHSEED), a second merge run over the files of the first changes neither the files nor the books, when no two books share a file, each book's blocks are distinct and normalised, the written blocks read back as written, and titles and authors hold no line boundary |
| PyAnnotationParser.SaltedHashSplitsFiles | annotation_parser.py:134-139 | when the two runs hash the header differently, the second run writes a second file holding only the new blocks and leaves the first file as it was |
| PyFormat.HeaderOfSpec | annotation_parser.py:69-72 | the line ending is removed and at most one character, the first, exactly when it is not alphanumeric |
| PyFormat.BlockEndSpec | annotation_parser.py:102 | the block ends at the first line that strips to the delimiter, or at EOF |
| PyFormat.BlockTextSplit | annotation_parser.py:105-111 | block text is additive over the lines, so an empty line adds nothing |
| PyFormat.BlockLineOfJavaLine | annotation_parser.py:105-111 | a Python line adds what the Java tokenizer adds for the same line with "\n" as separator |
| PyFormat.NormalizeSpec | annotation_parser.py:242-244 | the result ends in exactly one '\n' with no whitespace before it, and is the block's text without its trailing whitespace |
| PyFormat.Normalize | annotation_parser.py:230-244 | the result ends in '\n' and what precedes it is a prefix of the block: only trailing text is removed |
| PyFormat.NormalizeIdempotent | annotation_parser.py:242-244 | normalising twice is normalising once |
| PyFormat.RecordsFromStep | annotation_parser.py:64-80 | at a non-empty header the record is that header and its normalised block, then tokenizing resumes after the delimiter |
| PyFormat.RecordsFromSkip | annotation_parser.py:75-76 | at an empty header no block is read and the next line is a header |
| PyFormat.RecordsWellFormed | annotation_parser.py:75-80 | every record has a non-empty header and a normalised block |
| PyFormat.Headers | annotation_parser.py:83 | the headers of the records, position by position |
| PyFormat.AddSpec | annotation_parser.py:87 | setdefault keeps the keys distinct and adds just that key |
| PyFormat.InsertSpec | annotation_parser.py:83-87 | one insertion keeps the table valid and changes only the record's book, by adding its block once |
| PyFormat.BlocksForStep | annotation_parser.py:83-87 | a header's block list grows by the last record's block or not at all |
| PyFormat.GroupSpec | annotation_parser.py:83-87 | headers in first-seen order after the old ones; each book's distinct blocks in first-seen order after its old ones |
| PyFormat.GroupCons | annotation_parser.py:83-87 | inserting the first record and then the rest is grouping them all |
| PyFormat.BookCountIsDistinctHeaders | annotation_parser.py:41-43 | number_of_books after one read is the number of distinct non-empty headers |
| PyFormat.TitleAuthorAgreesWithJava | annotation_parser.py:249-258 | same guard as Java; title and author are Java's stripped, the title keeping the character Java drops; otherwise the stripped header and "" |
| PyFormat.ParenthesesOfHeader | annotation_parser.py:250-251 | in "title (author)" + tail the last '(' and ')' are those around the author |
| PyFormat.TitleAuthorOfHeader | annotation_parser.py:249-258 | "title (author)" + a tail without parentheses splits back into title and author |
| PyFormat.GetTitleAuthor | annotation_parser.py:249-258 | title and author have no whitespace at either end, and an author is found only when the last '(' is past position 0 |
| PyFormat.CleanTitleSpec | annotation_parser.py:132-133 | only alphanumerics and " ._()-", at most 112, a prefix of the filtered title and all of it when that fits |
| PyFormat.CleanTitle | annotation_parser.py:132-133 | at most 112 characters, a prefix of the title filtered to alphanumerics and " ._()-" |
| PyFormat.BookNameIsRelative | annotation_parser.py:135-136 | a file name is non-empty and does not start with '/' |
| PyFormat.NamePartsCollision | annotation_parser.py:135 | title + '_' + digits + ".txt" determines the title and the digits |
| PyFormat.BookNameCollision | annotation_parser.py:132-135 | two headers get the same file name exactly when their clean titles and hashes agree |
| PyFormat.BookPathCollision | annotation_parser.py:132-136 | two headers get the same path exactly when their clean titles and hashes agree |
| PyFormat.BookPath | annotation_parser.py:135-136 | the path ends with the book's file name, and so in ".txt" |
| PyFormat.BookPathOfHash | annotation_parser.py:134-136 | one header gets the same path under two hash functions exactly when its two hashes agree |
| PyBlocks.BoundaryEnd | annotation_parser.py:171 | the first line ends inside the string |
| PyBlocks.BoundaryEndSpec | annotation_parser.py:171 | the first line ends at the first line-boundary character |
| PyBlocks.SplitLinesNoBoundary | annotation_parser.py:171 | no line from splitlines holds a line boundary |
| PyBlocks.SplitLinesOfUnlines | annotation_parser.py:171 | splitlines gives back the lines of a file of boundary-free lines |
| PyBlocks.LinesOfClose | annotation_parser.py:213 | closing lines without '\n' gives a block whose lines are those lines |
| PyBlocks.CloseLinesOf | annotation_parser.py:213 | closing a block's lines gives the block back |
| PyBlocks.CloseShape | annotation_parser.py:212-215 | closing non-blank lines gives a well-shaped block |
| PyBlocks.FeedConsistent | annotation_parser.py:208-218 | one loop turn keeps finished blocks well shaped and current lines non-blank |
| PyBlocks.FeedAllConsistent | annotation_parser.py:208-218 | the loop keeps that invariant |
| PyBlocks.SplitBlocksShape | annotation_parser.py:186-225 | every block that SplitBlocks (the loop FeedAll, then Finish) returns is non-empty, ends in '\n' and has no whitespace-only line |
| PyBlocks.ExistingBlocksShape | annotation_parser.py:161-184 | every block read back from a file is non-empty, ends in '\n' and has no whitespace-only line |
| PyBlocks.FeedAllAppend | annotation_parser.py:208 | running the loop over two line lists is running it over each in turn |
| PyBlocks.FeedAllSnoc | annotation_parser.py:208 | one more line is one more loop turn |
| PyBlocks.FeedAllNonBlank | annotation_parser.py:216-218 | non-blank lines all join the current block |
| PyBlocks.UnlinesAppend | annotation_parser.py:144-147 | the text of two line lists is their texts concatenated |
| PyBlocks.UnlinesJoin | annotation_parser.py:179 | lines ended by '\n' are their '\n'-join plus '\n' |
| PyBlocks.BlockUnlines | annotation_parser.py:147 | a written block is its lines and one empty line |
| PyBlocks.BlocksTextUnlines | annotation_parser.py:146-147 | the written blocks are the lines of Flat |
| PyBlocks.FlatNoBoundary | annotation_parser.py:171 | the lines of reparsable blocks hold no line boundary |
| PyBlocks.FileTextUnlines | annotation_parser.py:144-147 | the file is the title line, an empty line and the blocks' lines, each ended by '\n' |
| PyBlocks.TitleLineNoBoundary | annotation_parser.py:144 | the title line holds no line boundary when title and author hold none |
| PyBlocks.FileLinesNoBoundary | annotation_parser.py:144-147 | no line of a written file holds a line boundary |
| PyBlocks.FileTextLines | annotation_parser.py:168-171 | reading back a written file gives the title line, "" and the blocks' lines |
| PyBlocks.NoCarriageReturnInUnlines | annotation_parser.py:168-169 | a file of boundary-free lines holds no '\r' |
| PyBlocks.FlatNoNewline | annotation_parser.py:204 | no line of Flat holds '\n' |
| PyBlocks.SkipTitleLine | annotation_parser.py:173-178 | the title line and the blank line after it are skipped |
| PyBlocks.RejoinFlat | annotation_parser.py:178-179 | joining and splitting again feeds the splitter the same lines |
| PyBlocks.ReadBackLines | annotation_parser.py:161-184 | reading back a written file runs the splitter over exactly the blocks' lines |
| PyBlocks.FeedBlock | annotation_parser.py:208-215 | a block's lines and an empty line close exactly that block |
| PyBlocks.FlatSnoc | annotation_parser.py:146-147 | one more block adds its lines and an empty line |
| PyBlocks.FeedAllFlat | annotation_parser.py:204-225 | the splitter over the lines of well-shaped blocks finds exactly those blocks |
| PyBlocks.ReadBackFileText | annotation_parser.py:161-184 | reading back the file _write produced gives its blocks, when no block has a whitespace-only line or a line break other than '\n', and title and author hold no line boundary |
| PyBlocks.LinesOfWhitespaceBlock | annotation_parser.py:204 | "a\n \nb\n" has the lines "a", " ", "b" |
| PyBlocks.BlankExamples | annotation_parser.py:209-213 | " " and "" are blank, "a" is not |
| PyBlocks.FeedWhitespaceLines | annotation_parser.py:208-218 | the lines "a", " ", "b", "" give two blocks |
| PyBlocks.WhitespaceLineSplitsBlock | annotation_parser.py:161-225 | the limit of the round trip: a block with a whitespace-only line comes back as two blocks |
| PyBlocks.NormalizeAll | annotation_parser.py:157-158 | as many blocks as given |
| PyBlocks.NormalizeAllSpec | annotation_parser.py:157-158 | each old block is replaced by its normal form |
| PyBlocks.NormalizeAllMembers | annotation_parser.py:157-158 | the normalised blocks are exactly the normal forms of the blocks |
| PyBlocks.NormalizeAllNormalized | annotation_parser.py:157-158 | every normal form is left unchanged by normalising it again |
| PyBlocks.MergeSpec | annotation_parser.py:149-159 | the book's blocks stay first and in order; each old block is added in normal form; nothing repeats |
| PyBlocks.MergeBlocks | annotation_parser.py:149-159 | the book's own blocks stay a prefix of the merged list |
| PyBlocks.NormalizeAllFixed | annotation_parser.py:158 | normalising normalised blocks changes nothing |
| PyBlocks.MergeNormalized | annotation_parser.py:149-159 | merging normalised blocks gives normalised blocks |
| PyBlocks.MergeIsStable | annotation_parser.py:139-159 | merging again with the file written from a merge changes nothing, when the book's blocks are distinct and normalised, the merged blocks read back as written, and title and author hold no line boundary |
| PyBlocks.MergeOwnFile | annotation_parser.py:139-159 | merging blocks with the file written from them gives them back, when the blocks are normalised and read back as written, and title and author hold no line boundary |

## Left out

- The GUIs (`src/Main.java`, `main.py`) and the date stamp they write are not part of this model.
- The debug `System.out.println` in `read` (src/AnnotationParser.java:67) is console output only.
- Creating the output directory (`mkdir`, `makedirs`): the file system is a map from path to contents, and directories are not modelled.
- I/O errors other than a missing input file (unreadable files, failed writes, `close` failures) are not modelled. The only error path is FileNotFound.
- `os.path.isfile` versus `os.path.exists`: there are no directories in the map, so "is a file" and "exists" coincide.
- Text encodings. Strings are sequences of Unicode scalar values. Java's UTF-16 code units, and with them `String.hashCode` over supplementary characters, are not modelled.
- Python's newline translation on write is not modelled: writes are taken as on POSIX, where "\n" is kept. Translation on read (universal newlines) is modelled.
- `Character.isLetterOrDigit` and `str.isalnum` are parameters of the parser classes, not Unicode tables. `BookNameIsRelative` and `JobsSeparate` assume that '/' is not alphanumeric.
- Python's `hash()` is salted per process, so it is a parameter of the class (a function of the header). Java's `String.hashCode` is modelled exactly, with 32-bit wrap-around.
- `System.lineSeparator()` is a constructor parameter of the Java class, and so is `Character.isLetterOrDigit`. The Python constructor's default `merge_option=True` is an ordinary parameter.
- JavaAnnotationParser.AnnotationParser.Write: `HashMap` iteration order is unspecified. The order is a ghost result that covers every key exactly once. The lemmas about the files hold for any order.
- PyFormat.BlockLineOfJavaLine: agreement of the two tokenizers is stated per body line. It is not stated for whole blocks over a whole input.
- PyAnnotationParser.WriteBook: defined for a header with no book in the table (taken as no blocks), which `_write` never meets.
- PyBlocks.ReadBackFileText: the round trip needs every block free of whitespace-only lines and of line breaks other than '\n', and a title and author without line boundaries. `WhitespaceLineSplitsBlock` shows that the first condition is needed. A title such as "Du\vne" is cut by `splitlines` (annotation_parser.py:171), and its second half comes back as an extra first block. `MergeIsStable`, `MergeOwnFile` and `WriteTwiceStable` carry the same conditions.
- PyAnnotationParser.WriteTwiceStable: covers two runs with the same hash function. Python salts `hash()` per process unless PYTHONHASHSEED is fixed, so two separate runs usually give a book two different file names. `SaltedHashSplitsFiles` states what then happens.
- PyAnnotationParser.WriteAll and JavaFormat.Aggregate carry no contract of their own. Their properties are the lemmas beside them (`WriteAllBook`, `WriteAllOtherFile`, `WriteAllOtherBook`; `AggregateSpec`, `AggregateCons`).

## Findings

| source | as written | input that shows it | evidently intended | confidence | as-written member | corrected member |
|---|---|---|---|---|---|---|
| annotation_parser.py:134-139 | the file name holds `str(hash(raw_header))`, which Python salts per process, so `os.path.exists` misses the previous run's file | two merge runs in separate processes without PYTHONHASHSEED, whose hashes of a header differ | a name stable across runs, as Java's `String.hashCode` is (src/AnnotationParser.java:100), so that the merge finds and rewrites the previous file | not executed; follows from Python's documented hash randomisation | PyAnnotationParser.SaltedHashSplitsFiles | PyAnnotationParser.WriteTwiceStable |
