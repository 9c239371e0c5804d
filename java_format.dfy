/**
 * What the Java AnnotationParser computes, as functions: how a clippings file
 * is cut into records (read, getAnnotation), how records are folded into the
 * book map, how a key is split into title and author (getTitleAuthor), and
 * the name and text of each output file (write).
 */
module JavaFormat {
  import opened Text
  import opened Decimal
  import opened JavaHash

  /** The line that ends every clipping. */
  const Delimiter: string := "=========="

  /** Longest title kept in an output file name. */
  const MaxTitleLength: nat := 112

  /** One clipping: the key of its title line and its annotation text. */
  datatype Record = Record(key: string, body: string)

  datatype TitleAuthor = TitleAuthor(title: string, author: string)

  // ---------------------------------------------------------------------------
  // The tokenizer: read and getAnnotation
  // ---------------------------------------------------------------------------

  /**
   * The key of a title line: a first character that is not a letter or digit
   * (the invisible marker some exports put there) is dropped, one at most.
   */
  function TitleKey(line: string, isLetterOrDigit: char -> bool): (key: string)
    ensures key == line || (line != [] && key == line[1..])
    ensures key != line <==> line != [] && !isLetterOrDigit(line[0])
  {
    if line != [] && !isLetterOrDigit(line[0]) then line[1..] else line
  }

  /** What one body line adds to an annotation: nothing when empty, else the line and a separator. */
  function LineText(line: string, newLine: string): string
  {
    if line == "" then "" else line + newLine
  }

  /** The annotation text of lines start..end, before the closing separator. */
  function BodyText(lines: seq<string>, start: nat, end: nat, newLine: string): string
    requires start <= end <= |lines|
    decreases end - start
  {
    if end == start then "" else BodyText(lines, start, end - 1, newLine) + LineText(lines[end - 1], newLine)
  }

  /** What getAnnotation returns when lines start..end are the body of a clipping. */
  function Annotation(lines: seq<string>, start: nat, end: nat, newLine: string): string
    requires start <= end <= |lines|
  {
    BodyText(lines, start, end, newLine) + newLine
  }

  /** Index of the first delimiter line at or after `start`, or the number of lines when there is none. */
  function BodyEnd(lines: seq<string>, start: nat): (e: nat)
    requires start <= |lines|
    ensures start <= e <= |lines|
    decreases |lines| - start
  {
    if start == |lines| || lines[start] == Delimiter then start else BodyEnd(lines, start + 1)
  }

  /** BodyEnd stops at the first delimiter line at or after `start`, if there is one. */
  lemma {:induction false} BodyEndSpec(lines: seq<string>, start: nat)
    requires start <= |lines|
    ensures var e := BodyEnd(lines, start);
      && (forall j :: start <= j < e ==> lines[j] != Delimiter)
      && (e < |lines| ==> lines[e] == Delimiter)
    decreases |lines| - start
  {
    if start < |lines| && lines[start] != Delimiter {
      BodyEndSpec(lines, start + 1);
    }
  }

  /**
   * The records of an input from line k on, one per title line, in input
   * order: line k is a title, the lines up to the next delimiter its body.
   */
  function RecordsFrom(lines: seq<string>, k: nat, isLetterOrDigit: char -> bool, newLine: string): seq<Record>
    requires k <= |lines|
    decreases |lines| - k
  {
    if k == |lines| then []
    else
      var e := BodyEnd(lines, k + 1);
      var next := if e < |lines| then e + 1 else e;
      var record := Record(TitleKey(lines[k], isLetterOrDigit), Annotation(lines, k + 1, e, newLine));
      [record] + RecordsFrom(lines, next, isLetterOrDigit, newLine)
  }

  /** The records of a whole input. */
  function Records(lines: seq<string>, isLetterOrDigit: char -> bool, newLine: string): (rs: seq<Record>)
    ensures lines == [] <==> rs == []
    ensures lines != [] ==> rs[0].key == TitleKey(lines[0], isLetterOrDigit)
  {
    RecordsFrom(lines, 0, isLetterOrDigit, newLine)
  }

  /** One step of the tokenizer: the record starting at line k, then the rest. */
  lemma RecordsFromStep(lines: seq<string>, k: nat, isLetterOrDigit: char -> bool, newLine: string, record: Record, next: nat)
    requires k < |lines|
    requires record == Record(TitleKey(lines[k], isLetterOrDigit), Annotation(lines, k + 1, BodyEnd(lines, k + 1), newLine))
    requires next == if BodyEnd(lines, k + 1) < |lines| then BodyEnd(lines, k + 1) + 1 else BodyEnd(lines, k + 1)
    ensures RecordsFrom(lines, k, isLetterOrDigit, newLine) == [record] + RecordsFrom(lines, next, isLetterOrDigit, newLine)
  {
  }

  /** Annotation text is additive over the body lines. */
  lemma {:induction false} BodyTextSplit(lines: seq<string>, start: nat, mid: nat, end: nat, newLine: string)
    requires start <= mid <= end <= |lines|
    ensures BodyText(lines, start, end, newLine) == BodyText(lines, start, mid, newLine) + BodyText(lines, mid, end, newLine)
    decreases end - mid
  {
    if mid < end {
      BodyTextSplit(lines, start, mid, end - 1, newLine);
      var front, middle, back := BodyText(lines, start, mid, newLine), BodyText(lines, mid, end - 1, newLine), LineText(lines[end - 1], newLine);
      assert (front + middle) + back == front + (middle + back);
    }
  }

  /** An empty body line contributes no characters, wherever it stands. */
  lemma BlankLineAddsNothing(lines: seq<string>, start: nat, i: nat, end: nat, newLine: string)
    requires start <= i < end <= |lines| && lines[i] == ""
    ensures BodyText(lines, start, end, newLine) == BodyText(lines, start, i, newLine) + BodyText(lines, i + 1, end, newLine)
  {
    BodyTextSplit(lines, start, i + 1, end, newLine);
    var front := BodyText(lines, start, i, newLine);
    assert front + "" == front;
  }

  /** Annotation text depends only on the lines in its range, not on where they stand. */
  lemma {:induction false} BodyTextShift(a: seq<string>, s: nat, b: seq<string>, t: nat, n: nat, newLine: string)
    requires s + n <= |a| && t + n <= |b|
    requires forall j :: s <= j < s + n ==> a[j] == b[j - s + t]
    ensures BodyText(a, s, s + n, newLine) == BodyText(b, t, t + n, newLine)
    decreases n
  {
    if n > 0 {
      BodyTextShift(a, s, b, t, n - 1, newLine);
      assert a[s + n - 1] == b[t + n - 1];
    }
  }

  /** A clipping as it stands in the input: its title line and its body lines. */
  datatype Entry = Entry(titleLine: string, bodyLines: seq<string>)

  /** The lines of an input holding these clippings, each closed by the delimiter. */
  function EntryLines(es: seq<Entry>): seq<string>
    decreases |es|
  {
    if es == [] then [] else [es[0].titleLine] + es[0].bodyLines + [Delimiter] + EntryLines(es[1..])
  }

  /** The records the parser should find for these clippings. */
  function EntryRecords(es: seq<Entry>, isLetterOrDigit: char -> bool, newLine: string): seq<Record>
    decreases |es|
  {
    if es == [] then []
    else
      var body := es[0].bodyLines;
      var record := Record(TitleKey(es[0].titleLine, isLetterOrDigit), Annotation(body, 0, |body|, newLine));
      [record] + EntryRecords(es[1..], isLetterOrDigit, newLine)
  }

  /**
   * Tokenizing an input built from clippings recovers each clipping: the
   * record boundary is exactly the delimiter line, which is in no body.
   */
  lemma {:induction false} RecordsOfEntriesFrom(lines: seq<string>, k: nat, es: seq<Entry>, isLetterOrDigit: char -> bool, newLine: string)
    requires k <= |lines| && lines[k..] == EntryLines(es)
    requires forall i, j :: 0 <= i < |es| && 0 <= j < |es[i].bodyLines| ==> es[i].bodyLines[j] != Delimiter
    ensures RecordsFrom(lines, k, isLetterOrDigit, newLine) == EntryRecords(es, isLetterOrDigit, newLine)
    decreases |es|
  {
    if es == [] {
      assert |lines[k..]| == 0;
    } else {
      var en := es[0];
      var e := k + 1 + |en.bodyLines|;
      EntryLinesHead(lines, k, es);
      BodyEndOfBody(lines, k + 1, en.bodyLines);
      BodyTextOfSlice(lines, k + 1, e, newLine);
      var record := Record(TitleKey(en.titleLine, isLetterOrDigit), Annotation(en.bodyLines, 0, |en.bodyLines|, newLine));
      RecordsFromStep(lines, k, isLetterOrDigit, newLine, record, e + 1);
      RecordsOfEntriesFrom(lines, e + 1, es[1..], isLetterOrDigit, newLine);
    }
  }

  /** Where the first clipping's lines stand in an input built from clippings. */
  lemma EntryLinesHead(lines: seq<string>, k: nat, es: seq<Entry>)
    requires k <= |lines| && lines[k..] == EntryLines(es) && es != []
    ensures var n := |es[0].bodyLines|;
      && k + 1 + n < |lines|
      && lines[k] == es[0].titleLine
      && lines[k + 1..k + 1 + n] == es[0].bodyLines
      && lines[k + 1 + n] == Delimiter
      && lines[k + 2 + n..] == EntryLines(es[1..])
  {
    var en := es[0];
    var n := |en.bodyLines|;
    var tail := lines[k..];
    assert tail == [en.titleLine] + en.bodyLines + [Delimiter] + EntryLines(es[1..]);
    assert tail[1..1 + n] == en.bodyLines;
    assert tail[2 + n..] == EntryLines(es[1..]);
    assert lines[k + 1..k + 1 + n] == tail[1..1 + n];
    assert lines[k + 2 + n..] == tail[2 + n..];
  }

  /** A body free of delimiters, followed by one, ends right before that delimiter. */
  lemma BodyEndOfBody(lines: seq<string>, start: nat, body: seq<string>)
    requires start + |body| < |lines| && lines[start..start + |body|] == body && lines[start + |body|] == Delimiter
    requires forall j :: 0 <= j < |body| ==> body[j] != Delimiter
    ensures BodyEnd(lines, start) == start + |body|
  {
    forall j | start <= j < start + |body|
      ensures lines[j] != Delimiter
    {
      assert lines[j] == body[j - start];
    }
    BodyEndAt(lines, start, start + |body|);
  }

  /** The body text of a run of lines is that of the same lines standing alone. */
  lemma BodyTextOfSlice(lines: seq<string>, start: nat, end: nat, newLine: string)
    requires start <= end <= |lines|
    ensures BodyText(lines, start, end, newLine) == BodyText(lines[start..end], 0, end - start, newLine)
  {
    var body := lines[start..end];
    forall j | start <= j < end
      ensures lines[j] == body[j - start + 0]
    {
    }
    BodyTextShift(lines, start, body, 0, end - start, newLine);
  }

  /** Without a delimiter the body runs to the end of the input. */
  lemma {:induction false} BodyEndAtEnd(lines: seq<string>, start: nat)
    requires start <= |lines|
    requires forall j :: start <= j < |lines| ==> lines[j] != Delimiter
    ensures BodyEnd(lines, start) == |lines|
    decreases |lines| - start
  {
    if start < |lines| {
      BodyEndAtEnd(lines, start + 1);
    }
  }

  /** The body ends at the first delimiter line. */
  lemma {:induction false} BodyEndAt(lines: seq<string>, start: nat, e: nat)
    requires start <= e < |lines| && lines[e] == Delimiter
    requires forall j :: start <= j < e ==> lines[j] != Delimiter
    ensures BodyEnd(lines, start) == e
    decreases e - start
  {
    if start < e {
      BodyEndAt(lines, start + 1, e);
    }
  }

  lemma RecordsOfEntries(es: seq<Entry>, isLetterOrDigit: char -> bool, newLine: string)
    requires forall i, j :: 0 <= i < |es| && 0 <= j < |es[i].bodyLines| ==> es[i].bodyLines[j] != Delimiter
    ensures Records(EntryLines(es), isLetterOrDigit, newLine) == EntryRecords(es, isLetterOrDigit, newLine)
  {
    var lines := EntryLines(es);
    assert lines[0..] == lines;
    RecordsOfEntriesFrom(lines, 0, es, isLetterOrDigit, newLine);
  }

  /** A last clipping without a delimiter runs to the end of the input. */
  lemma UnterminatedRecord(lines: seq<string>, isLetterOrDigit: char -> bool, newLine: string)
    requires lines != []
    requires forall j :: 1 <= j < |lines| ==> lines[j] != Delimiter
    ensures Records(lines, isLetterOrDigit, newLine)
         == [Record(TitleKey(lines[0], isLetterOrDigit), Annotation(lines, 1, |lines|, newLine))]
  {
    BodyEndAtEnd(lines, 1);
    var record := Record(TitleKey(lines[0], isLetterOrDigit), Annotation(lines, 1, |lines|, newLine));
    RecordsFromStep(lines, 0, isLetterOrDigit, newLine, record, |lines|);
    assert RecordsFrom(lines, |lines|, isLetterOrDigit, newLine) == [];
  }


  // ---------------------------------------------------------------------------
  // The book map: bookContentMap.merge(key, body, String::concat)
  // ---------------------------------------------------------------------------

  /** Inserts a record's body under its key, or appends it to the body already there. */
  function Merge(m: map<string, string>, r: Record): map<string, string>
  {
    m[r.key := if r.key in m then m[r.key] + r.body else r.body]
  }

  /** The book map after merging the records in order. */
  function Aggregate(m: map<string, string>, records: seq<Record>): map<string, string>
    decreases |records|
  {
    if records == [] then m
    else Merge(Aggregate(m, records[..|records| - 1]), records[|records| - 1])
  }

  /** Folding a record in first, then the rest, is folding them all. */
  lemma {:induction false} AggregateCons(m: map<string, string>, r: Record, records: seq<Record>)
    ensures Aggregate(m, [r] + records) == Aggregate(Merge(m, r), records)
    decreases |records|
  {
    if records == [] {
      assert [r] + records == [r];
      assert [r][..0] == [];
    } else {
      var init, last := records[..|records| - 1], records[|records| - 1];
      assert ([r] + records)[..|records|] == [r] + init;
      AggregateCons(m, r, init);
    }
  }

  /**
   * The book map after reading the input from line k on into `m`, one
   * record at a time, as read's loop does it.
   */
  function ReadFrom(m: map<string, string>, lines: seq<string>, k: nat, isLetterOrDigit: char -> bool, newLine: string): map<string, string>
    requires k <= |lines|
    decreases |lines| - k
  {
    if k == |lines| then m
    else
      var e := BodyEnd(lines, k + 1);
      var next := if e < |lines| then e + 1 else e;
      var record := Record(TitleKey(lines[k], isLetterOrDigit), Annotation(lines, k + 1, e, newLine));
      ReadFrom(Merge(m, record), lines, next, isLetterOrDigit, newLine)
  }

  /** One step of ReadFrom: the record at line k is merged in and reading goes on after it. */
  lemma ReadFromStep(m: map<string, string>, lines: seq<string>, k: nat, isLetterOrDigit: char -> bool, newLine: string,
                     key: string, annotation: string, next: nat)
    requires k < |lines|
    requires key == TitleKey(lines[k], isLetterOrDigit)
    requires annotation == Annotation(lines, k + 1, BodyEnd(lines, k + 1), newLine)
    requires next == if BodyEnd(lines, k + 1) < |lines| then BodyEnd(lines, k + 1) + 1 else BodyEnd(lines, k + 1)
    ensures ReadFrom(m, lines, k, isLetterOrDigit, newLine)
      == ReadFrom(Merge(m, Record(key, annotation)), lines, next, isLetterOrDigit, newLine)
  {
  }

  /** Reading record by record is folding the record sequence into the map. */
  lemma {:induction false} ReadFromAggregates(m: map<string, string>, lines: seq<string>, k: nat, isLetterOrDigit: char -> bool, newLine: string)
    requires k <= |lines|
    ensures ReadFrom(m, lines, k, isLetterOrDigit, newLine) == Aggregate(m, RecordsFrom(lines, k, isLetterOrDigit, newLine))
    decreases |lines| - k
  {
    if k < |lines| {
      var e := BodyEnd(lines, k + 1);
      var next := if e < |lines| then e + 1 else e;
      var record := Record(TitleKey(lines[k], isLetterOrDigit), Annotation(lines, k + 1, e, newLine));
      var rest := RecordsFrom(lines, next, isLetterOrDigit, newLine);
      assert RecordsFrom(lines, k, isLetterOrDigit, newLine) == [record] + rest;
      ReadFromAggregates(Merge(m, record), lines, next, isLetterOrDigit, newLine);
      AggregateCons(m, record, rest);
    }
  }

  /** The distinct keys of some records. */
  function KeysOf(records: seq<Record>): set<string>
  {
    set i | 0 <= i < |records| :: records[i].key
  }

  /** The bodies of the records with key k, concatenated in input order. */
  function BodiesOf(records: seq<Record>, k: string): string
    decreases |records|
  {
    if records == [] then ""
    else
      var r := records[|records| - 1];
      BodiesOf(records[..|records| - 1], k) + (if r.key == k then r.body else "")
  }

  lemma {:induction false} BodiesOfAbsentKey(records: seq<Record>, k: string)
    requires k !in KeysOf(records)
    ensures BodiesOf(records, k) == ""
    decreases |records|
  {
    if records != [] {
      var init := records[..|records| - 1];
      assert KeysOf(init) <= KeysOf(records) by {
        assert forall i :: 0 <= i < |init| ==> init[i] == records[i];
      }
      assert records[|records| - 1].key in KeysOf(records);
      BodiesOfAbsentKey(init, k);
    }
  }

  /**
   * The book map holds one entry per distinct key, and a key seen at record
   * positions i1 < i2 < ... maps to body(i1) + body(i2) + ..., after what it held before.
   */
  lemma {:induction false} AggregateSpec(m: map<string, string>, records: seq<Record>)
    ensures Aggregate(m, records).Keys == m.Keys + KeysOf(records)
    ensures forall k :: k in Aggregate(m, records) ==>
      Aggregate(m, records)[k] == (if k in m then m[k] else "") + BodiesOf(records, k)
    decreases |records|
  {
    if records != [] {
      var init := records[..|records| - 1];
      var last := records[|records| - 1];
      AggregateSpec(m, init);
      assert KeysOf(records) == KeysOf(init) + {last.key} by {
        assert forall i :: 0 <= i < |init| ==> init[i] == records[i];
      }
      if last.key !in Aggregate(m, init) {
        BodiesOfAbsentKey(init, last.key);
      }
    }
  }

  /** numberOfBooks after a read from an empty map: the number of distinct keys. */
  lemma BookCountIsDistinctKeys(records: seq<Record>)
    ensures |Aggregate(map[], records)| == |KeysOf(records)|
  {
    AggregateSpec(map[], records);
    assert Aggregate(map[], records).Keys == KeysOf(records);
  }

  // ---------------------------------------------------------------------------
  // getTitleAuthor
  // ---------------------------------------------------------------------------

  /**
   * Splits a key "title (author)" at its last '(' and last ')'. Exactly one
   * character before the '(' is dropped from the title, whatever it is.
   */
  function GetTitleAuthor(key: string): (ta: TitleAuthor)
    ensures ta.title <= key
    ensures ta.title == key ==> ta.author == ""
    ensures forall j :: 0 <= j < |ta.author| ==> ta.author[j] != '('
  {
    var open := LastIndexOf(key, '(');
    var close := LastIndexOf(key, ')');
    if open > 0 && close > open then
      LastIndexOfSpec(key, '(');
      TitleAuthor(key[..open - 1], key[open + 1..close])
    else
      TitleAuthor(key, "")
  }

  /**
   * A key has an author group when its last '(' is not the first character
   * and some ')' follows it.
   */
  ghost predicate HasAuthorGroup(key: string)
  {
    exists i, j :: 0 < i < j < |key| && key[i] == '(' && key[j] == ')'
      && forall k :: i < k < |key| ==> key[k] != '('
  }

  /** The whole key is the title exactly when there is no author group. */
  lemma TitleIsKeyIffNoGroup(key: string)
    ensures GetTitleAuthor(key).title == key <==> !HasAuthorGroup(key)
  {
    var open := LastIndexOf(key, '(');
    var close := LastIndexOf(key, ')');
    LastIndexOfSpec(key, '(');
    LastIndexOfSpec(key, ')');
    if open > 0 && close > open {
      assert key[open] == '(' && key[close] == ')';
      assert HasAuthorGroup(key);
    } else {
      assert !HasAuthorGroup(key);
    }
  }

  /**
   * The header Kindle writes, title + separator + "(" + author + ")" + a tail
   * without parentheses, splits back into that title and author, even when
   * the title itself holds parentheses: the last group wins.
   */
  lemma TitleAuthorOfHeader(title: string, sep: char, author: string, tail: string)
    requires forall j :: 0 <= j < |author| ==> author[j] != '('
    requires forall j :: 0 <= j < |tail| ==> tail[j] != '(' && tail[j] != ')'
    ensures GetTitleAuthor(title + [sep] + "(" + author + ")" + tail) == TitleAuthor(title, author)
  {
    var key := title + [sep] + "(" + author + ")" + tail;
    var o, c := |title| + 1, |title| + 2 + |author|;
    assert key[o] == '(' && key[c] == ')';
    assert forall j :: o < j < |key| ==> key[j] != '(' by {
      forall j | o < j < |key| ensures key[j] != '(' {
        if j < c { assert key[j] == author[j - o - 1]; }
        else if j > c { assert key[j] == tail[j - c - 1]; }
      }
    }
    assert forall j :: c < j < |key| ==> key[j] != ')' by {
      forall j | c < j < |key| ensures key[j] != ')' {
        assert key[j] == tail[j - c - 1];
      }
    }
    LastIndexOfSpec(key, '(');
    LastIndexOfSpec(key, ')');
    assert LastIndexOf(key, '(') == o;
    assert LastIndexOf(key, ')') == c;
    assert key[..o - 1] == title;
    assert key[o + 1..c] == author;
  }

  /** "A (b) (c)" has title "A (b)" and author "c". */
  lemma LastGroupWins()
    ensures GetTitleAuthor("A (b) (c)") == TitleAuthor("A (b)", "c")
  {
    TitleAuthorOfHeader("A (b)", ' ', "c", "");
    assert "A (b)" + [' '] + "(" + "c" + ")" + "" == "A (b) (c)";
  }

  // ---------------------------------------------------------------------------
  // write: file name and file text
  // ---------------------------------------------------------------------------

  /** The characters of the regular expression class [a-zA-Z0-9._ -]. */
  predicate IsFileNameChar(c: char)
  {
    ('a' <= c <= 'z') || ('A' <= c <= 'Z') || ('0' <= c <= '9') || c == '.' || c == '_' || c == ' ' || c == '-'
  }

  /**
   * The title with every character outside [a-zA-Z0-9._ -] removed, cut to
   * MaxTitleLength characters.
   */
  function CleanTitle(title: string): (clean: string)
    ensures |clean| <= MaxTitleLength
    ensures forall i :: 0 <= i < |clean| ==> IsFileNameChar(clean[i])
    ensures clean <= Filter(title, IsFileNameChar)
    ensures |Filter(title, IsFileNameChar)| <= MaxTitleLength ==> clean == Filter(title, IsFileNameChar)
  {
    FilterSpec(title, IsFileNameChar);
    Take(Filter(title, IsFileNameChar), MaxTitleLength)
  }

  /** The file a book is written to: the output path, the clean title, '_', the key's hash code, ".txt". */
  function OutputName(outputPath: string, key: string): (name: string)
    ensures outputPath <= name
    ensures |name| >= |outputPath| + 5 && name[|name| - 4..] == ".txt"
  {
    outputPath + CleanTitle(GetTitleAuthor(key).title) + "_" + DecimalString(HashCode(key)) + ".txt"
  }

  /** A string with a '_' followed by no other '_' is taken apart at that '_' in one way only. */
  lemma SplitAtLastUnderscore(a1: string, b1: string, a2: string, b2: string)
    requires forall j :: 0 <= j < |b1| ==> b1[j] != '_'
    requires forall j :: 0 <= j < |b2| ==> b2[j] != '_'
    requires a1 + "_" + b1 == a2 + "_" + b2
    ensures a1 == a2 && b1 == b2
  {
    var s, t := a1 + "_" + b1, a2 + "_" + b2;
    assert s[|a1|] == '_' && t[|a2|] == '_';
    assert forall j :: |a1| < j < |s| ==> s[j] == b1[j - |a1| - 1];
    assert forall j :: |a2| < j < |t| ==> t[j] == b2[j - |a2| - 1];
    assert |a1| == |a2|;
    assert a1 == s[..|a1|] && a2 == t[..|a2|];
    assert b1 == s[|a1| + 1..] && b2 == t[|a2| + 1..];
  }

  /** The clean title and the hash text can be read back from a file name. */
  lemma NamePartsEqual(path: string, c1: string, h1: string, c2: string, h2: string)
    requires forall j :: 0 <= j < |h1| ==> h1[j] != '_'
    requires forall j :: 0 <= j < |h2| ==> h2[j] != '_'
    requires path + c1 + "_" + h1 + ".txt" == path + c2 + "_" + h2 + ".txt"
    ensures c1 == c2 && h1 == h2
  {
    assert path + c1 + "_" + h1 + ".txt" == (path + c1) + "_" + (h1 + ".txt");
    assert path + c2 + "_" + h2 + ".txt" == (path + c2) + "_" + (h2 + ".txt");
    SplitAtLastUnderscore(path + c1, h1 + ".txt", path + c2, h2 + ".txt");
    assert c1 == (path + c1)[|path|..];
    assert c2 == (path + c2)[|path|..];
    assert h1 == (h1 + ".txt")[..|h1|];
    assert h2 == (h2 + ".txt")[..|h2|];
  }

  /**
   * Two keys share an output file exactly when their clean titles and their
   * hash codes are both equal: the name can be taken apart at its last '_'.
   */
  lemma OutputNameCollision(outputPath: string, k1: string, k2: string)
    ensures OutputName(outputPath, k1) == OutputName(outputPath, k2) <==>
      CleanTitle(GetTitleAuthor(k1).title) == CleanTitle(GetTitleAuthor(k2).title) && HashCode(k1) == HashCode(k2)
  {
    var c1, c2 := CleanTitle(GetTitleAuthor(k1).title), CleanTitle(GetTitleAuthor(k2).title);
    var h1, h2 := DecimalString(HashCode(k1)), DecimalString(HashCode(k2));
    if OutputName(outputPath, k1) == OutputName(outputPath, k2) {
      NamePartsEqual(outputPath, c1, h1, c2, h2);
      DecimalStringInjective(HashCode(k1), HashCode(k2));
    }
  }

  /** What write puts in a book's file: "title, author", a blank line, the annotations, a blank line. */
  function BookText(key: string, body: string, newLine: string): string
  {
    var ta := GetTitleAuthor(key);
    ta.title + ", " + ta.author + newLine + newLine + body + newLine + newLine
  }

  /** The file text as write emits it, in four pieces: the header line, a blank line, the annotations and a blank line. */
  lemma BookTextInParts(key: string, body: string, newLine: string)
    ensures var ta := GetTitleAuthor(key);
      BookText(key, body, newLine) == (ta.title + ", " + ta.author + newLine) + newLine + (body + newLine) + newLine
  {
  }
}
