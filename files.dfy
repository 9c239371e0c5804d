/**
 * The environment the parsers run in: a file system that maps paths to
 * contents, a line reader over a file, and the way each language's reader
 * cuts a file's contents into lines.
 */
module Files {
  import opened Wrappers

  /** The files of the file system, by path. Directories are not modelled. */
  class FileSystem {
    var files: map<string, string>

    constructor (files: map<string, string>)
      ensures this.files == files
    {
      this.files := files;
    }

    /**
     * Opens `path` for writing, creating it if needed: Java's
     * `new FileWriter(path, append)` and Python's `open(path, 'w')`. Unless
     * appending, the file is truncated.
     */
    method Open(path: string, append: bool)
      modifies this
      ensures files == old(files)[path := if append && path in old(files) then old(files)[path] else ""]
    {
      files := files[path := if append && path in files then files[path] else ""];
    }

    /** Writes `text` at the end of an open file. */
    method Write(path: string, text: string)
      requires path in files
      modifies this
      ensures files == old(files)[path := old(files)[path] + text]
    {
      files := files[path := files[path] + text];
    }
  }

  /** A reader positioned at a line of a file whose lines are `lines`. */
  class LineReader {
    const lines: seq<string>
    var pos: nat

    ghost predicate Valid()
      reads this
    {
      pos <= |lines|
    }

    constructor (lines: seq<string>)
      ensures Valid() && this.lines == lines && pos == 0
    {
      this.lines := lines;
      pos := 0;
    }

    /** The next line, or None at the end of the file. */
    method ReadLine() returns (line: Option<string>)
      requires Valid()
      modifies this`pos
      ensures Valid()
      ensures old(pos) < |lines| ==> line == Some(lines[old(pos)]) && pos == old(pos) + 1
      ensures old(pos) == |lines| ==> line == None && pos == old(pos)
    {
      if pos < |lines| {
        line := Some(lines[pos]);
        pos := pos + 1;
      } else {
        line := None;
      }
    }
  }

  /** A line's text: no line feed and no carriage return. */
  predicate IsLineText(l: string)
  {
    forall j :: 0 <= j < |l| ==> l[j] != '\n' && l[j] != '\r'
  }

  /** The text of a file holding `ls`, each line ended by a line feed. */
  function Unlines(ls: seq<string>): string
    decreases |ls|
  {
    if ls == [] then "" else ls[0] + "\n" + Unlines(ls[1..])
  }

  /** Where the first line of `s` ends. */
  function LineEnd(s: string): (i: nat)
    ensures i <= |s|
    decreases |s|
  {
    if s == [] || s[0] == '\n' || s[0] == '\r' then 0 else 1 + LineEnd(s[1..])
  }

  /** The first line ends at the first line feed or carriage return. */
  lemma {:induction false} LineEndSpec(s: string)
    ensures var i := LineEnd(s);
      && (forall j :: 0 <= j < i ==> s[j] != '\n' && s[j] != '\r')
      && (i < |s| ==> s[i] == '\n' || s[i] == '\r')
    decreases |s|
  {
    if s != [] && s[0] != '\n' && s[0] != '\r' {
      LineEndSpec(s[1..]);
    }
  }

  /**
   * The successive results of Java's BufferedReader.readLine: a line ends at
   * '\n', at '\r', or at "\r\n", and the terminator is not returned.
   */
  function JavaLines(s: string): seq<string>
    decreases |s|
  {
    if s == [] then []
    else
      var i := LineEnd(s);
      if i == |s| then [s]
      else if s[i] == '\r' && i + 1 < |s| && s[i + 1] == '\n' then [s[..i]] + JavaLines(s[i + 2..])
      else [s[..i]] + JavaLines(s[i + 1..])
  }

  /** No line read contains a line terminator. */
  lemma {:induction false} JavaLinesAreLineTexts(s: string)
    ensures forall i :: 0 <= i < |JavaLines(s)| ==> IsLineText(JavaLines(s)[i])
    decreases |s|
  {
    if s != [] {
      var i := LineEnd(s);
      LineEndSpec(s);
      if i < |s| {
        if s[i] == '\r' && i + 1 < |s| && s[i + 1] == '\n' {
          JavaLinesAreLineTexts(s[i + 2..]);
        } else {
          JavaLinesAreLineTexts(s[i + 1..]);
        }
      }
    }
  }

  /** Reading back a file of lines gives the lines. */
  lemma {:induction false} JavaLinesOfUnlines(ls: seq<string>)
    requires forall i :: 0 <= i < |ls| ==> IsLineText(ls[i])
    ensures JavaLines(Unlines(ls)) == ls
    decreases |ls|
  {
    if ls != [] {
      var l, s := ls[0], Unlines(ls);
      assert s == l + "\n" + Unlines(ls[1..]);
      var i := LineEnd(s);
      LineEndSpec(s);
      assert s[|l|] == '\n';
      assert i == |l|;
      assert s[..i] == l;
      assert s[i + 1..] == Unlines(ls[1..]);
      JavaLinesOfUnlines(ls[1..]);
    }
  }

  /** Python's universal-newline translation on reading: "\r\n" and '\r' become '\n'. */
  function Translate(s: string): string
    decreases |s|
  {
    if s == [] then []
    else if s[0] == '\r' then "\n" + Translate(if |s| > 1 && s[1] == '\n' then s[2..] else s[1..])
    else [s[0]] + Translate(s[1..])
  }

  lemma {:induction false} TranslateWithoutCarriageReturn(s: string)
    requires forall j :: 0 <= j < |s| ==> s[j] != '\r'
    ensures Translate(s) == s
    decreases |s|
  {
    if s != [] {
      TranslateWithoutCarriageReturn(s[1..]);
    }
  }

  /**
   * The successive results of Python's readline() on translated text: each
   * line keeps its '\n', only the last may lack one, and none is empty.
   */
  function SplitKeepEnds(t: string): (ls: seq<string>)
    ensures |ls| <= |t|
    decreases |t|
  {
    if t == [] then []
    else
      var rest := SplitKeepEnds(t[1..]);
      if t[0] == '\n' || rest == [] then [[t[0]]] + rest
      else [[t[0]] + rest[0]] + rest[1..]
  }

  /** No line is empty, a line holds '\n' only as its last character, and every line but the last ends in '\n'. */
  lemma {:induction false} SplitKeepEndsSpec(t: string)
    ensures forall i :: 0 <= i < |SplitKeepEnds(t)| ==> SplitKeepEnds(t)[i] != []
    ensures forall i, j :: 0 <= i < |SplitKeepEnds(t)| && 0 <= j < |SplitKeepEnds(t)[i]| - 1 ==> SplitKeepEnds(t)[i][j] != '\n'
    ensures forall i :: 0 <= i < |SplitKeepEnds(t)| - 1 ==> SplitKeepEnds(t)[i][|SplitKeepEnds(t)[i]| - 1] == '\n'
    decreases |t|
  {
    if t != [] {
      SplitKeepEndsSpec(t[1..]);
      var rest, ls := SplitKeepEnds(t[1..]), SplitKeepEnds(t);
      if t[0] == '\n' || rest == [] {
        forall i | 1 <= i < |ls| ensures ls[i] == rest[i - 1] {
        }
      } else {
        assert ls[0] == [t[0]] + rest[0];
        forall i | 1 <= i < |ls| ensures ls[i] == rest[i] {
        }
        forall j | 0 <= j < |ls[0]| - 1 ensures ls[0][j] != '\n' {
          if j > 0 {
            assert ls[0][j] == rest[0][j - 1];
          }
        }
      }
    }
  }

  /** The lines concatenated: what reading them all back gives. */
  function Concat(ls: seq<string>): string
    decreases |ls|
  {
    if ls == [] then "" else ls[0] + Concat(ls[1..])
  }

  /** readline() loses and changes nothing: its lines, concatenated, are the text. */
  lemma {:induction false} SplitKeepEndsConcat(t: string)
    ensures Concat(SplitKeepEnds(t)) == t
    decreases |t|
  {
    if t != [] {
      SplitKeepEndsConcat(t[1..]);
      var rest := SplitKeepEnds(t[1..]);
      if !(t[0] == '\n' || rest == []) {
        assert rest == [rest[0]] + rest[1..];
        assert Concat(rest) == rest[0] + Concat(rest[1..]);
      }
    }
  }

  /** The lines Python's readline() returns, in order, for a file with contents `s`. */
  function PyLines(s: string): seq<string>
  {
    SplitKeepEnds(Translate(s))
  }

  /** readline() never returns an empty line before the end of the file. */
  lemma PyLinesNonEmpty(s: string)
    ensures forall i :: 0 <= i < |PyLines(s)| ==> PyLines(s)[i] != []
  {
    SplitKeepEndsSpec(Translate(s));
  }

  /** Reading a file line by line yields its text after newline translation, nothing lost or changed. */
  lemma PyLinesConcat(s: string)
    ensures Concat(PyLines(s)) == Translate(s)
  {
    SplitKeepEndsConcat(Translate(s));
  }

  /** Python's os.path.join(a, b) for two POSIX path components. */
  function PathJoin(a: string, b: string): (p: string)
    ensures |b| <= |p| && p[|p| - |b|..] == b
  {
    if b != [] && b[0] == '/' then b
    else if a == [] || a[|a| - 1] == '/' then a + b
    else a + "/" + b
  }

  /** Joining one directory with two relative names gives two paths, unless the names are equal. */
  lemma PathJoinInjective(a: string, b1: string, b2: string)
    requires b1 != [] && b2 != [] && b1[0] != '/' && b2[0] != '/'
    requires PathJoin(a, b1) == PathJoin(a, b2)
    ensures b1 == b2
  {
    if a == [] || a[|a| - 1] == '/' {
      assert b1 == PathJoin(a, b1)[|a|..];
      assert b2 == PathJoin(a, b2)[|a|..];
    } else {
      assert b1 == PathJoin(a, b1)[|a| + 1..];
      assert b2 == PathJoin(a, b2)[|a| + 1..];
    }
  }
}
