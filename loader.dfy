/** Turning a file into document text (`read_txt`, `read_pdf` and the
    extension dispatch of `index_files` in ingest.py). Reading bytes from disk
    and PDF text extraction are parameters: a `FileSystem` gives either the
    decoded text of a file or `None` when reading fails. */
module Loader {
  import opened Wrappers
  import opened Text

  /** What the ingestion sees of the outside world. `texts[p]` is the content
      of file `p` decoded as UTF-8 with invalid bytes dropped, before the
      newline translation of text mode (`TranslateNewlines`); `pdfs[p]` is the
      result of `extract_text()` for each page of the PDF at `p` (`None` where
      it returns nothing). A path missing from the map is one whose opening,
      reading or parsing raises. */
  datatype FileSystem = FileSystem(
    texts: map<string, string>,
    pdfs: map<string, seq<Option<string>>>)

  // ---------------------------------------------------------------- read_txt

  /** What `f.read()` returns for a file opened in text mode with the default
      `newline=None`: each "\r\n" and each lone "\r" becomes "\n". */
  function TranslateNewlines(s: string): (r: string)
    ensures '\r' !in r
    decreases |s|
  {
    if s == [] then []
    else if s[0] == '\r' then
      if |s| > 1 && s[1] == '\n' then "\n" + TranslateNewlines(s[2..])
      else "\n" + TranslateNewlines(s[1..])
    else [s[0]] + TranslateNewlines(s[1..])
  }

  /** Text without carriage returns passes through the translation unchanged. */
  lemma {:induction false} TranslatePrefix(a: string, b: string)
    requires '\r' !in a
    ensures TranslateNewlines(a + b) == a + TranslateNewlines(b)
  {
    if a != [] {
      assert (a + b)[0] == a[0] && (a + b)[1..] == a[1..] + b;
      assert '\r' !in a[1..];
      TranslatePrefix(a[1..], b);
    } else {
      assert a + b == b;
    }
  }

  /** A line break written "\r\n" reads as "\n". */
  lemma TranslateCrLf(a: string, b: string)
    requires '\r' !in a
    ensures TranslateNewlines(a + "\r\n" + b) == a + "\n" + TranslateNewlines(b)
  {
    var t := "\r\n" + b;
    assert a + "\r\n" + b == a + t;
    TranslatePrefix(a, t);
    assert t[0] == '\r' && t[1] == '\n' && t[2..] == b;
  }

  /** A lone "\r" (not followed by "\n") reads as "\n". */
  lemma TranslateLoneCr(a: string, b: string)
    requires '\r' !in a
    requires b == [] || b[0] != '\n'
    ensures TranslateNewlines(a + "\r" + b) == a + "\n" + TranslateNewlines(b)
  {
    var t := "\r" + b;
    assert a + "\r" + b == a + t;
    TranslatePrefix(a, t);
    assert t[0] == '\r' && t[1..] == b;
  }

  /** Text without carriage returns is read as it is. */
  lemma TranslateAbsent(s: string)
    requires '\r' !in s
    ensures TranslateNewlines(s) == s
  {
    TranslatePrefix(s, []);
    assert s + [] == s;
  }

  /** Each line stripped (the generator of `read_txt`). */
  function StripEach(lines: seq<string>): (r: seq<string>)
    ensures |r| == |lines|
    ensures forall i :: 0 <= i < |r| ==> r[i] == Strip(lines[i])
  {
    seq(|lines|, i requires 0 <= i < |lines| => Strip(lines[i]))
  }

  /** The normalisation `read_txt` applies to the file's text: drop every
      carriage return, split at line feeds, strip each line, join with line feeds. */
  function Normalise(txt: string): string
  {
    Join("\n", StripEach(Split(RemoveChar(txt, '\r'), '\n')))
  }

  /** A stripped line has no line feed when the line had none. */
  lemma StripEachNoSeparator(lines: seq<string>, c: char)
    requires forall i :: 0 <= i < |lines| ==> c !in lines[i]
    ensures forall i :: 0 <= i < |lines| ==> c !in StripEach(lines)[i]
  {
    forall i | 0 <= i < |lines| ensures c !in StripEach(lines)[i] {
      if c in Strip(lines[i]) {
        StripChars(lines[i], c);
      }
    }
  }

  /** The lines of the normalised text are the stripped lines of the input
      with carriage returns removed. */
  lemma NormaliseLines(txt: string)
    ensures Split(Normalise(txt), '\n') == StripEach(Split(RemoveChar(txt, '\r'), '\n'))
  {
    var lines := Split(RemoveChar(txt, '\r'), '\n');
    StripEachNoSeparator(lines, '\n');
    SplitJoin(StripEach(lines), '\n');
  }

  /** The normalised text contains no carriage return. */
  lemma NormaliseNoCarriageReturn(txt: string)
    ensures '\r' !in Normalise(txt)
  {
    var lines := Split(RemoveChar(txt, '\r'), '\n');
    forall i | 0 <= i < |lines| ensures '\r' !in lines[i] {
      if '\r' in lines[i] {
        JoinSplit(RemoveChar(txt, '\r'), '\n');
        JoinHasPieceChars("\n", lines, i, '\r');
      }
    }
    StripEachNoSeparator(lines, '\r');
    if '\r' in Normalise(txt) {
      JoinChars("\n", StripEach(lines), '\r');
    }
  }

  /** A character of a piece is a character of the join. */
  lemma {:induction false} JoinHasPieceChars(sep: string, parts: seq<string>, i: nat, c: char)
    requires i < |parts| && c in parts[i]
    ensures c in Join(sep, parts)
  {
    if i == 0 {
      JoinStartsWithFirst(sep, parts);
      var j :| 0 <= j < |parts[0]| && parts[0][j] == c;
      assert Join(sep, parts)[j] == c;
    } else {
      JoinHasPieceChars(sep, parts[1..], i - 1, c);
      var rest := Join(sep, parts[1..]);
      var j :| 0 <= j < |rest| && rest[j] == c;
      assert Join(sep, parts)[|parts[0]| + |sep| + j] == c;
    }
  }

  /** The normalised text has as many lines as the input, once its carriage
      returns are removed: one more than the number of line feeds. */
  lemma NormaliseLineCount(txt: string)
    ensures |Split(Normalise(txt), '\n')| == Count(RemoveChar(txt, '\r'), '\n') + 1
  {
    NormaliseLines(txt);
  }

  /** No line of the normalised text has leading or trailing whitespace. */
  lemma NormaliseLinesStripped(txt: string)
    ensures forall l :: l in Split(Normalise(txt), '\n') ==> Strip(l) == l
  {
    NormaliseLines(txt);
    var lines := Split(RemoveChar(txt, '\r'), '\n');
    forall l | l in StripEach(lines) ensures Strip(l) == l {
      var i :| 0 <= i < |lines| && StripEach(lines)[i] == l;
      StripIdempotent(lines[i]);
    }
  }

  /** Normalising twice gives the same text as normalising once. */
  lemma NormaliseIdempotent(txt: string)
    ensures Normalise(Normalise(txt)) == Normalise(txt)
  {
    var once := Normalise(txt);
    NormaliseNoCarriageReturn(txt);
    RemoveCharAbsent(once, '\r');
    NormaliseLines(txt);
    var lines := StripEach(Split(RemoveChar(txt, '\r'), '\n'));
    assert Split(RemoveChar(once, '\r'), '\n') == lines;
    forall i | 0 <= i < |lines| ensures StripEach(lines)[i] == lines[i] {
      StripIdempotent(Split(RemoveChar(txt, '\r'), '\n')[i]);
    }
    assert StripEach(lines) == lines;
  }

  /** A single line without surrounding whitespace is left as it is. */
  lemma NormaliseSingleLine(txt: string)
    requires '\r' !in txt && '\n' !in txt && Strip(txt) == txt
    ensures Normalise(txt) == txt
  {
    RemoveCharAbsent(txt, '\r');
    SplitNoSeparator(txt, '\n');
    assert StripEach([txt]) == [txt];
  }

  // ---------------------------------------------------------------- read_pdf

  /** `read_pdf`: the page texts (a page without text counts as "") joined
      with line feeds. */
  function PdfText(pages: seq<Option<string>>): string
  {
    Join("\n", PageTexts(pages))
  }

  function PageTexts(pages: seq<Option<string>>): (texts: seq<string>)
    ensures |texts| == |pages|
    ensures forall i :: 0 <= i < |pages| ==> texts[i] == (if pages[i].Some? then pages[i].value else "")
  {
    seq(|pages|, i requires 0 <= i < |pages| => if pages[i].Some? then pages[i].value else "")
  }

  /** When no page text contains a line feed, the lines of the PDF text are
      the page texts, one per page. */
  lemma PdfTextPages(pages: seq<Option<string>>)
    requires |pages| >= 1
    requires forall i :: 0 <= i < |pages| && pages[i].Some? ==> '\n' !in pages[i].value
    ensures Split(PdfText(pages), '\n') == PageTexts(pages)
  {
    SplitJoin(PageTexts(pages), '\n');
  }

  // ---------------------------------------------------------------- paths

  /** Index of the last `c` in `s`, or -1. */
  function LastIndexOf(s: string, c: char): (r: int)
    ensures -1 <= r < |s|
    ensures r >= 0 ==> s[r] == c
    ensures forall i :: r < i < |s| ==> s[i] != c
  {
    if s == [] then -1
    else if s[|s| - 1] == c then |s| - 1
    else LastIndexOf(s[..|s| - 1], c)
  }

  /** POSIX `os.path.basename`: what follows the last '/'. */
  function Basename(path: string): (b: string)
    ensures '/' !in b
    ensures |b| <= |path| && b == path[|path| - |b|..]
  {
    path[LastIndexOf(path, '/') + 1..]
  }

  /** The extension part of POSIX `os.path.splitext`: from the last '.' of the
      base name, provided some character before that dot is not a dot
      (so ".bashrc" and "..." have no extension). */
  function Extension(path: string): (ext: string)
    ensures ext == [] || (ext[0] == '.' && '.' !in ext[1..] && '/' !in ext)
  {
    var b := Basename(path);
    var d := LastIndexOf(b, '.');
    if d > 0 && exists i :: 0 <= i < d && b[i] != '.' then b[d..]
    else []
  }

  /** The base name is everything after the last '/': it has no '/', it is a
      suffix of the path, and what precedes it, if anything, is a '/'. */
  lemma BasenameSpec(path: string)
    ensures var b := Basename(path);
      '/' !in b && |b| <= |path| && b == path[|path| - |b|..] &&
      (|b| < |path| ==> path[|path| - |b| - 1] == '/')
  {
  }

  /** The extension is the base name's suffix from its last '.', when it
      has one: a suffix of the base name that starts with its only '.'. */
  lemma ExtensionSpec(path: string)
    ensures var b, ext := Basename(path), Extension(path);
      |ext| <= |b| && ext == b[|b| - |ext|..] &&
      (ext == [] || (ext[0] == '.' && '.' !in ext[1..]))
  {
  }

  function AsciiLower(c: char): char
  {
    if 'A' <= c <= 'Z' then (c as int + 32) as char else c
  }

  /** Whether `ext.lower() == ".pdf"`. Only ASCII letters lower-case to
      'p', 'd' or 'f', so ASCII lower-casing decides this comparison. */
  predicate IsPdfExtension(ext: string)
  {
    |ext| == 4 && ext[0] == '.' && AsciiLower(ext[1]) == 'p' &&
    AsciiLower(ext[2]) == 'd' && AsciiLower(ext[3]) == 'f'
  }

  /** The text of one file as `index_files` obtains it: a file whose extension
      is ".pdf" in any letter case goes through `read_pdf`, every other file
      through `read_txt`; `None` when reading raises. */
  function ReadDocument(fs: FileSystem, path: string): Option<string>
  {
    if IsPdfExtension(Extension(path)) then
      if path in fs.pdfs then Some(PdfText(fs.pdfs[path])) else None
    else
      if path in fs.texts then Some(Normalise(TranslateNewlines(fs.texts[path]))) else None
  }

  /** The base name of "<dir>/<name>" is `name` when `name` has no '/'. */
  lemma BasenameOfJoin(dir: string, name: string)
    requires '/' !in name
    ensures Basename(dir + "/" + name) == name
  {
    var path := dir + "/" + name;
    assert path[|dir|] == '/';
    assert path[|dir| + 1..] == name;
  }

  /** `splitext` on a base name "<stem>.<e>": the extension is ".<e>" when `e`
      has no dot and the stem has a character other than '.'. */
  lemma ExtensionOfStem(path: string, stem: string, e: string)
    requires Basename(path) == stem + "." + e
    requires '.' !in e
    requires exists i :: 0 <= i < |stem| && stem[i] != '.'
    ensures Extension(path) == "." + e
  {
    StemDot(stem, e);
  }

  /** In "<stem>.<e>" with a dot-free `e`, the last dot ends the stem, and a
      non-dot character of the stem comes before it. */
  lemma StemDot(stem: string, e: string)
    requires '.' !in e
    requires exists i :: 0 <= i < |stem| && stem[i] != '.'
    ensures var b := stem + "." + e;
      LastIndexOf(b, '.') == |stem| && b[|stem|..] == "." + e &&
      exists i :: 0 <= i < |stem| && b[i] != '.'
  {
    var b := stem + "." + e;
    assert b[|stem|] == '.';
    assert forall i :: |stem| < i < |b| ==> b[i] == e[i - |stem| - 1];
    var i :| 0 <= i < |stem| && stem[i] != '.';
    assert b[i] == stem[i];
    assert b[|stem|..] == "." + e;
  }

  /** A base name without a dot has no extension. */
  lemma ExtensionNoDot(path: string)
    requires '.' !in Basename(path)
    ensures Extension(path) == []
  {
  }

  /** A readable text file yields its normalised content: its lines, as text
      mode reads them, each stripped; so no carriage return and no line with
      surrounding whitespace. */
  lemma TextDocument(fs: FileSystem, path: string)
    requires !IsPdfExtension(Extension(path)) && path in fs.texts
    ensures ReadDocument(fs, path) == Some(Normalise(TranslateNewlines(fs.texts[path])))
    ensures Split(ReadDocument(fs, path).value, '\n') == StripEach(Split(TranslateNewlines(fs.texts[path]), '\n'))
    ensures '\r' !in ReadDocument(fs, path).value
    ensures forall l :: l in Split(ReadDocument(fs, path).value, '\n') ==> Strip(l) == l
  {
    var read := TranslateNewlines(fs.texts[path]);
    NormaliseLines(read);
    RemoveCharAbsent(read, '\r');
    NormaliseNoCarriageReturn(read);
    NormaliseLinesStripped(read);
  }

  /** A readable PDF whose page texts have no line feed yields one line per
      page, "" for a page without text. */
  lemma PdfDocument(fs: FileSystem, path: string)
    requires IsPdfExtension(Extension(path)) && path in fs.pdfs && |fs.pdfs[path]| >= 1
    requires forall i :: 0 <= i < |fs.pdfs[path]| && fs.pdfs[path][i].Some? ==> '\n' !in fs.pdfs[path][i].value
    ensures ReadDocument(fs, path).Some?
    ensures Split(ReadDocument(fs, path).value, '\n') == PageTexts(fs.pdfs[path])
  {
    PdfTextPages(fs.pdfs[path]);
  }

  /** A file that is missing from the map its extension selects cannot be
      read, and only such a file. */
  lemma UnreadableDocument(fs: FileSystem, path: string)
    ensures ReadDocument(fs, path).None? <==>
              (if IsPdfExtension(Extension(path)) then path !in fs.pdfs else path !in fs.texts)
  {
  }

  /** Upper- and mixed-case ".pdf" extensions select the PDF reader. */
  lemma PdfExtensionCases()
    ensures IsPdfExtension(".pdf") && IsPdfExtension(".PDF") && IsPdfExtension(".Pdf")
    ensures !IsPdfExtension(".txt") && !IsPdfExtension(".pdfx") && !IsPdfExtension("pdf")
  {
  }
}
