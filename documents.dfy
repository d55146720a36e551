/** The document processor: checking and naming an uploaded file, the
    metadata recorded for it, choosing the text extractor by suffix, the
    two textual LaTeX transforms, and the fields reported after processing.

    Paths are POSIX path strings. Clock readings (the strftime timestamps)
    are parameters. The foreign extractors (PDF pages, Markdown and HTML
    text) are parameters too: their output is what the model receives. */
module Documents {

  import opened Common

  // ---------------------------------------------------------------------
  // Paths

  /** The position just after the last c in s, or 0 when there is none. */
  function AfterLast(s: string, c: char): (j: nat)
    ensures j <= |s|
    ensures forall k :: j <= k < |s| ==> s[k] != c
    ensures j == 0 || s[j - 1] == c
  {
    if s == [] then 0
    else if s[|s| - 1] == c then |s|
    else AfterLast(s[..|s| - 1], c)
  }

  /** PurePosixPath(p).name: the last component, once empty and "."
      components are dropped; "" when there is none. */
  function Name(p: string): (r: string)
    ensures '/' !in r
    ensures r != "."
    decreases |p|
  {
    var j := AfterLast(p, '/');
    var last := p[j..];
    if last == "" || last == "." then
      if j == 0 then "" else Name(p[..j - 1])
    else last
  }

  /** str(directory / name) for a plain name. */
  function JoinPath(dir: string, name: string): string
  {
    dir + "/" + name
  }

  /** AfterLast is the position after the c that no other c follows. */
  lemma AfterLastAt(s: string, c: char, j: nat)
    requires 1 <= j <= |s| && s[j - 1] == c
    requires forall k :: j <= k < |s| ==> s[k] != c
    ensures AfterLast(s, c) == j
  {
  }

  /** A name without '/' is the name of the path it is appended to. */
  lemma NameOfJoin(dir: string, name: string)
    requires '/' !in name && name != "" && name != "."
    ensures Name(JoinPath(dir, name)) == name
  {
    var p := JoinPath(dir, name);
    var j := |dir| + 1;
    assert forall k :: j <= k < |p| ==> p[k] == name[k - j];
    AfterLastAt(p, '/', j);
    assert p[j..] == name;
  }

  /** PurePath.suffix: from the last '.' of the name, unless that dot opens
      the name or ends it. */
  function Suffix(name: string): (r: string)
    ensures r != "" ==> r[0] == '.' && 2 <= |r| < |name|
  {
    var j := AfterLast(name, '.');
    if 1 < j < |name| then name[j - 1..] else ""
  }

  /** str.lower() on ASCII letters. */
  function Lower(s: string): (r: string)
    ensures |r| == |s|
    ensures forall i :: 0 <= i < |s| ==> r[i] == if 'A' <= s[i] <= 'Z' then (s[i] - 'A' + 'a') as char else s[i]
  {
    if s == [] then [] else
      var c := s[0];
      [if 'A' <= c <= 'Z' then (c - 'A' + 'a') as char else c] + Lower(s[1..])
  }

  /** Lowering text with no capital letter changes nothing. */
  lemma LowerLowercase(s: string)
    requires forall i :: 0 <= i < |s| ==> !('A' <= s[i] <= 'Z')
    ensures Lower(s) == s
  {
  }

  // ---------------------------------------------------------------------
  // Saving an upload

  const AllowedExtensions: set<string> := {".pdf", ".md", ".html", ".tex", ".txt"}
  const UnsupportedFormat: string := "지원하지 않는 파일 형식입니다: "

  /** Path(p).suffix.lower() */
  function Extension(p: string): string
  {
    Lower(Suffix(Name(p)))
  }

  datatype Metadata = Metadata(
    originalFilename: string,
    savedFilename: string,
    filePath: string,
    fileType: string,
    uploadDate: string,
    fileSize: nat)

  /** save_document(file_content, original_filename), with the timestamp it
      reads from the clock: a file whose lowercased suffix is not allowed is
      refused before anything is written. */
  function SaveDocument(papersDir: string, content: seq<bv8>, originalFilename: string, timestamp: string)
    : (r: Result<Metadata, string>)
    ensures r.Failure? <==> Extension(originalFilename) !in AllowedExtensions
    ensures r.Failure? ==> r.error == UnsupportedFormat + Extension(originalFilename)
    ensures r.Success? ==>
              var m := r.value;
              m.originalFilename == originalFilename &&
              m.savedFilename == timestamp + "_" + originalFilename &&
              m.filePath == JoinPath(papersDir, m.savedFilename) &&
              "." + m.fileType == Extension(originalFilename) &&
              m.uploadDate == timestamp &&
              m.fileSize == |content|
  {
    var ext := Extension(originalFilename);
    if ext !in AllowedExtensions then Failure(UnsupportedFormat + ext)
    else
      var unique := timestamp + "_" + originalFilename;
      assert ext[0] == '.';
      assert ext == "." + ext[1..];
      Success(Metadata(originalFilename, unique, JoinPath(papersDir, unique), ext[1..], timestamp, |content|))
  }

  // ---------------------------------------------------------------------
  // Choosing the extractor

  datatype Extractor = Pdf | Markdown | Html | Latex | PlainText

  /** The suffix each extractor serves. */
  function ServedSuffix(e: Extractor): string
  {
    match e
    case Pdf => ".pdf"
    case Markdown => ".md"
    case Html => ".html"
    case Latex => ".tex"
    case PlainText => ".txt"
  }

  /** The extractor for a lowercased suffix, if it is one of the allowed. */
  function ExtractorFor(ext: string): (r: Option<Extractor>)
    ensures r.Some? <==> ext in AllowedExtensions
    ensures r.Some? ==> ServedSuffix(r.value) == ext
  {
    if ext == ".pdf" then Some(Pdf)
    else if ext == ".md" then Some(Markdown)
    else if ext == ".html" then Some(Html)
    else if ext == ".tex" then Some(Latex)
    else if ext == ".txt" then Some(PlainText)
    else None
  }

  /** extract_text's dispatch on Path(p).suffix.lower(). */
  function Dispatch(p: string): (r: Result<Extractor, string>)
    ensures r.Success? <==> Extension(p) in AllowedExtensions
    ensures r.Success? ==> ServedSuffix(r.value) == Extension(p)
    ensures r.Failure? ==> r.error == UnsupportedFormat + Extension(p)
  {
    var ext := Extension(p);
    match ExtractorFor(ext)
    case Some(e) => Success(e)
    case None => Failure(UnsupportedFormat + ext)
  }

  /** Every allowed suffix has exactly one extractor, and every extractor
      serves an allowed suffix. */
  lemma ExtractorPerSuffix(e: Extractor, f: Extractor)
    ensures ServedSuffix(e) in AllowedExtensions
    ensures ServedSuffix(e) == ServedSuffix(f) ==> e == f
  {
  }

  /** A file save_document accepted is accepted by extract_text under its
      saved path, with the extractor of its recorded type. The timestamp and
      the original name hold no '/'. */
  lemma SavedFileIsExtractable(papersDir: string, content: seq<bv8>, originalFilename: string, timestamp: string)
    requires '/' !in timestamp && '/' !in originalFilename
    requires SaveDocument(papersDir, content, originalFilename, timestamp).Success?
    ensures var m := SaveDocument(papersDir, content, originalFilename, timestamp).value;
            Dispatch(m.filePath).Success? && ServedSuffix(Dispatch(m.filePath).value) == "." + m.fileType
  {
    var m := SaveDocument(papersDir, content, originalFilename, timestamp).value;
    assert Extension(originalFilename) in AllowedExtensions;
    NameOfPlain(originalFilename);
    SavedPathExtension(papersDir, originalFilename, timestamp);
  }

  /** The saved path has the suffix of the original name. */
  lemma SavedPathExtension(papersDir: string, originalFilename: string, timestamp: string)
    requires '/' !in timestamp && '/' !in originalFilename
    requires Name(originalFilename) == originalFilename && Suffix(originalFilename) != ""
    ensures Extension(JoinPath(papersDir, timestamp + "_" + originalFilename)) == Extension(originalFilename)
  {
    var unique := timestamp + "_" + originalFilename;
    assert '/' !in unique;
    NameOfJoin(papersDir, unique);
    SuffixOfPrefixed(timestamp + "_", originalFilename);
  }

  /** A non-empty name without '/' other than "." is its own name. */
  lemma NameOfPlain(s: string)
    requires '/' !in s && s != "" && s != "."
    ensures Name(s) == s
  {
    assert AfterLast(s, '/') == 0;
  }

  /** Putting text before a name keeps a suffix the name already has. */
  lemma SuffixOfPrefixed(pre: string, name: string)
    requires Suffix(name) != ""
    ensures Suffix(pre + name) == Suffix(name)
  {
    var p := pre + name;
    var j := AfterLast(name, '.');
    assert 1 < j < |name|;
    var jp := |pre| + j;
    assert p[jp - 1] == '.';
    assert forall k :: jp <= k < |p| ==> p[k] == name[k - |pre|];
    AfterLastAt(p, '.', jp);
    assert p[jp - 1..] == name[j - 1..];
  }

  // ---------------------------------------------------------------------
  // LaTeX

  /** The end of the line s starts: the first '\n', or |s|. */
  function LineEnd(s: string): (j: nat)
    ensures j <= |s|
    ensures forall k :: 0 <= k < j ==> s[k] != '\n'
    ensures j == |s| || s[j] == '\n'
  {
    if s == [] || s[0] == '\n' then 0 else 1 + LineEnd(s[1..])
  }

  lemma {:induction false} LineEndAt(s: string, j: nat)
    requires j <= |s| && (j == |s| || s[j] == '\n')
    requires forall k :: 0 <= k < j ==> s[k] != '\n'
    ensures LineEnd(s) == j
  {
    if j > 0 {
      LineEndAt(s[1..], j - 1);
    }
  }

  /** re.sub(r'%.*$', '', s, flags=re.MULTILINE): every '%' and the rest of
      its line go; the newline stays. */
  function StripComments(s: string): string
  {
    if s == [] then []
    else if s[0] == '%' then StripComments(s[LineEnd(s)..])
    else [s[0]] + StripComments(s[1..])
  }

  /** No '%' is left. */
  lemma {:induction false} NoPercentLeft(s: string)
    ensures '%' !in StripComments(s)
  {
    if s != [] {
      if s[0] == '%' {
        NoPercentLeft(s[LineEnd(s)..]);
      } else {
        NoPercentLeft(s[1..]);
      }
    }
  }

  /** On one line, the text before the first '%' is kept and the rest goes. */
  lemma {:induction false} StripLine(line: string, j: nat)
    requires '\n' !in line
    requires j <= |line| && '%' !in line[..j] && (j == |line| || line[j] == '%')
    ensures StripComments(line) == line[..j]
  {
    if line != [] {
      if line[0] == '%' {
        assert LineEnd(line) == |line|;
      } else {
        assert line[1..][..j - 1] == line[1..j];
        StripLine(line[1..], j - 1);
        assert [line[0]] + line[1..j] == line[..j];
      }
    }
  }

  /** Lines are stripped one by one; the newline between them stays. */
  lemma {:induction false} StripLines(a: string, b: string)
    requires '\n' !in a
    ensures StripComments(a + "\n" + b) == StripComments(a) + "\n" + StripComments(b)
  {
    var s := a + "\n" + b;
    if a == [] {
      assert s == "\n" + b;
      assert s[1..] == b;
    } else if a[0] == '%' {
      LineEndAt(s, |a|);
      assert s[|a|..] == "\n" + b;
      assert "\n" + b == [] + "\n" + b;
      LineEndAt(a, |a|);
      assert a[|a|..] == [];
      StripLines([], b);
    } else {
      assert s[1..] == a[1..] + "\n" + b;
      StripLines(a[1..], b);
    }
  }

  /** An escaped percent sign starts a comment too: the pattern does not
      look at the character before the '%'. */
  lemma EscapedPercentStartsComment()
    ensures StripComments("50\\% off") == "50\\"
  {
    var line := "50\\% off";
    assert line[..3] == "50\\";
    StripLine(line, 3);
  }

  /** A letter of [a-zA-Z]. */
  predicate IsLetter(c: char)
  {
    'a' <= c <= 'z' || 'A' <= c <= 'Z'
  }

  /** The end of the run of letters starting at i. */
  function LetterEnd(s: string, i: nat): (j: nat)
    requires i <= |s|
    ensures i <= j <= |s|
    ensures forall k :: i <= k < j ==> IsLetter(s[k])
    ensures j == |s| || !IsLetter(s[j])
    decreases |s| - i
  {
    if i < |s| && IsLetter(s[i]) then LetterEnd(s, i + 1) else i
  }

  /** The first '}' at or after i, or |s|. */
  function BraceAt(s: string, i: nat): (k: nat)
    requires i <= |s|
    ensures i <= k <= |s|
    ensures forall m :: i <= m < k ==> s[m] != '}'
    ensures k == |s| || s[k] == '}'
    decreases |s| - i
  {
    if i < |s| && s[i] != '}' then BraceAt(s, i + 1) else i
  }

  /** The pattern \\[a-zA-Z]+{([^}]*)} at the start of s: the bounds of the
      group, which is followed by the closing '}'. */
  function CommandAt(s: string): (r: Option<(nat, nat)>)
    ensures r.Some? ==> 3 <= r.value.0 <= r.value.1 < |s| && s[0] == '\\' && s[r.value.1] == '}'
    ensures r.Some? ==>
              var (a, k) := r.value;
              (forall i :: 1 <= i < a - 1 ==> IsLetter(s[i])) && s[a - 1] == '{' && '}' !in s[a..k]
  {
    if s == [] || s[0] != '\\' then None
    else
      var j := LetterEnd(s, 1);
      if j == 1 || j == |s| || s[j] != '{' then None
      else
        var k := BraceAt(s, j + 1);
        if k == |s| then None else Some((j + 1, k))
  }

  /** re.sub(r'\\[a-zA-Z]+{([^}]*)}', r'\1', s): one left-to-right pass;
      each match is replaced by its argument and scanning resumes after it,
      so a replacement is never scanned again. */
  function UnwrapCommands(s: string): string
  {
    if s == [] then []
    else match CommandAt(s)
      case Some((a, k)) => s[a..k] + UnwrapCommands(s[k + 1..])
      case None => [s[0]] + UnwrapCommands(s[1..])
  }

  /** A command with a brace-free argument becomes its argument. */
  lemma CommandUnwrapped(command: string, arg: string, rest: string)
    requires command != [] && forall i :: 0 <= i < |command| ==> IsLetter(command[i])
    requires '}' !in arg
    ensures UnwrapCommands("\\" + command + "{" + arg + "}" + rest) == arg + UnwrapCommands(rest)
  {
    var s := "\\" + command + "{" + arg + "}" + rest;
    var j := |command| + 1;
    var k := j + 1 + |arg|;
    assert forall i :: 1 <= i < j ==> s[i] == command[i - 1];
    LetterRunEnd(s, 1, j);
    assert forall m :: j + 1 <= m < k ==> s[m] == arg[m - j - 1];
    BraceRunEnd(s, j + 1, k);
    assert CommandAt(s) == Some((j + 1, k));
    assert s[j + 1..k] == arg;
    assert s[k + 1..] == rest;
  }

  lemma {:induction false} LetterRunEnd(s: string, i: nat, j: nat)
    requires i <= j < |s| && !IsLetter(s[j])
    requires forall k :: i <= k < j ==> IsLetter(s[k])
    ensures LetterEnd(s, i) == j
    decreases j - i
  {
    if i < j {
      LetterRunEnd(s, i + 1, j);
    }
  }

  lemma {:induction false} BraceRunEnd(s: string, i: nat, k: nat)
    requires i <= k < |s| && s[k] == '}'
    requires forall m :: i <= m < k ==> s[m] != '}'
    ensures BraceAt(s, i) == k
    decreases k - i
  {
    if i < k {
      BraceRunEnd(s, i + 1, k);
    }
  }

  /** The pass only keeps or drops characters: nothing new appears. */
  lemma {:induction false} UnwrapKeepsCharacters(s: string, c: char)
    requires c in UnwrapCommands(s)
    ensures c in s
  {
    if s != [] {
      match CommandAt(s)
      case Some((a, k)) =>
        if c in s[a..k] {
          var m :| a <= m < k && s[m] == c;
        } else {
          assert c in UnwrapCommands(s[k + 1..]);
          UnwrapKeepsCharacters(s[k + 1..], c);
        }
      case None =>
        if c != s[0] {
          UnwrapKeepsCharacters(s[1..], c);
        }
    }
  }

  /** Text without a backslash passes unchanged. */
  lemma {:induction false} UnwrapWithoutBackslash(s: string)
    requires '\\' !in s
    ensures UnwrapCommands(s) == s
  {
    if s != [] {
      assert s[1..] + [] == s[1..];
      UnwrapWithoutBackslash(s[1..]);
      assert [s[0]] + s[1..] == s;
    }
  }

  /** Only the outer command of a nested pair is unwrapped: the match of the
      outer command ends at the first '}', so the inner command is left
      whole and the outer closing brace stays behind it
      (\textbf{\emph{x}} becomes \emph{x}). */
  lemma NestedCommandUnwrappedOnce(outer: string, inner: string, arg: string)
    requires outer != [] && forall i :: 0 <= i < |outer| ==> IsLetter(outer[i])
    requires '}' !in inner && '}' !in arg
    ensures UnwrapCommands("\\" + outer + "{" + ("\\" + inner + "{" + arg) + "}" + "}") ==
            "\\" + inner + "{" + arg + "}"
  {
    CommandUnwrapped(outer, "\\" + inner + "{" + arg, "}");
    UnwrapWithoutBackslash("}");
  }

  /** _extract_latex_text: comments first, then commands. */
  function ExtractLatex(content: string): string
  {
    UnwrapCommands(StripComments(content))
  }

  /** The extracted LaTeX text holds no '%': a comment sign removed in the
      first pass cannot come back in the second. */
  lemma LatexTextHasNoPercent(content: string)
    ensures '%' !in ExtractLatex(content)
  {
    NoPercentLeft(content);
    if '%' in ExtractLatex(content) {
      UnwrapKeepsCharacters(StripComments(content), '%');
    }
  }

  // ---------------------------------------------------------------------
  // Text of the other formats

  /** The text of the pages, each followed by a newline. */
  function PagesText(pages: seq<string>): string
  {
    if pages == [] then "" else PagesText(pages[..|pages| - 1]) + pages[|pages| - 1] + "\n"
  }

  /** A single page contributes its text followed by one newline. */
  lemma OnePage(page: string)
    ensures PagesText([page]) == page + "\n"
  {
    assert [page][..0] == [];
  }

  /** The text of a document is the text of its first pages followed by the
      text of the rest. */
  lemma {:induction false} PagesTextAppend(a: seq<string>, b: seq<string>)
    ensures PagesText(a + b) == PagesText(a) + PagesText(b)
    decreases |b|
  {
    if b == [] {
      assert a + b == a;
    } else {
      var ab := a + b;
      assert ab[..|ab| - 1] == a + b[..|b| - 1];
      PagesTextAppend(a, b[..|b| - 1]);
    }
  }

  /** _extract_pdf_text's loop over the pages, given the text of each. */
  method PdfText(pages: seq<string>) returns (text: string)
    ensures text == PagesText(pages)
  {
    text := "";
    var i := 0;
    while i < |pages|
      invariant 0 <= i <= |pages|
      invariant text == PagesText(pages[..i])
    {
      assert pages[..i + 1][..i] == pages[..i];
      text := text + pages[i] + "\n";
      i := i + 1;
    }
    assert pages[..|pages|] == pages;
  }

  /** What the foreign readers produce for a file: the file's decoded text,
      the text of each PDF page, and the text of the Markdown and HTML
      renderings. */
  datatype Readings = Readings(raw: string, pages: seq<string>, markdownText: string, htmlText: string)

  /** extract_text(file_path) */
  function ExtractText(p: string, readings: Readings): (r: Result<string, string>)
    ensures r.Success? <==> Dispatch(p).Success?
    ensures r.Failure? ==> r == Failure(Dispatch(p).error)
  {
    match Dispatch(p)
    case Failure(e) => Failure(e)
    case Success(Pdf) => Success(PagesText(readings.pages))
    case Success(Markdown) => Success(readings.markdownText)
    case Success(Html) => Success(readings.htmlText)
    case Success(Latex) => Success(ExtractLatex(readings.raw))
    case Success(PlainText) => Success(readings.raw)
  }

  // ---------------------------------------------------------------------
  // Processing

  datatype Processed = Processed(originalFile: string, processedFile: string, textLength: nat, processedDate: string)

  /** "processed_" + name + ".txt" */
  function ProcessedName(p: string): string
  {
    "processed_" + Name(p) + ".txt"
  }

  /** process_document(file_path), with the clock reading it reports. */
  function ProcessDocument(processedDir: string, p: string, readings: Readings, processedDate: string)
    : (r: Result<Processed, string>)
    ensures r.Failure? <==> Dispatch(p).Failure?
    ensures r.Success? ==> r.value.textLength == |ExtractText(p, readings).value|
    ensures r.Success? ==> r.value.originalFile == p && r.value.processedDate == processedDate
    ensures r.Success? ==> r.value.processedFile == JoinPath(processedDir, ProcessedName(p))
  {
    match ExtractText(p, readings)
    case Failure(e) => Failure(e)
    case Success(text) =>
      Success(Processed(p, JoinPath(processedDir, ProcessedName(p)), |text|, processedDate))
  }

  lemma ProcessedSuffix(p: string)
    ensures Suffix(ProcessedName(p)) == ".txt"
  {
    var n := ProcessedName(p);
    AfterLastAt(n, '.', |n| - 3);
    assert n[|n| - 4..] == ".txt";
  }

  /** A processed file is always a plain-text file. */
  lemma ProcessedFileIsText(processedDir: string, p: string)
    ensures Dispatch(JoinPath(processedDir, ProcessedName(p))) == Success(PlainText)
  {
    ProcessedExtension(processedDir, p);
  }

  lemma ProcessedExtension(processedDir: string, p: string)
    ensures Extension(JoinPath(processedDir, ProcessedName(p))) == ".txt"
  {
    NameOfJoin(processedDir, ProcessedName(p));
    ProcessedSuffix(p);
    LowerLowercase(".txt");
  }
}
