/** Turning an uploaded file into plain text (`extract_text_from_file`). The file readers
    (pandas, pdfplumber, byte decoding) are not modelled: what each yields on a given file
    is part of the `Upload` value. */
module Extraction {
  import opened Wrappers
  import opened Text

  /** The branches of the dispatch on the file name. */
  datatype FileKind = PlainText | Csv | Spreadsheet | Pdf | Fallback

  /** An uploaded file together with what each foreign reader yields on it. */
  datatype Upload = Upload(
    name: string,
    /** `read().decode(errors="ignore")`: a lossy decode, which never raises */
    decoded: string,
    /** `pd.read_csv(...).to_string()` */
    csvTable: Result<string>,
    /** `pd.read_excel(...).to_string()` */
    excelTable: Result<string>,
    /** `page.extract_text()` for each page in document order, `None` where a page has no
        text; `Err` when opening the document or reading one of its pages raises */
    pdfPages: Result<seq<Option<string>>>)

  /** Whether the lower-cased name `n` carries one of the suffixes of `kind`. */
  predicate Matches(n: string, kind: FileKind) {
    match kind
    case PlainText => EndsWith(n, ".txt")
    case Csv => EndsWith(n, ".csv")
    case Spreadsheet => EndsWith(n, ".xlsx") || EndsWith(n, ".xls")
    case Pdf => EndsWith(n, ".pdf")
    case Fallback => false
  }

  /** The branch taken on a file name: the first suffix test that succeeds. */
  function Classify(name: string): FileKind {
    var n := Lower(name);
    if EndsWith(n, ".txt") then PlainText
    else if EndsWith(n, ".csv") then Csv
    else if EndsWith(n, ".xlsx") || EndsWith(n, ".xls") then Spreadsheet
    else if EndsWith(n, ".pdf") then Pdf
    else Fallback
  }

  /** No name carries the suffixes of two different kinds (their last letters differ). */
  lemma SuffixesExclusive(n: string, k1: FileKind, k2: FileKind)
    requires Matches(n, k1) && Matches(n, k2)
    ensures k1 == k2
  {
    var last := n[|n| - 1];
    assert k1.PlainText? ==> last == 't';
    assert k1.Csv? ==> last == 'v';
    assert k1.Spreadsheet? ==> last == 'x' || last == 's';
    assert k1.Pdf? ==> last == 'f';
    assert k2.PlainText? ==> last == 't';
    assert k2.Csv? ==> last == 'v';
    assert k2.Spreadsheet? ==> last == 'x' || last == 's';
    assert k2.Pdf? ==> last == 'f';
  }

  /** The order of the suffix tests does not matter: a name is classified as the one kind whose
      suffix it carries, ignoring case, and falls back exactly when it carries none. */
  lemma ClassifyBySuffix(name: string, kind: FileKind)
    ensures kind != Fallback ==> (Classify(name) == kind <==> Matches(Lower(name), kind))
    ensures Classify(name) == Fallback <==>
      !Matches(Lower(name), PlainText) && !Matches(Lower(name), Csv) &&
      !Matches(Lower(name), Spreadsheet) && !Matches(Lower(name), Pdf)
  {
    var n := Lower(name);
    var k := Classify(name);
    if kind != Fallback && Matches(n, kind) {
      assert Matches(n, k);
      SuffixesExclusive(n, k, kind);
    }
  }

  /** Case is ignored: a name and its lower-case form are read the same way. */
  lemma ClassifyIgnoresCase(name: string)
    ensures Classify(Lower(name)) == Classify(name)
  {
    LowerKeepsLowerCase(Lower(name));
  }

  const ErrorPrefix: string := "[Erreur lors de la lecture du fichier: "

  /** The text that replaces the document when a reader raises. */
  function ErrorText(cause: string): (r: string)
    ensures |r| == |ErrorPrefix| + |cause| + 1
    ensures r[..|ErrorPrefix|] == ErrorPrefix && r[|r| - 1] == ']'
  {
    ErrorPrefix + cause + "]"
  }

  /** The cause embedded in an extraction error text, if `t` has that form. */
  function ErrorCause(t: string): Option<string> {
    if |t| > |ErrorPrefix| && t[..|ErrorPrefix|] == ErrorPrefix && t[|t| - 1] == ']'
    then Some(t[|ErrorPrefix|..|t| - 1])
    else None
  }

  /** The error text keeps the cause verbatim: it can be read back. */
  lemma ErrorCauseRoundTrip(cause: string)
    ensures ErrorCause(ErrorText(cause)) == Some(cause)
  {
    var t := ErrorText(cause);
    assert t[|ErrorPrefix|..|t| - 1] == cause;
  }

  /** What one PDF page adds to the text: its text and a newline, or nothing when the page
      has no text or an empty one. */
  function PageText(page: Option<string>): string {
    if page.Some? && page.value != "" then page.value + "\n" else ""
  }

  /** The accumulated text after the loop over `pages` (in document order). */
  function Joined(pages: seq<Option<string>>): string {
    if pages == [] then "" else Joined(pages[..|pages| - 1]) + PageText(pages[|pages| - 1])
  }

  /** The texts of the pages that have any, in document order. */
  function NonEmptyTexts(pages: seq<Option<string>>): (texts: seq<string>)
    ensures forall i :: 0 <= i < |texts| ==> texts[i] != ""
  {
    if pages == [] then []
    else if pages[0].Some? && pages[0].value != "" then [pages[0].value] + NonEmptyTexts(pages[1..])
    else NonEmptyTexts(pages[1..])
  }

  /** Each text followed by a newline, in order. */
  function Lines(texts: seq<string>): string {
    if texts == [] then "" else texts[0] + "\n" + Lines(texts[1..])
  }

  lemma {:induction false} LinesSnoc(texts: seq<string>, t: string)
    ensures Lines(texts + [t]) == Lines(texts) + t + "\n"
  {
    if texts == [] {
      assert [] + [t] == [t];
    } else {
      assert (texts + [t])[1..] == texts[1..] + [t];
      LinesSnoc(texts[1..], t);
    }
  }

  lemma {:induction false} NonEmptyTextsSnoc(pages: seq<Option<string>>, p: Option<string>)
    ensures NonEmptyTexts(pages + [p]) ==
      NonEmptyTexts(pages) + (if p.Some? && p.value != "" then [p.value] else [])
  {
    if pages == [] {
      assert [] + [p] == [p];
    } else {
      assert (pages + [p])[0] == pages[0];
      assert (pages + [p])[1..] == pages[1..] + [p];
      NonEmptyTextsSnoc(pages[1..], p);
    }
  }

  /** The PDF text is the text of every page that has any, each followed by a newline, in
      document order; pages without text contribute nothing. */
  lemma {:induction false} JoinedIsLines(pages: seq<Option<string>>)
    ensures Joined(pages) == Lines(NonEmptyTexts(pages))
  {
    if pages != [] {
      var init, last := pages[..|pages| - 1], pages[|pages| - 1];
      assert pages == init + [last];
      JoinedIsLines(init);
      NonEmptyTextsSnoc(init, last);
      assert Joined(pages) == Joined(init) + PageText(last);
      if last.Some? && last.value != "" {
        LinesSnoc(NonEmptyTexts(init), last.value);
      } else {
        assert NonEmptyTexts(init) + [] == NonEmptyTexts(init);
        assert Joined(init) + "" == Joined(init);
      }
    }
  }

  lemma {:induction false} LinesAppend(x: seq<string>, y: seq<string>)
    ensures Lines(x + y) == Lines(x) + Lines(y)
  {
    if x == [] {
      assert x + y == y;
    } else {
      assert (x + y)[0] == x[0];
      assert (x + y)[1..] == x[1..] + y;
      LinesAppend(x[1..], y);
    }
  }

  lemma {:induction false} NonEmptyTextsAppend(a: seq<Option<string>>, b: seq<Option<string>>)
    ensures NonEmptyTexts(a + b) == NonEmptyTexts(a) + NonEmptyTexts(b)
  {
    if a == [] {
      assert a + b == b;
    } else {
      assert (a + b)[0] == a[0];
      assert (a + b)[1..] == a[1..] + b;
      NonEmptyTextsAppend(a[1..], b);
    }
  }

  /** Reading a document in two parts and concatenating gives the text of the whole. */
  lemma JoinedAppend(a: seq<Option<string>>, b: seq<Option<string>>)
    ensures Joined(a + b) == Joined(a) + Joined(b)
  {
    JoinedIsLines(a + b);
    JoinedIsLines(a);
    JoinedIsLines(b);
    NonEmptyTextsAppend(a, b);
    LinesAppend(NonEmptyTexts(a), NonEmptyTexts(b));
  }

  /** A page without text, wherever it stands, leaves the text unchanged. */
  lemma EmptyPageIgnored(a: seq<Option<string>>, b: seq<Option<string>>, page: Option<string>)
    requires page.None? || page.value == ""
    ensures Joined(a + [page] + b) == Joined(a + b)
  {
    var ap := a + [page];
    assert NonEmptyTexts([page]) == [] by {
      assert [page][1..] == [];
    }
    NonEmptyTextsAppend(a, [page]);
    assert NonEmptyTexts(ap) == NonEmptyTexts(a);
    NonEmptyTextsAppend(ap, b);
    NonEmptyTextsAppend(a, b);
    JoinedIsLines(ap + b);
    JoinedIsLines(a + b);
  }

  /** The PDF branch: the loop over the pages, accumulating each page's text and a newline. */
  method ConcatPages(pages: seq<Option<string>>) returns (text: string)
    ensures text == Joined(pages)
  {
    text := "";
    for i := 0 to |pages|
      invariant text == Joined(pages[..i])
    {
      assert pages[..i + 1][..i] == pages[..i];
      var pageText := pages[i];
      if pageText.Some? && pageText.value != "" {
        text := text + pageText.value + "\n";
      }
    }
    assert pages[..|pages|] == pages;
  }

  /** The text of a table reader's outcome, or the error text when it raised. */
  function TableText(table: Result<string>): string {
    match table
    case Ok(t) => t
    case Err(cause) => ErrorText(cause)
  }

  /** `extract_text_from_file`: the text for the branch the name selects; a reader that raises
      yields the error text instead of propagating. */
  function ExtractText(u: Upload): string {
    match Classify(u.name)
    case PlainText => u.decoded
    case Csv => TableText(u.csvTable)
    case Spreadsheet => TableText(u.excelTable)
    case Pdf => (match u.pdfPages case Ok(pages) => Joined(pages) case Err(cause) => ErrorText(cause))
    case Fallback => u.decoded
  }

  /** The reader that the name selects and what it yields: `None` for the lossy decode, which
      cannot fail. */
  function ReaderFailure(u: Upload): Option<string> {
    match Classify(u.name)
    case Csv => if u.csvTable.Err? then Some(u.csvTable.cause) else None
    case Spreadsheet => if u.excelTable.Err? then Some(u.excelTable.cause) else None
    case Pdf => if u.pdfPages.Err? then Some(u.pdfPages.cause) else None
    case _ => None
  }

  /** Failures never escape: when the selected reader raises, the text is the error text and
      its cause can be read back; otherwise the text is what the reader produced. */
  lemma ExtractFailureIsText(u: Upload)
    ensures ReaderFailure(u).Some? ==>
      ExtractText(u) == ErrorText(ReaderFailure(u).value) &&
      ErrorCause(ExtractText(u)) == ReaderFailure(u)
    ensures ReaderFailure(u).None? && Classify(u.name) == Csv ==> ExtractText(u) == u.csvTable.value
    ensures ReaderFailure(u).None? && Classify(u.name) == Spreadsheet ==>
      ExtractText(u) == u.excelTable.value
    ensures ReaderFailure(u).None? && Classify(u.name) == Pdf ==>
      ExtractText(u) == Lines(NonEmptyTexts(u.pdfPages.value))
    ensures Classify(u.name) in {PlainText, Fallback} ==> ExtractText(u) == u.decoded
  {
    if ReaderFailure(u).Some? {
      ErrorCauseRoundTrip(ReaderFailure(u).value);
    } else if Classify(u.name) == Pdf {
      JoinedIsLines(u.pdfPages.value);
    }
  }

  /** A PDF that cannot be opened yields the error text rather than an exception. */
  lemma UnreadablePdfScenario(cause: string)
    ensures ExtractText(Upload("doc.pdf", "", Err(cause), Err(cause), Err(cause))) == ErrorText(cause)
  {
    var name := "doc.pdf";
    assert Lower(name) == name by {
      LowerKeepsLowerCase(name);
    }
    assert Classify(name) == Pdf by {
      assert !EndsWith(name, ".txt") && !EndsWith(name, ".csv") && !EndsWith(name, ".xlsx");
      assert !EndsWith(name, ".xls") && EndsWith(name, ".pdf");
    }
  }

  /** `extract_text_from_file`, with the PDF branch run as a loop. */
  method ExtractTextFromFile(u: Upload) returns (text: string)
    ensures text == ExtractText(u)
  {
    text := "";
    var name := Lower(u.name);
    if EndsWith(name, ".txt") {
      text := u.decoded;
    } else if EndsWith(name, ".csv") {
      match u.csvTable {
        case Ok(t) => text := t;
        case Err(cause) => text := ErrorText(cause);
      }
    } else if EndsWith(name, ".xlsx") || EndsWith(name, ".xls") {
      match u.excelTable {
        case Ok(t) => text := t;
        case Err(cause) => text := ErrorText(cause);
      }
    } else if EndsWith(name, ".pdf") {
      match u.pdfPages {
        case Ok(pages) => text := ConcatPages(pages);
        case Err(cause) => text := ErrorText(cause);
      }
    } else {
      text := u.decoded;
    }
  }
}
