/**
 * `extract_emails_from_file`: choose a reader by the file's extension, then
 * either take the values of the first column whose name mentions "email"
 * or scan the whole table, a plain-text file or a PDF's page text with the
 * address pattern.
 *
 * Reading the file itself (pandas' CSV and Excel readers, UTF-8 decoding
 * of a text file, PDF page-text extraction) is outside the model: the
 * `FileContents` argument says what each reader hands back for the file.
 */
module Extraction {
  import opened Wrappers
  import opened Seqs
  import opened EmailFormat
  import opened EmailScan

  /** The two pandas readers a tabular file can go to. */
  datatype Reader = CsvReader | ExcelReader

  /** The branch `extract_emails_from_file` takes. */
  datatype SourceKind = Tabular(reader: Reader) | PlainText | Pdf

  /** The `ValueError` raised for any other extension. */
  datatype ExtractError = UnsupportedFormat

  /** A pandas frame read with `dtype=str`: column names and rows of cells, `None` for a missing value. */
  datatype Table = Table(header: seq<string>, rows: seq<seq<Option<string>>>)

  /** What each reader returns for the file at hand; only the one the extension selects is consulted. */
  datatype FileContents = FileContents(
    csv: Table,
    excel: Table,
    text: string,
    pdfPages: seq<Option<string>>)

  /** `os.path.splitext` on POSIX paths: the extension runs from the last dot of the last path component, unless that component is only dots up to it. */
  function SplitExt(path: string): (r: (string, string))
    ensures r.0 + r.1 == path
    ensures r.1 == [] || (r.1[0] == '.' && '.' !in r.1[1..] && '/' !in r.1)
  {
    var sepIndex: int := match LastIndexFrom(path, '/', 0) case Some(k) => k case None => -1;
    match LastIndexFrom(path, '.', 0)
    case None => (path, [])
    case Some(dot) =>
      if dot as int > sepIndex && exists k :: sepIndex + 1 <= k < dot && path[k] != '.' then
        assert path[dot + 1..] == path[dot..][1..];
        assert forall k :: dot < k < |path| ==> path[k] != '/';
        (path[..dot], path[dot..])
      else (path, [])
  }

  /** `str.lower()` on ASCII letters. */
  function Lower(s: string): (r: string)
    ensures |r| == |s|
    ensures forall k :: 0 <= k < |s| ==> r[k] == if 'A' <= s[k] <= 'Z' then (s[k] as int + 32) as char else s[k]
  {
    if s == [] then []
    else [if 'A' <= s[0] <= 'Z' then (s[0] as int + 32) as char else s[0]] + Lower(s[1..])
  }

  /** The dispatch on the lower-cased extension. */
  function Classify(path: string): (r: Result<SourceKind, ExtractError>)
    ensures var ext := Lower(SplitExt(path).1);
      && (r == Success(Tabular(CsvReader)) <==> ext == ".csv")
      && (r == Success(Tabular(ExcelReader)) <==> ext == ".xls" || ext == ".xlsx")
      && (r == Success(PlainText) <==> ext == ".txt")
      && (r == Success(Pdf) <==> ext == ".pdf")
      && (r.Failure? <==> ext !in [".csv", ".xls", ".xlsx", ".txt", ".pdf"])
  {
    var ext := Lower(SplitExt(path).1);
    if ext == ".csv" then Success(Tabular(CsvReader))
    else if ext in [".xls", ".xlsx"] then Success(Tabular(ExcelReader))
    else if ext == ".txt" then Success(PlainText)
    else if ext == ".pdf" then Success(Pdf)
    else Failure(UnsupportedFormat)
  }

  /** `needle in hay` for strings. */
  predicate Contains(hay: string, needle: string) {
    exists k :: 0 <= k <= |hay| && needle <= hay[k..]
  }

  predicate MentionsEmail(column: string) {
    Contains(Lower(column), "email")
  }

  /** `next(col for col in df.columns if 'email' in col.lower())`: the first column, in header order, whose name mentions "email". */
  function EmailColumn(header: seq<string>): (r: Option<nat>)
    ensures r.Some? ==> r.value < |header| && MentionsEmail(header[r.value])
                        && forall c :: 0 <= c < r.value ==> !MentionsEmail(header[c])
    ensures r.None? ==> forall c :: 0 <= c < |header| ==> !MentionsEmail(header[c])
  {
    if header == [] then None
    else if MentionsEmail(header[0]) then Some(0)
    else
      match EmailColumn(header[1..])
      case None => None
      case Some(c) => Some(c + 1)
  }

  /** A cell of a row; a row shorter than the header reads as missing values, as pandas pads it. */
  function Cell(row: seq<Option<string>>, c: nat): Option<string> {
    if c < |row| then row[c] else None
  }

  /** `df[col].dropna()`: the present values of column `c`, in row order. */
  function PresentValues(rows: seq<seq<Option<string>>>, c: nat): (vs: seq<string>)
    ensures forall v :: v in vs <==> exists r :: 0 <= r < |rows| && Cell(rows[r], c) == Some(v)
  {
    if rows == [] then []
    else
      var rest := PresentValues(rows[1..], c);
      assert forall r :: 1 <= r < |rows| ==> rows[r] == rows[1..][r - 1];
      match Cell(rows[0], c)
      case None => rest
      case Some(v) => [v] + rest
  }

  /** Characters Python's `str.isspace` accepts, by code point. */
  predicate IsSpace(c: char) {
    var n := c as int;
    || 9 <= n <= 13 || 0x1C <= n <= 0x20 || n == 0x85 || n == 0xA0 || n == 0x1680
    || 0x2000 <= n <= 0x200A || n == 0x2028 || n == 0x2029 || n == 0x202F || n == 0x205F || n == 0x3000
  }

  predicate SpaceRange(s: string, lo: int, hi: int)
    requires 0 <= lo <= hi <= |s|
  {
    forall k :: lo <= k < hi ==> IsSpace(s[k])
  }

  /** First position at or after `lo` that is not whitespace. */
  function LeadEnd(s: string, lo: nat): (e: nat)
    requires lo <= |s|
    ensures lo <= e <= |s| && SpaceRange(s, lo, e) && (e < |s| ==> !IsSpace(s[e]))
    decreases |s| - lo
  {
    if lo == |s| || !IsSpace(s[lo]) then lo else LeadEnd(s, lo + 1)
  }

  /** Last position in `[lo, hi]` after which `s[..hi]` is only whitespace. */
  function TrailStart(s: string, lo: nat, hi: nat): (b: nat)
    requires lo <= hi <= |s|
    ensures lo <= b <= hi && SpaceRange(s, b, hi) && (b > lo ==> !IsSpace(s[b - 1]))
    decreases hi - lo
  {
    if hi == lo || !IsSpace(s[hi - 1]) then hi else TrailStart(s, lo, hi - 1)
  }

  /** `str.strip()`: drop leading and trailing whitespace. */
  function Strip(s: string): (r: string)
    ensures exists lo :: 0 <= lo && lo + |r| <= |s| && s[lo..lo + |r|] == r
                         && SpaceRange(s, 0, lo) && SpaceRange(s, lo + |r|, |s|)
    ensures r == [] || (!IsSpace(r[0]) && !IsSpace(r[|r| - 1]))
  {
    var a := LeadEnd(s, 0);
    var b := TrailStart(s, a, |s|);
    assert b > a ==> s[a..b][0] == s[a] && s[a..b][b - a - 1] == s[b - 1];
    s[a..b]
  }

  function StripAll(vs: seq<string>): (r: seq<string>)
    ensures |r| == |vs| && forall k :: 0 <= k < |vs| ==> r[k] == Strip(vs[k])
  {
    if vs == [] then [] else [Strip(vs[0])] + StripAll(vs[1..])
  }

  /** The column path: `df[col].dropna().str.strip().unique().tolist()`. */
  function ColumnCandidates(t: Table, c: nat): seq<string> {
    Unique(StripAll(PresentValues(t.rows, c)))
  }

  /** A missing cell reads as `''` after `fillna('')`. */
  function CellText(row: seq<Option<string>>, c: nat): string {
    match Cell(row, c) case Some(v) => v case None => ""
  }

  /** `' '.join(parts)`, which is `''` for no parts. */
  function JoinSpaces(parts: seq<string>): string {
    if parts == [] then "" else Join(parts, ' ')
  }

  /** The row's values after `fillna('')`, one per column of the table. */
  function RowCells(row: seq<Option<string>>, width: nat): seq<string> {
    seq(width, c requires 0 <= c < width => CellText(row, c))
  }

  /** `' '.join(row.values)` over the table's columns. */
  function RowText(row: seq<Option<string>>, width: nat): string {
    JoinSpaces(RowCells(row, width))
  }

  function RowTexts(t: Table): seq<string> {
    seq(|t.rows|, r requires 0 <= r < |t.rows| => RowText(t.rows[r], |t.header|))
  }

  /**
   * The fallback text: every row's text, joined with single spaces. A frame
   * without rows comes back from `apply` unchanged, and joining a frame
   * iterates its column names, so then the header is what gets scanned.
   */
  function TableText(t: Table): string {
    if t.rows == [] then JoinSpaces(t.header) else JoinSpaces(RowTexts(t))
  }

  /** What a table yields: its email column's values, or else a scan of all its text. */
  function FromTable(t: Table): seq<string> {
    match EmailColumn(t.header)
    case Some(c) => ColumnCandidates(t, c)
    case None => ExtractEmailsFromText(TableText(t))
  }

  /** `page.extract_text() or ''`. */
  function PageText(page: Option<string>): string {
    match page case Some(t) => t case None => ""
  }

  /** The PDF text: every page's text, one after the other. */
  function ConcatPages(pages: seq<Option<string>>): string {
    if pages == [] then "" else ConcatPages(pages[..|pages| - 1]) + PageText(pages[|pages| - 1])
  }

  /** What `extract_emails_from_file` returns, or the error it raises. */
  function ExtractedFromFile(path: string, contents: FileContents): Result<seq<string>, ExtractError> {
    match Classify(path)
    case Failure(e) => Failure(e)
    case Success(Tabular(CsvReader)) => Success(FromTable(contents.csv))
    case Success(Tabular(ExcelReader)) => Success(FromTable(contents.excel))
    case Success(PlainText) => Success(ExtractEmailsFromText(contents.text))
    case Success(Pdf) => Success(ExtractEmailsFromText(ConcatPages(contents.pdfPages)))
  }

  /** The PDF branch's loop: `text += page.extract_text() or ''` over the pages. */
  method PdfText(pages: seq<Option<string>>) returns (text: string)
    ensures text == ConcatPages(pages)
  {
    text := "";
    var k := 0;
    while k < |pages|
      invariant 0 <= k <= |pages|
      invariant text == ConcatPages(pages[..k])
    {
      assert pages[..k + 1][..k] == pages[..k];
      text := text + PageText(pages[k]);
      k := k + 1;
    }
    assert pages[..k] == pages;
  }

  /** `extract_emails_from_file(path)` on a file whose readers return `contents`. */
  method ExtractEmailsFromFile(path: string, contents: FileContents) returns (r: Result<seq<string>, ExtractError>)
    ensures r == ExtractedFromFile(path, contents)
  {
    var kind := Classify(path);
    match kind
    case Failure(e) =>
      r := Failure(e);
    case Success(Tabular(CsvReader)) =>
      r := Success(FromTable(contents.csv));
    case Success(Tabular(ExcelReader)) =>
      r := Success(FromTable(contents.excel));
    case Success(PlainText) =>
      r := Success(ExtractEmailsFromText(contents.text));
    case Success(Pdf) =>
      var text := PdfText(contents.pdfPages);
      r := Success(ExtractEmailsFromText(text));
  }

  /**
   * The last path component has an extension: a character other than a dot
   * followed later by a dot, with no `/` from that character on.
   */
  predicate HasExtension(path: string) {
    exists k, m :: 0 <= k < m < |path| && path[k] != '.' && path[m] == '.' && '/' !in path[k..]
  }

  /** `splitext` finds an extension exactly when the last component has one. */
  lemma SplitExtIffExtension(path: string)
    ensures SplitExt(path).1 != [] <==> HasExtension(path)
  {
    var sepIndex: int := match LastIndexFrom(path, '/', 0) case Some(k) => k case None => -1;
    if HasExtension(path) {
      var k, m :| 0 <= k < m < |path| && path[k] != '.' && path[m] == '.' && '/' !in path[k..];
      assert forall i :: k <= i < |path| ==> path[i] == path[k..][i - k];
      assert sepIndex < k;
      var dot := LastIndexFrom(path, '.', 0);
      assert dot.Some? && dot.value >= m;
      assert sepIndex + 1 <= k < dot.value && path[k] != '.';
    }
    if SplitExt(path).1 != [] {
      var dot := LastIndexFrom(path, '.', 0).value;
      var k :| sepIndex + 1 <= k < dot && path[k] != '.';
      assert forall i :: k <= i < |path| ==> path[k..][i - k] == path[i];
      assert '/' !in path[k..];
    }
  }

  /**
   * An upload path `dir + stem + ext`, where `dir` is empty or ends in `/`
   * and the stem does not start with a dot, splits at the extension's dot.
   */
  lemma SplitExtOfPath(dir: string, stem: string, ext: string)
    requires dir == [] || dir[|dir| - 1] == '/'
    requires stem != [] && stem[0] != '.' && '/' !in stem && '/' !in ext
    requires ext != [] && ext[0] == '.' && '.' !in ext[1..]
    ensures SplitExt(dir + stem + ext) == (dir + stem, ext)
  {
    var path := dir + stem + ext;
    var n := |dir| + |stem|;
    assert forall k :: |dir| <= k < n ==> path[k] == stem[k - |dir|];
    assert forall k :: n <= k < |path| ==> path[k] == ext[k - n];
    assert forall k :: |dir| <= k < |path| ==> path[k] != '/';
    if dir == [] {
      assert LastIndexFrom(path, '/', 0) == None;
    } else {
      assert path[|dir| - 1] == '/';
      LastIndexIs(path, '/', 0, |dir| - 1);
    }
    assert forall k :: n < k < |path| ==> path[k] != '.' by {
      assert forall k :: n < k < |path| ==> path[k] == ext[1..][k - n - 1];
    }
    LastIndexIs(path, '.', 0, n);
    assert path[|dir|] != '.';
    assert path[..n] == dir + stem && path[n..] == ext;
  }

  /** The extension is compared case-insensitively: `uploads/X.CSV` goes to the CSV reader. */
  lemma UpperCaseCsvIsCsv()
    ensures Classify("uploads/X.CSV") == Success(Tabular(CsvReader))
  {
    SplitExtOfPath("uploads/", "X", ".CSV");
    assert "uploads/" + "X" + ".CSV" == "uploads/X.CSV";
    assert Lower(".CSV") == ".csv";
  }

  /** Only the last extension counts: `archive.tar.gz` is refused. */
  lemma DoubleExtensionRefused()
    ensures Classify("archive.tar.gz") == Failure(UnsupportedFormat)
  {
    var path := "archive.tar.gz";
    assert LastIndexFrom(path, '/', 0) == None;
    assert LastIndexFrom(path, '.', 0) == Some(11);
    assert path[0] != '.';
    assert SplitExt(path).1 == ".gz";
    assert Lower(".gz") == ".gz";
  }

  /** A hidden file such as `.csv` has no extension and is refused. */
  lemma HiddenFileRefused()
    ensures Classify(".csv") == Failure(UnsupportedFormat)
  {
    assert LastIndexFrom(".csv", '/', 0) == None;
    LastIndexIs(".csv", '.', 0, 0);
    assert SplitExt(".csv") == (".csv", "");
  }

  /** A dot in a directory name is not an extension. */
  lemma DottedDirectoryRefused()
    ensures Classify("dir.csv/data") == Failure(UnsupportedFormat)
  {
    var path := "dir.csv/data";
    LastIndexIs(path, '/', 0, 7);
    LastIndexIs(path, '.', 0, 3);
    assert SplitExt(path) == (path, "");
  }

  /** A needle whose first character the text lacks is not in it. */
  lemma NotContainedWithoutLead(hay: string, needle: string)
    requires needle != [] && needle[0] !in hay
    ensures !Contains(hay, needle)
  {
    assert forall k :: 0 <= k < |hay| ==> hay[k..][0] == hay[k];
  }

  /** A needle longer than the text is not in it. */
  lemma NotContainedWhenShorter(hay: string, needle: string)
    requires |hay| < |needle|
    ensures !Contains(hay, needle)
  {
  }

  /** A text that starts with the needle contains it. */
  lemma ContainedAsPrefix(hay: string, needle: string)
    requires |needle| <= |hay| && hay[..|needle|] == needle
    ensures Contains(hay, needle)
  {
    assert hay[0..] == hay;
    assert needle <= hay;
  }

  /** Lower-casing works character by character, so it distributes over concatenation. */
  lemma LowerAppend(a: string, b: string)
    ensures Lower(a + b) == Lower(a) + Lower(b)
  {
    var l, la, lb := Lower(a + b), Lower(a), Lower(b);
    assert forall k :: 0 <= k < |a| ==> (a + b)[k] == a[k];
    assert forall k :: |a| <= k < |a + b| ==> (a + b)[k] == b[k - |a|];
    assert forall k :: 0 <= k < |l| ==> l[k] == (la + lb)[k];
  }

  /** Any column named "Email..." in any case mentions email. */
  lemma EmailPrefixMentions(suffix: string)
    ensures MentionsEmail("Email" + suffix)
  {
    LowerAppend("Email", suffix);
    assert Lower("Email") == "email";
    var l := Lower("Email" + suffix);
    assert l[..5] == "email";
    ContainedAsPrefix(l, "email");
  }

  /** A column such as "EmailAddress" after a "Name" column is the one chosen. */
  lemma EmailAddressColumnChosen(suffix: string)
    ensures EmailColumn(["Name", "Email" + suffix]) == Some(1)
  {
    var h := ["Name", "Email" + suffix];
    NotContainedWhenShorter(Lower(h[0]), "email");
    EmailPrefixMentions(suffix);
    assert h[1..] == [h[1]];
    assert EmailColumn(h[1..]) == Some(0);
  }

  /** A column name without any `e` or `E` does not mention email. */
  lemma WithoutEDoesNotMention(column: string)
    requires 'e' !in column && 'E' !in column
    ensures !MentionsEmail(column)
  {
    var l := Lower(column);
    assert forall k :: 0 <= k < |l| ==> l[k] != 'e';
    NotContainedWithoutLead(l, "email");
  }

  /** A table whose columns are "Name" and "Contact" has no email column. */
  lemma NoEmailColumn()
    ensures EmailColumn(["Name", "Contact"]) == None
  {
    var h := ["Name", "Contact"];
    NotContainedWhenShorter(Lower(h[0]), "email");
    WithoutEDoesNotMention(h[1]);
    assert h[1..] == [h[1]] && h[1..][1..] == [];
  }

  /**
   * The column path keeps each stripped present value once, in order of
   * first appearance, exactly as written otherwise: no lowercasing and no
   * format check.
   */
  lemma ColumnCandidatesAreStrippedValues(t: Table, c: nat)
    ensures NoDuplicates(ColumnCandidates(t, c))
    ensures forall v :: v in ColumnCandidates(t, c) <==>
      exists r, w :: 0 <= r < |t.rows| && Cell(t.rows[r], c) == Some(w) && v == Strip(w)
  {
    var present := PresentValues(t.rows, c);
    var stripped := StripAll(present);
    assert Elements(ColumnCandidates(t, c)) == Elements(stripped);
    forall v ensures v in ColumnCandidates(t, c) <==>
      exists r, w :: 0 <= r < |t.rows| && Cell(t.rows[r], c) == Some(w) && v == Strip(w)
    {
      if v in ColumnCandidates(t, c) {
        assert v in Elements(stripped);
        var k :| 0 <= k < |stripped| && stripped[k] == v;
        assert present[k] in present;
      }
      if exists r, w :: 0 <= r < |t.rows| && Cell(t.rows[r], c) == Some(w) && v == Strip(w) {
        var r, w :| 0 <= r < |t.rows| && Cell(t.rows[r], c) == Some(w) && v == Strip(w);
        assert w in present;
        var k :| 0 <= k < |present| && present[k] == w;
        assert stripped[k] == v;
        assert v in Elements(stripped);
      }
    }
  }

  /** `dropna()` over two runs of rows is the present values of the first run, then those of the second. */
  lemma {:induction false} PresentValuesAppend(a: seq<seq<Option<string>>>, b: seq<seq<Option<string>>>, c: nat)
    ensures PresentValues(a + b, c) == PresentValues(a, c) + PresentValues(b, c)
    decreases |a|
  {
    if a == [] {
      assert a + b == b;
    } else {
      assert (a + b)[1..] == a[1..] + b;
      PresentValuesAppend(a[1..], b, c);
    }
  }

  /** A single row contributes its cell in column `c` when present, and nothing when missing. */
  lemma PresentValuesOfRow(row: seq<Option<string>>, c: nat)
    ensures PresentValues([row], c) == match Cell(row, c) case Some(v) => [v] case None => []
  {
    assert [row][1..] == [];
  }

  /** The stripped value of a row's cell in column `c`, if present. */
  function StrippedCell(row: seq<Option<string>>, c: nat): Option<string> {
    match Cell(row, c) case Some(w) => Some(Strip(w)) case None => None
  }

  /** A present cell in row `r2` sits in `dropna()` right after the values of the rows above it. */
  lemma PresentValueOfRow(rows: seq<seq<Option<string>>>, c: nat, r2: nat)
    requires r2 < |rows| && Cell(rows[r2], c).Some?
    ensures var n := |PresentValues(rows[..r2], c)|;
      n < |PresentValues(rows, c)| && PresentValues(rows, c)[n] == Cell(rows[r2], c).value
  {
    var above, below := rows[..r2], rows[r2..];
    assert rows == above + below;
    PresentValuesAppend(above, below, c);
    assert below == [rows[r2]] + below[1..];
    PresentValuesAppend([rows[r2]], below[1..], c);
    PresentValuesOfRow(rows[r2], c);
  }

  /** The values before that position all come from rows above `r2`. */
  lemma PresentValueAbove(rows: seq<seq<Option<string>>>, c: nat, r2: nat, i: nat)
    requires r2 <= |rows| && i < |PresentValues(rows[..r2], c)|
    ensures i < |PresentValues(rows, c)|
    ensures exists r1 :: 0 <= r1 < r2 && Cell(rows[r1], c) == Some(PresentValues(rows, c)[i])
  {
    var above := rows[..r2];
    assert rows == above + rows[r2..];
    PresentValuesAppend(above, rows[r2..], c);
    var p1 := PresentValues(above, c);
    assert p1[i] in p1;
    var r1 :| 0 <= r1 < |above| && Cell(above[r1], c) == Some(p1[i]);
    assert rows[r1] == above[r1];
  }

  /**
   * The column path lists values in row order of first appearance: for two
   * candidates, wherever the later one occurs, the earlier one already
   * occurred in a row above.
   */
  lemma ColumnCandidatesInRowOrder(t: Table, c: nat, a: nat, b: nat, r2: nat)
    requires a < b < |ColumnCandidates(t, c)| && r2 < |t.rows|
    requires StrippedCell(t.rows[r2], c) == Some(ColumnCandidates(t, c)[b])
    ensures exists r1 :: 0 <= r1 < r2 && StrippedCell(t.rows[r1], c) == Some(ColumnCandidates(t, c)[a])
  {
    var cands := ColumnCandidates(t, c);
    var present := PresentValues(t.rows, c);
    var stripped := StripAll(present);
    var n := |PresentValues(t.rows[..r2], c)|;
    PresentValueOfRow(t.rows, c, r2);
    assert stripped[n] == cands[b];
    FirstIndexAtMost(stripped, n);
    UniqueInFirstOccurrenceOrder(stripped, a, b);
    var i := FirstIndex(stripped, cands[a]);
    PresentValueAbove(t.rows, c, r2, i);
    var r1 :| 0 <= r1 < r2 && Cell(t.rows[r1], c) == Some(present[i]);
    assert StrippedCell(t.rows[r1], c) == Some(cands[a]);
  }

  /** An all-blank cell in the email column becomes `""` and is kept; other values keep their case. */
  lemma BlankCellKept()
    ensures ColumnCandidates(Table(["Email"], [[Some("  ")], [Some(" A@B.co ")]]), 0) == ["", "A@B.co"]
  {
    var t := Table(["Email"], [[Some("  ")], [Some(" A@B.co ")]]);
    assert t.rows[1..] == [[Some(" A@B.co ")]];
    assert PresentValues(t.rows, 0) == ["  ", " A@B.co "];
    assert LeadEnd("  ", 0) == 2;
    assert Strip("  ") == "";
    assert LeadEnd(" A@B.co ", 0) == 1;
    assert TrailStart(" A@B.co ", 1, 8) == 7;
    assert Strip(" A@B.co ") == "A@B.co";
    assert StripAll(["  ", " A@B.co "]) == ["", "A@B.co"];
    UniqueOfDistinct(["", "A@B.co"]);
  }

  /** Stripping twice is stripping once. */
  lemma StripIdempotent(s: string)
    ensures Strip(Strip(s)) == Strip(s)
  {
    var r := Strip(s);
    assert LeadEnd(r, 0) == 0;
    assert TrailStart(r, 0, |r|) == |r|;
  }

  /** `' '.join(parts)` holds a character other than a space only if one of the parts does. */
  lemma {:induction false} JoinSpacesAvoids(parts: seq<string>, ch: char)
    requires ch != ' ' && forall k :: 0 <= k < |parts| ==> ch !in parts[k]
    ensures ch !in JoinSpaces(parts)
  {
    if |parts| > 1 {
      var j := Join(parts[1..], ' ');
      assert JoinSpaces(parts) == parts[0] + [' '] + j;
      JoinSpacesAvoids(parts[1..], ch);
    }
  }

  /**
   * Without an email column and without an `@` in any cell, the fallback
   * finds nothing; a table without rows needs no `@` in its column names.
   */
  lemma FallbackWithoutAtFindsNothing(t: Table)
    requires EmailColumn(t.header).None?
    requires forall r, c :: 0 <= r < |t.rows| && 0 <= c < |t.header| ==> '@' !in CellText(t.rows[r], c)
    requires t.rows == [] ==> forall c :: 0 <= c < |t.header| ==> '@' !in t.header[c]
    ensures FromTable(t) == []
  {
    if t.rows == [] {
      JoinSpacesAvoids(t.header, '@');
    } else {
      var rowTexts := RowTexts(t);
      forall r | 0 <= r < |t.rows| ensures '@' !in rowTexts[r] {
        JoinSpacesAvoids(RowCells(t.rows[r], |t.header|), '@');
      }
      JoinSpacesAvoids(rowTexts, '@');
    }
    NoAtNoEmails(TableText(t));
  }

  /**
   * A table with a single column and no rows, named like an address but
   * not mentioning "email", yields that name: the header is scanned.
   */
  lemma HeaderOnlyTableScansHeader(name: string)
    requires InGrammar(name) && !MentionsEmail(name)
    ensures FromTable(Table([name], [])) == [name]
  {
    var t := Table([name], []);
    assert [name][1..] == [];
    assert EmailColumn(t.header) == None;
    assert JoinSpaces(t.header) == name;
    FoundWhole(name);
  }

  /** A CSV file holding only the line `a@x.com` yields that address, read from the header. */
  lemma AddressAsHeaderFound()
    ensures FromTable(Table(["a@x.com"], [])) == ["a@x.com"]
  {
    var name := "a@x.com";
    assert SplitsAt(name, 1, 3);
    WithoutEDoesNotMention(name);
    HeaderOnlyTableScansHeader(name);
  }

  /** Every address the fallback, the text branch or the PDF branch returns passes `is_valid_format`. */
  lemma ScannedBranchesAreValid(path: string, contents: FileContents)
    requires Classify(path) == Success(PlainText) || Classify(path) == Success(Pdf)
             || (Classify(path) == Success(Tabular(CsvReader)) && EmailColumn(contents.csv.header).None?)
             || (Classify(path) == Success(Tabular(ExcelReader)) && EmailColumn(contents.excel.header).None?)
    ensures ExtractedFromFile(path, contents).Success?
    ensures forall m :: m in ExtractedFromFile(path, contents).value ==> IsValidFormat(m)
  {
    match Classify(path)
    case Success(PlainText) => ExtractedAreValid(contents.text);
    case Success(Pdf) => ExtractedAreValid(ConcatPages(contents.pdfPages));
    case Success(Tabular(CsvReader)) => ExtractedAreValid(TableText(contents.csv));
    case Success(Tabular(ExcelReader)) => ExtractedAreValid(TableText(contents.excel));
  }

  /** The PDF text of two runs of pages is the text of the first followed by that of the second. */
  lemma {:induction false} ConcatPagesAppend(a: seq<Option<string>>, b: seq<Option<string>>)
    ensures ConcatPages(a + b) == ConcatPages(a) + ConcatPages(b)
    decreases |b|
  {
    if b != [] {
      var init := b[..|b| - 1];
      assert (a + b)[..|a + b| - 1] == a + init;
      ConcatPagesAppend(a, init);
    } else {
      assert a + b == a;
    }
  }

  /** A page without text contributes nothing. */
  lemma MissingPageAddsNothing(pages: seq<Option<string>>, k: nat)
    requires k < |pages| && PageText(pages[k]) == ""
    ensures ConcatPages(pages) == ConcatPages(pages[..k] + pages[k + 1..])
  {
    var pre, rest := pages[..k], pages[k + 1..];
    var head := pre + [pages[k]];
    assert pages == head + rest;
    assert head[..|head| - 1] == pre;
    assert ConcatPages(head) == ConcatPages(pre);
    ConcatPagesAppend(head, rest);
    ConcatPagesAppend(pre, rest);
  }
}
