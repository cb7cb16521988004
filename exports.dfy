/** The text that `generateReport` and `generateZipFile` put into their
    downloads: the CSV audit report of every record and the plain-text listing
    that stands in for the zip archive. */
module Exports {
  import opened Wrappers
  import opened JsText
  import opened ProcessingStatus

  const REPORT_HEADERS: seq<string> :=
    ["Nome Original", "Status", "Número de Série", "Novo Nome", "Motivo do Erro"]

  /** The report's status column: only a success is "Processado". */
  function ReportStatus(s: Status): (text: string)
    ensures text == "Processado" <==> s == Success
    ensures text == "Erro" <==> s != Success
  {
    if s == Success then "Processado" else "Erro"
  }

  /** `value || '-'`: a missing or empty optional field becomes "-". */
  function OrDash(o: Option<string>): (cell: string)
    ensures cell != ""
    ensures o.Some? && o.value != "" ==> cell == o.value
    ensures o.None? || o.value == "" ==> cell == "-"
  {
    if o.Some? && o.value != "" then o.value else "-"
  }

  /** The five cells of one record's row. */
  function ReportRow(f: ProcessingFile): (row: seq<string>)
    ensures |row| == |REPORT_HEADERS| && row[0] == f.name
    ensures row[1] == "Processado" <==> f.status == Success
    ensures f.status != Success ==> row[1] == "Erro"
    ensures forall c :: 2 <= c < |row| ==> row[c] != ""
    ensures f.serialNumber.Some? && f.serialNumber.value != "" ==> row[2] == f.serialNumber.value
    ensures f.serialNumber.None? || f.serialNumber.value == "" ==> row[2] == "-"
    ensures f.newName.Some? && f.newName.value != "" ==> row[3] == f.newName.value
    ensures f.newName.None? || f.newName.value == "" ==> row[3] == "-"
    ensures f.errorReason.Some? && f.errorReason.value != "" ==> row[4] == f.errorReason.value
    ensures f.errorReason.None? || f.errorReason.value == "" ==> row[4] == "-"
  {
    [f.name, ReportStatus(f.status), OrDash(f.serialNumber), OrDash(f.newName), OrDash(f.errorReason)]
  }

  /** A cell wrapped in double quotes, embedded quotes left as they are. */
  function Quote(cell: string): (q: string)
    ensures |q| == |cell| + 2 && q[0] == '"' && q[|q| - 1] == '"'
    ensures forall i :: 0 <= i < |cell| ==> q[i + 1] == cell[i]
  {
    "\"" + cell + "\""
  }

  /** One CSV line: the quoted cells joined by commas. */
  function CsvLine(row: seq<string>): (line: string)
    ensures line == "" <==> row == []
  {
    Join(",", Map(Quote, row))
  }

  /** `generateReport`'s `csvContent`: the header line, then one line per
      record, joined by newlines. */
  function GenerateReport(files: seq<ProcessingFile>): (csv: string)
    ensures CsvLine(REPORT_HEADERS) <= csv
  {
    var lines := Map(CsvLine, [REPORT_HEADERS] + Map(ReportRow, files));
    assert lines[0] == CsvLine(REPORT_HEADERS);
    Join("\n", lines)
  }

  /** A line of two or more cells: the first quoted cell, a comma, the rest. */
  lemma CsvLineCons(row: seq<string>)
    requires |row| >= 2
    ensures CsvLine(row) == Quote(row[0]) + "," + CsvLine(row[1..])
  {
    assert Map(Quote, row)[1..] == Map(Quote, row[1..]);
  }

  /** The header line: the five column titles, each quoted, separated by
      commas. */
  lemma HeaderLine()
    ensures CsvLine(REPORT_HEADERS) ==
              Quote("Nome Original") + "," + Quote("Status") + "," + Quote("Número de Série") + "," +
              Quote("Novo Nome") + "," + Quote("Motivo do Erro")
  {
    CsvLineOfFive("Nome Original", "Status", "Número de Série", "Novo Nome", "Motivo do Erro");
  }

  /** A five-cell line spelled out cell by cell. */
  lemma CsvLineOfFive(a: string, b: string, c: string, d: string, e: string)
    ensures CsvLine([a, b, c, d, e]) == Quote(a) + "," + Quote(b) + "," + Quote(c) + "," + Quote(d) + "," + Quote(e)
  {
    var h := [a, b, c, d, e];
    CsvLineCons(h);
    CsvLineCons(h[1..]);
    CsvLineCons(h[1..][1..]);
    CsvLineCons(h[1..][1..][1..]);
    assert h[1..][1..][1..][1..] == [e];
    assert Map(Quote, [e]) == [Quote(e)];
  }

  /** The header line reads back as the five column titles. */
  lemma HeaderReadsBack()
    ensures ParseCsvLine(CsvLine(REPORT_HEADERS)) == Some(REPORT_HEADERS)
  {
    var h := REPORT_HEADERS;
    assert '"' !in h[0] && '"' !in h[1] && '"' !in h[2] && '"' !in h[3] && '"' !in h[4];
    CsvLineRoundTrip(h);
  }

  /** A character other than a quote or a comma is in a CSV line only if it
      is in one of its cells. */
  lemma {:induction false} CharNotInCsvLine(row: seq<string>, ch: char)
    requires ch != '"' && ch != ','
    requires forall c :: 0 <= c < |row| ==> ch !in row[c]
    ensures ch !in CsvLine(row)
    decreases |row|
  {
    if |row| >= 2 {
      CsvLineCons(row);
      CharNotInCsvLine(row[1..], ch);
    }
  }

  /** A record's cells, none of which holds a line break. */
  predicate SingleLine(f: ProcessingFile) {
    forall c :: 0 <= c < 5 ==> '\n' !in ReportRow(f)[c]
  }

  /** Whatever the records, the report begins with the header line. */
  lemma ReportStartsWithHeader(files: seq<ProcessingFile>)
    ensures CsvLine(REPORT_HEADERS) <= GenerateReport(files)
    ensures files != [] ==> CsvLine(REPORT_HEADERS) + "\n" <= GenerateReport(files)
  {
    var lines := Map(CsvLine, [REPORT_HEADERS] + Map(ReportRow, files));
    assert lines[0] == CsvLine(REPORT_HEADERS);
    if |lines| > 1 {
      assert GenerateReport(files) == lines[0] + "\n" + Join("\n", lines[1..]);
    }
  }

  /** When no cell holds a line break, no line of the report does. */
  lemma ReportLinesUnbroken(files: seq<ProcessingFile>)
    requires forall i :: 0 <= i < |files| ==> SingleLine(files[i])
    ensures var lines := Map(CsvLine, [REPORT_HEADERS] + Map(ReportRow, files));
      forall i :: 0 <= i < |lines| ==> '\n' !in lines[i]
  {
    var rows := [REPORT_HEADERS] + Map(ReportRow, files);
    forall i | 0 <= i < |rows| ensures '\n' !in CsvLine(rows[i]) {
      if i == 0 {
        HeaderUnbroken();
      } else {
        assert rows[i] == ReportRow(files[i - 1]);
        RecordLineUnbroken(files[i - 1]);
      }
    }
  }

  /** The header line holds no line break. */
  lemma HeaderUnbroken()
    ensures '\n' !in CsvLine(REPORT_HEADERS)
  {
    CharNotInCsvLine(REPORT_HEADERS, '\n');
  }

  /** A record whose cells hold no line break has a line without one. */
  lemma RecordLineUnbroken(f: ProcessingFile)
    requires SingleLine(f)
    ensures '\n' !in CsvLine(ReportRow(f))
  {
    CharNotInCsvLine(ReportRow(f), '\n');
  }

  /** When no cell holds a line break, splitting the report at line breaks
      gives the header line followed by one line per record, in order. */
  lemma ReportLines(files: seq<ProcessingFile>)
    requires forall i :: 0 <= i < |files| ==> SingleLine(files[i])
    ensures var lines := Split(GenerateReport(files), '\n');
      && |lines| == |files| + 1
      && lines[0] == CsvLine(REPORT_HEADERS)
      && forall i :: 0 <= i < |files| ==> lines[i + 1] == CsvLine(ReportRow(files[i]))
  {
    var lines := Map(CsvLine, [REPORT_HEADERS] + Map(ReportRow, files));
    assert GenerateReport(files) == Join("\n", lines);
    ReportLinesUnbroken(files);
    SplitJoin(lines, '\n');
  }

  /** Reads one CSV line of quoted cells without escapes: a quote, the cell
      up to the next quote, the closing quote, then either the end or a comma
      and the next cell. */
  function ParseCsvLine(line: string): Option<seq<string>>
    decreases |line|
  {
    if |line| == 0 || line[0] != '"' then None
    else match IndexOf(line[1..], "\"")
      case None => None
      case Some(i) =>
        var cell, rest := line[1..1 + i], line[i + 2..];
        if rest == [] then Some([cell])
        else if rest[0] != ',' then None
        else match ParseCsvLine(rest[1..])
          case None => None
          case Some(cells) => Some([cell] + cells)
  }

  /** A quoted cell without quotes inside ends at the first quote after the
      opening one. */
  lemma QuotedCellEnds(cell: string, rest: string)
    requires '"' !in cell
    ensures IndexOf(cell + "\"" + rest, "\"") == Some(|cell|)
  {
    var s := cell + "\"" + rest;
    assert OccursAt(s, "\"", |cell|);
    forall j | 0 <= j < |cell| ensures !OccursAt(s, "\"", j) {
      assert s[j..j + 1][0] == cell[j];
    }
    IndexOfFirst(s, "\"", |cell|);
  }

  /** Reading a line that starts with a quoted cell without quotes inside,
      followed by `rest`. */
  lemma ParseFirstCell(cell: string, rest: string)
    requires '"' !in cell
    ensures var line := Quote(cell) + rest;
      && (rest == [] ==> ParseCsvLine(line) == Some([cell]))
      && (|rest| > 0 && rest[0] == ',' ==>
            ParseCsvLine(line) ==
              match ParseCsvLine(rest[1..])
              case None => None
              case Some(cells) => Some([cell] + cells))
  {
    var line := Quote(cell) + rest;
    assert line[1..] == cell + "\"" + rest;
    QuotedCellEnds(cell, rest);
    assert line[1..1 + |cell|] == cell;
    assert line[|cell| + 2..] == rest;
  }

  /** A single quoted cell without quotes inside reads back as itself. */
  lemma ParseOneCell(cell: string)
    requires '"' !in cell
    ensures ParseCsvLine(Quote(cell)) == Some([cell])
  {
    assert Quote(cell) + [] == Quote(cell);
    ParseFirstCell(cell, []);
  }

  /** A quoted cell without quotes inside, a comma and a line that reads back
      as `cells` read back as that cell followed by `cells`. */
  lemma ParseNextCell(cell: string, tail: string, cells: seq<string>)
    requires '"' !in cell
    requires ParseCsvLine(tail) == Some(cells)
    ensures ParseCsvLine(Quote(cell) + "," + tail) == Some([cell] + cells)
  {
    var rest := "," + tail;
    assert Quote(cell) + "," + tail == Quote(cell) + rest;
    assert rest[1..] == tail;
    ParseFirstCell(cell, rest);
  }

  /** Every non-empty list of cells without quotes is read back from its
      CSV line. */
  lemma {:induction false} CsvLineRoundTrip(row: seq<string>)
    requires |row| >= 1
    requires forall c :: 0 <= c < |row| ==> '"' !in row[c]
    ensures ParseCsvLine(CsvLine(row)) == Some(row)
    decreases |row|
  {
    if |row| == 1 {
      assert Map(Quote, row) == [Quote(row[0])];
      ParseOneCell(row[0]);
      assert [row[0]] == row;
    } else {
      CsvLineCons(row);
      CsvLineRoundTrip(row[1..]);
      ParseNextCell(row[0], CsvLine(row[1..]), row[1..]);
      assert [row[0]] + row[1..] == row;
    }
  }

  /** With no quote and no line break in any cell, each record's line of the
      report reads back as its five cells. */
  lemma ReportRowsRoundTrip(files: seq<ProcessingFile>, i: nat)
    requires forall j :: 0 <= j < |files| ==> SingleLine(files[j])
    requires i < |files| && forall c :: 0 <= c < 5 ==> '"' !in ReportRow(files[i])[c]
    ensures |Split(GenerateReport(files), '\n')| == |files| + 1
    ensures ParseCsvLine(Split(GenerateReport(files), '\n')[i + 1]) == Some(ReportRow(files[i]))
  {
    ReportLines(files);
    CsvLineRoundTrip(ReportRow(files[i]));
  }

  /** The cells after the name in the row of an error record without serial
      number, new name or reason, with their leading comma. */
  const ERROR_ROW_TAIL := "," + CsvLine(["Erro", "-", "-", "-"])

  /** The line of such a record: its quoted name, then that tail. */
  lemma ErrorRowLine(f: ProcessingFile)
    requires f.status == Error && f.serialNumber.None? && f.newName.None? && f.errorReason.None?
    ensures CsvLine(ReportRow(f)) == Quote(f.name) + ERROR_ROW_TAIL
  {
    CsvLineCons(ReportRow(f));
    assert ReportRow(f)[1..] == ["Erro", "-", "-", "-"];
  }

  /** The report of one record: the header line and that record's line. */
  lemma ReportOfOne(f: ProcessingFile)
    ensures GenerateReport([f]) == CsvLine(REPORT_HEADERS) + "\n" + CsvLine(ReportRow(f))
  {
    var lines := Map(CsvLine, [REPORT_HEADERS] + Map(ReportRow, [f]));
    assert |lines| == 2 && lines[0] == CsvLine(REPORT_HEADERS);
    assert lines[1..] == [CsvLine(ReportRow(f))];
    assert Join("\n", lines) == lines[0] + "\n" + Join("\n", lines[1..]);
  }

  /** The report of two records: the header line and their two lines. */
  lemma ReportOfTwo(f: ProcessingFile, g: ProcessingFile)
    ensures GenerateReport([f, g]) ==
              CsvLine(REPORT_HEADERS) + "\n" + (CsvLine(ReportRow(f)) + "\n" + CsvLine(ReportRow(g)))
  {
    var lines := Map(CsvLine, [REPORT_HEADERS] + Map(ReportRow, [f, g]));
    assert lines[1..] == [CsvLine(ReportRow(f)), CsvLine(ReportRow(g))];
    assert lines[1..][1..] == [CsvLine(ReportRow(g))];
    assert |lines| == 3 && lines[0] == CsvLine(REPORT_HEADERS);
    assert Join("\n", lines) == lines[0] + "\n" + Join("\n", lines[1..]);
    assert Join("\n", lines[1..]) == lines[1] + "\n" + Join("\n", lines[1..][1..]);
  }

  /** A first cell that closes its own quote, repeats the tail `t`, breaks
      the line and opens a quote makes a line that reads as two lines with
      that tail. */
  lemma ForgedCell(x: string, y: string, t: string)
    ensures Quote(x + "\"" + t + "\n\"" + y) + t == (Quote(x) + t) + "\n" + (Quote(y) + t)
  {
    assert "\n\"" == "\n" + "\"";
  }

  /** Cells are not escaped (unlike section 2 of RFC 4180), so a name holding
      quotes, commas and a line break can pass for two records: for any names
      `x` and `y`, one error record with the forged name below and two error
      records named `x` and `y` give the same report. */
  lemma UnescapedCellsAreAmbiguous(x: string, y: string)
    ensures var forged := ProcessingFile("1", x + "\"" + ERROR_ROW_TAIL + "\n\"" + y, Error, None, None, None);
      var a := ProcessingFile("1", x, Error, None, None, None);
      var b := ProcessingFile("2", y, Error, None, None, None);
      [forged] != [a, b] && GenerateReport([forged]) == GenerateReport([a, b])
  {
    var forged := ProcessingFile("1", x + "\"" + ERROR_ROW_TAIL + "\n\"" + y, Error, None, None, None);
    var a := ProcessingFile("1", x, Error, None, None, None);
    var b := ProcessingFile("2", y, Error, None, None, None);
    ErrorRowLine(forged);
    ErrorRowLine(a);
    ErrorRowLine(b);
    ReportOfOne(forged);
    ReportOfTwo(a, b);
    ForgedCell(x, y, ERROR_ROW_TAIL);
  }

  // ------------------------------------------------------------------
  // The zip summary
  // ------------------------------------------------------------------

  predicate IsSuccess(f: ProcessingFile) {
    f.status == Success
  }

  /** `successFiles`: the successful records, in list order. */
  function SuccessFiles(files: seq<ProcessingFile>): (succ: seq<ProcessingFile>)
    ensures |succ| <= |files|
    ensures forall k :: 0 <= k < |succ| ==> succ[k].status == Success
    ensures |succ| == |files| <==> forall i :: 0 <= i < |files| ==> files[i].status == Success
  {
    Filter(files, IsSuccess)
  }

  /** A template literal's rendering of an optional string. */
  function Interpolate(o: Option<string>): string {
    if o.Some? then o.value else "undefined"
  }

  /** One listing line: the new name, then the original name. */
  function ZipEntry(f: ProcessingFile): (line: string)
    ensures f.newName.None? ==> "undefined" <= line
    ensures f.newName.Some? ==> f.newName.value <= line
    ensures |line| > |f.name| && line[|line| - |f.name| - 1..] == f.name + ")"
  {
    Interpolate(f.newName) + " (original: " + f.name + ")"
  }

  function ZipHeader(count: nat): (h: string)
    ensures |h| > 40 && h[..30] == "Arquivo ZIP simulado contendo "
    ensures forall i :: 30 <= i < |h| - 10 ==> IsDigit(h[i])
    ensures h[30..|h| - 10] == NatToString(count)
    ensures DigitsValue(h[30..|h| - 10]) == count
    ensures h[|h| - 10..] == " arquivos:"
  {
    NatToStringRoundTrip(count);
    assert ("Arquivo ZIP simulado contendo " + NatToString(count) + " arquivos:")[30..|NatToString(count)| + 30]
           == NatToString(count);
    "Arquivo ZIP simulado contendo " + NatToString(count) + " arquivos:"
  }

  /** `generateZipFile`'s `zipContent`: a count line, a blank line, then one
      listing line per successful record. */
  function GenerateZipFile(files: seq<ProcessingFile>): (text: string)
    ensures ZipHeader(|SuccessFiles(files)|) + "\n\n" <= text
  {
    var successFiles := SuccessFiles(files);
    ZipHeader(|successFiles|) + "\n\n" + Join("\n", Map(ZipEntry, successFiles))
  }

  /** The listing keeps exactly the successful records, in list order. */
  lemma SuccessFilesInOrder(files: seq<ProcessingFile>)
    ensures var succ, idx := SuccessFiles(files), KeptIndices(files, IsSuccess, 0);
      && |succ| == |idx|
      && (forall k :: 0 <= k < |idx| ==> idx[k] < |files| && succ[k] == files[idx[k]])
      && (forall k, l :: 0 <= k < l < |idx| ==> idx[k] < idx[l])
      && (forall j :: 0 <= j < |files| ==> (files[j].status == Success <==> j in idx))
  {
    FilterKeepsOrder(files, IsSuccess, 0);
    KeptIndicesMembers(files, IsSuccess, 0);
    assert files[0..] == files;
  }

  /** The count line holds no line break. */
  lemma ZipHeaderSingleLine(count: nat)
    ensures '\n' !in ZipHeader(count)
  {
    var digits := NatToString(count);
    assert '\n' !in digits by {
      forall i | 0 <= i < |digits| ensures digits[i] != '\n' {
        assert IsDigit(digits[i]);
      }
    }
  }

  /** The listing lines of the successes hold no line break when no success
      has one in its names. */
  lemma ZipEntriesSingleLine(files: seq<ProcessingFile>)
    requires forall i :: 0 <= i < |files| && files[i].status == Success ==> '\n' !in ZipEntry(files[i])
    ensures forall k :: 0 <= k < |SuccessFiles(files)| ==> '\n' !in ZipEntry(SuccessFiles(files)[k])
  {
    SuccessFilesInOrder(files);
  }

  /** A line without a break, a blank line, then `body`: splitting gives the
      line, the empty line, then the lines of `body`. */
  lemma BlankLineAfter(line: string, body: string)
    requires '\n' !in line
    ensures Split(line + "\n\n" + body, '\n') == [line, ""] + Split(body, '\n')
  {
    assert line + "\n\n" + body == line + ['\n'] + ("" + ['\n'] + body);
    SplitAtFirst(line, "" + ['\n'] + body, '\n');
    SplitAtFirst("", body, '\n');
  }

  /** When no new or original name of a success holds a line break, the
      summary splits into the count line, whose number reads back as the
      number of successes, a blank line, and the listing lines of the
      successes in order ("" when there are none). */
  lemma ZipSummaryLines(files: seq<ProcessingFile>)
    requires forall i :: 0 <= i < |files| && files[i].status == Success ==> '\n' !in ZipEntry(files[i])
    ensures var succ, lines := SuccessFiles(files), Split(GenerateZipFile(files), '\n');
      && |lines| >= 3
      && lines[0] == ZipHeader(|succ|)
      && lines[0][30..|lines[0]| - 10] == NatToString(|succ|)
      && lines[1] == ""
      && lines[2..] == (if succ == [] then [""] else Map(ZipEntry, succ))
  {
    var succ := SuccessFiles(files);
    var entries := Map(ZipEntry, succ);
    var body := Join("\n", entries);
    ZipEntriesSingleLine(files);
    ZipHeaderSingleLine(|succ|);
    BlankLineAfter(ZipHeader(|succ|), body);
    if succ == [] {
      assert body == "";
    } else {
      SplitJoin(entries, '\n');
    }
    NatToStringRoundTrip(|succ|);
  }
}
