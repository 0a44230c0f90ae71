/** The CSV file of `AttendanceController::exportExcel`
    (backend/app/Http/Controllers/Api/AttendanceController.php): a byte
    order mark, a header line, then one line per record with its fields
    formatted for reading, every field quoted as section 2 (rules 5 to 7)
    of RFC 4180 describes. A reader for such lines stands beside the
    writer, and the two are proved inverse. */
module CsvExport {
  import opened Base
  import Attendance
  import Listing

  /** The UTF-8 byte order mark EF BB BF, as the one character it encodes. */
  const Bom: string := "\U{FEFF}"

  const Headers: seq<string> := ["Tanggal", "Nama", "Status", "Jam Masuk", "Jam Pulang", "Jam Kerja", "Catatan"]

  /** The single row written when no record is selected. */
  const NoDataFields: seq<string> := ["Tidak ada data absensi ditemukan", "", "", "", "", "", ""]

  /** `str_replace('"', '""', $field)`. */
  function DoubleQuotes(f: string): (r: string)
    ensures |r| >= |f|
    decreases |f|
  {
    if f == [] then []
    else (if f[0] == '"' then "\"\"" else [f[0]]) + DoubleQuotes(f[1..])
  }

  /** The quoting closure: the field in double quotes, inner quotes doubled. */
  function QuoteField(f: string): string {
    "\"" + DoubleQuotes(f) + "\""
  }

  /** `implode(',', array_map(quote, $fields))`. */
  function JoinFields(fs: seq<string>): string
    requires fs != []
    decreases |fs|
  {
    QuoteField(fs[0]) + (if |fs| == 1 then "" else "," + JoinFields(fs[1..]))
  }

  /** One line of the file: the joined fields and a line feed. */
  function CsvLine(fs: seq<string>): string
    requires fs != []
  {
    JoinFields(fs) + "\n"
  }

  /** The lines of a table, one after another. */
  function LinesOf(table: seq<seq<string>>): string
    requires forall i :: 0 <= i < |table| ==> table[i] != []
    decreases |table|
  {
    if table == [] then "" else CsvLine(table[0]) + LinesOf(table[1..])
  }

  lemma {:induction false} LinesOfSnoc(table: seq<seq<string>>, line: seq<string>)
    requires forall i :: 0 <= i < |table| ==> table[i] != []
    requires line != []
    ensures LinesOf(table + [line]) == LinesOf(table) + CsvLine(line)
    decreases |table|
  {
    if table == [] {
      assert [] + [line] == [line];
    } else {
      assert (table + [line])[1..] == table[1..] + [line];
      LinesOfSnoc(table[1..], line);
    }
  }

  // ----- reading the file back -----

  /** The inside of a quoted field, up to its closing quote: a doubled
      quote stands for one quote. Returns the field and what follows the
      closing quote. */
  function ReadBody(s: string): (r: Option<(string, string)>)
    ensures r.Some? ==> |r.value.1| < |s| && IsSuffix(r.value.1, s)
    decreases |s|
  {
    if s == [] then None
    else if s[0] == '"' then
      if |s| >= 2 && s[1] == '"' then
        match ReadBody(s[2..])
        case None => None
        case Some((f, rest)) => Some(("\"" + f, rest))
      else Some(([], s[1..]))
    else
      match ReadBody(s[1..])
      case None => None
      case Some((f, rest)) => Some(([s[0]] + f, rest))
  }

  /** A quoted field at the start of `s`. */
  function ReadField(s: string): (r: Option<(string, string)>)
    ensures r.Some? ==> |r.value.1| < |s| && IsSuffix(r.value.1, s)
  {
    if s != [] && s[0] == '"' then ReadBody(s[1..]) else None
  }

  /** One line of quoted, comma-separated fields ended by a line feed;
      returns the fields and the text after the line feed. */
  function ParseLine(s: string): (r: Option<(seq<string>, string)>)
    ensures r.Some? ==> r.value.0 != [] && |r.value.1| < |s| && IsSuffix(r.value.1, s)
    ensures r.Some? ==> s[|s| - |r.value.1| - 1] == '\n'
    decreases |s|
  {
    match ReadField(s)
    case None => None
    case Some((f, rest)) =>
      if rest != [] && rest[0] == ',' then
        match ParseLine(rest[1..])
        case None => None
        case Some((fs, after)) => Some(([f] + fs, after))
      else if rest != [] && rest[0] == '\n' then Some(([f], rest[1..]))
      else None
  }

  /** A whole text of lines. Only a text ending in a line feed reads. */
  function ParseLines(s: string): (r: Option<seq<seq<string>>>)
    ensures r.Some? && s != [] ==> s[|s| - 1] == '\n'
    decreases |s|
  {
    if s == [] then Some([])
    else
      match ParseLine(s)
      case None => None
      case Some((fs, rest)) =>
        match ParseLines(rest)
        case None => None
        case Some(more) => Some([fs] + more)
  }

  /** `rest` is what remains of `s` after some prefix. */
  predicate IsSuffix(rest: string, s: string) {
    |rest| <= |s| && s[|s| - |rest|..] == rest
  }

  /** A file: the byte order mark, then lines. */
  function ParseDocument(s: string): Option<seq<seq<string>>> {
    if IsPrefix(Bom, s) then ParseLines(s[|Bom|..]) else None
  }

  lemma {:induction false} ReadBodyOfQuoted(f: string, rest: string)
    requires rest == [] || rest[0] != '"'
    ensures ReadBody(DoubleQuotes(f) + "\"" + rest) == Some((f, rest))
    decreases |f|
  {
    var s := DoubleQuotes(f) + "\"" + rest;
    if f == [] {
      DropFront("\"", rest);
    } else {
      ReadBodyOfQuoted(f[1..], rest);
      var head := if f[0] == '"' then "\"\"" else [f[0]];
      var d := DoubleQuotes(f[1..]);
      var tail := d + "\"" + rest;
      ConcatAssoc(head, d, "\"");
      ConcatAssoc(head, d + "\"", rest);
      assert s == head + tail;
      DropFront(head, tail);
      assert [f[0]] + f[1..] == f;
    }
  }

  lemma ReadFieldOfQuoted(f: string, rest: string)
    requires rest == [] || rest[0] != '"'
    ensures ReadField(QuoteField(f) + rest) == Some((f, rest))
  {
    var s := QuoteField(f) + rest;
    assert s[1..] == DoubleQuotes(f) + "\"" + rest;
    ReadBodyOfQuoted(f, rest);
  }

  /** Regrouping steps for the line-reading proofs: the same text,
      bracketed around a field and its separator. */
  lemma Regroup(q: string, c: string, j: string, n: string, tail: string)
    ensures q + (c + j) + n + tail == q + (c + (j + n + tail))
  {
  }

  lemma RegroupLast(q: string, e: string, n: string, tail: string)
    requires e == []
    ensures q + e + n + tail == q + (n + tail)
  {
  }

  lemma ParseLastField(f: string, tail: string)
    ensures ParseLine(QuoteField(f) + ("\n" + tail)) == Some(([f], tail))
  {
    var rest := "\n" + tail;
    ReadFieldOfQuoted(f, rest);
    assert rest[0] == '\n' && rest[1..] == tail;
  }

  lemma ParseNextField(f: string, more: string, fs: seq<string>, tail: string)
    requires ParseLine(more) == Some((fs, tail))
    ensures ParseLine(QuoteField(f) + ("," + more)) == Some(([f] + fs, tail))
  {
    var rest := "," + more;
    ReadFieldOfQuoted(f, rest);
    assert rest[0] == ',' && rest[1..] == more;
  }

  lemma ParseOneFieldLine(fs: seq<string>, tail: string)
    requires |fs| == 1
    ensures ParseLine(CsvLine(fs) + tail) == Some((fs, tail))
  {
    RegroupLast(QuoteField(fs[0]), "", "\n", tail);
    ParseLastField(fs[0], tail);
    assert [fs[0]] == fs;
  }

  lemma ParseLongerLine(fs: seq<string>, tail: string)
    requires |fs| > 1
    requires ParseLine(CsvLine(fs[1..]) + tail) == Some((fs[1..], tail))
    ensures ParseLine(CsvLine(fs) + tail) == Some((fs, tail))
  {
    Regroup(QuoteField(fs[0]), ",", JoinFields(fs[1..]), "\n", tail);
    ParseNextField(fs[0], CsvLine(fs[1..]) + tail, fs[1..], tail);
    assert [fs[0]] + fs[1..] == fs;
  }

  /** Reading a written line gives back its fields and leaves the text
      after it untouched. */
  lemma {:induction false} ParseLineOfCsvLine(fs: seq<string>, tail: string)
    requires fs != []
    ensures ParseLine(CsvLine(fs) + tail) == Some((fs, tail))
    decreases |fs|
  {
    if |fs| == 1 {
      ParseOneFieldLine(fs, tail);
    } else {
      ParseLineOfCsvLine(fs[1..], tail);
      ParseLongerLine(fs, tail);
    }
  }

  lemma {:induction false} ParseLinesOfLines(table: seq<seq<string>>)
    requires forall i :: 0 <= i < |table| ==> table[i] != []
    ensures ParseLines(LinesOf(table)) == Some(table)
    decreases |table|
  {
    if table != [] {
      ParseLineOfCsvLine(table[0], LinesOf(table[1..]));
      ParseLinesOfLines(table[1..]);
      assert [table[0]] + table[1..] == table;
    }
  }

  // ----- the fields of a record -----

  function TwoDigits(n: nat): string {
    PadZeros(NatToString(n), 2)
  }

  /** PHP's `d/m/Y`. */
  function FormatDate(d: Attendance.Date): string {
    TwoDigits(d.day) + "/" + TwoDigits(d.month) + "/" + PadZeros(NatToString(d.year), 4)
  }

  const SecondsPerDay := 86400

  /** PHP's `H:i:s` of an instant on the local clock. */
  function FormatTime(t: int): string {
    var s := t % SecondsPerDay;
    TwoDigits(s / 3600) + ":" + TwoDigits(s % 3600 / 60) + ":" + TwoDigits(s % 60)
  }

  /** The seven fields of a record, in the order of `Headers`: missing
      values and empty notes become "-", a missing user "Unknown User",
      and only `present` reads as present ("Hadir"). */
  function Fields(x: Attendance.Row): (fs: seq<string>)
    ensures |fs| == |Headers|
  {
    [ FormatDate(x.date),
      if x.userName.Some? then x.userName.value else "Unknown User",
      if x.status == Attendance.Present then "Hadir" else "Tidak Hadir",
      if x.checkIn.Some? then FormatTime(x.checkIn.value) else "-",
      if x.checkOut.Some? then FormatTime(x.checkOut.value) else "-",
      Attendance.FormatWorkHours(x.workHours).GetOr("-"),
      if TruthyOpt(x.notes) then x.notes.value else "-" ]
  }

  /** The fields of every record, in order. */
  function AllFields(rows: seq<Attendance.Row>): (t: seq<seq<string>>)
    ensures |t| == |rows| && forall i :: 0 <= i < |t| ==> t[i] != []
    decreases |rows|
  {
    if rows == [] then [] else AllFields(rows[..|rows| - 1]) + [Fields(rows[|rows| - 1])]
  }

  lemma {:induction false} AllFieldsAt(rows: seq<Attendance.Row>, i: nat)
    requires i < |rows|
    ensures AllFields(rows)[i] == Fields(rows[i])
    decreases |rows|
  {
    if i < |rows| - 1 {
      AllFieldsAt(rows[..|rows| - 1], i);
    }
  }

  /** The table a file holds: the header, then the records, or the
      single no-data row when there are none. */
  function TableOf(header: seq<string>, noData: seq<string>, rows: seq<Attendance.Row>): (t: seq<seq<string>>)
    requires header != [] && noData != []
    ensures forall i :: 0 <= i < |t| ==> t[i] != []
  {
    [header] + (if rows == [] then [noData] else AllFields(rows))
  }

  /** The table of the export file. */
  function Table(rows: seq<Attendance.Row>): (t: seq<seq<string>>)
    ensures forall i :: 0 <= i < |t| ==> t[i] != []
  {
    TableOf(Headers, NoDataFields, rows)
  }

  /** The file for the selected records. */
  function Document(rows: seq<Attendance.Row>): string {
    Bom + LinesOf(Table(rows))
  }

  lemma ParseDocumentOfLines(t: seq<seq<string>>)
    requires forall i :: 0 <= i < |t| ==> t[i] != []
    ensures ParseDocument(Bom + LinesOf(t)) == Some(t)
  {
    var d := Bom + LinesOf(t);
    assert d[..|Bom|] == Bom && d[|Bom|..] == LinesOf(t);
    ParseLinesOfLines(t);
  }

  /** The file reads back as its table: the header, then exactly one line
      per record holding that record's fields. */
  lemma DocumentReadsBack(rows: seq<Attendance.Row>)
    ensures ParseDocument(Document(rows)) == Some(Table(rows))
    ensures rows != [] ==> (|Table(rows)| == |rows| + 1 &&
      forall i :: 0 <= i < |rows| ==> Table(rows)[i + 1] == Fields(rows[i]))
  {
    ParseDocumentOfLines(Table(rows));
    forall i | 0 <= i < |rows| ensures rows != [] ==> Table(rows)[i + 1] == Fields(rows[i]) {
      AllFieldsAt(rows, i);
    }
  }

  /** Appending one more line to a text of lines. */
  lemma AppendLine(prefix: string, t: seq<seq<string>>, line: seq<string>)
    requires forall i :: 0 <= i < |t| ==> t[i] != []
    requires line != []
    ensures prefix + LinesOf(t) + CsvLine(line) == prefix + LinesOf(t + [line])
  {
    LinesOfSnoc(t, line);
    ConcatAssoc(prefix, LinesOf(t), CsvLine(line));
  }

  /** Sequence step for the proofs: a two-element sequence is its two
      singletons joined. */
  lemma Pair<T>(a: T, b: T)
    ensures [a] + [b] == [a, b]
  {
  }

  lemma SingleLine(line: seq<string>)
    requires line != []
    ensures LinesOf([line]) == CsvLine(line)
  {
    assert [line][1..] == [];
  }

  lemma AllFieldsSnoc(selected: seq<Attendance.Row>, i: nat)
    requires i < |selected|
    ensures AllFields(selected[..i + 1]) == AllFields(selected[..i]) + [Fields(selected[i])]
  {
    assert selected[..i + 1][..i] == selected[..i];
  }

  /** Sequence step for the export loop: appending one element after a
      join. */
  lemma SnocAssoc<T>(t: seq<T>, a: seq<T>, x: T)
    ensures t + (a + [x]) == t + a + [x]
  {
  }

  /** The export loop's step: one more line written is one more row of
      the table. */
  lemma TableStep(prefix: string, t: seq<seq<string>>, a: seq<seq<string>>, line: seq<string>, b: seq<seq<string>>)
    requires forall k :: 0 <= k < |t| ==> t[k] != []
    requires forall k :: 0 <= k < |a| ==> a[k] != []
    requires line != [] && b == a + [line]
    ensures forall k :: 0 <= k < |t + b| ==> (t + b)[k] != []
    ensures prefix + LinesOf(t + a) + CsvLine(line) == prefix + LinesOf(t + b)
  {
    SnocAssoc(t, a, line);
    AppendLine(prefix, t + a, line);
  }

  lemma RecordsStep(t: seq<seq<string>>, selected: seq<Attendance.Row>, i: nat)
    requires forall k :: 0 <= k < |t| ==> t[k] != []
    requires i < |selected|
    ensures Bom + LinesOf(t + AllFields(selected[..i])) + CsvLine(Fields(selected[i]))
         == Bom + LinesOf(t + AllFields(selected[..i + 1]))
  {
    AllFieldsSnoc(selected, i);
    TableStep(Bom, t, AllFields(selected[..i]), Fields(selected[i]), AllFields(selected[..i + 1]));
  }

  lemma RecordsEnds(t: seq<seq<string>>, selected: seq<Attendance.Row>)
    ensures t + AllFields(selected[..0]) == t
    ensures selected[..|selected|] == selected
  {
    assert selected[..0] == [];
  }

  /** The `foreach` of `exportExcel`: appends one line per record to a
      text that holds the lines of `t`. */
  method AppendRecords(text: string, t: seq<seq<string>>, selected: seq<Attendance.Row>) returns (csv: string)
    requires forall i :: 0 <= i < |t| ==> t[i] != []
    requires text == Bom + LinesOf(t)
    ensures csv == Bom + LinesOf(t + AllFields(selected))
  {
    csv := text;
    var i := 0;
    RecordsEnds(t, selected);
    while i < |selected|
      invariant 0 <= i <= |selected|
      invariant csv == Bom + LinesOf(t + AllFields(selected[..i]))
    {
      RecordsStep(t, selected, i);
      csv := csv + CsvLine(Fields(selected[i]));
      i := i + 1;
    }
  }

  lemma NoDataLines(header: seq<string>, noData: seq<string>)
    requires header != [] && noData != []
    ensures Bom + CsvLine(header) + CsvLine(noData) == Bom + LinesOf(TableOf(header, noData, []))
  {
    SingleLine(header);
    AppendLine(Bom, [header], noData);
  }

  /** The writing part of `exportExcel`: the header line, then one line
      per record, or the no-data line. */
  method WriteTable(header: seq<string>, noData: seq<string>, selected: seq<Attendance.Row>) returns (csv: string)
    requires header != [] && noData != []
    ensures csv == Bom + LinesOf(TableOf(header, noData, selected))
  {
    SingleLine(header);
    csv := Bom + CsvLine(header);
    if |selected| == 0 {
      NoDataLines(header, noData);
      csv := csv + CsvLine(noData);
    } else {
      csv := AppendRecords(csv, [header], selected);
    }
  }

  /** `exportExcel` as written: selects the rows (see
      `Attendance.ExportRows`), writes the header line, then one line per
      record or, when there is none, the no-data line as the source spells
      it. */
  method Export(rows: seq<Attendance.Row>, role: string, viewer: nat, f: Attendance.RowFilter) returns (csv: string)
    ensures csv == DocumentAsWritten(Attendance.ExportRows(rows, role, viewer, f))
  {
    var selected := Attendance.ExportRows(rows, role, viewer, f);
    SingleLine(Headers);
    csv := Bom + CsvLine(Headers);
    if |selected| > 0 {
      csv := AppendRecords(csv, [Headers], selected);
      RecordsAsWritten(selected);
    } else {
      csv := csv + NoDataLineAsWritten;
    }
  }

  lemma RecordsAsWritten(selected: seq<Attendance.Row>)
    requires selected != []
    ensures DocumentAsWritten(selected) == Bom + LinesOf([Headers] + AllFields(selected))
  {
  }

  /** `exportExcel` with the no-data line ended by a line feed: writes the
      document of the selected rows, which always reads back. */
  method ExportCorrected(rows: seq<Attendance.Row>, role: string, viewer: nat, f: Attendance.RowFilter) returns (csv: string)
    ensures csv == Document(Attendance.ExportRows(rows, role, viewer, f))
  {
    csv := WriteTable(Headers, NoDataFields, Attendance.ExportRows(rows, role, viewer, f));
  }

  /** As written, an export with at least one record reads back as the
      header line and one line per record, in order. */
  lemma ExportAsWrittenReadsBack(rows: seq<Attendance.Row>)
    requires rows != []
    ensures ParseDocument(DocumentAsWritten(rows)) == Some([Headers] + AllFields(rows))
  {
    DocumentReadsBack(rows);
  }

  /** The no-data line as the source writes it: in a single-quoted PHP
      string `\n` is a backslash and an `n`, not a line feed. */
  const NoDataLineAsWritten: string := "\"Tidak ada data absensi ditemukan\",\"\",\"\",\"\",\"\",\"\",\"\"\\n"

  /** The file as the source writes it. */
  function DocumentAsWritten(rows: seq<Attendance.Row>): string {
    if rows == [] then Bom + CsvLine(Headers) + NoDataLineAsWritten else Document(rows)
  }

  /** Sequence step: the last character of a join is that of its
      second part. */
  lemma LastOfConcat(a: string, b: string)
    requires b != []
    ensures (a + b)[|a + b| - 1] == b[|b| - 1]
  {
  }

  /** A text whose last character is not a line feed reads as no lines,
      from whichever point it is read. */
  lemma UnreadableTail(s: string, k: nat)
    requires k < |s| && s[|s| - 1] != '\n'
    ensures ParseLines(s[k..]) == None
  {
    assert s[k..][|s[k..]| - 1] == s[|s| - 1];
  }

  /** A file whose last line does not end in a line feed does not read. */
  lemma UnterminatedIsUnreadable(first: seq<string>, last: string)
    requires first != [] && last != [] && last[|last| - 1] != '\n'
    ensures ParseDocument(Bom + CsvLine(first) + last) == None
  {
    var d := Bom + CsvLine(first) + last;
    LastOfConcat(Bom + CsvLine(first), last);
    UnreadableTail(d, |Bom|);
  }

  /** With no record selected, the file as written ends with a backslash
      and an `n` instead of a line feed, so it cannot be read as CSV
      lines. */
  lemma EmptyExportAsWrittenIsUnreadable()
    ensures DocumentAsWritten([])[|DocumentAsWritten([])| - 1] == 'n'
    ensures ParseDocument(DocumentAsWritten([])) == None
  {
    assert NoDataLineAsWritten[|NoDataLineAsWritten| - 1] == 'n';
    LastOfConcat(Bom + CsvLine(Headers), NoDataLineAsWritten);
    UnterminatedIsUnreadable(Headers, NoDataLineAsWritten);
  }

  /** The corrected file for no records reads back as the header and the
      no-data row. */
  lemma EmptyExportReadsBack()
    ensures ParseDocument(Document([])) == Some([Headers, NoDataFields])
  {
    DocumentReadsBack([]);
    Pair(Headers, NoDataFields);
  }
}
