/**
 * AnalyticsView.exportCSV of app.js: the text of the CSV file, built row by row.
 *
 * How a date is shown (`toLocaleDateString()`) and how a sleep value is shown
 * (JavaScript's number-to-string) are supplied by the caller as `Formats`;
 * integers are written in decimal here.
 */
module Export {
  import opened Wrappers
  import opened Entries
  import opened Csv

  /** The first line of every export, without its line break. */
  const Header: string := "Date,Mood,Sleep (hrs),Stress,Activities,Notes"

  /** The text of a date (locale-dependent) and of a sleep value (JavaScript's number-to-string). */
  datatype Formats = Formats(date: int -> string, sleep: real -> string)

  // ---------------------------------------------------------------------------
  // Integers in decimal
  // ---------------------------------------------------------------------------

  function DigitChar(d: nat): (c: char)
    requires d < 10
    ensures '0' <= c <= '9' && (c as int) - ('0' as int) == d
  {
    ['0', '1', '2', '3', '4', '5', '6', '7', '8', '9'][d]
  }

  /** Every character of `s` is a decimal digit. */
  predicate IsDigits(s: string) {
    forall i :: 0 <= i < |s| ==> '0' <= s[i] <= '9'
  }

  /** The decimal digits of `n`, without leading zeros. */
  function NatText(n: nat): (s: string)
    ensures |s| > 0 && IsDigits(s)
  {
    if n < 10 then [DigitChar(n)] else NatText(n / 10) + [DigitChar(n % 10)]
  }

  /**
   * `${n}` for the integers the app stores: the plain decimal digits, after a
   * minus sign when negative. Every int is written this way, although JavaScript
   * switches to exponent form from 10^21 on.
   */
  function IntText(n: int): (s: string)
    ensures |s| > 0
    ensures s[0] == '-' <==> n < 0
  {
    if n < 0 then "-" + NatText(-n) else NatText(n)
  }

  /** The value of a string of decimal digits. */
  function DigitsValue(s: string): int
    requires IsDigits(s)
  {
    if s == [] then 0 else DigitsValue(s[..|s| - 1]) * 10 + ((s[|s| - 1] as int) - ('0' as int))
  }

  /** Reading an integer field: an optional minus sign, then at least one digit. */
  function ParseInt(s: string): Option<int> {
    if s == [] then None
    else if s[0] == '-' then (if |s| > 1 && IsDigits(s[1..]) then Some(-DigitsValue(s[1..])) else None)
    else if IsDigits(s) then Some(DigitsValue(s))
    else None
  }

  lemma {:induction false} NatTextValue(n: nat)
    ensures DigitsValue(NatText(n)) == n
  {
    if n >= 10 {
      NatTextValue(n / 10);
      var s := NatText(n);
      assert s[..|s| - 1] == NatText(n / 10);
    }
  }

  /** The mood and stress columns read back as the numbers that were written. */
  lemma IntTextRoundTrip(n: int)
    ensures ParseInt(IntText(n)) == Some(n)
  {
    if n < 0 {
      NatTextValue(-n);
      ParseNegative(NatText(-n));
    } else {
      NatTextValue(n);
      ParseDigits(NatText(n));
    }
  }

  lemma ParseDigits(t: string)
    requires |t| > 0 && IsDigits(t)
    ensures ParseInt(t) == Some(DigitsValue(t))
  {
    assert t[0] != '-';
  }

  lemma ParseNegative(t: string)
    requires |t| > 0 && IsDigits(t)
    ensures ParseInt("-" + t) == Some(-DigitsValue(t))
  {
    assert ("-" + t)[1..] == t;
  }

  /** The text of an integer is made of digits and a minus sign only. */
  lemma IntTextChars(n: int)
    ensures forall i :: 0 <= i < |IntText(n)| ==> ('0' <= IntText(n)[i] <= '9' || IntText(n)[i] == '-')
  {
    if n < 0 {
      var t := NatText(-n);
      assert forall i :: 1 <= i < |IntText(n)| ==> IntText(n)[i] == t[i - 1];
    }
  }

  // ---------------------------------------------------------------------------
  // Rows and the whole text
  // ---------------------------------------------------------------------------

  /** `Array.prototype.join`. */
  function Join(parts: seq<string>, sep: string): (r: string)
    ensures forall c :: c in r ==> c in sep || exists i :: 0 <= i < |parts| && c in parts[i]
  {
    if parts == [] then ""
    else if |parts| == 1 then parts[0]
    else parts[0] + sep + Join(parts[1..], sep)
  }

  lemma {:induction false} JoinHasNoQuote(parts: seq<string>, sep: string)
    requires '"' !in sep && forall i :: 0 <= i < |parts| ==> '"' !in parts[i]
    ensures '"' !in Join(parts, sep)
  {
    if |parts| > 1 { JoinHasNoQuote(parts[1..], sep); }
  }

  /**
   * One exported row, as the template of exportCSV writes it: the date, the
   * activities and the notes in double quotes, with quotes doubled in the notes only.
   */
  function Row(fmt: Formats, e: Entry): (r: string)
    ensures |r| >= 14 && r[0] == '"' && r[|r| - 1] == '\n'
  {
    "\"" + fmt.date(e.date) + "\"" + "," + IntText(e.mood) + "," + fmt.sleep(e.sleep) + "," + IntText(e.stress)
      + "," + ("\"" + Join(e.activities, "; ") + "\"") + "," + ("\"" + Escape(e.journal) + "\"") + "\n"
  }

  /** The rows of the entries, in the order given. */
  function Rows(fmt: Formats, entries: seq<Entry>): (r: string)
    ensures |r| >= 14 * |entries|
  {
    if entries == [] then "" else Rows(fmt, entries[..|entries| - 1]) + Row(fmt, entries[|entries| - 1])
  }

  /** The whole file: the header line, then one row per entry. */
  function CsvText(fmt: Formats, entries: seq<Entry>): (r: string)
    ensures Header + "\n" <= r
  {
    Header + "\n" + Rows(fmt, entries)
  }

  /**
   * exportCSV without the download: start from the header line and append each
   * entry's row.
   */
  method ExportCsv(fmt: Formats, entries: seq<Entry>) returns (csv: string)
    ensures csv == CsvText(fmt, entries)
    ensures (forall i :: 0 <= i < |entries| ==> Exportable(fmt, entries[i])) ==>
              ParseCsv(csv) == Some([HeaderNames()] + ExportedRows(fmt, entries))
  {
    csv := Header + "\n";
    for i := 0 to |entries|
      invariant csv == Header + "\n" + Rows(fmt, entries[..i])
    {
      assert entries[..i + 1][..i] == entries[..i];
      Regroup2(Header + "\n", Rows(fmt, entries[..i]), Row(fmt, entries[i]));
      csv := csv + Row(fmt, entries[i]);
    }
    assert entries[..|entries|] == entries;
    assert (forall i :: 0 <= i < |entries| ==> Exportable(fmt, entries[i])) ==>
             ParseCsv(csv) == Some([HeaderNames()] + ExportedRows(fmt, entries)) by {
      if forall i :: 0 <= i < |entries| ==> Exportable(fmt, entries[i]) {
        CsvTextReadsBack(fmt, entries);
      }
    }
  }

  // ---------------------------------------------------------------------------
  // What a CSV reader gets back
  // ---------------------------------------------------------------------------

  /** No separator or quote in a bare column. */
  ghost predicate Plain(t: string) {
    ',' !in t && '"' !in t && '\n' !in t
  }

  /**
   * The unescaped columns hold no quote and the sleep column is plain. exportCSV
   * escapes only the notes, so a quote in a date text or an activity would break
   * the quoting.
   */
  ghost predicate Exportable(fmt: Formats, e: Entry) {
    && '"' !in fmt.date(e.date)
    && Plain(fmt.sleep(e.sleep))
    && forall i :: 0 <= i < |e.activities| ==> '"' !in e.activities[i]
  }

  /** The header's column names. */
  function HeaderNames(): seq<string> {
    ["Date", "Mood", "Sleep (hrs)", "Stress", "Activities", "Notes"]
  }

  /** The column texts a reader gets back from one row. */
  function ExportedTexts(fmt: Formats, e: Entry): seq<string> {
    [fmt.date(e.date), IntText(e.mood), fmt.sleep(e.sleep), IntText(e.stress), Join(e.activities, "; "), e.journal]
  }

  /** A row as CSV fields. */
  function RowFields(fmt: Formats, e: Entry): seq<Field> {
    [Quoted(fmt.date(e.date)), Bare(IntText(e.mood)), Bare(fmt.sleep(e.sleep)), Bare(IntText(e.stress)),
     Quoted(Join(e.activities, "; ")), Quoted(e.journal)]
  }

  function HeaderFields(): seq<Field> {
    [Bare("Date"), Bare("Mood"), Bare("Sleep (hrs)"), Bare("Stress"), Bare("Activities"), Bare("Notes")]
  }

  /** The joined six fields, spelled out. */
  lemma EncodeSix(fs: seq<Field>)
    requires |fs| == 6
    ensures EncodeRecord(fs) == EncodeField(fs[0]) + "," + EncodeField(fs[1]) + "," + EncodeField(fs[2]) + ","
                                + EncodeField(fs[3]) + "," + EncodeField(fs[4]) + "," + EncodeField(fs[5]) + "\n"
  {
    assert fs[5..][1..] == [] + fs[6..];
    assert EncodeFields(fs[5..]) == EncodeField(fs[5]);
    assert fs[4..][1..] == fs[5..];
    assert EncodeFields(fs[4..]) == EncodeField(fs[4]) + "," + EncodeFields(fs[5..]);
    assert fs[3..][1..] == fs[4..];
    assert EncodeFields(fs[3..]) == EncodeField(fs[3]) + "," + EncodeFields(fs[4..]);
    assert fs[2..][1..] == fs[3..];
    assert EncodeFields(fs[2..]) == EncodeField(fs[2]) + "," + EncodeFields(fs[3..]);
    assert fs[1..][1..] == fs[2..];
    assert EncodeFields(fs[1..]) == EncodeField(fs[1]) + "," + EncodeFields(fs[2..]);
  }

  lemma HeaderSpelled()
    ensures EncodeRecord(HeaderFields())
            == "Date" + "," + "Mood" + "," + "Sleep (hrs)" + "," + "Stress" + "," + "Activities" + "," + "Notes" + "\n"
  {
    EncodeSix(HeaderFields());
  }

  lemma HeaderJoined()
    ensures "Date" + "," + "Mood" + "," + "Sleep (hrs)" + "," + "Stress" + "," + "Activities" + "," + "Notes" == Header
  {
    assert "Date" + "," + "Mood" == "Date,Mood";
    assert "Date,Mood" + "," + "Sleep (hrs)" == "Date,Mood,Sleep (hrs)";
    assert "Date,Mood,Sleep (hrs)" + "," + "Stress" == "Date,Mood,Sleep (hrs),Stress";
    assert "Date,Mood,Sleep (hrs),Stress" + "," + "Activities" == "Date,Mood,Sleep (hrs),Stress,Activities";
  }

  /** The header line is the record of the column names. */
  lemma HeaderIsRecord()
    ensures EncodeRecord(HeaderFields()) == Header + "\n"
    ensures Texts(HeaderFields()) == HeaderNames()
  {
    HeaderSpelled();
    HeaderJoined();
  }

  /** No column name holds a separator or a quote. */
  lemma HeaderWritable()
    ensures forall j :: 0 <= j < 6 ==> Writable(HeaderFields()[j])
  {
    FirstNamesWritable();
    LastNamesWritable();
  }

  lemma FirstNamesWritable()
    ensures Writable(Bare("Date")) && Writable(Bare("Mood")) && Writable(Bare("Sleep (hrs)"))
  {
  }

  lemma LastNamesWritable()
    ensures Writable(Bare("Stress")) && Writable(Bare("Activities")) && Writable(Bare("Notes"))
  {
  }

  /** An exportable row is exactly the record of its six fields. */
  lemma RowIsRecord(fmt: Formats, e: Entry)
    requires Exportable(fmt, e)
    ensures Row(fmt, e) == EncodeRecord(RowFields(fmt, e))
  {
    EncodeSix(RowFields(fmt, e));
    JoinHasNoQuote(e.activities, "; ");
  }

  /** Each field of a row reads back as the column text it was written from. */
  lemma RowTexts(fmt: Formats, e: Entry)
    ensures Texts(RowFields(fmt, e)) == ExportedTexts(fmt, e)
  {
  }

  /** The bare columns of an exportable row hold no separator or quote. */
  lemma RowWritable(fmt: Formats, e: Entry)
    requires Exportable(fmt, e)
    ensures forall j :: 0 <= j < 6 ==> Writable(RowFields(fmt, e)[j])
  {
    var fs := RowFields(fmt, e);
    forall j | 0 <= j < 6 ensures Writable(fs[j]) {
      if j == 1 { IntTextChars(e.mood); }
      if j == 3 { IntTextChars(e.stress); }
    }
  }

  /** The records of the rows, in order. */
  function RowRecords(fmt: Formats, entries: seq<Entry>): (records: seq<seq<Field>>)
    ensures |records| == |entries|
    ensures forall i :: 0 <= i < |entries| ==> records[i] == RowFields(fmt, entries[i])
  {
    if entries == [] then [] else RowRecords(fmt, entries[..|entries| - 1]) + [RowFields(fmt, entries[|entries| - 1])]
  }

  /** The column texts of every entry, in order. */
  function ExportedRows(fmt: Formats, entries: seq<Entry>): (rows: seq<seq<string>>)
    ensures |rows| == |entries|
    ensures forall i :: 0 <= i < |entries| ==> rows[i] == ExportedTexts(fmt, entries[i])
  {
    if entries == [] then [] else ExportedRows(fmt, entries[..|entries| - 1]) + [ExportedTexts(fmt, entries[|entries| - 1])]
  }

  /** The rows laid out as the records of a CSV document. */
  lemma {:induction false} RowsAreRecords(fmt: Formats, entries: seq<Entry>)
    requires forall i :: 0 <= i < |entries| ==> Exportable(fmt, entries[i])
    ensures Rows(fmt, entries) == EncodeDocument(RowRecords(fmt, entries))
  {
    if entries != [] {
      var n := |entries|;
      var front := entries[..n - 1];
      var last := entries[n - 1];
      assert Rows(fmt, entries) == Rows(fmt, front) + Row(fmt, last);
      assert RowRecords(fmt, entries) == RowRecords(fmt, front) + [RowFields(fmt, last)];
      RowsAreRecords(fmt, front);
      RowIsRecord(fmt, last);
      DocumentAppend(RowRecords(fmt, front), RowFields(fmt, last));
    }
  }

  lemma {:induction false} DocumentAppend(records: seq<seq<Field>>, last: seq<Field>)
    requires forall i :: 0 <= i < |records| ==> |records[i]| > 0
    requires |last| > 0
    ensures EncodeDocument(records + [last]) == EncodeDocument(records) + EncodeRecord(last)
  {
    if records == [] {
      assert [] + [last] == [last];
      assert [last][1..] == [];
    } else {
      assert (records + [last])[1..] == records[1..] + [last];
      DocumentAppend(records[1..], last);
    }
  }

  /** Every field of an exportable entry's record can be written and read back. */
  lemma RecordsWritable(fmt: Formats, entries: seq<Entry>)
    requires forall i :: 0 <= i < |entries| ==> Exportable(fmt, entries[i])
    ensures forall i, j :: 0 <= i < |entries| && 0 <= j < 6 ==> Writable(RowRecords(fmt, entries)[i][j])
    ensures forall i :: 0 <= i < |entries| ==> Texts(RowRecords(fmt, entries)[i]) == ExportedTexts(fmt, entries[i])
  {
    forall i | 0 <= i < |entries|
      ensures forall j :: 0 <= j < 6 ==> Writable(RowRecords(fmt, entries)[i][j])
      ensures Texts(RowRecords(fmt, entries)[i]) == ExportedTexts(fmt, entries[i])
    {
      RowWritable(fmt, entries[i]);
      RowTexts(fmt, entries[i]);
    }
  }

  /** A header record followed by the exported rows, as a CSV document. */
  lemma ExportDocument(head: seq<Field>, fmt: Formats, entries: seq<Entry>)
    requires |head| > 0 && forall j :: 0 <= j < |head| ==> Writable(head[j])
    requires forall i :: 0 <= i < |entries| ==> Exportable(fmt, entries[i])
    ensures EncodeDocument([head] + RowRecords(fmt, entries)) == EncodeRecord(head) + Rows(fmt, entries)
    ensures forall i, j :: 0 <= i < |entries| + 1 && 0 <= j < |([head] + RowRecords(fmt, entries))[i]| ==>
              Writable(([head] + RowRecords(fmt, entries))[i][j])
  {
    var rows := RowRecords(fmt, entries);
    var records := [head] + rows;
    RowsAreRecords(fmt, entries);
    assert records[1..] == rows;
    RecordsWritable(fmt, entries);
    forall i, j | 0 <= i < |records| && 0 <= j < |records[i]| ensures Writable(records[i][j]) {
      if i > 0 { assert records[i] == rows[i - 1]; }
    }
  }

  /** What a reader gets back from the rows' records: each entry's column texts. */
  lemma {:induction false} RowRecordTexts(fmt: Formats, entries: seq<Entry>)
    ensures TextsOf(RowRecords(fmt, entries)) == ExportedRows(fmt, entries)
  {
    if entries != [] {
      var front := entries[..|entries| - 1];
      var last := entries[|entries| - 1];
      assert RowRecords(fmt, entries) == RowRecords(fmt, front) + [RowFields(fmt, last)];
      assert ExportedRows(fmt, entries) == ExportedRows(fmt, front) + [ExportedTexts(fmt, last)];
      RowRecordTexts(fmt, front);
      TextsOfAppend(RowRecords(fmt, front), RowFields(fmt, last));
      RowTexts(fmt, last);
    }
  }

  /** What a reader gets back from the header record and the rows. */
  lemma ExportTexts(head: seq<Field>, fmt: Formats, entries: seq<Entry>)
    ensures TextsOf([head] + RowRecords(fmt, entries)) == [Texts(head)] + ExportedRows(fmt, entries)
  {
    var records := [head] + RowRecords(fmt, entries);
    assert records[0] == head && records[1..] == RowRecords(fmt, entries);
    RowRecordTexts(fmt, entries);
  }

  /** A header record followed by the exported rows reads back record by record. */
  lemma RowsReadBack(head: seq<Field>, fmt: Formats, entries: seq<Entry>)
    requires |head| > 0 && forall j :: 0 <= j < |head| ==> Writable(head[j])
    requires forall i :: 0 <= i < |entries| ==> Exportable(fmt, entries[i])
    ensures ParseCsv(EncodeRecord(head) + Rows(fmt, entries)) == Some([Texts(head)] + ExportedRows(fmt, entries))
  {
    ExportDocument(head, fmt, entries);
    ParseDocumentEncoded([head] + RowRecords(fmt, entries));
    ExportTexts(head, fmt, entries);
  }

  /**
   * The exported text reads back as the header's column names followed by one
   * record per entry, in order, each holding that entry's column texts; the notes
   * come back exactly as typed, quotes and line breaks included.
   */
  lemma CsvTextReadsBack(fmt: Formats, entries: seq<Entry>)
    requires forall i :: 0 <= i < |entries| ==> Exportable(fmt, entries[i])
    ensures ParseCsv(CsvText(fmt, entries)) == Some([HeaderNames()] + ExportedRows(fmt, entries))
  {
    HeaderIsRecord();
    HeaderWritable();
    RowsReadBack(HeaderFields(), fmt, entries);
  }
}
