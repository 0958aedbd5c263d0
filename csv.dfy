/**
 * Comma-separated values as section 2 of RFC 4180 describes them: the quote
 * doubling exportCSV in app.js applies to the notes field, its inverse, and a
 * reader for the format that shows what a consumer gets back from exported text.
 *
 * Records end with a line feed, as exportCSV writes them (the RFC's CRLF is an
 * LF here).
 */
module Csv {
  import opened Wrappers

  // ---------------------------------------------------------------------------
  // Quote doubling
  // ---------------------------------------------------------------------------

  /** The number of `"` characters in `t`. */
  function QuoteCount(t: string): nat {
    if t == [] then 0 else (if t[0] == '"' then 1 else 0) + QuoteCount(t[1..])
  }

  /** `t.replace(/"/g, '""')`: every quote character doubled (rule 7 of section 2 of RFC 4180). */
  function Escape(t: string): (r: string)
    ensures |r| == |t| + QuoteCount(t)
    ensures '"' !in t ==> r == t
  {
    if t == [] then []
    else (if t[0] == '"' then "\"\"" else [t[0]]) + Escape(t[1..])
  }

  /** Every `"` in `t` is one of an adjacent pair `""`, read from the left. */
  ghost predicate QuotesPaired(t: string)
    decreases |t|
  {
    if t == [] then true
    else if t[0] == '"' then |t| >= 2 && t[1] == '"' && QuotesPaired(t[2..])
    else QuotesPaired(t[1..])
  }

  /** Collapse each `""` to `"`: what a reader does inside a quoted field. */
  function Unescape(t: string): string
    decreases |t|
  {
    if t == [] then []
    else if |t| >= 2 && t[0] == '"' && t[1] == '"' then "\"" + Unescape(t[2..])
    else [t[0]] + Unescape(t[1..])
  }

  /** The escaped notes contain quote characters only in adjacent pairs. */
  lemma {:induction false} EscapePairsQuotes(t: string)
    ensures QuotesPaired(Escape(t))
  {
    if t != [] {
      EscapePairsQuotes(t[1..]);
      var r := Escape(t);
      if t[0] == '"' {
        assert r == "\"\"" + Escape(t[1..]);
        assert r[2..] == Escape(t[1..]);
      } else {
        assert r == [t[0]] + Escape(t[1..]);
        assert r[1..] == Escape(t[1..]);
      }
    }
  }

  /** Collapsing the doubled quotes recovers the original text. */
  lemma {:induction false} UnescapeEscape(t: string)
    ensures Unescape(Escape(t)) == t
  {
    if t != [] {
      UnescapeEscape(t[1..]);
      var r := Escape(t);
      if t[0] == '"' {
        assert r == "\"\"" + Escape(t[1..]);
        assert r[2..] == Escape(t[1..]);
      } else {
        assert r == [t[0]] + Escape(t[1..]);
        assert r[1..] == Escape(t[1..]);
      }
      assert t == [t[0]] + t[1..];
    }
  }

  /** Conversely, any text whose quotes are paired is the escape of its collapse. */
  lemma {:induction false} EscapeUnescape(t: string)
    requires QuotesPaired(t)
    ensures Escape(Unescape(t)) == t
    decreases |t|
  {
    if t != [] {
      if t[0] == '"' {
        EscapeUnescape(t[2..]);
        var u := Unescape(t[2..]);
        assert Unescape(t) == "\"" + u;
        assert ("\"" + u)[1..] == u;
        assert t == "\"\"" + t[2..];
      } else {
        EscapeUnescape(t[1..]);
        var u := Unescape(t[1..]);
        assert Unescape(t) == [t[0]] + u;
        assert ([t[0]] + u)[1..] == u;
        assert t == [t[0]] + t[1..];
      }
    }
  }

  // ---------------------------------------------------------------------------
  // Reading CSV text
  // ---------------------------------------------------------------------------

  /** Regrouping concatenations. */
  lemma Regroup2(a: string, b: string, c: string)
    ensures a + b + c == a + (b + c)
  {
  }

  lemma Regroup3(a: string, b: string, c: string, d: string)
    ensures a + b + c + d == a + (b + c + d)
  {
  }

  lemma Regroup(a: string, b: string, c: string, d: string, e: string)
    ensures a + b + c + d + e == a + (b + (c + d + e))
  {
  }

  /** A value read from the front of some text, and the text after it. */
  datatype Parsed<T> = Parsed(value: T, rest: string)

  /**
   * The inside of a quoted field, after its opening quote: the text up to the
   * closing quote with each `""` read as `"`, and what follows the closing quote.
   * `None` when the closing quote is missing.
   */
  function ParseQuoted(s: string): (r: Option<Parsed<string>>)
    ensures r.Some? ==> |r.value.rest| < |s|
    decreases |s|
  {
    if s == [] then None
    else if s[0] == '"' then
      if |s| >= 2 && s[1] == '"' then
        match ParseQuoted(s[2..])
        case None => None
        case Some(p) => Some(Parsed("\"" + p.value, p.rest))
      else Some(Parsed("", s[1..]))
    else
      match ParseQuoted(s[1..])
      case None => None
      case Some(p) => Some(Parsed([s[0]] + p.value, p.rest))
  }

  /** An unquoted field: the text up to the next comma or line break. */
  function ParseBare(s: string): (r: Parsed<string>)
    ensures r.value + r.rest == s
    ensures r.rest == [] || r.rest[0] == ',' || r.rest[0] == '\n'
  {
    if s == [] || s[0] == ',' || s[0] == '\n' then Parsed("", s)
    else
      var p := ParseBare(s[1..]);
      Regroup2([s[0]], p.value, p.rest);
      assert s == [s[0]] + s[1..];
      Parsed([s[0]] + p.value, p.rest)
  }

  /** One field, quoted or not. */
  function ParseField(s: string): (r: Option<Parsed<string>>)
    ensures r.Some? ==> |r.value.rest| <= |s|
  {
    if s != [] && s[0] == '"' then ParseQuoted(s[1..]) else Some(ParseBare(s))
  }

  /**
   * One record: fields separated by commas, through the line break that ends it
   * (or the end of the text). `None` when a quoted field is followed by anything
   * but a separator.
   */
  function ParseRecord(s: string): (r: Option<Parsed<seq<string>>>)
    ensures r.Some? ==> |r.value.rest| < |s|
    decreases |s|
  {
    match ParseField(s)
    case None => None
    case Some(f) =>
      if f.rest == [] then (if s == [] then None else Some(Parsed([f.value], [])))
      else if f.rest[0] == '\n' then Some(Parsed([f.value], f.rest[1..]))
      else if f.rest[0] == ',' then
        match ParseRecord(f.rest[1..])
        case None => None
        case Some(more) => Some(Parsed([f.value] + more.value, more.rest))
      else None
  }

  /** A whole document: its records in order. */
  function ParseCsv(s: string): Option<seq<seq<string>>>
    decreases |s|
  {
    if s == [] then Some([])
    else
      match ParseRecord(s)
      case None => None
      case Some(rec) =>
        match ParseCsv(rec.rest)
        case None => None
        case Some(recs) => Some([rec.value] + recs)
  }

  // ---------------------------------------------------------------------------
  // Writing CSV text, and reading it back
  // ---------------------------------------------------------------------------

  /** A field to write: in double quotes with quotes doubled, or as it is. */
  datatype Field = Quoted(text: string) | Bare(text: string)

  /** A bare field is readable when it holds no separator and no quote. */
  ghost predicate Writable(f: Field) {
    f.Bare? ==> ',' !in f.text && '"' !in f.text && '\n' !in f.text
  }

  function EncodeField(f: Field): string {
    match f
    case Quoted(t) => "\"" + Escape(t) + "\""
    case Bare(t) => t
  }

  /** The fields joined by commas. */
  function EncodeFields(fs: seq<Field>): string
    requires |fs| > 0
  {
    if |fs| == 1 then EncodeField(fs[0]) else EncodeField(fs[0]) + "," + EncodeFields(fs[1..])
  }

  /** A record: its fields and a line break. */
  function EncodeRecord(fs: seq<Field>): string
    requires |fs| > 0
  {
    EncodeFields(fs) + "\n"
  }

  /** The records one after another. */
  function EncodeDocument(records: seq<seq<Field>>): string
    requires forall i :: 0 <= i < |records| ==> |records[i]| > 0
  {
    if records == [] then [] else EncodeRecord(records[0]) + EncodeDocument(records[1..])
  }

  /** The texts a reader should get back from the fields. */
  function Texts(fs: seq<Field>): (r: seq<string>)
    ensures |r| == |fs| && forall i :: 0 <= i < |fs| ==> r[i] == fs[i].text
  {
    if fs == [] then [] else [fs[0].text] + Texts(fs[1..])
  }

  /** `rest` begins where a field may end. */
  ghost predicate AtFieldEnd(rest: string) {
    rest == [] || rest[0] == ',' || rest[0] == '\n'
  }

  /** Reading the escaped text of a quoted field gives back the text and stops after the closing quote. */
  lemma {:induction false} ParseQuotedEscaped(t: string, rest: string)
    requires AtFieldEnd(rest)
    ensures ParseQuoted(Escape(t) + "\"" + rest) == Some(Parsed(t, rest))
  {
    if t == [] {
      ParseQuotedClose(rest);
    } else {
      ParseQuotedEscaped(t[1..], rest);
      ParseQuotedStep(t, rest);
    }
  }

  /** The closing quote ends the field when a separator or the end follows it. */
  lemma ParseQuotedClose(rest: string)
    requires AtFieldEnd(rest)
    ensures ParseQuoted(Escape([]) + "\"" + rest) == Some(Parsed([], rest))
  {
    var s := "\"" + rest;
    assert Escape([]) + "\"" + rest == s;
    assert s[1..] == rest && !(|s| >= 2 && s[1] == '"');
  }

  /** One more character of the text in front of an escaped tail. */
  lemma ParseQuotedStep(t: string, rest: string)
    requires t != [] && ParseQuoted(Escape(t[1..]) + "\"" + rest) == Some(Parsed(t[1..], rest))
    ensures ParseQuoted(Escape(t) + "\"" + rest) == Some(Parsed(t, rest))
  {
    var tail := Escape(t[1..]) + "\"" + rest;
    assert t == [t[0]] + t[1..];
    if t[0] == '"' {
      assert Escape(t) == "\"\"" + Escape(t[1..]);
      Regroup3("\"\"", Escape(t[1..]), "\"", rest);
      ParseQuotedPair(tail);
    } else {
      assert Escape(t) == [t[0]] + Escape(t[1..]);
      Regroup3([t[0]], Escape(t[1..]), "\"", rest);
      ParseQuotedOther(t[0], tail);
    }
  }

  /** A doubled quote inside a quoted field reads as one quote. */
  lemma ParseQuotedPair(tail: string)
    ensures ParseQuoted("\"\"" + tail) ==
              match ParseQuoted(tail) case None => None case Some(p) => Some(Parsed("\"" + p.value, p.rest))
  {
    assert ("\"\"" + tail)[2..] == tail;
  }

  /** Any other character inside a quoted field reads as itself. */
  lemma ParseQuotedOther(c: char, tail: string)
    requires c != '"'
    ensures ParseQuoted([c] + tail) ==
              match ParseQuoted(tail) case None => None case Some(p) => Some(Parsed([c] + p.value, p.rest))
  {
    assert ([c] + tail)[1..] == tail;
  }

  lemma {:induction false} ParseBareText(t: string, rest: string)
    requires ',' !in t && '\n' !in t && AtFieldEnd(rest)
    ensures ParseBare(t + rest) == Parsed(t, rest)
  {
    if t != [] {
      ParseBareText(t[1..], rest);
      assert (t + rest)[1..] == t[1..] + rest;
      assert t == [t[0]] + t[1..];
    }
  }

  /** Reading a written field gives back its text and stops at the separator after it. */
  lemma ParseFieldEncoded(f: Field, rest: string)
    requires Writable(f) && AtFieldEnd(rest)
    ensures ParseField(EncodeField(f) + rest) == Some(Parsed(f.text, rest))
  {
    match f
    case Quoted(t) =>
      var s := EncodeField(f) + rest;
      assert s == "\"" + (Escape(t) + "\"" + rest);
      assert s[1..] == Escape(t) + "\"" + rest;
      ParseQuotedEscaped(t, rest);
    case Bare(t) =>
      ParseBareText(t, rest);
      if t == [] {
        assert EncodeField(f) + rest == rest;
      }
  }

  /** A field followed by a line break ends the record. */
  lemma ParseRecordLast(s: string, v: string, rest: string)
    requires ParseField(s) == Some(Parsed(v, "\n" + rest))
    ensures ParseRecord(s) == Some(Parsed([v], rest))
  {
    assert ("\n" + rest)[1..] == rest;
  }

  /** A field followed by a comma is the first of the record's fields. */
  lemma ParseRecordMore(s: string, v: string, more: string)
    requires ParseField(s) == Some(Parsed(v, "," + more))
    ensures ParseRecord(s) ==
              match ParseRecord(more) case None => None case Some(m) => Some(Parsed([v] + m.value, m.rest))
  {
    assert ("," + more)[1..] == more;
  }

  /** Reading a written record gives back the texts of its fields and stops after its line break. */
  lemma {:induction false} ParseRecordEncoded(fs: seq<Field>, rest: string)
    requires |fs| > 0 && forall i :: 0 <= i < |fs| ==> Writable(fs[i])
    ensures ParseRecord(EncodeRecord(fs) + rest) == Some(Parsed(Texts(fs), rest))
    decreases |fs|
  {
    if |fs| == 1 {
      ParseRecordSingle(fs, rest);
    } else {
      ParseRecordEncoded(fs[1..], rest);
      ParseRecordStep(fs, rest);
    }
  }

  lemma ParseRecordSingle(fs: seq<Field>, rest: string)
    requires |fs| == 1 && Writable(fs[0])
    ensures ParseRecord(EncodeRecord(fs) + rest) == Some(Parsed(Texts(fs), rest))
  {
    var s := EncodeRecord(fs) + rest;
    assert EncodeFields(fs) == EncodeField(fs[0]);
    Regroup2(EncodeField(fs[0]), "\n", rest);
    ParseFieldEncoded(fs[0], "\n" + rest);
    ParseRecordLast(s, fs[0].text, rest);
    assert Texts(fs) == [fs[0].text];
  }

  lemma ParseRecordStep(fs: seq<Field>, rest: string)
    requires |fs| > 1 && Writable(fs[0])
    requires ParseRecord(EncodeRecord(fs[1..]) + rest) == Some(Parsed(Texts(fs[1..]), rest))
    ensures ParseRecord(EncodeRecord(fs) + rest) == Some(Parsed(Texts(fs), rest))
  {
    var s := EncodeRecord(fs) + rest;
    var more := EncodeRecord(fs[1..]) + rest;
    assert EncodeFields(fs) == EncodeField(fs[0]) + "," + EncodeFields(fs[1..]);
    Regroup(EncodeField(fs[0]), ",", EncodeFields(fs[1..]), "\n", rest);
    ParseFieldEncoded(fs[0], "," + more);
    ParseRecordMore(s, fs[0].text, more);
    assert Texts(fs) == [fs[0].text] + Texts(fs[1..]);
  }

  /** The texts of every record, in order. */
  function TextsOf(records: seq<seq<Field>>): (r: seq<seq<string>>)
    ensures |r| == |records| && forall i :: 0 <= i < |records| ==> r[i] == Texts(records[i])
  {
    if records == [] then [] else [Texts(records[0])] + TextsOf(records[1..])
  }

  lemma TextsOfAppend(records: seq<seq<Field>>, last: seq<Field>)
    ensures TextsOf(records + [last]) == TextsOf(records) + [Texts(last)]
  {
    var r := records + [last];
    assert forall i :: 0 <= i < |records| ==> r[i] == records[i];
  }

  /** Reading a written document gives back every record's texts, in order. */
  lemma {:induction false} ParseDocumentEncoded(records: seq<seq<Field>>)
    requires forall i :: 0 <= i < |records| ==> |records[i]| > 0
    requires forall i, j :: 0 <= i < |records| && 0 <= j < |records[i]| ==> Writable(records[i][j])
    ensures ParseCsv(EncodeDocument(records)) == Some(TextsOf(records))
  {
    if records != [] {
      var tail := EncodeDocument(records[1..]);
      assert EncodeDocument(records) == EncodeRecord(records[0]) + tail;
      assert |EncodeDocument(records)| > 0;
      ParseRecordEncoded(records[0], tail);
      ParseDocumentEncoded(records[1..]);
    }
  }
}
