/**
 * The two CSV formats of the application.
 *
 * Import: the text of an uploaded file is split into lines at `\r?\n`, each
 * line is trimmed, blank lines are dropped, and each remaining line is split
 * at commas into a trimmed name (default "Unnamed") and a trimmed email
 * (default empty).
 *
 * Export: every field is wrapped in double quotes with each inner double
 * quote doubled, fields are joined by commas and records by CRLF, as in
 * section 2 of RFC 4180. A parser for that format reads the export back.
 */
module Csv {
  import opened Text

  datatype Option<T> = None | Some(value: T)

  // ---------------------------------------------------------------- import

  /** One piece of `split(/\r?\n/)`: a piece that was followed by a line feed
      loses the carriage return just before it. */
  function DropCR(p: string): string
  {
    if p != [] && p[|p| - 1] == '\r' then p[..|p| - 1] else p
  }

  /** `text.split(/\r?\n/)`. */
  function Lines(text: string): (ls: seq<string>)
    ensures |ls| == |Split(text, '\n')|
    ensures |ls| == multiset(text)['\n'] + 1
  {
    SplitCount(text, '\n');
    var ps := Split(text, '\n');
    seq(|ps|, i requires 0 <= i < |ps| => if i < |ps| - 1 then DropCR(ps[i]) else ps[i])
  }

  /** `.map(s => s.trim()).filter(Boolean)`. */
  function NonBlank(ls: seq<string>): seq<string>
    decreases |ls|
  {
    if ls == [] then []
    else (if Trim(ls[0]) == "" then [] else [Trim(ls[0])]) + NonBlank(ls[1..])
  }

  /** What one non-blank line contributes: `parts[0] || 'Unnamed'` and
      `parts[1] || ''` of the trimmed comma-separated parts. */
  function ParseLine(line: string): (string, string)
  {
    var parts := Split(line, ',');
    var name := Trim(parts[0]);
    var email := if |parts| > 1 then Trim(parts[1]) else "";
    (if name == "" then "Unnamed" else name, email)
  }

  function ParseLines(ls: seq<string>): seq<(string, string)>
    decreases |ls|
  {
    if ls == [] then [] else [ParseLine(ls[0])] + ParseLines(ls[1..])
  }

  /** The (name, email) pairs a client-side CSV import adds, in file order. */
  function ImportRecords(text: string): seq<(string, string)>
  {
    ParseLines(NonBlank(Lines(text)))
  }

  /** A field as the importer leaves it: trimmed, free of commas and line
      feeds. */
  predicate CleanField(f: string)
  {
    Trimmed(f) && ',' !in f && '\n' !in f
  }

  /** A line yields a non-empty trimmed name and a trimmed email, neither
      holding a comma, nor a line feed when the line holds none. */
  lemma ParseLineClean(line: string)
    ensures ParseLine(line).0 != ""
    ensures Trimmed(ParseLine(line).0) && ',' !in ParseLine(line).0
    ensures Trimmed(ParseLine(line).1) && ',' !in ParseLine(line).1
    ensures '\n' !in line ==> '\n' !in ParseLine(line).0 && '\n' !in ParseLine(line).1
  {
    var parts := Split(line, ',');
    JoinSplit(line, ',');
    TrimSpec(parts[0]);
    TrimNoChar(parts[0], ',');
    if |parts| > 1 {
      TrimSpec(parts[1]);
      TrimNoChar(parts[1], ',');
    }
    if '\n' !in line {
      SplitNoChar(line, ',', '\n');
      TrimNoChar(parts[0], '\n');
      if |parts| > 1 {
        TrimNoChar(parts[1], '\n');
      }
    }
  }

  /** Trimming never adds a character. */
  lemma TrimNoChar(s: string, ch: char)
    requires ch !in s
    ensures ch !in Trim(s)
  {
    TrimSpec(s);
    assert forall x :: x in s[Lead(s)..Lead(s) + |Trim(s)|] ==> x in s;
  }

  /** Splitting never adds a character. */
  lemma {:induction false} SplitNoChar(s: string, sep: char, ch: char)
    requires ch !in s
    ensures forall i :: 0 <= i < |Split(s, sep)| ==> ch !in Split(s, sep)[i]
    decreases |s|
  {
    if s != [] {
      assert forall x :: x in s[1..] ==> x in s;
      SplitNoChar(s[1..], sep, ch);
      var rest := Split(s[1..], sep);
      if s[0] != sep {
        assert ch != s[0];
        forall i | 0 <= i < |Split(s, sep)|
          ensures ch !in Split(s, sep)[i]
        {
          if i > 0 {
            assert Split(s, sep)[i] == rest[i];
          }
        }
      }
    }
  }

  /** No line of `split(/\r?\n/)` holds a line feed. */
  lemma LinesNoNewline(text: string)
    ensures forall i :: 0 <= i < |Lines(text)| ==> '\n' !in Lines(text)[i]
  {
    var ps := Split(text, '\n');
    JoinSplit(text, '\n');
    forall i | 0 <= i < |ps| - 1
      ensures '\n' !in DropCR(ps[i])
    {
      assert forall x :: x in DropCR(ps[i]) ==> x in ps[i];
    }
  }

  lemma {:induction false} NonBlankClean(ls: seq<string>)
    requires forall i :: 0 <= i < |ls| ==> '\n' !in ls[i]
    ensures forall i :: 0 <= i < |NonBlank(ls)| ==> '\n' !in NonBlank(ls)[i]
    decreases |ls|
  {
    if ls != [] {
      NonBlankClean(ls[1..]);
      TrimNoChar(ls[0], '\n');
      var head := if Trim(ls[0]) == "" then [] else [Trim(ls[0])];
      forall i | 0 <= i < |NonBlank(ls)|
        ensures '\n' !in NonBlank(ls)[i]
      {
        if i >= |head| {
          assert NonBlank(ls)[i] == NonBlank(ls[1..])[i - |head|];
        }
      }
    }
  }

  lemma {:induction false} ParseLinesClean(ls: seq<string>)
    requires forall i :: 0 <= i < |ls| ==> '\n' !in ls[i]
    ensures |ParseLines(ls)| == |ls|
    ensures forall i :: 0 <= i < |ls| ==>
      ParseLines(ls)[i].0 != "" && CleanField(ParseLines(ls)[i].0) && CleanField(ParseLines(ls)[i].1)
    decreases |ls|
  {
    if ls != [] {
      ParseLinesClean(ls[1..]);
      ParseLineClean(ls[0]);
      forall i | 1 <= i < |ls|
        ensures ParseLines(ls)[i] == ParseLines(ls[1..])[i - 1]
      {
      }
    }
  }

  /** Every imported student gets a non-empty name; names and emails come out
      trimmed, without commas and without line feeds. */
  lemma ImportRecordsClean(text: string)
    ensures forall i :: 0 <= i < |ImportRecords(text)| ==>
      ImportRecords(text)[i].0 != "" && CleanField(ImportRecords(text)[i].0) &&
      CleanField(ImportRecords(text)[i].1)
  {
    LinesNoNewline(text);
    NonBlankClean(Lines(text));
    ParseLinesClean(NonBlank(Lines(text)));
  }

  /** The line a (name, email) pair is written as. */
  function RecordLine(rec: (string, string)): string
  {
    rec.0 + "," + rec.1
  }

  function RecordLines(recs: seq<(string, string)>): (ls: seq<string>)
    ensures |ls| == |recs|
    ensures forall i :: 0 <= i < |recs| ==> ls[i] == RecordLine(recs[i])
    decreases |recs|
  {
    if recs == [] then [] else [RecordLine(recs[0])] + RecordLines(recs[1..])
  }

  /** Pairs the importer can read back unchanged. */
  predicate Importable(recs: seq<(string, string)>)
  {
    forall i :: 0 <= i < |recs| ==> recs[i].0 != "" && CleanField(recs[i].0) && CleanField(recs[i].1)
  }

  /** One line `name,email` of clean fields parses back to the pair. */
  lemma ParseLineRoundTrip(rec: (string, string))
    requires rec.0 != "" && CleanField(rec.0) && CleanField(rec.1)
    ensures ParseLine(RecordLine(rec)) == rec
  {
    var (n, e) := rec;
    assert Join([n, e], [',']) == RecordLine(rec);
    SplitJoin([n, e], ',');
    TrimmedFixed(n);
    TrimmedFixed(e);
  }

  /** The line of a clean pair is non-blank, trimmed and holds no line feed. */
  lemma RecordLineShape(rec: (string, string))
    requires rec.0 != "" && CleanField(rec.0) && CleanField(rec.1)
    ensures RecordLine(rec) != "" && Trimmed(RecordLine(rec)) && '\n' !in RecordLine(rec)
    ensures RecordLine(rec)[|RecordLine(rec)| - 1] != '\r'
  {
    var l := RecordLine(rec);
    assert l[0] == rec.0[0];
    if rec.1 != "" {
      assert l[|l| - 1] == rec.1[|rec.1| - 1];
    }
  }

  lemma {:induction false} NonBlankFixed(ls: seq<string>)
    requires forall i :: 0 <= i < |ls| ==> ls[i] != "" && Trimmed(ls[i])
    ensures NonBlank(ls) == ls
    decreases |ls|
  {
    if ls != [] {
      TrimmedFixed(ls[0]);
      NonBlankFixed(ls[1..]);
    }
  }

  lemma {:induction false} ParseLinesRoundTrip(recs: seq<(string, string)>)
    requires Importable(recs)
    ensures ParseLines(RecordLines(recs)) == recs
    decreases |recs|
  {
    if recs != [] {
      ParseLineRoundTrip(recs[0]);
      ParseLinesRoundTrip(recs[1..]);
      assert RecordLines(recs)[1..] == RecordLines(recs[1..]);
    }
  }

  /** Writing clean pairs one per line as `name,email` and importing the text
      gives the pairs back, in order. */
  lemma ImportRoundTrip(recs: seq<(string, string)>)
    requires Importable(recs)
    ensures ImportRecords(Join(RecordLines(recs), "\n")) == recs
  {
    var ls := RecordLines(recs);
    var text := Join(ls, "\n");
    if recs == [] {
      assert Lines(text) == [""];
    } else {
      forall i | 0 <= i < |ls|
        ensures ls[i] != "" && Trimmed(ls[i]) && '\n' !in ls[i] && ls[i][|ls[i]| - 1] != '\r'
      {
        RecordLineShape(recs[i]);
      }
      SplitJoin(ls, '\n');
      assert Lines(text) == ls;
      NonBlankFixed(ls);
      ParseLinesRoundTrip(recs);
    }
  }

  // ---------------------------------------------------------------- export

  /** `.replace(/"/g, '""')`. */
  function DoubleQuotes(f: string): string
    decreases |f|
  {
    if f == [] then []
    else (if f[0] == '"' then "\"\"" else [f[0]]) + DoubleQuotes(f[1..])
  }

  /** One exported field: `"${String(cell).replace(/"/g, '""')}"`. */
  function QuoteField(f: string): string
  {
    "\"" + DoubleQuotes(f) + "\""
  }

  function QuoteAll(fields: seq<string>): (q: seq<string>)
    ensures |q| == |fields|
    ensures forall i :: 0 <= i < |fields| ==> q[i] == QuoteField(fields[i])
    decreases |fields|
  {
    if fields == [] then [] else [QuoteField(fields[0])] + QuoteAll(fields[1..])
  }

  /** One exported record: the quoted fields joined by commas. */
  function Record(fields: seq<string>): string
  {
    Join(QuoteAll(fields), ",")
  }

  function Records(rows: seq<seq<string>>): (rs: seq<string>)
    ensures |rs| == |rows|
    decreases |rows|
  {
    if rows == [] then [] else [Record(rows[0])] + Records(rows[1..])
  }

  /** The exported file: the records joined by CRLF. */
  function CsvText(rows: seq<seq<string>>): string
  {
    Join(Records(rows), "\r\n")
  }

  /** Reads the inside of a quoted field, up to and including the closing
      quote: a doubled quote stands for one quote. Returns the field and the
      text after the closing quote. */
  function ParseBody(s: string): (r: Option<(string, string)>)
    ensures r.Some? ==> |r.value.1| < |s|
    decreases |s|
  {
    if s == [] then None
    else if s[0] == '"' then
      if |s| >= 2 && s[1] == '"' then
        match ParseBody(s[2..])
        case None => None
        case Some((f, rest)) => Some(("\"" + f, rest))
      else Some(("", s[1..]))
    else
      match ParseBody(s[1..])
      case None => None
      case Some((f, rest)) => Some(([s[0]] + f, rest))
  }

  /** Reads one quoted field. */
  function ParseField(s: string): (r: Option<(string, string)>)
    ensures r.Some? ==> |r.value.1| < |s|
  {
    if s != [] && s[0] == '"' then ParseBody(s[1..]) else None
  }

  /** Reads the comma-separated quoted fields of one record. */
  function ParseFields(s: string): (r: Option<(seq<string>, string)>)
    ensures r.Some? ==> |r.value.1| < |s|
    decreases |s|
  {
    match ParseField(s)
    case None => None
    case Some((f, rest)) =>
      if rest != [] && rest[0] == ',' then
        match ParseFields(rest[1..])
        case None => None
        case Some((fs, rest')) => Some(([f] + fs, rest'))
      else Some(([f], rest))
  }

  /** Reads a whole file of CRLF-separated records of quoted fields. */
  function ParseCsv(s: string): Option<seq<seq<string>>>
    decreases |s|
  {
    match ParseFields(s)
    case None => None
    case Some((fs, rest)) =>
      if rest == [] then Some([fs])
      else if |rest| >= 2 && rest[0] == '\r' && rest[1] == '\n' then
        match ParseCsv(rest[2..])
        case None => None
        case Some(rs) => Some([fs] + rs)
      else None
  }

  lemma {:induction false} BodyRoundTrip(f: string, rest: string)
    requires rest == [] || rest[0] != '"'
    ensures ParseBody(DoubleQuotes(f) + "\"" + rest) == Some((f, rest))
    decreases |f|
  {
    if f == [] {
      assert DoubleQuotes(f) + "\"" + rest == "\"" + rest;
    } else {
      BodyRoundTrip(f[1..], rest);
      BodyStep(f, rest);
    }
  }

  /** One step of reading a body back: the first character, or the doubled
      quote standing for it, then the rest. */
  lemma BodyStep(f: string, rest: string)
    requires f != []
    requires ParseBody(DoubleQuotes(f[1..]) + "\"" + rest) == Some((f[1..], rest))
    ensures ParseBody(DoubleQuotes(f) + "\"" + rest) == Some((f, rest))
  {
    var tail := DoubleQuotes(f[1..]) + "\"" + rest;
    var head := if f[0] == '"' then "\"\"" else [f[0]];
    assert DoubleQuotes(f) + "\"" + rest == head + tail by {
      assert [f[0]] + f[1..] == f;
      DoubleQuotesCons(f[0], f[1..]);
    }
    if f[0] == '"' {
      BodyQuoteCons(tail, f[1..], rest);
      assert "\"" + f[1..] == f;
    } else {
      BodyCharCons(f[0], tail, f[1..], rest);
      assert [f[0]] + f[1..] == f;
    }
  }

  lemma BodyQuoteCons(tail: string, g: string, rest: string)
    requires ParseBody(tail) == Some((g, rest))
    ensures ParseBody("\"\"" + tail) == Some(("\"" + g, rest))
  {
    assert ("\"\"" + tail)[2..] == tail;
  }

  lemma BodyCharCons(ch: char, tail: string, g: string, rest: string)
    requires ch != '"'
    requires ParseBody(tail) == Some((g, rest))
    ensures ParseBody([ch] + tail) == Some(([ch] + g, rest))
  {
    assert ([ch] + tail)[1..] == tail;
  }

  /** A quoted field followed by anything but a quote reads back as itself. */
  lemma FieldRoundTrip(f: string, rest: string)
    requires rest == [] || rest[0] != '"'
    ensures ParseField(QuoteField(f) + rest) == Some((f, rest))
  {
    BodyRoundTrip(f, rest);
    assert QuoteField(f) + rest == "\"" + (DoubleQuotes(f) + "\"" + rest);
  }

  /** A record of several fields is its first quoted field, a comma, and the
      record of the others. */
  lemma RecordCons(fields: seq<string>, rest: string)
    requires |fields| >= 2
    ensures Record(fields) + rest == QuoteField(fields[0]) + ("," + (Record(fields[1..]) + rest))
  {
    assert QuoteAll(fields)[1..] == QuoteAll(fields[1..]);
    assert Record(fields) == QuoteField(fields[0]) + "," + Record(fields[1..]);
  }

  lemma {:induction false} FieldsRoundTrip(fields: seq<string>, rest: string)
    requires |fields| >= 1
    requires rest == [] || rest[0] == '\r'
    ensures ParseFields(Record(fields) + rest) == Some((fields, rest))
    decreases |fields|
  {
    if |fields| == 1 {
      assert Record(fields) == QuoteField(fields[0]);
      FieldRoundTrip(fields[0], rest);
      assert fields == [fields[0]];
    } else {
      FieldsRoundTrip(fields[1..], rest);
      FieldsStep(fields, rest);
    }
  }

  /** Reading a record of several fields: the first field, the comma, then
      the record of the others. */
  lemma FieldsStep(fields: seq<string>, rest: string)
    requires |fields| >= 2
    requires ParseFields(Record(fields[1..]) + rest) == Some((fields[1..], rest))
    ensures ParseFields(Record(fields) + rest) == Some((fields, rest))
  {
    var more := Record(fields[1..]) + rest;
    RecordCons(fields, rest);
    FieldRoundTrip(fields[0], "," + more);
    ParseFieldsCons(Record(fields) + rest, fields[0], more, fields[1..], rest);
    assert [fields[0]] + fields[1..] == fields;
  }

  /** A field followed by a comma continues the record. */
  lemma ParseFieldsCons(s: string, f: string, more: string, fs: seq<string>, rest: string)
    requires ParseField(s) == Some((f, "," + more))
    requires ParseFields(more) == Some((fs, rest))
    ensures ParseFields(s) == Some(([f] + fs, rest))
  {
    assert ("," + more)[1..] == more;
  }

  /** A file of records, none of them empty, reads back as those records:
      the export is well-formed RFC 4180 text that loses nothing. */
  lemma {:induction false} CsvRoundTrip(rows: seq<seq<string>>)
    requires |rows| >= 1
    requires forall i :: 0 <= i < |rows| ==> |rows[i]| >= 1
    ensures ParseCsv(CsvText(rows)) == Some(rows)
    decreases |rows|
  {
    if |rows| == 1 {
      FieldsRoundTrip(rows[0], []);
      assert CsvText(rows) == Record(rows[0]) + [];
      assert rows == [rows[0]];
    } else {
      var more := CsvText(rows[1..]);
      assert Records(rows)[1..] == Records(rows[1..]);
      assert CsvText(rows) == Record(rows[0]) + ("\r\n" + more);
      FieldsRoundTrip(rows[0], "\r\n" + more);
      assert ("\r\n" + more)[2..] == more;
      CsvRoundTrip(rows[1..]);
      assert [rows[0]] + rows[1..] == rows;
    }
  }

  /** A field without quotes is written between quotes as it is. */
  lemma {:induction false} DoubleQuotesPlain(f: string)
    requires '"' !in f
    ensures DoubleQuotes(f) == f
    decreases |f|
  {
    if f != [] {
      assert f[0] in f;
      assert forall ch :: ch in f[1..] ==> ch in f;
      DoubleQuotesPlain(f[1..]);
      assert [f[0]] + f[1..] == f;
    }
  }

  lemma DoubleQuotesCons(ch: char, f: string)
    ensures DoubleQuotes([ch] + f) == (if ch == '"' then "\"\"" else [ch]) + DoubleQuotes(f)
  {
    assert ([ch] + f)[1..] == f;
  }

  /** A plain field is only wrapped in quotes. */
  lemma QuotePlainExample()
    ensures QuoteField("Ann") == "\"Ann\""
  {
    DoubleQuotesPlain("Ann");
  }

  /** A quote inside a field is doubled; a comma is kept. */
  lemma QuoteQuoteExample()
    ensures QuoteField("a\",") == "\"a\"\",\""
  {
    DoubleQuotesPlain(",");
    assert "\"," == ['"'] + ",";
    DoubleQuotesCons('"', ",");
    assert "a\"," == ['a'] + "\",";
    DoubleQuotesCons('a', "\",");
  }
}
