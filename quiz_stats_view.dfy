/**
  The results screen (src/components/QuizStats.tsx): the score colour and the
  CSV text of the "export results" button. This component reads lists
  (`correctAnswers`, `userAnswers`) from each listed question, so it is
  modelled over those lists. A reader for the exported text is defined next to
  the writer, and the two are proved to round-trip.
*/
module QuizStatsView {
  import opened Wrappers

  /** The fields the export reads from each listed question. */
  datatype ReportEntry = ReportEntry(question: string, correctAnswers: seq<string>, userAnswers: seq<string>)

  /** `getScoreColor`. */
  function ScoreColor(score: int): (c: string)
    ensures c == "text-success" <==> score >= 80
    ensures c == "text-orange-500" <==> 60 <= score < 80
    ensures c == "text-destructive" <==> score < 60
  {
    if score >= 80 then "text-success" else if score >= 60 then "text-orange-500" else "text-destructive"
  }

  /** The unquoted first line of the export. */
  const Header: string := "Pregunta,Respuestas Correctas,Tus Respuestas"

  /** `Array.prototype.join`: the parts with sep between neighbours. */
  function Join(parts: seq<string>, sep: string): string {
    if parts == [] then "" else if |parts| == 1 then parts[0] else parts[0] + sep + Join(parts[1..], sep)
  }

  /** `field.replace(/"/g, '""')`. */
  function EscapeQuotes(f: string): string {
    if f == [] then [] else (if f[0] == '"' then "\"\"" else [f[0]]) + EscapeQuotes(f[1..])
  }

  /** Every quote of the field is doubled and nothing else is added. */
  lemma {:induction false} EscapeQuotesCounts(f: string)
    ensures multiset(EscapeQuotes(f))['"'] == 2 * multiset(f)['"']
    ensures forall c :: c != '"' ==> multiset(EscapeQuotes(f))[c] == multiset(f)[c]
    ensures |EscapeQuotes(f)| == |f| + multiset(f)['"']
  {
    if f != [] {
      EscapeQuotesCounts(f[1..]);
      assert f == [f[0]] + f[1..];
    }
  }

  /** A field wrapped in double quotes with its own quotes doubled. */
  function QuoteField(f: string): string {
    "\"" + EscapeQuotes(f) + "\""
  }

  function QuoteAll(fs: seq<string>): (r: seq<string>)
    ensures |r| == |fs|
  {
    if fs == [] then [] else [QuoteField(fs[0])] + QuoteAll(fs[1..])
  }

  /** The three values exported for one question, before quoting. */
  function ExportedFields(e: ReportEntry): seq<string> {
    [e.question, Join(e.correctAnswers, "; "), Join(e.userAnswers, "; ")]
  }

  function ExportedRecords(es: seq<ReportEntry>): (r: seq<seq<string>>)
    ensures |r| == |es|
  {
    if es == [] then [] else [ExportedFields(es[0])] + ExportedRecords(es[1..])
  }

  /** One data row: the quoted fields joined by commas. */
  function ReportLine(e: ReportEntry): string {
    Join(QuoteAll(ExportedFields(e)), ",")
  }

  function ReportLines(es: seq<ReportEntry>): (r: seq<string>)
    ensures |r| == |es|
  {
    if es == [] then [] else [ReportLine(es[0])] + ReportLines(es[1..])
  }

  /** `csvContent`: the header and one row per listed question, joined by newlines. */
  function CsvContent(es: seq<ReportEntry>): string {
    Join([Header] + ReportLines(es), "\n")
  }

  /** Each line preceded by sep. */
  function SepPrefixed(lines: seq<string>, sep: string): string {
    if lines == [] then "" else sep + lines[0] + SepPrefixed(lines[1..], sep)
  }

  /** Reads the body of a quoted field up to its closing quote, turning each
      doubled quote back into one; yields the field and the text after the
      closing quote. */
  function ReadQuotedBody(s: string): (r: Option<(string, string)>)
    ensures r.Some? ==> |r.value.1| < |s|
  {
    if s == [] then None
    else if s[0] == '"' then
      if |s| >= 2 && s[1] == '"' then
        match ReadQuotedBody(s[2..])
        case None => None
        case Some((f, rest)) => Some(("\"" + f, rest))
      else Some(("", s[1..]))
    else
      match ReadQuotedBody(s[1..])
      case None => None
      case Some((f, rest)) => Some(([s[0]] + f, rest))
  }

  /** Reads comma-separated quoted fields up to the end of a line; the text
      left over is empty or starts with a newline. */
  function ReadFields(s: string): (r: Option<(seq<string>, string)>)
    ensures r.Some? ==> |r.value.1| < |s|
    decreases |s|
  {
    if s == [] || s[0] != '"' then None
    else
      match ReadQuotedBody(s[1..])
      case None => None
      case Some((f, rest)) =>
        if rest != [] && rest[0] == ',' then
          match ReadFields(rest[1..])
          case None => None
          case Some((fs, tail)) => Some(([f] + fs, tail))
        else if rest == [] || rest[0] == '\n' then Some(([f], rest))
        else None
  }

  /** Reads records, each introduced by a newline, to the end of the text. */
  function ReadRecords(s: string): Option<seq<seq<string>>>
    decreases |s|
  {
    if s == [] then Some([])
    else if s[0] != '\n' then None
    else
      match ReadFields(s[1..])
      case None => None
      case Some((fields, rest)) =>
        match ReadRecords(rest)
        case None => None
        case Some(records) => Some([fields] + records)
  }

  /** Reads an export: the fixed header, then the data records. */
  function ReadCsv(text: string): Option<seq<seq<string>>> {
    if |text| >= |Header| && text[..|Header|] == Header then ReadRecords(text[|Header|..]) else None
  }

  /** Unquoting recovers the field, whatever follows the closing quote
      (other than another quote). */
  lemma {:induction false} ReadQuotedBodyEscaped(f: string, rest: string)
    requires rest == [] || rest[0] != '"'
    ensures ReadQuotedBody(EscapeQuotes(f) + "\"" + rest) == Some((f, rest))
  {
    var s := EscapeQuotes(f) + "\"" + rest;
    if f == [] {
      assert s == "\"" + rest;
    } else {
      ReadQuotedBodyEscaped(f[1..], rest);
      var inner := EscapeQuotes(f[1..]) + "\"" + rest;
      if f[0] == '"' {
        assert s == "\"\"" + inner;
        assert s[2..] == inner;
        assert "\"" + f[1..] == f;
      } else {
        assert s == [f[0]] + inner;
        assert s[1..] == inner;
        assert [f[0]] + f[1..] == f;
      }
    }
  }

  /** Reading a quoted field followed by text that does not start with a quote. */
  lemma ReadFieldsFirst(f: string, after: string)
    requires after == [] || after[0] != '"'
    ensures var s := QuoteField(f) + after;
            ReadFields(s) ==
              if after != [] && after[0] == ',' then
                match ReadFields(after[1..])
                case None => None
                case Some((fs, tail)) => Some(([f] + fs, tail))
              else if after == [] || after[0] == '\n' then Some(([f], after))
              else None
  {
    var s := QuoteField(f) + after;
    assert s[0] == '"';
    assert s[1..] == EscapeQuotes(f) + "\"" + after;
    ReadQuotedBodyEscaped(f, after);
  }

  /** A row of quoted fields reads back as those fields. */
  lemma {:induction false} ReadFieldsQuoted(fs: seq<string>, rest: string)
    requires |fs| >= 1
    requires rest == [] || rest[0] == '\n'
    ensures ReadFields(Join(QuoteAll(fs), ",") + rest) == Some((fs, rest))
  {
    var f := fs[0];
    var quoted := QuoteAll(fs);
    assert quoted[0] == QuoteField(f);
    if |fs| == 1 {
      assert Join(quoted, ",") == QuoteField(f);
      ReadFieldsFirst(f, rest);
      assert [f] == fs;
    } else {
      var more := Join(QuoteAll(fs[1..]), ",") + rest;
      assert quoted[1..] == QuoteAll(fs[1..]);
      assert Join(quoted, ",") + rest == QuoteField(f) + ("," + more);
      ReadFieldsQuoted(fs[1..], rest);
      ReadFieldsFirst(f, "," + more);
      assert ("," + more)[1..] == more;
      assert [f] + fs[1..] == fs;
    }
  }

  /** Joining a list that starts with h is h followed by each later part
      preceded by the separator. */
  lemma {:induction false} JoinCons(h: string, lines: seq<string>, sep: string)
    ensures Join([h] + lines, sep) == h + SepPrefixed(lines, sep)
    decreases |lines|
  {
    if lines != [] {
      JoinCons(lines[0], lines[1..], sep);
      assert ([h] + lines)[1..] == [lines[0]] + lines[1..];
    }
  }

  /** Reading one record introduced by a newline, then the rest. */
  lemma ReadRecordsFirst(line: string, fields: seq<string>, rest: string)
    requires ReadFields(line + rest) == Some((fields, rest))
    ensures ReadRecords("\n" + line + rest) ==
              match ReadRecords(rest)
              case None => None
              case Some(records) => Some([fields] + records)
  {
    var s := "\n" + line + rest;
    assert s[1..] == line + rest;
  }

  /** The data part of an export reads back as the exported records. */
  lemma {:induction false} ReadRecordsExported(es: seq<ReportEntry>)
    ensures ReadRecords(SepPrefixed(ReportLines(es), "\n")) == Some(ExportedRecords(es))
  {
    if es != [] {
      var e := es[0];
      var rest := SepPrefixed(ReportLines(es[1..]), "\n");
      ReadRecordsExported(es[1..]);
      assert ReportLines(es)[0] == ReportLine(e);
      assert ReportLines(es)[1..] == ReportLines(es[1..]);
      assert SepPrefixed(ReportLines(es), "\n") == "\n" + ReportLine(e) + rest;
      ReadFieldsQuoted(ExportedFields(e), rest);
      ReadRecordsFirst(ReportLine(e), ExportedFields(e), rest);
    }
  }

  /** The export starts with the header and reads back as one record of three
      fields per listed question, in order. */
  lemma CsvRoundTrip(es: seq<ReportEntry>)
    ensures CsvContent(es)[..|Header|] == Header
    ensures ReadCsv(CsvContent(es)) == Some(ExportedRecords(es))
  {
    var body := SepPrefixed(ReportLines(es), "\n");
    JoinCons(Header, ReportLines(es), "\n");
    assert CsvContent(es) == Header + body;
    assert CsvContent(es)[|Header|..] == body;
    ReadRecordsExported(es);
  }

  /** The i-th exported record is the question, the joined correct answers and
      the joined user answers of the i-th entry. */
  lemma {:induction false} ExportedRecordAt(es: seq<ReportEntry>, i: nat)
    requires i < |es|
    ensures ExportedRecords(es)[i] == [es[i].question, Join(es[i].correctAnswers, "; "), Join(es[i].userAnswers, "; ")]
  {
    if i > 0 {
      ExportedRecordAt(es[1..], i - 1);
    }
  }
}
