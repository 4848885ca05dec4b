/**
  Question ingestion (src/utils/excelParser.ts): the loop that turns the rows
  of the first worksheet into questions, and the check on the uploaded file's
  type. Decoding the workbook is not modelled: the loop starts from the rows
  `sheet_to_json(worksheet, { header: 1 })` yields.
*/
module ExcelParser {
  import opened Wrappers
  import opened TextUtil
  import opened QuizTypes
  import RandomOrder

  /** A decoded cell. Spreadsheet numbers are modelled by their integer values. */
  datatype Cell = Blank | Text(s: string) | Number(n: int) | Boolean(b: bool)

  /** A decoded row; a slot of the row list may itself be empty. */
  type Row = Option<seq<Cell>>

  datatype ParseError =
    | NoValidQuestions  // no row produced a question
    | InvalidWorkbook   // the workbook could not be decoded
    | ReadFailure       // the file could not be read

  /** What reading and decoding the uploaded file gave. */
  datatype FileLoad = ReadFailed | Undecodable | Decoded(rows: seq<Row>)

  /** A row needs a question and four answers. */
  const MinCells: nat := 5

  /** JavaScript truthiness of a cell value (`!row[0]` is its negation). */
  predicate Truthy(c: Cell) {
    match c
    case Blank => false
    case Text(s) => s != ""
    case Number(n) => n != 0
    case Boolean(b) => b
  }

  /** `cell?.toString()`, with a missing cell read as the empty text. */
  function CellString(c: Cell): string {
    match c
    case Blank => ""
    case Text(s) => s
    case Number(n) => IntToString(n)
    case Boolean(b) => if b then "true" else "false"
  }

  /** `cell?.toString().trim()`. */
  function CellText(c: Cell): string {
    Trim(CellString(c))
  }

  /** The cell's text has a character `trim` keeps, i.e. `cell?.toString().trim()`
      is not empty (CellTextFilled). */
  predicate Filled(c: Cell) {
    exists i :: 0 <= i < |CellString(c)| && !IsWhitespace(CellString(c)[i])
  }

  /** A row produces a question: it is present, has five cells, a truthy first
      cell, and none of the first five cells is blank once trimmed. */
  predicate Qualifies(row: Row) {
    && row.Some?
    && |row.value| >= MinCells
    && Truthy(row.value[0])
    && Filled(row.value[0])
    && Filled(row.value[1])
    && Filled(row.value[2])
    && Filled(row.value[3])
    && Filled(row.value[4])
  }

  /** A cell is filled exactly when its trimmed text is not empty. */
  lemma CellTextFilled(c: Cell)
    ensures Filled(c) <==> CellText(c) != ""
  {
    TrimSpec(CellString(c));
  }

  /** For a present row of five or more cells, the loop's checks decide `Qualifies`. */
  lemma QualifiesByText(cells: seq<Cell>)
    requires |cells| >= MinCells
    ensures Qualifies(Some(cells)) <==>
              && Truthy(cells[0])
              && CellText(cells[0]) != "" && CellText(cells[1]) != "" && CellText(cells[2]) != ""
              && CellText(cells[3]) != "" && CellText(cells[4]) != ""
  {
    CellTextFilled(cells[0]);
    CellTextFilled(cells[1]);
    CellTextFilled(cells[2]);
    CellTextFilled(cells[3]);
    CellTextFilled(cells[4]);
  }

  /** The id `q_${i}_${Date.now()}` of the question built from row i. */
  function QuestionId(i: nat, stamp: nat): string {
    "q_" + NatToString(i) + "_" + NatToString(stamp)
  }

  /** The question built from a qualifying row: cell 1 is the correct answer,
      cells 2 to 4 the incorrect ones, and the four are shuffled into `allOptions`. */
  function QuestionFromRow(cells: seq<Cell>, i: nat, stamp: nat, draws: seq<nat>): (q: Question)
    requires |cells| >= MinCells
    ensures |q.allOptions| == 4
    ensures multiset(q.allOptions) == multiset([q.correctAnswer] + q.incorrectAnswers)
  {
    var correctAnswer := CellText(cells[1]);
    var incorrectAnswers := [CellText(cells[2]), CellText(cells[3]), CellText(cells[4])];
    Question(QuestionId(i, stamp), CellText(cells[0]), correctAnswer, incorrectAnswers,
             RandomOrder.Shuffle([correctAnswer] + incorrectAnswers, draws))
  }

  /** The indices in 1..n-1 of the rows that produce a question, in row order. */
  function QualifyingIndices(rows: seq<Row>, n: nat): seq<nat>
    requires n <= |rows|
  {
    if n <= 1 then []
    else QualifyingIndices(rows, n - 1) + (if Qualifies(rows[n - 1]) then [n - 1] else [])
  }

  /** The questions the loop has pushed once it has looked at rows 1..n-1.
      `clock(i)` is `Date.now()` and `draws(i)` the random source while row i is handled. */
  function ParsedQuestions(rows: seq<Row>, n: nat, clock: nat -> nat, draws: nat -> seq<nat>): seq<Question>
    requires n <= |rows|
  {
    if n <= 1 then []
    else
      ParsedQuestions(rows, n - 1, clock, draws)
      + (if Qualifies(rows[n - 1])
         then [QuestionFromRow(rows[n - 1].value, n - 1, clock(n - 1), draws(n - 1))]
         else [])
  }

  /** What the row loop resolves or rejects with. */
  function ParseRows(rows: seq<Row>, clock: nat -> nat, draws: nat -> seq<nat>): Result<seq<Question>, ParseError> {
    var questions := ParsedQuestions(rows, |rows|, clock, draws);
    if |questions| == 0 then Err(NoValidQuestions) else Ok(questions)
  }

  /** One pass of the row loop's body: the question row i yields, if any. */
  method ParseRow(row: Row, i: nat, stamp: nat, draws: seq<nat>) returns (q: Option<Question>)
    ensures q.Some? <==> Qualifies(row)
    ensures q.Some? ==> q.value == QuestionFromRow(row.value, i, stamp, draws)
  {
    q := None;
    if row.Some? && |row.value| >= MinCells && Truthy(row.value[0]) {
      var cells := row.value;
      var question := CellText(cells[0]);
      var correctAnswer := CellText(cells[1]);
      var incorrectAnswer1 := CellText(cells[2]);
      var incorrectAnswer2 := CellText(cells[3]);
      var incorrectAnswer3 := CellText(cells[4]);
      QualifiesByText(cells);
      if question != "" && correctAnswer != "" && incorrectAnswer1 != ""
         && incorrectAnswer2 != "" && incorrectAnswer3 != ""
      {
        var incorrectAnswers := [incorrectAnswer1, incorrectAnswer2, incorrectAnswer3];
        var allOptions := RandomOrder.Shuffle([correctAnswer] + incorrectAnswers, draws);
        q := Some(Question(QuestionId(i, stamp), question, correctAnswer, incorrectAnswers, allOptions));
      }
    }
  }

  /** The row loop of `parseExcelFile`. */
  method ParseSheet(rows: seq<Row>, clock: nat -> nat, draws: nat -> seq<nat>)
    returns (r: Result<seq<Question>, ParseError>)
    ensures r == ParseRows(rows, clock, draws)
  {
    var questions: seq<Question> := [];
    var i := 1;
    while i < |rows|
      invariant 1 <= i <= |rows| + 1
      invariant questions == ParsedQuestions(rows, if i <= |rows| then i else |rows|, clock, draws)
    {
      var question := ParseRow(rows[i], i, clock(i), draws(i));
      if question.Some? {
        questions := questions + [question.value];
      }
      i := i + 1;
    }
    if |questions| == 0 {
      r := Err(NoValidQuestions);
    } else {
      r := Ok(questions);
    }
  }

  /** `parseExcelFile`: a read or decoding failure rejects before any row is looked at. */
  method ParseExcelFile(load: FileLoad, clock: nat -> nat, draws: nat -> seq<nat>)
    returns (r: Result<seq<Question>, ParseError>)
    ensures load.ReadFailed? ==> r == Err(ReadFailure)
    ensures load.Undecodable? ==> r == Err(InvalidWorkbook)
    ensures load.Decoded? ==> r == ParseRows(load.rows, clock, draws)
  {
    match load
    case ReadFailed => r := Err(ReadFailure);
    case Undecodable => r := Err(InvalidWorkbook);
    case Decoded(rows) => r := ParseSheet(rows, clock, draws);
  }

  /** Row k is selected among rows 1..n-1 exactly when it qualifies. */
  lemma {:induction false} QualifyingIndexMember(rows: seq<Row>, n: nat, k: nat)
    requires n <= |rows|
    ensures k in QualifyingIndices(rows, n) <==> 1 <= k < n && Qualifies(rows[k])
  {
    if n > 1 {
      QualifyingIndexMember(rows, n - 1, k);
    }
  }

  /** The selected indices are data rows below n, in strictly increasing order. */
  lemma {:induction false} QualifyingIndicesIncreasing(rows: seq<Row>, n: nat)
    requires n <= |rows|
    ensures forall a :: 0 <= a < |QualifyingIndices(rows, n)| ==> 1 <= QualifyingIndices(rows, n)[a] < n
    ensures forall a, b :: 0 <= a < b < |QualifyingIndices(rows, n)| ==>
              QualifyingIndices(rows, n)[a] < QualifyingIndices(rows, n)[b]
  {
    if n > 1 {
      QualifyingIndicesIncreasing(rows, n - 1);
    }
  }

  /** The header row never produces a question. */
  lemma HeaderNeverParsed(rows: seq<Row>)
    ensures 0 !in QualifyingIndices(rows, |rows|)
  {
    QualifyingIndexMember(rows, |rows|, 0);
  }

  /** The k-th question comes from the k-th qualifying row, and is built from that row alone. */
  lemma {:induction false} ParsedQuestionsAt(rows: seq<Row>, n: nat, clock: nat -> nat, draws: nat -> seq<nat>)
    requires n <= |rows|
    ensures |ParsedQuestions(rows, n, clock, draws)| == |QualifyingIndices(rows, n)|
    ensures forall k :: 0 <= k < |ParsedQuestions(rows, n, clock, draws)| ==>
              var i := QualifyingIndices(rows, n)[k];
              i < |rows| && Qualifies(rows[i])
              && ParsedQuestions(rows, n, clock, draws)[k] == QuestionFromRow(rows[i].value, i, clock(i), draws(i))
  {
    if n > 1 {
      ParsedQuestionsAt(rows, n - 1, clock, draws);
    }
  }

  /** Every produced question has non-blank trimmed texts taken from its row,
      and its options are a permutation of the correct answer followed by the three others. */
  lemma ParsedQuestionsShape(rows: seq<Row>, clock: nat -> nat, draws: nat -> seq<nat>, k: nat)
    requires k < |ParsedQuestions(rows, |rows|, clock, draws)|
    ensures k < |QualifyingIndices(rows, |rows|)|
    ensures var q := ParsedQuestions(rows, |rows|, clock, draws)[k];
            var i := QualifyingIndices(rows, |rows|)[k];
            && 1 <= i < |rows| && rows[i].Some? && |rows[i].value| >= MinCells
            && q.id == QuestionId(i, clock(i))
            && q.question == CellText(rows[i].value[0]) != ""
            && q.correctAnswer == CellText(rows[i].value[1]) != ""
            && q.incorrectAnswers == [CellText(rows[i].value[2]), CellText(rows[i].value[3]), CellText(rows[i].value[4])]
            && (forall j :: 0 <= j < 3 ==> q.incorrectAnswers[j] != "")
            && |q.allOptions| == 4
            && multiset(q.allOptions) == multiset([q.correctAnswer] + q.incorrectAnswers)
  {
    ParsedQuestionsAt(rows, |rows|, clock, draws);
    QualifyingIndicesIncreasing(rows, |rows|);
    var cells := rows[QualifyingIndices(rows, |rows|)[k]].value;
    CellTextFilled(cells[0]);
    CellTextFilled(cells[1]);
    CellTextFilled(cells[2]);
    CellTextFilled(cells[3]);
    CellTextFilled(cells[4]);
  }

  /** The loop rejects exactly when no data row qualifies; otherwise it resolves
      with one question per qualifying row. */
  lemma ParseRowsOutcome(rows: seq<Row>, clock: nat -> nat, draws: nat -> seq<nat>)
    ensures ParseRows(rows, clock, draws).Err? <==> forall i :: 1 <= i < |rows| ==> !Qualifies(rows[i])
    ensures ParseRows(rows, clock, draws).Err? ==> ParseRows(rows, clock, draws).error == NoValidQuestions
    ensures ParseRows(rows, clock, draws).Ok? ==>
              |ParseRows(rows, clock, draws).value| == |QualifyingIndices(rows, |rows|)|
  {
    var ix := QualifyingIndices(rows, |rows|);
    ParsedQuestionsAt(rows, |rows|, clock, draws);
    if exists i :: 1 <= i < |rows| && Qualifies(rows[i]) {
      var i :| 1 <= i < |rows| && Qualifies(rows[i]);
      QualifyingIndexMember(rows, |rows|, i);
    }
    if ix != [] {
      QualifyingIndexMember(rows, |rows|, ix[0]);
      assert ix[0] in ix;
    }
  }

  /** In `a + "_" + x` the character after `a` is the underscore; `QuestionIdInjective` uses it to find where the row index ends. */
  lemma UnderscoreAfter(a: string, x: string)
    ensures (a + "_" + x)[|a|] == '_'
  {
  }

  /** Inside a digit string `b`, `b + "_" + y` holds digits; so the first underscore of an id comes right after the row index. */
  lemma DigitBefore(b: string, y: string, k: nat)
    requires k < |b| && AllDigits(b)
    ensures IsDigit((b + "_" + y)[k])
  {
    assert (b + "_" + y)[k] == b[k];
  }

  /** Different row indices give different ids, whatever the clock says. */
  lemma QuestionIdInjective(i: nat, j: nat, s: nat, t: nat)
    requires QuestionId(i, s) == QuestionId(j, t)
    ensures i == j
  {
    var x := NatToString(i) + "_" + NatToString(s);
    var y := NatToString(j) + "_" + NatToString(t);
    assert QuestionId(i, s) == "q_" + x;
    assert QuestionId(j, t) == "q_" + y;
    assert x == QuestionId(i, s)[2..] == y;
    var a, b := NatToString(i), NatToString(j);
    if |a| < |b| {
      DigitBefore(b, NatToString(t), |a|);
      UnderscoreAfter(a, NatToString(s));
      assert false;
    } else if |b| < |a| {
      DigitBefore(a, NatToString(s), |b|);
      UnderscoreAfter(b, NatToString(t));
      assert false;
    }
    assert a == x[..|a|] == y[..|b|] == b;
    NatToStringInjective(i, j);
  }

  /** The ids of the questions of one parse are pairwise distinct. */
  lemma ParsedIdsDistinct(rows: seq<Row>, clock: nat -> nat, draws: nat -> seq<nat>)
    ensures var qs := ParsedQuestions(rows, |rows|, clock, draws);
            forall a, b :: 0 <= a < b < |qs| ==> qs[a].id != qs[b].id
  {
    var qs := ParsedQuestions(rows, |rows|, clock, draws);
    var ix := QualifyingIndices(rows, |rows|);
    ParsedQuestionsAt(rows, |rows|, clock, draws);
    QualifyingIndicesIncreasing(rows, |rows|);
    forall a, b | 0 <= a < b < |qs| ensures qs[a].id != qs[b].id {
      assert qs[a].id == QuestionId(ix[a], clock(ix[a]));
      assert qs[b].id == QuestionId(ix[b], clock(ix[b]));
      if qs[a].id == qs[b].id {
        QuestionIdInjective(ix[a], ix[b], clock(ix[a]), clock(ix[b]));
      }
    }
  }

  /** For a row of text cells the truthiness pre-check adds nothing: the row
      qualifies iff its first five cells are non-blank after trimming. */
  lemma TextRowQualifies(cells: seq<Cell>)
    requires forall j :: 0 <= j < |cells| ==> cells[j].Text?
    ensures Qualifies(Some(cells)) <==>
              |cells| >= MinCells && forall j :: 0 <= j < MinCells ==> CellText(cells[j]) != ""
  {
    if |cells| >= MinCells {
      CellTextFilled(cells[0]);
      CellTextFilled(cells[1]);
      CellTextFilled(cells[2]);
      CellTextFilled(cells[3]);
      CellTextFilled(cells[4]);
    }
  }

  /** Cells after the fifth change neither the decision nor the question. */
  lemma ExtraCellsIgnored(cells: seq<Cell>, extra: seq<Cell>, i: nat, stamp: nat, draws: seq<nat>)
    requires |cells| == MinCells
    ensures Qualifies(Some(cells + extra)) == Qualifies(Some(cells))
    ensures QuestionFromRow(cells + extra, i, stamp, draws) == QuestionFromRow(cells, i, stamp, draws)
  {
  }

  /** A numeric 0 in the question cell skips the row, although its text "0" is not blank. */
  lemma ZeroQuestionCellSkipped(cells: seq<Cell>)
    requires |cells| >= MinCells && cells[0] == Number(0)
    ensures CellText(cells[0]) == "0"
    ensures !Qualifies(Some(cells))
  {
    assert NatToString(0) == "0";
    assert TrimStart("0") == "0";
  }

  /** The MIME types accepted for .xlsx, .xls and .csv files. */
  const ValidTypes: seq<string> := [
    "application/vnd.openxmlformats-officedocument.spreadsheetml.sheet",
    "application/vnd.ms-excel",
    "text/csv"
  ]

  /** The position of the last '.' in s, or -1. */
  function LastDot(s: string): (k: int)
    ensures -1 <= k < |s|
    ensures k >= 0 ==> s[k] == '.'
    ensures forall j :: k < j < |s| ==> s[j] != '.'
  {
    if s == [] then -1
    else if s[|s| - 1] == '.' then |s| - 1
    else LastDot(s[..|s| - 1])
  }

  /** The text after the last '.' of a file name, if it has one. */
  function Extension(name: string): Option<string> {
    var k := LastDot(name);
    if k < 0 then None else Some(name[k + 1..])
  }

  /** For a suffix made of one '.' and a dot-free extension, `name.endsWith(suffix)`
      says exactly that the name's extension is the text after that '.'. */
  lemma SuffixIffExtension(name: string, suffix: string)
    requires |suffix| >= 1 && suffix[0] == '.' && '.' !in suffix[1..]
    ensures EndsWith(name, suffix) <==> Extension(name) == Some(suffix[1..])
  {
    var k := LastDot(name);
    var ext := suffix[1..];
    if EndsWith(name, suffix) {
      var p := |name| - |suffix|;
      assert name[p] == suffix[0];
      forall j | p < j < |name| ensures name[j] != '.' {
        assert name[j] == ext[j - p - 1];
      }
      assert k == p;
      assert name[k + 1..] == name[p..][1..] == ext;
    }
    if Extension(name) == Some(ext) {
      assert name[|name| - |suffix|..] == [name[k]] + name[k + 1..];
    }
  }

  /** `validateFileType`: the declared type is one of the three, or the name ends
      in .xlsx, .xls or .csv; equivalently, its extension is one of those three. */
  function ValidateFileType(mimeType: string, name: string): (ok: bool)
    ensures ok <==> mimeType in ValidTypes || Extension(name) in {Some("xlsx"), Some("xls"), Some("csv")}
  {
    SuffixIffExtension(name, ".xlsx");
    SuffixIffExtension(name, ".xls");
    SuffixIffExtension(name, ".csv");
    mimeType in ValidTypes
    || EndsWith(name, ".xlsx")
    || EndsWith(name, ".xls")
    || EndsWith(name, ".csv")
  }
}
