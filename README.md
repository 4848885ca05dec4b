# ServiceNow quiz buddy — a verified Dafny model

This project models the logic of a browser quiz app for studying for ServiceNow
certifications. The app loads multiple-choice questions from a spreadsheet,
then runs a practice or timed exam session over them. At the end it scores the
session, keeps a bounded history of results in browser storage, and can export
the wrongly answered questions as CSV.

The model is split by source file:

- `excel_parser.dfy` (`src/utils/excelParser.ts`):
  - The row loop of `parseExcelFile` is the method `ParseSheet`, a `while` loop
    proved against the recursive specification `ParsedQuestions`.
  - The loop skips the header row and rows that are missing or shorter than five
    cells. It also skips rows whose first cell is falsy in JavaScript's sense
    (empty text, numeric 0, `false`) and rows with a blank trimmed text.
  - Every other row becomes one question: cell 1 is the correct answer and
    cells 2–4 are the incorrect ones.
  - An empty result is the "no valid questions" error.
  - `validateFileType` is `ValidateFileType`.
- `quiz_page.dfy` (`src/pages/Index.tsx`): the page component is the class
  `QuizApp`.
  - Its fields are the React state hooks, and its handlers are methods that
    update them.
  - Its `Valid()` invariant says:
    - a session's current index is always in range;
    - the quiz screen always has a session;
    - the results screen always has statistics;
    - the exam timer is never negative.
- `quiz_scoring.dfy`: the scoring loop of `handleQuizComplete` is the method
  `ScoreAnswers`, proved against `CorrectCount` and `Misses`. The statistics
  record is `ComputeStats`.
- `quiz_storage.dfy` (`src/utils/quizStorage.ts`):
  - Browser storage is the class `Store`, an abstract map from keys to stored
    records.
  - Reads, writes and removals fail independently:
    - a store that is not `readable` throws on every `getItem`;
    - one that is not `writable` throws on every `setItem`;
    - one that is not `removable` throws on every `removeItem`.

    A full quota is `readable` and `removable` but not `writable`: completing a
    quiz then still clears the saved progress (`FullQuotaCompletion`). The
    functions swallow those errors.
  - `addQuizStats` keeps the last 50 results.
- `quiz_question_view.dfy` (`src/components/QuizQuestion.tsx`): option
  toggling and the option colouring.
- `quiz_stats_view.dfy` (`src/components/QuizStats.tsx`): the score colour and
  the CSV export. A CSV reader is written next to it, and the export is proved
  to read back as the header and one three-field record per listed question.
- `time_format.dfy`: `formatTime` (`m:ss`), which both components define
  identically. It is proved to round-trip through a reader.
- Support modules:
  - `quiz_types.dfy`: the records of `src/types/quiz.ts`.
  - `text_util.dfy`: JavaScript `trim`, `endsWith` and decimal number text.
  - `random_order.dfy`: a permutation driven by explicit random draws.
  - `wrappers.dfy`: `Option` and `Result`.

Randomness, wall-clock time and decoded spreadsheet rows are parameters:

- `draws` holds the random choices of a shuffle;
- `now` and `clock` hold `Date.now()` readings;
- `rows` holds what the spreadsheet decoder returned.

Behaviour of the source that the proofs make visible:

- The score is `Math.round((correctCount / length) * 100)`. It equals 100 exactly when
  `200 * correct >= 199 * total`.
  - Below 200 questions, that means every answer is correct.
  - With 200 questions, 199 correct answers also show 100
    (`OneMissInTwoHundredShowsPerfect`).
- The exam timer is set only by `startQuiz`. A session resumed on mount has
  no `timeRemaining`, so the tick turns it into `undefined` and that exam never
  times out. `Tick`'s contract states this case.
- A numeric 0 in the question cell skips the row, because `!row[0]` is true,
  even though its text `"0"` is not blank (`ZeroQuestionCellSkipped`).
- `handleQuizComplete` never sets the session's `isCompleted` or `endTime`.
  The results screen is reached through `appState` alone.
- `src/components/QuizQuestion.tsx` and `src/components/QuizStats.tsx` read
  array fields that the records in `src/types/quiz.ts` do not have:
  - `question.correctAnswers`;
  - `correctAnswers` and `userAnswers` on each listed question.

  `Index.tsx` and `excelParser.ts` produce single strings (`correctAnswer`,
  `userAnswer`). Each component is therefore modelled over the shape it reads
  itself.

## Model

| member | source | states |
|---|---|---|
| ExcelParser.ParseSheet | src/utils/excelParser.ts:18-52 | the row loop resolves or rejects exactly as the specification `ParseRows` says, for every row list |
| ExcelParser.ParseRows | src/utils/excelParser.ts:18-52 | the specification of the row loop: the questions of the qualifying rows, or the "no valid questions" error when there are none; `ParseRowsOutcome` states it |
| ExcelParser.ParsedQuestions | src/utils/excelParser.ts:21-45 | the questions pushed by the first n iterations; `ParsedQuestionsAt` and `ParsedQuestionsShape` state what each one is |
| ExcelParser.ParseRow | src/utils/excelParser.ts:22-44 | one pass of the loop body yields a question exactly when the row qualifies, and that question is the one built from the row |
| ExcelParser.QualifiesByText | src/utils/excelParser.ts:25-33 | for a row of five or more cells, the `!row[0]` check and the five trimmed-text checks together decide whether the row qualifies |
| ExcelParser.Qualifies | src/utils/excelParser.ts:25-33 | both skip checks of the loop; `QualifiesByText`, `TextRowQualifies` and `ZeroQuestionCellSkipped` state when they pass |
| ExcelParser.Truthy | src/utils/excelParser.ts:25 | JavaScript truthiness of a cell for `!row[0]`: false for a blank, an empty text, 0 and `false` |
| ExcelParser.CellText | src/utils/excelParser.ts:27-31 | `row[k]?.toString().trim()`; `CellTextFilled` states when it passes the `&&` check |
| ExcelParser.CellString | src/utils/excelParser.ts:27-31 | `cell?.toString()`: a blank is the empty text, a number its decimal text, a boolean `true` or `false`; `CellTextFilled` and `ZeroQuestionCellSkipped` use it |
| ExcelParser.ParseExcelFile | src/utils/excelParser.ts:8-60 | a read error rejects with the read failure, a workbook that cannot be decoded with the processing error, decoded rows with the row loop's outcome |
| ExcelParser.CellTextFilled | src/utils/excelParser.ts:27-33 | a cell passes the `&&` check exactly when its trimmed text is non-empty |
| ExcelParser.QuestionFromRow | src/utils/excelParser.ts:34-43 | the options are four and are a permutation of the correct answer followed by the three incorrect ones |
| ExcelParser.QualifyingIndexMember | src/utils/excelParser.ts:21-33 | row k yields a question exactly when it is a data row (k ≥ 1) and passes both skip checks |
| ExcelParser.QualifyingIndicesIncreasing | src/utils/excelParser.ts:21 | questions come from data rows in strictly increasing row order |
| ExcelParser.HeaderNeverParsed | src/utils/excelParser.ts:20-21 | row 0 never yields a question |
| ExcelParser.ParsedQuestionsAt | src/utils/excelParser.ts:21-45 | there is one question per qualifying row, and the k-th is built from the k-th qualifying row alone |
| ExcelParser.ParsedQuestionsShape | src/utils/excelParser.ts:27-43 | each question's text, correct answer and three incorrect answers are the trimmed cells 0–4 of its row, none is empty, and the options permute them |
| ExcelParser.ParseRowsOutcome | src/utils/excelParser.ts:47-52 | the result is the "no valid questions" error exactly when no data row qualifies; otherwise it is the list of one question per qualifying row |
| ExcelParser.QuestionIdInjective | src/utils/excelParser.ts:38 | ids `q_i_stamp` of different rows differ whatever the timestamps |
| ExcelParser.QuestionId | src/utils/excelParser.ts:38 | the id `q_<row index>_<clock reading>`; `QuestionIdInjective` states that different rows get different ids |
| ExcelParser.ParsedIdsDistinct | src/utils/excelParser.ts:36-42 | the questions of one parse have pairwise distinct ids |
| ExcelParser.TextRowQualifies | src/utils/excelParser.ts:25-33 | for a row of text cells, a row qualifies exactly when it has five cells whose trimmed texts are non-empty |
| ExcelParser.ExtraCellsIgnored | src/utils/excelParser.ts:25-34 | cells after the fifth change neither the skip decision nor the question |
| ExcelParser.ZeroQuestionCellSkipped | src/utils/excelParser.ts:25 | a numeric 0 question cell skips the row although its text is "0" |
| ExcelParser.SuffixIffExtension | src/utils/excelParser.ts:74-76 | `name.endsWith('.ext')` holds exactly when the text after the name's last dot is `ext` |
| TextUtil.EndsWith | src/utils/excelParser.ts:74-76 | `String.prototype.endsWith`: the name's last characters are the suffix; `SuffixIffExtension` relates it to the extension |
| ExcelParser.ValidateFileType | src/utils/excelParser.ts:66-77 | the file is accepted exactly when its MIME type is one of the three listed, or its extension is xlsx, xls or csv |
| TextUtil.TrimSpec | src/utils/excelParser.ts:27-31 | `trim` returns a contiguous slice of the input. Everything cut off before and after it is whitespace, and the slice has no whitespace at either end. It is empty exactly when the input is all whitespace |
| TextUtil.Trim | src/utils/excelParser.ts:27-31 | `trim`: leading, then trailing whitespace removed; `TrimSpec` and `TrimIdempotent` state its meaning |
| TextUtil.TrimIdempotent | src/utils/excelParser.ts:27-31 | trimming a trimmed text changes nothing |
| TextUtil.ParseNatToString | src/utils/excelParser.ts:38 | the decimal text of a number reads back as that number |
| TextUtil.NatToStringInjective | src/utils/excelParser.ts:38 | different numbers have different decimal texts |
| TextUtil.IntToString | src/utils/excelParser.ts:27 | `toString()` of an integer cell: a minus sign for negatives, then the decimal digits; the text is never empty |
| RandomOrder.Shuffle | src/pages/Index.tsx:57 | the shuffled list has the same length and the same multiset of elements |
| QuizScoring.ScoreAnswers | src/pages/Index.tsx:142-156 | the `forEach` loop ends with the count of correct answers and the list of wrong answers, as `CorrectCount` and `Misses` define them |
| QuizScoring.ScoreQuiz | src/pages/Index.tsx:138-165 | the statistics built from the answers and the clock readings are exactly `ComputeStats` of them |
| QuizScoring.IsCorrect | src/pages/Index.tsx:146-147 | the stored answer `===` the correct answer; `CorrectCountIsCardinality` counts these |
| QuizScoring.IsListedMiss | src/pages/Index.tsx:149-155 | a wrong, non-empty stored answer, which is pushed to the list; `MissesOfOne` states it |
| QuizScoring.MissOf | src/pages/Index.tsx:150-154 | the pushed record: the question text, its correct answer and the user's answer; `MissesOfOne` states when it is pushed |
| QuizScoring.UnansweredCount | src/pages/Index.tsx:149 | the questions with no stored answer or an empty one, which are counted as incorrect but not listed; `OutcomesPartition` and `IncorrectCountSplits` relate it to the other counts |
| QuizScoring.CorrectCount | src/pages/Index.tsx:145-148 | the correct count never exceeds the number of questions |
| QuizScoring.Misses | src/pages/Index.tsx:149-155 | the listed misses are never more than the questions not answered correctly |
| QuizScoring.CorrectCountIsCardinality | src/pages/Index.tsx:145-148 | the correct count is the number of questions whose stored answer equals their correct answer |
| QuizScoring.AllCorrectIff | src/pages/Index.tsx:145-148 | the correct count equals the total exactly when every question is answered correctly |
| QuizScoring.OutcomesPartition | src/pages/Index.tsx:145-161 | correct + listed wrong + unanswered = total: each question is exactly one of the three |
| QuizScoring.MissesAppend | src/pages/Index.tsx:145-155 | the wrong answers are listed in question order |
| QuizScoring.MissesOfOne | src/pages/Index.tsx:149-155 | a question is listed, with its text, correct answer and the user's answer, exactly when it was answered with a non-empty wrong answer |
| QuizScoring.IncorrectCountSplits | src/pages/Index.tsx:159-161 | the incorrect count is the listed misses plus the unanswered questions |
| QuizScoring.RoundedPercent | src/pages/Index.tsx:164 | the score lies in 0..100 and is the integer nearest to 100·correct/total, with halves rounded up |
| QuizScoring.PerfectScoreIff | src/pages/Index.tsx:164 | the score is 100 exactly when 200·correct ≥ 199·total |
| QuizScoring.PerfectScoreIffAllCorrect | src/pages/Index.tsx:164 | below 200 questions the score is 100 exactly when all answers are correct |
| QuizScoring.OneMissInTwoHundredShowsPerfect | src/pages/Index.tsx:164 | 199 of 200 correct scores 100 |
| QuizScoring.ZeroScoreIff | src/pages/Index.tsx:164 | the score is 0 exactly when 200·correct < total |
| QuizScoring.TimeSpent | src/pages/Index.tsx:139-140 | the time spent is the whole number of seconds elapsed, rounded down |
| QuizScoring.ComputeStats | src/pages/Index.tsx:158-165 | total is the question count, correct + incorrect = total, the listed misses are at most the incorrect count, and the score lies in 0..100 |
| QuizPage.QuizApp.constructor | src/pages/Index.tsx:15-22 | the page starts on the home screen with no questions, session, answer, result, statistics or timer |
| QuizPage.QuizApp.ResumeOnMount | src/pages/Index.tsx:25-32 | a saved, unfinished session is restored with its questions on the quiz screen; otherwise nothing changes |
| QuizPage.QuizApp.HandleQuestionsLoaded | src/pages/Index.tsx:51-54 | the loaded questions are kept and the mode selection is shown |
| QuizPage.QuizApp.StartQuiz | src/pages/Index.tsx:56-83 | a new session has index 0, no answers, is not completed, has the chosen mode and start time, and a permutation of the questions. Exam mode sets 120 s per question and practice mode leaves the timer alone. The session is saved as progress |
| QuizPage.FreshSession | src/pages/Index.tsx:58-65 | the session `startQuiz` builds, with index 0, no answers, not completed, and the given questions, mode and start time; `StartQuiz` and `HandleRestart` state that its questions permute the loaded ones |
| QuizPage.ProgressAt | src/pages/Index.tsx:78-82 | the saved progress record `session_<now>`; `LoadAfterSave` reads it back |
| QuizPage.Present | src/pages/Index.tsx:102-103 | JavaScript truthiness of the answer to save: `null`, `undefined` and the empty text are falsy; `HandleNextQuestion` changes nothing without one |
| QuizPage.QuizApp.TimerRunning | src/pages/Index.tsx:36 | the effect's guard: an unfinished exam on the quiz screen; `Tick` changes nothing when it fails |
| QuizPage.QuizApp.HandleAnswerSelect | src/pages/Index.tsx:85-97 | with a session, the answer becomes pending, and practice mode shows the result |
| QuizPage.QuizApp.HandleNextQuestion | src/pages/Index.tsx:99-133 | without a session or a non-empty answer nothing changes. Otherwise the answer is stored under the current question's id. On the last question the quiz is completed with those answers. Before that, the index advances by one with everything else of the session kept, the pending answer and result are cleared, and progress is saved |
| QuizPage.QuizApp.HandleQuizComplete | src/pages/Index.tsx:135-173 | the statistics of the given (or stored) answers are shown on the results screen, appended to the history, and the saved progress is cleared |
| QuizPage.QuizApp.RecordCompletion | src/pages/Index.tsx:171-172 | `addQuizStats` followed by `clearQuizProgress` leaves the store as `CompletedEntries` says |
| QuizPage.QuizApp.Tick | src/pages/Index.tsx:35-49 | with an unfinished exam on screen, the timer goes from 1 to completion and 0, from above 1 down by one, and from 0 or unset to unset; otherwise nothing changes |
| QuizPage.QuizApp.HandleRestart | src/pages/Index.tsx:175-179 | with a session, a fresh session in the same mode starts over a permutation of the loaded questions. An exam restart resets the timer to 120 s per question, and a practice restart leaves it alone. Without a session nothing changes |
| QuizPage.QuizApp.HandleNewQuiz | src/pages/Index.tsx:181-190 | the page returns home with no questions, session, statistics, answer, result or timer, and the saved progress is removed unless the removal throws |
| QuizStorage.Store.SaveQuizProgress | src/utils/quizStorage.ts:6-12 | the progress record is overwritten, or nothing changes when the write throws |
| QuizStorage.Store.LoadQuizProgress | src/utils/quizStorage.ts:14-22 | the result is the stored progress, or null when nothing readable is stored or the read throws |
| QuizStorage.Store.ClearQuizProgress | src/utils/quizStorage.ts:24-30 | the progress record is removed, or nothing changes when the removal throws |
| QuizStorage.Store.SaveQuizStats | src/utils/quizStorage.ts:32-38 | the history is overwritten, or nothing changes when the write throws |
| QuizStorage.Store.LoadQuizStats | src/utils/quizStorage.ts:40-48 | the result is the stored history, or [] when nothing readable is stored or the read throws |
| QuizStorage.Store.AddQuizStats | src/utils/quizStorage.ts:50-60 | the store becomes `AddedStats` of the old one: the history as read with the stamped statistics appended, cut to its last 50 entries, written if the write succeeds |
| QuizStorage.ReadProgress | src/utils/quizStorage.ts:14-22 | progress is found exactly when the read succeeds and a progress record is stored under the progress key |
| QuizStorage.CapHistory | src/utils/quizStorage.ts:54-57 | the result is the last min(n, 50) entries of the list |
| QuizStorage.ReadHistory | src/utils/quizStorage.ts:40-48 | `loadQuizStats` on the stored map: the stored history, or [] when nothing readable is stored or the read throws |
| QuizStorage.AddedStats | src/utils/quizStorage.ts:50-60 | the stored map after `addQuizStats`; the lemmas below state its cap, eviction order and failure cases |
| QuizStorage.SavedEntries | src/utils/quizStorage.ts:6-12 | after a successful write the progress loads back as the saved record, and after a failed one the map is unchanged |
| QuizStorage.LoadAfterSave | src/utils/quizStorage.ts:6-22 | loading after a save returns the saved progress |
| QuizStorage.LoadAfterClear | src/utils/quizStorage.ts:14-30 | loading after a clear, or from empty storage, returns null |
| QuizStorage.SaveKeepsHistory | src/utils/quizStorage.ts:6-12 | saving progress leaves the history unchanged |
| QuizStorage.ClearKeepsHistory | src/utils/quizStorage.ts:24-30 | clearing progress leaves the history unchanged |
| QuizStorage.AddedStatsKeepsProgress | src/utils/quizStorage.ts:50-60 | recording statistics leaves the saved progress unchanged |
| QuizStorage.KeysDistinct | src/utils/quizStorage.ts:3-4 | the progress key and the history key differ |
| QuizStorage.UnreadableStoreReadsEmpty | src/utils/quizStorage.ts:14-22 | when reads throw, progress loads as null and the history as [] |
| QuizStorage.UnwritableStoreKeepsEntries | src/utils/quizStorage.ts:32-38 | when writes throw, saving progress and adding statistics leave the store as it was, and so does completing a quiz when removals throw too |
| QuizStorage.FullQuotaCompletion | src/pages/Index.tsx:171-172 | with a full quota (writes throw, reads and removals work), completing a quiz leaves the history as it was but removes the saved progress |
| QuizStorage.UnreadableAddReplacesHistory | src/utils/quizStorage.ts:50-60 | when reads throw but writes succeed, `addQuizStats` overwrites the stored history with the new entry alone |
| QuizStorage.AddedStatsBoundedAndNewestLast | src/utils/quizStorage.ts:52-57 | after adding, the history has 1 to 50 entries and ends with the new stamped entry |
| QuizStorage.AddedStatsKeepsShortHistory | src/utils/quizStorage.ts:52-57 | a history of fewer than 50 entries is kept whole, followed by the new entry |
| QuizStorage.AddedStatsEvictsOldest | src/utils/quizStorage.ts:55-57 | on overflow the oldest entries are dropped from the front and the newest 49 are kept before the new one |
| QuizStorage.TwoAddsToFullHistory | src/utils/quizStorage.ts:50-60 | two additions to a full history drop its two oldest entries and keep the two new ones, in order, at the end |
| QuizStorage.CompletedEntries | src/pages/Index.tsx:171-172 | the stored map after `addQuizStats` then `clearQuizProgress`; the three lemmas below state what it holds |
| QuizStorage.CompletionClearsProgress | src/pages/Index.tsx:171-172 | when removals work, no progress can be loaded after completion, whether or not the statistics could be written |
| QuizStorage.CompletedHistory | src/pages/Index.tsx:171-172 | after completion the history is the capped old history followed by the new statistics |
| QuizStorage.CompletionRecordsStats | src/pages/Index.tsx:171-172 | after completion the history has 1 to 50 entries and ends with the new statistics |
| QuizQuestionView.HandleOptionClick | src/components/QuizQuestion.tsx:55-63 | nothing is reported exactly while results are shown. Otherwise the clicked option is in the new selection exactly when it was not in the old one, and every other option keeps its count |
| QuizQuestionView.RemoveAll | src/components/QuizQuestion.tsx:59 | `filter(ans => ans !== option)`; the three lemmas below state its counts, order and absent case |
| QuizQuestionView.OptionClickEffect | src/components/QuizQuestion.tsx:58-60 | an unselected option is appended at the end; a selected one has every occurrence removed |
| QuizQuestionView.RemoveAllCounts | src/components/QuizQuestion.tsx:59 | `filter` removes every occurrence of the option and keeps the count of every other value |
| QuizQuestionView.RemoveAllAppend | src/components/QuizQuestion.tsx:59 | `filter` keeps the order of the remaining options |
| QuizQuestionView.RemoveAllAbsent | src/components/QuizQuestion.tsx:59 | filtering out an absent option changes nothing |
| QuizQuestionView.ToggleTwice | src/components/QuizQuestion.tsx:58-60 | clicking an unselected option twice restores the original selection |
| QuizQuestionView.GetOptionVariant | src/components/QuizQuestion.tsx:39-53 | before results, an option is `default` exactly when selected and `quiz` otherwise. After results it is `quiz-correct` exactly when correct, `quiz-incorrect` exactly when selected but not correct, and `quiz` otherwise |
| QuizQuestionView.ResultVariantsPartition | src/components/QuizQuestion.tsx:44-52 | after results, the options marked correct are exactly the correct ones, and those marked incorrect are exactly the wrongly chosen ones |
| TimeFormat.FormatTimeRoundTrip | src/components/QuizQuestion.tsx:33-37 | reading `m:ss` back as minutes·60 + seconds gives the input |
| TimeFormat.FormatTime | src/components/QuizQuestion.tsx:33-37 | `mins:ss`, which src/components/QuizStats.tsx:19-23 defines identically; `FormatTimeRoundTrip`, `MinutesField`, `SecondsField` and `FormatTimeInjective` state its meaning |
| TimeFormat.PaddedSeconds | src/components/QuizQuestion.tsx:35-36 | a remainder below 60, padded, is two digits that read back as the remainder |
| TimeFormat.SecondsField | src/components/QuizQuestion.tsx:35-36 | the last two characters are the remainder mod 60, zero-padded to two digits, and read as a value below 60 |
| TimeFormat.MinutesField | src/components/QuizQuestion.tsx:34-36 | everything before `:ss` is the unpadded decimal quotient by 60 |
| TimeFormat.PadStart2 | src/components/QuizQuestion.tsx:36 | `padStart(2, '0')` keeps the text as a suffix and makes it at least two characters long |
| TimeFormat.FormatTimeInjective | src/components/QuizStats.tsx:19-23 | different durations are formatted differently |
| QuizStatsView.ScoreColor | src/components/QuizStats.tsx:25-29 | the colour is success exactly for ≥ 80, orange exactly for 60–79, and destructive exactly below 60 |
| QuizStatsView.CsvContent | src/components/QuizStats.tsx:32-39 | the export text, the header then one line per listed question, joined by newlines; `CsvRoundTrip` states it reads back as those records |
| QuizStatsView.Join | src/components/QuizStats.tsx:33-37 | `Array.prototype.join`: the parts with the separator between neighbours; `JoinCons` and `ReadFieldsQuoted` use it |
| QuizStatsView.EscapeQuotes | src/components/QuizStats.tsx:36 | `replace(/"/g, '""')`; `EscapeQuotesCounts` states it |
| QuizStatsView.QuoteField | src/components/QuizStats.tsx:36 | a field escaped and wrapped in quotes; `ReadQuotedBodyEscaped` reads it back |
| QuizStatsView.ExportedFields | src/components/QuizStats.tsx:35 | the three values of one line: the question, and the correct and the user's answers each joined by "; "; `ExportedRecordAt` states it |
| QuizStatsView.ReportLine | src/components/QuizStats.tsx:34-37 | one data line: the quoted fields joined by commas; `ReadFieldsQuoted` reads it back |
| QuizStatsView.EscapeQuotesCounts | src/components/QuizStats.tsx:36 | every `"` of a field is doubled and every other character is kept |
| QuizStatsView.ReadQuotedBodyEscaped | src/components/QuizStats.tsx:35-37 | unquoting a quoted field gives the original field back |
| QuizStatsView.ReadFieldsQuoted | src/components/QuizStats.tsx:35-37 | a line of quoted fields joined by commas reads back as those fields |
| QuizStatsView.JoinCons | src/components/QuizStats.tsx:32-39 | joining lines after the header puts a newline before each data line |
| QuizStatsView.ReadRecordsExported | src/components/QuizStats.tsx:34-39 | the data lines read back as one record per listed question, in order |
| QuizStatsView.CsvRoundTrip | src/components/QuizStats.tsx:32-39 | the export starts with the header and reads back as one three-field record per listed question, in order |
| QuizStatsView.ExportedRecordAt | src/components/QuizStats.tsx:35 | record i is the question, the correct answers joined by "; " and the user's answers joined by "; " |

## Left out

- Spreadsheet decoding and `FileReader`:
  - `parseExcelFile` takes the decoded rows, or the kind of failure, as input.
  - Which sheet is read and how cells are typed belong to the decoding library, which is not part of this model.
- ExcelParser cells: numbers are integers. Fractional numbers, dates and rich-text cells are not modelled. Numbers are rendered as plain digits, whereas JavaScript writes 1e21 and above in exponent form (`1e+21`). This changes the question or answer text of such a cell, but not whether its row qualifies.
- RandomOrder.Shuffle: promises only a permutation. The random comparator's distribution is not modelled, and `sort` with a random comparator is not a uniform shuffle.
- Browser storage:
  - JSON serialisation is not modelled. A record stored under a key is read back as itself.
  - `Unreadable` stands for text that `JSON.parse` rejects.
  - Stored values other than this app's own records (for example `null`, or
    a value that is not a list under the history key) are not modelled. On
    such a history value the source's `addQuizStats` throws outside its
    `try`, so the completion step never clears the progress.
  - Whether reads, writes and removals fail is fixed for a store's lifetime.
    A failure that comes and goes from one call to the next is not modelled.
- Logging: the `console.error` calls in the storage functions' `catch` blocks
  (src/utils/quizStorage.ts) are dropped. The parser's failure paths only
  reject with an error, which `ParseExcelFile` models.
- QuizStorage.Store.SaveQuizProgress: requires a session whose index is in range. The page only saves such sessions. Arbitrary stored text is not modelled as a progress record.
- QuizPage.QuizApp.HandleQuestionsLoaded: requires a non-empty list. Its only caller passes the result of a successful parse, and a successful parse is never empty.
- QuizPage.QuizApp.StartQuiz: requires loaded questions. The mode selection that calls it is reached only after a successful parse or a resumed session.
- Timers:
  - `setInterval` and `setTimeout` scheduling, and React's effect and closure timing, are left out.
  - One interval callback is one `Tick` call.
  - The practice-mode auto-advance is a later `HandleNextQuestion` call by the caller.
- `Date.now()`: each handler takes one `now`. The source reads the clock separately for the session id, the `lastUpdated` stamp, the end time and the history stamp. In the model these readings are equal.
- QuizScoring.RoundedPercent: computes the exact rational rounding of 100·correct/total. Floating-point division and its rounding error are not modelled. The two can differ. For 23 correct out of 40, `(23 / 40) * 100` is 57.49999999999999 in floating point, so the source shows 57 where the model gives 58.
- TimeFormat: inputs are non-negative integers. Negative or fractional seconds are not modelled.
- Rendering:
  - all JSX;
  - the navigation clicks that only set `appState` (src/pages/Index.tsx:217, 257, 278);
  - the `isLoading` flag, which only src/components/FileUpload.tsx (not part of this model) sets and displays;
  - the progress-bar percentage;
  - the `isCorrect` flag passed to the question card.
- `src/components/FileUpload.tsx` is not part of this model.
- The Blob and anchor download of the CSV text is not modelled. Only the text is.
