/**
 * The survey evaluation script: it reads the respondents' answer rows,
 * collects the line numbers each question's respondents named, tallies
 * them per line, looks up the algorithm's predicted lines and formats the
 * chart coordinates.  File, CSV and JSON handling and the chart template
 * are outside the model; rows and predictions arrive as values.
 */
module Evaluate {
  import opened Wrappers
  import opened Strings

  /** Experience answers that mark an inexperienced respondent. */
  const NoTypeScript := "I have never written or read TypeScript before"
  const NoProgramming := "I have never written a software program before"

  const ExperienceProgrammingColumn: nat := 3
  const ExperienceTypeScriptColumn: nat := 4

  /**
   * Every public attribute of the column table, as the script enumerates it:
   * the two experience columns, the ten free questions and the twenty
   * pre-filled questions with their follow-ups.
   */
  const Questions: map<string, nat> := map[
    "experienceProgramming" := 3, "experienceTypeScript" := 4,
    "q1" := 7, "q2" := 8, "q3" := 9, "q4" := 10, "q5" := 11,
    "q6" := 12, "q7" := 13, "q8" := 14, "q9" := 15, "q10" := 16,
    "marked1" := 17, "marked1a" := 18, "marked2" := 19, "marked2a" := 20,
    "marked3" := 21, "marked3a" := 22, "marked4" := 23, "marked4a" := 24,
    "marked5" := 25, "marked5a" := 26, "marked6" := 27, "marked6a" := 28,
    "marked7" := 29, "marked7a" := 30, "marked8" := 31, "marked8a" := 32,
    "marked9" := 33, "marked9a" := 34, "marked10" := 35, "marked10a" := 36]

  /** The highest column the script reads. */
  const LastColumn: nat := 36

  type Row = seq<string>

  predicate Complete(row: Row) { |row| > LastColumn }

  /** Every row reaches the last column. */
  predicate AllComplete(rows: seq<Row>)
  {
    forall k :: 0 <= k < |rows| ==> Complete(rows[k])
  }

  /** A column table whose columns all lie within a complete row. */
  predicate ColumnsInRange(questions: map<string, nat>)
  {
    forall q :: q in questions ==> questions[q] <= LastColumn
  }

  /** The table's columns lie within a complete row, and the last column is one of them. */
  lemma QuestionsInRange()
    ensures ColumnsInRange(Questions)
    ensures LastColumn in Questions.Values
  {
    assert Questions["marked10a"] == LastColumn;
  }

  // ---------------------------------------------------------------------
  // Tokenising a cell

  /** `re.sub(r"\s+", "", cell)`: the cell without any whitespace. */
  function StripWhitespace(s: string): (r: string)
    ensures |r| <= |s|
    ensures forall k :: 0 <= k < |r| ==> !IsPyWhitespace(r[k])
  {
    if |s| == 0 then ""
    else if IsPyWhitespace(s[|s| - 1]) then StripWhitespace(s[..|s| - 1])
    else StripWhitespace(s[..|s| - 1]) + [s[|s| - 1]]
  }

  /** Stripping distributes over concatenation, so no non-blank character is lost or moved. */
  lemma {:induction false} StripWhitespaceAppend(a: string, b: string)
    ensures StripWhitespace(a + b) == StripWhitespace(a) + StripWhitespace(b)
    decreases |b|
  {
    if |b| == 0 {
      assert a + b == a;
    } else {
      assert (a + b)[..|a + b| - 1] == a + b[..|b| - 1];
      StripWhitespaceAppend(a, b[..|b| - 1]);
    }
  }

  /** Text that has no whitespace is left as it is. */
  lemma {:induction false} StripWhitespaceKeeps(s: string)
    requires forall k :: 0 <= k < |s| ==> !IsPyWhitespace(s[k])
    ensures StripWhitespace(s) == s
    decreases |s|
  {
    if |s| > 0 {
      StripWhitespaceKeeps(s[..|s| - 1]);
    }
  }

  /** The tokens of one answer cell: whitespace removed, then split on commas. */
  function Tokenise(cell: string): (r: seq<string>)
    ensures |r| >= 1
    ensures forall k :: 0 <= k < |r| ==> ',' !in r[k]
  {
    Split(StripWhitespace(cell), ',')
  }

  /** No token contains whitespace. */
  lemma TokensHaveNoWhitespace(cell: string)
    ensures forall k, j :: 0 <= k < |Tokenise(cell)| && 0 <= j < |Tokenise(cell)[k]| ==>
      !IsPyWhitespace(Tokenise(cell)[k][j])
  {
    var stripped := StripWhitespace(cell);
    var r := Split(stripped, ',');
    forall k, j | 0 <= k < |r| && 0 <= j < |r[k]| ensures !IsPyWhitespace(r[k][j]) {
      SplitPiecesFrom(stripped, ',', k, j);
    }
  }

  /** Every character of a piece of a split comes from the split text. */
  lemma {:induction false} SplitPiecesFrom(s: string, sep: char, k: nat, j: nat)
    requires k < |Split(s, sep)| && j < |Split(s, sep)[k]|
    ensures Split(s, sep)[k][j] in s
    decreases |s|
  {
    var rest := Split(s[1..], sep);
    if s[0] == sep {
      assert k > 0;
      SplitPiecesFrom(s[1..], sep, k - 1, j);
    } else if k == 0 && j == 0 {
    } else if k == 0 {
      SplitPiecesFrom(s[1..], sep, 0, j - 1);
    } else {
      SplitPiecesFrom(s[1..], sep, k, j);
    }
  }

  /** An empty or blank cell is the single empty selection "". */
  lemma BlankCellIsEmptySelection(cell: string)
    requires forall k :: 0 <= k < |cell| ==> IsPyWhitespace(cell[k])
    ensures Tokenise(cell) == [""]
  {
    BlankStripsToEmpty(cell);
  }

  lemma {:induction false} BlankStripsToEmpty(cell: string)
    requires forall k :: 0 <= k < |cell| ==> IsPyWhitespace(cell[k])
    ensures StripWhitespace(cell) == ""
    decreases |cell|
  {
    if |cell| > 0 {
      BlankStripsToEmpty(cell[..|cell| - 1]);
    }
  }

  /** Joining the tokens with commas gives the cell without its whitespace. */
  lemma TokensRejoin(cell: string)
    ensures Join(Tokenise(cell), ",") == StripWhitespace(cell)
  {
    JoinSplit(StripWhitespace(cell), ',');
  }

  // ---------------------------------------------------------------------
  // Collecting the answers per question

  /** What Python raises when a row is shorter than the column read from it. */
  const IndexError := "IndexError: list index out of range"

  /**
   * A row is skipped when only experienced respondents count and either
   * experience answer is "never".  A row too short for the filter's column
   * is not skipped; reading it is an error (`Readable`).
   */
  predicate Skipped(row: Row, tsDevsOnly: bool)
  {
    tsDevsOnly && |row| > ExperienceTypeScriptColumn &&
    (row[ExperienceTypeScriptColumn] == NoTypeScript || row[ExperienceProgrammingColumn] == NoProgramming)
  }

  /**
   * The script reads the row without an index error: the experience filter
   * finds its column, and a row that is not skipped reaches the last column.
   */
  predicate Readable(row: Row, tsDevsOnly: bool)
  {
    (tsDevsOnly ==> |row| > ExperienceTypeScriptColumn) && (!Skipped(row, tsDevsOnly) ==> Complete(row))
  }

  predicate AllReadable(rows: seq<Row>, tsDevsOnly: bool)
  {
    forall k :: 0 <= k < |rows| ==> Readable(rows[k], tsDevsOnly)
  }

  /** The rows the script accepts, in order; without the filter, all of them. */
  function Accepted(rows: seq<Row>, tsDevsOnly: bool): (r: seq<Row>)
    ensures |r| <= |rows|
    ensures AllReadable(rows, tsDevsOnly) ==> AllComplete(r)
    ensures forall k :: 0 <= k < |r| ==> !Skipped(r[k], tsDevsOnly)
    ensures !tsDevsOnly ==> r == rows
  {
    if |rows| == 0 then []
    else
      var front := Accepted(rows[..|rows| - 1], tsDevsOnly);
      var last := rows[|rows| - 1];
      assert AllReadable(rows, tsDevsOnly) ==> AllReadable(rows[..|rows| - 1], tsDevsOnly) by {
        if AllReadable(rows, tsDevsOnly) { AllReadablePrefix(rows, |rows| - 1, tsDevsOnly); }
      }
      if Skipped(last, tsDevsOnly) then front else front + [last]
  }

  /** The accepted rows are rows of the input. */
  lemma {:induction false} AcceptedFromInput(rows: seq<Row>, tsDevsOnly: bool)
    ensures forall row :: row in Accepted(rows, tsDevsOnly) ==> row in rows
    decreases |rows|
  {
    if |rows| > 0 {
      var front := rows[..|rows| - 1];
      AcceptedFromInput(front, tsDevsOnly);
      assert forall row :: row in front ==> row in rows;
    }
  }

  /** A single row is accepted exactly when it is not skipped. */
  lemma AcceptedSingle(row: Row, tsDevsOnly: bool)
    ensures Accepted([row], tsDevsOnly) == if Skipped(row, tsDevsOnly) then [] else [row]
  {
    assert [row][..0] == [];
  }

  /**
   * Accepting distributes over concatenation; with `AcceptedSingle` this
   * makes the accepted rows exactly the rows that are not skipped, in
   * their order.
   */
  lemma {:induction false} AcceptedAppend(a: seq<Row>, b: seq<Row>, tsDevsOnly: bool)
    ensures Accepted(a + b, tsDevsOnly) == Accepted(a, tsDevsOnly) + Accepted(b, tsDevsOnly)
    decreases |b|
  {
    if |b| == 0 {
      assert a + b == a;
    } else {
      var ab := a + b;
      var front := b[..|b| - 1];
      AcceptedAppend(a, front, tsDevsOnly);
      assert ab[..|ab| - 1] == a + front;
      assert ab[|ab| - 1] == b[|b| - 1];
    }
  }

  /** The prefix of readable rows is readable. */
  lemma AllReadablePrefix(rows: seq<Row>, n: nat, tsDevsOnly: bool)
    requires n <= |rows| && AllReadable(rows, tsDevsOnly)
    ensures AllReadable(rows[..n], tsDevsOnly)
  {
    var front := rows[..n];
    forall k | 0 <= k < n ensures Readable(front[k], tsDevsOnly) {
      assert front[k] == rows[k];
    }
  }

  /** Every row that is not skipped is accepted. */
  lemma {:induction false} AcceptedKeeps(rows: seq<Row>, tsDevsOnly: bool, k: nat)
    requires k < |rows| && !Skipped(rows[k], tsDevsOnly)
    ensures rows[k] in Accepted(rows, tsDevsOnly)
    decreases |rows|
  {
    if k < |rows| - 1 {
      var front := rows[..|rows| - 1];
      assert front[k] == rows[k];
      AcceptedKeeps(front, tsDevsOnly, k);
    }
  }

  /** All tokens of one column over the given rows, row after row. */
  function ColumnTokens(rows: seq<Row>, column: nat): seq<string>
    requires column <= LastColumn
    requires AllComplete(rows)
  {
    if |rows| == 0 then []
    else
      var last := rows[|rows| - 1];
      assert Complete(last);
      ColumnTokens(rows[..|rows| - 1], column) + Tokenise(last[column])
  }

  /** What the answer lists hold after reading the given rows. */
  function AnswerLists(questions: map<string, nat>, rows: seq<Row>, tsDevsOnly: bool): map<string, seq<string>>
    requires ColumnsInRange(questions)
    requires AllReadable(rows, tsDevsOnly)
  {
    ListsOf(questions, Accepted(rows, tsDevsOnly))
  }

  /** No lists before the first accepted row; afterwards one list per question. */
  function ListsOf(questions: map<string, nat>, accepted: seq<Row>): map<string, seq<string>>
    requires ColumnsInRange(questions)
    requires AllComplete(accepted)
  {
    if accepted == [] then map[]
    else map q | q in questions :: ColumnTokens(accepted, questions[q])
  }

  /** The outcome of the row loop: the answer lists, or the index error a short row raises. */
  function ReadAnswers(questions: map<string, nat>, rows: seq<Row>, tsDevsOnly: bool)
    : Result<map<string, seq<string>>, string>
    requires ColumnsInRange(questions)
  {
    if AllReadable(rows, tsDevsOnly) then Success(AnswerLists(questions, rows, tsDevsOnly))
    else Failure(IndexError)
  }

  /** A blank line of the file, which the reader gives as an empty row, stops the script with an index error. */
  lemma BlankRowFails(questions: map<string, nat>, before: seq<Row>, after: seq<Row>, tsDevsOnly: bool)
    requires ColumnsInRange(questions)
    ensures ReadAnswers(questions, before + [[]] + after, tsDevsOnly) == Failure(IndexError)
  {
    var rows := before + [[]] + after;
    assert rows[|before|] == [];
    assert !Readable(rows[|before|], tsDevsOnly);
  }

  /**
   * The row loop: every accepted row extends each question's list with the
   * tokens of that question's cell; a row too short for a column it reads
   * ends the loop with the index error.
   */
  method CollectAnswers(questions: map<string, nat>, rows: seq<Row>, tsDevsOnly: bool)
    returns (result: Result<map<string, seq<string>>, string>)
    requires ColumnsInRange(questions) && LastColumn in questions.Values
    ensures result == ReadAnswers(questions, rows, tsDevsOnly)
  {
    var answers := map[];
    var i := 0;
    while i < |rows|
      invariant 0 <= i <= |rows|
      invariant AllReadable(rows[..i], tsDevsOnly)
      invariant answers == AnswerLists(questions, rows[..i], tsDevsOnly)
    {
      var row := rows[i];
      if tsDevsOnly && |row| <= ExperienceTypeScriptColumn {
        assert !Readable(rows[i], tsDevsOnly);
        return Failure(IndexError);
      }
      if !Skipped(row, tsDevsOnly) {
        var added := AddRow(questions, answers, row);
        if added.Failure? {
          assert !Readable(rows[i], tsDevsOnly);
          return Failure(IndexError);
        }
        assert Complete(row);
        ghost var before := answers;
        answers := added.value;
        AnswerListsStep(questions, rows, i, tsDevsOnly, before, answers);
      } else {
        ReadableStep(rows, i, tsDevsOnly);
        AcceptedSkipStep(rows, i, tsDevsOnly);
      }
      i := i + 1;
    }
    assert rows[..|rows|] == rows;
    return Success(answers);
  }

  /**
   * The loop over the question columns of one accepted row: it fails when
   * the row is too short for one of the columns.
   */
  method AddRow(questions: map<string, nat>, answers: map<string, seq<string>>, row: Row)
    returns (result: Result<map<string, seq<string>>, string>)
    ensures result.Failure? <==> exists q :: q in questions && questions[q] >= |row|
    ensures result.Failure? ==> result.error == IndexError
    ensures result.Success? ==> result.value.Keys == answers.Keys + questions.Keys
    ensures result.Success? ==> forall q :: q in questions ==>
      questions[q] < |row| &&
      result.value[q] == (if q in answers then answers[q] else []) + Tokenise(row[questions[q]])
    ensures result.Success? ==> forall q :: q in answers && q !in questions ==> result.value[q] == answers[q]
  {
    var updated := answers;
    var pending := questions.Keys;
    while pending != {}
      invariant pending <= questions.Keys
      invariant updated.Keys == answers.Keys + (questions.Keys - pending)
      invariant forall q :: q in questions && q !in pending ==>
        questions[q] < |row| &&
        updated[q] == (if q in answers then answers[q] else []) + Tokenise(row[questions[q]])
      invariant forall q :: q in answers && (q in pending || q !in questions) ==> updated[q] == answers[q]
      decreases pending
    {
      var question :| question in pending;
      if questions[question] >= |row| {
        return Failure(IndexError);
      }
      var questionAnswers := if question in updated then updated[question] else [];
      var currentAnswer := Tokenise(row[questions[question]]);
      questionAnswers := questionAnswers + currentAnswer;
      updated := updated[question := questionAnswers];
      pending := pending - {question};
    }
    return Success(updated);
  }

  /** One more readable row keeps the prefix readable. */
  lemma ReadableStep(rows: seq<Row>, i: nat, tsDevsOnly: bool)
    requires i < |rows|
    requires AllReadable(rows[..i], tsDevsOnly) && Readable(rows[i], tsDevsOnly)
    ensures AllReadable(rows[..i + 1], tsDevsOnly)
  {
    var prefix := rows[..i + 1];
    forall k | 0 <= k < |prefix| ensures Readable(prefix[k], tsDevsOnly) {
      if k < i { assert prefix[k] == rows[..i][k]; }
    }
  }

  /** A skipped row leaves the accepted rows as they are. */
  lemma AcceptedSkipStep(rows: seq<Row>, i: nat, tsDevsOnly: bool)
    requires i < |rows| && Skipped(rows[i], tsDevsOnly)
    ensures Accepted(rows[..i + 1], tsDevsOnly) == Accepted(rows[..i], tsDevsOnly)
  {
    assert rows[..i + 1][..i] == rows[..i];
  }

  lemma AnswerListsStep(questions: map<string, nat>, rows: seq<Row>, i: nat, tsDevsOnly: bool,
                        before: map<string, seq<string>>, after: map<string, seq<string>>)
    requires ColumnsInRange(questions)
    requires i < |rows|
    requires AllReadable(rows[..i], tsDevsOnly)
    requires Readable(rows[i], tsDevsOnly) && !Skipped(rows[i], tsDevsOnly)
    requires before == AnswerLists(questions, rows[..i], tsDevsOnly)
    requires after.Keys == before.Keys + questions.Keys
    requires forall q :: q in questions ==>
      after[q] == (if q in before then before[q] else []) + Tokenise(rows[i][questions[q]])
    ensures AllReadable(rows[..i + 1], tsDevsOnly)
    ensures after == AnswerLists(questions, rows[..i + 1], tsDevsOnly)
  {
    ReadableStep(rows, i, tsDevsOnly);
    var acc := Accepted(rows[..i], tsDevsOnly);
    var accNext := AcceptedStep(rows, i, tsDevsOnly);
    ListsStep(questions, acc, rows[i], before, after);
  }

  lemma ListsStep(questions: map<string, nat>, acc: seq<Row>, row: Row,
                  before: map<string, seq<string>>, after: map<string, seq<string>>)
    requires ColumnsInRange(questions)
    requires AllComplete(acc)
    requires Complete(row)
    requires before == ListsOf(questions, acc)
    requires after.Keys == before.Keys + questions.Keys
    requires forall q :: q in questions ==>
      after[q] == (if q in before then before[q] else []) + Tokenise(row[questions[q]])
    ensures AllComplete(acc + [row])
    ensures after == ListsOf(questions, acc + [row])
  {
    var next := acc + [row];
    AllCompleteAppend(acc, row);
    var want := ListsOf(questions, next);
    assert after.Keys == want.Keys by {
      ListsOfKeys(questions, acc);
      ListsOfKeys(questions, next);
    }
    assert forall q :: q in want ==> after[q] == want[q] by {
      forall q | q in questions
        ensures after[q] == want[q]
      {
        ListsOfStepAt(questions, acc, row, q);
      }
    }
  }

  lemma AllCompleteAppend(rows: seq<Row>, row: Row)
    requires AllComplete(rows) && Complete(row)
    ensures AllComplete(rows + [row])
  {
    var next := rows + [row];
    forall k | 0 <= k < |next| ensures Complete(next[k]) {
      if k < |rows| { assert next[k] == rows[k]; }
    }
  }

  /** One question's list after one more accepted row. */
  lemma ListsOfStepAt(questions: map<string, nat>, acc: seq<Row>, row: Row, q: string)
    requires ColumnsInRange(questions)
    requires AllComplete(acc) && AllComplete(acc + [row]) && Complete(row)
    requires q in questions
    ensures q in ListsOf(questions, acc + [row])
    ensures ListsOf(questions, acc + [row])[q] ==
      (if q in ListsOf(questions, acc) then ListsOf(questions, acc)[q] else []) + Tokenise(row[questions[q]])
  {
    ColumnTokensStep(acc, row, questions[q]);
    ListsOfAt(questions, acc + [row], q);
    if acc != [] {
      ListsOfAt(questions, acc, q);
    }
  }

  lemma ListsOfKeys(questions: map<string, nat>, accepted: seq<Row>)
    requires ColumnsInRange(questions)
    requires AllComplete(accepted)
    ensures ListsOf(questions, accepted).Keys == if accepted == [] then {} else questions.Keys
  {
  }

  lemma ListsOfAt(questions: map<string, nat>, accepted: seq<Row>, q: string)
    requires ColumnsInRange(questions)
    requires AllComplete(accepted)
    requires accepted != [] && q in questions
    ensures ListsOf(questions, accepted)[q] == ColumnTokens(accepted, questions[q])
  {
  }

  /** Reading one more accepted row appends it to the accepted rows. */
  lemma AcceptedStep(rows: seq<Row>, i: nat, tsDevsOnly: bool) returns (accNext: seq<Row>)
    requires i < |rows| && !Skipped(rows[i], tsDevsOnly)
    ensures accNext == Accepted(rows[..i], tsDevsOnly) + [rows[i]]
    ensures Accepted(rows[..i + 1], tsDevsOnly) == accNext
  {
    var prefix := rows[..i + 1];
    assert prefix[..i] == rows[..i];
    accNext := Accepted(rows[..i], tsDevsOnly) + [rows[i]];
  }

  lemma ColumnTokensStep(rows: seq<Row>, row: Row, column: nat)
    requires column <= LastColumn
    requires AllComplete(rows)
    requires Complete(row)
    ensures ColumnTokens(rows + [row], column) == ColumnTokens(rows, column) + Tokenise(row[column])
  {
    assert (rows + [row])[..|rows|] == rows;
  }

  // ---------------------------------------------------------------------
  // Grouping the answers into counts per line

  /** Token counts of a list: the dictionary that grouping the sorted list builds. */
  function Tally(tokens: seq<string>): map<string, nat>
  {
    if |tokens| == 0 then map[]
    else
      var counts := Tally(tokens[..|tokens| - 1]);
      var t := tokens[|tokens| - 1];
      counts[t := (if t in counts then counts[t] else 0) + 1]
  }

  /** The tally has one entry per distinct token, holding its number of occurrences. */
  lemma {:induction false} TallyCounts(tokens: seq<string>)
    ensures Tally(tokens).Keys == set t | t in tokens
    ensures forall t :: t in Tally(tokens) ==> Tally(tokens)[t] == multiset(tokens)[t] >= 1
    decreases |tokens|
  {
    if |tokens| > 0 {
      var front := tokens[..|tokens| - 1];
      TallyCounts(front);
      assert tokens == front + [tokens[|tokens| - 1]];
    }
  }

  /** Sum of the values of a count map. */
  ghost function PickKey(m: map<string, nat>): (k: string)
    requires |m| > 0
    ensures k in m
  {
    var k :| k in m; k
  }

  ghost function MapSum(m: map<string, nat>): nat
    decreases |m|
  {
    if |m| == 0 then 0
    else
      var k := PickKey(m);
      assert |m - {k}| < |m| by { RemoveKeySize(m, k); }
      m[k] + MapSum(m - {k})
  }

  lemma RemoveKeySize(m: map<string, nat>, k: string)
    requires k in m
    ensures |m - {k}| == |m| - 1
  {
    assert (m - {k}).Keys == m.Keys - {k};
  }

  lemma {:induction false} MapSumRemove(m: map<string, nat>, k: string)
    requires k in m
    ensures MapSum(m) == m[k] + MapSum(m - {k})
    decreases |m|
  {
    var j := PickKey(m);
    RemoveKeySize(m, j);
    if j != k {
      RemoveKeySize(m, k);
      MapSumRemove(m - {j}, k);
      MapSumRemove(m - {k}, j);
      assert m - {j} - {k} == m - {k} - {j};
    }
  }

  /** Counts sum to the number of tokens: a respondent naming a line twice counts twice. */
  lemma {:induction false} TallyTotal(tokens: seq<string>)
    ensures MapSum(Tally(tokens)) == |tokens|
    decreases |tokens|
  {
    if |tokens| > 0 {
      var front := tokens[..|tokens| - 1];
      var t := tokens[|tokens| - 1];
      var counts := Tally(front);
      TallyTotal(front);
      var next := Tally(tokens);
      MapSumRemove(next, t);
      assert next - {t} == counts - {t};
      if t in counts {
        MapSumRemove(counts, t);
      } else {
        assert counts - {t} == counts;
      }
    }
  }

  /** The grouping loop: every question's token list becomes its tally. */
  method GroupAnswers(answers: map<string, seq<string>>) returns (grouped: map<string, map<string, nat>>)
    ensures grouped.Keys == answers.Keys
    ensures forall q :: q in answers ==> grouped[q] == Tally(answers[q])
  {
    grouped := map[];
    var pending := answers.Keys;
    while pending != {}
      invariant pending <= answers.Keys
      invariant grouped.Keys == answers.Keys - pending
      invariant forall q :: q in grouped ==> grouped[q] == Tally(answers[q])
      decreases pending
    {
      var question :| question in pending;
      grouped := grouped[question := Tally(answers[question])];
      pending := pending - {question};
    }
  }

  // ---------------------------------------------------------------------
  // Matching the predictions

  /** The count dictionary of one question's predictions, built line by line. */
  function Matched(predictedLines: seq<string>, counts: map<string, nat>): map<string, nat>
  {
    if |predictedLines| == 0 then map[]
    else
      var line := predictedLines[|predictedLines| - 1];
      Matched(predictedLines[..|predictedLines| - 1], counts)[line := if line in counts then counts[line] else 0]
  }

  /** Every predicted line is present, holding its tally or 0, and nothing else is. */
  lemma {:induction false} MatchedComplete(predictedLines: seq<string>, counts: map<string, nat>)
    ensures Matched(predictedLines, counts).Keys == set l | l in predictedLines
    ensures forall l :: l in predictedLines ==>
      Matched(predictedLines, counts)[l] == if l in counts then counts[l] else 0
    decreases |predictedLines|
  {
    if |predictedLines| > 0 {
      var front := predictedLines[..|predictedLines| - 1];
      MatchedComplete(front, counts);
      assert predictedLines == front + [predictedLines[|predictedLines| - 1]];
    }
  }

  /**
   * The prediction loop.  A predicted question without answers is a
   * `KeyError` in the script; here it is a failure naming that question.
   */
  method MatchPredictions(predictions: map<string, seq<string>>, answers: map<string, map<string, nat>>)
    returns (r: Result<map<string, map<string, nat>>, string>)
    ensures r.Success? <==> predictions.Keys <= answers.Keys
    ensures r.Failure? ==> r.error in predictions && r.error !in answers
    ensures r.Success? ==> r.value.Keys == predictions.Keys
    ensures r.Success? ==> forall q :: q in predictions ==>
      r.value[q] == Matched(predictions[q], answers[q])
  {
    var matchedPredictions := map[];
    var pending := predictions.Keys;
    while pending != {}
      invariant pending <= predictions.Keys
      invariant predictions.Keys - pending <= answers.Keys
      invariant matchedPredictions.Keys == predictions.Keys - pending
      invariant forall q :: q in matchedPredictions ==>
        q in answers && matchedPredictions[q] == Matched(predictions[q], answers[q])
      decreases pending
    {
      var question :| question in pending;
      if question !in answers {
        return Failure(question);
      }
      var answerLines := answers[question];
      var predictedLines := predictions[question];
      var matchedLines := map[];
      for i := 0 to |predictedLines|
        invariant matchedLines == Matched(predictedLines[..i], answerLines)
      {
        assert predictedLines[..i + 1][..i] == predictedLines[..i];
        var predictedLine := predictedLines[i];
        matchedLines := matchedLines[predictedLine := if predictedLine in answerLines then answerLines[predictedLine] else 0];
      }
      assert predictedLines[..|predictedLines|] == predictedLines;
      matchedPredictions := matchedPredictions[question := matchedLines];
      pending := pending - {question};
    }
    r := Success(matchedPredictions);
  }

  // ---------------------------------------------------------------------
  // Chart coordinates

  /** One chart value, `"(" + line + "," + str(count) + ")"`. */
  function Coordinate(line: string, count: nat): string
  {
    "(" + line + "," + NatStr(count) + ")"
  }

  /** A coordinate is parenthesised and splits back into its line and its count. */
  lemma CoordinateParts(line: string, count: nat)
    requires ',' !in line
    ensures var c := Coordinate(line, count);
      |c| >= 4 && c[0] == '(' && c[|c| - 1] == ')' &&
      Split(c[1..|c| - 1], ',') == [line, NatStr(count)] &&
      DigitsValue(NatStr(count)) == count
  {
    var c := Coordinate(line, count);
    assert c[1..|c| - 1] == line + [','] + NatStr(count);
    SplitPrefix(line, NatStr(count), ',');
    SplitNoSep(NatStr(count), ',');
    NatStrRoundTrip(count);
  }

  /** The chart values of one question, in the (natural) order of its predicted lines. */
  method ChartValues(matched: map<string, nat>, sortedLines: seq<string>) returns (values: seq<string>)
    requires forall l :: l in sortedLines <==> l in matched
    ensures |values| == |sortedLines|
    ensures forall k :: 0 <= k < |values| ==> values[k] == Coordinate(sortedLines[k], matched[sortedLines[k]])
  {
    values := [];
    for i := 0 to |sortedLines|
      invariant |values| == i
      invariant forall k :: 0 <= k < i ==> values[k] == Coordinate(sortedLines[k], matched[sortedLines[k]])
    {
      var line := sortedLines[i];
      var count := matched[line];
      values := values + ["(" + line + "," + NatStr(count) + ")"];
    }
  }

  /** The separator between chart values: a newline and sixteen spaces. */
  const ValueSeparator := "\n" + "                "

  /** The x coordinates: the sorted lines joined by commas. */
  function XCoordinates(sortedLines: seq<string>): string
  {
    Join(sortedLines, ",")
  }

  /** The x coordinates split back into the lines when no line contains a comma. */
  lemma XCoordinatesRoundTrip(sortedLines: seq<string>)
    requires |sortedLines| >= 1
    requires forall k :: 0 <= k < |sortedLines| ==> ',' !in sortedLines[k]
    ensures Split(XCoordinates(sortedLines), ',') == sortedLines
  {
    SplitJoin(sortedLines, ',');
  }

  /** The value text: one coordinate per line, each after the first indented by sixteen spaces. */
  lemma {:induction false} ValueTextLines(values: seq<string>)
    requires |values| >= 1
    requires forall k :: 0 <= k < |values| ==> '\n' !in values[k]
    ensures var lines := Split(Join(values, ValueSeparator), '\n');
      |lines| == |values| && lines[0] == values[0] &&
      forall k :: 1 <= k < |values| ==> lines[k] == "                " + values[k]
    decreases |values|
  {
    if |values| == 1 {
      SplitNoSep(values[0], '\n');
    } else {
      ValueTextLines(values[1..]);
      var rest := Join(values[1..], ValueSeparator);
      assert Join(values, ValueSeparator) == values[0] + ['\n'] + ("                " + rest);
      SplitPrefix(values[0], "                " + rest, '\n');
      IndentFirstPiece(rest, "                ");
    }
  }

  /** Prefixing text without newlines prefixes the first split piece only. */
  lemma {:induction false} IndentFirstPiece(s: string, indent: string)
    requires '\n' !in indent
    ensures var a := Split(indent + s, '\n'); var b := Split(s, '\n');
      |a| == |b| && a[0] == indent + b[0] && a[1..] == b[1..]
    decreases |indent|
  {
    if |indent| > 0 {
      IndentFirstPiece(s, indent[1..]);
      assert (indent + s)[1..] == indent[1..] + s;
      assert [indent[0]] + (indent[1..] + Split(s, '\n')[0]) == indent + Split(s, '\n')[0];
    } else {
      assert indent + s == s;
    }
  }

  // ---------------------------------------------------------------------
  // Question names

  /** The caption of a question: "Question " followed by its number. */
  function QuestionKey(x: nat): string
  {
    "Question " + NatStr(x)
  }

  lemma QuestionKeyInjective(m: nat, n: nat)
    requires QuestionKey(m) == QuestionKey(n)
    ensures m == n
  {
    assert NatStr(m) == QuestionKey(m)[9..];
    assert NatStr(n) == QuestionKey(n)[9..];
    NatStrInjective(m, n);
  }

  /** The caption-to-identifier table: questions 1 to 10 are free, 11 to 20 pre-filled. */
  function QuestionNames(): map<string, string>
  {
    forall m: nat, n: nat | QuestionKey(m) == QuestionKey(n) ensures m == n {
      QuestionKeyInjective(m, n);
    }
    map x | 1 <= x <= 20 :: QuestionKey(x) := if x <= 10 then "q" + NatStr(x) else "marked" + NatStr(x - 10)
  }

  /** "Question k" names "qk" and "Question k+10" names "markedk", for k in 1..10. */
  lemma QuestionNamesSpec(k: nat)
    requires 1 <= k <= 10
    ensures QuestionKey(k) in QuestionNames() && QuestionKey(k + 10) in QuestionNames()
    ensures QuestionNames()[QuestionKey(k)] == "q" + NatStr(k)
    ensures QuestionNames()[QuestionKey(k + 10)] == "marked" + NatStr(k)
  {
    QuestionNameAt(k);
    QuestionNameAt(k + 10);
    assert k + 10 - 10 == k;
  }

  /** No other caption is named. */
  lemma QuestionNamesOnly()
    ensures forall s :: s in QuestionNames() ==> exists x :: 1 <= x <= 20 && s == QuestionKey(x)
  {
  }

  lemma QuestionNameAt(x: nat)
    requires 1 <= x <= 20
    ensures QuestionKey(x) in QuestionNames()
    ensures QuestionNames()[QuestionKey(x)] == if x <= 10 then "q" + NatStr(x) else "marked" + NatStr(x - 10)
  {
    forall y: nat | 1 <= y <= 20 && QuestionKey(y) == QuestionKey(x) ensures y == x {
      QuestionKeyInjective(y, x);
    }
  }
}
