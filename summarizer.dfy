/**
 * `summarizer.py`: reads the corpus rows and, for each document not yet
 * processed, asks a language model for a summary, for questions about it
 * and for an answer to each question, then appends the summary row and one
 * row per question-and-answer pair to the output file. Contents already in
 * the output are skipped, so an interrupted run can be resumed.
 */
module Summarizer {
  import opened Wrappers
  import opened Strings

  /** Documents longer than this many characters are skipped. */
  const MaxContentLength: nat := 32000

  /** The three model calls. Each either answers or fails; a failure stands
      for the retry policy giving up as well as for any other error. */
  datatype Llm = Llm(
    summarize: string -> Option<string>,
    questions: string -> Option<string>,
    answer: (string, string) -> Option<string>)

  /** The row holding a document's summary. */
  function SummaryRow(content: string, summary: string): seq<string>
  {
    [content, "Summary:\n" + summary]
  }

  /** One question with its answer. */
  function QnaText(question: string, answer: string): string
  {
    "Q: " + question + "\nA: " + answer
  }

  /** The rows holding a document's question-and-answer pairs. */
  function QnaRows(content: string, qna: seq<string>): seq<seq<string>>
  {
    seq(|qna|, k requires 0 <= k < |qna| => [content, qna[k]])
  }

  // ---------------------------------------------------------------------
  // The question loop

  /** What the question loop builds for `lines`: a pair for each non-blank
      line, or nothing when an answer fails. */
  function QnA(content: string, lines: seq<string>, llm: Llm): Option<seq<string>>
  {
    if lines == [] then Some([])
    else if IsBlank(lines[0]) then QnA(content, lines[1..], llm)
    else
      match llm.answer(content, lines[0])
      case None => None
      case Some(a) =>
        match QnA(content, lines[1..], llm)
        case None => None
        case Some(rest) => Some([QnaText(lines[0], a)] + rest)
  }

  /** The non-blank lines, in order. */
  function NonBlank(lines: seq<string>): (r: seq<string>)
    ensures forall k :: 0 <= k < |r| ==> !IsBlank(r[k]) && r[k] in lines
  {
    if lines == [] then []
    else (if IsBlank(lines[0]) then [] else [lines[0]]) + NonBlank(lines[1..])
  }

  /** Every one of `questions` gets an answer. */
  predicate Answered(content: string, questions: seq<string>, llm: Llm)
  {
    forall k :: 0 <= k < |questions| ==> llm.answer(content, questions[k]).Some?
  }

  /** Each question with its answer, in order. */
  function Pairs(content: string, questions: seq<string>, llm: Llm): seq<string>
    requires Answered(content, questions, llm)
  {
    seq(|questions|, k requires 0 <= k < |questions| && Answered(content, questions, llm) =>
      QnaText(questions[k], llm.answer(content, questions[k]).value))
  }

  lemma AnsweredCons(content: string, x: string, rest: seq<string>, llm: Llm)
    ensures Answered(content, [x] + rest, llm)
            <==> llm.answer(content, x).Some? && Answered(content, rest, llm)
  {
    var xs := [x] + rest;
    assert forall k :: 1 <= k < |xs| ==> xs[k] == rest[k - 1];
    if llm.answer(content, x).Some? && Answered(content, rest, llm) {
      forall k | 0 <= k < |xs| ensures llm.answer(content, xs[k]).Some? {
        if k > 0 {
          assert xs[k] == rest[k - 1];
        }
      }
    }
    if Answered(content, xs, llm) {
      assert xs[0] == x;
      forall k | 0 <= k < |rest| ensures llm.answer(content, rest[k]).Some? {
        assert rest[k] == xs[k + 1];
      }
    }
  }

  lemma PairsCons(content: string, x: string, rest: seq<string>, llm: Llm)
    requires Answered(content, [x] + rest, llm)
    ensures llm.answer(content, x).Some? && Answered(content, rest, llm)
    ensures Pairs(content, [x] + rest, llm)
            == [QnaText(x, llm.answer(content, x).value)] + Pairs(content, rest, llm)
  {
    AnsweredCons(content, x, rest, llm);
    var xs := [x] + rest;
    assert forall k :: 1 <= k < |xs| ==> xs[k] == rest[k - 1];
  }

  /** The question loop against a reference description: it succeeds exactly
      when every non-blank line gets an answer, and then holds one pair per
      non-blank line, in order. */
  lemma {:induction false} QnAByNonBlank(content: string, lines: seq<string>, llm: Llm)
    ensures var nb := NonBlank(lines);
            QnA(content, lines, llm)
            == if Answered(content, nb, llm) then Some(Pairs(content, nb, llm)) else None
  {
    if lines == [] {
      assert Pairs(content, [], llm) == [];
    } else {
      var x := lines[0];
      var rest := NonBlank(lines[1..]);
      QnAByNonBlank(content, lines[1..], llm);
      if IsBlank(x) {
        assert NonBlank(lines) == rest;
      } else {
        assert NonBlank(lines) == [x] + rest;
        AnsweredCons(content, x, rest, llm);
        if Answered(content, [x] + rest, llm) {
          PairsCons(content, x, rest, llm);
          assert QnA(content, lines, llm)
                 == Some([QnaText(x, llm.answer(content, x).value)] + Pairs(content, rest, llm));
        }
      }
    }
  }

  /** Prepends the pairs built so far to the outcome of the rest. */
  function Prefixed(acc: seq<string>, o: Option<seq<string>>): Option<seq<string>>
  {
    match o
    case None => None
    case Some(x) => Some(acc + x)
  }

  /** The `for q in qs.splitlines()` loop: a blank line is passed over, any
      other is answered; a failed answer abandons the row. */
  method AnswerQuestions(content: string, lines: seq<string>, llm: Llm) returns (r: Option<seq<string>>)
    ensures r == QnA(content, lines, llm)
  {
    var qnaList: seq<string> := [];
    assert lines[0..] == lines;
    match QnA(content, lines, llm) {
      case None =>
      case Some(x) => assert [] + x == x;
    }
    for i := 0 to |lines|
      invariant QnA(content, lines, llm) == Prefixed(qnaList, QnA(content, lines[i..], llm))
    {
      var q := lines[i];
      assert lines[i..][1..] == lines[i + 1..];
      if !IsBlank(q) {
        var answer := llm.answer(content, q);
        if answer.None? {
          return None;
        }
        var rest := QnA(content, lines[i + 1..], llm);
        if rest.Some? {
          AppendAssoc(qnaList, [QnaText(q, answer.value)], rest.value);
        }
        qnaList := qnaList + [QnaText(q, answer.value)];
      }
    }
    assert qnaList + [] == qnaList;
    return Some(qnaList);
  }

  // ---------------------------------------------------------------------
  // One row

  /** What `process_row` does with a row: skip it, count it as failed, or
      write the rows it produced. */
  datatype RowOutcome = Skipped | Failed | Done(rows: seq<seq<string>>)

  /** `process_row` for a row of the corpus, given the contents processed so
      far. An empty row fails on `row[0]`. */
  function Outcome(row: seq<string>, llm: Llm, processed: set<string>): RowOutcome
  {
    if |row| == 0 then Failed
    else
      var content := row[0];
      if content in processed || |content| > MaxContentLength then Skipped
      else
        match (llm.summarize(content), llm.questions(content))
        case (Some(summary), Some(qs)) =>
          (match QnA(content, SplitLines(qs), llm)
           case Some(qna) => Done([SummaryRow(content, summary)] + QnaRows(content, qna))
           case None => Failed)
        case _ => Failed
  }

  /** When a row is skipped, when it fails and what it writes: a row is
      written exactly when it is not empty, its document is new and short
      enough, and every model call succeeds; it then writes the summary row
      first and one row per non-blank question line, all starting with the
      document. */
  lemma OutcomeCases(row: seq<string>, llm: Llm, processed: set<string>)
    ensures var o := Outcome(row, llm, processed);
            && (o.Skipped? <==> |row| > 0 && (row[0] in processed || |row[0]| > MaxContentLength))
            && (o.Done? <==>
                  && |row| > 0 && row[0] !in processed && |row[0]| <= MaxContentLength
                  && llm.summarize(row[0]).Some? && llm.questions(row[0]).Some?
                  && Answered(row[0], NonBlank(SplitLines(llm.questions(row[0]).value)), llm))
            && (o.Done? ==>
                  var c := row[0];
                  var nb := NonBlank(SplitLines(llm.questions(c).value));
                  && Answered(c, nb, llm)
                  && o.rows == [SummaryRow(c, llm.summarize(c).value)] + QnaRows(c, Pairs(c, nb, llm))
                  && |o.rows| == |nb| + 1
                  && (forall k :: 0 <= k < |o.rows| ==> |o.rows[k]| == 2 && o.rows[k][0] == c))
  {
    if |row| > 0 && llm.questions(row[0]).Some? {
      QnAByNonBlank(row[0], SplitLines(llm.questions(row[0]).value), llm);
    }
  }

  /** The outcome of a row whose model calls all succeeded. */
  lemma OutcomeWritten(row: seq<string>, llm: Llm, processed: set<string>, qna: seq<string>)
    requires |row| > 0 && row[0] !in processed && |row[0]| <= MaxContentLength
    requires llm.summarize(row[0]).Some? && llm.questions(row[0]).Some?
    requires QnA(row[0], SplitLines(llm.questions(row[0]).value), llm) == Some(qna)
    ensures Outcome(row, llm, processed)
            == Done([SummaryRow(row[0], llm.summarize(row[0]).value)] + QnaRows(row[0], qna))
  {
  }

  // ---------------------------------------------------------------------
  // The whole run

  /** What `main` threads through its loop: the processed contents, the
      output file's rows, and the two counters. */
  datatype Progress = Progress(processed: set<string>, written: seq<seq<string>>, rowCount: nat, skippedRows: nat)

  /** One turn of `main`'s loop. */
  function Step(p: Progress, row: seq<string>, llm: Llm): Progress
  {
    match Outcome(row, llm, p.processed)
    case Skipped => p
    case Failed => p.(skippedRows := p.skippedRows + 1)
    case Done(rows) => Progress(p.processed + {row[0]}, p.written + rows, p.rowCount + 1, p.skippedRows)
  }

  /** `main`'s loop over the input rows. */
  function Replay(p: Progress, rows: seq<seq<string>>, llm: Llm): Progress
    decreases |rows|
  {
    if rows == [] then p else Replay(Step(p, rows[0], llm), rows[1..], llm)
  }

  /** The first field of every row that has one. */
  function FirstFields(rows: seq<seq<string>>): set<string>
  {
    set k | 0 <= k < |rows| && |rows[k]| > 0 :: rows[k][0]
  }

  /** `load_processed_contents`: the first field of every row of the output
      file, nothing when there is no file, and an error (the script stops)
      when a row is empty. */
  method LoadProcessedContents(present: bool, rows: seq<seq<string>>) returns (r: Option<set<string>>)
    ensures !present ==> r == Some({})
    ensures present ==> (r.None? <==> exists k :: 0 <= k < |rows| && |rows[k]| == 0)
    ensures present && r.Some? ==> r.value == FirstFields(rows)
  {
    var processed: set<string> := {};
    if present {
      for i := 0 to |rows|
        invariant forall k :: 0 <= k < i ==> |rows[k]| > 0
        invariant processed == FirstFields(rows[..i])
      {
        if |rows[i]| == 0 {
          return None;
        }
        assert rows[..i + 1] == rows[..i] + [rows[i]];
        processed := processed + {rows[i][0]};
        assert forall k :: 0 <= k <= i ==> rows[..i + 1][k] == rows[k];
      }
      assert rows[..|rows|] == rows;
    }
    return Some(processed);
  }

  /** The set of processed contents and the output file, as `main` holds
      them while it runs. */
  class Session {
    var processed: set<string>
    var output: seq<seq<string>>

    constructor (processed0: set<string>, output0: seq<seq<string>>)
      ensures processed == processed0 && output == output0
    {
      processed := processed0;
      output := output0;
    }

    /** `process_row`: returns the new row count and 1 when the row failed,
        0 otherwise; rows are written, and the document recorded as
        processed, only once every model call has succeeded. */
    method ProcessRow(row: seq<string>, llm: Llm, rowCount: nat) returns (newCount: nat, skipped: nat)
      modifies this
      ensures var o := Outcome(row, llm, old(processed));
              && newCount == (if o.Done? then rowCount + 1 else rowCount)
              && skipped == (if o.Failed? then 1 else 0)
              && output == old(output) + (if o.Done? then o.rows else [])
              && processed == (if o.Done? then old(processed) + {row[0]} else old(processed))
    {
      if |row| == 0 {
        return rowCount, 1;
      }
      var mainContent := row[0];
      if mainContent in processed {
        return rowCount, 0;
      }
      if |mainContent| > MaxContentLength {
        return rowCount, 0;
      }
      var summary := llm.summarize(mainContent);
      if summary.None? {
        return rowCount, 1;
      }
      var qs := llm.questions(mainContent);
      if qs.None? {
        return rowCount, 1;
      }
      var qnaList := AnswerQuestions(mainContent, SplitLines(qs.value), llm);
      if qnaList.None? {
        return rowCount, 1;
      }
      var qna := qnaList.value;
      OutcomeWritten(row, llm, old(processed), qna);
      output := output + [SummaryRow(mainContent, summary.value)];
      WriteQna(mainContent, qna);
      processed := processed + {mainContent};
      return rowCount + 1, 0;
    }

    /** The rows written after the summary row: one per question-and-answer
        pair, in order, each starting with the document. */
    method WriteQna(content: string, qna: seq<string>)
      modifies this
      ensures output == old(output) + QnaRows(content, qna)
      ensures processed == old(processed)
    {
      for k := 0 to |qna|
        invariant processed == old(processed)
        invariant output == old(output) + QnaRows(content, qna[..k])
      {
        assert QnaRows(content, qna[..k + 1]) == QnaRows(content, qna[..k]) + [[content, qna[k]]];
        output := output + [[content, qna[k]]];
      }
      assert qna[..|qna|] == qna;
    }

    /** `main`'s loop: every input row goes through `ProcessRow`, threading
        the row count and adding up the failures. */
    method ProcessRows(input: seq<seq<string>>, llm: Llm) returns (rowCount: nat, skippedRows: nat)
      modifies this
      ensures Progress(processed, output, rowCount, skippedRows)
              == Replay(Progress(old(processed), old(output), 0, 0), input, llm)
    {
      rowCount, skippedRows := 0, 0;
      assert input[0..] == input;
      for i := 0 to |input|
        invariant Replay(Progress(processed, output, rowCount, skippedRows), input[i..], llm)
                  == Replay(Progress(old(processed), old(output), 0, 0), input, llm)
      {
        assert input[i..][1..] == input[i + 1..];
        ghost var before := Progress(processed, output, rowCount, skippedRows);
        var skipped;
        rowCount, skipped := ProcessRow(input[i], llm, rowCount);
        skippedRows := skippedRows + skipped;
        assert Progress(processed, output, rowCount, skippedRows) == Step(before, input[i], llm);
      }
    }
  }

  /** What a run leaves behind: the output file and the two totals it
      reports. */
  datatype Report = Report(output: seq<seq<string>>, rowCount: nat, skippedRows: nat)

  /** `main`, with the input rows, the output file (whether it exists and
      its rows) and the model given as parameters. A malformed output file
      stops the script before anything is written. */
  method Run(input: seq<seq<string>>, outputPresent: bool, outputRows: seq<seq<string>>, llm: Llm)
    returns (r: Option<Report>)
    ensures r.None? <==> outputPresent && exists k :: 0 <= k < |outputRows| && |outputRows[k]| == 0
    ensures r.Some? ==>
              var existing := if outputPresent then outputRows else [];
              var p := Replay(Progress(FirstFields(existing), existing, 0, 0), input, llm);
              r.value == Report(p.written, p.rowCount, p.skippedRows)
  {
    var loaded := LoadProcessedContents(outputPresent, outputRows);
    if loaded.None? {
      return None;
    }
    var existing := if outputPresent then outputRows else [];
    assert loaded.value == FirstFields(existing);
    var session := new Session(loaded.value, existing);
    var rowCount, skippedRows := session.ProcessRows(input, llm);
    return Some(Report(session.output, rowCount, skippedRows));
  }

  // ---------------------------------------------------------------------
  // Properties of a run

  /** A run only appends to the output, never forgets a processed
      document, and counts each input row at most once. */
  lemma {:induction false} ReplayGrows(p: Progress, rows: seq<seq<string>>, llm: Llm)
    ensures var q := Replay(p, rows, llm);
            && p.written <= q.written
            && p.processed <= q.processed
            && p.rowCount <= q.rowCount
            && q.rowCount + q.skippedRows <= p.rowCount + p.skippedRows + |rows|
    decreases |rows|
  {
    if rows != [] {
      ReplayGrows(Step(p, rows[0], llm), rows[1..], llm);
    }
  }

  /** One row keeps the output it started with and writes rows only for a
      document that was not processed before it. */
  lemma StepWritesOnlyNew(p: Progress, row: seq<string>, llm: Llm)
    ensures var p1 := Step(p, row, llm);
            && p.written <= p1.written && p.processed <= p1.processed
            && forall k :: |p.written| <= k < |p1.written| ==> |p1.written[k]| > 0 && p1.written[k][0] !in p.processed
  {
    var o := Outcome(row, llm, p.processed);
    if o.Done? {
      OutcomeCases(row, llm, p.processed);
      var p1 := Step(p, row, llm);
      forall k | |p.written| <= k < |p1.written|
        ensures |p1.written[k]| > 0 && p1.written[k][0] !in p.processed
      {
        assert p1.written[k] == o.rows[k - |p.written|];
      }
    }
  }

  /** Whatever the model answers, a run keeps the output it started with
      and writes rows only for documents that were not processed before it:
      content already processed is never written again. */
  lemma {:induction false} ReplayWritesOnlyNew(p: Progress, rows: seq<seq<string>>, llm: Llm)
    ensures var q := Replay(p, rows, llm);
            && p.written <= q.written
            && forall k :: |p.written| <= k < |q.written| ==> |q.written[k]| > 0 && q.written[k][0] !in p.processed
    decreases |rows|
  {
    if rows != [] {
      var p1 := Step(p, rows[0], llm);
      StepWritesOnlyNew(p, rows[0], llm);
      ReplayWritesOnlyNew(p1, rows[1..], llm);
      var q := Replay(p1, rows[1..], llm);
      assert Replay(p, rows, llm) == q;
      forall k | |p.written| <= k < |q.written|
        ensures |q.written[k]| > 0 && q.written[k][0] !in p.processed
      {
        if k < |p1.written| {
          assert q.written[k] == p1.written[k];
        }
      }
    }
  }

  /** The processed set is exactly the set of first fields of the output,
      and no output row is empty. */
  predicate InSync(p: Progress)
  {
    && (forall k :: 0 <= k < |p.written| ==> |p.written[k]| > 0)
    && p.processed == FirstFields(p.written)
  }

  lemma FirstFieldsAppend(a: seq<seq<string>>, b: seq<seq<string>>)
    ensures FirstFields(a + b) == FirstFields(a) + FirstFields(b)
  {
    var ab := a + b;
    forall x | x in FirstFields(ab) ensures x in FirstFields(a) + FirstFields(b) {
      var k :| 0 <= k < |ab| && |ab[k]| > 0 && ab[k][0] == x;
      if k >= |a| {
        assert b[k - |a|] == ab[k];
      }
    }
    forall x | x in FirstFields(a) + FirstFields(b) ensures x in FirstFields(ab) {
      if x in FirstFields(b) {
        var k :| 0 <= k < |b| && |b[k]| > 0 && b[k][0] == x;
        assert ab[|a| + k] == b[k];
      } else {
        var k :| 0 <= k < |a| && |a[k]| > 0 && a[k][0] == x;
        assert ab[k] == a[k];
      }
    }
  }

  /** One turn keeps the processed set and the output in sync. */
  lemma StepInSync(p: Progress, row: seq<string>, llm: Llm)
    requires InSync(p)
    ensures InSync(Step(p, row, llm))
  {
    var o := Outcome(row, llm, p.processed);
    if o.Done? {
      OutcomeCases(row, llm, p.processed);
      FirstFieldsAppend(p.written, o.rows);
      assert FirstFields(o.rows) == {row[0]} by {
        assert o.rows[0][0] == row[0];
      }
    }
  }

  /** A run keeps the processed set and the output in sync. In particular,
      loading the processed contents back from the output a run leaves
      gives exactly the set the run ended with. */
  lemma {:induction false} ReplayInSync(p: Progress, rows: seq<seq<string>>, llm: Llm)
    requires InSync(p)
    ensures InSync(Replay(p, rows, llm))
    decreases |rows|
  {
    if rows != [] {
      StepInSync(p, rows[0], llm);
      ReplayInSync(Step(p, rows[0], llm), rows[1..], llm);
    }
  }

  /** A row not written against some processed set is not written against a
      larger one either: its document is then processed, or the same calls
      fail or the same length test holds. */
  lemma NotDoneStable(row: seq<string>, llm: Llm, small: set<string>, large: set<string>)
    requires small <= large
    requires !Outcome(row, llm, small).Done?
    ensures !Outcome(row, llm, large).Done?
  {
  }

  /** After a run, no input row of that run would be written again. */
  lemma {:induction false} ReplaySettles(p: Progress, rows: seq<seq<string>>, llm: Llm)
    ensures var q := Replay(p, rows, llm);
            forall k :: 0 <= k < |rows| ==> !Outcome(rows[k], llm, q.processed).Done?
    decreases |rows|
  {
    if rows != [] {
      var p1 := Step(p, rows[0], llm);
      var q := Replay(p, rows, llm);
      ReplaySettles(p1, rows[1..], llm);
      ReplayGrows(p1, rows[1..], llm);
      assert !Outcome(rows[0], llm, p1.processed).Done? by {
        if Outcome(rows[0], llm, p.processed).Done? {
          assert rows[0][0] in p1.processed;
        } else {
          NotDoneStable(rows[0], llm, p.processed, p1.processed);
        }
      }
      NotDoneStable(rows[0], llm, p1.processed, q.processed);
      forall k | 1 <= k < |rows| ensures !Outcome(rows[k], llm, q.processed).Done? {
        assert rows[k] == rows[1..][k - 1];
      }
    }
  }

  /** A run over rows none of which would be written writes nothing and
      keeps the processed set. */
  lemma {:induction false} ReplayQuiet(p: Progress, rows: seq<seq<string>>, llm: Llm)
    requires forall k :: 0 <= k < |rows| ==> !Outcome(rows[k], llm, p.processed).Done?
    ensures Replay(p, rows, llm).written == p.written
    ensures Replay(p, rows, llm).processed == p.processed
    decreases |rows|
  {
    if rows != [] {
      var p1 := Step(p, rows[0], llm);
      assert p1.processed == p.processed && p1.written == p.written;
      forall k | 0 <= k < |rows[1..]| ensures !Outcome(rows[1..][k], llm, p1.processed).Done? {
        assert rows[1..][k] == rows[k + 1];
      }
      ReplayQuiet(p1, rows[1..], llm);
    }
  }

  /** Resuming: a second `main` over the same input, with the same model,
      starts from what `load_processed_contents` reads back from the output
      the first run left, with both counters at zero, and writes nothing
      more. */
  lemma RerunWritesNothing(p: Progress, rows: seq<seq<string>>, llm: Llm)
    requires InSync(p)
    ensures var q := Replay(p, rows, llm);
            Replay(Progress(FirstFields(q.written), q.written, 0, 0), rows, llm).written == q.written
  {
    var q := Replay(p, rows, llm);
    ReplayInSync(p, rows, llm);
    ReplaySettles(p, rows, llm);
    ReplayQuiet(Progress(FirstFields(q.written), q.written, 0, 0), rows, llm);
  }
}
