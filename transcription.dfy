/**
  The transcription loop of transcribe_audio: every planned chunk goes to the
  recogniser in order; a recognised chunk appends its text and one space to the
  transcript and produces a progress report, a chunk that fails in any of the
  three ways appends nothing and is skipped; at the end the transcript is written
  out only if it is not empty.

  The recogniser is a function from the chunk read to its outcome, and the wall
  clock a function from the chunk index to the seconds elapsed since the loop
  started when that chunk was recognised.
 */
module Transcription {
  import opened Wrappers
  import opened ChunkPlanner

  /** What the recogniser does with one chunk: text, or one of the three failures
      (UnknownValueError, RequestError, any other exception). */
  datatype Outcome =
    | Success(text: string)
    | Unknown
    | RequestError(message: string)
    | OtherError(message: string)

  /** The progress line of a recognised chunk: the percentage done and, for every
      chunk but the first of the recording, the estimated seconds remaining. */
  datatype Progress = Progress(percent: real, eta: Option<real>)

  /** What one chunk appends to the transcript: nothing for a failure; for a
      recognised chunk its text and one more character, a space. */
  function Contribution(outcome: Outcome): (piece: string)
    ensures piece == "" <==> !outcome.Success?
    ensures outcome.Success? ==> |piece| == |outcome.text| + 1 && piece[|piece| - 1] == ' '
    ensures outcome.Success? ==> piece[..|outcome.text|] == outcome.text
  {
    if outcome.Success? then outcome.text + " " else ""
  }

  /** The transcript after the given outcomes, in order. */
  function Assemble(outcomes: seq<Outcome>): string {
    if outcomes == [] then ""
    else Assemble(outcomes[..|outcomes| - 1]) + Contribution(outcomes[|outcomes| - 1])
  }

  /** The texts of the recognised chunks, in chunk order. */
  function SuccessTexts(outcomes: seq<Outcome>): seq<string> {
    if outcomes == [] then []
    else if outcomes[0].Success? then [outcomes[0].text] + SuccessTexts(outcomes[1..])
    else SuccessTexts(outcomes[1..])
  }

  /** Each text followed by one space, concatenated. */
  function JoinSpaced(texts: seq<string>): string {
    if texts == [] then "" else texts[0] + " " + JoinSpaced(texts[1..])
  }

  /** What the recogniser gives for each chunk of a plan. */
  function Outcomes(chunks: seq<Chunk>, recognize: Chunk -> Outcome): seq<Outcome> {
    seq(|chunks|, i requires 0 <= i < |chunks| => recognize(chunks[i]))
  }

  lemma OutcomesAt(chunks: seq<Chunk>, recognize: Chunk -> Outcome)
    ensures |Outcomes(chunks, recognize)| == |chunks|
    ensures forall i :: 0 <= i < |chunks| ==> Outcomes(chunks, recognize)[i] == recognize(chunks[i])
  {
  }

  // ---------------------------------------------------------------------------
  // Progress arithmetic.

  /** `(index + 1) / total * 100`. */
  function Percent(index: nat, total: nat): (p: real)
    requires index < total
    ensures 0.0 < p <= 100.0
    ensures p == 100.0 <==> index == total - 1
  {
    PercentBounds(index, total);
    (index + 1) as real / total as real * 100.0
  }

  lemma PercentBounds(index: nat, total: nat)
    requires index < total
    ensures 0.0 < (index + 1) as real / total as real <= 1.0
    ensures (index + 1) as real / total as real == 1.0 <==> index == total - 1
  {
    var q := (index + 1) as real / total as real;
    assert q * total as real == (index + 1) as real;
  }

  /** The average time per chunk so far times the number of chunks left. */
  function Eta(elapsed: real, index: nat, total: nat): (eta: real)
    requires index < total
    ensures index == total - 1 ==> eta == 0.0
    ensures elapsed >= 0.0 ==> eta >= 0.0
  {
    elapsed / (index + 1) as real * (total - (index + 1)) as real
  }

  /** The report printed after chunk `index` was recognised: a percentage in (0, 100],
      and an estimate for every chunk but the first of the recording. */
  function Report(index: nat, total: nat, elapsed: real): (report: Progress)
    requires index < total
    ensures 0.0 < report.percent <= 100.0
    ensures report.eta.None? <==> index == 0
  {
    Progress(Percent(index, total), if index > 0 then Some(Eta(elapsed, index, total)) else None)
  }

  /** The report of a chunk: printed only when it was recognised. */
  function ReportFor(outcome: Outcome, index: nat, total: nat, elapsed: real): (report: Option<Progress>)
    requires index < total
    ensures report.Some? <==> outcome.Success?
  {
    if outcome.Success? then Some(Report(index, total, elapsed)) else None
  }

  // ---------------------------------------------------------------------------
  // The loop.

  /** Recognises every planned chunk in order; returns the transcript, the report
      of each chunk (None for a failed one) and whether the transcript is written. */
  method TranscribeAudio(duration: nat, recognize: Chunk -> Outcome, elapsedAt: nat -> real)
    returns (transcription: string, reports: seq<Option<Progress>>, written: bool)
    ensures |reports| == ChunkCount(duration)
    ensures transcription == Assemble(Outcomes(Plan(duration), recognize))
    ensures forall i :: 0 <= i < |reports| ==>
      reports[i] == ReportFor(recognize(Plan(duration)[i]), i, |reports|, elapsedAt(i))
    ensures written <==> exists i :: 0 <= i < |reports| && recognize(Plan(duration)[i]).Success?
  {
    var chunks, _ := SplitAudio(duration);
    transcription, reports := RecognizeAll(chunks, recognize, elapsedAt);
    written := transcription != "";
    OutcomesAt(chunks, recognize);
    AssembleNonEmpty(Outcomes(chunks, recognize));
  }

  /** The body of the loop for one chunk: the `try` appends the text and one space
      and reports progress; each of the three `except` clauses appends nothing. */
  method HandleChunk(outcome: Outcome, index: nat, total: nat, elapsed: real)
    returns (piece: string, report: Option<Progress>)
    requires index < total
    ensures piece == Contribution(outcome)
    ensures report == ReportFor(outcome, index, total, elapsed)
  {
    match outcome {
      case Success(text) =>
        piece := text + " ";
        report := Some(Report(index, total, elapsed));
      case Unknown =>
        piece, report := "", None;
      case RequestError(_) =>
        piece, report := "", None;
      case OtherError(_) =>
        piece, report := "", None;
    }
  }

  /** The loop over the chunks split_audio yields. */
  method RecognizeAll(chunks: seq<Chunk>, recognize: Chunk -> Outcome, elapsedAt: nat -> real)
    returns (transcription: string, reports: seq<Option<Progress>>)
    ensures transcription == Assemble(Outcomes(chunks, recognize))
    ensures |reports| == |chunks|
    ensures forall i :: 0 <= i < |chunks| ==>
      reports[i] == ReportFor(recognize(chunks[i]), i, |chunks|, elapsedAt(i))
  {
    transcription := "";
    reports := [];
    ghost var outcomes := Outcomes(chunks, recognize);
    OutcomesAt(chunks, recognize);
    var total := |chunks|;
    for i := 0 to total
      invariant transcription == Assemble(outcomes[..i])
      invariant |reports| == i
      invariant forall k :: 0 <= k < i ==> reports[k] == ReportFor(outcomes[k], k, total, elapsedAt(k))
    {
      var outcome := recognize(chunks[i]);
      AssemblePrefix(outcomes, i);
      var piece, report := HandleChunk(outcome, i, total, elapsedAt(i));
      transcription := transcription + piece;
      reports := reports + [report];
    }
    assert outcomes[..total] == outcomes;
  }

  // ---------------------------------------------------------------------------
  // Properties of the transcript.

  lemma AssembleStep(done: seq<Outcome>, next: Outcome)
    ensures Assemble(done + [next]) == Assemble(done) + Contribution(next)
  {
    assert (done + [next])[..|done|] == done;
  }

  /** Taking one more outcome of a run appends that outcome's contribution. */
  lemma AssemblePrefix(outcomes: seq<Outcome>, i: nat)
    requires i < |outcomes|
    ensures Assemble(outcomes[..i + 1]) == Assemble(outcomes[..i]) + Contribution(outcomes[i])
  {
    assert outcomes[..i + 1] == outcomes[..i] + [outcomes[i]];
    AssembleStep(outcomes[..i], outcomes[i]);
  }

  /** The transcript of two runs of chunks is the transcript of the first followed by that of the second. */
  lemma {:induction false} AssembleAppend(a: seq<Outcome>, b: seq<Outcome>)
    ensures Assemble(a + b) == Assemble(a) + Assemble(b)
    decreases |b|
  {
    if b != [] {
      var n := |b|;
      assert (a + b)[..|a + b| - 1] == a + b[..n - 1];
      AssembleAppend(a, b[..n - 1]);
    } else {
      assert a + b == a;
    }
  }

  /** A failed chunk leaves the transcript as it was and does not stop the chunks after it. */
  lemma FailureContributesNothing(before: seq<Outcome>, failed: Outcome, after: seq<Outcome>)
    requires !failed.Success?
    ensures Assemble(before + [failed] + after) == Assemble(before + after)
  {
    assert Assemble([failed]) == "" by { assert [failed][..0] == []; }
    calc {
      Assemble(before + [failed] + after);
      { AssembleAppend(before + [failed], after); }
      Assemble(before + [failed]) + Assemble(after);
      { AssembleAppend(before, [failed]); }
      Assemble(before) + Assemble(after);
      { AssembleAppend(before, after); }
      Assemble(before + after);
    }
  }

  /** The transcript holds something exactly when some chunk was recognised, even as the empty text. */
  lemma {:induction false} AssembleNonEmpty(outcomes: seq<Outcome>)
    ensures Assemble(outcomes) != "" <==> exists i :: 0 <= i < |outcomes| && outcomes[i].Success?
  {
    if outcomes != [] {
      var n := |outcomes|;
      var front := outcomes[..n - 1];
      AssembleNonEmpty(front);
      if exists i :: 0 <= i < |front| && front[i].Success? {
        var i :| 0 <= i < |front| && front[i].Success?;
        assert outcomes[i] == front[i];
      }
      if exists i :: 0 <= i < n && outcomes[i].Success? {
        var i :| 0 <= i < n && outcomes[i].Success?;
        if i < n - 1 {
          assert front[i] == outcomes[i];
        }
      }
    }
  }

  lemma {:induction false} SuccessTextsAppend(a: seq<Outcome>, b: seq<Outcome>)
    ensures SuccessTexts(a + b) == SuccessTexts(a) + SuccessTexts(b)
    decreases |a|
  {
    if a == [] {
      assert a + b == b;
    } else {
      assert (a + b)[1..] == a[1..] + b;
      SuccessTextsAppend(a[1..], b);
    }
  }

  lemma {:induction false} JoinSpacedAppend(a: seq<string>, b: seq<string>)
    ensures JoinSpaced(a + b) == JoinSpaced(a) + JoinSpaced(b)
    decreases |a|
  {
    if a == [] {
      assert a + b == b;
    } else {
      assert (a + b)[1..] == a[1..] + b;
      JoinSpacedAppend(a[1..], b);
    }
  }

  /** The transcript is the texts of the recognised chunks, in order, each followed by one space. */
  lemma {:induction false} AssembleIsJoinedSuccesses(outcomes: seq<Outcome>)
    ensures Assemble(outcomes) == JoinSpaced(SuccessTexts(outcomes))
  {
    if outcomes != [] {
      var n := |outcomes|;
      var front, last := outcomes[..n - 1], outcomes[n - 1];
      assert outcomes == front + [last];
      AssembleIsJoinedSuccesses(front);
      SuccessTextsAppend(front, [last]);
      JoinSpacedAppend(SuccessTexts(front), SuccessTexts([last]));
      assert [last][1..] == [];
    }
  }

  /** A transcript that holds something ends with a space. */
  lemma {:induction false} AssembleEndsWithSpace(outcomes: seq<Outcome>)
    requires Assemble(outcomes) != ""
    ensures Assemble(outcomes)[|Assemble(outcomes)| - 1] == ' '
  {
    var n := |outcomes|;
    if !outcomes[n - 1].Success? {
      AssembleEndsWithSpace(outcomes[..n - 1]);
    }
  }

  /** A recognised chunk whose text is empty still leaves one space, so the transcript is written. */
  lemma EmptyRecognitionIsWritten()
    ensures Assemble([Success("")]) == " "
  {
    assert [Success("")][..0] == [];
  }

  // ---------------------------------------------------------------------------
  // Properties of the progress reports.

  /** The percentage grows strictly from one chunk to the next. */
  lemma PercentIncreasing(i: nat, j: nat, total: nat)
    requires i < j < total
    ensures Percent(i, total) < Percent(j, total)
  {
    var n := total as real;
    assert (i + 1) as real / n < (j + 1) as real / n;
  }

  /** No estimate is given after the first chunk, and the estimate after the last is zero. */
  lemma ReportEta(total: nat, elapsed: real)
    requires total > 0
    ensures Report(0, total, elapsed).eta == None
    ensures total > 1 ==> Report(total - 1, total, elapsed) == Progress(100.0, Some(0.0))
  {
  }
}
