# Chunked speech transcription: a verified model of its scheduling logic

`transcribe.py` transcribes one WAV recording with PocketSphinx. It does not hand
the whole recording to the recogniser. Instead it:

1. picks a chunk size from the recording's duration (30, 60, 120 or 300 seconds);
2. reads the recording as `duration // size + 1` consecutive chunks;
3. recognises the chunks one after another;
4. appends the text of every recognised chunk, followed by one space, to a transcript;
5. prints a progress line after every recognised chunk, with an estimate of the
   remaining time for every chunk but the first of the recording;
6. writes the transcript to a file if it is not empty.

This project models that logic in Dafny and proves what it guarantees.

- `wrappers.dfy` (`Wrappers`): the `Option` type.
- `arithmetic.dfy` (`Arithmetic`): two facts about multiplication and floor division that the other modules use.
- `chunk_planner.dfy` (`ChunkPlanner`): the chunk-size tiers, the chunk count, the chunk lengths, the
  plan as a sequence of `Chunk(index, start, length)`, and `SplitAudio`, the generator loop that reads
  the chunks one after another. The proofs show that the chunks partition `[0, duration)`. The recording
  always ends with one more chunk, whose length is `duration % size`. When the size divides the duration
  this trailing chunk is empty. The model keeps this behaviour as the code has it.
- `time_format.dfy` (`TimeFormat`): `format_time` on whole seconds. It splits the seconds into days,
  hours, minutes and seconds, renders Python's `{n}` and `{n:02d}`, and builds the
  `Estimated remaining: [D days ]HH:MM:SS` text. A parser for that text is proved to read back exactly the
  days, hours, minutes and seconds of the input's normal decomposition.
- `transcription.dfy` (`Transcription`): the four recogniser outcomes, the transcript as a function
  of the outcomes, and the percentage and ETA arithmetic. `RecognizeAll` is the loop over the chunks.
  `TranscribeAudio` plans, runs that loop and decides whether to write.

Durations are whole seconds (`nat`). The recording's duration is a float in the source.
The percentage and the ETA are `real`. The recogniser is a parameter
`recognize: Chunk -> Outcome`: the audio of a chunk is fixed by where it starts and how long it is.
The wall clock is a parameter `elapsedAt: nat -> real`, the seconds elapsed when chunk `i` was recognised.

Three points of the code's behaviour are easy to misread:
- A chunk that fails adds nothing to the transcript. The code does not substitute an error text.
- Every recognised chunk adds its text followed by one space. The transcript therefore ends with a space.
  The texts are not joined with separators between them only.
- A progress line is produced only for a recognised chunk, because the progress code sits inside the
  `try` block after the append. A failed chunk prints its error line instead.

## Model

| member | source | states |
|---|---|---|
| `ChunkPlanner.ChunkSize` | transcribe.py:31-39 | the chunk size is always one of 30, 60, 120 or 300 seconds |
| `ChunkPlanner.ChunkSizeMonotone` | transcribe.py:31-39 | a longer recording never gets a smaller chunk size |
| `ChunkPlanner.ChunkSizeBoundaries` | transcribe.py:32-38 | each tier includes its upper bound: 300 gets 30, 900 gets 60, 1800 gets 120; one second more moves to the next tier |
| `ChunkPlanner.ChunkCount` | transcribe.py:61 | there is at least one chunk, and the count `n` is the floor quotient plus one: `(n-1)*size <= duration < n*size` |
| `ChunkPlanner.ChunkCountUpToHalfHour` | transcribe.py:31-39 | a recording of at most 30 minutes is read in at most 16 chunks |
| `ChunkPlanner.ChunkLength` | transcribe.py:65 | a chunk never exceeds the chunk size and never reads past the end of the recording |
| `ChunkPlanner.Plan` | transcribe.py:61-67 | the generator yields `ChunkCount` chunks; reading starts at offset 0 and the last chunk ends exactly at the duration |
| `ChunkPlanner.PlanIndices` | transcribe.py:61-67 | the plan has `ChunkCount` chunks (at least one); chunk `i` carries index `i` and starts at `i * size` |
| `ChunkPlanner.ChunkLengths` | transcribe.py:61-65 | every chunk but the last is a full chunk; the last holds `duration % size` seconds, less than a chunk, and is empty exactly when the size divides the duration |
| `ChunkPlanner.EmptyRecording` | transcribe.py:61-65 | a recording of 0 seconds gives exactly one chunk, of length 0 |
| `ChunkPlanner.NinetyFiveSeconds` | transcribe.py:60-65 | a 95-second recording is read as four chunks of 30, 30, 30 and 5 seconds |
| `ChunkPlanner.PlanContiguous` | transcribe.py:64-66 | the first chunk starts at 0, each chunk starts where the previous one ends, and the last one ends at the duration |
| `ChunkPlanner.ContiguousTotal` | transcribe.py:64-66 | chunks that follow each other read exactly the seconds from the first start to the last end |
| `ChunkPlanner.PlanTotal` | transcribe.py:64-66 | the chunk lengths add up to the duration |
| `ChunkPlanner.PlanPartition` | transcribe.py:61-67 | a second before the end lies in exactly one chunk, chunk `t / size`; a second past the end lies in none |
| `ChunkPlanner.SplitAudio` | transcribe.py:56-67 | the loop yields exactly the plan, each read continuing where the previous stopped, and it reads the whole recording |
| `TimeFormat.Decompose` | transcribe.py:43-48 | `days*86400 + hours*3600 + minutes*60 + seconds` is the input, with hours below 24 and minutes and seconds below 60 |
| `TimeFormat.DecomposeTotal` | transcribe.py:43-48 | that decomposition is the only one: a normal clock is recovered from its total seconds |
| `TimeFormat.Decimal` | transcribe.py:51 | `{n}` is a non-empty string of digits, one digit exactly for `n < 10`, with a leading zero only for 0 |
| `TimeFormat.ParseDecimalInverse` | transcribe.py:51 | reading the digits of `{n}` back gives `n` |
| `TimeFormat.Pad2` | transcribe.py:51-53 | `{n:02d}` is all digits and exactly two of them for `n < 100` |
| `TimeFormat.Pad2Inverse` | transcribe.py:51-53 | reading a `{n:02d}` field back gives `n` |
| `TimeFormat.ClockText` | transcribe.py:51-53 | `{hours:02d}:{minutes:02d}:{seconds:02d}` of a normal clock is two digits, colon, two digits, colon, two digits |
| `TimeFormat.DaysText` | transcribe.py:50-51 | the `{days} days ` segment is empty exactly when there are no whole days; otherwise it is digits followed by ` days ` |
| `TimeFormat.ClockTextInverse` | transcribe.py:51-53 | each two-digit field of the `HH:MM:SS` part of a normal clock reads back as the hours, minutes and seconds it was printed from |
| `TimeFormat.DaysTextInverse` | transcribe.py:50-51 | the days segment reads back as the number of days, and as 0 when it is omitted |
| `TimeFormat.FormatTime` | transcribe.py:50-53 | the text starts with `Estimated remaining: ` and ends with `HH:MM:SS`; the days segment is absent exactly when the duration is under one day |
| `TimeFormat.FormatTimeInverse` | transcribe.py:42-53 | parsing the text gives back exactly the days, hours, minutes and seconds of the input's unique normal decomposition |
| `TimeFormat.FormatTimeInjective` | transcribe.py:42-53 | two different durations never give the same text |
| `TimeFormat.FormatTimeOneHour` | transcribe.py:42-53 | 3661 seconds give `Estimated remaining: 01:01:01` |
| `TimeFormat.FormatTimeOneDay` | transcribe.py:42-53 | 90000 seconds give `Estimated remaining: 1 days 01:00:00` |
| `Transcription.Contribution` | transcribe.py:92-115 | a chunk adds nothing exactly when it failed; a recognised chunk adds its text and one trailing space |
| `Transcription.Assemble` | transcribe.py:94 | the accumulated transcript after a run of outcomes, in order; its properties are stated in the `Assemble…` lemma rows |
| `Transcription.Report` | transcribe.py:97-108 | the percentage lies in (0, 100], and the estimate is absent exactly for chunk index 0 |
| `Transcription.Percent` | transcribe.py:97 | the percentage is above 0 and at most 100, and it is 100 exactly at the last chunk |
| `Transcription.PercentIncreasing` | transcribe.py:97 | the percentage grows strictly from chunk to chunk |
| `Transcription.Eta` | transcribe.py:100-102 | the estimate is zero at the last chunk and never negative when the elapsed time is not |
| `Transcription.ReportEta` | transcribe.py:97-108 | there is no estimate after the first chunk; after the last chunk of several the report is 100% with 0 seconds remaining |
| `Transcription.ReportFor` | transcribe.py:92-115 | a chunk has a progress report exactly when it was recognised |
| `Transcription.HandleChunk` | transcribe.py:92-115 | one pass of the `try`/`except` body: the piece appended is the chunk's contribution and the report is its progress line, none for a failure |
| `Transcription.RecognizeAll` | transcribe.py:90-115 | after the loop the transcript is the in-order assembly of all the outcomes, and every chunk has its report (none for a failed chunk) |
| `Transcription.TranscribeAudio` | transcribe.py:70-123 | the run has one report per planned chunk; the transcript assembles the outcomes of the planned chunks; it is written exactly when some chunk was recognised |
| `Transcription.AssembleStep` | transcribe.py:94 | one more chunk appends exactly its own contribution to the transcript |
| `Transcription.AssembleAppend` | transcribe.py:90-94 | the transcript of two runs of chunks is the first one's followed by the second one's |
| `Transcription.FailureContributesNothing` | transcribe.py:110-115 | a failed chunk, of any of the three kinds, adds nothing and does not affect the chunks after it |
| `Transcription.AssembleNonEmpty` | transcribe.py:118-123 | the transcript is non-empty exactly when some chunk was recognised |
| `Transcription.AssembleIsJoinedSuccesses` | transcribe.py:90-94 | the transcript is the texts of the recognised chunks in chunk order, each followed by one space |
| `Transcription.AssembleEndsWithSpace` | transcribe.py:94 | a non-empty transcript ends with a space |
| `Transcription.EmptyRecognitionIsWritten` | transcribe.py:94 | a recognised chunk with empty text still leaves `" "`, so the transcript is written |

## Left out

- The recogniser calls (`sr.Recognizer`, `sr.AudioFile`, `recognizer.record`, `recognize_sphinx`) are foreign library code. The recogniser is the parameter `recognize`, and the audio it hears is the chunk descriptor.
- `time.time()` is the parameter `elapsedAt`. The model does not measure time.
- Console output, `os.path.basename`, and writing the file are I/O. Only the decision whether to write is modelled. The written content is the transcript.
- The module-level paths, the global recogniser and the call at the bottom of the file are configuration. They are not modelled.
- The duration is a float in the source. The model takes whole seconds, and with whole seconds the source's floor division and `min` agree with the model.
- `TimeFormat.FormatTime` covers whole seconds only. The source formats a float ETA and rounds the seconds field. That rounding can yield `60` (for example from 59.6 s), and the model does not show it.
- The source prints the ETA with `format_time`. The model reports the ETA as a number and does not connect it to `FormatTime`, because that ETA is fractional.
- The `:.2f` rendering of the percentage and float rounding in the percentage and ETA are not modelled. Both are exact reals here.
- The file has no concurrency: chunks are recognised one after another.
