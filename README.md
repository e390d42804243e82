# Glove logger: streaming trial segmentation

This project models the capture loop of the ASL glove logger in
`firmware/glove_logger.py`. That loop is the reader that turns the glove
firmware's serial output into a CSV capture file, and the model proves
properties of it in Dafny.

The reader works line by line:

- It strips each decoded line.
- It skips blank lines and the CSV header that the firmware prints again at
  the start of every trial.
- A line counts as a data row only if it has exactly 12 commas and does not
  start with `#`. Such a line is split at its commas, and its last field is
  the trial id.
- The reader keeps two variables: the active trial id and a buffer of rows.
- The first data row adopts its own id.
- A row with a different id writes the whole buffer to the file and starts a
  new buffer under the new id.
- When the buffer reaches 75 rows (one full trial), the buffer is written and
  emptied, and the id is kept.
- Rows still buffered when the stream stops are never written.
- The header row is written once, before the reader starts.

The modules follow that structure:

- `Seqs` (`seqs.dfy`): small facts about slicing and concatenating sequences,
  used by the other modules' proofs.
- `Text` (`text.dfy`): the Python string operations the reader relies on:
  - `str.strip()` over Python's whitespace set;
  - `startswith`;
  - `count` of one character;
  - `split` at a one-character separator, and the comma join that a CSV
    writer performs for unquoted fields.
- `LineClassifier` (`classifier.dfy`):
  - the header constant and the tests the reader applies to each line;
  - the data rows that a stream of lines hands to the segmenter.
- `TrialSegmenter` (`segmenter.dfy`):
  - the reader's two variables as a value (`ReaderState`);
  - the effect of one data row (`Feed`) and of a whole stream of data rows
    (`Segment`);
  - the boundary, quota and conservation properties.
- `GloveLogger` (`logger.dfy`):
  - the CSV writer, as a class whose `rows` field is the file's content;
  - the imperative reader loop `SerialReader`, which keeps the two reader
    variables as locals, as the source does. One pass of its loop body is
    the method `ReadLine`, and the data-row part of that pass is `FeedRow`;
  - the start of a capture, which writes the header once and then runs the
    reader (`Capture`).

Each method is proved against a pure function: `ReadStream` for the loop,
`LineStep` for one pass and `Feed` for one data row. The stated properties
are proved about those functions.

The serial stream is modelled as a finite sequence of lines that are already
decoded. The stream stopping, whether the connection closes, the loop's flag
clears or an exception breaks out of the loop, is the end of that sequence.

## Model

| member | source | states |
|---|---|---|
| Text.Strip | firmware/glove_logger.py:38 | the stripped line neither starts nor ends with whitespace, and it is empty exactly when every character of the line is whitespace |
| Text.StripKeepsMiddle | firmware/glove_logger.py:38 | stripping removes only whitespace, and only from the two ends: the result is a contiguous slice of the line, and everything before and after that slice is whitespace |
| Text.StripIdempotent | firmware/glove_logger.py:38 | stripping a stripped line changes nothing |
| Text.CountIsMultiplicity | firmware/glove_logger.py:49 | the comma count is the number of occurrences of the character in the line |
| Text.Split | firmware/glove_logger.py:50 | splitting gives one more piece than there are separators, no piece holds the separator, and the pieces joined by the separator are the line |
| Text.SplitJoin | firmware/glove_logger.py:50 | splitting the join of separator-free fields gives those fields back |
| LineClassifier.Classify | firmware/glove_logger.py:38-50 | a line is blank exactly when it strips to nothing; it is a stale header exactly when the stripped line starts with `t_s,`; it is a data row exactly when it is neither, has exactly 12 commas and does not start with `#`; a data row has 13 comma-free fields whose join is the stripped line |
| LineClassifier.TrialIdAfterLastSeparator | firmware/glove_logger.py:51 | the trial id of a data row is the last field: the text after the twelfth comma, which holds no comma |
| LineClassifier.ReclassifyData | firmware/glove_logger.py:49-50 | classifying the comma join of a data row's fields gives back the same data row |
| LineClassifier.HeaderIsStale | firmware/glove_logger.py:42-43 | the header constant of line 15 is itself classified as a stale header, so it never reaches the segmenter |
| LineClassifier.HeaderRow | firmware/glove_logger.py:100 | the header row written to the file is the header split at its commas: it starts with `t_s` and joins back to the header |
| LineClassifier.DataRowIsNotHeader | firmware/glove_logger.py:42-50 | no data row equals the header row |
| LineClassifier.AcceptedRow | firmware/glove_logger.py:40-50 | a line contributes one data row exactly when it is classified as data, and never more than one |
| LineClassifier.AcceptedRows | firmware/glove_logger.py:36-50 | a stream contributes at most one row per line, and every row it contributes is a data row |
| TrialSegmenter.Feed | firmware/glove_logger.py:51-73 | after a data row, its id is the active id; the rows written followed by the new buffer are the old buffer followed by the row |
| TrialSegmenter.FeedKeepsValid | firmware/glove_logger.py:57-73 | each data row keeps the buffer below 75 rows, with every buffered row carrying the active id |
| TrialSegmenter.Segment | firmware/glove_logger.py:53-73 | over any stream of data rows, the rows written followed by the buffer are exactly the rows fed, in order: none is lost, repeated or reordered |
| TrialSegmenter.SegmentValid | firmware/glove_logger.py:57-73 | after any stream of data rows, the buffer holds fewer than 75 rows and all of them carry the active id |
| TrialSegmenter.FirstRowAdoptsId | firmware/glove_logger.py:53-54 | with no active id, a data row adopts its own id, is buffered alone and writes nothing |
| TrialSegmenter.IdChangeFlushesPrevious | firmware/glove_logger.py:57-66 | a row with a new id writes the whole buffer, in order: fewer than 75 rows, possibly none, all carrying the previous id; the new buffer holds just that row under the new id |
| TrialSegmenter.SameIdAppends | firmware/glove_logger.py:65-73 | a row with the active id is appended; if that makes 75 rows, all 75 are written in order, the buffer empties and the id stays; otherwise nothing is written |
| TrialSegmenter.StreamEndKeepsPartialTrial | firmware/glove_logger.py:36-77 | when the stream stops, the buffered rows are the last rows fed, fewer than 75, never written; every row before them has been written, in order |
| TrialSegmenter.WrittenGrowsByAppending | firmware/glove_logger.py:59-73 | the file only grows: what a prefix of the stream wrote is a prefix of what the whole stream writes |
| TrialSegmenter.OneTrialUnderQuota | firmware/glove_logger.py:53-66 | fewer than 75 rows with one id write nothing; all of them are buffered under that id |
| TrialSegmenter.OneTrialReachesQuota | firmware/glove_logger.py:69-73 | 75 rows with one id are written exactly once, in order; the buffer ends empty and the id stays active |
| TrialSegmenter.ShortTrialThenNewId | firmware/glove_logger.py:57-66 | a short trial followed by a row with a new id is written when the new id appears, and only the new row is left buffered, under the new id |
| GloveLogger.CsvWriter.WriteRow | firmware/glove_logger.py:60 | writing a row appends it to the file and changes nothing else |
| GloveLogger.SaveRows | firmware/glove_logger.py:59-60 | flushing a buffer, here and again on lines 70-71, appends its rows to the file one after the other, in order |
| GloveLogger.ReadStream | firmware/glove_logger.py:32-77 | for any stream of lines, the rows written followed by the buffer are every data row of the stream, in arrival order, and the buffer holds fewer than 75 rows, all carrying the active id |
| GloveLogger.DataLineFeedsSegmenter | firmware/glove_logger.py:49-73 | a data line is handed to the segmenter after everything the earlier lines did |
| GloveLogger.SkippedLineChangesNothing | firmware/glove_logger.py:40-49 | a blank line, a stale header or any other non-data line leaves both reader variables and the file unchanged |
| GloveLogger.StaleHeaderMidStream | firmware/glove_logger.py:42-43 | the header re-emitted mid-stream, after any lines, changes neither the buffer, nor the active id, nor the file |
| GloveLogger.LineStep | firmware/glove_logger.py:38-73 | for one line, the rows written followed by the new buffer are the old buffer followed by the line's data row, if it has one |
| GloveLogger.ReadStreamStep | firmware/glove_logger.py:36-73 | the reader after one more line is that line's step, applied to the state the earlier lines left |
| GloveLogger.ReadLine | firmware/glove_logger.py:38-73 | one pass of the loop body sets the two reader variables to the line's step and appends, in order, the rows that the step writes |
| GloveLogger.FeedRow | firmware/glove_logger.py:51-73 | the data-row part of a pass sets the two reader variables to the segmenter's step and appends, in order, the rows that step writes |
| GloveLogger.SerialReader | firmware/glove_logger.py:32-77 | the reader loop appends exactly what the segmenter writes for the stream; the file's new rows followed by the final buffer are every data row of the stream, in order |
| GloveLogger.CaptureFile | firmware/glove_logger.py:98-100 | a capture file starts with the header row; every later row is a data row and differs from the header row, so the header row appears exactly once |
| GloveLogger.Capture | firmware/glove_logger.py:98-105 | a capture opens a fresh empty file, writes the header row once and then runs the reader; the file's content is the capture file of the stream |

## Left out

- Port selection, opening the serial port, the file-name prompt, creating the folder and the loop that sends commands (firmware/glove_logger.py:22-29, 83-97, 107-119): interactive I/O.
- The `running` flag, the daemon reader thread and the concurrent writes of commands to the same port (firmware/glove_logger.py:19, 36, 103-105, 111-117): concurrency. The reader runs over a finite sequence of lines, and the loop ending is the end of that sequence.
- Reading from the port and UTF-8 decoding with `errors="ignore"` (firmware/glove_logger.py:38): each line arrives already decoded, as a string.
- The CSV writer's quoting and line endings: the writer is modelled as appending a row of fields to a sequence. A row written this way joins back to its stripped line, since no field holds a comma (`LineClassifier.Classify`, `Text.Join`).
- The `print` diagnostics (firmware/glove_logger.py:46, 61, 72): a side channel that changes no state.
- The exception handler (firmware/glove_logger.py:75-77) is modelled as the stream ending. A `writerow` that fails in the middle of a flush, leaving part of a trial in the file, is not modelled.
- The calibration scripts: separate programs with interactive prompts, floating-point statistics and JSON files.
- The header constant is assembled from its first column `t_s`, the comma, and the remaining column names with their commas. Its value is the header text of firmware/glove_logger.py:15.
- LineClassifier.HeaderRow: proves that the header row starts with `t_s` and joins back to the header. It does not prove that the row has 13 columns.
- The trial id is a string compared only for equality. No numeric meaning is modelled, and nor is id reuse after the firmware's counter wraps around.
