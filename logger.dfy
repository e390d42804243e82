/**
 * The logger itself: the CSV writer of the capture file, the serial reader
 * loop that classifies each decoded line and segments the data rows into
 * trials, and the start of a capture, which writes the header row once and
 * then hands the writer to the reader.
 */
module GloveLogger {
  import opened Wrappers
  import opened Text
  import opened LineClassifier
  import opened TrialSegmenter
  import opened Seqs

  /** The capture file as seen through its CSV writer: the rows written so far, in order. */
  class CsvWriter {
    var rows: seq<Row>

    /** A freshly opened (truncated) file. */
    constructor ()
      ensures rows == []
    {
      rows := [];
    }

    /** Appends one row to the file. */
    method WriteRow(r: Row)
      modifies this
      ensures rows == old(rows) + [r]
    {
      rows := rows + [r];
    }
  }

  /** Writes buffered rows one after the other, in order. */
  method SaveRows(writer: CsvWriter, rows: seq<Row>)
    modifies writer
    ensures writer.rows == old(writer.rows) + rows
  {
    for k := 0 to |rows|
      invariant writer.rows == old(writer.rows) + rows[..k]
    {
      writer.WriteRow(rows[k]);
      PrefixSnoc(rows, k);
    }
    PrefixAll(rows);
  }

  /**
   * The reader over a stream of decoded lines: its data rows, segmented. The
   * rows written followed by the rows still buffered are every data row of
   * the stream, in order, and the buffer holds less than a full trial.
   */
  function ReadStream(lines: seq<string>): (r: StepResult)
    ensures r.written + r.next.currentRows == AcceptedRows(lines)
    ensures Valid(r.next)
  {
    var rows := AcceptedRows(lines);
    assert HasIds(rows);
    SegmentValid(rows);
    Segment(rows)
  }

  /** A data line is fed to the segmenter after everything the lines before it did. */
  lemma DataLineFeedsSegmenter(lines: seq<string>, line: string)
    requires Classify(line).Data?
    ensures var prev := ReadStream(lines);
            var last := Feed(prev.next, Classify(line).fields);
            ReadStream(lines + [line]) == StepResult(last.next, prev.written + last.written)
  {
    AcceptedRowsSnoc(lines, line);
    assert HasIds(AcceptedRows(lines));
    SegmentSnoc(AcceptedRows(lines), Classify(line).fields);
  }

  /** Blank lines, re-emitted headers and every other non-data line change neither reader variable and write nothing. */
  lemma SkippedLineChangesNothing(lines: seq<string>, line: string)
    requires !Classify(line).Data?
    ensures ReadStream(lines + [line]) == ReadStream(lines)
  {
    AcceptedRowsSnoc(lines, line);
    EmptyConcat(AcceptedRows(lines));
  }

  /** The header line re-emitted mid-stream, after any lines, leaves the buffer, the active id and the file as they were. */
  lemma StaleHeaderMidStream(lines: seq<string>)
    ensures ReadStream(lines + [Header]) == ReadStream(lines)
  {
    HeaderIsStale();
    SkippedLineChangesNothing(lines, Header);
  }

  /**
   * The effect of one decoded line on the reader's two variables: a data
   * line is fed to the segmenter, any other line is skipped. What it writes
   * followed by the new buffer is the old buffer and the line's data row.
   */
  function LineStep(st: ReaderState, raw: string): (r: StepResult)
    ensures r.written + r.next.currentRows == st.currentRows + AcceptedRow(raw)
  {
    match Classify(raw)
    case Data(fields) => Feed(st, fields)
    case _ => StepResult(st, [])
  }

  /** The reader after one more decoded line: the line's step from the state the earlier lines left. */
  lemma ReadStreamStep(lines: seq<string>, line: string)
    ensures var prev := ReadStream(lines);
            var last := LineStep(prev.next, line);
            ReadStream(lines + [line]) == StepResult(last.next, prev.written + last.written)
  {
    if Classify(line).Data? {
      DataLineFeedsSegmenter(lines, line);
    } else {
      SkippedLineChangesNothing(lines, line);
    }
  }

  /**
   * One pass of the reader loop over a decoded line: strip it, skip it if it
   * is blank or a re-emitted header, and hand it to the segmenter if it has
   * the shape of a data row; skip it otherwise.
   */
  method ReadLine(raw: string, trialIdActive: Option<string>, currentRows: seq<Row>, writer: CsvWriter)
      returns (newIdActive: Option<string>, newRows: seq<Row>)
    modifies writer
    ensures ReaderState(newIdActive, newRows) == LineStep(ReaderState(trialIdActive, currentRows), raw).next
    ensures writer.rows == old(writer.rows) + LineStep(ReaderState(trialIdActive, currentRows), raw).written
  {
    newIdActive, newRows := trialIdActive, currentRows;
    var line := Strip(raw);
    if line == [] {
      return;
    }
    if StartsWith(line, HeaderPrefix) {
      return;
    }
    if Count(line, Separator) == DataSeparators && !StartsWith(line, CommentMarker) {
      var parts := Split(line, Separator);
      DataLineFields(raw);
      newIdActive, newRows := FeedRow(parts, trialIdActive, currentRows, writer);
    }
  }

  /**
   * The segmenting part of the reader loop for one data row: adopt the first
   * id, flush the buffer when the id changes and switch to the new id, append
   * the row, and flush a full trial.
   */
  method FeedRow(parts: Row, trialIdActive: Option<string>, currentRows: seq<Row>, writer: CsvWriter)
      returns (newIdActive: Option<string>, newRows: seq<Row>)
    requires parts != []
    modifies writer
    ensures ReaderState(newIdActive, newRows) == Feed(ReaderState(trialIdActive, currentRows), parts).next
    ensures writer.rows == old(writer.rows) + Feed(ReaderState(trialIdActive, currentRows), parts).written
  {
    newIdActive, newRows := trialIdActive, currentRows;
    var tid := parts[|parts| - 1];
    if newIdActive == None {
      newIdActive := Some(tid);
    }
    if newIdActive != Some(tid) {
      SaveRows(writer, newRows);
      newRows := [];
      newIdActive := Some(tid);
    }
    newRows := newRows + [parts];
    if |newRows| == RowsPerTrial {
      SaveRows(writer, newRows);
      newRows := [];
    }
  }

  /**
   * The reader loop over a finite stream of decoded lines. Rows left in the
   * buffer when the stream stops are never written.
   */
  method SerialReader(lines: seq<string>, writer: CsvWriter)
    modifies writer
    ensures writer.rows == old(writer.rows) + ReadStream(lines).written
    ensures writer.rows + ReadStream(lines).next.currentRows == old(writer.rows) + AcceptedRows(lines)
  {
    var currentRows: seq<Row> := [];
    var trialIdActive: Option<string> := None;
    ghost var done := ReadStream([]);
    for n := 0 to |lines|
      invariant done == ReadStream(lines[..n])
      invariant ReaderState(trialIdActive, currentRows) == done.next
      invariant writer.rows == old(writer.rows) + done.written
    {
      PrefixSnoc(lines, n);
      ReadStreamStep(lines[..n], lines[n]);
      ghost var step := LineStep(done.next, lines[n]);
      Associative(old(writer.rows), done.written, step.written);
      trialIdActive, currentRows := ReadLine(lines[n], trialIdActive, currentRows, writer);
      done := StepResult(step.next, done.written + step.written);
    }
    PrefixAll(lines);
    Associative(old(writer.rows), done.written, done.next.currentRows);
  }

  /**
   * The capture file after a stream: the header row, then what the reader
   * wrote. The header row is first and appears exactly once.
   */
  function CaptureFile(lines: seq<string>): (file: seq<Row>)
    ensures |file| >= 1 && file[0] == HeaderRow()
    ensures forall i :: 1 <= i < |file| ==> IsDataRow(file[i]) && file[i] != HeaderRow()
    ensures multiset(file)[HeaderRow()] == 1
  {
    var r := ReadStream(lines);
    ConcatElements(r.written, r.next.currentRows);
    assert !IsDataRow(HeaderRow());
    HeaderFirstAndOnce(HeaderRow(), r.written);
    [HeaderRow()] + r.written
  }

  /** A row that is not a data row, put before data rows, comes first and appears exactly once. */
  lemma HeaderFirstAndOnce(h: Row, w: seq<Row>)
    requires !IsDataRow(h)
    requires forall i :: 0 <= i < |w| ==> IsDataRow(w[i])
    ensures forall i :: 1 <= i < |[h] + w| ==> IsDataRow(([h] + w)[i]) && ([h] + w)[i] != h
    ensures multiset([h] + w)[h] == 1
  {
    var file := [h] + w;
    forall i | 1 <= i < |file| ensures IsDataRow(file[i]) && file[i] != h {
      assert file[i] == w[i - 1];
    }
    assert h !in multiset(w);
  }

  /** Starting a capture: open an empty file, write the header row once, then run the reader on the stream. */
  method Capture(lines: seq<string>) returns (writer: CsvWriter)
    ensures fresh(writer)
    ensures writer.rows == CaptureFile(lines)
  {
    writer := new CsvWriter();
    writer.WriteRow(HeaderRow());
    assert writer.rows == [HeaderRow()];
    SerialReader(lines, writer);
    assert writer.rows == [HeaderRow()] + ReadStream(lines).written;
  }
}
