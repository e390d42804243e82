/**
 * How the reader sorts each decoded serial line: blank, a re-emitted CSV
 * header, a data row of the glove firmware, or anything else (comments,
 * diagnostics, short or long rows).
 */
module LineClassifier {
  import opened Seqs
  import opened Text

  const Separator: char := ','
  /** The first column of the CSV header: the time stamp. */
  const TimeColumn: string := "t_s"
  /** A stripped line starting with this is a re-emitted header and is skipped. */
  const HeaderPrefix: string := TimeColumn + [Separator]
  /** The CSV header after its first column and separator. */
  const HeaderRest: string :=
    "flex1," + "flex2," + "flex3," + "flex4," + "flex5," + "roll_deg," + "pitch_deg," +
    "ax_g," + "ay_g," + "az_g," + "label," + "trial_id"
  /** The CSV header of a capture file; the firmware also prints it at the start of every trial. */
  const Header: string := HeaderPrefix + HeaderRest

  /** A line starting with this is never a data row. */
  const CommentMarker: string := "#"
  /** A data row of the firmware has exactly this many separators, hence one more field. */
  const DataSeparators: nat := 12
  const DataFields: nat := DataSeparators + 1

  /** One row of the capture file: its fields in order. */
  type Row = seq<string>

  datatype LineKind = Empty | StaleHeader | Data(fields: Row) | Other

  /** The fields of a data row: as many as the schema has, none holding a separator, the first not the header's first column. */
  predicate IsDataRow(fields: Row) {
    && |fields| == DataFields
    && (forall i :: 0 <= i < |fields| ==> Separator !in fields[i])
    && fields[0] != TimeColumn
  }

  /** The trial id of a row: its last field, compared only for equality. */
  function TrialId(fields: Row): string
    requires fields != []
  {
    fields[|fields| - 1]
  }

  /** The tests the reader applies, in order, to one decoded line. */
  function Classify(raw: string): (k: LineKind)
    ensures k.Empty? <==> Strip(raw) == []
    ensures k.StaleHeader? <==> Strip(raw) != [] && StartsWith(Strip(raw), HeaderPrefix)
    ensures k.Data? <==>
              && Strip(raw) != []
              && !StartsWith(Strip(raw), HeaderPrefix)
              && Count(Strip(raw), Separator) == DataSeparators
              && !StartsWith(Strip(raw), CommentMarker)
    ensures k.Data? ==> IsDataRow(k.fields) && Join(k.fields, Separator) == Strip(raw)
  {
    var line := Strip(raw);
    if line == [] then Empty
    else if StartsWith(line, HeaderPrefix) then StaleHeader
    else if Count(line, Separator) == DataSeparators && !StartsWith(line, CommentMarker) then
      HeaderColumnFirst(line);
      Data(Split(line, Separator))
    else Other
  }

  /** A line whose first field is the header's first column starts with the header prefix. */
  lemma HeaderColumnFirst(line: string)
    requires Count(line, Separator) > 0
    ensures Split(line, Separator)[0] == TimeColumn ==> StartsWith(line, HeaderPrefix)
  {
    var parts := Split(line, Separator);
    if parts[0] == TimeColumn {
      assert line == HeaderPrefix + Join(parts[1..], Separator);
      ConcatPrefix(HeaderPrefix, Join(parts[1..], Separator));
    }
  }

  /** The trial id is the text after the last separator of the stripped line. */
  lemma TrialIdAfterLastSeparator(raw: string)
    requires Classify(raw).Data?
    ensures var fields := Classify(raw).fields;
            && Strip(raw) == Join(fields[..DataSeparators], Separator) + [Separator] + TrialId(fields)
            && Separator !in TrialId(fields)
  {
    JoinLast(Classify(raw).fields, Separator);
  }

  /** Classifying the comma join of a data row's fields gives the same data row back. */
  lemma ReclassifyData(raw: string)
    requires Classify(raw).Data?
    ensures Classify(Join(Classify(raw).fields, Separator)) == Classify(raw)
  {
    StripIdempotent(raw);
    var line := Strip(raw);
    assert Join(Classify(raw).fields, Separator) == line;
  }

  /** The header constant is itself a stale header, so it never reaches the segmenter. */
  lemma HeaderIsStale()
    ensures Classify(Header) == StaleHeader
  {
    assert Header[0] == HeaderPrefix[0] == 't';
    assert Header[|Header| - 1] == HeaderRest[|HeaderRest| - 1] == 'd';
    assert SpanStart(Header, 0) == 0;
    assert SpanEnd(Header, 0, |Header|) == |Header|;
    assert Strip(Header) == Header[0..|Header|] == Header;
    ConcatPrefix(HeaderPrefix, HeaderRest);
  }

  /** The header row the logger writes is the header split at its commas: `t_s` first, joining back to the header. */
  function HeaderRow(): (r: Row)
    ensures |r| > 0 && r[0] == TimeColumn
    ensures Join(r, Separator) == Header
  {
    HeaderFirstColumn();
    Split(Header, Separator)
  }

  /** The first piece of the header is its first column name. */
  lemma HeaderFirstColumn()
    ensures Split(Header, Separator)[0] == TimeColumn
  {
    Associative(TimeColumn, [Separator], HeaderRest);
    SplitPrefix(TimeColumn, [Separator] + HeaderRest, Separator);
    ConsParts(Separator, HeaderRest);
    EmptyConcat(TimeColumn);
  }

  /** No data row equals the header row. */
  lemma DataRowIsNotHeader(fields: Row)
    requires IsDataRow(fields)
    ensures fields != HeaderRow()
  {
  }

  /** A line that passes the reader's tests is a data line whose fields are the pieces of the stripped line. */
  lemma DataLineFields(raw: string)
    requires Strip(raw) != [] && !StartsWith(Strip(raw), HeaderPrefix)
    requires Count(Strip(raw), Separator) == DataSeparators && !StartsWith(Strip(raw), CommentMarker)
    ensures Classify(raw) == Data(Split(Strip(raw), Separator))
  {
  }

  /** The data row a line hands to the segmenter, if any. */
  function AcceptedRow(line: string): (rows: seq<Row>)
    ensures |rows| <= 1
    ensures rows != [] <==> Classify(line).Data?
    ensures forall i :: 0 <= i < |rows| ==> IsDataRow(rows[i])
  {
    match Classify(line)
    case Data(fields) => [fields]
    case _ => []
  }

  /** Every data row of a stream of decoded lines, in arrival order: what reaches the segmenter. */
  function AcceptedRows(lines: seq<string>): (rows: seq<Row>)
    ensures |rows| <= |lines|
    ensures forall i :: 0 <= i < |rows| ==> IsDataRow(rows[i])
    decreases |lines|
  {
    if lines == [] then []
    else AcceptedRows(lines[..|lines| - 1]) + AcceptedRow(lines[|lines| - 1])
  }

  /** One more decoded line contributes its own data row, if any, after those of the lines before it. */
  lemma AcceptedRowsSnoc(lines: seq<string>, line: string)
    ensures AcceptedRows(lines + [line]) == AcceptedRows(lines) + AcceptedRow(line)
  {
    ConcatPrefix(lines, [line]);
  }
}
