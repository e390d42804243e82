/**
 * The trial-segmentation state machine of the serial reader, as values: the
 * two variables the reader keeps between data rows, the effect of one data
 * row, and the effect of all data rows of a stream. The imperative reader in
 * module GloveLogger is proved to follow these functions.
 */
module TrialSegmenter {
  import opened Wrappers
  import opened LineClassifier
  import opened Seqs

  /** Rows in a full trial: reaching this many buffered rows flushes the buffer. */
  const RowsPerTrial: nat := 75

  /** The reader's two variables: the active trial id and the buffered rows of the current trial. */
  datatype ReaderState = ReaderState(trialIdActive: Option<string>, currentRows: seq<Row>)

  /** The state before the first line: no active id, nothing buffered. */
  const Initial: ReaderState := ReaderState(None, [])

  /** The state after some rows, and the rows they made the reader write, in order. */
  datatype StepResult = StepResult(next: ReaderState, written: seq<Row>)

  /** Every row has at least one field, so it has a trial id. */
  predicate HasIds(rows: seq<Row>) {
    forall i :: 0 <= i < |rows| ==> rows[i] != []
  }

  /**
   * What holds of the reader's state between lines: fewer than a full trial
   * is buffered, and every buffered row carries the active id.
   */
  predicate Valid(st: ReaderState) {
    && |st.currentRows| < RowsPerTrial
    && (forall i :: 0 <= i < |st.currentRows| ==>
          st.currentRows[i] != [] && st.trialIdActive == Some(TrialId(st.currentRows[i])))
  }

  /**
   * The reader's handling of one data row: adopt the first id, flush the
   * buffer under the previous id when the id changes, append the row, and
   * flush a full trial while keeping the id.
   */
  function Feed(st: ReaderState, parts: Row): (r: StepResult)
    requires parts != []
    ensures r.next.trialIdActive == Some(TrialId(parts))
    ensures r.written + r.next.currentRows == st.currentRows + [parts]
  {
    var tid := TrialId(parts);
    var active := if st.trialIdActive.None? then tid else st.trialIdActive.value;
    var changed := tid != active;
    var saved := if changed then st.currentRows else [];
    var rows := (if changed then [] else st.currentRows) + [parts];
    if |rows| == RowsPerTrial then
      StepResult(ReaderState(Some(tid), []), saved + rows)
    else
      StepResult(ReaderState(Some(tid), rows), saved)
  }

  /**
   * The segmenter over data rows from the initial state: the final state and
   * everything written. The written rows followed by the buffer are exactly
   * the rows fed, in order: none is lost, repeated or reordered.
   */
  function Segment(rows: seq<Row>): (r: StepResult)
    requires HasIds(rows)
    ensures r.written + r.next.currentRows == rows
    decreases |rows|
  {
    if rows == [] then StepResult(Initial, [])
    else
      assert HasIds(rows[..|rows| - 1]);
      var prev := Segment(rows[..|rows| - 1]);
      var last := Feed(prev.next, rows[|rows| - 1]);
      Regroup(prev.written, prev.next.currentRows, last.written, last.next.currentRows,
              [rows[|rows| - 1]]);
      InitLast(rows);
      StepResult(last.next, prev.written + last.written)
  }

  /** Each data row keeps the state valid: the buffer never holds a full trial between rows. */
  lemma FeedKeepsValid(st: ReaderState, parts: Row)
    requires Valid(st) && parts != []
    ensures Valid(Feed(st, parts).next)
  {
  }

  /** After any stream of rows the buffer is below a full trial and all of it carries the active id. */
  lemma {:induction false} SegmentValid(rows: seq<Row>)
    requires HasIds(rows)
    ensures Valid(Segment(rows).next)
    decreases |rows|
  {
    if rows != [] {
      var m := |rows| - 1;
      assert HasIds(rows[..m]);
      SegmentValid(rows[..m]);
      FeedKeepsValid(Segment(rows[..m]).next, rows[m]);
    }
  }

  /** A valid state with rows buffered has an active id. */
  lemma BufferedRowsHaveId(st: ReaderState)
    requires Valid(st)
    ensures st.trialIdActive.None? ==> st.currentRows == []
  {
    if st.currentRows != [] {
      assert st.trialIdActive == Some(TrialId(st.currentRows[0]));
    }
  }

  /** The first data row of the stream adopts its own id and flushes nothing. */
  lemma FirstRowAdoptsId(st: ReaderState, parts: Row)
    requires Valid(st) && st.trialIdActive.None? && parts != []
    ensures Feed(st, parts) == StepResult(ReaderState(Some(TrialId(parts)), [parts]), [])
  {
    BufferedRowsHaveId(st);
  }

  /**
   * A data row whose id differs from the active one writes the whole buffer,
   * in order and all under the previous id, and starts a new buffer holding
   * just that row under the new id.
   */
  lemma IdChangeFlushesPrevious(st: ReaderState, parts: Row)
    requires Valid(st) && st.trialIdActive.Some?
    requires parts != [] && TrialId(parts) != st.trialIdActive.value
    ensures var r := Feed(st, parts);
            && r.written == st.currentRows
            && |r.written| < RowsPerTrial
            && (forall i :: 0 <= i < |r.written| ==> Some(TrialId(r.written[i])) == st.trialIdActive)
            && r.next == ReaderState(Some(TrialId(parts)), [parts])
  {
  }

  /**
   * A data row carrying the active id is appended; if that fills a trial, all
   * of its rows are written in order, the buffer empties and the id stays.
   */
  lemma SameIdAppends(st: ReaderState, parts: Row)
    requires Valid(st) && st.trialIdActive.Some?
    requires parts != [] && TrialId(parts) == st.trialIdActive.value
    ensures var rows, r := st.currentRows + [parts], Feed(st, parts);
            if |rows| == RowsPerTrial then
              r == StepResult(ReaderState(st.trialIdActive, []), rows)
            else
              r == StepResult(ReaderState(st.trialIdActive, rows), [])
  {
  }

  /**
   * When the stream stops, the rows still buffered are the last rows fed and
   * are never written: everything before them is, in order, and they are
   * fewer than a full trial.
   */
  lemma StreamEndKeepsPartialTrial(rows: seq<Row>)
    requires HasIds(rows)
    ensures var r := Segment(rows);
            && |r.written| <= |rows|
            && r.written == rows[..|r.written|]
            && r.next.currentRows == rows[|r.written|..]
            && |rows| - |r.written| < RowsPerTrial
  {
    var r := Segment(rows);
    SegmentValid(rows);
    assert rows[..|r.written|] == (r.written + r.next.currentRows)[..|r.written|];
    assert rows[|r.written|..] == (r.written + r.next.currentRows)[|r.written|..];
  }

  /** A prefix of rows that all have ids. */
  lemma HasIdsPrefix(rows: seq<Row>, k: nat)
    requires HasIds(rows) && k <= |rows|
    ensures HasIds(rows[..k])
  {
    forall i | 0 <= i < k ensures rows[..k][i] != [] {
      assert rows[..k][i] == rows[i];
    }
  }

  /** `a` is the start of `b`. */
  predicate IsPrefix(a: seq<Row>, b: seq<Row>) {
    |a| <= |b| && b[..|a|] == a
  }

  /** The writer is append-only: what the first `k` rows wrote stays the start of what all rows write. */
  lemma {:induction false} WrittenGrowsByAppending(rows: seq<Row>, k: nat)
    requires HasIds(rows) && k <= |rows|
    ensures HasIds(rows[..k])
    ensures IsPrefix(Segment(rows[..k]).written, Segment(rows).written)
    decreases |rows|
  {
    if k == |rows| {
      PrefixAll(rows);
      PrefixReflexive(Segment(rows).written);
    } else {
      var init := rows[..|rows| - 1];
      LastRowAppends(rows);
      WrittenGrowsByAppending(init, k);
      PrefixOfPrefix(rows, |rows| - 1, k);
      PrefixTransitive(Segment(rows[..k]).written, Segment(init).written, Segment(rows).written);
    }
  }

  /** The last row of a stream only appends to what the rows before it wrote. */
  lemma LastRowAppends(rows: seq<Row>)
    requires HasIds(rows) && rows != []
    ensures HasIds(rows[..|rows| - 1])
    ensures IsPrefix(Segment(rows[..|rows| - 1]).written, Segment(rows).written)
  {
    SegmentLast(rows);
    var prev := Segment(rows[..|rows| - 1]);
    var last := Feed(prev.next, rows[|rows| - 1]);
    ConcatPrefix(prev.written, last.written);
  }

  /** Every sequence is a prefix of itself. */
  lemma PrefixReflexive(a: seq<Row>)
    ensures IsPrefix(a, a)
  {
    PrefixAll(a);
  }

  /** Being a prefix is transitive. */
  lemma PrefixTransitive(a: seq<Row>, b: seq<Row>, c: seq<Row>)
    requires IsPrefix(a, b)
    requires IsPrefix(b, c)
    ensures IsPrefix(a, c)
  {
    PrefixOfPrefix(c, |b|, |a|);
  }

  /** The effect of the last row of a stream, one data row after the rest. */
  lemma SegmentLast(rows: seq<Row>)
    requires HasIds(rows) && rows != []
    ensures HasIds(rows[..|rows| - 1])
    ensures var prev := Segment(rows[..|rows| - 1]);
            var last := Feed(prev.next, rows[|rows| - 1]);
            Segment(rows) == StepResult(last.next, prev.written + last.written)
  {
    assert HasIds(rows[..|rows| - 1]);
  }

  /** The effect of one more data row after a stream of them. */
  lemma SegmentSnoc(rows: seq<Row>, parts: Row)
    requires HasIds(rows) && parts != []
    ensures HasIds(rows + [parts])
    ensures var prev := Segment(rows);
            var last := Feed(prev.next, parts);
            Segment(rows + [parts]) == StepResult(last.next, prev.written + last.written)
  {
    var extended := rows + [parts];
    assert HasIds(extended) by {
      forall i | 0 <= i < |extended| ensures extended[i] != [] {
        if i < |rows| {
          assert extended[i] == rows[i];
        }
      }
    }
    SegmentLast(extended);
    ConcatPrefix(rows, [parts]);
  }

  /** Every row carries the id `tid`. */
  predicate AllInTrial(rows: seq<Row>, tid: string) {
    forall i :: 0 <= i < |rows| ==> rows[i] != [] && TrialId(rows[i]) == tid
  }

  /** Fewer rows than a full trial, all with one id: nothing is written and all of them are buffered. */
  lemma {:induction false} OneTrialUnderQuota(rows: seq<Row>, tid: string)
    requires AllInTrial(rows, tid) && |rows| < RowsPerTrial
    ensures HasIds(rows)
    ensures Segment(rows) == StepResult(ReaderState(if rows == [] then None else Some(tid), rows), [])
    decreases |rows|
  {
    if rows != [] {
      var m := |rows| - 1;
      AllInTrialInit(rows, tid);
      OneTrialUnderQuota(rows[..m], tid);
      SegmentLast(rows);
      FeedInTrial(rows[..m], tid, rows[m]);
      InitLast(rows);
    }
  }

  /** Dropping the last row keeps every row in the trial; the last row carries the trial's id. */
  lemma AllInTrialInit(rows: seq<Row>, tid: string)
    requires AllInTrial(rows, tid) && rows != []
    ensures HasIds(rows)
    ensures AllInTrial(rows[..|rows| - 1], tid)
    ensures rows[|rows| - 1] != [] && TrialId(rows[|rows| - 1]) == tid
  {
    var init := rows[..|rows| - 1];
    forall i | 0 <= i < |init| ensures init[i] != [] && TrialId(init[i]) == tid {
      assert init[i] == rows[i];
    }
  }

  /** One more row of the buffered trial, short of a full trial, is appended and writes nothing. */
  lemma FeedInTrial(init: seq<Row>, tid: string, parts: Row)
    requires |init| + 1 < RowsPerTrial
    requires parts != [] && TrialId(parts) == tid
    ensures Feed(ReaderState(if init == [] then None else Some(tid), init), parts)
         == StepResult(ReaderState(Some(tid), init + [parts]), [])
  {
  }

  /** A full trial of rows with one id is written exactly once, in order, and the id stays active. */
  lemma OneTrialReachesQuota(rows: seq<Row>, tid: string)
    requires AllInTrial(rows, tid) && |rows| == RowsPerTrial
    ensures HasIds(rows)
    ensures Segment(rows) == StepResult(ReaderState(Some(tid), []), rows)
  {
    var m := |rows| - 1;
    AllInTrialInit(rows, tid);
    OneTrialUnderQuota(rows[..m], tid);
    SegmentLast(rows);
    assert Feed(ReaderState(Some(tid), rows[..m]), rows[m]) == StepResult(ReaderState(Some(tid), []), rows[..m] + [rows[m]]);
    InitLast(rows);
  }

  /**
   * A short trial followed by a row with a new id: the short trial is
   * written, under its own id, at the moment the new id appears, and the new
   * row alone is buffered under the new id.
   */
  lemma ShortTrialThenNewId(rows: seq<Row>, tid: string, parts: Row)
    requires AllInTrial(rows, tid) && 0 < |rows| < RowsPerTrial
    requires parts != [] && TrialId(parts) != tid
    ensures Segment(rows + [parts]) == StepResult(ReaderState(Some(TrialId(parts)), [parts]), rows)
  {
    OneTrialUnderQuota(rows, tid);
    SegmentSnoc(rows, parts);
  }

  /** Moving the buffer boundary: if `c + d == b + e` then `a + c + d == (a + b) + e`. */
  lemma Regroup<T>(a: seq<T>, b: seq<T>, c: seq<T>, d: seq<T>, e: seq<T>)
    requires c + d == b + e
    ensures a + c + d == (a + b) + e
  {
    Associative(a, c, d);
    Associative(a, b, e);
  }
}
