/**
 * The response file as an abstract store: absent, or a CSV table with a
 * header and positional records. Loading reads records by column name and
 * defaults missing columns to ""; appending adds one record at the end;
 * purging removes the file. Bytes, quoting and the BOM are not modelled.
 */
module Store {
  import opened Wrappers
  import opened Rows

  /** A CSV table: column names, then one list of cells per record. */
  datatype Csv = Csv(header: seq<string>, records: seq<seq<string>>)

  /** The response file: None while it does not exist. */
  type Store = Option<Csv>

  /** Why a file could not be read: record `record` (0-based, after the
      header) has more cells than the header has columns. */
  datatype LoadError = TooManyFields(record: nat)

  /** `p` is the first position of `column` in `header`. */
  predicate FirstAt(header: seq<string>, column: string, p: int) {
    && 0 <= p < |header| && header[p] == column
    && forall q :: 0 <= q < p ==> header[q] != column
  }

  /** Where a column sits in the header: its first occurrence (a repeated
      header name is renamed by the reader, so only the first keeps it). */
  function Position(header: seq<string>, column: string): (r: Option<nat>)
    ensures r.None? <==> column !in header
    ensures r.Some? ==> FirstAt(header, column, r.value)
  {
    if |header| == 0 then None
    else if header[0] == column then Some(0)
    else match Position(header[1..], column)
      case None => None
      case Some(p) => Some(p + 1)
  }

  /** The text of one column of one record: "" when the header lacks the
      column or the record stops short of it. */
  function Cell(header: seq<string>, record: seq<string>, column: string): string {
    match Position(header, column)
    case None => ""
    case Some(p) => if p < |record| then record[p] else ""
  }

  /** One record read as a row: each of the five columns by name. */
  function ReadRecord(header: seq<string>, record: seq<string>): (r: Row)
    ensures forall k :: 0 <= k < |Columns| && Columns[k] !in header ==> Field(r, Columns[k]) == ""
    ensures forall k, p :: 0 <= k < |Columns| && FirstAt(header, Columns[k], p)
              ==> Field(r, Columns[k]) == (if p < |record| then record[p] else "")
  {
    FirstAtIsPosition(header);
    FromFields(c => Cell(header, record, c))
  }

  /** The first position of a column is the one `Position` finds. */
  lemma FirstAtIsPosition(header: seq<string>)
    ensures forall c, p :: FirstAt(header, c, p) ==> Position(header, c) == Some(p)
  {
    forall c, p | FirstAt(header, c, p) ensures Position(header, c) == Some(p) {
      var q := Position(header, c).value;
      assert !(q < p) && !(p < q);
    }
  }

  /** The first record with more cells than the header, if any. */
  function FirstRagged(header: seq<string>, records: seq<seq<string>>): (r: Option<nat>)
    ensures r.None? <==> forall k :: 0 <= k < |records| ==> |records[k]| <= |header|
    ensures r.Some? ==> r.value < |records| && |records[r.value]| > |header|
    ensures r.Some? ==> forall k :: 0 <= k < r.value ==> |records[k]| <= |header|
  {
    if |records| == 0 then None
    else if |records[0]| > |header| then Some(0)
    else match FirstRagged(header, records[1..])
      case None => None
      case Some(k) => Some(k + 1)
  }

  /** Every record has at most as many cells as the header. */
  predicate Parsable(f: Csv) {
    forall k :: 0 <= k < |f.records| ==> |f.records[k]| <= |f.header|
  }

  /** Reading the store: no file reads as no rows; a file reads as one row
      per record, in file order, unless a record has more cells than the
      header has columns. */
  function Load(s: Store): (r: Result<seq<Row>, LoadError>)
    ensures s.None? ==> r == Success([])
    ensures s.Some? ==> (r.Success? <==> Parsable(s.value))
    ensures s.Some? && r.Success? ==> |r.value| == |s.value.records|
    ensures s.Some? && r.Failure? ==>
      r.error.record < |s.value.records| && |s.value.records[r.error.record]| > |s.value.header|
  {
    match s
    case None => Success([])
    case Some(f) =>
      match FirstRagged(f.header, f.records)
      case Some(k) => Failure(TooManyFields(k))
      case None => Success(ReadAll(f))
  }

  /** Every record of a file read as a row, in file order: a column absent
      from the header reads as "" in every row, and a present column keeps
      the cell at its position ("" past the end of a short record). */
  function ReadAll(f: Csv): (rows: seq<Row>)
    ensures |rows| == |f.records|
    ensures forall i, k :: 0 <= i < |rows| && 0 <= k < |Columns| && Columns[k] !in f.header
              ==> Field(rows[i], Columns[k]) == ""
    ensures forall i, k, p :: 0 <= i < |rows| && 0 <= k < |Columns| && FirstAt(f.header, Columns[k], p)
              ==> Field(rows[i], Columns[k]) == (if p < |f.records[i]| then f.records[i][p] else "")
  {
    seq(|f.records|, i requires 0 <= i < |f.records| => ReadRecord(f.header, f.records[i]))
  }

  /** A parsable file loads as all of its records. */
  lemma LoadParsable(f: Csv)
    requires Parsable(f)
    ensures Load(Some(f)) == Success(ReadAll(f))
  {
  }

  /** Append as the form does it: a missing file is created with the
      five-column header; an existing file gets one more record with the
      row's five cells in `Columns` order, whatever its header says. */
  function AppendAsWritten(s: Store, row: Row): (r: Store)
    ensures r.Some?
    ensures s.None? ==> r.value.header == Columns && r.value.records == [Cells(row)]
    ensures s.Some? ==> r.value.header == s.value.header
    ensures s.Some? ==> r.value.records == s.value.records + [Cells(row)]
  {
    match s
    case None => Some(Csv(Columns, [Cells(row)]))
    case Some(f) => Some(Csv(f.header, f.records + [Cells(row)]))
  }

  /** Purging: the file is removed if it exists; an absent file stays
      absent. Either way the store then reads as empty. */
  function Purge(s: Store): (r: Store)
    ensures r.None?
    ensures Load(r) == Success([])
  {
    None
  }

  /** A store the form itself wrote: absent, or a file with exactly the
      five-column header and five cells per record. */
  predicate Canonical(s: Store) {
    s.None? || (s.value.header == Columns
                && forall k :: 0 <= k < |s.value.records| ==> |s.value.records[k]| == |Columns|)
  }

  /** The column names are pairwise distinct, so each sits at its own
      position. */
  lemma ColumnsFirstAt()
    ensures forall k :: 0 <= k < |Columns| ==> FirstAt(Columns, Columns[k], k)
  {
  }

  /** A record of a row's cells under the five-column header reads back as
      that row. */
  lemma ReadCells(row: Row)
    ensures ReadRecord(Columns, Cells(row)) == row
  {
    ColumnsFirstAt();
    var r := ReadRecord(Columns, Cells(row));
    assert Field(r, Columns[0]) == row.timestamp;
    assert Field(r, Columns[4]) == row.turma;
  }

  /** On a store the form wrote, appending then loading gives the rows
      loaded before followed by the new row, and the store stays one the
      form wrote. */
  lemma AppendAsWrittenLoads(s: Store, row: Row)
    requires Canonical(s)
    ensures Load(s).Success?
    ensures Load(AppendAsWritten(s, row)) == Success(Load(s).value + [row])
    ensures Canonical(AppendAsWritten(s, row))
  {
    ReadCells(row);
    var f := s.GetOr(Csv(Columns, []));
    var f' := AppendAsWritten(s, row).value;
    assert f'.records == f.records + [Cells(row)];
    ReadAllSnoc(f, Cells(row));
    LoadParsable(f');
    if s.Some? { LoadParsable(f); }
  }

  /** Reading a file with one more record gives one more row at the end. */
  lemma ReadAllSnoc(f: Csv, record: seq<string>)
    ensures ReadAll(Csv(f.header, f.records + [record])) == ReadAll(f) + [ReadRecord(f.header, record)]
  {
    var a := ReadAll(Csv(f.header, f.records + [record]));
    var b := ReadAll(f) + [ReadRecord(f.header, record)];
    assert |a| == |b|;
    forall i | 0 <= i < |a| ensures a[i] == b[i] {
      if i < |f.records| {
        assert (f.records + [record])[i] == f.records[i];
      }
    }
  }

  /** The columns of `columns` a header lacks, in their given order. */
  function Missing(columns: seq<string>, header: seq<string>): (m: seq<string>)
    ensures forall c :: c in m <==> c in columns && c !in header
  {
    if |columns| == 0 then []
    else (if columns[0] in header then [] else [columns[0]]) + Missing(columns[1..], header)
  }

  /** A record holding a row's values under an arbitrary header: each
      position gets the row's value for the column named there. */
  function AlignedCells(header: seq<string>, row: Row): (cells: seq<string>)
    ensures |cells| == |header|
    ensures forall p :: 0 <= p < |header| ==> cells[p] == Field(row, header[p])
  {
    seq(|header|, p requires 0 <= p < |header| => Field(row, header[p]))
  }

  /** Append by column name: the corrected form of `AppendAsWritten`. A
      file whose header lacks some of the five columns first gets them
      added at the end of its header; older records, being shorter, read
      those columns as "". The new record is then written under the
      resulting header, so every value lands in its own column. */
  function Append(s: Store, row: Row): (r: Store)
    ensures r.Some?
    ensures forall k :: 0 <= k < |Columns| ==> Columns[k] in r.value.header
    ensures s.Some? ==> s.value.header <= r.value.header
    ensures s.Some? ==> s.value.records <= r.value.records
    ensures s.Some? ==> |r.value.records| == |s.value.records| + 1
  {
    match s
    case None => Some(Csv(Columns, [Cells(row)]))
    case Some(f) =>
      var h := f.header + Missing(Columns, f.header);
      assert forall k :: 0 <= k < |Columns| && Columns[k] !in f.header ==> Columns[k] in Missing(Columns, f.header);
      Some(Csv(h, f.records + [AlignedCells(h, row)]))
  }

  /** On any readable store, appending then loading gives the rows loaded
      before followed by the new row. */
  lemma AppendThenLoad(s: Store, row: Row)
    requires Load(s).Success?
    ensures Load(Append(s, row)) == Success(Load(s).value + [row])
  {
    match s
    case None => AppendAsWrittenLoads(s, row);
    case Some(f) => AppendLoads(f, row);
  }

  /** On a store the form wrote, the corrected append writes exactly what
      the form's append writes, and the store stays one the form wrote. */
  lemma AppendMatchesAsWritten(s: Store, row: Row)
    requires Canonical(s)
    ensures Append(s, row) == AppendAsWritten(s, row)
    ensures Canonical(Append(s, row))
  {
    if s.Some? {
      NothingMissing();
      assert Columns + Missing(Columns, Columns) == Columns;
      assert AlignedCells(Columns, row) == Cells(row);
    }
  }

  /** The five-column header lacks none of the five columns. */
  lemma NothingMissing()
    ensures Missing(Columns, Columns) == []
  {
  }

  /** Extending a header at its end keeps the first position of every
      column it already had, and puts any other column after it. */
  lemma PositionExtended(header: seq<string>, extra: seq<string>, c: string)
    ensures c in header ==> Position(header + extra, c) == Position(header, c)
    ensures c !in header && c in extra ==> Position(header + extra, c).value >= |header|
  {
    FirstAtIsPosition(header + extra);
    if c in header {
      var p := Position(header, c).value;
      assert FirstAt(header + extra, c, p);
    } else if c in extra {
      var p := Position(header + extra, c).value;
      assert (header + extra)[p] == c;
    }
  }

  /** Two rows that agree on the five columns are the same row. */
  lemma RowsAgree(a: Row, b: Row)
    requires forall k :: 0 <= k < |Columns| ==> Field(a, Columns[k]) == Field(b, Columns[k])
    ensures a == b
  {
    assert Field(a, Columns[0]) == Field(b, Columns[0]);
    assert Field(a, Columns[1]) == Field(b, Columns[1]);
    assert Field(a, Columns[2]) == Field(b, Columns[2]);
    assert Field(a, Columns[3]) == Field(b, Columns[3]);
    assert Field(a, Columns[4]) == Field(b, Columns[4]);
  }

  /** Under a header extended with the missing columns, an old record that
      fitted the old header reads exactly as before. */
  lemma OldRecordUnchanged(f: Csv, record: seq<string>)
    requires |record| <= |f.header|
    ensures ReadRecord(f.header + Missing(Columns, f.header), record) == ReadRecord(f.header, record)
  {
    var h := f.header + Missing(Columns, f.header);
    forall k | 0 <= k < |Columns|
      ensures Field(ReadRecord(h, record), Columns[k]) == Field(ReadRecord(f.header, record), Columns[k])
    {
      PositionExtended(f.header, Missing(Columns, f.header), Columns[k]);
      FirstAtIsPosition(h);
      FirstAtIsPosition(f.header);
    }
    RowsAgree(ReadRecord(h, record), ReadRecord(f.header, record));
  }

  /** The aligned record of a row, under a header holding all five
      columns, reads back as that row. */
  lemma AlignedReadsBack(h: seq<string>, row: Row)
    requires forall k :: 0 <= k < |Columns| ==> Columns[k] in h
    ensures ReadRecord(h, AlignedCells(h, row)) == row
  {
    forall k | 0 <= k < |Columns|
      ensures Field(ReadRecord(h, AlignedCells(h, row)), Columns[k]) == Field(row, Columns[k])
    {
      var p := Position(h, Columns[k]).value;
    }
    RowsAgree(ReadRecord(h, AlignedCells(h, row)), row);
  }

  /** The appended file of `Append` loads as the old rows plus the row. */
  lemma AppendLoads(f: Csv, row: Row)
    ensures var h := f.header + Missing(Columns, f.header);
      Parsable(f) ==> Load(Some(Csv(h, f.records + [AlignedCells(h, row)]))) == Success(ReadAll(f) + [row])
  {
    if !Parsable(f) { return; }
    var h := f.header + Missing(Columns, f.header);
    var f' := Csv(h, f.records + [AlignedCells(h, row)]);
    assert Parsable(f');
    LoadParsable(f');
    forall k | 0 <= k < |Columns| ensures Columns[k] in h {
      if Columns[k] !in f.header { assert Columns[k] in Missing(Columns, f.header); }
    }
    AlignedReadsBack(h, row);
    ReadAllSnoc(Csv(h, f.records), AlignedCells(h, row));
    forall i | 0 <= i < |f.records| ensures ReadAll(Csv(h, f.records))[i] == ReadAll(f)[i] {
      OldRecordUnchanged(f, f.records[i]);
    }
    assert ReadAll(Csv(h, f.records)) == ReadAll(f);
  }

  /** The form's append on a file whose header lacks `turma`, one of the
      columns loading explicitly tolerates as missing: the file reads before
      the append, but the appended five-cell record no longer fits the
      four-column header, so the file stops loading at all. */
  lemma AsWrittenBreaksShortHeader()
    ensures var s := Some(Csv(["timestamp", "feeling", "detail", "comment"], [["t0", "f", "d", ""]]));
      && Load(s).Success?
      && Load(AppendAsWritten(s, Row("t1", "f", "d", "c", "A"))) == Failure(TooManyFields(1))
  {
  }

  /** What the store sees: a submission appended, or a purge. */
  datatype Event = Submitted(row: Row) | Purged

  /** One event applied to the store, with the corrected append. */
  function Step(s: Store, e: Event): Store {
    match e
    case Submitted(row) => Append(s, row)
    case Purged => Purge(s)
  }

  /** A run of events applied in order. */
  function Replay(s: Store, events: seq<Event>): Store
    decreases |events|
  {
    if |events| == 0 then s else Replay(Step(s, events[0]), events[1..])
  }

  /** The rows a run should leave, read from its end: the rows submitted
      since the last purge, on top of the starting rows when there was no
      purge. */
  function Expected(start: seq<Row>, events: seq<Event>): seq<Row>
    decreases |events|
  {
    if |events| == 0 then start
    else match events[|events| - 1]
      case Submitted(row) => Expected(start, events[..|events| - 1]) + [row]
      case Purged => []
  }

  /** Expected rows after a first event, then the rest, are the expected
      rows of the whole run. */
  lemma {:induction false} ExpectedCons(start: seq<Row>, e: Event, rest: seq<Event>)
    ensures Expected(Expected(start, [e]), rest) == Expected(start, [e] + rest)
    decreases |rest|
  {
    if |rest| > 0 {
      var init := rest[..|rest| - 1];
      ExpectedCons(start, e, init);
      assert ([e] + rest)[..|rest|] == [e] + init;
      assert ([e] + rest)[|rest|] == rest[|rest| - 1];
    } else {
      assert [e] + rest == [e];
    }
  }

  /** The store as a state machine: from any readable store, a run of
      submissions and purges leaves a store that loads as exactly the rows
      submitted since the last purge (after the starting rows when there
      was none). In particular a purge, even of an absent store, leaves
      nothing to load. */
  lemma {:induction false} ReplayLoads(s: Store, events: seq<Event>)
    requires Load(s).Success?
    ensures Load(Replay(s, events)).Success?
    ensures Load(Replay(s, events)).value == Expected(Load(s).value, events)
    decreases |events|
  {
    if |events| > 0 {
      var e := events[0];
      var s' := Step(s, e);
      match e {
        case Submitted(row) =>
          AppendThenLoad(s, row);
        case Purged =>
      }
      assert Load(s').value == Expected(Load(s).value, [e]);
      ReplayLoads(s', events[1..]);
      ExpectedCons(Load(s).value, e, events[1..]);
      assert [e] + events[1..] == events;
    }
  }

  /** A store the form wrote stays one it wrote under any run of events, so
      a store created by the form never exercises the misplaced-cell or
      unreadable-file cases of `AppendAsWritten`. */
  lemma {:induction false} ReplayCanonical(s: Store, events: seq<Event>)
    requires Canonical(s)
    ensures Canonical(Replay(s, events))
    decreases |events|
  {
    if |events| > 0 {
      if events[0].Submitted? {
        AppendMatchesAsWritten(s, events[0].row);
      }
      ReplayCanonical(Step(s, events[0]), events[1..]);
    }
  }

  /** One event applied to the store as the form does it: a submission
      goes through `append_row`'s positional append. */
  function StepAsWritten(s: Store, e: Event): Store {
    match e
    case Submitted(row) => AppendAsWritten(s, row)
    case Purged => Purge(s)
  }

  /** A run of events applied in order, as the form does it. */
  function ReplayAsWritten(s: Store, events: seq<Event>): Store
    decreases |events|
  {
    if |events| == 0 then s else ReplayAsWritten(StepAsWritten(s, events[0]), events[1..])
  }

  /** From a store the form wrote, the form's own run of submissions and
      purges writes exactly what the corrected run writes. */
  lemma {:induction false} ReplayAsWrittenMatches(s: Store, events: seq<Event>)
    requires Canonical(s)
    ensures ReplayAsWritten(s, events) == Replay(s, events)
    decreases |events|
  {
    if |events| > 0 {
      if events[0].Submitted? {
        AppendMatchesAsWritten(s, events[0].row);
      }
      assert StepAsWritten(s, events[0]) == Step(s, events[0]);
      ReplayCanonical(s, [events[0]]);
      assert Replay(s, [events[0]]) == Step(s, events[0]);
      ReplayAsWrittenMatches(Step(s, events[0]), events[1..]);
    }
  }

  /** The program's own state machine: from a store the form wrote (in
      particular from no file at all), any run of the form's submissions
      and purges loads as exactly the rows submitted since the last purge,
      after the starting rows when there was none. */
  lemma ReplayAsWrittenLoads(s: Store, events: seq<Event>)
    requires Canonical(s)
    ensures Load(s).Success?
    ensures Load(ReplayAsWritten(s, events)) == Success(Expected(Load(s).value, events))
  {
    AppendAsWrittenLoads(s, Row("", "", "", "", ""));
    ReplayAsWrittenMatches(s, events);
    ReplayLoads(s, events);
  }
}
