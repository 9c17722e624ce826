/** The two CSV terminals of an export: one streams rows as they come, one collects them first. */
module CsvExport {
  import opened Text

  /** A serialized row: an object with named cells, or anything else as one cell. Cells are the
      text a CSV field gets; a missing or null one is blank. */
  datatype Value = Object(fields: seq<(Bytes, Bytes)>) | Plain(cell: Bytes)

  datatype ExportError =
    | NotConfigured
    | Unserializable(message: Bytes)
    | CannotDeriveHeaders
    | NotSingleColumn
    | UnequalLengths

  /** Rows as the source iterator yields them through the serializer. */
  type Rows = seq<Result<Value, Bytes>>

  type Record = seq<Bytes>

  function Names(fields: seq<(Bytes, Bytes)>): seq<Bytes> {
    if fields == [] then [] else [fields[0].0] + Names(fields[1..])
  }

  function CellNamed(fields: seq<(Bytes, Bytes)>, name: Bytes): Bytes {
    if fields == [] then [] else if fields[0].0 == name then fields[0].1 else CellNamed(fields[1..], name)
  }

  function DerivedHeaders(value: Value): Result<seq<Bytes>, ExportError> {
    match value
    case Object(fields) => Ok(Names(fields))
    case Plain(_) => Err(CannotDeriveHeaders)
  }

  function RowCells(value: Value, headers: seq<Bytes>): Result<Record, ExportError> {
    match value
    case Object(fields) => Ok(seq(|headers|, i requires 0 <= i < |headers| => CellNamed(fields, headers[i])))
    case Plain(cell) => if |headers| == 1 then Ok([cell]) else Err(NotSingleColumn)
  }

  lemma RowCellsLength(value: Value, headers: seq<Bytes>)
    ensures RowCells(value, headers).Ok? ==> |RowCells(value, headers).value| == |headers|
  {
  }

  /** The record writer: it takes records of one length only. */
  class CsvWriter {
    var records: seq<Record>

    constructor ()
      ensures records == []
    {
      records := [];
    }

    method WriteRecord(r: Record) returns (ok: bool)
      modifies this
      ensures ok <==> old(records) == [] || |old(records)[0]| == |r|
      ensures records == if ok then old(records) + [r] else old(records)
    {
      if records != [] && |records[0]| != |r| {
        return false;
      }
      records := records + [r];
      return true;
    }
  }

  /** A chunk size is clamped to at least one. */
  type ChunkSize = n: nat | n >= 1 witness 1

  predicate IsMultipleOf(n: nat, d: ChunkSize) {
    n % d == 0
  }

  /** The counts reported over `n` rows: every multiple of the chunk size up to it. */
  function Milestones(n: nat, chunk: ChunkSize): seq<nat> {
    seq(n / chunk, k requires 0 <= k < n / chunk => (k + 1) * chunk)
  }

  lemma {:induction false} NextMultiple(n: nat, chunk: ChunkSize)
    ensures (n + 1) % chunk == 0 ==> (n + 1) / chunk == n / chunk + 1 && (n / chunk + 1) * chunk == n + 1
    ensures (n + 1) % chunk != 0 ==> (n + 1) / chunk == n / chunk
  {
    var q, r := n / chunk, n % chunk;
    assert n == q * chunk + r;
    if r + 1 == chunk {
      assert n + 1 == (q + 1) * chunk;
      DivisionUnique(n + 1, chunk, q + 1, 0);
    } else {
      DivisionUnique(n + 1, chunk, q, r + 1);
    }
  }

  lemma {:induction false} DivisionUnique(n: nat, d: ChunkSize, q: nat, r: nat)
    requires r < d && n == q * d + r
    ensures n / d == q && n % d == r
  {
    var q', r' := n / d, n % d;
    assert n == q' * d + r';
    if q < q' {
      assert (q + 1) * d <= q' * d by { TimesLe(q + 1, q', d); }
    } else if q' < q {
      assert (q' + 1) * d <= q * d by { TimesLe(q' + 1, q, d); }
    }
  }

  lemma TimesLe(a: nat, b: nat, d: nat)
    requires a <= b
    ensures a * d <= b * d
  {
  }

  lemma {:induction false} MilestonesStep(n: nat, chunk: ChunkSize)
    ensures Milestones(n + 1, chunk)
         == Milestones(n, chunk) + if IsMultipleOf(n + 1, chunk) then [n + 1] else []
  {
    NextMultiple(n, chunk);
  }

  // ---------- What an export is, whichever way it is made ----------

  /** The headers rows are laid out under, once the first row is known. */
  function Layout(rows: Rows, headers: Option<seq<Bytes>>): seq<Bytes> {
    match headers
    case Some(h) => h
    case None =>
      if rows != [] && rows[0].Ok? && rows[0].value.Object? then Names(rows[0].value.fields) else []
  }

  /** What goes wrong with row `i` before it is laid out. */
  function PrepareError(rows: Rows, headers: Option<seq<Bytes>>, i: nat): Option<ExportError>
    requires i < |rows|
  {
    match rows[i]
    case Err(message) => Some(Unserializable(message))
    case Ok(value) => if i == 0 && headers == None && value.Plain? then Some(CannotDeriveHeaders) else None
  }

  /** The record row `i` becomes, or what goes wrong with it. */
  function RowRecord(rows: Rows, headers: Option<seq<Bytes>>, i: nat): Result<Record, ExportError>
    requires i < |rows|
  {
    var early := PrepareError(rows, headers, i);
    if early.Some? then Err(early.value) else RowCells(rows[i].value, Layout(rows, headers))
  }

  /** The first row from `i` on that fails to prepare, or how many rows there are. */
  function FirstUnprepared(rows: Rows, headers: Option<seq<Bytes>>, i: nat): (n: nat)
    requires i <= |rows|
    ensures i <= n <= |rows|
    ensures forall k :: i <= k < n ==> PrepareError(rows, headers, k) == None
    ensures n < |rows| ==> PrepareError(rows, headers, n).Some?
    decreases |rows| - i
  {
    if i == |rows| || PrepareError(rows, headers, i).Some? then i else FirstUnprepared(rows, headers, i + 1)
  }

  /** The first row from `i` on that fails, or how many rows there are. */
  function FirstFailing(rows: Rows, headers: Option<seq<Bytes>>, i: nat): (n: nat)
    requires i <= |rows|
    ensures i <= n <= |rows|
    ensures forall k :: i <= k < n ==> RowRecord(rows, headers, k).Ok?
    ensures n < |rows| ==> RowRecord(rows, headers, n).Err?
    decreases |rows| - i
  {
    if i == |rows| || RowRecord(rows, headers, i).Err? then i else FirstFailing(rows, headers, i + 1)
  }

  /** The first `n` rows serialize and fit the layout. */
  predicate Exportable(rows: Rows, headers: Option<seq<Bytes>>, n: nat)
    requires n <= |rows|
  {
    forall i :: 0 <= i < n ==> RowRecord(rows, headers, i).Ok?
  }

  lemma FailsFirstAt(rows: Rows, headers: Option<seq<Bytes>>, i: nat)
    requires i < |rows| && Exportable(rows, headers, i) && RowRecord(rows, headers, i).Err?
    ensures FirstFailing(rows, headers, 0) == i && !Exportable(rows, headers, |rows|)
  {
  }

  lemma NeverFails(rows: Rows, headers: Option<seq<Bytes>>)
    requires Exportable(rows, headers, |rows|)
    ensures FirstFailing(rows, headers, 0) == |rows|
  {
  }

  function HeaderRecords(layout: seq<Bytes>): seq<Record> {
    if layout != [] then [layout] else []
  }

  /** The header record, when there are headers, and a record for each of the first `n` rows. */
  function Records(rows: Rows, headers: Option<seq<Bytes>>, n: nat): seq<Record>
    requires n <= |rows| && Exportable(rows, headers, n)
  {
    HeaderRecords(Layout(rows, headers)) + seq(n, i requires 0 <= i < n => RowRecord(rows, headers, i).value)
  }

  lemma RecordLength(rows: Rows, headers: Option<seq<Bytes>>, i: nat)
    requires i < |rows| && RowRecord(rows, headers, i).Ok?
    ensures |RowRecord(rows, headers, i).value| == |Layout(rows, headers)|
  {
  }

  /** The next record continues the file: it is as long as every one before it. */
  lemma RecordsStep(rows: Rows, headers: Option<seq<Bytes>>, n: nat)
    requires n < |rows| && Exportable(rows, headers, n) && RowRecord(rows, headers, n).Ok?
    ensures Exportable(rows, headers, n + 1)
    ensures Records(rows, headers, n + 1) == Records(rows, headers, n) + [RowRecord(rows, headers, n).value]
    ensures Records(rows, headers, n) != [] ==>
      |Records(rows, headers, n)[0]| == |RowRecord(rows, headers, n).value|
  {
    RecordLength(rows, headers, n);
    if n > 0 {
      RecordLength(rows, headers, 0);
    }
  }

  /** Without rows and headers there is no record. */
  lemma NothingWritten(rows: Rows, headers: Option<seq<Bytes>>)
    requires Exportable(rows, headers, |rows|)
    ensures rows == [] && headers == None ==> Records(rows, headers, |rows|) == []
  {
  }

  /** Records and the number of data rows among them. */
  datatype Sheet = Sheet(records: seq<Record>, rows: nat)

  // ---------- The two terminals ----------

  class ExportBuilder {
    var rows: Option<Rows>
    var headers: Option<seq<Bytes>>
    const chunkSize: ChunkSize
    const reporting: bool
    /** The counts the progress callback has been given. */
    var progress: seq<nat>

    constructor (rows: Rows, headers: Option<seq<Bytes>>, chunkSize: nat, reporting: bool)
      ensures this.rows == Some(rows) && this.headers == headers && this.reporting == reporting && progress == []
      ensures this.chunkSize as nat == if chunkSize == 0 then 1 else chunkSize
    {
      this.rows, this.headers := Some(rows), headers;
      this.chunkSize := if chunkSize == 0 then 1 else chunkSize;
      this.reporting := reporting;
      progress := [];
    }

    method ReportProgress(done: nat)
      modifies this`progress
      ensures progress == old(progress) + if reporting && IsMultipleOf(done, chunkSize) then [done] else []
    {
      if reporting && IsMultipleOf(done, chunkSize) {
        progress := progress + [done];
      }
    }

    ghost function Reported(n: nat): seq<nat> {
      if reporting then Milestones(n, chunkSize) else []
    }

    lemma ReportedNothing(before: seq<nat>)
      ensures before + Reported(0) == before
    {
      assert Milestones(0, chunkSize) == [];
    }

    lemma {:induction false} ReportedStep(before: seq<nat>, n: nat)
      ensures before + Reported(n) + (if reporting && IsMultipleOf(n + 1, chunkSize) then [n + 1] else [])
           == before + Reported(n + 1)
    {
      MilestonesStep(n, chunkSize);
      Reassociate(before, Reported(n), if reporting && IsMultipleOf(n + 1, chunkSize) then [n + 1] else []);
    }

    /** Write each row as it is pulled. */
    method StreamCsv() returns (r: Result<Sheet, ExportError>)
      modifies this
      ensures rows == None
      ensures old(rows) == None ==> r == Err(NotConfigured) && progress == old(progress)
      ensures old(rows).Some? ==>
        var (all, given) := (old(rows).value, old(headers));
        && r == Streamed(all, given)
        && progress == old(progress) + Reported(FirstFailing(all, given, 0))
    {
      var taken := rows;
      rows := None;
      if taken == None {
        return Err(NotConfigured);
      }
      var source := taken.value;
      var writer := new CsvWriter();
      hide Reported, IsMultipleOf, FirstFailing, FirstUnprepared, CellNamed;
      ghost var given, before := headers, progress;
      ReportedNothing(before);
      var layout := headers;
      headers := None;
      if layout.Some? && layout.value != [] {
        var _ := writer.WriteRecord(layout.value);
      }
      var written := 0;
      for i := 0 to |source|
        invariant rows == None
        invariant written == i && Exportable(source, given, i)
        invariant layout == if i == 0 then given else Some(Layout(source, given))
        invariant writer.records == if i == 0 && given == None then [] else Records(source, given, i)
        invariant progress == before + Reported(i)
      {
        if source[i].Err? {
          FailsFirstAt(source, given, i);
          return Err(Unserializable(source[i].error));
        }
        var value := source[i].value;
        if layout == None {
          var derived := DerivedHeaders(value);
          if derived.Err? {
            FailsFirstAt(source, given, i);
            return Err(derived.error);
          }
          if derived.value != [] {
            var _ := writer.WriteRecord(derived.value);
          }
          layout := Some(derived.value);
        }
        assert layout.value == Layout(source, given) && writer.records == Records(source, given, i);
        var cells := RowCells(value, layout.value);
        assert cells == RowRecord(source, given, i);
        if cells.Err? {
          FailsFirstAt(source, given, i);
          return Err(cells.error);
        }
        RecordsStep(source, given, i);
        var ok := writer.WriteRecord(cells.value);
        if !ok {
          return Err(UnequalLengths);
        }
        written := written + 1;
        ReportedStep(before, i);
        ReportProgress(written);
      }
      NeverFails(source, given);
      NothingWritten(source, given);
      assert writer.records == Records(source, given, |source|);
      return Ok(Sheet(writer.records, written));
    }

    /** Collect the rows, under headers derived from the first if none were set. */
    method Prepare() returns (r: Result<Prepared, ExportError>)
      modifies this`rows, this`headers
      ensures rows == None
      ensures old(rows) == None ==> r == Err(NotConfigured)
      ensures old(rows).Some? ==>
        var (all, given) := (old(rows).value, old(headers));
        var p := FirstUnprepared(all, given, 0);
        r == if p < |all| then Err(PrepareError(all, given, p).value)
             else Ok(Prepared(Layout(all, given), Values(all)))
    {
      var taken := rows;
      rows := None;
      if taken == None {
        return Err(NotConfigured);
      }
      var source := taken.value;
      ghost var given := headers;
      var layout := headers;
      headers := None;
      var values := [];
      for i := 0 to |source|
        invariant rows == None
        invariant forall k :: 0 <= k < i ==> PrepareError(source, given, k) == None
        invariant layout == if i == 0 then given else Some(Layout(source, given))
        invariant values == Values(source[..i])
      {
        if source[i].Err? {
          UnpreparedFirstAt(source, given, i);
          return Err(Unserializable(source[i].error));
        }
        var value := source[i].value;
        if layout == None {
          var derived := DerivedHeaders(value);
          if derived.Err? {
            UnpreparedFirstAt(source, given, i);
            return Err(derived.error);
          }
          layout := Some(derived.value);
        }
        assert source[..i + 1][..i] == source[..i];
        values := values + [value];
      }
      assert source[..|source|] == source;
      AllPrepared(source, given);
      return Ok(Prepared(if layout.Some? then layout.value else [], values));
    }

    /** Lay collected rows out as records. */
    method RenderCsv(prepared: Prepared) returns (r: Result<seq<Record>, ExportError>)
      modifies this`progress
      ensures var n := FirstMisfit(prepared, 0);
        && r == (if n < |prepared.values| then Err(RowCells(prepared.values[n], prepared.headers).error)
                 else Ok(PreparedRecords(prepared, n)))
        && progress == old(progress) + Reported(n)
    {
      var writer := new CsvWriter();
      if prepared.headers != [] {
        var _ := writer.WriteRecord(prepared.headers);
      }
      hide Reported, IsMultipleOf;
      ghost var before := progress;
      ReportedNothing(before);
      for i := 0 to |prepared.values|
        invariant Fits(prepared, i) && writer.records == PreparedRecords(prepared, i)
        invariant progress == before + Reported(i)
      {
        var cells := RowCells(prepared.values[i], prepared.headers);
        if cells.Err? {
          MisfitFirstAt(prepared, i);
          return Err(cells.error);
        }
        PreparedStep(prepared, i);
        var ok := writer.WriteRecord(cells.value);
        if !ok {
          return Err(UnequalLengths);
        }
        ReportedStep(before, i);
        ReportProgress(i + 1);
      }
      AllFit(prepared);
      return Ok(writer.records);
    }

    /** Collect first, then lay out. */
    method BufferCsv() returns (r: Result<Sheet, ExportError>)
      modifies this
      ensures rows == None
      ensures old(rows) == None ==> r == Err(NotConfigured) && progress == old(progress)
      ensures old(rows).Some? ==>
        var (all, given) := (old(rows).value, old(headers));
        && r == Buffered(all, given)
        && progress == old(progress) + Reported(if FirstUnprepared(all, given, 0) < |all| then 0 else FirstFailing(all, given, 0))
    {
      ghost var source, given := rows, headers;
      ReportedNothing(progress);
      var prepared := Prepare();
      if prepared.Err? {
        return Err(prepared.error);
      }
      PreparedMirrors(source.value, given);
      var records := RenderCsv(prepared.value);
      if records.Err? {
        return Err(records.error);
      }
      return Ok(Sheet(records.value, |prepared.value.values|));
    }
  }

  // ---------- Collected rows ----------

  datatype Prepared = Prepared(headers: seq<Bytes>, values: seq<Value>)

  /** The values of rows that all serialized. */
  function Values(rows: Rows): seq<Value> {
    if rows == [] then []
    else
      var n := |rows| - 1;
      Values(rows[..n]) + match rows[n] case Ok(value) => [value] case Err(_) => []
  }

  lemma {:induction false} ValuesPointwise(rows: Rows)
    requires forall i :: 0 <= i < |rows| ==> rows[i].Ok?
    ensures |Values(rows)| == |rows|
    ensures forall i :: 0 <= i < |rows| ==> Values(rows)[i] == rows[i].value
  {
    if rows != [] {
      ValuesPointwise(rows[..|rows| - 1]);
    }
  }

  lemma UnpreparedFirstAt(rows: Rows, headers: Option<seq<Bytes>>, i: nat)
    requires i < |rows| && PrepareError(rows, headers, i).Some?
    requires forall k :: 0 <= k < i ==> PrepareError(rows, headers, k) == None
    ensures FirstUnprepared(rows, headers, 0) == i
  {
  }

  lemma AllPrepared(rows: Rows, headers: Option<seq<Bytes>>)
    requires forall k :: 0 <= k < |rows| ==> PrepareError(rows, headers, k) == None
    ensures FirstUnprepared(rows, headers, 0) == |rows|
  {
  }

  predicate Fits(p: Prepared, n: nat) {
    n <= |p.values| && forall i :: 0 <= i < n ==> RowCells(p.values[i], p.headers).Ok?
  }

  function FirstMisfit(p: Prepared, i: nat): (n: nat)
    requires i <= |p.values|
    ensures i <= n <= |p.values|
    ensures forall k :: i <= k < n ==> RowCells(p.values[k], p.headers).Ok?
    ensures n < |p.values| ==> RowCells(p.values[n], p.headers).Err?
    decreases |p.values| - i
  {
    if i == |p.values| || RowCells(p.values[i], p.headers).Err? then i else FirstMisfit(p, i + 1)
  }

  lemma MisfitFirstAt(p: Prepared, i: nat)
    requires Fits(p, i) && i < |p.values| && RowCells(p.values[i], p.headers).Err?
    ensures FirstMisfit(p, 0) == i
  {
  }

  lemma AllFit(p: Prepared)
    requires Fits(p, |p.values|)
    ensures FirstMisfit(p, 0) == |p.values|
  {
  }

  function PreparedRecords(p: Prepared, n: nat): seq<Record>
    requires Fits(p, n)
  {
    HeaderRecords(p.headers) + seq(n, i requires 0 <= i < n => RowCells(p.values[i], p.headers).value)
  }

  lemma PreparedStep(p: Prepared, n: nat)
    requires Fits(p, n) && n < |p.values| && RowCells(p.values[n], p.headers).Ok?
    ensures Fits(p, n + 1)
    ensures PreparedRecords(p, n + 1) == PreparedRecords(p, n) + [RowCells(p.values[n], p.headers).value]
    ensures PreparedRecords(p, n) != [] ==> |PreparedRecords(p, n)[0]| == |RowCells(p.values[n], p.headers).value|
  {
    RowCellsLength(p.values[n], p.headers);
    if n > 0 {
      RowCellsLength(p.values[0], p.headers);
    }
  }

  /** Once every row is prepared, laying the collected rows out fails where streaming would. */
  lemma PreparedMirrors(rows: Rows, headers: Option<seq<Bytes>>)
    requires FirstUnprepared(rows, headers, 0) == |rows|
    ensures var p := Prepared(Layout(rows, headers), Values(rows));
      && |p.values| == |rows|
      && (forall i :: 0 <= i < |rows| ==> RowCells(p.values[i], p.headers) == RowRecord(rows, headers, i))
      && FirstMisfit(p, 0) == FirstFailing(rows, headers, 0)
      && (Exportable(rows, headers, |rows|) ==> Fits(p, |rows|) && PreparedRecords(p, |rows|) == Records(rows, headers, |rows|))
  {
    var p := Prepared(Layout(rows, headers), Values(rows));
    forall i | 0 <= i < |rows|
      ensures rows[i].Ok? && RowCells(rows[i].value, p.headers) == RowRecord(rows, headers, i)
    {
      assert PrepareError(rows, headers, i) == None;
    }
    ValuesPointwise(rows);
    var n, m := FirstMisfit(p, 0), FirstFailing(rows, headers, 0);
    if n < m {
      assert RowRecord(rows, headers, n).Ok?;
    } else if m < n {
      assert RowCells(p.values[m], p.headers).Ok?;
    }
  }

  // ---------- Streaming against buffering ----------

  /** What streaming returns. */
  function Streamed(rows: Rows, headers: Option<seq<Bytes>>): Result<Sheet, ExportError> {
    var n := FirstFailing(rows, headers, 0);
    if n < |rows| then Err(RowRecord(rows, headers, n).error)
    else Ok(Sheet(Records(rows, headers, n), n))
  }

  /** What buffering returns. */
  function Buffered(rows: Rows, headers: Option<seq<Bytes>>): Result<Sheet, ExportError> {
    var p := FirstUnprepared(rows, headers, 0);
    if p < |rows| then Err(PrepareError(rows, headers, p).value)
    else
      PreparedMirrors(rows, headers);
      var prepared := Prepared(Layout(rows, headers), Values(rows));
      var n := FirstMisfit(prepared, 0);
      if n < |rows| then Err(RowCells(prepared.values[n], prepared.headers).error)
      else Ok(Sheet(PreparedRecords(prepared, n), n))
  }

  /** Streaming and buffering succeed on the same rows, with the same records and row count; and
      they fail with the same error too, except where a row that fits no layout comes before one
      that does not serialize: there streaming reports the first and buffering the second. */
  lemma StreamedIsBuffered(rows: Rows, headers: Option<seq<Bytes>>)
    ensures Streamed(rows, headers).Ok? <==> Buffered(rows, headers).Ok?
    ensures Streamed(rows, headers).Ok? ==> Streamed(rows, headers) == Buffered(rows, headers)
    ensures Streamed(rows, headers) == Buffered(rows, headers)
       <==> !(FirstFailing(rows, headers, 0) < FirstUnprepared(rows, headers, 0) < |rows|)
  {
    var n, p := FirstFailing(rows, headers, 0), FirstUnprepared(rows, headers, 0);
    if p == |rows| {
      PreparedMirrors(rows, headers);
    } else {
      assert RowRecord(rows, headers, p).Err?;
    }
    if n < p {
      assert PrepareError(rows, headers, n) == None;
    }
  }

  /** One export that fails twice over: streaming meets the misfit first, buffering the row that
      does not serialize. */
  lemma DifferentErrors(cell: Bytes, message: Bytes, a: Bytes, b: Bytes)
    ensures var rows: Rows, headers := [Ok(Plain(cell)), Err(message)], Some([a, b]);
      Streamed(rows, headers) == Err(NotSingleColumn) && Buffered(rows, headers) == Err(Unserializable(message))
  {
    var rows: Rows, headers := [Ok(Plain(cell)), Err(message)], Some([a, b]);
    FailsFirstAt(rows, headers, 0);
    UnpreparedFirstAt(rows, headers, 1);
  }

  /** Each record of an export is as long as the layout, so no file is ever ragged. */
  lemma NeverRagged(rows: Rows, headers: Option<seq<Bytes>>)
    ensures Streamed(rows, headers).Ok? ==>
      forall r :: r in Streamed(rows, headers).value.records ==> |r| == |Layout(rows, headers)|
  {
    var n := FirstFailing(rows, headers, 0);
    if n == |rows| {
      forall i | 0 <= i < n
        ensures |RowRecord(rows, headers, i).value| == |Layout(rows, headers)|
      {
        RecordLength(rows, headers, i);
      }
    }
  }

  // ---------- What a sheet holds ----------

  /** The columns: the headers that were set, or the first row's field names in order, or none. */
  ghost predicate AreColumns(rows: Rows, headers: Option<seq<Bytes>>, columns: seq<Bytes>) {
    match headers
    case Some(h) => columns == h
    case None =>
      if rows == [] || rows[0].Err? || rows[0].value.Plain? then columns == []
      else
        var fields := rows[0].value.fields;
        |columns| == |fields| && forall k :: 0 <= k < |fields| ==> columns[k] == fields[k].0
  }

  ghost predicate DistinctFields(fields: seq<(Bytes, Bytes)>) {
    forall i, j :: 0 <= i < j < |fields| ==> fields[i].0 != fields[j].0
  }

  /** The value of the field of that name, or blank when there is none. */
  ghost predicate IsCellOf(fields: seq<(Bytes, Bytes)>, name: Bytes, cell: Bytes) {
    && (forall k :: 0 <= k < |fields| && fields[k].0 == name ==> cell == fields[k].1)
    && ((forall k :: 0 <= k < |fields| ==> fields[k].0 != name) ==> cell == [])
  }

  /** A cell a column; the only one of a row that is no object. */
  ghost predicate IsRecordOf(value: Value, columns: seq<Bytes>, record: Record) {
    && |record| == |columns|
    && match value
       case Object(fields) =>
         DistinctFields(fields) ==> forall j :: 0 <= j < |columns| ==> IsCellOf(fields, columns[j], record[j])
       case Plain(cell) => record == [cell]
  }

  lemma {:induction false} CellNamedIs(fields: seq<(Bytes, Bytes)>, name: Bytes)
    requires DistinctFields(fields)
    ensures IsCellOf(fields, name, CellNamed(fields, name))
  {
    if fields != [] {
      CellNamedIs(fields[1..], name);
      assert forall k :: 0 < k < |fields| ==> fields[k] == fields[1..][k - 1];
      if fields[0].0 != name {
        if forall k :: 0 <= k < |fields| ==> fields[k].0 != name {
          assert forall k :: 0 <= k < |fields| - 1 ==> fields[1..][k].0 != name;
        }
      }
    }
  }

  lemma {:induction false} NamesAre(fields: seq<(Bytes, Bytes)>)
    ensures |Names(fields)| == |fields|
    ensures forall k :: 0 <= k < |fields| ==> Names(fields)[k] == fields[k].0
  {
    if fields != [] {
      NamesAre(fields[1..]);
    }
  }

  lemma LayoutIs(rows: Rows, headers: Option<seq<Bytes>>)
    ensures forall columns :: AreColumns(rows, headers, columns) <==> columns == Layout(rows, headers)
  {
    if headers == None && rows != [] && rows[0].Ok? && rows[0].value.Object? {
      NamesAre(rows[0].value.fields);
    }
  }

  lemma RowCellsIs(value: Value, columns: seq<Bytes>)
    requires RowCells(value, columns).Ok?
    ensures IsRecordOf(value, columns, RowCells(value, columns).value)
  {
    hide CellNamed;
    if value.Object? && DistinctFields(value.fields) {
      forall j | 0 <= j < |columns|
        ensures IsCellOf(value.fields, columns[j], RowCells(value, columns).value[j])
      {
        CellNamedIs(value.fields, columns[j]);
      }
    }
  }

  /** What is wrong with a row: it does not serialize; or it is the first, no object, and was to name the
      columns; or it is no object and there is not exactly one column. */
  ghost predicate IsWrong(rows: Rows, headers: Option<seq<Bytes>>, columns: seq<Bytes>, i: int, e: ExportError) {
    0 <= i < |rows| &&
    match rows[i]
    case Err(message) => e == Unserializable(message)
    case Ok(Object(_)) => false
    case Ok(Plain(_)) =>
      if i == 0 && headers == None then e == CannotDeriveHeaders else |columns| != 1 && e == NotSingleColumn
  }

  /** The first row with which something is wrong. */
  ghost predicate IsFirstWrong(rows: Rows, headers: Option<seq<Bytes>>, columns: seq<Bytes>, i: int, e: ExportError) {
    && IsWrong(rows, headers, columns, i, e)
    && forall j, f :: 0 <= j < i ==> !IsWrong(rows, headers, columns, j, f)
  }

  lemma RowRecordIs(rows: Rows, headers: Option<seq<Bytes>>, i: nat)
    requires i < |rows|
    ensures forall e :: RowRecord(rows, headers, i) == Err(e) <==> IsWrong(rows, headers, Layout(rows, headers), i, e)
    ensures RowRecord(rows, headers, i).Ok? ==>
      rows[i].Ok? && IsRecordOf(rows[i].value, Layout(rows, headers), RowRecord(rows, headers, i).value)
  {
    hide Layout, IsRecordOf;
    if RowRecord(rows, headers, i).Ok? {
      RowCellsIs(rows[i].value, Layout(rows, headers));
    }
  }

  /** What an export returns, row by row. It fails exactly when some row is wrong, with what is wrong
      with the first one; or else returns the columns as header record, unless there are none, and then
      one record for each row, in order, and their number. */
  lemma SheetIs(rows: Rows, headers: Option<seq<Bytes>>, columns: seq<Bytes>)
    requires AreColumns(rows, headers, columns)
    ensures forall e :: Streamed(rows, headers) == Err(e) <==> exists i :: IsFirstWrong(rows, headers, columns, i, e)
    ensures Streamed(rows, headers).Ok? ==>
      var sheet := Streamed(rows, headers).value;
      var first := if columns == [] then 0 else 1;
      && sheet.rows == |rows| && |sheet.records| == first + |rows|
      && (columns != [] ==> sheet.records[0] == columns)
      && forall i :: 0 <= i < |rows| ==> rows[i].Ok? && IsRecordOf(rows[i].value, columns, sheet.records[first + i])
  {
    hide Layout, RowRecord, AreColumns, IsRecordOf, IsWrong;
    LayoutIs(rows, headers);
    var n := FirstFailing(rows, headers, 0);
    forall i | 0 <= i < |rows|
      ensures forall e :: RowRecord(rows, headers, i) == Err(e) <==> IsWrong(rows, headers, columns, i, e)
      ensures RowRecord(rows, headers, i).Ok? ==>
        rows[i].Ok? && IsRecordOf(rows[i].value, columns, RowRecord(rows, headers, i).value)
    {
      RowRecordIs(rows, headers, i);
    }
    OnlyRowsAreWrong(rows, headers, columns);
    forall j, f | 0 <= j < n ensures !IsWrong(rows, headers, columns, j, f) {
      assert RowRecord(rows, headers, j).Ok?;
      RowRecordIs(rows, headers, j);
    }
    if n < |rows| {
      var error := RowRecord(rows, headers, n).error;
      assert IsWrong(rows, headers, columns, n, error);
      assert IsFirstWrong(rows, headers, columns, n, error);
      forall i, e | IsFirstWrong(rows, headers, columns, i, e) ensures i == n && e == error {
        assert RowRecord(rows, headers, i) == Err(e);
      }
    } else {
      var records := Records(rows, headers, n);
      var first := if columns == [] then 0 else 1;
      assert forall i :: 0 <= i < |rows| ==> records[first + i] == RowRecord(rows, headers, i).value;
    }
  }

  lemma OnlyRowsAreWrong(rows: Rows, headers: Option<seq<Bytes>>, columns: seq<Bytes>)
    ensures forall i, e :: IsWrong(rows, headers, columns, i, e) ==> 0 <= i < |rows|
  {
  }

  /** Under headers of its own, the first row is written out as it is: its names, then its values. */
  lemma FirstRowAsItIs(rows: Rows)
    requires rows != [] && rows[0].Ok? && rows[0].value.Object? && Streamed(rows, None).Ok?
    requires rows[0].value.fields != [] && DistinctFields(rows[0].value.fields)
    ensures var fields, records := rows[0].value.fields, Streamed(rows, None).value.records;
      && |records| >= 2 && |records[0]| == |records[1]| == |fields|
      && forall k :: 0 <= k < |fields| ==> records[0][k] == fields[k].0 && records[1][k] == fields[k].1
  {
    hide Streamed;
    var columns := Layout(rows, None);
    LayoutIs(rows, None);
    SheetIs(rows, None, columns);
    var fields, records := rows[0].value.fields, Streamed(rows, None).value.records;
    assert IsRecordOf(rows[0].value, columns, records[1 + 0]);
    forall k | 0 <= k < |fields| ensures records[0][k] == fields[k].0 && records[1][k] == fields[k].1 {
      assert IsCellOf(fields, columns[k], records[1][k]);
    }
  }

  /** The counts reported are the multiples of the chunk size among the row counts, in order. */
  lemma MilestonesAre(n: nat, chunk: ChunkSize)
    ensures forall k :: k in Milestones(n, chunk) <==> 0 < k <= n && IsMultiple(k, chunk)
    ensures forall i, j :: 0 <= i < j < |Milestones(n, chunk)| ==> Milestones(n, chunk)[i] < Milestones(n, chunk)[j]
  {
    hide IsMultiple;
    var all := Milestones(n, chunk);
    forall k: nat ensures k in all <==> 0 < k <= n && IsMultiple(k, chunk) {
      if k in all {
        var i :| 0 <= i < |all| && all[i] == k;
        MilestoneIs(n, chunk, i);
      } else if 0 < k <= n && IsMultiple(k, chunk) {
        MultipleIsListed(n, chunk, k);
      }
    }
    forall i, j | 0 <= i < j < |all| ensures all[i] < all[j] {
      TimesLe(i + 2, j + 1, chunk);
    }
  }

  lemma MultipleIsListed(n: nat, chunk: ChunkSize, k: nat)
    requires 0 < k <= n && IsMultiple(k, chunk)
    ensures k in Milestones(n, chunk)
  {
    var times := IsTimes(k, chunk);
    TimesAtMost(n, chunk, times);
    assert Milestones(n, chunk)[times - 1] == k;
  }

  ghost predicate IsMultiple(k: nat, d: nat) {
    exists times: nat :: IsProduct(times, d, k)
  }

  predicate IsProduct(a: nat, b: nat, c: nat) {
    a * b == c
  }

  lemma IsTimes(k: nat, d: ChunkSize) returns (times: nat)
    requires IsMultiple(k, d) && k > 0
    ensures times > 0 && times * d == k
  {
    times :| IsProduct(times, d, k);
  }

  lemma TimesAtMost(n: nat, d: ChunkSize, times: nat)
    requires times * d <= n
    ensures times <= n / d
  {
    assert (n / d + 1) * d == n / d * d + d > n;
    if times > n / d {
      TimesLe(n / d + 1, times, d);
    }
  }

  lemma MilestoneIs(n: nat, chunk: ChunkSize, i: nat)
    requires i < |Milestones(n, chunk)|
    ensures 0 < Milestones(n, chunk)[i] <= n && IsMultiple(Milestones(n, chunk)[i], chunk)
  {
    TimesLe(1, i + 1, chunk);
    TimesLe(i + 1, n / chunk, chunk);
    assert n / chunk * chunk <= n;
    assert IsProduct(i + 1, chunk, Milestones(n, chunk)[i]);
  }
}
