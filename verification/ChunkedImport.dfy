/** The streaming import: rows become objects under a header, accepted ones leave in chunks. */
module ChunkedImport {
  import opened Text
  import Decimal

  /** A cell of a physical row; `Other` is a number or boolean, with its text. */
  datatype Cell = Null | Str(text: Bytes) | Other(text: Bytes)

  type PhysicalRow = seq<Cell>

  // ---------- Column names ----------

  /** "column_" */
  const COLUMN: Bytes := [99, 111, 108, 117, 109, 110, 95]

  function ColumnName(index: nat): Bytes {
    COLUMN + Decimal.Digits(index)
  }

  predicate IsBlank(cell: Cell) {
    cell.Null? || cell == Str([])
  }

  function CellToHeader(index: nat, cell: Cell): Bytes {
    if IsBlank(cell) then ColumnName(index) else cell.text
  }

  function HeaderOf(cells: PhysicalRow): seq<Bytes> {
    seq(|cells|, i requires 0 <= i < |cells| => CellToHeader(i, cells[i]))
  }

  /** The name the cell at `index` is stored under. */
  function NameAt(header: seq<Bytes>, index: nat): Bytes {
    if index < |header| then header[index] else ColumnName(index)
  }

  type Object = map<Bytes, Cell>

  /** The object of a row: a later cell replaces an earlier one of the same name. */
  function ObjectOf(header: seq<Bytes>, cells: PhysicalRow): Object {
    if cells == [] then map[]
    else
      var n := |cells| - 1;
      ObjectOf(header, cells[..n])[NameAt(header, n) := cells[n]]
  }

  lemma {:induction false} ObjectKeys(header: seq<Bytes>, cells: PhysicalRow)
    ensures forall name :: name in ObjectOf(header, cells) <==> exists i :: 0 <= i < |cells| && NameAt(header, i) == name
  {
    if cells != [] {
      hide NameAt;
      ObjectKeys(header, cells[..|cells| - 1]);
    }
  }

  ghost predicate DistinctNames(header: seq<Bytes>, n: nat) {
    forall i, j :: 0 <= i < j < n ==> NameAt(header, i) != NameAt(header, j)
  }

  /** A row keeps all its cells exactly when its names are distinct. */
  lemma {:induction false} ObjectSize(header: seq<Bytes>, cells: PhysicalRow)
    ensures |ObjectOf(header, cells)| <= |cells|
    ensures |ObjectOf(header, cells)| == |cells| <==> DistinctNames(header, |cells|)
  {
    if cells != [] {
      var n := |cells| - 1;
      var before := ObjectOf(header, cells[..n]);
      ObjectSize(header, cells[..n]);
      ObjectKeys(header, cells[..n]);
      OneMoreName(header, n, before.Keys);
      var after := before[NameAt(header, n) := cells[n]];
      assert after.Keys == before.Keys + {NameAt(header, n)};
    }
  }

  lemma OneMoreName(header: seq<Bytes>, n: nat, names: set<Bytes>)
    requires forall name :: name in names <==> exists i :: 0 <= i < n && NameAt(header, i) == name
    ensures DistinctNames(header, n + 1) <==> DistinctNames(header, n) && NameAt(header, n) !in names
  {
    hide NameAt;
    if NameAt(header, n) in names {
      var i :| 0 <= i < n && NameAt(header, i) == NameAt(header, n);
    }
  }

  predicate IsFound(header: seq<Bytes>, cells: PhysicalRow, i: nat)
    requires i < |cells|
  {
    NameAt(header, i) in ObjectOf(header, cells) && ObjectOf(header, cells)[NameAt(header, i)] == cells[i]
  }

  /** Under distinct names every cell is found under its own. */
  lemma {:induction false} CellsFound(header: seq<Bytes>, cells: PhysicalRow, i: nat)
    requires DistinctNames(header, |cells|) && i < |cells|
    ensures IsFound(header, cells, i)
  {
    if i < |cells| - 1 {
      CellsFound(header, cells[..|cells| - 1], i);
    }
  }

  /** Whether the header row leaves position `i` without a name of its own. */
  predicate Unnamed(cells: PhysicalRow, i: nat) {
    i >= |cells| || IsBlank(cells[i])
  }

  predicate Named(cells: PhysicalRow, i: nat) {
    !Unnamed(cells, i)
  }

  /** The named headers differ, and none of them is the name some unnamed position falls back to. */
  ghost predicate NoClash(cells: PhysicalRow, n: nat) {
    && (forall i, j :: 0 <= i < j < n && Named(cells, i) && Named(cells, j) ==> cells[i].text != cells[j].text)
    && (forall i, j :: 0 <= i < n && 0 <= j < n && Named(cells, i) && Unnamed(cells, j) ==> cells[i].text != ColumnName(j))
  }

  lemma NameAtHeader(cells: PhysicalRow, i: nat)
    ensures Named(cells, i) ==> NameAt(HeaderOf(cells), i) == cells[i].text
    ensures Unnamed(cells, i) ==> NameAt(HeaderOf(cells), i) == ColumnName(i)
  {
  }

  lemma ColumnNameInjective(i: nat, j: nat)
    requires ColumnName(i) == ColumnName(j)
    ensures i == j
  {
    assert ColumnName(i)[|COLUMN|..] == Decimal.Digits(i) && ColumnName(j)[|COLUMN|..] == Decimal.Digits(j);
    Decimal.DigitsInjective(i, j);
  }

  lemma NoClashIsDistinct(cells: PhysicalRow, n: nat)
    requires NoClash(cells, n)
    ensures DistinctNames(HeaderOf(cells), n)
  {
    forall i, j | 0 <= i < j < n
      ensures NameAt(HeaderOf(cells), i) != NameAt(HeaderOf(cells), j)
    {
      hide ColumnName, NameAt, HeaderOf;
      NameAtHeader(cells, i);
      NameAtHeader(cells, j);
      if ColumnName(i) == ColumnName(j) {
        ColumnNameInjective(i, j);
      }
    }
  }

  lemma DistinctIsNoClash(cells: PhysicalRow, n: nat)
    requires DistinctNames(HeaderOf(cells), n)
    ensures NoClash(cells, n)
  {
    hide ColumnName, NameAt, HeaderOf;
    forall i, j | 0 <= i < n && 0 <= j < n && Named(cells, i) && (if Named(cells, j) then i < j else true)
      ensures cells[i].text != if Named(cells, j) then cells[j].text else ColumnName(j)
    {
      NameAtHeader(cells, i);
      NameAtHeader(cells, j);
      var low, high := if i < j then i else j, if i < j then j else i;
      assert NameAt(HeaderOf(cells), low) != NameAt(HeaderOf(cells), high);
    }
  }

  /** Blank headers never collide with each other, but they can with a header that is spelled like
      a fallback: a row of `n` cells keeps them all exactly when there is no such clash, and then each
      is found under its own name. */
  lemma {:induction false} NothingDroppedIff(cells: PhysicalRow, row: PhysicalRow)
    ensures |ObjectOf(HeaderOf(cells), row)| == |row| <==> NoClash(cells, |row|)
    ensures NoClash(cells, |row|) ==> forall i :: 0 <= i < |row| ==> IsFound(HeaderOf(cells), row, i)
  {
    hide NoClash, DistinctNames, ObjectOf, HeaderOf;
    ObjectSize(HeaderOf(cells), row);
    if NoClash(cells, |row|) {
      NoClashIsDistinct(cells, |row|);
      forall i | 0 <= i < |row| ensures IsFound(HeaderOf(cells), row, i) {
        CellsFound(HeaderOf(cells), row, i);
      }
    }
    if DistinctNames(HeaderOf(cells), |row|) {
      DistinctIsNoClash(cells, |row|);
    }
  }

  /** The shortest clash: a blank header behind one that is spelled like its fallback. */
  lemma FallbackClashes(row: PhysicalRow)
    requires |row| == 2
    ensures |ObjectOf(HeaderOf([Str(ColumnName(1)), Null]), row)| < |row|
  {
    hide ObjectOf, HeaderOf, ColumnName;
    var cells: PhysicalRow := [Str(ColumnName(1)), Null];
    assert ColumnName(1) != [] by { FallbackIsText(); }
    assert Named(cells, 0) && Unnamed(cells, 1) && cells[0].text == ColumnName(1);
    NothingDroppedIff(cells, row);
    ObjectSize(HeaderOf(cells), row);
  }

  lemma FallbackIsText()
    ensures ColumnName(1) != []
  {
  }

  // ---------- Judging rows ----------

  /** What validation and deserialization make of an object. */
  datatype Verdict<T> = Fits(value: T) | Misfits(complaints: seq<Bytes>)

  datatype RowFault = RowFault(row: nat, complaint: Bytes)

  datatype RowOutcome<T> = Accepted(value: T) | Rejected(faults: seq<RowFault>)

  function Faults(row: nat, complaints: seq<Bytes>): (faults: seq<RowFault>)
    ensures |faults| == |complaints|
    ensures forall i :: 0 <= i < |faults| ==> faults[i] == RowFault(row, complaints[i])
  {
    seq(|complaints|, i requires 0 <= i < |complaints| => RowFault(row, complaints[i]))
  }

  function Outcome<T>(judge: Object -> Verdict<T>, header: seq<Bytes>, cells: PhysicalRow, row: nat): RowOutcome<T> {
    match judge(ObjectOf(header, cells))
    case Fits(value) => Accepted(value)
    case Misfits(complaints) => Rejected(Faults(row, complaints))
  }

  method AcceptRow<T>(judge: Object -> Verdict<T>, header: seq<Bytes>, cells: PhysicalRow, row: nat) returns (outcome: RowOutcome<T>)
    ensures outcome == Outcome(judge, header, cells, row)
  {
    var fields: Object := map[];
    for index := 0 to |cells|
      invariant fields == ObjectOf(header, cells[..index])
    {
      var name := if index < |header| then header[index] else ColumnName(index);
      assert cells[..index + 1][..index] == cells[..index];
      fields := fields[name := cells[index]];
    }
    assert cells[..|cells|] == cells;
    match judge(fields) {
      case Fits(value) => return Accepted(value);
      case Misfits(complaints) => return Rejected(Faults(row, complaints));
    }
  }

  // ---------- Chunks ----------

  /** A list cut into pieces of `size`, the last one possibly shorter. */
  function Chunked<T>(s: seq<T>, size: nat): seq<seq<T>>
    requires size > 0
    decreases |s|
  {
    if s == [] then [] else if |s| <= size then [s] else [s[..size]] + Chunked(s[size..], size)
  }

  function Flattened<T>(chunks: seq<seq<T>>): seq<T> {
    if chunks == [] then [] else chunks[0] + Flattened(chunks[1..])
  }

  /** Chunking loses, duplicates and reorders nothing; no chunk is empty and all but the last are
      full. */
  lemma {:induction false} ChunkedIsExact<T>(s: seq<T>, size: nat)
    requires size > 0
    ensures Flattened(Chunked(s, size)) == s
    ensures forall i :: 0 <= i < |Chunked(s, size)| ==> 0 < |Chunked(s, size)[i]| <= size
    ensures forall i :: 0 <= i < |Chunked(s, size)| - 1 ==> |Chunked(s, size)[i]| == size
    decreases |s|
  {
    if s == [] {
    } else if |s| <= size {
      assert Flattened([s]) == s + [];
    } else {
      var first, rest := s[..size], Chunked(s[size..], size);
      ChunkedIsExact(s[size..], size);
      assert Chunked(s, size) == [first] + rest;
      hide Chunked;
      FlattenedCons(first, rest);
      assert s == first + s[size..];
      SizesCons(first, rest, size);
    }
  }

  lemma FlattenedCons<T>(first: seq<T>, rest: seq<seq<T>>)
    ensures Flattened([first] + rest) == first + Flattened(rest)
  {
    assert ([first] + rest)[1..] == rest;
  }

  lemma SizesCons<T>(first: seq<T>, rest: seq<seq<T>>, size: nat)
    requires |first| == size > 0
    requires forall i :: 0 <= i < |rest| ==> 0 < |rest[i]| <= size
    requires forall i :: 0 <= i < |rest| - 1 ==> |rest[i]| == size
    ensures forall i :: 0 <= i < |[first] + rest| ==> 0 < |([first] + rest)[i]| <= size
    ensures forall i :: 0 <= i < |[first] + rest| - 1 ==> |([first] + rest)[i]| == size
  {
    var all := [first] + rest;
    assert forall i :: 0 < i < |all| ==> all[i] == rest[i - 1];
  }

  /** The full pieces only. */
  function FullChunks<T>(s: seq<T>, size: nat): seq<seq<T>>
    requires size > 0
    decreases |s|
  {
    if |s| < size then [] else [s[..size]] + FullChunks(s[size..], size)
  }

  /** What is left over after the full pieces. */
  function Remainder<T>(s: seq<T>, size: nat): (rest: seq<T>)
    requires size > 0
    ensures |rest| < size
    decreases |s|
  {
    if |s| < size then s else Remainder(s[size..], size)
  }

  /** Chunking is the full pieces, then what is left over if anything is. */
  lemma {:induction false} ChunkedIsFullAndRest<T>(s: seq<T>, size: nat)
    requires size > 0
    ensures Chunked(s, size)
         == FullChunks(s, size) + if Remainder(s, size) == [] then [] else [Remainder(s, size)]
    decreases |s|
  {
    if |s| >= size {
      ChunkedIsFullAndRest(s[size..], size);
      if |s| == size {
        assert s[..size] == s && s[size..] == [];
      }
    }
  }

  /** One more element either lengthens the remainder or completes a piece. */
  lemma {:induction false} PieceGrows<T>(s: seq<T>, size: nat, value: T)
    requires size > 0
    ensures var rest := Remainder(s, size) + [value];
      if |rest| < size then FullChunks(s + [value], size) == FullChunks(s, size) && Remainder(s + [value], size) == rest
      else FullChunks(s + [value], size) == FullChunks(s, size) + [rest] && Remainder(s + [value], size) == []
    decreases |s|
  {
    var longer := s + [value];
    if |s| >= size {
      PieceGrows(s[size..], size, value);
      assert longer[..size] == s[..size] && longer[size..] == s[size..] + [value];
    } else if |longer| == size {
      assert longer[..size] == longer && longer[size..] == [];
    }
  }

  /** The full pieces of a prefix are the first pieces of the whole. */
  lemma {:induction false} FullChunksOfPrefix<T>(s: seq<T>, whole: seq<T>, size: nat)
    requires size > 0 && s <= whole
    ensures FullChunks(s, size) <= Chunked(whole, size)
    decreases |s|
  {
    if |s| >= size {
      FullChunksOfPrefix(s[size..], whole[size..], size);
      assert whole[..size] == s[..size];
      if |whole| == size {
        assert s == whole && whole[..size] == whole && whole[size..] == [];
      }
    }
  }

  // ---------- A run ----------

  /** Physical rows as the reader yields them; an error is structural and fatal. */
  type Source = seq<Result<PhysicalRow, Bytes>>

  datatype ImportError = InvalidChunkSize | NotConfigured | EmptySource | Unreadable(message: Bytes) | SinkFailed

  datatype Report = Report(total: nat, imported: nat, failed: nat, faults: seq<RowFault>)

  /** How columns are named: the builder's settings. */
  datatype Settings = Settings(hasHeaders: bool, columns: Option<seq<Bytes>>)

  function HeaderOffset(s: Settings): nat {
    if s.hasHeaders then 1 else 0
  }

  /** The header, and the data rows left after it. Explicit columns consume a header row without
      looking at it, readable or not. */
  function ResolvedHeader(s: Settings, source: Source): Result<(seq<Bytes>, Source), ImportError> {
    match s.columns
    case Some(columns) => Ok((columns, if s.hasHeaders && source != [] then source[1..] else source))
    case None =>
      if !s.hasHeaders then Ok(([], source))
      else if source == [] then Err(EmptySource)
      else
        match source[0]
        case Err(message) => Err(Unreadable(message))
        case Ok(cells) => Ok((HeaderOf(cells), source[1..]))
  }

  /** What is being imported, by what rules: fixed for the whole run. */
  datatype Job<!T> = Job(judge: Object -> Verdict<T>, header: seq<Bytes>, offset: nat)

  function OutcomeAt<T>(job: Job<T>, data: Source, i: nat): RowOutcome<T>
    requires i < |data| && data[i].Ok?
  {
    Outcome(job.judge, job.header, data[i].value, i + 1 + job.offset)
  }

  predicate Readable(data: Source, n: nat) {
    n <= |data| && forall i :: 0 <= i < n ==> data[i].Ok?
  }

  /** The accepted values of the first `n` data rows, in order. */
  function AcceptedValues<T>(job: Job<T>, data: Source, n: nat): seq<T>
    requires Readable(data, n)
  {
    if n == 0 then []
    else
      AcceptedValues(job, data, n - 1)
        + match OutcomeAt(job, data, n - 1) case Accepted(value) => [value] case Rejected(_) => []
  }

  /** The faults of the first `n` data rows, in order. */
  function AllFaults<T>(job: Job<T>, data: Source, n: nat): seq<RowFault>
    requires Readable(data, n)
  {
    if n == 0 then []
    else
      AllFaults(job, data, n - 1)
        + match OutcomeAt(job, data, n - 1) case Accepted(_) => [] case Rejected(faults) => faults
  }

  /** Fault rows never go back, and lie within the rows read. */
  lemma {:induction false} FaultsAscend<T>(job: Job<T>, data: Source, n: nat)
    requires Readable(data, n)
    ensures forall i :: 0 <= i < |AllFaults(job, data, n)| ==> job.offset < AllFaults(job, data, n)[i].row <= n + job.offset
    ensures forall i, j :: 0 <= i < j < |AllFaults(job, data, n)| ==>
      AllFaults(job, data, n)[i].row <= AllFaults(job, data, n)[j].row
  {
    if n > 0 {
      FaultsAscend(job, data, n - 1);
    }
  }

  lemma {:induction false} AcceptedAtMost<T>(job: Job<T>, data: Source, n: nat)
    requires Readable(data, n)
    ensures |AcceptedValues(job, data, n)| <= n
  {
    if n > 0 {
      AcceptedAtMost(job, data, n - 1);
    }
  }

  /** The report on the first `n` data rows: every row is imported or failed. */
  function ReportOn<T>(job: Job<T>, data: Source, n: nat): Report
    requires Readable(data, n)
  {
    AcceptedAtMost(job, data, n);
    var imported := |AcceptedValues(job, data, n)|;
    Report(n, imported, n - imported, AllFaults(job, data, n))
  }

  /** A chunk sink: whether it takes the last of the chunks it has been handed so far. */
  type Sink<!T> = seq<seq<T>> -> bool

  /** The sink has taken every one of these chunks as it came. */
  ghost predicate AllTaken<T>(sink: Sink<T>, chunks: seq<seq<T>>) {
    forall k :: 0 < k <= |chunks| ==> sink(chunks[..k])
  }

  /** The sink took every chunk but the last, which it refused. */
  ghost predicate LastRefused<T>(sink: Sink<T>, chunks: seq<seq<T>>) {
    chunks != [] && AllTaken(sink, chunks[..|chunks| - 1]) && !sink(chunks)
  }

  lemma AllTakenSnoc<T>(sink: Sink<T>, chunks: seq<seq<T>>, chunk: seq<T>)
    requires AllTaken(sink, chunks)
    ensures sink(chunks + [chunk]) ==> AllTaken(sink, chunks + [chunk])
    ensures !sink(chunks + [chunk]) ==> LastRefused(sink, chunks + [chunk])
  {
    var longer := chunks + [chunk];
    assert longer[..|longer|] == longer && longer[..|chunks|] == chunks;
    assert forall k :: 0 < k <= |chunks| ==> longer[..k] == chunks[..k];
  }

  // ---------- An import, from its source ----------

  /** The name of a column without one is made of its index. */
  function NameOf(names: seq<Bytes>, i: nat): Bytes {
    if i < |names| then names[i] else Ascii("column_") + Decimal.Digits(i)
  }

  /** The names a header row gives: the text of each cell, or the made-up name where that is blank. */
  ghost predicate AreHeaderNames(cells: PhysicalRow, names: seq<Bytes>) {
    && |names| == |cells|
    && forall i :: 0 <= i < |cells| ==>
         names[i] == match cells[i]
           case Null => Ascii("column_") + Decimal.Digits(i)
           case Str(text) => if text == [] then Ascii("column_") + Decimal.Digits(i) else text
           case Other(text) => text
  }

  /** The names of the columns: those that were set, or the header row's, or none. */
  ghost predicate AreNames(s: Settings, source: Source, names: seq<Bytes>) {
    match s.columns
    case Some(columns) => names == columns
    case None =>
      if s.hasHeaders then source != [] && source[0].Ok? && AreHeaderNames(source[0].value, names) else names == []
  }

  /** How many rows are no data: the header row, if there is one, be it looked at or not. */
  function Skipped(s: Settings, source: Source): nat {
    if s.hasHeaders && source != [] then 1 else 0
  }

  /** Each cell under its name, a later one instead of an earlier one; and nothing else. */
  ghost predicate IsObjectOf(names: seq<Bytes>, cells: PhysicalRow, o: Object) {
    && (forall name :: name in o <==> exists i :: 0 <= i < |cells| && NameOf(names, i) == name)
    && forall i :: 0 <= i < |cells| && (forall j :: i < j < |cells| ==> NameOf(names, j) != NameOf(names, i)) ==>
         NameOf(names, i) in o && o[NameOf(names, i)] == cells[i]
  }

  /** What the judge makes of a row of the source. */
  ghost predicate Judges<T(!new)>(judge: Object -> Verdict<T>, names: seq<Bytes>, source: Source, p: int, v: Verdict<T>) {
    0 <= p < |source| && source[p].Ok? && exists o :: IsObjectOf(names, source[p].value, o) && judge(o) == v
  }

  /** The complaints about one row, in order. */
  function ComplaintsAt(faults: seq<RowFault>, row: nat): seq<Bytes> {
    if faults == [] then []
    else
      ComplaintsAt(faults[..|faults| - 1], row)
      + if faults[|faults| - 1].row == row then [faults[|faults| - 1].complaint] else []
  }

  /** The values of the rows from `skip` to `n` that fit, in order: each from a row of its own, the rows
      ascending, and none left out. */
  ghost predicate AreValues<T(!new)>(judge: Object -> Verdict<T>, names: seq<Bytes>, source: Source, skip: nat, n: nat,
                                     values: seq<T>, rows: seq<nat>) {
    && |rows| == |values|
    && (forall i, j :: 0 <= i < j < |rows| ==> rows[i] < rows[j])
    && (forall k :: 0 <= k < |rows| ==> skip <= rows[k] < n && Judges(judge, names, source, rows[k], Fits(values[k])))
    && (forall p, v :: skip <= p < n && Judges(judge, names, source, p, Fits(v)) ==> p in rows)
  }

  ghost predicate HasValues<T(!new)>(judge: Object -> Verdict<T>, names: seq<Bytes>, source: Source, skip: nat, n: nat,
                                     values: seq<T>) {
    exists rows :: AreValues(judge, names, source, skip, n, values, rows)
  }

  /** The faults of the rows from `skip` to `n`, in order: of each row its complaints, under its number
      in the source, counted from one. */
  ghost predicate AreFaults<T(!new)>(judge: Object -> Verdict<T>, names: seq<Bytes>, source: Source, skip: nat, n: nat,
                                     faults: seq<RowFault>) {
    && (forall i :: 0 <= i < |faults| ==> skip < faults[i].row <= n)
    && (forall i, j :: 0 <= i < j < |faults| ==> faults[i].row <= faults[j].row)
    && (forall p, v :: skip <= p < n && Judges(judge, names, source, p, v) ==>
          ComplaintsAt(faults, p + 1) == match v case Fits(_) => [] case Misfits(complaints) => complaints)
  }

  /** The report on the rows from `skip` to `n`, all readable, and the values among them. */
  ghost predicate IsReport<T(!new)>(judge: Object -> Verdict<T>, names: seq<Bytes>, source: Source, skip: nat, n: nat,
                                    report: Report, values: seq<T>) {
    && skip <= n <= |source| && (forall p :: skip <= p < n ==> source[p].Ok?)
    && report.total == n - skip && report.imported == |values| && report.imported + report.failed == report.total
    && HasValues(judge, names, source, skip, n, values)
    && AreFaults(judge, names, source, skip, n, report.faults)
  }

  lemma ColumnNameIs(i: nat)
    ensures ColumnName(i) == Ascii("column_") + Decimal.Digits(i)
  {
  }

  lemma NameAtIs(names: seq<Bytes>, i: nat)
    ensures NameAt(names, i) == NameOf(names, i)
  {
    ColumnNameIs(i);
  }

  lemma HeaderOfIs(cells: PhysicalRow)
    ensures AreHeaderNames(cells, HeaderOf(cells))
  {
    hide ColumnName;
    forall i | 0 <= i < |cells| ensures ColumnName(i) == Ascii("column_") + Decimal.Digits(i) {
      ColumnNameIs(i);
    }
  }

  lemma {:induction false} LastCellWins(names: seq<Bytes>, cells: PhysicalRow, i: nat)
    requires i < |cells| && forall j :: i < j < |cells| ==> NameAt(names, j) != NameAt(names, i)
    ensures NameAt(names, i) in ObjectOf(names, cells) && ObjectOf(names, cells)[NameAt(names, i)] == cells[i]
  {
    hide NameAt;
    if i < |cells| - 1 {
      LastCellWins(names, cells[..|cells| - 1], i);
    }
  }

  lemma ObjectOfIs(names: seq<Bytes>, cells: PhysicalRow)
    ensures IsObjectOf(names, cells, ObjectOf(names, cells))
  {
    hide ObjectOf, NameAt, NameOf;
    ObjectKeys(names, cells);
    forall i: nat ensures NameAt(names, i) == NameOf(names, i) {
      NameAtIs(names, i);
    }
    forall i | 0 <= i < |cells| && (forall j :: i < j < |cells| ==> NameOf(names, j) != NameOf(names, i))
      ensures NameOf(names, i) in ObjectOf(names, cells) && ObjectOf(names, cells)[NameOf(names, i)] == cells[i]
    {
      forall j | i < j < |cells| ensures NameAt(names, j) != NameAt(names, i) {
        assert NameOf(names, j) != NameOf(names, i);
      }
      LastCellWins(names, cells, i);
    }
  }

  /** There is only one object of a row. */
  lemma OneObject(names: seq<Bytes>, cells: PhysicalRow, o: Object, q: Object)
    requires IsObjectOf(names, cells, o) && IsObjectOf(names, cells, q)
    ensures o == q
  {
    hide NameOf;
    forall name | name in o ensures name in q && o[name] == q[name] {
      var i :| 0 <= i < |cells| && NameOf(names, i) == name;
      var last := LastNamed(names, cells, i);
      assert NameOf(names, last) == name;
    }
    forall name | name in q ensures name in o {
    }
  }

  lemma {:induction false} LastNamed(names: seq<Bytes>, cells: PhysicalRow, i: nat) returns (last: nat)
    requires i < |cells|
    ensures last < |cells| && NameOf(names, last) == NameOf(names, i)
    ensures forall j :: last < j < |cells| ==> NameOf(names, j) != NameOf(names, last)
    decreases |cells| - i
  {
    hide NameOf;
    if j :| i < j < |cells| && NameOf(names, j) == NameOf(names, i) {
      last := LastNamed(names, cells, j);
    } else {
      last := i;
    }
  }

  lemma JudgedIs<T(!new)>(judge: Object -> Verdict<T>, names: seq<Bytes>, source: Source, p: nat)
    requires p < |source| && source[p].Ok?
    ensures forall v :: Judges(judge, names, source, p, v) <==> v == judge(ObjectOf(names, source[p].value))
  {
    hide IsObjectOf, ObjectOf;
    ObjectOfIs(names, source[p].value);
    forall o | IsObjectOf(names, source[p].value, o) ensures o == ObjectOf(names, source[p].value) {
      OneObject(names, source[p].value, o, ObjectOf(names, source[p].value));
    }
  }

  lemma {:induction false} ComplaintsAppend(a: seq<RowFault>, b: seq<RowFault>, row: nat)
    ensures ComplaintsAt(a + b, row) == ComplaintsAt(a, row) + ComplaintsAt(b, row)
    decreases |b|
  {
    if b == [] {
      assert a + b == a;
    } else {
      var front := b[..|b| - 1];
      assert (a + b)[..|a + b| - 1] == a + front;
      ComplaintsAppend(a, front, row);
    }
  }

  lemma FaultsSnoc(row: nat, complaints: seq<Bytes>, last: Bytes)
    ensures Faults(row, complaints + [last]) == Faults(row, complaints) + [RowFault(row, last)]
  {
  }

  lemma OneComplaint(fault: RowFault, row: nat)
    ensures ComplaintsAt([fault], row) == if fault.row == row then [fault.complaint] else []
  {
    assert [fault][..0] == [];
  }

  lemma {:induction false} ComplaintsOfRow(row: nat, complaints: seq<Bytes>, r: nat)
    ensures ComplaintsAt(Faults(row, complaints), r) == if r == row then complaints else []
  {
    if complaints != [] {
      var front := complaints[..|complaints| - 1];
      FaultsSnoc(row, front, complaints[|complaints| - 1]);
      assert complaints == front + [complaints[|complaints| - 1]];
      hide Faults;
      ComplaintsOfRow(row, front, r);
      ComplaintsAppend(Faults(row, front), [RowFault(row, complaints[|complaints| - 1])], r);
      OneComplaint(RowFault(row, complaints[|complaints| - 1]), r);
    }
  }

  lemma {:induction false} NoComplaints(faults: seq<RowFault>, row: nat)
    requires forall i :: 0 <= i < |faults| ==> faults[i].row != row
    ensures ComplaintsAt(faults, row) == []
  {
    if faults != [] {
      NoComplaints(faults[..|faults| - 1], row);
    }
  }

  /** One more row of the source. */
  lemma ReportGrows<T(!new)>(judge: Object -> Verdict<T>, names: seq<Bytes>, source: Source, skip: nat, n: nat,
                             report: Report, values: seq<T>)
    requires IsReport(judge, names, source, skip, n, report, values) && n < |source| && source[n].Ok?
    ensures match judge(ObjectOf(names, source[n].value))
      case Fits(value) =>
        IsReport(judge, names, source, skip, n + 1,
          report.(total := report.total + 1, imported := report.imported + 1), values + [value])
      case Misfits(complaints) =>
        IsReport(judge, names, source, skip, n + 1,
          report.(total := report.total + 1, failed := report.failed + 1,
                  faults := report.faults + Faults(n + 1, complaints)), values)
  {
    hide ObjectOf, Judges, ComplaintsAt, Faults, AreFaults, HasValues;
    JudgedIs(judge, names, source, n);
    ValuesGrow(judge, names, source, skip, n, values);
    var verdict := judge(ObjectOf(names, source[n].value));
    var complaints := match verdict case Fits(_) => [] case Misfits(c) => c;
    FaultsGrow(judge, names, source, skip, n, report.faults, complaints);
    if verdict.Fits? {
      assert Faults(n + 1, []) == [] && report.faults + [] == report.faults by { NoFaults(n + 1); }
    }
  }

  lemma NoFaults(row: nat)
    ensures Faults(row, []) == []
  {
  }

  lemma ValuesGrow<T(!new)>(judge: Object -> Verdict<T>, names: seq<Bytes>, source: Source, skip: nat, n: nat, values: seq<T>)
    requires skip <= n < |source| && source[n].Ok? && HasValues(judge, names, source, skip, n, values)
    requires forall v :: Judges(judge, names, source, n, v) <==> v == judge(ObjectOf(names, source[n].value))
    ensures match judge(ObjectOf(names, source[n].value))
      case Fits(value) => HasValues(judge, names, source, skip, n + 1, values + [value])
      case Misfits(_) => HasValues(judge, names, source, skip, n + 1, values)
  {
    hide ObjectOf, Judges;
    var rows :| AreValues(judge, names, source, skip, n, values, rows);
    match judge(ObjectOf(names, source[n].value))
    case Fits(value) => assert AreValues(judge, names, source, skip, n + 1, values + [value], rows + [n]);
    case Misfits(_) => assert AreValues(judge, names, source, skip, n + 1, values, rows);
  }

  lemma FaultsGrow<T(!new)>(judge: Object -> Verdict<T>, names: seq<Bytes>, source: Source, skip: nat, n: nat,
                            faults: seq<RowFault>, complaints: seq<Bytes>)
    requires skip <= n < |source| && AreFaults(judge, names, source, skip, n, faults)
    requires forall v :: Judges(judge, names, source, n, v) ==>
      complaints == match v case Fits(_) => [] case Misfits(c) => c
    ensures AreFaults(judge, names, source, skip, n + 1, faults + Faults(n + 1, complaints))
  {
    hide Judges, ComplaintsAt;
    var own := Faults(n + 1, complaints);
    forall p, v | skip <= p < n + 1 && Judges(judge, names, source, p, v)
      ensures ComplaintsAt(faults + own, p + 1) == match v case Fits(_) => [] case Misfits(c) => c
    {
      ComplaintsAppend(faults, own, p + 1);
      ComplaintsOfRow(n + 1, complaints, p + 1);
      if p == n {
        NoComplaints(faults, n + 1);
      }
    }
  }

  /** What the model counts over the data rows is what the source holds. */
  lemma {:induction false} ReportOnIs<T(!new)>(judge: Object -> Verdict<T>, names: seq<Bytes>, s: Settings, source: Source, n: nat)
    requires Skipped(s, source) + n <= |source| && Readable(source[Skipped(s, source)..], n)
    ensures var skip, data, job := Skipped(s, source), source[Skipped(s, source)..], Job(judge, names, HeaderOffset(s));
      IsReport(judge, names, source, skip, skip + n, ReportOn(job, data, n), AcceptedValues(job, data, n))
  {
    var skip, data, job := Skipped(s, source), source[Skipped(s, source)..], Job(judge, names, HeaderOffset(s));
    if n == 0 {
      assert AreValues(judge, names, source, skip, skip, [], []);
      assert ReportOn(job, data, 0).faults == [];
    } else {
      hide IsReport, Outcome, ObjectOf, ReportOn, AcceptedValues, Faults;
      ReportOnIs(judge, names, s, source, n - 1);
      var report, values := ReportOn(job, data, n - 1), AcceptedValues(job, data, n - 1);
      assert data[n - 1] == source[skip + n - 1];
      ReportGrows(judge, names, source, skip, skip + n - 1, report, values);
      OutcomeIs(judge, names, data[n - 1].value, n + job.offset);
      match judge(ObjectOf(names, data[n - 1].value))
      case Fits(value) => NextAccepted(job, data, n - 1, value);
      case Misfits(complaints) => NextRejected(job, data, n - 1, Faults(n + job.offset, complaints));
    }
  }

  lemma OutcomeIs<T>(judge: Object -> Verdict<T>, names: seq<Bytes>, cells: PhysicalRow, row: nat)
    ensures Outcome(judge, names, cells, row) == match judge(ObjectOf(names, cells))
      case Fits(value) => Accepted(value)
      case Misfits(complaints) => Rejected(Faults(row, complaints))
  {
  }

  /** Which rows are data, under which names, and when there are none of either. */
  lemma ResolvedHeaderIs(s: Settings, source: Source)
    ensures match ResolvedHeader(s, source)
      case Ok((names, data)) => AreNames(s, source, names) && data == source[Skipped(s, source)..]
      case Err(EmptySource) => s.columns == None && s.hasHeaders && source == []
      case Err(Unreadable(message)) => s.columns == None && s.hasHeaders && source != [] && source[0] == Err(message)
      case Err(_) => false
  {
    if s.columns == None && s.hasHeaders && source != [] && source[0].Ok? {
      HeaderOfIs(source[0].value);
    }
  }

  class ImportBuilder<T(!new)> {
    const settings: Settings
    const chunkSize: nat
    const judge: Object -> Verdict<T>
    const sink: Option<Sink<T>>
    var source: Option<Source>
    /** The chunks the sink has been handed. */
    var chunks: seq<seq<T>>

    constructor (settings: Settings, chunkSize: nat, judge: Object -> Verdict<T>, sink: Option<Sink<T>>, source: Option<Source>)
      ensures this.settings == settings && this.chunkSize == chunkSize && this.judge == judge
      ensures this.sink == sink && this.source == source && chunks == []
    {
      this.settings, this.chunkSize, this.judge, this.sink := settings, chunkSize, judge, sink;
      this.source, chunks := source, [];
    }

    /** Hand a non-empty buffer to the sink, if there is one. */
    method Flush(buffer: seq<T>) returns (ok: bool)
      modifies this`chunks
      ensures chunks == if buffer == [] || sink == None then old(chunks) else old(chunks) + [buffer]
      ensures ok <==> buffer == [] || sink == None || sink.value(chunks)
    {
      if buffer == [] || sink == None {
        return true;
      }
      chunks := chunks + [buffer];
      return sink.value(chunks);
    }

    /** The chunks delivered are these, and the sink took them all. */
    ghost predicate Delivered(wanted: seq<seq<T>>)
      reads this`chunks
    {
      if sink == None then chunks == [] else chunks == wanted && AllTaken(sink.value, wanted)
    }

    /** Deliver the next chunk: it is taken, or it is the first to be refused. */
    method Deliver(buffer: seq<T>, ghost before: seq<seq<T>>) returns (ok: bool)
      requires buffer != [] && Delivered(before)
      modifies this`chunks
      ensures ok ==> Delivered(before + [buffer])
      ensures !ok ==> sink.Some? && chunks == before + [buffer] && LastRefused(sink.value, chunks)
    {
      if sink.Some? {
        AllTakenSnoc(sink.value, before, buffer);
      }
      ok := Flush(buffer);
    }

    method Run() returns (r: Result<Report, ImportError>)
      requires chunks == []
      modifies this
      ensures chunkSize == 0 ==> r == Err(InvalidChunkSize) && chunks == []
      ensures chunkSize > 0 && old(source) == None ==> r == Err(NotConfigured) && chunks == []
      ensures chunkSize > 0 && old(source).Some? ==>
        match ResolvedHeader(settings, old(source).value)
        case Err(e) => r == Err(e) && chunks == []
        case Ok((header, data)) => RunMeans(Job(judge, header, HeaderOffset(settings)), data, r)
      ensures chunkSize > 0 && old(source).Some? ==> IsImportOf(old(source).value, r)
    {
      if chunkSize == 0 {
        return Err(InvalidChunkSize);
      }
      var taken := source;
      source := None;
      if taken == None {
        return Err(NotConfigured);
      }
      var resolved := ResolvedHeader(settings, taken.value);
      ResolvedHeaderIs(settings, taken.value);
      if resolved.Err? {
        return Err(resolved.error);
      }
      hide *;
      var (header, data) := resolved.value;
      r := ReadRows(header, data);
      ImportIs(taken.value, header, r);
    }

    /** What an import makes of its source: the report and the chunks delivered, or the error it ends
        with and the chunks delivered before. */
    ghost predicate IsImportOf(source: Source, r: Result<Report, ImportError>)
      requires chunkSize > 0
      reads this`chunks
    {
      var skip := Skipped(settings, source);
      match r
      case Ok(report) =>
        exists names, values ::
          && AreNames(settings, source, names) && IsReport(judge, names, source, skip, |source|, report, values)
          && Delivered(Chunked(values, chunkSize))
      case Err(EmptySource) => settings.columns == None && settings.hasHeaders && source == [] && chunks == []
      case Err(Unreadable(message)) =>
        || (settings.columns == None && settings.hasHeaders && source != [] && source[0] == Err(message) && chunks == [])
        || exists names, n: nat, report, values ::
             && AreNames(settings, source, names) && IsReport(judge, names, source, skip, n, report, values)
             && n < |source| && source[n] == Err(message)
             && Delivered(FullChunks(values, chunkSize))
      case Err(SinkFailed) =>
        && sink.Some? && LastRefused(sink.value, chunks)
        && exists names, n: nat, report, values ::
             && AreNames(settings, source, names) && IsReport(judge, names, source, skip, n, report, values)
             && (n == |source| || source[n].Err?) && chunks <= Chunked(values, chunkSize)
      case Err(_) => false
    }

    lemma ImportIs(source: Source, names: seq<Bytes>, r: Result<Report, ImportError>)
      requires chunkSize > 0 && AreNames(settings, source, names)
      requires RunMeans(Job(judge, names, HeaderOffset(settings)), source[Skipped(settings, source)..], r)
      ensures IsImportOf(source, r)
    {
      hide AreNames, IsReport, Chunked, FullChunks, Delivered, AcceptedValues, ReportOn, LastRefused;
      var skip, job := Skipped(settings, source), Job(judge, names, HeaderOffset(settings));
      var data := source[skip..];
      var n := FirstUnreadable(data, 0);
      ReportOnIs(judge, names, settings, source, n);
      var report, values := ReportOn(job, data, n), AcceptedValues(job, data, n);
      assert IsReport(judge, names, source, skip, skip + n, report, values);
      assert n < |data| ==> data[n] == source[skip + n];
    }

    /** The loop over the data rows. */
    method ReadRows(header: seq<Bytes>, data: Source) returns (r: Result<Report, ImportError>)
      requires chunkSize > 0 && chunks == []
      modifies this`chunks
      ensures RunMeans(Job(judge, header, HeaderOffset(settings)), data, r)
    {
      hide *;
      var offset := HeaderOffset(settings);
      ghost var job := Job(judge, header, offset);
      var report := Report(0, 0, 0, []);
      var buffer: seq<T> := [];
      NothingRead(job, data);
      for i := 0 to |data|
        invariant HasRead(job, data, i, report, buffer)
      {
        if data[i].Err? {
          Stopped(job, data, i, report, buffer);
          return Err(Unreadable(data[i].error));
        }
        var outcome := AcceptRow(judge, header, data[i].value, i + 1 + offset);
        var ok;
        ok, report, buffer := Count(job, data, i, outcome, report, buffer);
        if !ok {
          return Err(SinkFailed);
        }
      }
      r := Finish(job, data, buffer, report);
    }

    /** After `n` data rows: what the report says, what is buffered, what has been delivered. */
    ghost predicate HasRead(job: Job<T>, data: Source, n: int, report: Report, buffer: seq<T>)
      reads this`chunks
    {
      && chunkSize > 0 && 0 <= n <= |data| && Readable(data, n)
      && Delivered(FullChunks(AcceptedValues(job, data, n), chunkSize))
      && buffer == Remainder(AcceptedValues(job, data, n), chunkSize)
      && report == ReportOn(job, data, n)
    }

    lemma NothingRead(job: Job<T>, data: Source)
      requires chunkSize > 0 && chunks == []
      ensures HasRead(job, data, 0, Report(0, 0, 0, []), [])
    {
    }

    /** Enter the outcome of a row in the report, and buffer the value of an accepted one. */
    method Count(ghost job: Job<T>, ghost data: Source, ghost i: nat, outcome: RowOutcome<T>, before: Report, held: seq<T>)
      returns (ok: bool, report: Report, buffer: seq<T>)
      requires HasRead(job, data, i, before, held) && i < |data| && data[i].Ok?
      requires outcome == Outcome(job.judge, job.header, data[i].value, i + 1 + job.offset)
      modifies this`chunks
      ensures ok ==> HasRead(job, data, i + 1, report, buffer)
      ensures !ok ==> RunMeans(job, data, Err(SinkFailed))
    {
      hide FullChunks, Remainder, Delivered, LastRefused, Outcome, AcceptedValues, ReportOn, RunMeans, Chunked, Readable;
      report, buffer, ok := before, held, true;
      match outcome {
        case Accepted(value) =>
          NextAccepted(job, data, i, value);
          report := report.(imported := report.imported + 1);
          ok, buffer := Keep(value, buffer, AcceptedValues(job, data, i));
          if !ok {
            Refused(job, data, i + 1);
            return;
          }
        case Rejected(faults) =>
          NextRejected(job, data, i, faults);
          report := report.(failed := report.failed + 1, faults := report.faults + faults);
      }
      report := report.(total := report.total + 1);
    }

    /** A structural error is fatal where it is met. */
    lemma Stopped(job: Job<T>, data: Source, i: nat, report: Report, buffer: seq<T>)
      requires HasRead(job, data, i, report, buffer) && i < |data| && data[i].Err?
      ensures RunMeans(job, data, Err(Unreadable(data[i].error)))
    {
      hide FullChunks, Delivered, LastRefused, AcceptedValues;
      StopsAt(data, i);
    }

    /** So is a refusal of the sink. */
    lemma Refused(job: Job<T>, data: Source, n: nat)
      requires chunkSize > 0 && Readable(data, n) && sink.Some? && LastRefused(sink.value, chunks)
      requires chunks == FullChunks(AcceptedValues(job, data, n), chunkSize)
      ensures RunMeans(job, data, Err(SinkFailed))
    {
      hide FullChunks, Chunked, Delivered, LastRefused, AcceptedValues;
      Undelivered(job, data, n, chunkSize);
    }

    /** Buffer one accepted value, and deliver the buffer when it is full. */
    method Keep(value: T, buffer: seq<T>, ghost values: seq<T>) returns (ok: bool, kept: seq<T>)
      requires chunkSize > 0 && buffer == Remainder(values, chunkSize) && Delivered(FullChunks(values, chunkSize))
      modifies this`chunks
      ensures ok ==> kept == Remainder(values + [value], chunkSize) && Delivered(FullChunks(values + [value], chunkSize))
      ensures !ok ==> sink.Some? && LastRefused(sink.value, chunks) && chunks == FullChunks(values + [value], chunkSize)
    {
      hide FullChunks, Remainder, Delivered, LastRefused;
      PieceGrows(values, chunkSize, value);
      kept := buffer + [value];
      ok := true;
      if |kept| >= chunkSize {
        ok := Deliver(kept, FullChunks(values, chunkSize));
        kept := [];
      }
    }

    /** What is left in the buffer goes out last. */
    method Finish(ghost job: Job<T>, ghost data: Source, buffer: seq<T>, report: Report) returns (r: Result<Report, ImportError>)
      requires HasRead(job, data, |data|, report, buffer)
      modifies this`chunks
      ensures RunMeans(job, data, r)
    {
      hide FullChunks, Remainder, AcceptedValues, ReportOn, Chunked, LastRefused;
      ReadToTheEnd(data);
      ghost var full := FullChunks(AcceptedValues(job, data, |data|), chunkSize);
      ChunkedIsFullAndRest(AcceptedValues(job, data, |data|), chunkSize);
      if buffer == [] {
        assert full + [] == full;
        return Ok(report);
      }
      var ok := Deliver(buffer, full);
      if !ok {
        return Err(SinkFailed);
      }
      return Ok(report);
    }

    /** What a result says of the data rows and of the chunks delivered. */
    ghost predicate RunMeans(job: Job<T>, data: Source, r: Result<Report, ImportError>)
      requires chunkSize > 0
      reads this`chunks
    {
      var n := FirstUnreadable(data, 0);
      match r
      case Ok(report) =>
        && n == |data|
        && report == ReportOn(job, data, n)
        && Delivered(Chunked(AcceptedValues(job, data, n), chunkSize))
      case Err(Unreadable(message)) =>
        && n < |data| && data[n] == Err(message)
        && Delivered(FullChunks(AcceptedValues(job, data, n), chunkSize))
      case Err(SinkFailed) =>
        && sink.Some? && LastRefused(sink.value, chunks)
        && chunks <= Chunked(AcceptedValues(job, data, n), chunkSize)
      case Err(_) => false
    }
  }

  /** The first structural error from `i` on, or how many rows there are. */
  function FirstUnreadable(data: Source, i: nat): (n: nat)
    requires i <= |data|
    ensures i <= n <= |data|
    ensures forall k :: i <= k < n ==> data[k].Ok?
    ensures n < |data| ==> data[n].Err?
    decreases |data| - i
  {
    if i == |data| || data[i].Err? then i else FirstUnreadable(data, i + 1)
  }

  lemma StopsAt(data: Source, i: nat)
    requires i < |data| && Readable(data, i) && data[i].Err?
    ensures FirstUnreadable(data, 0) == i
  {
  }

  lemma ReadToTheEnd(data: Source)
    requires Readable(data, |data|)
    ensures FirstUnreadable(data, 0) == |data|
  {
  }

  lemma NextAccepted<T>(job: Job<T>, data: Source, i: nat, value: T)
    requires i < |data| && Readable(data, i) && data[i].Ok?
    requires Outcome(job.judge, job.header, data[i].value, i + 1 + job.offset) == Accepted(value)
    ensures Readable(data, i + 1)
    ensures AcceptedValues(job, data, i + 1) == AcceptedValues(job, data, i) + [value]
    ensures ReportOn(job, data, i + 1)
         == ReportOn(job, data, i).(imported := ReportOn(job, data, i).imported + 1, total := ReportOn(job, data, i).total + 1)
  {
    assert AllFaults(job, data, i) + [] == AllFaults(job, data, i);
  }

  lemma NextRejected<T>(job: Job<T>, data: Source, i: nat, faults: seq<RowFault>)
    requires i < |data| && Readable(data, i) && data[i].Ok?
    requires Outcome(job.judge, job.header, data[i].value, i + 1 + job.offset) == Rejected(faults)
    ensures Readable(data, i + 1)
    ensures AcceptedValues(job, data, i + 1) == AcceptedValues(job, data, i)
    ensures var before := ReportOn(job, data, i);
      ReportOn(job, data, i + 1)
      == before.(failed := before.failed + 1, faults := before.faults + faults, total := before.total + 1)
  {
    assert AcceptedValues(job, data, i) + [] == AcceptedValues(job, data, i);
  }

  lemma {:induction false} AcceptedPrefix<T>(job: Job<T>, data: Source, m: nat, n: nat)
    requires Readable(data, n) && m <= n
    ensures AcceptedValues(job, data, m) <= AcceptedValues(job, data, n)
  {
    if m < n {
      AcceptedPrefix(job, data, m, n - 1);
    }
  }

  /** The full chunks of the rows read so far begin the chunks of all the rows that can be read. */
  lemma Undelivered<T>(job: Job<T>, data: Source, m: nat, size: nat)
    requires Readable(data, m) && size > 0
    ensures FullChunks(AcceptedValues(job, data, m), size)
         <= Chunked(AcceptedValues(job, data, FirstUnreadable(data, 0)), size)
  {
    var n := FirstUnreadable(data, 0);
    AcceptedPrefix(job, data, m, n);
    FullChunksOfPrefix(AcceptedValues(job, data, m), AcceptedValues(job, data, n), size);
  }
}
