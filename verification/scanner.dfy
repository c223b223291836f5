/** The reverse log scanner of `BaseLogDataLoader` and the capabilities that
    drive it: a line formatter, an ordered chain of line filters and a reader
    breaker. A file is given as its rows, already split into fields; the
    newest row is the last one. */
module Scanner {
  import opened Wrappers

  /** One physical line of the file, split into fields. */
  type Row = seq<string>

  /** `lineFormatter.format(line)`; a failure is an exception that escapes. */
  type Formatter<R, E> = Row -> Result<R, E>

  /** `filter.accept(lineContent)`. */
  type Filter<!R> = R -> bool

  /** `readerBreaker.breakFromThisLine(lineIndex, lineNum, totalReadLineCount, lineContent)`. */
  type Breaker<!R> = (nat, nat, nat, R) -> bool

  // ---------------------------------------------------------------------------
  // Default capabilities and the last-accepted breaker
  // ---------------------------------------------------------------------------

  /** `BaseLineFormatter.format`: the raw fields are the record. */
  function BaseFormat<E>(row: Row): Result<Row, E> {
    Success(row)
  }

  /** `BaseLogLineFilter.accept`: accepts everything. */
  function BaseAccept<R>(record: R): bool {
    true
  }

  /** `BaseReaderBreaker.breakFromThisLine`: never stops. */
  function BaseBreak<R>(lineIndex: nat, lineNum: nat, count: nat, record: R): bool {
    false
  }

  /** `LastAcceptedReaderBreaker.breakFromThisLine`: stops once anything has
      been accepted. */
  function LastAcceptedBreak<R>(lineIndex: nat, lineNum: nat, count: nat, record: R): bool {
    count > 0
  }

  /** A breaker that looks at the record alone, as the server time breaker does. */
  function RecordBreaker<R>(stop: R -> bool): Breaker<R> {
    (lineIndex: nat, lineNum: nat, count: nat, record: R) => stop(record)
  }

  // ---------------------------------------------------------------------------
  // The filter chain
  // ---------------------------------------------------------------------------

  /** Every filter of the chain accepts `record`. */
  predicate PassesAll<R>(filters: seq<Filter<R>>, record: R) {
    forall k :: 0 <= k < |filters| ==> filters[k](record)
  }

  /** The position at which the left-to-right chain stops: the first filter
      that rejects, or `None` when all accept and the record is kept. */
  function FirstRejection<R>(filters: seq<Filter<R>>, record: R): (stop: Option<nat>)
    ensures stop.Some? ==> stop.value < |filters| && !filters[stop.value](record)
    ensures stop.Some? ==> forall k :: 0 <= k < stop.value ==> filters[k](record)
    ensures stop.None? <==> PassesAll(filters, record)
    decreases |filters|
  {
    if |filters| == 0 then None
    else if !filters[0](record) then Some(0)
    else match FirstRejection(filters[1..], record)
      case None => None
      case Some(k) => Some(k + 1)
  }

  /** The decision of lines 118-128: no filter list keeps everything, otherwise
      the chain must run to its end without a rejection. */
  function Accepts<R>(filters: Option<seq<Filter<R>>>, record: R): (keep: bool)
    ensures keep <==> filters.None? || PassesAll(filters.value, record)
  {
    match filters
    case None => true
    case Some(chain) => FirstRejection(chain, record).None?
  }

  /** The decision of lines 113-116: no breaker never stops. */
  predicate Breaks<R>(breaker: Option<Breaker<R>>, lineIndex: nat, lineNum: nat, count: nat, record: R) {
    breaker.Some? && breaker.value(lineIndex, lineNum, count, record)
  }

  // ---------------------------------------------------------------------------
  // The scan
  // ---------------------------------------------------------------------------

  /** Rows with at least one field, in file order. */
  function NonEmptyRows(rows: seq<Row>): (kept: seq<Row>)
    ensures |kept| <= |rows|
    ensures forall k :: 0 <= k < |kept| ==> |kept[k]| > 0
    decreases |rows|
  {
    if |rows| == 0 then []
    else
      var last := rows[|rows| - 1];
      var older := rows[..|rows| - 1];
      assert rows == older + [last];
      NonEmptyRows(older) + (if |last| == 0 then [] else [last])
  }

  /** The visited rows are exactly the non-empty rows of the file: each
      non-empty row appears as often as in the file, an empty one never. */
  lemma NonEmptyRowsCounts(rows: seq<Row>)
    ensures forall x :: multiset(NonEmptyRows(rows))[x] == if |x| > 0 then multiset(rows)[x] else 0
  {
    forall x {
      NonEmptyRowsCount(rows, x);
    }
  }

  /** How often one row occurs among the visited rows. */
  lemma {:induction false} NonEmptyRowsCount(rows: seq<Row>, x: Row)
    ensures multiset(NonEmptyRows(rows))[x] == if |x| > 0 then multiset(rows)[x] else 0
    decreases |rows|
  {
    if |rows| > 0 {
      var last := rows[|rows| - 1];
      var older := rows[..|rows| - 1];
      NonEmptyRowsCount(older, x);
      assert rows == older + [last];
      assert NonEmptyRows(rows) == NonEmptyRows(older) + (if |last| == 0 then [] else [last]);
    }
  }

  /** How the loop of lines 103-130 ends: it runs out of lines, it breaks, or
      a formatter raises. */
  datatype Walked<R, E> = Exhausted(records: seq<R>) | Broke(records: seq<R>) | Raised(error: E)

  /** What one pass of the loop body does with a line. */
  datatype Step<R, E> = Next(records: seq<R>) | Stop | Raise(error: E)

  /** The loop body of lines 104-130 for one line, seen at 1-based index
      `lineIndex` from the end and line number `lineNum`, with `acc` accepted
      so far: an empty line is skipped; the formatter runs, then the breaker
      sees the formatted record, and only then the filter chain. */
  function VisitLine<R, E>(line: Row, lineIndex: nat, lineNum: nat, acc: seq<R>,
                           format: Formatter<R, E>, filters: Option<seq<Filter<R>>>,
                           breaker: Option<Breaker<R>>): (step: Step<R, E>)
    ensures |line| == 0 ==> step == Next(acc)
    ensures step.Raise? <==> |line| > 0 && format(line).Failure?
    ensures step.Stop? <==> |line| > 0 && format(line).Success? && Breaks(breaker, lineIndex, lineNum, |acc|, format(line).value)
    ensures step.Next? && step.records != acc ==>
              |line| > 0 && format(line).Success? && Accepts(filters, format(line).value)
              && step.records == acc + [format(line).value]
    ensures |line| > 0 && format(line).Success? && !Breaks(breaker, lineIndex, lineNum, |acc|, format(line).value) ==>
              step == Next(if Accepts(filters, format(line).value) then acc + [format(line).value] else acc)
  {
    if |line| == 0 then Next(acc)
    else if format(line).Failure? then Raise(format(line).error)
    else
      var data := format(line).value;
      if Breaks(breaker, lineIndex, lineNum, |acc|, data) then Stop
      else if Accepts(filters, data) then Next(acc + [data])
      else Next(acc)
  }

  /** The loop of lines 103-130 from the point where `pending` (oldest first)
      are the rows still to visit, `visited` rows have been visited, the file
      has `total` rows and `acc` has been accepted so far. The next row is the
      last of `pending`; its 1-based index from the end is `visited + 1` and
      its line number `total - (visited + 1)`. */
  function Walk<R, E>(pending: seq<Row>, visited: nat, total: nat, acc: seq<R>,
                      format: Formatter<R, E>, filters: Option<seq<Filter<R>>>,
                      breaker: Option<Breaker<R>>): Walked<R, E>
    requires visited + |pending| <= total
    decreases |pending|
  {
    if |pending| == 0 then Exhausted(acc)
    else
      var lineIndex := visited + 1;
      match VisitLine(pending[|pending| - 1], lineIndex, total - lineIndex, acc, format, filters, breaker)
      case Raise(e) => Raised(e)
      case Stop => Broke(acc)
      case Next(records) => Walk(pending[..|pending| - 1], lineIndex, total, records, format, filters, breaker)
  }

  /** Whatever stops the walk, what it returns extends what it was given by
      records the filter chain accepted, at most one per non-empty row. */
  lemma {:induction false} WalkKeepsAccepted<R, E>(pending: seq<Row>, visited: nat, total: nat, acc: seq<R>,
                                                   format: Formatter<R, E>, filters: Option<seq<Filter<R>>>,
                                                   breaker: Option<Breaker<R>>)
    requires visited + |pending| <= total
    ensures var w := Walk(pending, visited, total, acc, format, filters, breaker);
            && (!w.Raised? ==> acc <= w.records)
            && (!w.Raised? ==> |w.records| <= |acc| + |NonEmptyRows(pending)|)
            && (!w.Raised? ==> forall k :: |acc| <= k < |w.records| ==> Accepts(filters, w.records[k]))
            && (breaker.None? ==> !w.Broke?)
    decreases |pending|
  {
    if |pending| > 0 {
      var line := pending[|pending| - 1];
      var older := pending[..|pending| - 1];
      assert pending == older + [line];
      assert NonEmptyRows(pending) == NonEmptyRows(older) + (if |line| == 0 then [] else [line]);
      match VisitLine(line, visited + 1, total - (visited + 1), acc, format, filters, breaker)
      case Raise(e) =>
      case Stop =>
      case Next(records) =>
        WalkKeepsAccepted(older, visited + 1, total, records, format, filters, breaker);
    }
  }

  /** `__read_data_from_file` on an existing file: the records accepted, newest
      first, or the exception a formatter raised. Whatever stopped the scan,
      each record passed the filter chain and came from a distinct non-empty
      row. */
  function ReadData<R, E>(rows: seq<Row>, format: Formatter<R, E>,
                          filters: Option<seq<Filter<R>>>,
                          breaker: Option<Breaker<R>>): (r: Result<seq<R>, E>)
    ensures r.Success? ==> |r.value| <= |NonEmptyRows(rows)|
    ensures r.Success? ==> forall k :: 0 <= k < |r.value| ==> Accepts(filters, r.value[k])
  {
    WalkKeepsAccepted(rows, 0, |rows|, [], format, filters, breaker);
    match Walk(rows, 0, |rows|, [], format, filters, breaker)
    case Raised(e) => Failure(e)
    case Exhausted(records) => Success(records)
    case Broke(records) => Success(records)
  }

  /** `_get_data_from_file`: `None` for a path that is not a file, which is
      never confused with a scan that found nothing. */
  function GetDataFromFile<R, E>(file: Option<seq<Row>>, format: Formatter<R, E>,
                                 filters: Option<seq<Filter<R>>>,
                                 breaker: Option<Breaker<R>>): (r: Result<Option<seq<R>>, E>)
    ensures r == Success(None) <==> file.None?
    ensures r.Success? && r.value.Some? ==> file.Some? && ReadData(file.value, format, filters, breaker) == Success(r.value.value)
    ensures r.Failure? ==> file.Some? && ReadData(file.value, format, filters, breaker) == Failure(r.error)
  {
    match file
    case None => Success(None)
    case Some(rows) =>
      match ReadData(rows, format, filters, breaker)
      case Failure(e) => Failure(e)
      case Success(records) => Success(Some(records))
  }

  /** The inner loop of lines 121-125: ask each filter in turn, stopping at
      the first rejection. */
  method RunFilters<R>(chain: seq<Filter<R>>, data: R) returns (accepted: bool)
    ensures accepted <==> PassesAll(chain, data)
  {
    accepted := true;
    var k := 0;
    while k < |chain| && accepted
      invariant k <= |chain|
      invariant accepted <==> forall j :: 0 <= j < k ==> chain[j](data)
      decreases |chain| - k
    {
      accepted := chain[k](data);
      k := k + 1;
    }
  }

  /** The body of the loop of lines 104-130 for one line, statement by
      statement. */
  method VisitRow<R, E>(line: Row, lineIndex: nat, lineNum: nat, result: seq<R>,
                        format: Formatter<R, E>, filters: Option<seq<Filter<R>>>,
                        breaker: Option<Breaker<R>>) returns (step: Step<R, E>)
    ensures step == VisitLine(line, lineIndex, lineNum, result, format, filters, breaker)
  {
    if |line| == 0 {
      return Next(result);
    }
    var formatted := format(line);
    if formatted.Failure? {
      return Raise(formatted.error);
    }
    var data := formatted.value;
    if breaker.Some? && breaker.value(lineIndex, lineNum, |result|, data) {
      return Stop;
    }
    var accepted := true;
    if filters.Some? {
      accepted := RunFilters(filters.value, data);
    }
    if !accepted {
      return Next(result);
    }
    return Next(result + [data]);
  }

  /** The imperative loop of lines 96-132, walking the rows by index from the
      last to the first; it computes exactly `ReadData`. */
  method ReadDataFromFile<R, E>(rows: seq<Row>, format: Formatter<R, E>,
                                filters: Option<seq<Filter<R>>>,
                                breaker: Option<Breaker<R>>) returns (r: Result<seq<R>, E>)
    ensures r == ReadData(rows, format, filters, breaker)
  {
    var result: seq<R> := [];
    var lineIndex: nat := 0;
    var lineCount := |rows|;
    assert rows[..lineCount] == rows;
    while lineIndex < lineCount
      invariant lineIndex <= lineCount
      invariant Walk(rows[..lineCount - lineIndex], lineIndex, lineCount, result, format, filters, breaker)
                == Walk(rows, 0, lineCount, [], format, filters, breaker)
      decreases lineCount - lineIndex
    {
      ghost var pending := rows[..lineCount - lineIndex];
      var line := rows[lineCount - lineIndex - 1];
      assert pending[|pending| - 1] == line;
      assert pending[..|pending| - 1] == rows[..lineCount - lineIndex - 1];
      lineIndex := lineIndex + 1;
      var step := VisitRow(line, lineIndex, lineCount - lineIndex, result, format, filters, breaker);
      match step
      case Raise(e) => return Failure(e);
      case Stop => return Success(result);
      case Next(records) =>
        assert Walk(pending, lineIndex - 1, lineCount, result, format, filters, breaker)
               == Walk(rows[..lineCount - lineIndex], lineIndex, lineCount, records, format, filters, breaker);
        result := records;
    }
    assert rows[..0] == [];
    return Success(result);
  }

  // ---------------------------------------------------------------------------
  // Loader compositions
  // ---------------------------------------------------------------------------

  /** `_get_last_data`: the scan stopped by `LastAcceptedReaderBreaker`. */
  function GetLastData<R, E>(file: Option<seq<Row>>, format: Formatter<R, E>,
                             filters: Option<seq<Filter<R>>>): (r: Result<Option<seq<R>>, E>)
    ensures r.Success? && r.value.Some? ==> |r.value.value| <= 1
    ensures r == Success(None) <==> file.None?
  {
    match file
    case None => GetDataFromFile(file, format, filters, Some(LastAcceptedBreak))
    case Some(rows) =>
      LastAcceptedWalkAtMostOne(rows, 0, |rows|, [], format, filters);
      GetDataFromFile(file, format, filters, Some(LastAcceptedBreak))
  }

  /** `BaseLogDataLoader.load`: the newest non-empty raw row. */
  function BaseLoad<E>(file: Option<seq<Row>>): (r: Result<Option<seq<Row>>, E>)
    ensures r.Success? && r.value.Some? ==> |r.value.value| <= 1
  {
    GetLastData(file, BaseFormat, None)
  }

  /** Under `LastAcceptedReaderBreaker` the accepted list never grows past one
      record: the first row formatted after an acceptance stops the scan. */
  lemma {:induction false} LastAcceptedWalkAtMostOne<R, E>(pending: seq<Row>, visited: nat, total: nat, acc: seq<R>,
                                                           format: Formatter<R, E>, filters: Option<seq<Filter<R>>>)
    requires visited + |pending| <= total
    requires |acc| <= 1
    ensures var w := Walk(pending, visited, total, acc, format, filters, Some(LastAcceptedBreak));
            !w.Raised? ==> |w.records| <= 1
    decreases |pending|
  {
    var breaker: Option<Breaker<R>> := Some(LastAcceptedBreak);
    if |pending| > 0 {
      var line := pending[|pending| - 1];
      var older := pending[..|pending| - 1];
      var w := Walk(pending, visited, total, acc, format, filters, breaker);
      if |line| == 0 {
        assert w == Walk(older, visited + 1, total, acc, format, filters, breaker);
        LastAcceptedWalkAtMostOne(older, visited + 1, total, acc, format, filters);
      } else if format(line).Success? {
        var data := format(line).value;
        var stop := Breaks(breaker, visited + 1, total - (visited + 1), |acc|, data);
        assert stop <==> |acc| > 0;
        if !stop {
          LastAcceptedWalkAtMostOne(older, visited + 1, total, acc + [data], format, filters);
          LastAcceptedWalkAtMostOne(older, visited + 1, total, acc, format, filters);
        }
      }
    }
  }
}
