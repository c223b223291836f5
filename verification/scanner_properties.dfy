/** What the reverse scan computes, stated against independent definitions:
    without a breaker it is "format every non-empty row newest first, then
    keep what the chain accepts"; a breaker cuts that scan at the row it fires
    on, which is itself dropped and behind which nothing is read. */
module ScannerProperties {
  import opened Wrappers
  import opened Scanner

  /** `reversed(s)`. */
  function Reverse<T>(s: seq<T>): (r: seq<T>)
    ensures |r| == |s|
    ensures forall k :: 0 <= k < |s| ==> r[k] == s[|s| - 1 - k]
    decreases |s|
  {
    if |s| == 0 then [] else [s[|s| - 1]] + Reverse(s[..|s| - 1])
  }

  /** Formats `rows` left to right; the first failure is the result. */
  function FormatEach<R, E>(rows: seq<Row>, format: Formatter<R, E>): (r: Result<seq<R>, E>)
    ensures r.Success? <==> forall k :: 0 <= k < |rows| ==> format(rows[k]).Success?
    ensures r.Success? ==> |r.value| == |rows| && forall k :: 0 <= k < |rows| ==> format(rows[k]) == Success(r.value[k])
    decreases |rows|
  {
    if |rows| == 0 then Success([])
    else match format(rows[0])
      case Failure(e) => Failure(e)
      case Success(d) =>
        match FormatEach(rows[1..], format)
        case Failure(e) => Failure(e)
        case Success(ds) => Success([d] + ds)
  }

  /** The records the filter chain accepts, in order. */
  function Keep<R>(records: seq<R>, filters: Option<seq<Filter<R>>>): (kept: seq<R>)
    ensures |kept| <= |records|
    decreases |records|
  {
    if |records| == 0 then []
    else (if Accepts(filters, records[0]) then [records[0]] else []) + Keep(records[1..], filters)
  }

  /** Filtering keeps every accepted record as often as it occurs in the input
      and drops every rejected one. */
  lemma {:induction false} KeepCounts<R>(records: seq<R>, filters: Option<seq<Filter<R>>>)
    ensures forall x :: multiset(Keep(records, filters))[x] == if Accepts(filters, x) then multiset(records)[x] else 0
    decreases |records|
  {
    if |records| > 0 {
      KeepCounts(records[1..], filters);
      assert records == [records[0]] + records[1..];
      assert multiset(records) == multiset{records[0]} + multiset(records[1..]);
    }
  }

  /** The kept records are accepted records of the input, and every accepted
      record is kept. */
  lemma {:induction false} KeepExactlyAccepted<R>(records: seq<R>, filters: Option<seq<Filter<R>>>)
    ensures var kept := Keep(records, filters);
            forall k :: 0 <= k < |kept| ==> kept[k] in records && Accepts(filters, kept[k])
    ensures var kept := Keep(records, filters);
            forall k :: 0 <= k < |records| && Accepts(filters, records[k]) ==> records[k] in kept
    decreases |records|
  {
    if |records| > 0 {
      var rest := records[1..];
      KeepExactlyAccepted(rest, filters);
      var kept := Keep(records, filters);
      var head := if Accepts(filters, records[0]) then [records[0]] else [];
      assert kept == head + Keep(rest, filters);
      forall k | 0 <= k < |records| && Accepts(filters, records[k])
        ensures records[k] in kept
      {
        if k > 0 {
          assert records[k] == rest[k - 1];
        }
      }
      forall k | 0 <= k < |kept|
        ensures kept[k] in records && Accepts(filters, kept[k])
      {
        if k >= |head| {
          assert kept[k] == Keep(rest, filters)[k - |head|];
          assert kept[k] in rest;
        }
      }
    }
  }

  /** The scan without a breaker, defined independently of the loop: the
      non-empty rows newest first, all formatted, then filtered. */
  function ReferenceScan<R, E>(rows: seq<Row>, format: Formatter<R, E>,
                               filters: Option<seq<Filter<R>>>): Result<seq<R>, E>
  {
    match FormatEach(Reverse(NonEmptyRows(rows)), format)
    case Failure(e) => Failure(e)
    case Success(records) => Success(Keep(records, filters))
  }

  // ---------------------------------------------------------------------------
  // Without a breaker
  // ---------------------------------------------------------------------------

  /** The newest non-empty rows, newest first, gain the last row in front
      when it is non-empty. */
  lemma NewestFirstStep(pending: seq<Row>)
    requires |pending| > 0
    ensures var line := pending[|pending| - 1];
            Reverse(NonEmptyRows(pending))
            == (if |line| == 0 then [] else [line]) + Reverse(NonEmptyRows(pending[..|pending| - 1]))
  {
    var line := pending[|pending| - 1];
    var older := pending[..|pending| - 1];
    assert pending == older + [line];
    if |line| > 0 {
      var ne := NonEmptyRows(older) + [line];
      assert ne[..|ne| - 1] == NonEmptyRows(older);
    } else {
      assert NonEmptyRows(older) + [] == NonEmptyRows(older);
    }
  }

  /** The breaker-free walk from `acc` over rows whose non-empty ones, newest
      first, are `newest`. */
  function ReferenceWalk<R, E>(newest: seq<Row>, acc: seq<R>, format: Formatter<R, E>,
                               filters: Option<seq<Filter<R>>>): Walked<R, E>
  {
    match FormatEach(newest, format)
    case Failure(e) => Raised(e)
    case Success(records) => Exhausted(acc + Keep(records, filters))
  }

  lemma KeepCons<R>(record: R, records: seq<R>, filters: Option<seq<Filter<R>>>)
    ensures Keep([record] + records, filters) == (if Accepts(filters, record) then [record] else []) + Keep(records, filters)
  {
    var all := [record] + records;
    assert all[0] == record && all[1..] == records;
  }

  lemma ReferenceWalkCons<R, E>(line: Row, newest: seq<Row>, acc: seq<R>, format: Formatter<R, E>,
                                filters: Option<seq<Filter<R>>>)
    ensures ReferenceWalk([line] + newest, acc, format, filters)
            == match format(line)
               case Failure(e) => Raised(e)
               case Success(d) => ReferenceWalk(newest, if Accepts(filters, d) then acc + [d] else acc, format, filters)
  {
    var all := [line] + newest;
    assert all[0] == line && all[1..] == newest;
    match format(line)
    case Failure(e) =>
    case Success(d) =>
      match FormatEach(newest, format)
      case Failure(e) =>
      case Success(ds) =>
        assert FormatEach(all, format) == Success([d] + ds);
        KeepCons(d, ds, filters);
        var kept := Keep(ds, filters);
        if Accepts(filters, d) {
          assert (acc + [d]) + kept == acc + ([d] + kept);
        } else {
          assert [] + kept == kept;
        }
  }

  lemma {:induction false} WalkWithoutBreaker<R, E>(pending: seq<Row>, visited: nat, total: nat, acc: seq<R>,
                                                    format: Formatter<R, E>, filters: Option<seq<Filter<R>>>)
    requires visited + |pending| <= total
    ensures Walk(pending, visited, total, acc, format, filters, None)
            == ReferenceWalk(Reverse(NonEmptyRows(pending)), acc, format, filters)
    decreases |pending|
  {
    var none: Option<Breaker<R>> := None;
    if |pending| == 0 {
      assert acc + [] == acc;
    } else {
      var line := pending[|pending| - 1];
      var older := pending[..|pending| - 1];
      var newest := Reverse(NonEmptyRows(older));
      NewestFirstStep(pending);
      var step := VisitLine(line, visited + 1, total - (visited + 1), acc, format, filters, none);
      if step.Next? {
        assert Walk(pending, visited, total, acc, format, filters, none)
               == Walk(older, visited + 1, total, step.records, format, filters, none);
        WalkWithoutBreaker(older, visited + 1, total, step.records, format, filters);
      }
      if |line| > 0 {
        ReferenceWalkCons(line, newest, acc, format, filters);
      } else {
        assert [] + newest == newest;
      }
    }
  }

  /** With no breaker, the scan is the reference scan: every non-empty row is
      formatted, newest first, the first formatter failure escapes, and the
      result keeps exactly the records the chain accepts, in that order. */
  lemma ReferenceScanIsWalk<R, E>(rows: seq<Row>, format: Formatter<R, E>, filters: Option<seq<Filter<R>>>)
    ensures ReferenceScan(rows, format, filters)
            == match ReferenceWalk(Reverse(NonEmptyRows(rows)), [], format, filters)
               case Raised(e) => Failure(e)
               case Exhausted(records) => Success(records)
               case Broke(records) => Success(records)
  {
    match FormatEach(Reverse(NonEmptyRows(rows)), format)
    case Failure(e) =>
    case Success(records) => assert [] + Keep(records, filters) == Keep(records, filters);
  }

  lemma ScanWithoutBreaker<R, E>(rows: seq<Row>, format: Formatter<R, E>, filters: Option<seq<Filter<R>>>)
    ensures ReadData(rows, format, filters, None) == ReferenceScan(rows, format, filters)
  {
    WalkWithoutBreaker(rows, 0, |rows|, [], format, filters);
    ReferenceScanIsWalk(rows, format, filters);
  }

  lemma {:induction false} FormatEachBase<E>(rows: seq<Row>)
    ensures FormatEach(rows, BaseFormat<E>) == Success(rows)
    decreases |rows|
  {
    if |rows| > 0 {
      FormatEachBase<E>(rows[1..]);
      assert [rows[0]] + rows[1..] == rows;
    }
  }

  lemma {:induction false} KeepAll<R>(records: seq<R>)
    ensures Keep(records, None) == records
    decreases |records|
  {
    if |records| > 0 {
      KeepAll(records[1..]);
      assert [records[0]] + records[1..] == records;
    }
  }

  /** No formatter (the base one), no filters and no breaker: the non-empty
      rows themselves in reverse physical order. */
  lemma ScanRawRows<E>(rows: seq<Row>)
    ensures ReadData(rows, BaseFormat<E>, None, None) == Success(Reverse(NonEmptyRows(rows)))
  {
    ScanWithoutBreaker(rows, BaseFormat<E>, None);
    FormatEachBase<E>(Reverse(NonEmptyRows(rows)));
    KeepAll(Reverse(NonEmptyRows(rows)));
  }

  // ---------------------------------------------------------------------------
  // The default capabilities are the same as none
  // ---------------------------------------------------------------------------

  lemma {:induction false} WalkCongruent<R, E>(pending: seq<Row>, visited: nat, total: nat, acc: seq<R>,
                                               format: Formatter<R, E>,
                                               filters: Option<seq<Filter<R>>>, filters': Option<seq<Filter<R>>>,
                                               breaker: Option<Breaker<R>>, breaker': Option<Breaker<R>>)
    requires visited + |pending| <= total
    requires forall x :: Accepts(filters, x) == Accepts(filters', x)
    requires forall i: nat, n: nat, c: nat, x: R :: Breaks(breaker, i, n, c, x) == Breaks(breaker', i, n, c, x)
    ensures Walk(pending, visited, total, acc, format, filters, breaker)
            == Walk(pending, visited, total, acc, format, filters', breaker')
    decreases |pending|
  {
    if |pending| > 0 {
      var line := pending[|pending| - 1];
      var older := pending[..|pending| - 1];
      var lineIndex := visited + 1;
      var step := VisitLine(line, lineIndex, total - lineIndex, acc, format, filters, breaker);
      if |line| > 0 && format(line).Success? {
        var data := format(line).value;
        assert Breaks(breaker, lineIndex, total - lineIndex, |acc|, data)
               == Breaks(breaker', lineIndex, total - lineIndex, |acc|, data);
        assert Accepts(filters, data) == Accepts(filters', data);
      }
      assert step == VisitLine(line, lineIndex, total - lineIndex, acc, format, filters', breaker');
      if step.Next? {
        WalkCongruent(older, lineIndex, total, step.records, format, filters, filters', breaker, breaker');
      }
    }
  }

  /** Passing the base filter or an empty list behaves as passing no filter
      list, and the base breaker as no breaker. */
  lemma DefaultsBehaveAsNone<R, E>(rows: seq<Row>, format: Formatter<R, E>,
                                   filters: Option<seq<Filter<R>>>, breaker: Option<Breaker<R>>)
    ensures ReadData(rows, format, Some([BaseAccept]), breaker) == ReadData(rows, format, None, breaker)
    ensures ReadData(rows, format, Some([]), breaker) == ReadData(rows, format, None, breaker)
    ensures ReadData(rows, format, filters, Some(BaseBreak)) == ReadData(rows, format, filters, None)
  {
    var base: seq<Filter<R>> := [BaseAccept];
    assert forall x :: Accepts(Some(base), x) == Accepts(None, x) by {
      forall x ensures Accepts(Some(base), x) == Accepts(None, x) {
        assert PassesAll(base, x);
      }
    }
    WalkCongruent(rows, 0, |rows|, [], format, Some(base), None, breaker, breaker);
    var empty: seq<Filter<R>> := [];
    WalkCongruent(rows, 0, |rows|, [], format, Some(empty), None, breaker, breaker);
    var never: Option<Breaker<R>> := Some(BaseBreak);
    WalkCongruent(rows, 0, |rows|, [], format, filters, filters, never, None);
  }

  // ---------------------------------------------------------------------------
  // Where a breaker stops the scan
  // ---------------------------------------------------------------------------

  /** Walking `older + newer` first walks `newer`; only if that runs out of
      rows is `older` visited at all. */
  lemma {:induction false} WalkSplit<R, E>(older: seq<Row>, newer: seq<Row>, visited: nat, total: nat, acc: seq<R>,
                                           format: Formatter<R, E>, filters: Option<seq<Filter<R>>>,
                                           breaker: Option<Breaker<R>>)
    requires visited + |older| + |newer| <= total
    ensures Walk(older + newer, visited, total, acc, format, filters, breaker)
            == match Walk(newer, visited, total, acc, format, filters, breaker)
               case Exhausted(records) => Walk(older, visited + |newer|, total, records, format, filters, breaker)
               case other => other
    decreases |newer|
  {
    if |newer| == 0 {
      assert older + newer == older;
    } else {
      var line := newer[|newer| - 1];
      var rest := newer[..|newer| - 1];
      var all := older + newer;
      assert all[|all| - 1] == line;
      assert all[..|all| - 1] == older + rest;
      WalkSplit(older, rest, visited + 1, total, acc, format, filters, breaker);
      if |line| > 0 && format(line).Success? {
        var data := format(line).value;
        WalkSplit(older, rest, visited + 1, total, acc + [data], format, filters, breaker);
      }
    }
  }

  /** The breaker fires on `stop`, the row at position `|older|`, having been
      asked with its 1-based index from the end, its 0-based line number and
      the count accepted so far: then the scan returns exactly what the newer
      rows gave. The stopping record is not appended, and the older rows,
      whatever they hold, are never formatted. */
  lemma StoppingRowExcluded<R, E>(older: seq<Row>, stop: Row, newer: seq<Row>, records: seq<R>, data: R,
                                  format: Formatter<R, E>, filters: Option<seq<Filter<R>>>, breaker: Breaker<R>)
    requires Walk(newer, 0, |older| + 1 + |newer|, [], format, filters, Some(breaker)) == Exhausted(records)
    requires |stop| > 0 && format(stop) == Success(data)
    requires breaker(|newer| + 1, |older|, |records|, data)
    ensures ReadData(older + [stop] + newer, format, filters, Some(breaker)) == Success(records)
  {
    var total := |older| + 1 + |newer|;
    var b: Option<Breaker<R>> := Some(breaker);
    WalkSplit(older + [stop], newer, 0, total, [], format, filters, b);
    var pending := older + [stop];
    assert pending[|pending| - 1] == stop;
    assert Walk(pending, |newer|, total, records, format, filters, b) == Broke(records);
  }

  lemma {:induction false} ExhaustedIgnoresBreaker<R, E>(pending: seq<Row>, visited: nat, total: nat, acc: seq<R>,
                                                         format: Formatter<R, E>, filters: Option<seq<Filter<R>>>,
                                                         breaker: Option<Breaker<R>>)
    requires visited + |pending| <= total
    requires Walk(pending, visited, total, acc, format, filters, breaker).Exhausted?
    ensures Walk(pending, visited, total, acc, format, filters, None)
            == Walk(pending, visited, total, acc, format, filters, breaker)
    decreases |pending|
  {
    if |pending| > 0 {
      var line := pending[|pending| - 1];
      var older := pending[..|pending| - 1];
      var lineIndex := visited + 1;
      var step := VisitLine(line, lineIndex, total - lineIndex, acc, format, filters, breaker);
      assert step.Next?;
      assert step == VisitLine(line, lineIndex, total - lineIndex, acc, format, filters, None);
      ExhaustedIgnoresBreaker(older, lineIndex, total, step.records, format, filters, breaker);
    }
  }

  lemma {:induction false} WalkBroke<R, E>(pending: seq<Row>, visited: nat, total: nat, acc: seq<R>,
                                           format: Formatter<R, E>, filters: Option<seq<Filter<R>>>,
                                           breaker: Breaker<R>) returns (p: nat)
    requires visited + |pending| <= total
    requires Walk(pending, visited, total, acc, format, filters, Some(breaker)).Broke?
    ensures p < |pending| && |pending[p]| > 0 && format(pending[p]).Success?
    ensures var records := Walk(pending, visited, total, acc, format, filters, Some(breaker)).records;
            && Walk(pending[p + 1..], visited, total, acc, format, filters, Some(breaker)) == Exhausted(records)
            && breaker(visited + |pending| - p, total - (visited + |pending| - p), |records|, format(pending[p]).value)
    decreases |pending|
  {
    var b: Option<Breaker<R>> := Some(breaker);
    var line := pending[|pending| - 1];
    var older := pending[..|pending| - 1];
    var lineIndex := visited + 1;
    var step := VisitLine(line, lineIndex, total - lineIndex, acc, format, filters, b);
    if step.Stop? {
      p := |pending| - 1;
      assert pending[p + 1..] == [];
      assert Walk(pending, visited, total, acc, format, filters, b) == Broke(acc);
      assert Breaks(b, lineIndex, total - lineIndex, |acc|, format(line).value);
    } else {
      assert step.Next? && |older| == |pending| - 1;
      assert Walk(pending, visited, total, acc, format, filters, b)
             == Walk(older, lineIndex, total, step.records, format, filters, b);
      p := WalkBroke(older, lineIndex, total, step.records, format, filters, breaker);
      SuffixStep(pending, p, visited, total, acc, format, filters, b);
      assert pending[p] == older[p];
    }
  }

  /** A suffix that still ends with the newest row takes the same first step
      as the whole walk. */
  lemma SuffixStep<R, E>(pending: seq<Row>, q: nat, visited: nat, total: nat, acc: seq<R>,
                         format: Formatter<R, E>, filters: Option<seq<Filter<R>>>, breaker: Option<Breaker<R>>)
    requires visited + |pending| <= total
    requires q + 1 < |pending|
    requires VisitLine(pending[|pending| - 1], visited + 1, total - (visited + 1), acc, format, filters, breaker).Next?
    ensures Walk(pending[q + 1..], visited, total, acc, format, filters, breaker)
            == Walk(pending[..|pending| - 1][q + 1..], visited + 1, total,
                    VisitLine(pending[|pending| - 1], visited + 1, total - (visited + 1), acc, format, filters, breaker).records,
                    format, filters, breaker)
  {
    var suffix := pending[q + 1..];
    assert suffix[|suffix| - 1] == pending[|pending| - 1];
    assert suffix[..|suffix| - 1] == pending[..|pending| - 1][q + 1..];
  }

  /** Conversely, every successful scan with a breaker is one of two kinds:
      the breaker never fired and the result is the reference scan of the
      whole file, or it fired at row `p` (line number `p`, index `|rows| - p`
      from the end, asked with the final count) and the result is the
      reference scan of the rows after `p`. */
  lemma ScanWithBreaker<R, E>(rows: seq<Row>, format: Formatter<R, E>, filters: Option<seq<Filter<R>>>,
                              breaker: Breaker<R>, records: seq<R>) returns (stopped: bool, p: nat)
    requires ReadData(rows, format, filters, Some(breaker)) == Success(records)
    ensures !stopped ==> ReferenceScan(rows, format, filters) == Success(records)
    ensures stopped ==> p < |rows| && |rows[p]| > 0 && format(rows[p]).Success?
    ensures stopped ==> breaker(|rows| - p, p, |records|, format(rows[p]).value)
    ensures stopped ==> ReferenceScan(rows[p + 1..], format, filters) == Success(records)
  {
    WalkOfReadData(rows, format, filters, Some(breaker), records);
    stopped := Walk(rows, 0, |rows|, [], format, filters, Some(breaker)).Broke?;
    if stopped {
      p := ScanStopped(rows, format, filters, breaker, records);
    } else {
      p := 0;
      NeverStopped(rows, format, filters, breaker, records);
    }
  }

  lemma ScanStopped<R, E>(rows: seq<Row>, format: Formatter<R, E>, filters: Option<seq<Filter<R>>>,
                          breaker: Breaker<R>, records: seq<R>) returns (p: nat)
    requires Walk(rows, 0, |rows|, [], format, filters, Some(breaker)) == Broke(records)
    ensures p < |rows| && |rows[p]| > 0 && format(rows[p]).Success?
    ensures breaker(|rows| - p, p, |records|, format(rows[p]).value)
    ensures ReferenceScan(rows[p + 1..], format, filters) == Success(records)
  {
    p := WalkBroke(rows, 0, |rows|, [], format, filters, breaker);
    SuffixIsReference(rows, p, format, filters, breaker, records);
  }

  lemma WalkOfReadData<R, E>(rows: seq<Row>, format: Formatter<R, E>, filters: Option<seq<Filter<R>>>,
                             breaker: Option<Breaker<R>>, records: seq<R>)
    requires ReadData(rows, format, filters, breaker) == Success(records)
    ensures var w := Walk(rows, 0, |rows|, [], format, filters, breaker);
            !w.Raised? && w.records == records
  {
  }

  lemma NeverStopped<R, E>(rows: seq<Row>, format: Formatter<R, E>, filters: Option<seq<Filter<R>>>,
                           breaker: Breaker<R>, records: seq<R>)
    requires Walk(rows, 0, |rows|, [], format, filters, Some(breaker)) == Exhausted(records)
    ensures ReferenceScan(rows, format, filters) == Success(records)
  {
    ExhaustedIgnoresBreaker(rows, 0, |rows|, [], format, filters, Some(breaker));
    ScanWithoutBreaker(rows, format, filters);
  }

  lemma SuffixIsReference<R, E>(rows: seq<Row>, p: nat, format: Formatter<R, E>, filters: Option<seq<Filter<R>>>,
                                breaker: Breaker<R>, records: seq<R>)
    requires p < |rows|
    requires Walk(rows[p + 1..], 0, |rows|, [], format, filters, Some(breaker)) == Exhausted(records)
    ensures ReferenceScan(rows[p + 1..], format, filters) == Success(records)
  {
    var suffix := rows[p + 1..];
    ExhaustedIgnoresBreaker(suffix, 0, |rows|, [], format, filters, Some(breaker));
    WalkWithoutBreaker(suffix, 0, |rows|, [], format, filters);
    ReferenceScanIsWalk(suffix, format, filters);
  }

  /** Every record is one the record breaker lets through and keeps `inv`. */
  predicate AllPass<R>(records: seq<R>, stop: R -> bool, inv: R -> bool) {
    forall k :: 0 <= k < |records| ==> !stop(records[k]) && inv(records[k])
  }

  /** A breaker that looks only at the record never lets through a record it
      would stop on, and every record kept is one the formatter produced. */
  lemma {:induction false} RecordBreakerWalk<R, E>(pending: seq<Row>, visited: nat, total: nat, acc: seq<R>,
                                                   format: Formatter<R, E>, filters: Option<seq<Filter<R>>>,
                                                   stop: R -> bool, inv: R -> bool)
    requires visited + |pending| <= total
    requires forall row :: format(row).Success? ==> inv(format(row).value)
    requires AllPass(acc, stop, inv)
    ensures var w := Walk(pending, visited, total, acc, format, filters, Some(RecordBreaker(stop)));
            !w.Raised? ==> AllPass(w.records, stop, inv)
    decreases |pending|
  {
    var b: Option<Breaker<R>> := Some(RecordBreaker(stop));
    if |pending| > 0 {
      var line := pending[|pending| - 1];
      var older := pending[..|pending| - 1];
      var lineIndex := visited + 1;
      var step := VisitLine(line, lineIndex, total - lineIndex, acc, format, filters, b);
      if step.Next? {
        if step.records != acc {
          var data := format(line).value;
          assert Breaks(b, lineIndex, total - lineIndex, |acc|, data) == stop(data);
          assert inv(data);
          assert AllPass(step.records, stop, inv) by {
            assert step.records == acc + [data];
          }
        }
        assert Walk(pending, visited, total, acc, format, filters, b)
               == Walk(older, lineIndex, total, step.records, format, filters, b);
        RecordBreakerWalk(older, lineIndex, total, step.records, format, filters, stop, inv);
      } else if step.Stop? {
        assert Walk(pending, visited, total, acc, format, filters, b) == Broke(acc);
      }
    }
  }

  /** With a breaker that looks only at the record, every record of a
      successful scan is one the breaker let through, the filter chain
      accepted, and that keeps any invariant the formatter's outputs keep. */
  lemma RecordBreakerResults<R, E>(rows: seq<Row>, format: Formatter<R, E>, filters: Option<seq<Filter<R>>>,
                                   stop: R -> bool, inv: R -> bool)
    requires forall row :: format(row).Success? ==> inv(format(row).value)
    ensures var r := ReadData(rows, format, filters, Some(RecordBreaker(stop)));
            r.Success? ==> forall k :: 0 <= k < |r.value| ==> !stop(r.value[k]) && inv(r.value[k]) && Accepts(filters, r.value[k])
  {
    var b: Option<Breaker<R>> := Some(RecordBreaker(stop));
    RecordBreakerWalk(rows, 0, |rows|, [], format, filters, stop, inv);
    var w := Walk(rows, 0, |rows|, [], format, filters, b);
    var r := ReadData(rows, format, filters, b);
    assert r.Success? ==> r.value == w.records;
    assert !w.Raised? ==> AllPass(w.records, stop, inv);
  }

  // ---------------------------------------------------------------------------
  // The last-accepted breaker with no filters
  // ---------------------------------------------------------------------------

  /** What the walk does once one record is held: the next non-empty row is
      formatted (which may raise) and then stops the scan. */
  lemma {:induction false} LastAcceptedHolding<R, E>(pending: seq<Row>, visited: nat, total: nat, held: R,
                                                     format: Formatter<R, E>, filters: Option<seq<Filter<R>>>)
    requires visited + |pending| <= total
    ensures var ne := NonEmptyRows(pending);
            Walk(pending, visited, total, [held], format, filters, Some(LastAcceptedBreak))
            == if |ne| == 0 then Exhausted([held])
               else if format(ne[|ne| - 1]).Failure? then Raised(format(ne[|ne| - 1]).error)
               else Broke([held])
    decreases |pending|
  {
    var b: Option<Breaker<R>> := Some(LastAcceptedBreak);
    if |pending| > 0 {
      var line := pending[|pending| - 1];
      var older := pending[..|pending| - 1];
      assert pending == older + [line];
      var step := VisitLine(line, visited + 1, total - (visited + 1), [held], format, filters, b);
      if |line| == 0 {
        assert NonEmptyRows(pending) == NonEmptyRows(older) + [];
        assert Walk(pending, visited, total, [held], format, filters, b)
               == Walk(older, visited + 1, total, [held], format, filters, b);
        LastAcceptedHolding(older, visited + 1, total, held, format, filters);
      } else {
        var ne := NonEmptyRows(pending);
        assert ne == NonEmptyRows(older) + [line];
        assert ne[|ne| - 1] == line;
        assert !step.Next?;
      }
    }
  }

  /** What the last-accepted walk with no filters gives from an empty list:
      decided by the newest two non-empty rows alone. */
  ghost predicate LastAcceptedOutcome<R, E>(pending: seq<Row>, visited: nat, total: nat, format: Formatter<R, E>)
    requires visited + |pending| <= total
  {
    var ne := NonEmptyRows(pending);
    var n := |ne|;
    Walk(pending, visited, total, [], format, None, Some(LastAcceptedBreak))
    == if n == 0 then Exhausted([])
       else if format(ne[n - 1]).Failure? then Raised(format(ne[n - 1]).error)
       else if n >= 2 && format(ne[n - 2]).Failure? then Raised(format(ne[n - 2]).error)
       else if n >= 2 then Broke([format(ne[n - 1]).value])
       else Exhausted([format(ne[n - 1]).value])
  }

  lemma LastAcceptedFirstHit<R, E>(pending: seq<Row>, visited: nat, total: nat, format: Formatter<R, E>)
    requires visited + |pending| <= total
    requires |pending| > 0 && |pending[|pending| - 1]| > 0
    ensures LastAcceptedOutcome(pending, visited, total, format)
  {
    var b: Option<Breaker<R>> := Some(LastAcceptedBreak);
    var line := pending[|pending| - 1];
    var older := pending[..|pending| - 1];
    assert pending == older + [line];
    var ne := NonEmptyRows(pending);
    var neOlder := NonEmptyRows(older);
    assert ne == neOlder + [line];
    assert ne[|ne| - 1] == line;
    if format(line).Success? {
      var d := format(line).value;
      assert VisitLine(line, visited + 1, total - (visited + 1), [], format, None, b) == Next([d]);
      assert Walk(pending, visited, total, [], format, None, b)
             == Walk(older, visited + 1, total, [d], format, None, b);
      LastAcceptedHolding(older, visited + 1, total, d, format, None);
      if |ne| >= 2 {
        assert ne[|ne| - 2] == neOlder[|neOlder| - 1];
      }
    }
  }

  lemma {:induction false} LastAcceptedEmpty<R, E>(pending: seq<Row>, visited: nat, total: nat,
                                                   format: Formatter<R, E>)
    requires visited + |pending| <= total
    ensures LastAcceptedOutcome(pending, visited, total, format)
    decreases |pending|
  {
    if |pending| > 0 {
      var line := pending[|pending| - 1];
      if |line| == 0 {
        var older := pending[..|pending| - 1];
        assert pending == older + [line];
        assert NonEmptyRows(pending) == NonEmptyRows(older) + [];
        assert Walk(pending, visited, total, [], format, None, Some(LastAcceptedBreak))
               == Walk(older, visited + 1, total, [], format, None, Some(LastAcceptedBreak));
        LastAcceptedEmpty(older, visited + 1, total, format);
      } else {
        LastAcceptedFirstHit(pending, visited, total, format);
      }
    }
  }

  /** `_get_last_data` with no filters on a file with non-empty rows gives
      exactly the newest non-empty row, formatted. The formatter also runs on
      the second-newest non-empty row before the breaker is asked, so a
      failure there escapes the scan. */
  lemma LastAcceptedNewest<R, E>(rows: seq<Row>, format: Formatter<R, E>)
    requires |NonEmptyRows(rows)| > 0
    ensures var ne := NonEmptyRows(rows);
            var n := |ne|;
            GetLastData(Some(rows), format, None)
            == if format(ne[n - 1]).Failure? then Failure(format(ne[n - 1]).error)
               else if n >= 2 && format(ne[n - 2]).Failure? then Failure(format(ne[n - 2]).error)
               else Success(Some([format(ne[n - 1]).value]))
  {
    LastAcceptedEmpty(rows, 0, |rows|, format);
  }

  /** `BaseLogDataLoader.load`: the newest non-empty raw row, or nothing when
      every row is empty. */
  lemma BaseLoadNewest<E>(rows: seq<Row>)
    ensures var ne := NonEmptyRows(rows);
            BaseLoad<E>(Some(rows)) == Success(Some(if |ne| == 0 then [] else [ne[|ne| - 1]]))
  {
    LastAcceptedEmpty(rows, 0, |rows|, BaseFormat<E>);
  }
}
