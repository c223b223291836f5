/** The server side of the loader: `ServerLogFormatter` with its query-data
    decoder, `ServerDataFilter`, `ServerLogTimeLastBreaker` and the
    `ServerDataLoader` that wires them into the reverse scan. */
module ServerLog {
  import opened Wrappers
  import opened Text
  import opened DateTimes
  import opened Externals
  import opened Scanner
  import ScannerProperties

  /** The `data` entry of a server record: `''` when the line carried no query
      data, otherwise the decoded key/value dictionary. */
  datatype QueryData = NoData | Fields(entries: map<string, string>)

  /** The dictionary `ServerLogFormatter.format` returns. `datetime` is `None`
      where the source stores `''`. */
  datatype ServerRecord = ServerRecord(ip: string, datetime: Option<DateTime>, requestMethod: string,
                                       data: QueryData, returnCode: string, userAgent: string)

  /** `__create_empty_dict`: every key present, every value empty. */
  const EmptyServerRecord: ServerRecord := ServerRecord("", None, "", NoData, "", "")

  /** The number of fields a well-formed server line splits into. */
  const ServerFieldCount: nat := 10

  // ---------------------------------------------------------------------------
  // Query-data decoding (`__format_data_field`)
  // ---------------------------------------------------------------------------

  /** `kv = col.split('='); kv[0], kv[1]`; a segment without `=` makes
      `kv[1]` raise. */
  function KeyValue(segment: string): (r: Result<(string, string), FormatError>)
    ensures r.Failure? <==> '=' !in segment
  {
    var kv := Split(segment, '=');
    if |kv| < 2 then Failure(SegmentWithoutValue(segment)) else Success((kv[0], kv[1]))
  }

  /** The key is the text before the first `=`, the value the text between
      the first `=` and the second one or the end; neither holds `=`. */
  lemma KeyValueSpec(segment: string)
    requires '=' in segment
    ensures var (key, value) := KeyValue(segment).value;
            && '=' !in key && '=' !in value
            && key + ['='] + value <= segment
            && (|key| + 1 + |value| == |segment| || segment[|key| + 1 + |value|] == '=')
  {
    JoinHead(Split(segment, '='), '=');
  }

  /** The key/value pair of every segment in order, or the failure of the
      first segment without `=`. */
  function Pairs(segments: seq<string>): (r: Result<seq<(string, string)>, FormatError>)
    ensures r.Success? ==> |r.value| == |segments|
    decreases |segments|
  {
    if |segments| == 0 then Success([])
    else
      match KeyValue(segments[0])
      case Failure(e) => Failure(e)
      case Success(kv) =>
        match Pairs(segments[1..])
        case Failure(e) => Failure(e)
        case Success(rest) => Success([kv] + rest)
  }

  /** The segments decode iff every one holds `=`, and then each pair is its
      segment's key and value. */
  lemma {:induction false} PairsSpec(segments: seq<string>)
    ensures Pairs(segments).Success? <==> forall k :: 0 <= k < |segments| ==> '=' in segments[k]
    ensures Pairs(segments).Success? ==>
              forall k :: 0 <= k < |segments| ==> KeyValue(segments[k]) == Success(Pairs(segments).value[k])
    decreases |segments|
  {
    if |segments| > 0 {
      var tail := segments[1..];
      PairsSpec(tail);
      assert forall k :: 0 < k < |segments| ==> segments[k] == tail[k - 1];
      if KeyValue(segments[0]).Success? && Pairs(tail).Success? {
        var pairs := Pairs(segments).value;
        assert pairs == [KeyValue(segments[0]).value] + Pairs(tail).value;
        assert forall k :: 0 < k < |segments| ==> pairs[k] == Pairs(tail).value[k - 1];
      }
    }
  }

  /** The dictionary `kvList` after the loop has assigned every pair in order. */
  function Assign(pairs: seq<(string, string)>): map<string, string>
    decreases |pairs|
  {
    if |pairs| == 0 then map[]
    else
      var last := pairs[|pairs| - 1];
      Assign(pairs[..|pairs| - 1])[last.0 := last.1]
  }

  /** The position of the last pair with the given key. */
  function LastWithKey(pairs: seq<(string, string)>, key: string): (i: Option<nat>)
    ensures i.Some? ==> i.value < |pairs| && pairs[i.value].0 == key
    ensures i.Some? ==> forall j :: i.value < j < |pairs| ==> pairs[j].0 != key
    ensures i.None? ==> forall j :: 0 <= j < |pairs| ==> pairs[j].0 != key
    decreases |pairs|
  {
    if |pairs| == 0 then None
    else if pairs[|pairs| - 1].0 == key then Some(|pairs| - 1)
    else LastWithKey(pairs[..|pairs| - 1], key)
  }

  /** A key is in the dictionary iff some pair has it, and its value is the
      one of the last such pair: a later duplicate overwrites an earlier one. */
  lemma {:induction false} AssignLastWins(pairs: seq<(string, string)>, key: string)
    ensures key in Assign(pairs) <==> LastWithKey(pairs, key).Some?
    ensures key in Assign(pairs) ==> Assign(pairs)[key] == pairs[LastWithKey(pairs, key).value].1
    decreases |pairs|
  {
    if |pairs| > 0 {
      var init := pairs[..|pairs| - 1];
      AssignLastWins(init, key);
      if pairs[|pairs| - 1].0 != key {
        assert LastWithKey(pairs, key) == LastWithKey(init, key);
        if LastWithKey(init, key).Some? {
          assert pairs[LastWithKey(init, key).value] == init[LastWithKey(init, key).value];
        }
      }
    }
  }

  /** The `&`-separated segments of an unquoted data field. */
  function QuerySegments(lib: Library, field: string): seq<string> {
    Split(lib.unquote(field), '&')
  }

  /** `__format_data_field`: `'-'` is no data; anything else is unquoted,
      split on `&`, and each segment split on `=`. It fails exactly when a
      segment has no `=`; otherwise the keys are those of the segments. */
  function DecodeDataField(lib: Library, field: string): (r: Result<QueryData, FormatError>)
    ensures field == "-" ==> r == Success(NoData)
    ensures field != "-" ==>
              (r.Success? <==> forall k :: 0 <= k < |QuerySegments(lib, field)| ==> '=' in QuerySegments(lib, field)[k])
    ensures field != "-" && r.Success? ==> r.value.Fields? && |r.value.entries| > 0
  {
    if field == "-" then Success(NoData)
    else
      PairsSpec(QuerySegments(lib, field));
      match Pairs(QuerySegments(lib, field))
      case Failure(e) => Failure(e)
      case Success(pairs) =>
        AssignLastWins(pairs, pairs[0].0);
        assert pairs[0].0 in Assign(pairs);
        Success(Fields(Assign(pairs)))
  }

  /** Every decoded key maps to the value of the last segment carrying it, and
      no other key appears. */
  lemma DecodedEntries(lib: Library, field: string, key: string)
    requires field != "-"
    requires DecodeDataField(lib, field).Success?
    ensures var segments := QuerySegments(lib, field);
            var pairs := Pairs(segments).value;
            var entries := DecodeDataField(lib, field).value.entries;
            && (key in entries <==> LastWithKey(pairs, key).Some?)
            && (key in entries ==> KeyValue(segments[LastWithKey(pairs, key).value]) == Success((key, entries[key])))
  {
    PairsSpec(QuerySegments(lib, field));
    AssignLastWins(Pairs(QuerySegments(lib, field)).value, key);
  }

  /** The segment `key=value` of one pair. */
  function Segment(pair: (string, string)): string {
    pair.0 + "=" + pair.1
  }

  /** The query string `k1=v1&k2=v2&...` of a list of pairs. */
  function EncodeQuery(pairs: seq<(string, string)>): string {
    Join(Segments(pairs), '&')
  }

  function Segments(pairs: seq<(string, string)>): (segments: seq<string>)
    ensures |segments| == |pairs|
    ensures forall k :: 0 <= k < |pairs| ==> segments[k] == Segment(pairs[k])
  {
    seq(|pairs|, k requires 0 <= k < |pairs| => Segment(pairs[k]))
  }

  /** An `=`-free key and value decode back from their segment. */
  lemma SegmentRoundTrip(pair: (string, string))
    requires '=' !in pair.0 && '=' !in pair.1
    ensures KeyValue(Segment(pair)) == Success(pair)
  {
    assert Join([pair.0, pair.1], '=') == Segment(pair);
    SplitJoin([pair.0, pair.1], '=');
  }

  /** A non-empty query string always holds `=`, so it is never `-`. */
  lemma EncodedIsNotDash(pairs: seq<(string, string)>)
    requires |pairs| >= 1
    ensures EncodeQuery(pairs) != "-"
  {
    var segments := Segments(pairs);
    var n := |pairs[0].0|;
    assert segments[0][n] == '=';
    if |segments| >= 2 {
      JoinHead(segments, '&');
    }
    assert EncodeQuery(pairs)[n] == '=';
  }

  /** Decoding inverts encoding: a query string built from pairs whose keys
      and values hold neither `&` nor `=`, and which unquoting leaves alone,
      decodes to the dictionary of those pairs. */
  lemma QueryRoundTrip(lib: Library, pairs: seq<(string, string)>)
    requires |pairs| >= 1
    requires forall k :: 0 <= k < |pairs| ==> '&' !in pairs[k].0 && '=' !in pairs[k].0
    requires forall k :: 0 <= k < |pairs| ==> '&' !in pairs[k].1 && '=' !in pairs[k].1
    requires lib.unquote(EncodeQuery(pairs)) == EncodeQuery(pairs)
    ensures DecodeDataField(lib, EncodeQuery(pairs)) == Success(Fields(Assign(pairs)))
  {
    var segments := Segments(pairs);
    forall k | 0 <= k < |segments|
      ensures '&' !in segments[k]
      ensures KeyValue(segments[k]) == Success(pairs[k])
    {
      SegmentRoundTrip(pairs[k]);
    }
    SplitJoin(segments, '&');
    EncodedIsNotDash(pairs);
    assert QuerySegments(lib, EncodeQuery(pairs)) == segments;
    PairsSpec(segments);
    assert Pairs(segments).value == pairs;
  }

  // ---------------------------------------------------------------------------
  // The formatter
  // ---------------------------------------------------------------------------

  /** A formatted server record either is the empty record or has a time. */
  predicate WellFormedServer(record: ServerRecord) {
    record.datetime.None? ==> record == EmptyServerRecord
  }

  /** `ServerLogFormatter.format`: a line of any field count but ten is the
      empty record; a ten-field line copies fields 0, 2, 6 and 9, parses
      field 1 as the time and decodes field 5, and either of those two can
      raise. */
  function FormatServerLine(lib: Library, row: Row): (r: Result<ServerRecord, FormatError>)
    ensures |row| != ServerFieldCount ==> r == Success(EmptyServerRecord)
    ensures |row| == ServerFieldCount ==>
              (r.Success? <==> lib.strptime(row[1], ServerTimeFormat).Some? && DecodeDataField(lib, row[5]).Success?)
    ensures |row| == ServerFieldCount && r.Success? ==>
              && r.value.ip == row[0] && r.value.requestMethod == row[2]
              && r.value.returnCode == row[6] && r.value.userAgent == row[9]
              && r.value.datetime == lib.strptime(row[1], ServerTimeFormat)
              && r.value.data == DecodeDataField(lib, row[5]).value
    ensures |row| == ServerFieldCount && r.Failure? && lib.strptime(row[1], ServerTimeFormat).None? ==>
              r.error == TimeDoesNotMatch(row[1], ServerTimeFormat)
    ensures r.Success? ==> WellFormedServer(r.value)
  {
    if |row| != ServerFieldCount then Success(EmptyServerRecord)
    else
      match lib.strptime(row[1], ServerTimeFormat)
      case None => Failure(TimeDoesNotMatch(row[1], ServerTimeFormat))
      case Some(t) =>
        match DecodeDataField(lib, row[5])
        case Failure(e) => Failure(e)
        case Success(data) => Success(ServerRecord(row[0], Some(t), row[2], data, row[6], row[9]))
  }

  function ServerFormatter(lib: Library): Formatter<ServerRecord, FormatError> {
    row => FormatServerLine(lib, row)
  }

  // ---------------------------------------------------------------------------
  // The filter
  // ---------------------------------------------------------------------------

  /** `ServerDataFilter(pid, userAgent, jsonDataStr)`. */
  datatype ServerDataFilter = ServerDataFilter(pid: string, userAgent: Option<string>, jsonData: string)

  /** The request a filter looks for: query data whose `p` is the session
      id, sent by the wanted agent when one is given. */
  predicate IsRequestOf(pid: string, userAgent: Option<string>, record: ServerRecord) {
    && record.data.Fields?
    && "p" in record.data.entries
    && record.data.entries["p"] == pid
    && (userAgent.None? || record.userAgent == userAgent.value)
  }

  /** `ServerDataFilter.accept`: rejects a record without data, without `p`,
      with another `p`, or from another agent when one is given. The stored
      JSON string is never consulted. */
  function ServerAccept(filter: ServerDataFilter, record: ServerRecord): (ok: bool)
    ensures ok <==> IsRequestOf(filter.pid, filter.userAgent, record)
    ensures record.data.NoData? ==> !ok
  {
    if record.data.NoData? then false
    else if "p" !in record.data.entries then false
    else if filter.pid != record.data.entries["p"] then false
    else if filter.userAgent.Some? && record.userAgent != filter.userAgent.value then false
    else true
  }

  function SessionFilter(filter: ServerDataFilter): Filter<ServerRecord> {
    record => ServerAccept(filter, record)
  }

  // ---------------------------------------------------------------------------
  // The time breaker
  // ---------------------------------------------------------------------------

  /** `ServerLogTimeLastBreaker(startTime, endTime)`. */
  datatype TimeWindow = TimeWindow(startTime: DateTime, endTime: Option<DateTime>)

  /** `ServerLogTimeLastBreaker.breakFromThisLine`: stops on a record older than
      the start, or newer than the end when there is one. A record without a
      time never stops the scan. */
  predicate TimeLastBreaks(window: TimeWindow, record: ServerRecord) {
    match record.datetime
    case None => false
    case Some(t) => Before(t, window.startTime) || (window.endTime.Some? && Before(window.endTime.value, t))
  }

  /** A record with a time goes on exactly when its time lies in the window,
      both ends included. */
  lemma TimeWindowInclusive(window: TimeWindow, record: ServerRecord)
    requires record.datetime.Some?
    ensures var t := record.datetime.value;
            !TimeLastBreaks(window, record)
            <==> AtOrAfter(t, window.startTime) && (window.endTime.None? || AtOrAfter(window.endTime.value, t))
  {
    var t := record.datetime.value;
    BeforeIsStrictTotalOrder(t, window.startTime, t);
    if window.endTime.Some? {
      BeforeIsStrictTotalOrder(window.endTime.value, t, t);
    }
  }

  function TimeStop(window: TimeWindow): ServerRecord -> bool {
    record => TimeLastBreaks(window, record)
  }

  // ---------------------------------------------------------------------------
  // The loader
  // ---------------------------------------------------------------------------

  /** `ServerDataLoader(pid, userAgent, jsonDataStr, sendTime)`. */
  datatype ServerDataLoader = ServerDataLoader(pid: string, userAgent: Option<string>, jsonData: string, startTime: DateTime)

  /** `ServerDataLoader.load`: the server formatter, the one session filter,
      and a time breaker with the send time as start and no end. */
  function ServerLoad(loader: ServerDataLoader, lib: Library, file: Option<seq<Row>>): (r: Result<Option<seq<ServerRecord>>, FormatError>)
    ensures r == Success(None) <==> file.None?
  {
    var filter := ServerDataFilter(loader.pid, loader.userAgent, loader.jsonData);
    var window := TimeWindow(loader.startTime, None);
    GetDataFromFile(file, ServerFormatter(lib), Some([SessionFilter(filter)]), Some(RecordBreaker(TimeStop(window))))
  }

  /** Every record the server loader returns is the wanted request (session
      id and agent) and was sent at or after the start time. */
  lemma ServerLoadSound(loader: ServerDataLoader, lib: Library, file: Option<seq<Row>>)
    ensures var r := ServerLoad(loader, lib, file);
            r.Success? && r.value.Some? ==>
              forall k :: 0 <= k < |r.value.value| ==>
                var record := r.value.value[k];
                && IsRequestOf(loader.pid, loader.userAgent, record)
                && record.datetime.Some?
                && AtOrAfter(record.datetime.value, loader.startTime)
  {
    if file.Some? {
      var rows := file.value;
      var filter := ServerDataFilter(loader.pid, loader.userAgent, loader.jsonData);
      var window := TimeWindow(loader.startTime, None);
      var format := ServerFormatter(lib);
      var filters: Option<seq<Filter<ServerRecord>>> := Some([SessionFilter(filter)]);
      assert forall row :: format(row).Success? ==> WellFormedServer(format(row).value);
      ScannerProperties.RecordBreakerResults(rows, format, filters, TimeStop(window), WellFormedServer);
      var r := ReadData(rows, format, filters, Some(RecordBreaker(TimeStop(window))));
      if r.Success? {
        forall k | 0 <= k < |r.value|
          ensures IsRequestOf(loader.pid, loader.userAgent, r.value[k])
          ensures r.value[k].datetime.Some?
          ensures AtOrAfter(r.value[k].datetime.value, loader.startTime)
        {
          var record := r.value[k];
          assert PassesAll(filters.value, record);
          assert filters.value[0](record);
          assert ServerAccept(filter, record);
          assert !TimeStop(window)(record);
          TimeWindowInclusive(window, record);
        }
      }
    }
  }
}
