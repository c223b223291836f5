/** The client side of the loader: `LocalLogFormatter` and the
    `LocalDataFileLoader` that keeps the newest local record. */
module LocalLog {
  import opened Wrappers
  import opened DateTimes
  import opened Externals
  import opened Scanner
  import ScannerProperties

  /** The dictionary `LocalLogFormatter.format` returns. `datetime` is `None`
      where the source stores `''`. */
  datatype LocalRecord = LocalRecord(datetime: Option<DateTime>, userAgent: string, data: string)

  /** `__create_empty_dict`. */
  const EmptyLocalRecord: LocalRecord := LocalRecord(None, "", "")

  /** The number of fields a well-formed local line splits into. */
  const LocalFieldCount: nat := 3

  /** `LocalLogFormatter.format`: a line of any field count but three is the
      empty record; a three-field line parses field 0 as the time, which can
      raise, and copies the agent and the data string unchanged. */
  function FormatLocalLine(lib: Library, row: Row): (r: Result<LocalRecord, FormatError>)
    ensures |row| != LocalFieldCount ==> r == Success(EmptyLocalRecord)
    ensures |row| == LocalFieldCount ==> (r.Success? <==> lib.strptime(row[0], LocalTimeFormat).Some?)
    ensures |row| == LocalFieldCount && r.Failure? ==> r.error == TimeDoesNotMatch(row[0], LocalTimeFormat)
    ensures |row| == LocalFieldCount && r.Success? ==>
              r.value == LocalRecord(lib.strptime(row[0], LocalTimeFormat), row[1], row[2])
    ensures r.Success? ==> (r.value.datetime.None? <==> r.value == EmptyLocalRecord)
  {
    if |row| != LocalFieldCount then Success(EmptyLocalRecord)
    else
      match lib.strptime(row[0], LocalTimeFormat)
      case None => Failure(TimeDoesNotMatch(row[0], LocalTimeFormat))
      case Some(t) => Success(LocalRecord(Some(t), row[1], row[2]))
  }

  function LocalFormatter(lib: Library): Formatter<LocalRecord, FormatError> {
    row => FormatLocalLine(lib, row)
  }

  /** `LocalDataFileLoader.load`: the last-accepted scan with the local
      formatter and no filters. */
  function LocalLoad(lib: Library, file: Option<seq<Row>>): (r: Result<Option<seq<LocalRecord>>, FormatError>)
    ensures r == Success(None) <==> file.None?
    ensures r.Success? && r.value.Some? ==> |r.value.value| <= 1
  {
    GetLastData(file, LocalFormatter(lib), None)
  }

  /** When the two newest non-empty lines of a local log parse, the loader
      returns exactly the newest one's agent and data with its time. */
  lemma LocalLoadNewest(lib: Library, rows: seq<Row>)
    requires var ne := NonEmptyRows(rows);
             && |ne| > 0
             && |ne[|ne| - 1]| == LocalFieldCount
             && lib.strptime(ne[|ne| - 1][0], LocalTimeFormat).Some?
             && (|ne| >= 2 ==> FormatLocalLine(lib, ne[|ne| - 2]).Success?)
    ensures var ne := NonEmptyRows(rows);
            var newest := ne[|ne| - 1];
            LocalLoad(lib, Some(rows))
            == Success(Some([LocalRecord(lib.strptime(newest[0], LocalTimeFormat), newest[1], newest[2])]))
  {
    ScannerProperties.LastAcceptedNewest(rows, LocalFormatter(lib));
  }

  /** A newest line with a bad time, or a second-newest one, makes the whole
      load fail with that line's error. */
  lemma LocalLoadRaises(lib: Library, rows: seq<Row>)
    requires var ne := NonEmptyRows(rows);
             && |ne| > 0
             && (FormatLocalLine(lib, ne[|ne| - 1]).Failure?
                 || (|ne| >= 2 && FormatLocalLine(lib, ne[|ne| - 2]).Failure?))
    ensures LocalLoad(lib, Some(rows)).Failure?
  {
    ScannerProperties.LastAcceptedNewest(rows, LocalFormatter(lib));
  }
}
