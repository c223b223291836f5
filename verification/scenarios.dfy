/** A worked example of the time breaker on a four-line server log. */
module ServerScenarios {
  import opened Wrappers
  import opened DateTimes
  import opened Externals
  import opened Scanner
  import opened ServerLog

  function At(minute: int): DateTime {
    DateTime(2021, 1, 1, 10, minute, 0)
  }

  /** A ten-field server line whose time field is `stamp` and whose data
      field is `-`. */
  function Line(stamp: string): Row {
    ["10.0.0.1", stamp, "GET", "/", "HTTP/1.1", "-", "200", "512", "-", "ua-1"]
  }

  /** The four lines, oldest first, stamped 10:00, 10:05, 10:10 and 10:15. */
  const Log: seq<Row> := [Line("a"), Line("b"), Line("c"), Line("d")]

  /** A clock that knows the four stamps. */
  function Clock(): Library {
    Library((text: string, format: string) =>
              if text == "a" then Some(At(0)) else if text == "b" then Some(At(5))
              else if text == "c" then Some(At(10)) else if text == "d" then Some(At(15)) else None,
            (text: string) => text)
  }

  function Stamped(minute: int): ServerRecord {
    ServerRecord("10.0.0.1", Some(At(minute)), "GET", NoData, "200", "ua-1")
  }

  lemma ClockFormats()
    ensures FormatServerLine(Clock(), Line("a")) == Success(Stamped(0))
    ensures FormatServerLine(Clock(), Line("b")) == Success(Stamped(5))
    ensures FormatServerLine(Clock(), Line("c")) == Success(Stamped(10))
    ensures FormatServerLine(Clock(), Line("d")) == Success(Stamped(15))
  {
  }

  /** With the window starting at 10:05 the scan keeps 10:15, 10:10 and 10:05,
      newest first, and stops at the 10:00 line. */
  lemma TimeWindowBoundary()
    ensures ReadData(Log, ServerFormatter(Clock()), None, Some(RecordBreaker(TimeStop(TimeWindow(At(5), None)))))
            == Success([Stamped(15), Stamped(10), Stamped(5)])
  {
    var format := ServerFormatter(Clock());
    var b: Option<Breaker<ServerRecord>> := Some(RecordBreaker(TimeStop(TimeWindow(At(5), None))));
    ClockFormats();
    assert !TimeLastBreaks(TimeWindow(At(5), None), Stamped(5));
    assert !TimeLastBreaks(TimeWindow(At(5), None), Stamped(10));
    assert VisitLine(Line("b"), 3, 1, [Stamped(15), Stamped(10)], format, None, b)
           == Next([Stamped(15), Stamped(10), Stamped(5)]);
    assert !TimeLastBreaks(TimeWindow(At(5), None), Stamped(15));
    assert Log[3] == Line("d") && Log[..|Log| - 1] == Log[..3];
    assert VisitLine(Line("d"), 1, 3, [], format, None, b) == Next([Stamped(15)]);
    assert VisitLine(Line("c"), 2, 2, [Stamped(15)], format, None, b)
           == Next([Stamped(15), Stamped(10)]);
    assert Log[..3][..2] == Log[..2] && Log[..3][2] == Line("c");
    assert Log[..2][..1] == Log[..1] && Log[..2][1] == Line("b");
    assert Walk(Log[..1], 3, 4, [Stamped(15), Stamped(10), Stamped(5)], format, None, b)
           == Broke([Stamped(15), Stamped(10), Stamped(5)]);
    assert Walk(Log[..2], 2, 4, [Stamped(15), Stamped(10)], format, None, b)
           == Walk(Log[..1], 3, 4, [Stamped(15), Stamped(10), Stamped(5)], format, None, b);
    assert Walk(Log[..3], 1, 4, [Stamped(15)], format, None, b)
           == Walk(Log[..2], 2, 4, [Stamped(15), Stamped(10)], format, None, b);
    assert Walk(Log, 0, 4, [], format, None, b)
           == Walk(Log[..3], 1, 4, [Stamped(15)], format, None, b);
  }
}
