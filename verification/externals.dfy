/** The Python library calls the formatters make whose rules are not part of
    this model, passed in as values: `datetime.strptime(text, fmt)`, which
    gives `None` where Python raises `ValueError`, and `urllib2.unquote`. */
module Externals {
  import opened Wrappers
  import opened DateTimes

  datatype Library = Library(strptime: (string, string) -> Option<DateTime>, unquote: string -> string)

  /** The `strptime` format of the server log's time field. */
  const ServerTimeFormat: string := "%Y-%m-%dT%H:%M:%S+08:00"

  /** The `strptime` format of the local log's time field. */
  const LocalTimeFormat: string := "%Y-%m-%d %H:%M:%S"

  /** The exceptions a formatter can raise: `strptime`'s `ValueError`, and the
      `IndexError` of `kv[1]` on a query segment without `=`. */
  datatype FormatError = TimeDoesNotMatch(text: string, format: string) | SegmentWithoutValue(segment: string)
}
