/** Python's `str.split(sep)` for a one-character separator, and its inverse
    `sep.join(pieces)`. */
module Text {

  type String = seq<char>

  /** `sep.join(pieces)`. */
  function Join(pieces: seq<String>, sep: char): String
    decreases |pieces|
  {
    if |pieces| == 0 then []
    else if |pieces| == 1 then pieces[0]
    else pieces[0] + [sep] + Join(pieces[1..], sep)
  }

  /** Index of the first occurrence of `c` in `s`, or `|s|` when there is none. */
  function IndexOf(s: String, c: char): (i: nat)
    ensures i <= |s|
    ensures i < |s| ==> s[i] == c
    ensures c !in s[..i]
    ensures i == |s| <==> c !in s
    decreases |s|
  {
    if |s| == 0 then 0
    else if s[0] == c then 0
    else
      var j := IndexOf(s[1..], c);
      assert s[..j + 1] == [s[0]] + s[1..][..j];
      j + 1
  }

  /** `s.split(sep)`: the pieces between occurrences of `sep`, always at least
      one, none containing `sep`; joining them back gives `s`. The first piece
      is the text before the first separator. */
  function Split(s: String, sep: char): (pieces: seq<String>)
    ensures |pieces| >= 1
    ensures forall k :: 0 <= k < |pieces| ==> sep !in pieces[k]
    ensures Join(pieces, sep) == s
    ensures pieces[0] == s[..IndexOf(s, sep)]
    ensures |pieces| == 1 <==> sep !in s
    decreases |s|
  {
    var i := IndexOf(s, sep);
    if i == |s| then
      assert s[..i] == s;
      [s]
    else
      var rest := Split(s[i + 1..], sep);
      assert s == s[..i] + [sep] + s[i + 1..];
      [s[..i]] + rest
  }

  /** Splitting a piece-wise separator-free list back out of its join gives
      the same list: `Split` and `Join` are inverse. */
  lemma {:induction false} SplitJoin(pieces: seq<String>, sep: char)
    requires |pieces| >= 1
    requires forall k :: 0 <= k < |pieces| ==> sep !in pieces[k]
    ensures Split(Join(pieces, sep), sep) == pieces
    decreases |pieces|
  {
    var s := Join(pieces, sep);
    if |pieces| == 1 {
      assert sep !in s;
    } else {
      var tail := Join(pieces[1..], sep);
      assert s == pieces[0] + [sep] + tail;
      var i := IndexOf(s, sep);
      IndexOfAfterPrefix(pieces[0], tail, sep);
      assert i == |pieces[0]|;
      assert s[..i] == pieces[0];
      assert s[i + 1..] == tail;
      SplitJoin(pieces[1..], sep);
      assert Split(s, sep) == [pieces[0]] + Split(tail, sep);
    }
  }

  lemma {:induction false} IndexOfAfterPrefix(head: String, tail: String, sep: char)
    requires sep !in head
    ensures IndexOf(head + [sep] + tail, sep) == |head|
    decreases |head|
  {
    var s := head + [sep] + tail;
    if |head| > 0 {
      assert s[0] == head[0] && head[0] != sep;
      assert s[1..] == head[1..] + [sep] + tail;
      IndexOfAfterPrefix(head[1..], tail, sep);
    }
  }

  /** The first piece opens the join, followed by the separator when more
      pieces come. */
  lemma JoinHead(pieces: seq<String>, sep: char)
    requires |pieces| >= 2
    ensures pieces[0] + [sep] + pieces[1] <= Join(pieces, sep)
    ensures var n := |pieces[0]| + 1 + |pieces[1]|;
            |pieces| > 2 ==> n < |Join(pieces, sep)| && Join(pieces, sep)[n] == sep
    ensures |pieces| == 2 ==> Join(pieces, sep) == pieces[0] + [sep] + pieces[1]
  {
    var tail := pieces[1..];
    assert Join(pieces, sep) == pieces[0] + [sep] + Join(tail, sep);
    if |pieces| > 2 {
      assert Join(tail, sep) == pieces[1] + [sep] + Join(tail[1..], sep);
    }
  }
}
