/**
 * A model of the part of the C++ standard library that the dictionary
 * loader relies on: an input `std::stringstream` built from one line and
 * `std::getline(stream, str, delim)` on it, following the rule of clause
 * [string.io] of ISO/IEC 14882.
 *
 *  - If the stream is not good (end of file or failure already recorded),
 *    the sentry fails, the failure flag is set and `str` is left as it was.
 *  - Otherwise `str` is erased and characters are extracted and appended
 *    until the delimiter is extracted (it is not appended) or the end of the
 *    buffer is reached (the end-of-file flag is set).
 *  - If no character at all was extracted, the failure flag is set. A
 *    delimiter that was extracted counts as extracted.
 *
 * The bad flag (an I/O error of the underlying buffer) cannot arise on a
 * string buffer and is not modelled, nor is the `max_size()` limit.
 */
module Getline {

  /** The position of the first `c` in `s` at or after `from`, or `|s|`. */
  function IndexOf(s: string, c: char, from: nat): (r: nat)
    requires from <= |s|
    ensures from <= r <= |s|
    ensures forall k :: from <= k < r ==> s[k] != c
    ensures r < |s| ==> s[r] == c
    decreases |s| - from
  {
    if from == |s| then from
    else if s[from] == c then from
    else IndexOf(s, c, from + 1)
  }

  /** An input string stream: its buffer, the read position and two of its state flags. */
  datatype StringStream = StringStream(buf: string, pos: nat, eof: bool, fail: bool)
  {
    ghost predicate Valid() { pos <= |buf| }

    /** `good()`: neither end of file nor failure has been recorded. */
    predicate Good() { !eof && !fail }
  }

  /** `std::stringstream ss(line)`: positioned at the start, in the good state. */
  function Open(line: string): (ss: StringStream)
    ensures ss.Valid() && ss.Good() && ss.buf == line && ss.pos == 0
  {
    StringStream(line, 0, false, false)
  }

  /**
   * `std::getline(ss, str, delim)`: the new stream state and the new value
   * of `str`. The stream converts to `true` afterwards exactly when its
   * `fail` flag is clear.
   */
  function GetLine(ss: StringStream, str: string, delim: char): (r: (StringStream, string))
    requires ss.Valid()
    ensures r.0.Valid() && r.0.buf == ss.buf && ss.pos <= r.0.pos
    // a stream that is not good refuses to read and keeps the target string
    ensures !ss.Good() ==> r.0.fail && r.0.pos == ss.pos && r.1 == str
    // otherwise the target string is what was read, which never holds the delimiter
    ensures ss.Good() ==>
      ss.pos + |r.1| <= |ss.buf| && r.1 == ss.buf[ss.pos..ss.pos + |r.1|] && delim !in r.1
    // success means at least one character (possibly the delimiter) was extracted
    ensures ss.Good() ==> (!r.0.fail <==> ss.pos < r.0.pos)
    // the delimiter was consumed, or the end of the buffer was reached
    ensures ss.Good() && !r.0.eof ==>
      r.0.pos == ss.pos + |r.1| + 1 && ss.buf[ss.pos + |r.1|] == delim
    ensures ss.Good() && r.0.eof ==> r.0.pos == |ss.buf| == ss.pos + |r.1|
    // reading stops at the first delimiter at or after the read position
    ensures ss.Good() ==> ss.pos + |r.1| == IndexOf(ss.buf, delim, ss.pos)
    ensures ss.Good() ==> (r.0.eof <==> IndexOf(ss.buf, delim, ss.pos) == |ss.buf|)
  {
    if !ss.Good() then
      (ss.(fail := true), str)
    else
      var stop := IndexOf(ss.buf, delim, ss.pos);
      if stop < |ss.buf| then
        (ss.(pos := stop + 1), ss.buf[ss.pos..stop])
      else
        (ss.(pos := |ss.buf|, eof := true, fail := ss.pos == |ss.buf|), ss.buf[ss.pos..])
  }
}
