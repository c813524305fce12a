/** One program execution read from a trace file (OJWebService/TestSuits/Trace.cs).
    A trace shares the trace file's reader; enumerating it reads one line of
    node ids and gives the reader up, so it can be enumerated only once. */
module Trace {
  import opened Wrappers
  import opened Chars
  import opened TextReaderExt

  /** `reader` is the text still to be read, or None once enumerated. */
  datatype Trace = Trace(isSuccessful: bool, reader: Option<string>)

  /** What enumerating a trace produces: the node ids, the trace afterwards,
      and where the shared reader stands (None when nothing was read). */
  datatype Enumeration = Enumeration(values: seq<nat>, after: Trace, rest: Option<string>)

  /** GetEnumerator: the digit runs of the next line, then the reader is dropped. */
  function Enumerate(t: Trace): (e: Enumeration)
    ensures e.after.isSuccessful == t.isSuccessful && e.after.reader.None?
    ensures t.reader.None? ==> e.values == [] && e.rest.None?
    ensures t.reader.Some? ==> e.rest.Some? && |e.rest.value| <= |t.reader.value|
  {
    match t.reader
    case None => Enumeration([], t, None)
    case Some(s) =>
      var (values, rest) := ScanRuns(s, -1, []);
      Enumeration(values, Trace(t.isSuccessful, None), Some(rest))
  }

  /** A trace yields the numbers of its line, separated by ',' or ' ', in
      order, and leaves the reader after the line and the line breaks that
      follow it. */
  lemma EnumerateMeaning(t: Trace)
    requires t.reader.Some?
    ensures var s := t.reader.value;
      && Enumerate(t).values == RunValues(s[..LineEnd(s)])
      && Enumerate(t).rest == Some(if LineEnd(s) == |s| then [] else SkipLineBreaks(s[LineEnd(s) + 1..]))
  {
    ReadIntArrayMeaning(t.reader.value);
  }

  /** The trace parser and ReadIntArray read a line the same way. */
  lemma EnumerateIsReadIntArray(t: Trace)
    requires t.reader.Some?
    ensures Enumerate(t).values == ReadIntArray(t.reader.value).0
    ensures Enumerate(t).rest == Some(ReadIntArray(t.reader.value).1)
  {
  }

  /** A second enumeration yields nothing and reads nothing. */
  lemma EnumerateOnce(t: Trace)
    ensures Enumerate(Enumerate(t).after).values == []
    ensures Enumerate(Enumerate(t).after).rest.None?
  {
  }

  /** Node ids are read with char.IsDigit: a digit of another script counts
      as its distance from '0', here U+0663 as 1587. */
  lemma EnumerateOtherScriptDigit()
    ensures Enumerate(Trace(true, Some("\U{0663}"))).values == [1587]
  {
    ReadIntArrayOtherScriptDigit();
  }
}
