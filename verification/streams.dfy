/** Shared vocabulary of the line-reading pipeline: raw bytes, the two
    terminator bytes, the signals the outer subscriber observes, and the
    flattening of a sequence of chunks back into one byte stream. */
module Streams {

  /** A raw file byte, as `ByteBuffer.get` returns it. */
  newtype byte = x: int | 0 <= x < 256

  /** Carriage return, `'\r'`. */
  const CR: byte := 13
  /** Line feed, `'\n'`. */
  const LF: byte := 10

  /** A line is the raw byte range handed to the subscriber; no decoding. */
  type Line = seq<byte>

  predicate IsTerminator(c: byte) {
    c == CR || c == LF
  }

  /** True when no byte of `s` ends a line. */
  predicate NoTerminator(s: seq<byte>) {
    forall i :: 0 <= i < |s| ==> !IsTerminator(s[i])
  }

  datatype Option<+T> = None | Some(value: T)

  /** Why a stream failed. */
  datatype Cause =
    | IllegalArgument   // negative line request
    | IoFailure         // open, size, read or close of the file failed
    | NoMoreLines       // end of file reached with lines still owed

  /** What the outer subscriber of the line stream observes. */
  datatype Signal = Line(bytes: Line) | Complete | Failure(cause: Cause) {
    predicate IsTerminal() {
      !Line?
    }
  }

  /** The signals that deliver `lines`, in order. */
  function LineSignals(lines: seq<Line>): (r: seq<Signal>)
    ensures |r| == |lines|
    ensures forall i :: 0 <= i < |r| ==> r[i] == Line(lines[i])
  {
    if |lines| == 0 then [] else [Line(lines[0])] + LineSignals(lines[1..])
  }

  /** Number of terminal signals (completion or failure) in a trace. */
  function TerminalCount(t: seq<Signal>): nat {
    if |t| == 0 then 0
    else (if t[0].IsTerminal() then 1 else 0) + TerminalCount(t[1..])
  }

  /** The bytes of all chunks, in order. */
  function Flatten<T>(chunks: seq<seq<T>>): seq<T> {
    if |chunks| == 0 then [] else chunks[0] + Flatten(chunks[1..])
  }

  lemma {:induction false} FlattenAppend<T>(a: seq<seq<T>>, b: seq<seq<T>>)
    ensures Flatten(a + b) == Flatten(a) + Flatten(b)
    decreases |a|
  {
    if |a| == 0 {
      assert a + b == b;
    } else {
      assert (a + b)[1..] == a[1..] + b;
      FlattenAppend(a[1..], b);
    }
  }

  lemma {:induction false} LineSignalsAppend(a: seq<Line>, b: seq<Line>)
    ensures LineSignals(a + b) == LineSignals(a) + LineSignals(b)
  {
    assert |LineSignals(a + b)| == |LineSignals(a) + LineSignals(b)|;
    forall i | 0 <= i < |a + b|
      ensures LineSignals(a + b)[i] == (LineSignals(a) + LineSignals(b))[i]
    {
      if i < |a| {
        assert (a + b)[i] == a[i];
      } else {
        assert (a + b)[i] == b[i - |a|];
      }
    }
  }

  lemma {:induction false} TerminalCountAppend(a: seq<Signal>, b: seq<Signal>)
    ensures TerminalCount(a + b) == TerminalCount(a) + TerminalCount(b)
    decreases |a|
  {
    if |a| == 0 {
      assert a + b == b;
    } else {
      assert (a + b)[1..] == a[1..] + b;
      TerminalCountAppend(a[1..], b);
    }
  }

  lemma {:induction false} LineSignalsNotTerminal(lines: seq<Line>)
    ensures TerminalCount(LineSignals(lines)) == 0
    decreases |lines|
  {
    if |lines| > 0 {
      LineSignalsNotTerminal(lines[1..]);
    }
  }
}
