/** The line splitter (`LineReader.LineParser`): a per-byte state machine run
    over the successive chunks of a file. `\n`, `\r` and `\r\n` each end one
    line; the carry `ignoreLF` lives in the parser, not in a chunk, so a
    `\r\n` pair split across two chunks still ends a single line. The bytes
    of an unterminated line are held back and flushed at end of input.

    This is the behaviour the project's tests pin down; `SplitterAsWritten`
    holds the code as written and the inputs on which the two differ. */
module Splitter {
  import opened Streams
  import Quota

  /** The parser between two bytes: the bytes of the line begun and not yet
      terminated (the range from the buffer's mark that stays pinned across
      chunks), the carry that swallows the LF of a CR LF pair, and the line
      quota it shares with the subscription. */
  datatype Parser = Parser(pending: seq<byte>, ignoreLF: bool, request: Quota.Request)

  /** A parser state together with the lines emitted to reach it. */
  datatype Scanned = Scanned(parser: Parser, lines: seq<Line>)

  /** The parser created for a subscription with quota `r`. */
  function Start(r: Quota.Request): Parser {
    Parser([], false, r)
  }

  /** The well-formed parser states: the pending bytes never hold a
      terminator, and the carry is only set right after a CR, when no byte
      of the next line has been seen yet. */
  predicate Good(p: Parser) {
    NoTerminator(p.pending) && (p.ignoreLF ==> p.pending == [])
  }

  /** One iteration of the scanning loop of `onNext`. The loop runs only while
      the quota is active; a CR or an LF emits the pending bytes as a line
      and charges the quota, except an LF right after a CR, which only clears
      the carry. Any other byte extends the pending line and clears the
      carry (the source clears it only on the next LF; see
      `SplitterAsWritten.Step`). */
  function Step(p: Parser, c: byte): (r: Scanned)
    ensures |r.lines| <= 1
    ensures r.parser.request == if |r.lines| == 1 then Quota.Send(p.request) else p.request
    ensures !Quota.IsActive(p.request) ==> r == Scanned(p, [])
    ensures Quota.IsActive(p.request) && IsTerminator(c) && !(c == LF && p.ignoreLF) ==> r.lines == [p.pending]
    ensures Good(p) ==> Good(r.parser)
  {
    if !Quota.IsActive(p.request) then Scanned(p, [])
    else if c == CR then Scanned(Parser([], true, Quota.Send(p.request)), [p.pending])
    else if c == LF && p.ignoreLF then Scanned(Parser([], false, p.request), [])
    else if c == LF then Scanned(Parser([], false, Quota.Send(p.request)), [p.pending])
    else Scanned(Parser(p.pending + [c], false, p.request), [])
  }

  /** `onNext(chunk)`: the scanning loop over the bytes of one chunk. Every
      emitted line is charged to a bounded quota, and an unbounded one is
      never charged. */
  function Scan(p: Parser, s: seq<byte>): (r: Scanned)
    ensures r.parser.request.unbounded == p.request.unbounded
    ensures r.parser.request.interrupted == p.request.interrupted
    ensures r.parser.request.remain
            == if p.request.unbounded then p.request.remain else p.request.remain - |r.lines|
    decreases |s|
  {
    if |s| == 0 then Scanned(p, [])
    else
      var first := Step(p, s[0]);
      var rest := Scan(first.parser, s[1..]);
      Scanned(rest.parser, first.lines + rest.lines)
  }

  /** `onNext` called once per chunk, in order. Scanning never changes
      whether the quota is unbounded or interrupted. */
  function Feed(p: Parser, chunks: seq<seq<byte>>): (r: Scanned)
    ensures r.parser.request.unbounded == p.request.unbounded
    ensures r.parser.request.interrupted == p.request.interrupted
    decreases |chunks|
  {
    if |chunks| == 0 then Scanned(p, [])
    else
      var first := Scan(p, chunks[0]);
      var rest := Feed(first.parser, chunks[1..]);
      Scanned(rest.parser, first.lines + rest.lines)
  }

  /** `onComplete`: the held-back bytes of an unterminated last line become
      the final line, provided the quota still allows a line. A terminator at
      the very end leaves nothing pending and adds no empty line. */
  function Finish(p: Parser): (r: Scanned)
    ensures |r.lines| <= 1
    ensures r.lines == [] <==> !Quota.IsActive(p.request) || p.pending == []
    ensures r.lines != [] ==> r.lines == [p.pending] && r.parser.request == Quota.Send(p.request)
    ensures r.lines == [] ==> r.parser == p
  {
    if Quota.IsActive(p.request) && |p.pending| > 0 then
      Scanned(p.(pending := [], request := Quota.Send(p.request)), [p.pending])
    else Scanned(p, [])
  }

  /** A whole input scanned in one piece, then end of input. */
  function Run(p: Parser, s: seq<byte>): Scanned {
    var scanned := Scan(p, s);
    var finished := Finish(scanned.parser);
    Scanned(finished.parser, scanned.lines + finished.lines)
  }

  // ---------------------------------------------------------------------
  // Chunking does not matter

  /** Scanning `a + b` is scanning `a`, then scanning `b` from where `a`
      left the parser. */
  lemma {:induction false} ScanAppend(p: Parser, a: seq<byte>, b: seq<byte>)
    ensures var x := Scan(p, a);
            var y := Scan(x.parser, b);
            Scan(p, a + b) == Scanned(y.parser, x.lines + y.lines)
    decreases |a|
  {
    if |a| == 0 {
      assert a + b == b;
    } else {
      assert (a + b)[0] == a[0];
      assert (a + b)[1..] == a[1..] + b;
      ScanAppend(Step(p, a[0]).parser, a[1..], b);
    }
  }

  /** Feeding chunks one `onNext` at a time is scanning their concatenation. */
  lemma {:induction false} FeedIsScan(p: Parser, chunks: seq<seq<byte>>)
    ensures Feed(p, chunks) == Scan(p, Flatten(chunks))
    decreases |chunks|
  {
    if |chunks| > 0 {
      FeedIsScan(Scan(p, chunks[0]).parser, chunks[1..]);
      ScanAppend(p, chunks[0], Flatten(chunks[1..]));
    }
  }

  /** The lines produced, and the state left for end of input, do not depend
      on how the file is cut into chunks. */
  lemma ChunkingIndependent(p: Parser, c1: seq<seq<byte>>, c2: seq<seq<byte>>)
    requires Flatten(c1) == Flatten(c2)
    ensures Feed(p, c1) == Feed(p, c2)
  {
    FeedIsScan(p, c1);
    FeedIsScan(p, c2);
  }

  /** Once the quota is spent, further bytes change nothing and emit nothing. */
  lemma {:induction false} InactiveScanIsIdle(p: Parser, s: seq<byte>)
    requires !Quota.IsActive(p.request)
    ensures Scan(p, s) == Scanned(p, [])
    decreases |s|
  {
    if |s| > 0 {
      InactiveScanIsIdle(p, s[1..]);
    }
  }

  /** Emitted lines never contain a CR or an LF, and the state stays well
      formed. */
  lemma {:induction false} ScanLinesHaveNoTerminator(p: Parser, s: seq<byte>)
    requires Good(p)
    ensures Good(Scan(p, s).parser)
    ensures forall i :: 0 <= i < |Scan(p, s).lines| ==> NoTerminator(Scan(p, s).lines[i])
    decreases |s|
  {
    if |s| > 0 {
      var first := Step(p, s[0]);
      ScanLinesHaveNoTerminator(first.parser, s[1..]);
      var rest := Scan(first.parser, s[1..]);
      forall i | 0 <= i < |first.lines + rest.lines|
        ensures NoTerminator((first.lines + rest.lines)[i])
      {
        if i < |first.lines| {
          assert first.lines == [p.pending];
        } else {
          assert (first.lines + rest.lines)[i] == rest.lines[i - |first.lines|];
        }
      }
    }
  }

  // ---------------------------------------------------------------------
  // Reference definition of the lines of a byte sequence

  /** Index of the first CR or LF of `s`, or `|s|` when there is none. */
  function FirstTerminator(s: seq<byte>): (i: nat)
    ensures i <= |s|
    ensures forall j :: 0 <= j < i ==> !IsTerminator(s[j])
    ensures i < |s| ==> IsTerminator(s[i])
    decreases |s|
  {
    if |s| == 0 then 0
    else if IsTerminator(s[0]) then 0
    else 1 + FirstTerminator(s[1..])
  }

  /** The lines of `s`: the maximal runs free of CR and LF, each ended by
      `\n`, `\r` or `\r\n` (one terminator), plus the unterminated tail when
      it is not empty. Empty lines between terminators are lines. */
  function SpecLines(s: seq<byte>): seq<Line>
    decreases |s|
  {
    if |s| == 0 then []
    else
      var i := FirstTerminator(s);
      if i == |s| then [s]
      else
        var next := if s[i] == CR && i + 1 < |s| && s[i + 1] == LF then i + 2 else i + 1;
        [s[..i]] + SpecLines(s[next..])
  }

  /** Drop one leading LF: what remains to split after a CR. */
  function SkipLF(s: seq<byte>): seq<byte> {
    if |s| > 0 && s[0] == LF then s[1..] else s
  }

  lemma FirstTerminatorAfter(pending: seq<byte>, s: seq<byte>)
    requires NoTerminator(pending)
    requires |s| > 0 && IsTerminator(s[0])
    ensures FirstTerminator(pending + s) == |pending|
  {
    assert (pending + s)[|pending|] == s[0];
  }

  lemma FirstTerminatorAbsent(s: seq<byte>)
    requires NoTerminator(s)
    ensures FirstTerminator(s) == |s|
  {
  }

  /** Unrolls `Run` by one byte. */
  lemma RunStep(p: Parser, s: seq<byte>)
    requires |s| > 0
    ensures var first := Step(p, s[0]);
            Run(p, s).lines == first.lines + Run(first.parser, s[1..]).lines
  {
  }

  /** The core of `SplitMatchesSpec`, for any well-formed unbounded state. */
  lemma {:induction false} RunMatchesSpec(pending: seq<byte>, ignoreLF: bool, s: seq<byte>)
    requires Good(Parser(pending, ignoreLF, Quota.Unbounded))
    ensures Run(Parser(pending, ignoreLF, Quota.Unbounded), s).lines
            == SpecLines(if ignoreLF then SkipLF(s) else pending + s)
    decreases |s|, if ignoreLF then 1 else 0
  {
    var p := Parser(pending, ignoreLF, Quota.Unbounded);
    if |s| == 0 {
      assert pending + s == pending;
      if |pending| > 0 {
        FirstTerminatorAbsent(pending);
      }
    } else if ignoreLF {
      if s[0] == LF {
        RunStep(p, s);
        RunMatchesSpec([], false, s[1..]);
        assert [] + s[1..] == s[1..];
      } else {
        RunStep(p, s);
        RunStep(Parser([], false, Quota.Unbounded), s);
        RunMatchesSpec([], false, s);
        assert [] + s == s;
      }
    } else {
      var c := s[0];
      RunStep(p, s);
      var t := pending + s;
      if IsTerminator(c) {
        FirstTerminatorAfter(pending, s);
        assert t[..|pending|] == pending;
        assert t[|pending|] == c;
        if c == CR {
          RunMatchesSpec([], true, s[1..]);
          if |s| > 1 && s[1] == LF {
            assert t[|pending| + 1] == s[1];
            assert t[|pending| + 2..] == s[2..];
          } else {
            assert t[|pending| + 1..] == s[1..];
          }
        } else {
          RunMatchesSpec([], false, s[1..]);
          assert t[|pending| + 1..] == s[1..];
          assert [] + s[1..] == s[1..];
        }
      } else {
        RunMatchesSpec(pending + [c], false, s[1..]);
        assert (pending + [c]) + s[1..] == t;
      }
    }
  }

  /** With an unbounded quota, the splitter emits exactly the lines of the
      input as `SpecLines` defines them, whatever the chunking. */
  lemma SplitMatchesSpec(chunks: seq<seq<byte>>)
    ensures var fed := Feed(Start(Quota.Unbounded), chunks);
            fed.lines + Finish(fed.parser).lines == SpecLines(Flatten(chunks))
  {
    FeedIsScan(Start(Quota.Unbounded), chunks);
    RunMatchesSpec([], false, Flatten(chunks));
    assert [] + Flatten(chunks) == Flatten(chunks);
  }

  // ---------------------------------------------------------------------
  // The line quota

  /** The first `n` lines of `lines`, or all of them when there are fewer. */
  function Take(lines: seq<Line>, n: int): (r: seq<Line>)
    ensures |r| == if n <= 0 then 0 else if n < |lines| then n else |lines|
    ensures forall i :: 0 <= i < |r| ==> r[i] == lines[i]
  {
    if n <= 0 then [] else if n < |lines| then lines[..n] else lines
  }

  lemma TakeCons(l: seq<Line>, rest: seq<Line>, n: int)
    requires |l| <= 1 && |l| <= n
    ensures Take(l + rest, n) == l + Take(rest, n - |l|)
  {
    if |l| == 1 {
      var lhs := Take(l + rest, n);
      var rhs := l + Take(rest, n - 1);
      assert |lhs| == |rhs|;
      forall i | 0 <= i < |lhs|
        ensures lhs[i] == rhs[i]
      {
        if i > 0 {
          assert (l + rest)[i] == rest[i - 1];
        }
      }
    } else {
      assert l + rest == rest;
    }
  }

  /** Scanning under a bounded quota of `n` emits the first `n` of the lines
      the unbounded scan emits, charges one unit per line, and, while lines
      are still owed, leaves the same pending bytes and carry. */
  lemma {:induction false} BoundedScanTakes(pending: seq<byte>, ignoreLF: bool, n: int, s: seq<byte>)
    requires n >= 0
    ensures var b := Scan(Parser(pending, ignoreLF, Quota.Request(n, false, false)), s);
            var u := Scan(Parser(pending, ignoreLF, Quota.Unbounded), s);
            && b.lines == Take(u.lines, n)
            && b.parser.request == Quota.Request(n - |b.lines|, false, false)
            && (|u.lines| < n ==> b.parser.pending == u.parser.pending && b.parser.ignoreLF == u.parser.ignoreLF)
    decreases |s|
  {
    var bp := Parser(pending, ignoreLF, Quota.Request(n, false, false));
    var up := Parser(pending, ignoreLF, Quota.Unbounded);
    if |s| == 0 {
    } else if n == 0 {
      InactiveScanIsIdle(bp, s);
    } else {
      var bf := Step(bp, s[0]);
      var uf := Step(up, s[0]);
      assert bf.lines == uf.lines;
      assert bf.parser.pending == uf.parser.pending && bf.parser.ignoreLF == uf.parser.ignoreLF;
      assert uf.parser.request == Quota.Unbounded;
      var n' := n - |bf.lines|;
      assert bf.parser.request == Quota.Request(n', false, false);
      BoundedScanTakes(bf.parser.pending, bf.parser.ignoreLF, n', s[1..]);
      TakeCons(uf.lines, Scan(uf.parser, s[1..]).lines, n);
    }
  }

  /** `BoundedScanTakes` carried through end of input. */
  lemma BoundedRunTakes(n: int, s: seq<byte>)
    requires n >= 0
    ensures var r := Run(Start(Quota.Request(n, false, false)), s);
            && r.lines == Take(SpecLines(s), n)
            && r.parser.request == Quota.Request(n - |r.lines|, false, false)
  {
    BoundedScanTakes([], false, n, s);
    var b := Scan(Start(Quota.Request(n, false, false)), s);
    var u := Scan(Start(Quota.Unbounded), s);
    var uf := Finish(u.parser);
    RunMatchesSpec([], false, s);
    assert [] + s == s;
    assert u.lines + uf.lines == SpecLines(s);
    if |u.lines| < n {
      assert b.lines == u.lines;
      assert b.parser.pending == u.parser.pending;
      assert Quota.IsActive(b.parser.request);
      assert Finish(b.parser).lines == uf.lines;
    } else {
      assert |b.lines| == n;
      assert Finish(b.parser).lines == [];
      assert Take(u.lines + uf.lines, n) == Take(u.lines, n);
    }
  }

  /** With a bounded quota of `n` lines the splitter emits the first `n`
      lines of the input (all of them when there are fewer), and the quota
      left is `n` minus the lines emitted, whatever the chunking. */
  lemma BoundedSplitTakes(n: int, chunks: seq<seq<byte>>)
    requires n >= 0
    ensures var fed := Feed(Start(Quota.Request(n, false, false)), chunks);
            var fin := Finish(fed.parser);
            && fed.lines + fin.lines == Take(SpecLines(Flatten(chunks)), n)
            && fin.parser.request == Quota.Request(n - |fed.lines + fin.lines|, false, false)
  {
    FeedIsScan(Start(Quota.Request(n, false, false)), chunks);
    BoundedRunTakes(n, Flatten(chunks));
  }

  // ---------------------------------------------------------------------
  // Round trip

  /** How a row of a file ends. */
  datatype Ending = ByLF | ByCR | ByCRLF

  function EndingBytes(e: Ending): seq<byte> {
    match e
    case ByLF => [LF]
    case ByCR => [CR]
    case ByCRLF => [CR, LF]
  }

  /** One line of a file and the terminator written after it. */
  datatype Row = Row(line: Line, ending: Ending)

  /** The bytes of a file written as `rows`, each line followed by its
      terminator, then an unterminated `tail` (possibly empty). */
  function Compose(rows: seq<Row>, tail: Line): seq<byte>
    decreases |rows|
  {
    if |rows| == 0 then tail
    else rows[0].line + EndingBytes(rows[0].ending) + Compose(rows[1..], tail)
  }

  function RowLines(rows: seq<Row>): (r: seq<Line>)
    ensures |r| == |rows|
    ensures forall i :: 0 <= i < |rows| ==> r[i] == rows[i].line
  {
    if |rows| == 0 then [] else [rows[0].line] + RowLines(rows[1..])
  }

  /** A file the rows describe without ambiguity: no line holds a
      terminator, and a lone CR is never followed by an LF (that pair would
      read as one CR LF terminator). */
  predicate Unambiguous(rows: seq<Row>, tail: Line)
    decreases |rows|
  {
    NoTerminator(tail)
    && (|rows| > 0 ==>
          && NoTerminator(rows[0].line)
          && (rows[0].ending == ByCR ==>
                var next := Compose(rows[1..], tail);
                !(|next| > 0 && next[0] == LF))
          && Unambiguous(rows[1..], tail))
  }

  /** A terminator-free line, its terminator, then the rest: the line comes
      first and the rest splits on its own, provided a lone CR is not
      followed by an LF. */
  lemma SplitsAfterRow(l: Line, e: Ending, rest: seq<byte>)
    requires NoTerminator(l)
    requires e == ByCR ==> !(|rest| > 0 && rest[0] == LF)
    ensures SpecLines(l + EndingBytes(e) + rest) == [l] + SpecLines(rest)
  {
    var b := EndingBytes(e);
    var s := l + b + rest;
    assert s == l + (b + rest);
    FirstTerminatorAfter(l, b + rest);
    assert s[..|l|] == l;
    assert s[|l|] == b[0];
    match e {
      case ByLF =>
        assert s[|l| + 1..] == rest;
      case ByCRLF =>
        assert s[|l| + 1] == LF;
        assert s[|l| + 2..] == rest;
      case ByCR =>
        if |l| + 1 < |s| {
          assert s[|l| + 1] == rest[0];
        }
        assert s[|l| + 1..] == rest;
    }
  }

  /** Splitting a file written from lines and terminators gives back exactly
      those lines, empty ones included, plus the unterminated tail when there
      is one; a terminator at the very end adds no empty line. */
  lemma {:induction false} ComposeSplits(rows: seq<Row>, tail: Line)
    requires Unambiguous(rows, tail)
    ensures SpecLines(Compose(rows, tail)) == RowLines(rows) + (if |tail| == 0 then [] else [tail])
    decreases |rows|
  {
    if |rows| == 0 {
      if |tail| > 0 {
        FirstTerminatorAbsent(tail);
      }
    } else {
      SplitsAfterRow(rows[0].line, rows[0].ending, Compose(rows[1..], tail));
      ComposeSplits(rows[1..], tail);
    }
  }

  /** Splitting a whole file with an unbounded quota gives back the lines it
      was written from. */
  lemma SplitRoundTrip(rows: seq<Row>, tail: Line)
    requires Unambiguous(rows, tail)
    ensures Run(Start(Quota.Unbounded), Compose(rows, tail)).lines
            == RowLines(rows) + (if |tail| == 0 then [] else [tail])
  {
    RunMatchesSpec([], false, Compose(rows, tail));
    assert [] + Compose(rows, tail) == Compose(rows, tail);
    ComposeSplits(rows, tail);
  }
}
