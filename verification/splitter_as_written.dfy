/** The line splitter as `LineReader.LineParser` is written, under the
    wiring described below, kept beside the corrected `Splitter` to exhibit
    where the two part ways:

    - an ordinary byte does not clear `ignoreLF`, so the next LF after a
      lone CR swallows the line before it (`0\r2\n` loses `2`);
    - `onComplete` flushes the retained view whenever one exists, because
      its test `mark <= limit` always holds, so a file ending in a
      terminator gets an extra empty line;
    - `onComplete` does not ask whether the quota is spent, so a line
      beyond the quota can be delivered.

    The retained view (`lastChunk`) is modelled under the wiring the parser
    is written for: chunks arrive in one allocator buffer whose mark is the
    start of the pending line, so the view runs from that mark to the end
    of the latest chunk. */
module SplitterAsWritten {
  import opened Streams
  import Quota
  import Splitter

  /** `retained` is `lastChunk`: absent until an `onNext` ends with the quota
      still active; then the bytes from the buffer's mark to its limit. */
  datatype Parser = Parser(pending: seq<byte>, ignoreLF: bool, request: Quota.Request, retained: Option<seq<byte>>)

  datatype Scanned = Scanned(parser: Parser, lines: seq<Line>)

  function Start(r: Quota.Request): Parser {
    Parser([], false, r, None)
  }

  /** One iteration of the loop of `onNext` as written: the LF that follows a
      CR, however many bytes later, restarts the line without emitting it. */
  function Step(p: Parser, c: byte): (r: Scanned)
    ensures |r.lines| <= 1
    ensures r.parser.request == if |r.lines| == 1 then Quota.Send(p.request) else p.request
    ensures r.parser.retained == p.retained
    ensures !Quota.IsActive(p.request) ==> r == Scanned(p, [])
  {
    if !Quota.IsActive(p.request) then Scanned(p, [])
    else if c == CR then Scanned(p.(pending := [], ignoreLF := true, request := Quota.Send(p.request)), [p.pending])
    else if c == LF && p.ignoreLF then Scanned(p.(pending := [], ignoreLF := false), [])
    else if c == LF then Scanned(p.(pending := [], request := Quota.Send(p.request)), [p.pending])
    else Scanned(p.(pending := p.pending + [c]), [])
  }

  function Scan(p: Parser, s: seq<byte>): (r: Scanned)
    ensures r.parser.retained == p.retained
    decreases |s|
  {
    if |s| == 0 then Scanned(p, [])
    else
      var first := Step(p, s[0]);
      var rest := Scan(first.parser, s[1..]);
      Scanned(rest.parser, first.lines + rest.lines)
  }

  /** `onNext(chunk)`: the scanning loop, then either the buffer is retained
      with its mark at the start of the pending line, or (quota spent) the
      mark stays where it was and the view grows by the chunk. */
  function OnNext(p: Parser, chunk: seq<byte>): (r: Scanned)
    ensures Quota.IsActive(r.parser.request) ==> r.parser.retained == Some(r.parser.pending)
    ensures !Quota.IsActive(r.parser.request) ==>
              r.parser.retained == if p.retained.Some? then Some(p.retained.value + chunk) else None
  {
    var scanned := Scan(p, chunk);
    var q := scanned.parser;
    if Quota.IsActive(q.request) then Scanned(q.(retained := Some(q.pending)), scanned.lines)
    else Scanned(q.(retained := if p.retained.Some? then Some(p.retained.value + chunk) else None), scanned.lines)
  }

  function Feed(p: Parser, chunks: seq<seq<byte>>): Scanned
    decreases |chunks|
  {
    if |chunks| == 0 then Scanned(p, [])
    else
      var first := OnNext(p, chunks[0]);
      var rest := Feed(first.parser, chunks[1..]);
      Scanned(rest.parser, first.lines + rest.lines)
  }

  /** `onComplete` as written: the retained view is always flushed, empty or
      not, and whatever the quota. */
  function Finish(p: Parser): (r: Scanned)
    ensures p.retained.Some? ==> r.lines == [p.retained.value] && r.parser.request == Quota.Send(p.request)
    ensures p.retained.None? ==> r == Scanned(p, [])
  {
    if p.retained.Some? then Scanned(p.(request := Quota.Send(p.request)), [p.retained.value])
    else Scanned(p, [])
  }

  /** A whole delivery: every chunk through `onNext`, then `onComplete`. */
  function Deliver(r: Quota.Request, chunks: seq<seq<byte>>): Scanned {
    var fed := Feed(Start(r), chunks);
    var fin := Finish(fed.parser);
    Scanned(fin.parser, fed.lines + fin.lines)
  }

  // ---------------------------------------------------------------------
  // Where the code as written departs from its tests

  /** `0\r2\n` read as written: the LF after `2` is taken for the second half
      of the earlier CR and `2` is lost; the final flush then adds an empty
      line. The corrected splitter gives `0`, `2`. */
  lemma LosesLineAfterLoneCR()
    ensures Deliver(Quota.Unbounded, [[48, CR, 50, LF]]).lines == [[48], []]
    ensures Splitter.Run(Splitter.Start(Quota.Unbounded), [48, CR, 50, LF]).lines == [[48], [50]]
  {
    var U := Quota.Unbounded;
    var s: seq<byte> := [48, CR, 50, LF];
    var p0 := Start(U);
    var p1 := Parser([48], false, U, None);
    var p2 := Parser([], true, U, None);
    var p3 := Parser([50], true, U, None);
    var p4 := Parser([], false, U, None);
    assert Step(p0, 48) == Scanned(p1, []);
    assert Step(p1, CR) == Scanned(p2, [[48]]);
    assert Step(p2, 50) == Scanned(p3, []);
    assert Step(p3, LF) == Scanned(p4, []);
    assert Scan(p4, []) == Scanned(p4, []);
    assert Scan(p3, [LF]) == Scanned(p4, []);
    assert s[2..] == [50, LF];
    assert Scan(p2, [50, LF]) == Scanned(p4, []);
    assert s[1..] == [CR, 50, LF];
    assert Scan(p1, [CR, 50, LF]) == Scanned(p4, [[48]]);
    assert Scan(p0, s) == Scanned(p4, [[48]]);
    assert OnNext(p0, s) == Scanned(p4.(retained := Some([])), [[48]]);
    assert Feed(p0, [s]) == Scanned(p4.(retained := Some([])), [[48]]);

    var rows := [Splitter.Row([48], Splitter.ByCR), Splitter.Row([50], Splitter.ByLF)];
    assert Splitter.Compose(rows, []) == s;
    Splitter.SplitRoundTrip(rows, []);
  }

  /** `4\r\n` read as written: the flush after the final terminator adds an
      empty line. The corrected splitter gives `4` alone. */
  lemma FlushesEmptyLastLine()
    ensures Deliver(Quota.Unbounded, [[52, CR, LF]]).lines == [[52], []]
    ensures Splitter.Run(Splitter.Start(Quota.Unbounded), [52, CR, LF]).lines == [[52]]
  {
    var U := Quota.Unbounded;
    var s: seq<byte> := [52, CR, LF];
    var p0 := Start(U);
    var p1 := Parser([52], false, U, None);
    var p2 := Parser([], true, U, None);
    var p3 := Parser([], false, U, None);
    assert Step(p0, 52) == Scanned(p1, []);
    assert Step(p1, CR) == Scanned(p2, [[52]]);
    assert Step(p2, LF) == Scanned(p3, []);
    assert Scan(p3, []) == Scanned(p3, []);
    assert s[2..] == [LF];
    assert Scan(p2, [LF]) == Scanned(p3, []);
    assert s[1..] == [CR, LF];
    assert Scan(p1, [CR, LF]) == Scanned(p3, [[52]]);
    assert Scan(p0, s) == Scanned(p3, [[52]]);
    assert Feed(p0, [s]) == Scanned(p3.(retained := Some([])), [[52]]);

    assert Splitter.Compose([Splitter.Row([52], Splitter.ByCRLF)], []) == s;
    Splitter.SplitRoundTrip([Splitter.Row([52], Splitter.ByCRLF)], []);
  }

  /** `\r\r` read as written gives three empty lines; the corrected splitter
      gives two. */
  lemma FlushesThirdEmptyLine()
    ensures Deliver(Quota.Unbounded, [[CR, CR]]).lines == [[], [], []]
    ensures Splitter.Run(Splitter.Start(Quota.Unbounded), [CR, CR]).lines == [[], []]
  {
    var U := Quota.Unbounded;
    var s: seq<byte> := [CR, CR];
    var p0 := Start(U);
    var p1 := Parser([], true, U, None);
    assert Step(p0, CR) == Scanned(p1, [[]]);
    assert Step(p1, CR) == Scanned(p1, [[]]);
    assert Scan(p1, []) == Scanned(p1, []);
    assert s[1..] == [CR];
    assert Scan(p1, [CR]) == Scanned(p1, [[]]);
    assert Scan(p0, s) == Scanned(p1, [[], []]);
    assert Feed(p0, [s]) == Scanned(p1.(retained := Some([])), [[], []]);

    var rows := [Splitter.Row([], Splitter.ByCR), Splitter.Row([], Splitter.ByCR)];
    assert Splitter.Compose(rows, []) == s;
    Splitter.SplitRoundTrip(rows, []);
  }

  /** Two lines requested from a file `0\n1` + `\n2` that arrives in two
      chunks: as written, the quota runs out inside the second chunk, yet
      `onComplete` still flushes the retained view `1\n2` as a third line and
      drives the quota to -1, so the subscription ends with "no more lines"
      instead of completing (compare `QuotaStopsFlush`). */
  lemma FlushIgnoresSpentQuota()
    ensures var d := Deliver(Quota.Request(2, false, false), [[48, LF, 49], [LF, 50]]);
            && d.lines == [[48], [49], [49, LF, 50]]
            && Quota.Close(d.parser.request) == [Failure(NoMoreLines)]
  {
    var r2 := Quota.Request(2, false, false);
    var r1 := Quota.Request(1, false, false);
    var r0 := Quota.Request(0, false, false);
    var a: seq<byte> := [48, LF, 49];
    var b: seq<byte> := [LF, 50];
    var p0 := Start(r2);
    var p1 := Parser([48], false, r2, None);
    var p2 := Parser([], false, r1, None);
    var p3 := Parser([49], false, r1, None);
    assert Step(p0, 48) == Scanned(p1, []);
    assert Step(p1, LF) == Scanned(p2, [[48]]);
    assert Step(p2, 49) == Scanned(p3, []);
    assert Scan(p3, []) == Scanned(p3, []);
    assert a[2..] == [49];
    assert Scan(p2, [49]) == Scanned(p3, []);
    assert a[1..] == [LF, 49];
    assert Scan(p1, [LF, 49]) == Scanned(p3, [[48]]);
    assert Scan(p0, a) == Scanned(p3, [[48]]);
    var q1 := p3.(retained := Some([49]));
    assert OnNext(p0, a) == Scanned(q1, [[48]]);

    var q2 := Parser([], false, r0, Some([49]));
    assert Step(q1, LF) == Scanned(q2, [[49]]);
    assert Step(q2, 50) == Scanned(q2, []);
    assert Scan(q2, []) == Scanned(q2, []);
    assert b[1..] == [50];
    assert Scan(q2, [50]) == Scanned(q2, []);
    assert Scan(q1, b) == Scanned(q2, [[49]]);
    var q3 := q2.(retained := Some([49, LF, 50]));
    assert [49] + b == [49, LF, 50];
    assert OnNext(q1, b) == Scanned(q3, [[49]]);
    assert Feed(q3, []) == Scanned(q3, []);
    assert Feed(q1, [b]) == Scanned(q3, [[49]]);
    assert Feed(p0, [a, b]) == Scanned(q3, [[48], [49]]);
    assert Finish(q3) == Scanned(q3.(request := Quota.Request(-1, false, false)), [[49, LF, 50]]);
  }

  /** The corrected splitter on the input of `FlushIgnoresSpentQuota`
      delivers `0`, `1` and leaves the quota at exactly 0, so the
      subscription completes. */
  lemma QuotaStopsFlush()
    ensures var fed := Splitter.Feed(Splitter.Start(Quota.Request(2, false, false)), [[48, LF, 49], [LF, 50]]);
            var fin := Splitter.Finish(fed.parser);
            && fed.lines + fin.lines == [[48], [49]]
            && Quota.Close(fin.parser.request) == [Complete]
  {
    var a: seq<byte> := [48, LF, 49];
    var b: seq<byte> := [LF, 50];
    Splitter.BoundedSplitTakes(2, [a, b]);
    assert Flatten([a, b]) == a + b by {
      assert Flatten([a, b]) == a + Flatten([b]);
      assert Flatten([b]) == b + Flatten([]);
    }
    var rows := [Splitter.Row([48], Splitter.ByLF), Splitter.Row([49], Splitter.ByLF)];
    assert Splitter.Compose(rows, [50]) == a + b;
    Splitter.ComposeSplits(rows, [50]);
  }
}
