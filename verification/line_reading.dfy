/** `LineReader.subscribe`: one subscription to the lines of a file. The
    subscriber's `onSubscribe` makes its demands on the line quota; only if
    the quota is then active is the file read at all, through the chunked
    reader with the line splitter as its subscriber. The splitter cancels
    the reader once the quota is spent, a failure of the reader fails the
    line stream, and closing the quota sends the one terminal signal. */
module LineReading {
  import opened Streams
  import Quota
  import Splitter
  import Channel

  /** What one subscription produces: the signals the subscriber receives,
      and what happened on the file (nothing when it was never opened). */
  datatype Trace = Trace(signals: seq<Signal>, file: seq<Channel.Event>)

  /** `LineParser.onNext`: scan the chunk, keep the lines emitted, and cancel
      the reader when the quota is no longer active. */
  function ParserNext(st: Splitter.Scanned, chunk: seq<byte>): (Splitter.Scanned, Channel.Reaction) {
    var sc := Splitter.Scan(st.parser, chunk);
    (Splitter.Scanned(sc.parser, st.lines + sc.lines),
     if Quota.IsActive(sc.parser.request) then Channel.Continue else Channel.Cancel)
  }

  /** `LineParser` as the reader's subscriber: its `onSubscribe` only asks for
      everything, and its `onNext` never throws. */
  function LineParser(): Channel.Consumer<Splitter.Scanned> {
    Channel.Consumer(Channel.Continue, ParserNext)
  }

  /** The splitter before the first chunk, sharing the quota `r`. */
  function Initial(r: Quota.Request): Splitter.Scanned {
    Splitter.Scanned(Splitter.Start(r), [])
  }

  /** `LineReader.subscribe` for a subscriber whose `onSubscribe` makes the
      demands `ds`. A reader failure reaches the subscriber through
      `LineParser.onError`, which interrupts the quota; otherwise
      `LineParser.onComplete` flushes the last line. Closing the quota ends
      the subscription either way. */
  function Subscribe(f: Channel.FileModel, ds: seq<Quota.Demand>): Trace {
    var (r, errors) := Quota.ApplyDemands(Quota.Fresh, ds);
    if !Quota.IsActive(r) then Trace(errors + Quota.Close(r), [])
    else
      var t := ReadLines(f, r);
      Trace(errors + t.signals, t.file)
  }

  /** The part of `LineReader.subscribe` that runs once the quota `r` is
      active: the file is read with the splitter as its subscriber. */
  function ReadLines(f: Channel.FileModel, r: Quota.Request): Trace {
    var (st, events) := Channel.Subscribe(f, LineParser(), Initial(r));
    if events[|events| - 1] == Channel.Errored then
      Trace(LineSignals(st.lines) + [Failure(IoFailure)]
              + Quota.Close(Quota.Interrupt(st.parser.request)), events)
    else
      var fin := Splitter.Finish(st.parser);
      Trace(LineSignals(st.lines + fin.lines) + Quota.Close(fin.parser.request), events)
  }

  // ---------------------------------------------------------------------
  // The reader driving the splitter

  /** Feeding the parser subscriber chunk by chunk is `Splitter.Feed`. It
      never throws, and it cancels after the last chunk exactly when the
      quota is no longer active. */
  lemma {:induction false} ConsumeIsFeed(st: Splitter.Scanned, chunks: seq<seq<byte>>)
    ensures var (s, xs) := Channel.Consume(LineParser(), st, chunks);
            var fed := Splitter.Feed(st.parser, chunks);
            && s == Splitter.Scanned(fed.parser, st.lines + fed.lines)
            && (forall i :: 0 <= i < |xs| ==> xs[i] != Channel.Throw)
            && (|xs| > 0 ==> (xs[|xs| - 1] == Channel.Cancel <==> !Quota.IsActive(fed.parser.request)))
    decreases |chunks|
  {
    if |chunks| > 0 {
      var step := ParserNext(st, chunks[0]);
      var sc := Splitter.Scan(st.parser, chunks[0]);
      ConsumeIsFeed(step.0, chunks[1..]);
      var (s, xs) := Channel.Consume(LineParser(), st, chunks);
      var (s1, ys) := Channel.Consume(LineParser(), step.0, chunks[1..]);
      assert LineParser().onNext(st, chunks[0]) == step;
      assert (s, xs) == (s1, [step.1] + ys);
      var rest := Splitter.Feed(sc.parser, chunks[1..]);
      assert Splitter.Feed(st.parser, chunks) == Splitter.Scanned(rest.parser, sc.lines + rest.lines);
      assert st.lines + (sc.lines + rest.lines) == (st.lines + sc.lines) + rest.lines;
      forall i | 0 <= i < |xs|
        ensures xs[i] != Channel.Throw
      {
        if i > 0 {
          assert xs[i] == ys[i - 1];
        }
      }
      if |ys| == 0 {
        assert chunks[1..] == [];
        assert rest.parser == sc.parser;
      }
    }
  }

  /** Feeding `a` and then `b` is feeding `a + b`. */
  lemma FeedAppend(p: Splitter.Parser, a: seq<seq<byte>>, b: seq<seq<byte>>)
    ensures var x := Splitter.Feed(p, a);
            var y := Splitter.Feed(x.parser, b);
            Splitter.Feed(p, a + b) == Splitter.Scanned(y.parser, x.lines + y.lines)
  {
    Splitter.FeedIsScan(p, a + b);
    Splitter.FeedIsScan(p, a);
    Splitter.FeedIsScan(Splitter.Feed(p, a).parser, b);
    FlattenAppend(a, b);
    Splitter.ScanAppend(p, Flatten(a), Flatten(b));
  }

  /** Whatever the file does, the quota the splitter holds after the reader
      is done is still not interrupted: only the subscriber or a reader
      failure can interrupt it. */
  lemma ParserStaysUninterrupted(f: Channel.FileModel, r: Quota.Request)
    requires !r.interrupted
    ensures !Channel.Body(f, LineParser(), Initial(r)).state.parser.request.interrupted
  {
    var body := Channel.Body(f, LineParser(), Initial(r));
    if !f.sizeFails {
      Channel.LoopStateIsConsumed(f, LineParser(), Initial(r), 0);
      ConsumeIsFeed(Initial(r), body.chunks);
    }
  }

  /** Once the quota is spent, further chunks change nothing. */
  lemma FeedPastSpentQuota(p: Splitter.Parser, a: seq<seq<byte>>, b: seq<seq<byte>>)
    requires !Quota.IsActive(Splitter.Feed(p, a).parser.request)
    ensures Splitter.Feed(p, a + b) == Splitter.Feed(p, a)
  {
    var x := Splitter.Feed(p, a);
    FeedAppend(p, a, b);
    Splitter.FeedIsScan(x.parser, b);
    Splitter.InactiveScanIsIdle(x.parser, Flatten(b));
    assert x.lines + [] == x.lines;
  }

  /** The read loop driving the splitter: its state is the splitter fed the
      chunks handed out, which are the first pages of the file; the
      splitter never throws, so only a failing read ends the loop with an
      exception; and it cancels only once the quota is spent. */
  lemma LoopFeedsParser(f: Channel.FileModel, r: Quota.Request)
    ensures var body := Channel.ReadLoop(f, LineParser(), Initial(r), 0);
            var fed := Splitter.Feed(Splitter.Start(r), body.chunks);
            && body.state == Splitter.Scanned(fed.parser, fed.lines)
            && (body.threw ==> f.readFailsAt.Some?)
            && (body.cancelled ==> !Quota.IsActive(fed.parser.request))
            && (!body.threw && !body.cancelled ==> body.chunks == Channel.Pages(f.content))
            && Channel.IsPrefix(body.chunks, Channel.Pages(f.content))
  {
    var init := Initial(r);
    var body := Channel.ReadLoop(f, LineParser(), init, 0);
    assert f.content[0..] == f.content;
    Channel.LoopStateIsConsumed(f, LineParser(), init, 0);
    Channel.LoopReadsPages(f, LineParser(), init, 0);
    Channel.LoopReadsAllPages(f, LineParser(), init, 0);
    Channel.LoopStopsWhenAsked(f, LineParser(), init, 0);
    Channel.LoopFaultsWhereItStopped(f, LineParser(), init, 0);
    ConsumeIsFeed(init, body.chunks);
    var fed := Splitter.Feed(Splitter.Start(r), body.chunks);
    assert [] + fed.lines == fed.lines;
  }

  /** On a file that never fails, the splitter ends up exactly as if it had
      been fed every page of the file: a cancellation only comes once the
      quota is spent, after which the remaining pages would change nothing. */
  lemma ParserSeesWholeFile(content: seq<byte>, r: Quota.Request)
    requires Quota.IsActive(r)
    ensures var body := Channel.Body(Channel.Healthy(content), LineParser(), Initial(r));
            var fed := Splitter.Feed(Splitter.Start(r), Channel.Pages(content));
            && !body.threw
            && body.state == Splitter.Scanned(fed.parser, fed.lines)
  {
    var f := Channel.Healthy(content);
    var body := Channel.Body(f, LineParser(), Initial(r));
    assert body == Channel.ReadLoop(f, LineParser(), Initial(r), 0);
    LoopFeedsParser(f, r);
    if body.cancelled {
      var pages := Channel.Pages(content);
      assert pages == body.chunks + pages[|body.chunks|..];
      FeedPastSpentQuota(Splitter.Start(r), body.chunks, pages[|body.chunks|..]);
    }
  }

  // ---------------------------------------------------------------------
  // Termination

  /** No signal follows a terminal one. */
  predicate EndsOnce(t: seq<Signal>) {
    forall i :: 0 <= i < |t| - 1 ==> !t[i].IsTerminal()
  }

  lemma LinesThenTerminal(lines: seq<Line>, last: seq<Signal>)
    requires |last| <= 1
    ensures EndsOnce(LineSignals(lines) + last)
    ensures TerminalCount(LineSignals(lines) + last) == TerminalCount(last)
  {
    LineSignalsNotTerminal(lines);
    TerminalCountAppend(LineSignals(lines), last);
  }

  /** Reading the file under an active quota ends with exactly one terminal
      signal: the I/O error, or the closing signal of the quota, which the
      reading cannot have interrupted. */
  lemma ReadingEndsOnce(f: Channel.FileModel, r: Quota.Request)
    requires Quota.IsActive(r)
    ensures var t := ReadLines(f, r).signals;
            TerminalCount(t) == 1 && EndsOnce(t)
  {
    var (st, events) := Channel.Subscribe(f, LineParser(), Initial(r));
    ParserStaysUninterrupted(f, r);
    if events[|events| - 1] == Channel.Errored {
      assert Quota.Close(Quota.Interrupt(st.parser.request)) == [];
      LinesThenTerminal(st.lines, [Failure(IoFailure)]);
      assert ReadLines(f, r).signals == LineSignals(st.lines) + [Failure(IoFailure)];
    } else {
      var fin := Splitter.Finish(st.parser);
      LinesThenTerminal(st.lines + fin.lines, Quota.Close(fin.parser.request));
    }
  }

  /** A subscription sends at most one terminal signal, and nothing after
      it. It sends exactly one unless the subscriber cancelled in
      `onSubscribe`: a cancellation ends the subscription silently. */
  lemma OneTerminalSignal(f: Channel.FileModel, ds: seq<Quota.Demand>)
    ensures var t := Subscribe(f, ds).signals;
            && TerminalCount(t) <= 1
            && EndsOnce(t)
            && (!Quota.HasStop(ds) ==> TerminalCount(t) == 1)
  {
    var (r, errors) := Quota.ApplyDemands(Quota.Fresh, ds);
    Quota.DemandsSignalAtMostOnce(Quota.Fresh, ds);
    if !Quota.IsActive(r) {
      if errors == [] {
        LinesThenTerminal([], Quota.Close(r));
        assert Subscribe(f, ds).signals == LineSignals([]) + Quota.Close(r);
      } else {
        assert Quota.Close(r) == [];
        assert errors == [Failure(IllegalArgument)];
        LinesThenTerminal([], errors);
        assert Subscribe(f, ds).signals == LineSignals([]) + errors;
        assert TerminalCount(errors) == 1 by {
          assert errors[1..] == [];
        }
      }
    } else {
      assert errors == [];
      ReadingEndsOnce(f, r);
      var t := ReadLines(f, r).signals;
      assert [] + t == t;
      assert Subscribe(f, ds).signals == t;
    }
  }

  /** The file is opened only if the quota is active once `onSubscribe`
      returns: a subscriber that cancels, asks for nothing or makes a
      negative request gets its outcome without the file being touched,
      whatever the file is. */
  lemma ReadsOnlyWhenActive(f: Channel.FileModel, g: Channel.FileModel, ds: seq<Quota.Demand>)
    ensures Subscribe(f, ds).file == [] <==> !Quota.IsActive(Quota.ApplyDemands(Quota.Fresh, ds).0)
    ensures !Quota.IsActive(Quota.ApplyDemands(Quota.Fresh, ds).0) ==> Subscribe(f, ds) == Subscribe(g, ds)
  {
  }

  // ---------------------------------------------------------------------
  // What a subscriber receives

  lemma {:induction false} CountsAreNonNegative(ds: seq<Quota.Demand>)
    requires forall i :: 0 <= i < |ds| ==> Quota.IsPlainCount(ds[i])
    ensures Quota.Total(ds) >= 0
    decreases |ds|
  {
    if |ds| > 0 {
      CountsAreNonNegative(ds[1..]);
    }
  }

  /** Reading a file that never fails with a quota of `n > 0` lines: the
      first `n` lines of the file, then the quota's closing signal; the file
      is released and completes. */
  lemma ReadsBoundedLines(content: seq<byte>, n: int)
    requires n > 0
    ensures var t := ReadLines(Channel.Healthy(content), Quota.Request(n, false, false));
            var lines := Splitter.SpecLines(content);
            && t.signals == LineSignals(Splitter.Take(lines, n))
                            + [if |lines| >= n then Complete else Failure(NoMoreLines)]
            && |t.file| >= 2 && t.file[|t.file| - 2] == Channel.Released
            && t.file[|t.file| - 1] == Channel.Completed
  {
    var r := Quota.Request(n, false, false);
    var f := Channel.Healthy(content);
    ParserSeesWholeFile(content, r);
    var (st, events) := Channel.Subscribe(f, LineParser(), Initial(r));
    assert events[|events| - 1] == Channel.Completed;
    Splitter.BoundedSplitTakes(n, Channel.Pages(content));
    Channel.PagesFlatten(content);
    var fin := Splitter.Finish(st.parser);
    assert st.lines + fin.lines == Splitter.Take(Splitter.SpecLines(content), n);
  }

  /** A subscriber asking for `n` lines in all, from a file that never fails,
      receives the first `n` lines of the file (all of them when it has
      fewer), then completion if the file had enough lines and a "no more
      lines" failure if not. When it asked for at least one line, the file
      was read and released before the end; when it asked for none, the
      file was never opened. */
  lemma DeliversRequestedLines(content: seq<byte>, ds: seq<Quota.Demand>)
    requires forall i :: 0 <= i < |ds| ==> Quota.IsPlainCount(ds[i])
    ensures var n := Quota.Total(ds);
            var t := Subscribe(Channel.Healthy(content), ds);
            && t.signals == LineSignals(Splitter.Take(Splitter.SpecLines(content), n))
                            + [if |Splitter.SpecLines(content)| >= n then Complete else Failure(NoMoreLines)]
            && (n > 0 ==> |t.file| >= 2 && t.file[|t.file| - 2] == Channel.Released
                          && t.file[|t.file| - 1] == Channel.Completed)
            && (n == 0 ==> t.file == [])
  {
    var n := Quota.Total(ds);
    CountsAreNonNegative(ds);
    Quota.DemandsAccumulate(Quota.Fresh, ds);
    var r := Quota.Request(n, false, false);
    assert Quota.ApplyDemands(Quota.Fresh, ds) == (r, []);
    if n == 0 {
      assert Splitter.Take(Splitter.SpecLines(content), n) == [];
    } else {
      ReadsBoundedLines(content, n);
      var t := ReadLines(Channel.Healthy(content), r);
      assert Subscribe(Channel.Healthy(content), ds).signals == [] + t.signals;
    }
  }

  /** Reading a file that never fails with an unbounded quota: every line
      of the file, then completion. */
  lemma ReadsEveryLine(content: seq<byte>)
    ensures ReadLines(Channel.Healthy(content), Quota.Unbounded).signals
            == LineSignals(Splitter.SpecLines(content)) + [Complete]
  {
    var r := Quota.Unbounded;
    var f := Channel.Healthy(content);
    ParserSeesWholeFile(content, r);
    var (st, events) := Channel.Subscribe(f, LineParser(), Initial(r));
    assert events[|events| - 1] == Channel.Completed;
    Splitter.SplitMatchesSpec(Channel.Pages(content));
    Channel.PagesFlatten(content);
  }

  /** `request(Long.MAX_VALUE)` alone makes the quota unbounded. */
  lemma AskAllIsUnbounded()
    ensures Quota.ApplyDemands(Quota.Fresh, [Quota.Ask(Quota.LONG_MAX)]) == (Quota.Unbounded, [])
  {
    var ds := [Quota.Ask(Quota.LONG_MAX)];
    assert Quota.RequestLines(Quota.Fresh, Quota.LONG_MAX) == (Quota.Unbounded, []);
    assert Quota.ApplyDemands(Quota.Unbounded, ds[1..]) == (Quota.Unbounded, []);
    var none: seq<Signal> := [];
    assert none + none == none;
  }

  /** A subscriber asking for every line (`Long.MAX_VALUE`) from a file that
      never fails receives all the lines of the file, then completion. */
  lemma DeliversAllLines(content: seq<byte>)
    ensures Subscribe(Channel.Healthy(content), [Quota.Ask(Quota.LONG_MAX)]).signals
            == LineSignals(Splitter.SpecLines(content)) + [Complete]
  {
    AskAllIsUnbounded();
    ReadsEveryLine(content);
    var t := ReadLines(Channel.Healthy(content), Quota.Unbounded);
    assert [] + t.signals == t.signals;
  }

  /** A file that cannot be opened fails an active subscription with the I/O
      error alone. */
  lemma MissingFileFails(content: seq<byte>, ds: seq<Quota.Demand>)
    requires Quota.IsActive(Quota.ApplyDemands(Quota.Fresh, ds).0)
    ensures Subscribe(Channel.Healthy(content).(openFails := true), ds)
            == Trace([Failure(IoFailure)], [Channel.Errored])
  {
    Quota.DemandsSignalAtMostOnce(Quota.Fresh, ds);
    assert LineSignals([]) == [];
  }

  /** Any I/O failure of the file while the quota is active (it does not
      open, its size cannot be read, or it cannot be closed) ends the
      subscription with the I/O error, after the lines already delivered. */
  lemma FileFailureFails(f: Channel.FileModel, ds: seq<Quota.Demand>)
    requires Quota.IsActive(Quota.ApplyDemands(Quota.Fresh, ds).0)
    requires f.openFails || f.sizeFails || f.closeFails
    ensures var t := Subscribe(f, ds).signals;
            |t| > 0 && t[|t| - 1] == Failure(IoFailure)
  {
    var (r, errors) := Quota.ApplyDemands(Quota.Fresh, ds);
    var (st, events) := Channel.Subscribe(f, LineParser(), Initial(r));
    assert events[|events| - 1] == Channel.Errored;
    assert Quota.Close(Quota.Interrupt(st.parser.request)) == [];
  }

  // ---------------------------------------------------------------------
  // Files written line by line

  /** A file written from `rows` and an unterminated `tail`, read with
      `request(Long.MAX_VALUE)`, delivers exactly the lines it was written
      from and completes. */
  lemma ReadsRowsBack(rows: seq<Splitter.Row>, tail: Line)
    requires Splitter.Unambiguous(rows, tail)
    ensures Subscribe(Channel.Healthy(Splitter.Compose(rows, tail)), [Quota.Ask(Quota.LONG_MAX)]).signals
            == LineSignals(Splitter.RowLines(rows) + (if |tail| == 0 then [] else [tail])) + [Complete]
  {
    DeliversAllLines(Splitter.Compose(rows, tail));
    Splitter.ComposeSplits(rows, tail);
  }

  /** `readsMultilineText`: "0123" LF "45" CR LF "67" CR "8". */
  lemma ReadsMultilineText()
    ensures Subscribe(Channel.Healthy([48, 49, 50, 51, LF, 52, 53, CR, LF, 54, 55, CR, 56]), [Quota.Ask(Quota.LONG_MAX)]).signals
            == [Line([48, 49, 50, 51]), Line([52, 53]), Line([54, 55]), Line([56]), Complete]
  {
    var rows := [Splitter.Row([48, 49, 50, 51], Splitter.ByLF), Splitter.Row([52, 53], Splitter.ByCRLF),
                 Splitter.Row([54, 55], Splitter.ByCR)];
    assert Splitter.Compose(rows, [56]) == [48, 49, 50, 51, LF, 52, 53, CR, LF, 54, 55, CR, 56];
    ReadsRowsBack(rows, [56]);
  }

  /** `readsLinesWithDifferentEnds`: "0" CR "2" LF "6" CR "7" CR LF "8". */
  lemma ReadsLinesWithDifferentEnds()
    ensures Subscribe(Channel.Healthy([48, CR, 50, LF, 54, CR, 55, CR, LF, 56]), [Quota.Ask(Quota.LONG_MAX)]).signals
            == [Line([48]), Line([50]), Line([54]), Line([55]), Line([56]), Complete]
  {
    var rows := [Splitter.Row([48], Splitter.ByCR), Splitter.Row([50], Splitter.ByLF),
                 Splitter.Row([54], Splitter.ByCR), Splitter.Row([55], Splitter.ByCRLF)];
    assert Splitter.Compose(rows, [56]) == [48, CR, 50, LF, 54, CR, 55, CR, LF, 56];
    ReadsRowsBack(rows, [56]);
  }

  /** `readsEmptyFile`: no line, then completion. */
  lemma ReadsEmptyFile()
    ensures Subscribe(Channel.Healthy([]), [Quota.Ask(Quota.LONG_MAX)]).signals == [Complete]
  {
    ReadsRowsBack([], []);
  }

  /** `readsSingleCharLine`: "8" without a terminator. */
  lemma ReadsSingleCharLine()
    ensures Subscribe(Channel.Healthy([56]), [Quota.Ask(Quota.LONG_MAX)]).signals == [Line([56]), Complete]
  {
    ReadsRowsBack([], [56]);
  }

  /** `readsSingleLine`: "4" CR LF gives one line and no empty one after it. */
  lemma ReadsSingleLine()
    ensures Subscribe(Channel.Healthy([52, CR, LF]), [Quota.Ask(Quota.LONG_MAX)]).signals == [Line([52]), Complete]
  {
    var rows := [Splitter.Row([52], Splitter.ByCRLF)];
    assert Splitter.Compose(rows, []) == [52, CR, LF];
    ReadsRowsBack(rows, []);
  }

  /** `readsRepeatableEmptyLines`: "0" LF CR LF "6" CR "8". */
  lemma ReadsRepeatableEmptyLines()
    ensures Subscribe(Channel.Healthy([48, LF, CR, LF, 54, CR, 56]), [Quota.Ask(Quota.LONG_MAX)]).signals
            == [Line([48]), Line([]), Line([54]), Line([56]), Complete]
  {
    var rows := [Splitter.Row([48], Splitter.ByLF), Splitter.Row([], Splitter.ByCRLF), Splitter.Row([54], Splitter.ByCR)];
    assert Splitter.Compose(rows, [56]) == [48, LF, CR, LF, 54, CR, 56];
    ReadsRowsBack(rows, [56]);
  }

  /** `readsTextWithEmptyLines`: CR CR is two empty lines. */
  lemma ReadsTextWithEmptyLines()
    ensures Subscribe(Channel.Healthy([CR, CR]), [Quota.Ask(Quota.LONG_MAX)]).signals == [Line([]), Line([]), Complete]
  {
    var rows := [Splitter.Row([], Splitter.ByCR), Splitter.Row([], Splitter.ByCR)];
    assert Splitter.Compose(rows, []) == [CR, CR];
    ReadsRowsBack(rows, []);
  }

  /** The file of `readsOnlyRequiredLinesAndReleasesResources` and
      `failsOnNotZeroRemainingLines`: "01" CR LF "4" LF "7" CR "8". */
  predicate IsFourLineFile(content: seq<byte>) {
    content == [48, 49, CR, LF, 52, LF, 55, CR, 56]
  }

  /** The four-line file has four lines. */
  lemma FourLineFile(content: seq<byte>)
    requires IsFourLineFile(content)
    ensures Splitter.SpecLines(content) == [[48, 49], [52], [55], [56]]
  {
    var rows := [Splitter.Row([48, 49], Splitter.ByCRLF), Splitter.Row([52], Splitter.ByLF), Splitter.Row([55], Splitter.ByCR)];
    assert Splitter.Compose(rows, [56]) == content;
    Splitter.ComposeSplits(rows, [56]);
  }

  /** One `request(n)` of a plain count from a file whose lines are `lines`. */
  lemma AsksOnce(content: seq<byte>, lines: seq<Line>, n: int)
    requires 0 <= n < Quota.LONG_MAX && Splitter.SpecLines(content) == lines
    ensures var t := Subscribe(Channel.Healthy(content), [Quota.Ask(n)]);
            && t.signals == LineSignals(Splitter.Take(lines, n))
                            + [if |lines| >= n then Complete else Failure(NoMoreLines)]
            && (n > 0 ==> |t.file| >= 2 && t.file[|t.file| - 2] == Channel.Released)
  {
    var ds := [Quota.Ask(n)];
    assert Quota.Total(ds[1..]) == 0;
    DeliversRequestedLines(content, ds);
  }

  /** The signals for the first three and for five of the four lines. */
  lemma FourLineSignals(lines: seq<Line>)
    requires lines == [[48, 49], [52], [55], [56]]
    ensures LineSignals(Splitter.Take(lines, 3)) + [Complete]
            == [Line([48, 49]), Line([52]), Line([55]), Complete]
    ensures LineSignals(Splitter.Take(lines, 5)) + [Failure(NoMoreLines)]
            == [Line([48, 49]), Line([52]), Line([55]), Line([56]), Failure(NoMoreLines)]
  {
    var first: seq<Line> := [[48, 49], [52], [55]];
    assert Splitter.Take(lines, 3) == first;
    assert LineSignals(first) == [Line([48, 49]), Line([52]), Line([55])];
    assert Splitter.Take(lines, 5) == lines;
    assert LineSignals(lines) == [Line([48, 49]), Line([52]), Line([55]), Line([56])];
  }

  /** `readsOnlyRequiredLinesAndReleasesResources`: asking for three of the
      four lines delivers those three, completes, and releases the file. */
  lemma ReadsOnlyRequiredLines(content: seq<byte>)
    requires IsFourLineFile(content)
    ensures var t := Subscribe(Channel.Healthy(content), [Quota.Ask(3)]);
            && t.signals == [Line([48, 49]), Line([52]), Line([55]), Complete]
            && |t.file| >= 2 && t.file[|t.file| - 2] == Channel.Released
  {
    var lines: seq<Line> := [[48, 49], [52], [55], [56]];
    FourLineFile(content);
    AsksOnce(content, lines, 3);
    FourLineSignals(lines);
  }

  /** `failsOnNotZeroRemainingLines`: asking for five lines of a four-line
      file delivers the four, then the "no more lines" failure. */
  lemma FailsOnMissingLines(content: seq<byte>)
    requires IsFourLineFile(content)
    ensures Subscribe(Channel.Healthy(content), [Quota.Ask(5)]).signals
            == [Line([48, 49]), Line([52]), Line([55]), Line([56]), Failure(NoMoreLines)]
  {
    var lines: seq<Line> := [[48, 49], [52], [55], [56]];
    FourLineFile(content);
    AsksOnce(content, lines, 5);
    FourLineSignals(lines);
  }

  /** `checksRequests`: a negative request fails the subscription with an
      invalid-argument error, and the file is never opened. */
  lemma ChecksRequests(f: Channel.FileModel)
    ensures Subscribe(f, [Quota.Ask(-1)]) == Trace([Failure(IllegalArgument)], [])
  {
    var r := Quota.Fresh.(interrupted := true);
    assert Quota.RequestLines(Quota.Fresh, -1) == (r, [Failure(IllegalArgument)]);
    assert Quota.ApplyDemands(Quota.Fresh, [Quota.Ask(-1)]) == (r, [Failure(IllegalArgument)] + []);
  }

  /** `readsLazy`: a subscriber that cancels in `onSubscribe` receives
      nothing, and the (missing) file is never opened. */
  lemma ReadsLazily(content: seq<byte>)
    ensures Subscribe(Channel.Healthy(content).(openFails := true), [Quota.Stop]) == Trace([], [])
  {
    var r := Quota.Interrupt(Quota.Fresh);
    assert Quota.ApplyDemands(Quota.Fresh, [Quota.Stop]) == (r, [] + []);
  }

  /** `processesInternalErrors`: asking for every line of a missing file
      fails with the I/O error alone. */
  lemma ProcessesInternalErrors(content: seq<byte>)
    ensures Subscribe(Channel.Healthy(content).(openFails := true), [Quota.Ask(Quota.LONG_MAX)])
            == Trace([Failure(IoFailure)], [Channel.Errored])
  {
    AskAllIsUnbounded();
    MissingFileFails(content, [Quota.Ask(Quota.LONG_MAX)]);
  }
}
