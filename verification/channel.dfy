/** The chunked file reader (`FileReader` and its `InnerChannelReader`). One
    subscription opens the file, hands the subscriber the file's bytes in
    chunks of at most 4 KiB read at increasing offsets, checks for
    cancellation only before each read, closes the file, and ends with
    exactly one terminal signal: an error if anything threw, completion
    otherwise, even after a cancellation. `request(n)` does nothing, so
    there is no demand to model: a subscriber can only cancel.

    The file is an abstract byte sequence plus the calls on it that throw;
    each read returns `min(4096, size - position)` bytes. */
module Channel {
  import opened Streams

  const PAGE_SIZE: int := 4096

  /** The file and the channel calls on it that throw. */
  datatype FileModel = FileModel(
    content: seq<byte>,
    openFails: bool,            // `FileChannel.open`, e.g. a missing file
    sizeFails: bool,            // `channel.size()`
    readFailsAt: Option<nat>,   // the read issued at that offset
    closeFails: bool)           // `channel.close()`

  /** A file that reads back `content` and never throws. */
  function Healthy(content: seq<byte>): FileModel {
    FileModel(content, false, false, None, false)
  }

  /** What a subscriber's callback does: return, return after calling
      `cancel()`, or throw. */
  datatype Reaction = Continue | Cancel | Throw

  /** A subscriber of the chunk stream with its own state `S`: what it does
      in `onSubscribe`, and its `onNext`. */
  datatype Consumer<!S> = Consumer(atSubscribe: Reaction, onNext: (S, seq<byte>) -> (S, Reaction))

  /** What a subscription does, in order, as the subscriber and the file
      see it. `Released` is the call to `close()` on the channel. */
  datatype Event = Subscribed | Next(chunk: seq<byte>) | Released | Completed | Errored {
    predicate IsTerminal() {
      Completed? || Errored?
    }
  }

  function Min(a: int, b: int): int {
    if a <= b then a else b
  }

  /** Reference: `s` cut into pieces of 4 KiB, the last one shorter. */
  function Pages(s: seq<byte>): (r: seq<seq<byte>>)
    ensures forall i :: 0 <= i < |r| ==> 0 < |r[i]| <= PAGE_SIZE
    decreases |s|
  {
    if |s| == 0 then [] else [s[..Min(PAGE_SIZE, |s|)]] + Pages(s[Min(PAGE_SIZE, |s|)..])
  }

  /** The pages put back together are the input. */
  lemma {:induction false} PagesFlatten(s: seq<byte>)
    ensures Flatten(Pages(s)) == s
    decreases |s|
  {
    if |s| > 0 {
      var n := Min(PAGE_SIZE, |s|);
      PagesFlatten(s[n..]);
      assert s[..n] + s[n..] == s;
    }
  }

  /** Every page but the last is a full 4 KiB, and there are as many pages
      as 4 KiB blocks the input starts. */
  lemma {:induction false} PagesAreFull(s: seq<byte>)
    ensures forall i :: 0 <= i < |Pages(s)| - 1 ==> |Pages(s)[i]| == PAGE_SIZE
    ensures |Pages(s)| == (|s| + PAGE_SIZE - 1) / PAGE_SIZE
    decreases |s|
  {
    if |s| > 0 {
      var n := Min(PAGE_SIZE, |s|);
      PagesAreFull(s[n..]);
      if |s| > PAGE_SIZE {
        assert (|s| + PAGE_SIZE - 1) / PAGE_SIZE == (|s| - PAGE_SIZE + PAGE_SIZE - 1) / PAGE_SIZE + 1;
      }
    }
  }

  /** The subscriber fed `chunks` in order: its final state and how it
      reacted to each chunk. */
  function Consume<S>(c: Consumer<S>, s: S, chunks: seq<seq<byte>>): (r: (S, seq<Reaction>))
    ensures |r.1| == |chunks|
    decreases |chunks|
  {
    if |chunks| == 0 then (s, [])
    else
      var (s1, x) := c.onNext(s, chunks[0]);
      var (s2, xs) := Consume(c, s1, chunks[1..]);
      (s2, [x] + xs)
  }

  /** Consuming a chunk in front of `rest`. */
  lemma ConsumeCons<S>(c: Consumer<S>, s: S, chunk: seq<byte>, rest: seq<seq<byte>>)
    ensures var step := c.onNext(s, chunk);
            var tail := Consume(c, step.0, rest);
            Consume(c, s, [chunk] + rest) == (tail.0, [step.1] + tail.1)
  {
    assert ([chunk] + rest)[0] == chunk;
    assert ([chunk] + rest)[1..] == rest;
  }

  /** The read loop's outcome: the subscriber's state, the chunks handed out,
      whether an exception escaped, and whether the loop stopped because
      the subscriber cancelled. */
  datatype Loop<S> = Loop(state: S, chunks: seq<seq<byte>>, threw: bool, cancelled: bool)

  /** `InnerChannelReader.read` from byte offset `pos` on. While `pos` is
      below the size and the subscriber has not cancelled, one read fills
      the 4 KiB buffer from `pos` and the chunk goes to `onNext`; the
      cancellation flag is only looked at again at the head of the loop.
      A read or an `onNext` that throws ends the loop with the exception. */
  function ReadLoop<S>(f: FileModel, c: Consumer<S>, s: S, pos: nat): (r: Loop<S>)
    requires pos <= |f.content|
    ensures forall i :: 0 <= i < |r.chunks| ==> 0 < |r.chunks[i]| <= PAGE_SIZE
    ensures !(r.threw && r.cancelled)
    decreases |f.content| - pos
  {
    if pos == |f.content| then Loop(s, [], false, false)
    else if f.readFailsAt == Some(pos) then Loop(s, [], true, false)
    else
      var chunk := f.content[pos..pos + Min(PAGE_SIZE, |f.content| - pos)];
      var (s1, x) := c.onNext(s, chunk);
      match x
      case Throw => Loop(s1, [chunk], true, false)
      case Cancel => Loop(s1, [chunk], false, true)
      case Continue =>
        var rest := ReadLoop(f, c, s1, pos + |chunk|);
        Loop(rest.state, [chunk] + rest.chunks, rest.threw, rest.cancelled)
  }

  /** One turn of the read loop: the chunk at `pos` goes to `onNext`, and
      the loop goes on only if `onNext` neither cancelled nor threw. */
  lemma ReadLoopStep<S>(f: FileModel, c: Consumer<S>, s: S, pos: nat)
    requires pos < |f.content| && f.readFailsAt != Some(pos)
    ensures var chunk := f.content[pos..pos + Min(PAGE_SIZE, |f.content| - pos)];
            var step := c.onNext(s, chunk);
            var r := ReadLoop(f, c, s, pos);
            && (step.1 == Continue ==>
                  var next := ReadLoop(f, c, step.0, pos + |chunk|);
                  r == Loop(next.state, [chunk] + next.chunks, next.threw, next.cancelled))
            && (step.1 == Cancel ==> r == Loop(step.0, [chunk], false, true))
            && (step.1 == Throw ==> r == Loop(step.0, [chunk], true, false))
  {
  }

  /** The subscriber's state after the loop is its state after seeing the
      chunks handed out, in order. */
  lemma {:induction false} LoopStateIsConsumed<S>(f: FileModel, c: Consumer<S>, s: S, pos: nat)
    requires pos <= |f.content|
    ensures var r := ReadLoop(f, c, s, pos);
            r.state == Consume(c, s, r.chunks).0
    decreases |f.content| - pos
  {
    if pos < |f.content| && f.readFailsAt != Some(pos) {
      var chunk := f.content[pos..pos + Min(PAGE_SIZE, |f.content| - pos)];
      ReadLoopStep(f, c, s, pos);
      var step := c.onNext(s, chunk);
      var r := ReadLoop(f, c, s, pos);
      if step.1 == Continue {
        LoopStateIsConsumed(f, c, step.0, pos + |chunk|);
        var next := ReadLoop(f, c, step.0, pos + |chunk|);
        assert r.chunks == [chunk] + next.chunks;
        assert ([chunk] + next.chunks)[0] == chunk;
        assert ([chunk] + next.chunks)[1..] == next.chunks;
      } else {
        assert r.chunks == [chunk];
        assert [chunk][1..] == [];
      }
    }
  }

  /** `a` is the beginning of `b`. */
  predicate IsPrefix<T(==)>(a: seq<T>, b: seq<T>) {
    |a| <= |b| && a == b[..|a|]
  }

  lemma PrefixCons<T>(x: T, a: seq<T>, b: seq<T>)
    requires IsPrefix(a, b)
    ensures IsPrefix([x] + a, [x] + b)
  {
    assert ([x] + b)[..1 + |a|] == [x] + b[..|a|];
  }

  /** The chunks handed out are the first pages of the file from `pos`, in
      order. */
  lemma {:induction false} LoopReadsPages<S>(f: FileModel, c: Consumer<S>, s: S, pos: nat)
    requires pos <= |f.content|
    ensures IsPrefix(ReadLoop(f, c, s, pos).chunks, Pages(f.content[pos..]))
    decreases |f.content| - pos
  {
    if pos < |f.content| && f.readFailsAt != Some(pos) {
      var chunk := f.content[pos..pos + Min(PAGE_SIZE, |f.content| - pos)];
      if c.onNext(s, chunk).1 == Continue {
        LoopReadsPages(f, c, c.onNext(s, chunk).0, pos + |chunk|);
      }
      PagesStep(f, c, s, pos);
    } else {
      assert ReadLoop(f, c, s, pos).chunks == [];
    }
  }

  /** One turn of the loop hands out the next page. */
  lemma PagesStep<S>(f: FileModel, c: Consumer<S>, s: S, pos: nat)
    requires pos < |f.content| && f.readFailsAt != Some(pos)
    requires var chunk := f.content[pos..pos + Min(PAGE_SIZE, |f.content| - pos)];
             c.onNext(s, chunk).1 == Continue ==>
               IsPrefix(ReadLoop(f, c, c.onNext(s, chunk).0, pos + |chunk|).chunks, Pages(f.content[pos + |chunk|..]))
    ensures IsPrefix(ReadLoop(f, c, s, pos).chunks, Pages(f.content[pos..]))
  {
    var n := Min(PAGE_SIZE, |f.content| - pos);
    var chunk := f.content[pos..pos + n];
    PagesFrom(f.content, pos);
    ReadLoopStep(f, c, s, pos);
    var later := Pages(f.content[pos + n..]);
    if c.onNext(s, chunk).1 == Continue {
      PrefixCons(chunk, ReadLoop(f, c, c.onNext(s, chunk).0, pos + n).chunks, later);
    } else {
      PrefixCons(chunk, [], later);
      assert [chunk] + [] == [chunk];
    }
  }

  /** A loop that neither threw nor was cancelled handed out every page of
      the file from `pos`. */
  lemma {:induction false} LoopReadsAllPages<S>(f: FileModel, c: Consumer<S>, s: S, pos: nat)
    requires pos <= |f.content|
    ensures ReadsAllPages(f, c, s, pos)
    decreases |f.content| - pos
  {
    if pos == |f.content| {
      assert f.content[pos..] == [];
    } else if f.readFailsAt != Some(pos) {
      var chunk := f.content[pos..pos + Min(PAGE_SIZE, |f.content| - pos)];
      if c.onNext(s, chunk).1 == Continue {
        LoopReadsAllPages(f, c, c.onNext(s, chunk).0, pos + |chunk|);
      }
      AllPagesStep(f, c, s, pos);
    }
  }

  /** The loop from `pos`, if it neither threw nor was cancelled, handed out
      every page from `pos`. */
  predicate ReadsAllPages<S>(f: FileModel, c: Consumer<S>, s: S, pos: nat)
    requires pos <= |f.content|
  {
    var r := ReadLoop(f, c, s, pos);
    !r.threw && !r.cancelled ==> r.chunks == Pages(f.content[pos..])
  }

  /** One turn of the loop keeps `ReadsAllPages`. */
  lemma AllPagesStep<S>(f: FileModel, c: Consumer<S>, s: S, pos: nat)
    requires pos < |f.content| && f.readFailsAt != Some(pos)
    requires var chunk := f.content[pos..pos + Min(PAGE_SIZE, |f.content| - pos)];
             c.onNext(s, chunk).1 == Continue ==> ReadsAllPages(f, c, c.onNext(s, chunk).0, pos + |chunk|)
    ensures ReadsAllPages(f, c, s, pos)
  {
    PagesFrom(f.content, pos);
    ReadLoopStep(f, c, s, pos);
  }

  /** The pages of the file from `pos` on: the chunk one read at `pos`
      returns, then the pages from the end of that chunk. */
  lemma PagesFrom(content: seq<byte>, pos: nat)
    requires pos < |content|
    ensures var n := Min(PAGE_SIZE, |content| - pos);
            Pages(content[pos..]) == [content[pos..pos + n]] + Pages(content[pos + n..])
  {
    var n := Min(PAGE_SIZE, |content| - pos);
    assert content[pos..][..n] == content[pos..pos + n];
    assert content[pos..][n..] == content[pos + n..];
  }

  /** The loop stops on a cancellation exactly when the last `onNext`
      cancelled, and an `onNext` that throws ends it with the exception. */
  lemma {:induction false} LoopStopsWhenAsked<S>(f: FileModel, c: Consumer<S>, s: S, pos: nat)
    requires pos <= |f.content|
    ensures StopsWhenAsked(f, c, s, pos)
    decreases |f.content| - pos
  {
    if pos < |f.content| && f.readFailsAt != Some(pos) {
      var chunk := f.content[pos..pos + Min(PAGE_SIZE, |f.content| - pos)];
      if c.onNext(s, chunk).1 == Continue {
        LoopStopsWhenAsked(f, c, c.onNext(s, chunk).0, pos + |chunk|);
        StopStep(f, c, s, pos);
      } else {
        ReadLoopStep(f, c, s, pos);
        ConsumeOne(c, s, chunk);
      }
    }
  }

  /** The loop from `pos` stopped on a cancellation exactly when the last
      `onNext` cancelled, and threw if the last `onNext` threw. */
  predicate StopsWhenAsked<S>(f: FileModel, c: Consumer<S>, s: S, pos: nat)
    requires pos <= |f.content|
  {
    var r := ReadLoop(f, c, s, pos);
    var xs := Consume(c, s, r.chunks).1;
    && (r.cancelled <==> |xs| > 0 && xs[|xs| - 1] == Cancel)
    && (|xs| > 0 && xs[|xs| - 1] == Throw ==> r.threw)
  }

  /** One turn of the loop keeps `StopsWhenAsked`. */
  lemma StopStep<S>(f: FileModel, c: Consumer<S>, s: S, pos: nat)
    requires pos < |f.content| && f.readFailsAt != Some(pos)
    requires var chunk := f.content[pos..pos + Min(PAGE_SIZE, |f.content| - pos)];
             c.onNext(s, chunk).1 == Continue && StopsWhenAsked(f, c, c.onNext(s, chunk).0, pos + |chunk|)
    ensures StopsWhenAsked(f, c, s, pos)
  {
    var chunk := f.content[pos..pos + Min(PAGE_SIZE, |f.content| - pos)];
    ReadLoopStep(f, c, s, pos);
    var next := ReadLoop(f, c, c.onNext(s, chunk).0, pos + |chunk|);
    ConsumeCons(c, s, chunk, next.chunks);
    var ys := Consume(c, c.onNext(s, chunk).0, next.chunks).1;
    assert |ys| > 0 ==> ([Continue] + ys)[|ys|] == ys[|ys| - 1];
  }

  /** Consuming a single chunk. */
  lemma ConsumeOne<S>(c: Consumer<S>, s: S, chunk: seq<byte>)
    ensures Consume(c, s, [chunk]) == (c.onNext(s, chunk).0, [c.onNext(s, chunk).1])
  {
    ConsumeCons(c, s, chunk, []);
    assert [chunk] + [] == [chunk];
    assert [c.onNext(s, chunk).1] + [] == [c.onNext(s, chunk).1];
  }

  /** The loop only goes past a chunk the subscriber accepted: every chunk
      but the last was answered with `Continue`. */
  lemma {:induction false} LoopGoesOnOnlyIfAsked<S>(f: FileModel, c: Consumer<S>, s: S, pos: nat)
    requires pos <= |f.content|
    ensures var xs := Consume(c, s, ReadLoop(f, c, s, pos).chunks).1;
            forall i :: 0 <= i < |xs| - 1 ==> xs[i] == Continue
    decreases |f.content| - pos
  {
    if pos < |f.content| && f.readFailsAt != Some(pos) {
      var chunk := f.content[pos..pos + Min(PAGE_SIZE, |f.content| - pos)];
      ReadLoopStep(f, c, s, pos);
      var step := c.onNext(s, chunk);
      if step.1 == Continue {
        LoopGoesOnOnlyIfAsked(f, c, step.0, pos + |chunk|);
        var next := ReadLoop(f, c, step.0, pos + |chunk|);
        ConsumeCons(c, s, chunk, next.chunks);
        var ys := Consume(c, step.0, next.chunks).1;
        var xs := [Continue] + ys;
        forall i | 0 <= i < |xs| - 1
          ensures xs[i] == Continue
        {
          if i > 0 {
            assert xs[i] == ys[i - 1];
          }
        }
      } else {
        ConsumeCons(c, s, chunk, []);
        assert [chunk] + [] == [chunk];
      }
    } else {
      assert ReadLoop(f, c, s, pos).chunks == [];
    }
  }

  /** A loop that threw without its last `onNext` throwing failed on the
      read at the offset it had reached. */
  lemma {:induction false} LoopFaultsWhereItStopped<S>(f: FileModel, c: Consumer<S>, s: S, pos: nat)
    requires pos <= |f.content|
    ensures FaultsWhereStopped(f, c, s, pos)
    decreases |f.content| - pos
  {
    if pos < |f.content| && f.readFailsAt != Some(pos) {
      var chunk := f.content[pos..pos + Min(PAGE_SIZE, |f.content| - pos)];
      if c.onNext(s, chunk).1 == Continue {
        LoopFaultsWhereItStopped(f, c, c.onNext(s, chunk).0, pos + |chunk|);
        FaultStep(f, c, s, pos);
      } else {
        ReadLoopStep(f, c, s, pos);
        ConsumeOne(c, s, chunk);
      }
    }
  }

  /** The loop from `pos`, if it threw without its last `onNext` throwing,
      failed on the read at the offset it had reached, before the end. */
  predicate FaultsWhereStopped<S>(f: FileModel, c: Consumer<S>, s: S, pos: nat)
    requires pos <= |f.content|
  {
    var r := ReadLoop(f, c, s, pos);
    var xs := Consume(c, s, r.chunks).1;
    r.threw && !(|xs| > 0 && xs[|xs| - 1] == Throw) ==>
      f.readFailsAt == Some(pos + |Flatten(r.chunks)|) && pos + |Flatten(r.chunks)| < |f.content|
  }

  /** One turn of the loop keeps `FaultsWhereStopped`. */
  lemma FaultStep<S>(f: FileModel, c: Consumer<S>, s: S, pos: nat)
    requires pos < |f.content| && f.readFailsAt != Some(pos)
    requires var chunk := f.content[pos..pos + Min(PAGE_SIZE, |f.content| - pos)];
             c.onNext(s, chunk).1 == Continue && FaultsWhereStopped(f, c, c.onNext(s, chunk).0, pos + |chunk|)
    ensures FaultsWhereStopped(f, c, s, pos)
  {
    var chunk := f.content[pos..pos + Min(PAGE_SIZE, |f.content| - pos)];
    ReadLoopStep(f, c, s, pos);
    var next := ReadLoop(f, c, c.onNext(s, chunk).0, pos + |chunk|);
    ConsumeCons(c, s, chunk, next.chunks);
    FlattenCons(chunk, next.chunks);
    var ys := Consume(c, c.onNext(s, chunk).0, next.chunks).1;
    assert |ys| > 0 ==> ([Continue] + ys)[|ys|] == ys[|ys| - 1];
  }

  /** A loop that neither threw nor was cancelled read up to the size. */
  lemma {:induction false} LoopEndsAtSize<S>(f: FileModel, c: Consumer<S>, s: S, pos: nat)
    requires pos <= |f.content|
    ensures var r := ReadLoop(f, c, s, pos);
            !r.threw && !r.cancelled ==> pos + |Flatten(r.chunks)| == |f.content|
    decreases |f.content| - pos
  {
    if pos < |f.content| && f.readFailsAt != Some(pos) {
      var chunk := f.content[pos..pos + Min(PAGE_SIZE, |f.content| - pos)];
      ReadLoopStep(f, c, s, pos);
      var step := c.onNext(s, chunk);
      if step.1 == Continue {
        LoopEndsAtSize(f, c, step.0, pos + |chunk|);
        FlattenCons(chunk, ReadLoop(f, c, step.0, pos + |chunk|).chunks);
      }
    } else {
      assert ReadLoop(f, c, s, pos).chunks == [];
    }
  }

  /** Flattening a chunk in front of `rest`. */
  lemma FlattenCons(chunk: seq<byte>, rest: seq<seq<byte>>)
    ensures Flatten([chunk] + rest) == chunk + Flatten(rest)
  {
    assert ([chunk] + rest)[0] == chunk;
    assert ([chunk] + rest)[1..] == rest;
  }


  /** A `Next` event per chunk, in order. */
  function NextEvents(chunks: seq<seq<byte>>): (r: seq<Event>)
    ensures |r| == |chunks|
    ensures forall i :: 0 <= i < |r| ==> r[i] == Next(chunks[i])
  {
    if |chunks| == 0 then [] else [Next(chunks[0])] + NextEvents(chunks[1..])
  }

  /** Number of terminal events. */
  function Terminals(t: seq<Event>): nat {
    if |t| == 0 then 0 else (if t[0].IsTerminal() then 1 else 0) + Terminals(t[1..])
  }

  lemma {:induction false} NextEventsNotTerminal(chunks: seq<seq<byte>>)
    ensures Terminals(NextEvents(chunks)) == 0
    decreases |chunks|
  {
    if |chunks| > 0 {
      NextEventsNotTerminal(chunks[1..]);
    }
  }

  /** The body of `FileReader.subscribe` inside its `try`: `onSubscribe`,
      then `size()` and the read loop, unless `onSubscribe` threw. A
      cancellation during `onSubscribe` still calls `size()` and then stops
      at the head of the loop. */
  function Body<S>(f: FileModel, c: Consumer<S>, init: S): Loop<S> {
    if c.atSubscribe == Throw then Loop(init, [], true, false)
    else if f.sizeFails then Loop(init, [], true, false)
    else if c.atSubscribe == Cancel then Loop(init, [], false, true)
    else ReadLoop(f, c, init, 0)
  }

  /** `FileReader.subscribe`: the subscriber's final state and the events.
      If the file does not open there is only the error. Otherwise the
      chunks are followed by the release of the channel and by one terminal
      event, an error exactly when the body or `close()` threw. */
  function Subscribe<S>(f: FileModel, c: Consumer<S>, init: S): (r: (S, seq<Event>))
    ensures Terminals(r.1) == 1 && r.1[|r.1| - 1].IsTerminal()
    ensures f.openFails ==> r == (init, [Errored])
    ensures !f.openFails ==> |r.1| >= 3 && r.1[0] == Subscribed && r.1[|r.1| - 2] == Released
    ensures !f.openFails ==> (r.1[|r.1| - 1] == Errored <==> Body(f, c, init).threw || f.closeFails)
    ensures !f.openFails ==> r.1[1..|r.1| - 2] == NextEvents(Body(f, c, init).chunks)
  {
    if f.openFails then (init, [Errored])
    else
      var body := Body(f, c, init);
      var failed := body.threw || f.closeFails;
      var events := [Subscribed] + NextEvents(body.chunks) + [Released, if failed then Errored else Completed];
      var last := if failed then Errored else Completed;
      NextEventsNotTerminal(body.chunks);
      TerminalsAppend([Subscribed] + NextEvents(body.chunks), [Released, last]);
      TerminalsAppend([Subscribed], NextEvents(body.chunks));
      assert Terminals([Subscribed]) == 0;
      assert Terminals([Released, last]) == 1 by {
        assert [Released, last][1..] == [last];
        assert [last][1..] == [];
        assert Terminals([last]) == 1;
      }
      (body.state, events)
  }

  lemma {:induction false} TerminalsAppend(a: seq<Event>, b: seq<Event>)
    ensures Terminals(a + b) == Terminals(a) + Terminals(b)
    decreases |a|
  {
    if |a| == 0 {
      assert a + b == b;
    } else {
      assert (a + b)[1..] == a[1..] + b;
      TerminalsAppend(a[1..], b);
    }
  }

  /** A subscriber that never cancels nor throws, on a file that never
      fails, receives the whole file as consecutive pages of 4 KiB and then
      completes. */
  lemma ReadsWholeFile<S>(content: seq<byte>, c: Consumer<S>, init: S)
    requires c.atSubscribe == Continue
    requires forall s, chunk :: c.onNext(s, chunk).1 == Continue
    ensures var (s, events) := Subscribe(Healthy(content), c, init);
            && events == [Subscribed] + NextEvents(Pages(content)) + [Released, Completed]
            && Flatten(Pages(content)) == content
  {
    var f := Healthy(content);
    LoopReadsAllPages(f, c, init, 0);
    LoopStopsWhenAsked(f, c, init, 0);
    LoopFaultsWhereItStopped(f, c, init, 0);
    var r := ReadLoop(f, c, init, 0);
    var xs := Consume(c, init, r.chunks).1;
    assert !r.threw && !r.cancelled by {
      if |xs| > 0 {
        ConsumeReactions(c, init, r.chunks, |xs| - 1);
      }
    }
    PagesFlatten(content);
    assert content[0..] == content;
    assert Body(f, c, init) == r;
  }

  /** The reaction to the `i`-th chunk is the subscriber's `onNext` on it. */
  lemma {:induction false} ConsumeReactions<S>(c: Consumer<S>, s: S, chunks: seq<seq<byte>>, i: nat)
    requires i < |chunks|
    ensures exists t :: Consume(c, s, chunks).1[i] == c.onNext(t, chunks[i]).1
    decreases i
  {
    var step := c.onNext(s, chunks[0]);
    if i == 0 {
      assert Consume(c, s, chunks).1[0] == step.1;
    } else {
      ConsumeReactions(c, step.0, chunks[1..], i - 1);
      assert Consume(c, s, chunks).1 == [step.1] + Consume(c, step.0, chunks[1..]).1;
    }
  }

  /** An empty file gives no chunk and still completes. */
  lemma EmptyFileCompletes<S>(c: Consumer<S>, init: S)
    requires c.atSubscribe != Throw
    ensures Subscribe(Healthy([]), c, init) == (init, [Subscribed, Released, Completed])
  {
    var body := Body(Healthy([]), c, init);
    assert body.chunks == [] && !body.threw && body.state == init;
    assert [Subscribed] + NextEvents([]) + [Released, Completed] == [Subscribed, Released, Completed];
  }

  /** Cancelling in `onSubscribe` reads nothing, and the subscription still
      completes. */
  lemma CancelBeforeReading<S>(content: seq<byte>, c: Consumer<S>, init: S)
    requires c.atSubscribe == Cancel
    ensures Subscribe(Healthy(content), c, init) == (init, [Subscribed, Released, Completed])
  {
    assert Body(Healthy(content), c, init) == Loop(init, [], false, true);
    assert [Subscribed] + NextEvents([]) + [Released, Completed] == [Subscribed, Released, Completed];
  }

  /** Cancelling inside the first `onNext` of a file of three 4 KiB pages
      stops the loop after that chunk, and the subscription completes. */
  lemma CancelInFirstChunk<S>(a: seq<byte>, b: seq<byte>, d: seq<byte>, c: Consumer<S>, init: S)
    requires |a| == PAGE_SIZE && |b| == PAGE_SIZE && |d| == PAGE_SIZE
    requires c.atSubscribe == Continue
    requires forall s, chunk :: c.onNext(s, chunk).1 == Cancel
    ensures Subscribe(Healthy(a + b + d), c, init).1 == [Subscribed, Next(a), Released, Completed]
  {
    var content := a + b + d;
    assert content[0..PAGE_SIZE] == a;
  }

  /** A full page in front of the input is its first page. */
  lemma PagesOfFullPage(a: seq<byte>, rest: seq<byte>)
    requires |a| == PAGE_SIZE
    ensures Pages(a + rest) == [a] + Pages(rest)
  {
    assert (a + rest)[..PAGE_SIZE] == a;
    assert (a + rest)[PAGE_SIZE..] == rest;
  }

  /** Three pages of 4 KiB read back as three chunks equal to them. */
  lemma ThreePagesReadBack(a: seq<byte>, b: seq<byte>, d: seq<byte>)
    requires |a| == PAGE_SIZE && |b| == PAGE_SIZE && |d| == PAGE_SIZE
    ensures Pages(a + b + d) == [a, b, d]
  {
    var none: seq<byte> := [];
    assert a + b + d == a + (b + (d + none));
    PagesOfFullPage(d, none);
    PagesOfFullPage(b, d + none);
    PagesOfFullPage(a, b + (d + none));
    assert Pages(none) == [];
    assert [a] + ([b] + ([d] + [])) == [a, b, d];
  }

  /** A missing file gives the error alone: no `onSubscribe`, no chunk, and
      no channel to release. */
  lemma MissingFileFails<S>(c: Consumer<S>, init: S, content: seq<byte>)
    ensures Subscribe(Healthy(content).(openFails := true), c, init).1 == [Errored]
  {
  }
}
