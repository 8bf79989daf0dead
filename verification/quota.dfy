/** The line quota of one line-reading subscription (`LineReader.ParseRequest`):
    how many lines the subscriber still wants, whether it asked for all of
    them, and whether the subscription was interrupted by cancellation or
    by an error. */
module Quota {
  import opened Streams

  /** Bounds of a Java `long`, the type of a requested line count. */
  const LONG_MIN: int := -0x8000_0000_0000_0000
  const LONG_MAX: int :=  0x7FFF_FFFF_FFFF_FFFF

  type Long = x: int | LONG_MIN <= x <= LONG_MAX

  /** `remain` is an unbounded integer here: the source's `long` could wrap
      after enough requests, which this model does not follow. */
  datatype Request = Request(remain: int, unbounded: bool, interrupted: bool)

  /** What the subscriber does with its subscription handle. */
  datatype Demand = Ask(lines: Long) | Stop

  const Fresh: Request := Request(0, false, false)

  /** The quota that lets every line through. */
  const Unbounded: Request := Request(0, true, false)

  /** Whether another line may still be delivered. */
  predicate IsActive(r: Request) {
    !r.interrupted && (r.unbounded || r.remain > 0)
  }

  /** `request(n)`. `Long.MAX_VALUE` asks for every line, a non-negative count
      adds to the quota and a negative one fails the subscription with an
      invalid-argument error. An already interrupted subscription, whether
      it failed on an earlier negative request or was cancelled, signals
      nothing more: after a cancel a request is a no-op, as rule 3.6 of the
      Reactive Streams specification requires (see `DemandAsWritten`). */
  function RequestLines(r: Request, n: Long): (res: (Request, seq<Signal>))
    ensures n == LONG_MAX ==> res.0 == r.(unbounded := true) && res.1 == []
    ensures 0 <= n < LONG_MAX ==> res.0 == r.(remain := r.remain + n) && res.1 == []
    ensures n < 0 ==> res.0 == r.(interrupted := true)
    ensures n < 0 ==> (res.1 == [Failure(IllegalArgument)] <==> !r.interrupted)
    ensures |res.1| <= 1 && (res.1 == [] || res.1 == [Failure(IllegalArgument)])
  {
    if n == LONG_MAX then (r.(unbounded := true), [])
    else if n >= 0 then (r.(remain := r.remain + n), [])
    else if r.interrupted then (r, [])
    else (r.(interrupted := true), [Failure(IllegalArgument)])
  }

  /** `request(n)` exactly as the source writes it: every negative request
      signals an error, even on a subscription that has already failed or
      been cancelled. */
  function DemandAsWritten(r: Request, n: Long): (res: (Request, seq<Signal>))
    ensures n < 0 ==> res.1 == [Failure(IllegalArgument)] && res.0.interrupted
    ensures n >= 0 ==> res == RequestLines(r, n)
  {
    if n == LONG_MAX then (r.(unbounded := true), [])
    else if n >= 0 then (r.(remain := r.remain + n), [])
    else (r.(interrupted := true), [Failure(IllegalArgument)])
  }

  /** Account for one delivered line (`send`): the quota shrinks by one
      unless it is unbounded. */
  function Send(r: Request): (r': Request)
    ensures r'.unbounded == r.unbounded && r'.interrupted == r.interrupted
    ensures r'.remain == if r.unbounded then r.remain else r.remain - 1
  {
    if r.unbounded then r else r.(remain := r.remain - 1)
  }

  /** `cancel()` and the interruption done by `onError`. */
  function Interrupt(r: Request): (r': Request)
    ensures !IsActive(r')
  {
    r.(interrupted := true)
  }

  /** The subscriber's calls made during `onSubscribe`, in order; the result
      is the quota and the error signals those calls produced. */
  function ApplyDemands(r: Request, ds: seq<Demand>): (Request, seq<Signal>)
    decreases |ds|
  {
    if |ds| == 0 then (r, [])
    else
      var (r1, s1) := match ds[0] {
        case Ask(n) => RequestLines(r, n)
        case Stop => (Interrupt(r), [])
      };
      var (r2, s2) := ApplyDemands(r1, ds[1..]);
      (r2, s1 + s2)
  }

  /** `close()`: the terminal signal of a subscription that was not
      interrupted. Completion when the quota was met (or unbounded), a
      "no more lines" failure when lines are still owed. */
  function Close(r: Request): (sig: seq<Signal>)
    ensures |sig| <= 1
    ensures sig == [] <==> r.interrupted
    ensures sig == [Complete] <==> !r.interrupted && (r.unbounded || r.remain == 0)
    ensures sig == [Failure(NoMoreLines)] <==> !r.interrupted && !r.unbounded && r.remain != 0
  {
    if r.interrupted then []
    else if r.unbounded || r.remain == 0 then [Complete]
    else [Failure(NoMoreLines)]
  }

  predicate HasNegative(ds: seq<Demand>) {
    |ds| > 0 && ((ds[0].Ask? && ds[0].lines < 0) || HasNegative(ds[1..]))
  }

  predicate HasStop(ds: seq<Demand>) {
    |ds| > 0 && (ds[0].Stop? || HasStop(ds[1..]))
  }

  predicate HasAll(ds: seq<Demand>) {
    |ds| > 0 && (ds[0] == Ask(LONG_MAX) || HasAll(ds[1..]))
  }

  /** Reference: the line count asked for by `ds` when none is negative or
      unbounded. */
  function Total(ds: seq<Demand>): int {
    if |ds| == 0 then 0
    else (if ds[0].Ask? then ds[0].lines as int else 0) + Total(ds[1..])
  }

  predicate IsPlainCount(d: Demand) {
    d.Ask? && 0 <= d.lines < LONG_MAX
  }

  /** Counts requested one after another add up, and nothing is signalled. */
  lemma {:induction false} DemandsAccumulate(r: Request, ds: seq<Demand>)
    requires forall i :: 0 <= i < |ds| ==> IsPlainCount(ds[i])
    ensures ApplyDemands(r, ds) == (r.(remain := r.remain + Total(ds)), [])
    decreases |ds|
  {
    if |ds| > 0 {
      var r1 := r.(remain := r.remain + ds[0].lines as int);
      assert RequestLines(r, ds[0].lines) == (r1, []);
      DemandsAccumulate(r1, ds[1..]);
      var rest := ApplyDemands(r1, ds[1..]);
      assert ApplyDemands(r, ds) == (rest.0, [] + rest.1);
      assert Total(ds) == ds[0].lines as int + Total(ds[1..]);
      assert rest.1 == [] && [] + rest.1 == [];
      assert rest.0 == r.(remain := r.remain + Total(ds));
    }
  }

  /** The demands made during `onSubscribe` signal at most one error, and
      only for a negative request; a negative request on a subscription not
      cancelled always signals it. The demands interrupt the
      quota exactly when they hold a negative request or a cancellation, and
      they make it unbounded exactly when one asks for `Long.MAX_VALUE`. */
  lemma {:induction false} DemandsSignalAtMostOnce(r: Request, ds: seq<Demand>)
    ensures var (r', sig) := ApplyDemands(r, ds);
      && (sig == [] || sig == [Failure(IllegalArgument)])
      && (sig == [Failure(IllegalArgument)] ==> !r.interrupted && HasNegative(ds))
      && (!r.interrupted && HasNegative(ds) && !HasStop(ds) ==> sig == [Failure(IllegalArgument)])
      && (r'.interrupted <==> r.interrupted || HasNegative(ds) || HasStop(ds))
      && (r'.unbounded <==> r.unbounded || HasAll(ds))
    decreases |ds|
  {
    if |ds| > 0 {
      var (r1, s1) := match ds[0] {
        case Ask(n) => RequestLines(r, n)
        case Stop => (Interrupt(r), [])
      };
      DemandsSignalAtMostOnce(r1, ds[1..]);
      var (r2, s2) := ApplyDemands(r1, ds[1..]);
      assert ApplyDemands(r, ds) == (r2, s1 + s2);
      assert s1 == [] || (s1 == [Failure(IllegalArgument)] && !r.interrupted && r1.interrupted);
      assert s1 == [Failure(IllegalArgument)] <==> !r.interrupted && ds[0].Ask? && ds[0].lines < 0;
      assert r1.interrupted <==> r.interrupted || ds[0].Stop? || (ds[0].Ask? && ds[0].lines < 0);
      assert s1 + s2 == if s1 == [] then s2 else s1;
    }
  }

  /** As written, two negative requests in a row signal two errors, so the
      subscriber sees a terminal signal after a terminal signal. */
  lemma RepeatedNegativeRequestErrorsTwice()
    ensures var (r1, s1) := DemandAsWritten(Fresh, -1);
            var (r2, s2) := DemandAsWritten(r1, -1);
            s1 + s2 == [Failure(IllegalArgument), Failure(IllegalArgument)]
  {
  }

  /** As written, a subscriber that cancels and then requests a negative
      count still receives an error, although no terminal signal is due
      after a cancel; corrected, the request is ignored. */
  lemma NegativeRequestAfterCancelErrors()
    ensures DemandAsWritten(Interrupt(Fresh), -1).1 == [Failure(IllegalArgument)]
    ensures RequestLines(Interrupt(Fresh), -1).1 == []
    ensures ApplyDemands(Fresh, [Stop, Ask(-1)]).1 == []
  {
  }
}
