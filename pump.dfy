/** The stream pump of jc, run sequentially: it reads a chunk, compresses it
    with the carried state, writes the result and threads the state on,
    until end of input, a read error, a shutdown request or a broken pipe;
    then the main task flushes the writer unless the pipe is broken.

    What the environment does is given as a script: one `Tick` per loop
    iteration, holding the shutdown flag as the loop condition sees it, the
    outcome of the read, the flag as seen once the read has returned, and
    the outcome of the write. */
module Pump {
  import opened Compaction
  import opened CompactionProperties

  /** How a read ended: with no error, with end of input, or with any other error. */
  datatype ReadStatus = ReadOk | Eof | ReadFailed

  /** A read returns bytes together with a status; bytes may come with `Eof`. */
  datatype ReadResult = ReadResult(bytes: seq<Byte>, status: ReadStatus)

  /** How a write ended: accepted, a path error wrapping EPIPE (the reader
      has gone away), or any other error. */
  datatype WriteStatus = WriteOk | Epipe | WriteFailed

  /** The environment during one iteration of the pump loop. */
  datatype Tick = Tick(cancelledAtCheck: bool, read: ReadResult, cancelledAfterRead: bool, write: WriteStatus)

  /** What the pump does that the outside world can see, in order. A `Write`
      whose status is `WriteFailed` is reported on standard error, and so are
      a read failure and a failed flush. */
  datatype Event =
    | Write(bytes: seq<Byte>, status: WriteStatus)
    | ReadErrorReported
    | Flush(ok: bool)

  /** Why the loop ended. `Blocked` means the script ran out: the pump is
      still waiting on a read that does not return. */
  datatype Cause = EndOfInput | UpstreamError | Cancelled | DownstreamBroken | Blocked

  datatype Outcome = Outcome(events: seq<Event>, state: State, cause: Cause)

  /** `r` with `events` happening before it. */
  function Then(events: seq<Event>, r: Outcome): Outcome {
    Outcome(events + r.events, r.state, r.cause)
  }

  /** How one iteration of the loop ends: the loop stops with an outcome, or
      goes on with the events it produced and the new carried state. */
  datatype Iteration = Stop(outcome: Outcome) | Continue(events: seq<Event>, state: State)

  /** The body of the pump loop from carried state `s`, once the loop
      condition has let it run: a read error other than end of input stops
      the loop before anything is written; the shutdown flag is checked again
      once the read has returned; a non-empty chunk is compressed and
      written; a broken pipe stops the loop before the state is updated; any
      other write error is reported and the loop goes on with the new state;
      after end of input the loop stops. */
  function Body(t: Tick, s: State): Iteration {
    if t.read.status == ReadFailed then Stop(Outcome([ReadErrorReported], s, UpstreamError))
    else if t.cancelledAfterRead then Stop(Outcome([], s, Cancelled))
    else if |t.read.bytes| == 0 then
      if t.read.status == Eof then Stop(Outcome([], s, EndOfInput)) else Continue([], s)
    else
      var c := Compacted(t.read.bytes, s);
      if t.write == Epipe then Stop(Outcome([Write(c.output, Epipe)], s, DownstreamBroken))
      else if t.read.status == Eof then Stop(Outcome([Write(c.output, t.write)], c.state, EndOfInput))
      else Continue([Write(c.output, t.write)], c.state)
  }

  /** One iteration: the shutdown flag is checked by the loop condition
      before anything is read. */
  function Iterate(t: Tick, s: State): Iteration {
    if t.cancelledAtCheck then Stop(Outcome([], s, Cancelled)) else Body(t, s)
  }

  /** The pump loop from carried state `s`, one tick per iteration. */
  function Loop(ticks: seq<Tick>, s: State): Outcome
    decreases |ticks|
  {
    if |ticks| == 0 then Outcome([], s, Blocked)
    else
      match Iterate(ticks[0], s)
      case Stop(r) => r
      case Continue(events, next) => Then(events, Loop(ticks[1..], next))
  }

  /** The loop from tick `i` on is that tick's iteration followed, if the
      loop goes on, by the loop from tick `i + 1`. */
  lemma LoopAt(ticks: seq<Tick>, i: nat, s: State)
    requires i < |ticks|
    ensures Loop(ticks[i..], s) == match Iterate(ticks[i], s)
      case Stop(r) => r
      case Continue(events, next) => Then(events, Loop(ticks[i + 1..], next))
  {
    assert ticks[i..][1..] == ticks[i + 1..];
  }

  /** A whole run: the loop from the initial state, then the main task's
      flush unless the pipe broke. While the pump is blocked the main task
      never gets past its wait, so nothing is flushed. */
  function Session(ticks: seq<Tick>, flushOk: bool): Outcome {
    var r := Loop(ticks, Initial);
    if r.cause == Blocked || r.cause == DownstreamBroken then r
    else Then(r.events, Outcome([Flush(flushOk)], r.state, r.cause))
  }

  /** An iteration after which the loop goes on: no shutdown request, a
      read with no error, and no broken pipe on the write (there is no write
      when the read returned nothing). A write that fails for any other reason
      does not interrupt the loop. */
  predicate Uninterrupted(t: Tick) {
    && !t.cancelledAtCheck
    && t.read.status == ReadOk
    && !t.cancelledAfterRead
    && (|t.read.bytes| == 0 || t.write != Epipe)
  }

  /** The bytes the reads of a script return, in order. */
  function Payload(ticks: seq<Tick>): seq<Byte>
    decreases |ticks|
  {
    if |ticks| == 0 then [] else ticks[0].read.bytes + Payload(ticks[1..])
  }

  /** The bytes handed to the writer, in order, whatever each write returned. */
  function Handed(events: seq<Event>): seq<Byte>
    decreases |events|
  {
    if |events| == 0 then []
    else (if events[0].Write? then events[0].bytes else []) + Handed(events[1..])
  }

  lemma {:induction false} HandedAppend(a: seq<Event>, b: seq<Event>)
    ensures Handed(a + b) == Handed(a) + Handed(b)
    decreases |a|
  {
    if |a| == 0 {
      assert a + b == b;
    } else {
      assert (a + b)[1..] == a[1..] + b;
      HandedAppend(a[1..], b);
    }
  }

  /** The loop goes on after an iteration exactly when the iteration is
      uninterrupted: an empty read with no error is simply retried, and a
      failed write other than a broken pipe is reported and passed over. */
  lemma GoesOnExactly(t: Tick, s: State)
    ensures Iterate(t, s).Continue? <==> Uninterrupted(t)
  {
  }

  /** A script runs from its first tick: once the loop has stopped the later
      ticks do not matter, and while it is still waiting it goes on with
      the later ticks from the state it has reached. */
  lemma {:induction false} LoopAppend(pre: seq<Tick>, rest: seq<Tick>, s: State)
    ensures var r := Loop(pre, s);
      Loop(pre + rest, s) == if r.cause == Blocked then Then(r.events, Loop(rest, r.state)) else r
    decreases |pre|
  {
    if |pre| == 0 {
      assert pre + rest == rest;
      assert [] + Loop(rest, s).events == Loop(rest, s).events;
    } else {
      assert (pre + rest)[0] == pre[0];
      assert (pre + rest)[1..] == pre[1..] + rest;
      match Iterate(pre[0], s)
      case Stop(r) =>
      case Continue(events, next) =>
        LoopAppend(pre[1..], rest, next);
        var r' := Loop(pre[1..], next);
        var l := Loop(rest, r'.state);
        assert events + (r'.events + l.events) == events + r'.events + l.events;
    }
  }

  /** Over uninterrupted iterations the pump is the compaction of the whole
      stream, however the reads cut it into chunks: the bytes handed to the
      writer are the compacted concatenation of what was read, the carried
      state is the compaction's, and the loop is still waiting for more. */
  lemma {:induction false} UninterruptedRun(pre: seq<Tick>, s: State)
    requires forall k :: 0 <= k < |pre| ==> Uninterrupted(pre[k])
    ensures var r, c := Loop(pre, s), Compacted(Payload(pre), s);
      r.cause == Blocked && Handed(r.events) == c.output && r.state == c.state
    decreases |pre|
  {
    if |pre| > 0 {
      var t := pre[0];
      UninterruptedRun(pre[1..], if |t.read.bytes| == 0 then s else Compacted(t.read.bytes, s).state);
      var p := Payload(pre[1..]);
      if |t.read.bytes| == 0 {
        assert Payload(pre) == p;
        var r' := Loop(pre[1..], s);
        assert Loop(pre, s) == Then([], r');
        assert [] + r'.events == r'.events;
      } else {
        var c := Compacted(t.read.bytes, s);
        var r' := Loop(pre[1..], c.state);
        var w := Write(c.output, t.write);
        assert Loop(pre, s) == Then([w], r');
        HandedAppend([w], r'.events);
        assert Handed([w]) == c.output + [];
        CompactedSplit(t.read.bytes, p, s);
      }
    }
  }

  /** The first iteration that is not uninterrupted ends the loop: what
      happens is the uninterrupted run before it followed by how that
      iteration stops, from the state of the compacted bytes read so far. */
  lemma {:induction false} StopAt(ticks: seq<Tick>, i: nat, s: State)
    requires i < |ticks|
    requires forall k :: 0 <= k < i ==> Uninterrupted(ticks[k])
    requires !Uninterrupted(ticks[i])
    ensures Iterate(ticks[i], Compacted(Payload(ticks[..i]), s).state).Stop?
    ensures Loop(ticks, s) ==
      Then(Loop(ticks[..i], s).events, Iterate(ticks[i], Compacted(Payload(ticks[..i]), s).state).outcome)
  {
    var pre := ticks[..i];
    assert pre + ticks[i..] == ticks;
    UninterruptedRun(pre, s);
    LoopAppend(pre, ticks[i..], s);
    var r := Loop(pre, s);
    GoesOnExactly(ticks[i], r.state);
    assert ticks[i..][0] == ticks[i];
  }

  /** No flush happens inside the loop. */
  lemma {:induction false} NoFlushInLoop(ticks: seq<Tick>, s: State)
    ensures forall e :: e in Loop(ticks, s).events ==> !e.Flush?
    decreases |ticks|
  {
    if |ticks| > 0 {
      match Iterate(ticks[0], s)
      case Stop(r) =>
      case Continue(events, next) =>
        NoFlushInLoop(ticks[1..], next);
    }
  }

  /** The flush decision: the writer is flushed exactly when the pump ended
      with the pipe intact, and then the flush is the last thing that
      happens. */
  lemma FlushUnlessBroken(ticks: seq<Tick>, flushOk: bool)
    ensures var o := Session(ticks, flushOk);
      && ((exists e :: e in o.events && e.Flush?) <==> o.cause != Blocked && o.cause != DownstreamBroken)
      && (o.cause != Blocked && o.cause != DownstreamBroken ==> o.events[|o.events| - 1] == Flush(flushOk))
  {
    NoFlushInLoop(ticks, Initial);
    var o := Session(ticks, flushOk);
    if o.cause != Blocked && o.cause != DownstreamBroken {
      assert o.events[|o.events| - 1] in o.events;
    }
  }

  /** A read that returns bytes together with end of input still has them
      compressed and written; the loop then ends, the writer is flushed, and
      the output is the compaction of every byte read. */
  lemma EndOfInputWritesLastChunk(ticks: seq<Tick>, i: nat, flushOk: bool)
    requires i < |ticks|
    requires forall k :: 0 <= k < i ==> Uninterrupted(ticks[k])
    requires var t := ticks[i];
      && !t.cancelledAtCheck && t.read.status == Eof && !t.cancelledAfterRead
      && (|t.read.bytes| == 0 || t.write != Epipe)
    ensures var o, c := Session(ticks, flushOk), Compacted(Payload(ticks[..i]) + ticks[i].read.bytes, Initial);
      && o.cause == EndOfInput
      && Handed(o.events) == c.output
      && o.state == c.state
      && o.events[|o.events| - 1] == Flush(flushOk)
  {
    var t := ticks[i];
    var sent := Compacted(Payload(ticks[..i]), Initial);
    StopAt(ticks, i, Initial);
    UninterruptedRun(ticks[..i], Initial);
    CompactedSplit(Payload(ticks[..i]), t.read.bytes, Initial);
    var before := Loop(ticks[..i], Initial).events;
    var stop := Iterate(t, sent.state).outcome;
    HandedAppend(before, stop.events);
    HandedAppend(before + stop.events, [Flush(flushOk)]);
    if |t.read.bytes| == 0 {
      assert Handed(stop.events) == [];
      assert sent.output + [] == sent.output;
    } else {
      assert Handed(stop.events) == Compacted(t.read.bytes, sent.state).output + [];
    }
  }

  /** A read error other than end of input is reported and ends the loop
      with nothing of that read written; the writer is then flushed. */
  lemma ReadErrorWritesNothing(ticks: seq<Tick>, i: nat, flushOk: bool)
    requires i < |ticks|
    requires forall k :: 0 <= k < i ==> Uninterrupted(ticks[k])
    requires !ticks[i].cancelledAtCheck && ticks[i].read.status == ReadFailed
    ensures var o := Session(ticks, flushOk);
      && o.cause == UpstreamError
      && o.events == Loop(ticks[..i], Initial).events + [ReadErrorReported, Flush(flushOk)]
      && Handed(o.events) == Compacted(Payload(ticks[..i]), Initial).output
  {
    StopAt(ticks, i, Initial);
    UninterruptedRun(ticks[..i], Initial);
    var before := Loop(ticks[..i], Initial).events;
    HandedAppend(before, [ReadErrorReported, Flush(flushOk)]);
    assert [ReadErrorReported, Flush(flushOk)][1..] == [Flush(flushOk)];
    assert Handed([Flush(flushOk)]) == [];
    assert Handed([ReadErrorReported, Flush(flushOk)]) == [];
  }

  /** A shutdown request seen by the loop condition, or seen once a read
      that did not fail has returned, ends the loop: the chunk just read, if
      any, is dropped unwritten, and the writer is flushed. */
  lemma ShutdownDropsChunk(ticks: seq<Tick>, i: nat, flushOk: bool)
    requires i < |ticks|
    requires forall k :: 0 <= k < i ==> Uninterrupted(ticks[k])
    requires ticks[i].cancelledAtCheck || (ticks[i].read.status != ReadFailed && ticks[i].cancelledAfterRead)
    ensures var o := Session(ticks, flushOk);
      && o.cause == Cancelled
      && o.events == Loop(ticks[..i], Initial).events + [Flush(flushOk)]
      && Handed(o.events) == Compacted(Payload(ticks[..i]), Initial).output
  {
    StopAt(ticks, i, Initial);
    UninterruptedRun(ticks[..i], Initial);
    var before := Loop(ticks[..i], Initial).events;
    assert before + [] == before;
    HandedAppend(before, [Flush(flushOk)]);
    assert Handed([Flush(flushOk)]) == [];
  }

  /** A write that fails with a broken pipe ends the loop at once, with no
      state update and no flush afterwards: the failed write is the last
      thing that happens. */
  lemma BrokenPipeSuppressesFlush(ticks: seq<Tick>, i: nat, flushOk: bool)
    requires i < |ticks|
    requires forall k :: 0 <= k < i ==> Uninterrupted(ticks[k])
    requires var t := ticks[i];
      && !t.cancelledAtCheck && t.read.status != ReadFailed && !t.cancelledAfterRead
      && |t.read.bytes| > 0 && t.write == Epipe
    ensures var o, sent := Session(ticks, flushOk), Compacted(Payload(ticks[..i]), Initial);
      && o.cause == DownstreamBroken
      && o.events == Loop(ticks[..i], Initial).events + [Write(Compacted(ticks[i].read.bytes, sent.state).output, Epipe)]
      && o.state == sent.state
      && (forall e :: e in o.events ==> !e.Flush?)
  {
    StopAt(ticks, i, Initial);
    UninterruptedRun(ticks[..i], Initial);
    NoFlushInLoop(ticks, Initial);
  }

  /** The body of the program's pump loop: read, check the shutdown flag,
      compress and write. */
  method Pass(tick: Tick, quotes: int, last: Byte) returns (it: Iteration)
    ensures it == Body(tick, State(quotes, last))
  {
    var eof := false;
    var bytes, status := tick.read.bytes, tick.read.status;
    if status == Eof {
      eof := true;
    } else if status == ReadFailed {
      return Stop(Outcome([ReadErrorReported], State(quotes, last), UpstreamError));
    }
    if tick.cancelledAfterRead {
      return Stop(Outcome([], State(quotes, last), Cancelled));
    }
    var events: seq<Event> := [];
    var newQuotes, newLast := quotes, last;
    if |bytes| > 0 {
      var output, q, l := Compress(bytes, quotes, last);
      events := [Write(output, tick.write)];
      if tick.write == Epipe {
        return Stop(Outcome(events, State(quotes, last), DownstreamBroken));
      }
      newQuotes, newLast := q, l;
    }
    if eof {
      return Stop(Outcome(events, State(newQuotes, newLast), EndOfInput));
    }
    return Continue(events, State(newQuotes, newLast));
  }

  /** The program's pump goroutine and the flush decision after it. */
  method Run(ticks: seq<Tick>, flushOk: bool) returns (events: seq<Event>, cause: Cause)
    ensures events == Session(ticks, flushOk).events
    ensures cause == Session(ticks, flushOk).cause
  {
    var brokenPipe := false;
    var quotes: int, last: Byte := 0, 0;
    var i := 0;
    events := [];
    ghost var whole := Loop(ticks, Initial);
    assert ticks[0..] == ticks;
    while true
      invariant 0 <= i <= |ticks|
      invariant whole == Then(events, Loop(ticks[i..], State(quotes, last)))
      decreases |ticks| - i
    {
      if i == |ticks| {
        cause := Blocked;
        assert events + [] == events;
        break;
      }
      LoopAt(ticks, i, State(quotes, last));
      if ticks[i].cancelledAtCheck {
        cause := Cancelled;
        assert events + [] == events;
        break;
      }
      var it := Pass(ticks[i], quotes, last);
      if it.Stop? {
        events := events + it.outcome.events;
        cause := it.outcome.cause;
        brokenPipe := cause == DownstreamBroken;
        break;
      }
      ghost var rest := Loop(ticks[i + 1..], it.state);
      assert events + (it.events + rest.events) == events + it.events + rest.events;
      events := events + it.events;
      quotes, last := it.state.quotes, it.state.last;
      i := i + 1;
    }
    if cause == Blocked {
      return;
    }
    if !brokenPipe {
      events := events + [Flush(flushOk)];
    }
  }
}
