/** The flush timer's state machine: a re-entrancy flag, a backoff counter and the
    pending queue. One tick drains the queue batch by batch; a failed post puts its batch
    back through `EnqueueMetrics` and backs off for the next `BackoffTicks` ticks. */
module Flush {
  import opened Wrappers
  import opened PendingQueue
  import opened Payload

  /** The number of ticks skipped after a failed post. */
  const BackoffTicks := 4

  /** The reporter options the queue and the flush timer read. */
  datatype Options = Options(maxQueueLength: int, batchSize: nat, throwOnPostFail: bool, throwOnQueueFull: bool)

  /** `_isFlushing`, `_skipFlushes` and `_pendingMetrics`. */
  datatype FlushState = FlushState(isFlushing: bool, skipFlushes: int, pending: seq<string>)

  const InitialState := FlushState(false, 0, [])

  /** What one post of a batch did: accepted, failed with a `BosunPostException`, or
      skipped because no URL was configured (the batch is dropped). */
  datatype PostOutcome = Ok | PostFail | NoUrl

  /** One batch handed to the post, and the post's outcome. */
  datatype Attempt = Attempt(batch: seq<string>, outcome: PostOutcome) {
    /** The HTTP body posted for the batch. */
    function PostedBody(): string {
      Body(batch)
    }
  }

  /** How one `FlushBatch` call ended: normally, by rethrowing the post failure after
      re-enqueuing, or by the queue-full exception the re-enqueue threw instead. */
  datatype BatchEnd = Sent | PostError | QueueFullOnRequeue

  datatype BatchStep = BatchStep(queue: seq<string>, attempts: seq<Attempt>, end: BatchEnd)

  /** The samples of a run of attempts, in the order they were taken from the queue. */
  function Consumed(log: seq<Attempt>): seq<string>
    decreases |log|
  {
    if |log| == 0 then [] else log[0].batch + Consumed(log[1..])
  }

  /** Every attempt in `log` carries a non-empty batch of at most `batchSize` samples and
      the outcome the environment gave the `k + i`-th post. */
  predicate WellFormedLog(log: seq<Attempt>, batchSize: nat, post: nat -> PostOutcome, k: nat) {
    forall i :: 0 <= i < |log| ==>
      && 0 < |log[i].batch| <= batchSize
      && log[i].outcome == post(k + i)
  }

  /** `FlushBatch`: dequeue a batch; if it is non-empty, build its body and post it. On a
      failed post the batch goes back through `EnqueueMetrics`, at the tail of the queue. */
  function FlushBatch(opts: Options, q: seq<string>, outcome: PostOutcome): (r: BatchStep)
    ensures |q| == 0 || opts.batchSize == 0 ==> r == BatchStep(q, [], Sent)
    ensures |q| > 0 && opts.batchSize > 0 ==>
              var d := Dequeue(q, opts.batchSize);
              && r.attempts == [Attempt(d.batch, outcome)]
              && 0 < |d.batch| <= opts.batchSize
              && (outcome != PostFail ==> r.end == Sent && d.batch + r.queue == q)
              && (outcome == PostFail ==>
                    && r.queue == d.queue + Take(d.batch, opts.maxQueueLength - |d.queue|)
                    && (r.end == QueueFullOnRequeue <==> opts.throwOnQueueFull && |r.queue| == opts.maxQueueLength)
                    && (r.end == PostError <==> !(opts.throwOnQueueFull && |r.queue| == opts.maxQueueLength)))
    ensures WithinCapacity(q, opts.maxQueueLength) ==> WithinCapacity(r.queue, opts.maxQueueLength)
  {
    var d := Dequeue(q, opts.batchSize);
    if |d.batch| == 0 then BatchStep(d.queue, [], Sent)
    else
      var attempt := Attempt(d.batch, outcome);
      match outcome
      case PostFail =>
        var e := Enqueue(d.queue, d.batch, opts.maxQueueLength, opts.throwOnQueueFull);
        assert e.queue == d.queue + e.queue[|d.queue|..];
        BatchStep(e.queue, [attempt], if e.queueFull then QueueFullOnRequeue else PostError)
      case _ => BatchStep(d.queue, [attempt], Sent)
  }

  /** How the drain loop of one tick ended. */
  datatype DrainEnd = AllSent | PostFailed | QueueFull

  datatype Drained = Drained(end: DrainEnd, queue: seq<string>, log: seq<Attempt>)

  /** The loop `while (_pendingMetrics.Count > 0) FlushBatch();`, with the `k`-th post's
      outcome given by `post(k)`. It stops at the first exception. */
  function Drain(opts: Options, q: seq<string>, post: nat -> PostOutcome, k: nat): (r: Drained)
    requires opts.batchSize > 0
    ensures r.end == AllSent ==> r.queue == []
    ensures WithinCapacity(q, opts.maxQueueLength) ==> WithinCapacity(r.queue, opts.maxQueueLength)
    decreases |q|
  {
    if |q| == 0 then Drained(AllSent, [], [])
    else
      var step := FlushBatch(opts, q, post(k));
      if step.end == Sent then
        var rest := Drain(opts, step.queue, post, k + 1);
        Drained(rest.end, rest.queue, step.attempts + rest.log)
      else
        Drained(if step.end == PostError then PostFailed else QueueFull, step.queue, step.attempts)
  }

  /** Every batch the drain hands to the post is non-empty, at most `BatchSize` long,
      and met the outcome of its own attempt number. */
  lemma {:induction false} DrainLogWellFormed(opts: Options, q: seq<string>, post: nat -> PostOutcome, k: nat)
    requires opts.batchSize > 0
    ensures WellFormedLog(Drain(opts, q, post, k).log, opts.batchSize, post, k)
    decreases |q|
  {
    if |q| > 0 {
      var step := FlushBatch(opts, q, post(k));
      if step.end == Sent {
        var rest := Drain(opts, step.queue, post, k + 1);
        DrainLogWellFormed(opts, step.queue, post, k + 1);
        var log := step.attempts + rest.log;
        forall i | 0 <= i < |log|
          ensures 0 < |log[i].batch| <= opts.batchSize && log[i].outcome == post(k + i)
        {
          if i > 0 { assert log[i] == rest.log[i - 1]; }
        }
      }
    }
  }

  /** The batches handed to the post are consecutive slices from the head of the queue;
      when the drain ends normally they are the whole queue, in order. */
  lemma {:induction false} DrainConsumesPrefix(opts: Options, q: seq<string>, post: nat -> PostOutcome, k: nat)
    requires opts.batchSize > 0
    ensures var r := Drain(opts, q, post, k);
            && |Consumed(r.log)| <= |q| && Consumed(r.log) == q[..|Consumed(r.log)|]
            && (r.end == AllSent ==> Consumed(r.log) == q)
    decreases |q|
  {
    if |q| > 0 {
      var step := FlushBatch(opts, q, post(k));
      var a := step.attempts[0];
      assert Consumed(step.attempts) == a.batch by {
        assert step.attempts[1..] == [];
      }
      if step.end == Sent {
        var rest := Drain(opts, step.queue, post, k + 1);
        DrainConsumesPrefix(opts, step.queue, post, k + 1);
        var log := step.attempts + rest.log;
        assert log[1..] == rest.log;
        assert Consumed(log) == a.batch + Consumed(rest.log);
        assert q == a.batch + step.queue;
      }
    }
  }

  /** Every body posted in `log` reads back as exactly the batch of its attempt. */
  predicate BodiesReadBack(log: seq<Attempt>) {
    forall i :: 0 <= i < |log| ==> Parse(log[i].PostedBody()) == Some(log[i].batch)
  }

  /** Every body the drain posts reads back as exactly the batch it carries, provided
      the queue holds array elements only: batching never splits or merges a sample. */
  lemma {:induction false} DrainPostsParsableBodies(opts: Options, q: seq<string>, post: nat -> PostOutcome, k: nat)
    requires opts.batchSize > 0 && Elements(q)
    ensures BodiesReadBack(Drain(opts, q, post, k).log)
    decreases |q|
  {
    if |q| > 0 {
      var step := FlushBatch(opts, q, post(k));
      var d := Dequeue(q, opts.batchSize);
      ElementsSplit(d.batch, d.queue);
      assert step.attempts[0].batch == d.batch;
      if step.end == Sent {
        var rest := Drain(opts, step.queue, post, k + 1);
        assert step.queue == d.queue;
        DrainPostsParsableBodies(opts, step.queue, post, k + 1);
        var log := step.attempts + rest.log;
        assert Parse(log[0].PostedBody()) == Some(log[0].batch) by {
          assert log[0] == step.attempts[0];
          assert Parse(Body(d.batch)) == Some(d.batch);
        }
        forall i | 0 < i < |log| ensures Parse(log[i].PostedBody()) == Some(log[i].batch) {
          assert log[i] == rest.log[i - 1];
        }
      } else {
        assert Parse(Body(d.batch)) == Some(d.batch);
      }
    }
  }

  /** The drain ends normally exactly when no post failed. */
  lemma {:induction false} DrainSucceedsIffNoPostFailed(opts: Options, q: seq<string>, post: nat -> PostOutcome, k: nat)
    requires opts.batchSize > 0
    ensures var r := Drain(opts, q, post, k);
            r.end == AllSent <==> forall i :: 0 <= i < |r.log| ==> r.log[i].outcome != PostFail
    decreases |q|
  {
    if |q| > 0 {
      var step := FlushBatch(opts, q, post(k));
      if step.end == Sent {
        var rest := Drain(opts, step.queue, post, k + 1);
        DrainSucceedsIffNoPostFailed(opts, step.queue, post, k + 1);
        var log := step.attempts + rest.log;
        assert post(k) != PostFail;
        assert log[0].outcome == post(k);
        if forall i :: 0 <= i < |log| ==> log[i].outcome != PostFail {
          forall j | 0 <= j < |rest.log| ensures rest.log[j].outcome != PostFail {
            assert rest.log[j] == log[j + 1];
          }
        }
        if forall j :: 0 <= j < |rest.log| ==> rest.log[j].outcome != PostFail {
          forall i | 0 < i < |log| ensures log[i].outcome != PostFail {
            assert log[i] == rest.log[i - 1];
          }
        }
      } else {
        assert post(k) == PostFail;
        assert step.attempts[0].outcome == PostFail;
      }
    }
  }

  /** The shape of a run of posts that stopped at a failed one: the last attempt failed,
      and `queue` is what was left behind the posted batches followed by the failed
      batch, truncated to the remaining capacity. `queueFull` is the queue-full exception
      escaping, which happens exactly when that fills the queue under `ThrowOnQueueFull`. */
  predicate FailedShape(opts: Options, q: seq<string>, log: seq<Attempt>, queue: seq<string>, queueFull: bool) {
    && |log| > 0
    && |Consumed(log)| <= |q|
    && var last := log[|log| - 1];
       var left := q[|Consumed(log)|..];
       && last.outcome == PostFail
       && queue == left + Take(last.batch, opts.maxQueueLength - |left|)
       && (queueFull <==> opts.throwOnQueueFull && |queue| == opts.maxQueueLength)
  }

  /** The shape of a drain that stopped at a failed post. */
  predicate StoppedAtFailure(opts: Options, q: seq<string>, r: Drained) {
    FailedShape(opts, q, r.log, r.queue, r.end == QueueFull)
  }

  /** When a post fails the drain stops there: the last attempt is the failed one, and
      the queue is what was left behind it with the failed batch appended at the tail,
      truncated to the remaining capacity. The queue-full exception escapes exactly when
      that fills the queue and `ThrowOnQueueFull` is set. */
  lemma {:induction false} DrainStopsAtFailure(opts: Options, q: seq<string>, post: nat -> PostOutcome, k: nat)
    requires opts.batchSize > 0
    ensures var r := Drain(opts, q, post, k);
            r.end != AllSent ==> StoppedAtFailure(opts, q, r)
    decreases |q|
  {
    if |q| > 0 {
      var step := FlushBatch(opts, q, post(k));
      if step.end == Sent {
        var rest := Drain(opts, step.queue, post, k + 1);
        if rest.end != AllSent {
          DrainStopsAtFailure(opts, step.queue, post, k + 1);
          StoppedAtFailureExtends(opts, q, step, rest);
        }
      } else {
        FirstBatchFailed(opts, q, post(k));
      }
    }
  }

  /** A drain whose first batch fails stops right there. */
  lemma FirstBatchFailed(opts: Options, q: seq<string>, outcome: PostOutcome)
    requires opts.batchSize > 0 && |q| > 0
    requires FlushBatch(opts, q, outcome).end != Sent
    ensures var step := FlushBatch(opts, q, outcome);
            StoppedAtFailure(opts, q, Drained(if step.end == PostError then PostFailed else QueueFull, step.queue, step.attempts))
  {
    var step := FlushBatch(opts, q, outcome);
    var a := step.attempts[0];
    assert Consumed(step.attempts) == a.batch by {
      assert step.attempts[1..] == [];
    }
    assert q[|a.batch|..] == Dequeue(q, opts.batchSize).queue;
  }

  /** A batch that was sent, followed by a drain that stopped at a failure, is a drain
      that stopped at that failure. */
  lemma StoppedAtFailureExtends(opts: Options, q: seq<string>, step: BatchStep, rest: Drained)
    requires |step.attempts| == 1 && step.attempts[0].batch + step.queue == q
    requires StoppedAtFailure(opts, step.queue, rest)
    ensures StoppedAtFailure(opts, q, Drained(rest.end, rest.queue, step.attempts + rest.log))
  {
    var a := step.attempts[0];
    var log := step.attempts + rest.log;
    assert log[1..] == rest.log;
    assert Consumed(log) == a.batch + Consumed(rest.log);
    SliceAfterPrefix(a.batch, step.queue, |Consumed(rest.log)|);
    assert log[|log| - 1] == rest.log[|rest.log| - 1];
  }

  /** Dropping a prefix and then `c` more elements is dropping `|x| + c` elements. */
  lemma SliceAfterPrefix(x: seq<string>, y: seq<string>, c: nat)
    requires c <= |y|
    ensures (x + y)[|x| + c..] == y[c..]
  {
  }

  /** What a tick did, as its caller (the timer) sees it. */
  datatype TickOutcome =
    | AlreadyFlushing          // another tick holds the flag: nothing happened
    | BackedOff                // the backoff counter was decremented instead of flushing
    | Flushed                  // the queue was drained
    | PostFailedTick(rethrown: bool)  // a post failed; backoff set, rethrown iff ThrowOnPostFail
    | QueueFullEscaped         // the re-enqueue threw queue-full, which escapes without backoff

  datatype Tick = Tick(state: FlushState, outcome: TickOutcome, log: seq<Attempt>)

  /** `Interlocked.CompareExchange(ref _isFlushing, 1, 0)`: take the flag if it is free. */
  function TryAcquire(s: FlushState): (r: Option<FlushState>)
    ensures r.None? <==> s.isFlushing
    ensures r.Some? ==> r.value.isFlushing && r.value.skipFlushes == s.skipFlushes && r.value.pending == s.pending
  {
    if s.isFlushing then None else Some(s.(isFlushing := true))
  }

  /** The body of `Flush` once the flag is held, ending with the flag released. */
  function FlushBody(opts: Options, s: FlushState, post: nat -> PostOutcome): (r: Tick)
    requires opts.batchSize > 0
    ensures !r.state.isFlushing
    ensures s.skipFlushes > 0 ==> r == Tick(FlushState(false, s.skipFlushes - 1, s.pending), BackedOff, [])
    ensures s.skipFlushes <= 0 ==> r.outcome != BackedOff && r.outcome != AlreadyFlushing
    ensures r.outcome == Flushed ==> r.state == FlushState(false, s.skipFlushes, [])
    ensures r.outcome.PostFailedTick? ==>
              r.state.skipFlushes == BackoffTicks && r.outcome.rethrown == opts.throwOnPostFail
    ensures r.outcome == QueueFullEscaped ==> r.state.skipFlushes == s.skipFlushes
    ensures WithinCapacity(s.pending, opts.maxQueueLength) ==> WithinCapacity(r.state.pending, opts.maxQueueLength)
  {
    if s.skipFlushes > 0 then Tick(FlushState(false, s.skipFlushes - 1, s.pending), BackedOff, [])
    else
      var d := Drain(opts, s.pending, post, 0);
      match d.end
      case AllSent => Tick(FlushState(false, s.skipFlushes, d.queue), Flushed, d.log)
      case PostFailed => Tick(FlushState(false, BackoffTicks, d.queue), PostFailedTick(opts.throwOnPostFail), d.log)
      case QueueFull => Tick(FlushState(false, s.skipFlushes, d.queue), QueueFullEscaped, d.log)
  }

  /** A tick that gets past the backoff check posts consecutive batches from the head of
      the queue, each non-empty and at most `BatchSize` long; when the queue holds array
      elements, each posted body reads back as its batch. */
  lemma FlushBodyPostsPrefix(opts: Options, s: FlushState, post: nat -> PostOutcome)
    requires opts.batchSize > 0 && s.skipFlushes <= 0
    ensures var r := FlushBody(opts, s, post);
            && WellFormedLog(r.log, opts.batchSize, post, 0)
            && |Consumed(r.log)| <= |s.pending| && Consumed(r.log) == s.pending[..|Consumed(r.log)|]
            && (Elements(s.pending) ==> BodiesReadBack(r.log))
  {
    if Elements(s.pending) { DrainPostsParsableBodies(opts, s.pending, post, 0); }
    DrainLogWellFormed(opts, s.pending, post, 0);
    DrainConsumesPrefix(opts, s.pending, post, 0);
  }

  /** A tick that gets past the backoff check flushes exactly when no post failed, and
      then it has posted the whole queue, in order, and left it empty. */
  lemma FlushBodyFlushedIffNoPostFailed(opts: Options, s: FlushState, post: nat -> PostOutcome)
    requires opts.batchSize > 0 && s.skipFlushes <= 0
    ensures var r := FlushBody(opts, s, post);
            && (r.outcome == Flushed <==> forall i :: 0 <= i < |r.log| ==> r.log[i].outcome != PostFail)
            && (r.outcome == Flushed ==> Consumed(r.log) == s.pending && r.state.pending == [])
  {
    DrainConsumesPrefix(opts, s.pending, post, 0);
    DrainSucceedsIffNoPostFailed(opts, s.pending, post, 0);
  }

  /** A tick whose post failed has put the failed batch back at the tail of the queue,
      truncated to the remaining capacity. It then either backs off, rethrowing iff
      `ThrowOnPostFail`, or, when re-enqueuing filled the queue and `ThrowOnQueueFull` is
      set, lets queue-full escape with no backoff set. */
  lemma FlushBodyFailed(opts: Options, s: FlushState, post: nat -> PostOutcome)
    requires opts.batchSize > 0 && s.skipFlushes <= 0
    ensures var r := FlushBody(opts, s, post);
            r.outcome != Flushed ==>
              && FailedShape(opts, s.pending, r.log, r.state.pending, r.outcome == QueueFullEscaped)
              && (r.outcome == QueueFullEscaped || r.outcome == PostFailedTick(opts.throwOnPostFail))
  {
    var d := Drain(opts, s.pending, post, 0);
    DrainStopsAtFailure(opts, s.pending, post, 0);
    FlushBodyFromDrain(opts, s, post);
  }

  /** Past the backoff check, a tick is its drain: the same posts and queue, and an
      outcome that follows how the drain ended. */
  lemma FlushBodyFromDrain(opts: Options, s: FlushState, post: nat -> PostOutcome)
    requires opts.batchSize > 0 && s.skipFlushes <= 0
    ensures var d := Drain(opts, s.pending, post, 0);
            var r := FlushBody(opts, s, post);
            && r.log == d.log && r.state.pending == d.queue
            && (r.outcome == Flushed <==> d.end == AllSent)
            && (r.outcome == QueueFullEscaped <==> d.end == QueueFull)
            && (r.outcome == PostFailedTick(opts.throwOnPostFail) <==> d.end == PostFailed)
  {
  }

  /** One tick of the flush timer (`Flush`). */
  function FlushTick(opts: Options, s: FlushState, post: nat -> PostOutcome): (r: Tick)
    requires opts.batchSize > 0
    ensures s.isFlushing ==> r == Tick(s, AlreadyFlushing, [])
    ensures !s.isFlushing ==> !r.state.isFlushing && r.outcome != AlreadyFlushing
  {
    match TryAcquire(s)
    case None => Tick(s, AlreadyFlushing, [])
    case Some(held) => FlushBody(opts, held, post)
  }

  /** `Snapshot`: the serialized samples of every metric are enqueued. The samples and
      their order are supplied by the caller. The queue grows by the samples that fit,
      in order, and queue-full is reported exactly when `ThrowOnQueueFull` is set and
      the queue ends at exactly `MaxQueueLength`. */
  function Snapshot(opts: Options, s: FlushState, samples: seq<string>): (r: (FlushState, bool))
    ensures r.0.isFlushing == s.isFlushing && r.0.skipFlushes == s.skipFlushes
    ensures var n := Admitted(|s.pending|, |samples|, opts.maxQueueLength);
            n <= |samples| && r.0.pending == s.pending + samples[..n]
    ensures r.1 <==> opts.throwOnQueueFull && |r.0.pending| == opts.maxQueueLength
    ensures WithinCapacity(s.pending, opts.maxQueueLength) ==> WithinCapacity(r.0.pending, opts.maxQueueLength)
  {
    var e := Enqueue(s.pending, samples, opts.maxQueueLength, opts.throwOnQueueFull);
    assert e.queue == s.pending + e.queue[|s.pending|..];
    (s.(pending := e.queue), e.queueFull)
  }

  /** The state between ticks: the flag is free, the backoff counter is in range and the
      queue is within capacity. */
  predicate Idle(opts: Options, s: FlushState) {
    && !s.isFlushing
    && 0 <= s.skipFlushes <= BackoffTicks
    && WithinCapacity(s.pending, opts.maxQueueLength)
  }

  /** The timer events the reporter reacts to: a snapshot of the given samples, or a flush
      tick whose posts end as `post` says. */
  datatype Event = SnapshotEvent(samples: seq<string>) | FlushEvent(post: nat -> PostOutcome)

  /** The state after a run of events, one at a time. */
  function Run(opts: Options, s: FlushState, events: seq<Event>): FlushState
    requires opts.batchSize > 0
    decreases |events|
  {
    if |events| == 0 then s
    else
      var next := match events[0]
        case SnapshotEvent(samples) => Snapshot(opts, s, samples).0
        case FlushEvent(post) => FlushTick(opts, s, post).state;
      Run(opts, next, events[1..])
  }

  /** A tick from an idle state leaves the state idle: the flag is released on every path,
      the counter stays between 0 and `BackoffTicks`, and the queue stays within capacity. */
  lemma FlushTickKeepsIdle(opts: Options, s: FlushState, post: nat -> PostOutcome)
    requires opts.batchSize > 0 && Idle(opts, s)
    ensures Idle(opts, FlushTick(opts, s, post).state)
  {
  }

  /** Any run of snapshots and flush ticks from an idle state ends idle; in particular the
      queue never holds more than `MaxQueueLength` samples. */
  lemma {:induction false} RunKeepsIdle(opts: Options, s: FlushState, events: seq<Event>)
    requires opts.batchSize > 0 && Idle(opts, s)
    ensures Idle(opts, Run(opts, s, events))
    decreases |events|
  {
    if |events| > 0 {
      match events[0]
      case SnapshotEvent(samples) =>
        RunKeepsIdle(opts, Snapshot(opts, s, samples).0, events[1..]);
      case FlushEvent(post) =>
        FlushTickKeepsIdle(opts, s, post);
        RunKeepsIdle(opts, FlushTick(opts, s, post).state, events[1..]);
    }
  }

  /** A tick that starts while another tick holds the flag posts nothing and changes
      nothing: at most one post is in flight. */
  lemma OverlappingTickIsNoOp(opts: Options, s: FlushState, post: nat -> PostOutcome, other: nat -> PostOutcome)
    requires opts.batchSize > 0 && !s.isFlushing
    ensures var held := TryAcquire(s).value;
            var overlapping := FlushTick(opts, held, other);
            overlapping.log == [] && overlapping.state == held
            && !FlushBody(opts, held, post).state.isFlushing
  {
  }

  /** When no post fails, a tick with no backoff pending drains the whole queue in order
      and leaves it empty; with no URL every batch is dropped and none is re-queued. */
  lemma {:induction false} NoFailureDrainsQueue(opts: Options, q: seq<string>, post: nat -> PostOutcome, k: nat)
    requires opts.batchSize > 0
    requires forall j :: post(j) != PostFail
    ensures var d := Drain(opts, q, post, k);
            d.end == AllSent && d.queue == [] && Consumed(d.log) == q
    decreases |q|
  {
    if |q| > 0 {
      var step := FlushBatch(opts, q, post(k));
      NoFailureDrainsQueue(opts, step.queue, post, k + 1);
    }
  }

  /** A whole tick with no failing post and no backoff pending: everything queued is
      posted (or dropped for want of a URL) and the queue ends empty. */
  lemma NoFailureTickFlushes(opts: Options, s: FlushState, post: nat -> PostOutcome)
    requires opts.batchSize > 0 && !s.isFlushing && s.skipFlushes <= 0
    requires forall j :: post(j) != PostFail
    ensures var r := FlushTick(opts, s, post);
            r.outcome == Flushed && r.state.pending == [] && Consumed(r.log) == s.pending
  {
    NoFailureDrainsQueue(opts, s.pending, post, 0);
  }

  /** After a failed post the next four ticks only count the backoff down, leaving the
      queue alone and posting nothing; the fifth tick flushes again. */
  lemma BackoffSkipsFourTicks(opts: Options, s: FlushState, posts: seq<nat -> PostOutcome>)
    requires opts.batchSize > 0 && !s.isFlushing && s.skipFlushes == BackoffTicks
    requires |posts| == 5
    ensures var t1 := FlushTick(opts, s, posts[0]);
            var t2 := FlushTick(opts, t1.state, posts[1]);
            var t3 := FlushTick(opts, t2.state, posts[2]);
            var t4 := FlushTick(opts, t3.state, posts[3]);
            var t5 := FlushTick(opts, t4.state, posts[4]);
            && t1.outcome == BackedOff && t2.outcome == BackedOff
            && t3.outcome == BackedOff && t4.outcome == BackedOff
            && t1.log == [] && t2.log == [] && t3.log == [] && t4.log == []
            && t4.state == FlushState(false, 0, s.pending)
            && t5.outcome != BackedOff && t5.outcome != AlreadyFlushing
  {
  }

  /** Capacity 3 and batch size 2: a snapshot of five samples keeps the first three and
      reports queue-full; one tick whose posts succeed sends [s1, s2] and then [s3]. */
  lemma SnapshotThenFlushScenario()
    ensures var opts := Options(3, 2, false, true);
            var snap := Snapshot(opts, InitialState, ["s1", "s2", "s3", "s4", "s5"]);
            var tick := FlushTick(opts, snap.0, (k: nat) => Ok);
            && snap.0.pending == ["s1", "s2", "s3"]
            && snap.1
            && tick.outcome == Flushed
            && tick.log == [Attempt(["s1", "s2"], Ok), Attempt(["s3"], Ok)]
            && tick.state == InitialState
  {
    var opts := Options(3, 2, false, true);
    var snap := Snapshot(opts, InitialState, ["s1", "s2", "s3", "s4", "s5"]);
    assert snap.0.pending == ["s1", "s2", "s3"];
    var q := ["s1", "s2", "s3"];
    assert q[..2] == ["s1", "s2"] && q[2..] == ["s3"];
  }

  /** A failed post puts its batch behind the samples still queued: with [a, b, c] queued
      and batches of two, a failure of the first post leaves [c, a, b] and backs off. */
  lemma FailedBatchGoesToTail()
    ensures var opts := Options(10, 2, false, true);
            var tick := FlushTick(opts, FlushState(false, 0, ["a", "b", "c"]), (k: nat) => PostFail);
            && tick.outcome == PostFailedTick(false)
            && tick.state == FlushState(false, BackoffTicks, ["c", "a", "b"])
            && tick.log == [Attempt(["a", "b"], PostFail)]
  {
    var q := ["a", "b", "c"];
    assert q[..2] == ["a", "b"] && q[2..] == ["c"];
    assert ["c"] + ["a", "b"] == ["c", "a", "b"];
  }

  /** With `ThrowOnQueueFull` set, re-enqueuing a failed batch into a queue it fills throws
      queue-full instead of the post failure, and no backoff is set: [a, b] with capacity 2
      and batches of one ends as [b, a] with the counter still 0. */
  lemma RequeueFillingQueueEscapesBackoff()
    ensures var opts := Options(2, 1, false, true);
            var tick := FlushTick(opts, FlushState(false, 0, ["a", "b"]), (k: nat) => PostFail);
            && tick.outcome == QueueFullEscaped
            && tick.state == FlushState(false, 0, ["b", "a"])
  {
    var q := ["a", "b"];
    assert q[..1] == ["a"] && q[1..] == ["b"];
    assert ["b"] + ["a"] == ["b", "a"];
  }

  /** With no URL every post is skipped and its batch is dropped, not re-queued. */
  lemma NoUrlDropsBatches(opts: Options, s: FlushState)
    requires opts.batchSize > 0 && !s.isFlushing && s.skipFlushes <= 0
    ensures var tick := FlushTick(opts, s, (k: nat) => NoUrl);
            && tick.outcome == Flushed
            && tick.state.pending == []
            && Consumed(tick.log) == s.pending
            && forall i :: 0 <= i < |tick.log| ==> tick.log[i].outcome == NoUrl
  {
    var post := (k: nat) => NoUrl;
    NoFailureTickFlushes(opts, s, post);
    FlushBodyPostsPrefix(opts, s.(isFlushing := true), post);
  }
}
