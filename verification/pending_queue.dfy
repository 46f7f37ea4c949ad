/** The bounded queue of serialized samples waiting to be posted. A `null` list in the
    reporter is the empty sequence here. */
module PendingQueue {

  /** LINQ's `Take(n)`: the first `n` elements, all of them when `n` exceeds the length,
      none when `n` is zero or negative. */
  function Take<T>(s: seq<T>, n: int): (r: seq<T>)
    ensures |r| == if n <= 0 then 0 else if n < |s| then n else |s|
    ensures r == s[..|r|]
  {
    if n <= 0 then [] else if n < |s| then s[..n] else s
  }

  /** The capacity as a length bound: a negative `MaxQueueLength` admits no element. */
  function Capacity(maxQueueLength: int): nat {
    if maxQueueLength < 0 then 0 else maxQueueLength
  }

  /** How many incoming elements fit behind a queue of `queued` elements: all of them,
      or as many as the remaining capacity allows. */
  function Admitted(queued: nat, incoming: nat, maxQueueLength: int): nat {
    if maxQueueLength - queued <= 0 then 0
    else if incoming < maxQueueLength - queued then incoming
    else maxQueueLength - queued
  }

  /** The queue holds no more elements than its capacity. */
  predicate WithinCapacity(q: seq<string>, maxQueueLength: int) {
    |q| <= Capacity(maxQueueLength)
  }

  /** The queue after `EnqueueMetrics`, and whether it threw the queue-full exception.
      The exception is thrown after the elements have been appended. */
  datatype Enqueued = Enqueued(queue: seq<string>, queueFull: bool)

  /** `EnqueueMetrics`: append as many of `incoming` as the remaining capacity admits,
      dropping the rest; then report queue-full when the length is exactly the maximum. */
  function Enqueue(q: seq<string>, incoming: seq<string>, maxQueueLength: int, throwOnQueueFull: bool)
    : (r: Enqueued)
    ensures |r.queue| >= |q| && r.queue[..|q|] == q
    ensures var added := r.queue[|q|..];
            && |added| == Admitted(|q|, |incoming|, maxQueueLength)
            && added == incoming[..|added|]
    ensures WithinCapacity(q, maxQueueLength) ==> WithinCapacity(r.queue, maxQueueLength)
    ensures r.queueFull <==> throwOnQueueFull && |r.queue| == maxQueueLength
  {
    var queue :=
      if |q| == 0 then Take(incoming, maxQueueLength)
      else q + Take(incoming, maxQueueLength - |q|);
    assert queue[..|q|] == q;
    Enqueued(queue, throwOnQueueFull && |queue| == maxQueueLength)
  }

  /** A batch taken from the head of the queue, and the queue left behind. */
  datatype Dequeued = Dequeued(batch: seq<string>, queue: seq<string>)

  /** `DequeueMetricsBatch`: the whole queue when it holds at most `batchSize` elements,
      otherwise its first `batchSize` elements. */
  function Dequeue(q: seq<string>, batchSize: nat): (r: Dequeued)
    ensures r.batch + r.queue == q
    ensures |q| <= batchSize ==> r.batch == q && r.queue == []
    ensures |q| > batchSize ==> |r.batch| == batchSize
  {
    if |q| == 0 then Dequeued([], [])
    else if |q| <= batchSize then Dequeued(q, [])
    else Dequeued(q[..batchSize], q[batchSize..])
  }

  /** Elements that fit are never reordered or dropped: enqueuing onto an empty queue
      and dequeuing a batch returns the first samples in their original order. */
  lemma {:induction false} EnqueueThenDequeue(incoming: seq<string>, maxQueueLength: int, throwOnQueueFull: bool, batchSize: nat)
    requires 0 < batchSize <= maxQueueLength
    ensures var e := Enqueue([], incoming, maxQueueLength, throwOnQueueFull);
            var d := Dequeue(e.queue, batchSize);
            d.batch == incoming[..if |incoming| < batchSize then |incoming| else batchSize]
  {
    var e := Enqueue([], incoming, maxQueueLength, throwOnQueueFull);
    assert e.queue == e.queue[0..];
  }

  /** Enqueuing nothing changes nothing but may still report queue-full, as the length
      check runs whether or not anything was appended. */
  lemma EnqueueNothingKeepsQueue(q: seq<string>, maxQueueLength: int, throwOnQueueFull: bool)
    ensures var r := Enqueue(q, [], maxQueueLength, throwOnQueueFull);
            r.queue == q && (r.queueFull <==> throwOnQueueFull && |q| == maxQueueLength)
  {
    var r := Enqueue(q, [], maxQueueLength, throwOnQueueFull);
    assert r.queue == r.queue[..|q|];
  }
}
