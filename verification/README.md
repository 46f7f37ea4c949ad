# BosunReporter core, modelled in Dafny

BosunReporter is an in-process metrics reporter. Application code registers named, tagged
metrics. A snapshot timer serializes them into a bounded pending queue. A flush timer
drains the queue in batches and posts each batch to a Bosun endpoint, backing off after a
failed post. A metadata timer posts one metadata set per distinct metric name.

This project models the state-keeping half of the `BosunReporter` class. Each part is a
pure transition over immutable state:

- `Registry` (`registry.dfy`): `GetMetric` over the three registry maps. These are root
  name → type, name+suffix → root name, and name+serialized tags → metric. Registration is
  a check phase (root-type guard, then every suffix) followed by a commit phase.
  `Validation.IsValidMetricName` is not part of this model. It is a parameter
  `isValid: string -> bool`.
- `PendingQueue` (`pending_queue.dfy`): `EnqueueMetrics` appends with truncation to
  `MaxQueueLength` and raises queue-full after the append. `DequeueMetricsBatch` removes a
  batch from the head. A `null` list is the empty sequence.
- `Payload` (`payload.dfy`): the body `'[' + String.Join(",", batch) + ']'` of a batch post,
  and the reading a receiver applies to it. The reading splits at commas outside every
  bracket and string literal, because each sample is a JSON object with commas of its own.
- `Flush` (`flush.dfy`): the `Flush`/`FlushBatch` state machine over the `_isFlushing`
  flag, the `_skipFlushes` counter and the queue. It also has `Snapshot`, which enqueues
  caller-supplied samples. The HTTP post is an outcome `Ok | PostFail | NoUrl` supplied
  by the environment per attempt. `NoUrl` is the null-URL path, where the batch is dropped.
- `MetaData` (`metadata.dfy`): `GatherMetaData`. It skips nulls and names already seen,
  so the first metric with each name wins.
- `Reporter` (`reporter.dfy`): the constructor's prefix check, the initial state, and
  registration through the reporter's prefix.

Some consequences of the code that the model makes explicit:

- A failed batch goes back through `EnqueueMetrics`, so it lands at the **tail** of the
  queue, behind the samples still waiting. See `Flush.FailedBatchGoesToTail`.
- One flush tick drains the whole queue, batch after batch, until a post fails. See
  `Flush.SnapshotThenFlushScenario`.
- The root-type conflict check runs only when the root name is already a claimed
  name+suffix (see Findings).
- The cast of an existing instance to the requested type happens after the claims are
  written, so a registration that throws there has already changed the registry.
- Names are validated only in the form name+suffix, and only after the root-type check.
  The prefix alone is validated once, by the constructor.
- A queue-full exception thrown while re-enqueuing a failed batch is not a
  `BosunPostException`. It escapes `Flush` without setting the backoff. See
  `Flush.RequeueFillingQueueEscapesBackoff`.

## Model

| member | source | states |
|---|---|---|
| Registry.GetMetric | BosunReporter/BosunReporter.cs:95-149 | Registration throws exactly when the prefixed name is taken as a claimed name by something other than a root of the same type, when some name+suffix is invalid or owned by another root, or when an instance with the same name and tags exists and is not of the requested type. The first two kinds of exception are thrown by the checks and leave all three maps unchanged. Otherwise the commit runs in full, and the cast exception comes after it. |
| Registry.RootNameCheck | BosunReporter/BosunReporter.cs:98-112 | The first guard fires exactly when the name is in the suffix map and is not a root of the requested type. When the name is a root of another type, the error is a type conflict naming that type. |
| Registry.OwnerType | BosunReporter/BosunReporter.cs:108-111 | The owner type quoted in a suffix-conflict message can always be looked up in a valid registry. |
| Registry.SuffixCheck | BosunReporter/BosunReporter.cs:114-130 | The suffix pass passes exactly when every name+suffix is valid and free or owned by this root. Otherwise the error names the first failing name+suffix, and it is an invalid-name error exactly when that name is invalid. |
| Registry.ClaimSuffixes | BosunReporter/BosunReporter.cs:132-135 | The commit loop adds exactly the names name+suffix, each mapped to the root. Every other claim keeps its owner. |
| Registry.Commit | BosunReporter/BosunReporter.cs:132-148 | The commit claims every suffix and the root type, and every other claim keeps its owner. With an existing name+tags key it leaves the instance map unchanged. It returns the stored instance when that is of the requested type, and otherwise throws the cast exception with the claims already written. With a new key it adds exactly one entry, the supplied metric renamed to the prefixed name. |
| Registry.CommitAgainChangesNothing | BosunReporter/BosunReporter.cs:132-143 | A commit whose claims are all in place and whose instance is stored with the requested type returns that instance and changes nothing. |
| Registry.GetMetricClaims | BosunReporter/BosunReporter.cs:132-148 | Once the checks pass, name+s maps to the prefixed name for every suffix s and the root maps to T, even when the call then throws. Every other claim keeps its owner. An existing instance is returned when it is a T, and the call throws when it is not. Otherwise the supplied metric, renamed to the prefixed name, is returned and stored next to the instances already there. |
| Registry.GetMetricPreservesValid | BosunReporter/BosunReporter.cs:132-147 | Registration keeps the registry invariant, even when it throws on the cast: every suffix claim points to a claimed root, and every instance sits under its own name followed by its tags. |
| Registry.GetMetricIdempotent | BosunReporter/BosunReporter.cs:141-143 | Registering the same name, type and tags twice, with instances of that type, returns the first call's instance, and the second call leaves the registry unchanged. |
| Registry.TypeConflictWhenRootIsClaimedName | BosunReporter/BosunReporter.cs:98-106 | When the first type's suffixes include "", a second type at the same root fails with a type conflict and changes nothing. |
| Registry.GetMetricOverwritesRootType | BosunReporter/BosunReporter.cs:98-143 | Counterexample for the code as written: a counter registered over an aggregate gauge whose only suffix is "_max" passes the checks and overwrites the root's type. With other tags it succeeds. With the gauge's tags it throws on the cast after the overwrite and the claim of "foo" are written. |
| Registry.GaugeAtFoo | BosunReporter/BosunReporter.cs:132-148 | The counterexample's first registration claims "foo" for the gauge and "foo_max" for "foo", and stores the gauge under "foo". |
| Registry.GetMetricStrict | BosunReporter/BosunReporter.cs:98-143 | Corrected registration: it also fails whenever the root is claimed by another type. Every failure, including the cast, leaves the registry unchanged, and a success commits exactly as the code does. |
| Registry.GetMetricStrictKeepsClaims | BosunReporter/BosunReporter.cs:96-138 | Under the corrected guard no claim is ever reassigned: every root keeps its type and every name+suffix keeps its root. |
| Registry.GetMetricStrictTypeConflict | BosunReporter/BosunReporter.cs:98-106 | Under the corrected guard, once a root is claimed, any other type at that name fails with a type conflict, whatever its suffixes. |
| Registry.GetMetricStrictRefusesTakeover | BosunReporter/BosunReporter.cs:98-143 | Both takeovers of the counterexample are refused with a type conflict under the corrected registration, with nothing changed, and the gauge keeps the root. |
| PendingQueue.Take | BosunReporter/BosunReporter.cs:293-297 | `Take(n)` yields the first min(n, length) elements, and none when n ≤ 0. |
| PendingQueue.Enqueue | BosunReporter/BosunReporter.cs:287-303 | The new queue is the old queue followed by a prefix of the input, as long as the remaining capacity allows. A queue within capacity stays within capacity. Queue-full is raised exactly when `ThrowOnQueueFull` is set and the new length equals `MaxQueueLength`, and the appended samples stay queued. |
| PendingQueue.Dequeue | BosunReporter/BosunReporter.cs:305-325 | The batch followed by the remaining queue is the old queue. A queue of at most `BatchSize` samples is taken whole and the queue becomes empty. Otherwise the batch holds exactly `BatchSize` samples. |
| PendingQueue.EnqueueThenDequeue | BosunReporter/BosunReporter.cs:287-324 | Samples enqueued onto an empty queue come back out of the first batch in their original order. |
| PendingQueue.EnqueueNothingKeepsQueue | BosunReporter/BosunReporter.cs:297-301 | Enqueuing nothing leaves the queue unchanged, but still raises queue-full when the queue is exactly full. |
| Payload.Body | BosunReporter/BosunReporter.cs:212 | A receiver reads the posted body back as exactly the batch, sample by sample and in order, whenever every sample is a JSON value with its brackets and strings closed. |
| Payload.ParseJoin | BosunReporter/BosunReporter.cs:212 | The bracketed comma-join of such a batch, the empty batch included, parses back to the batch. |
| Payload.SplitJoin | BosunReporter/BosunReporter.cs:212 | Splitting the comma-join of a non-empty batch at its top-level commas gives back the batch, commas inside samples included. |
| Payload.TopCommaAppend | BosunReporter/BosunReporter.cs:212 | Past a sample with no top-level comma, the next separator is found by reading on from where the sample left off. |
| Payload.ScanOverAppend | BosunReporter/BosunReporter.cs:212 | Reading two stretches of text in turn is reading their concatenation. |
| Payload.TwoSampleBody | BosunReporter/BosunReporter.cs:212 | A two-sample body, one sample with a comma inside brackets and one with a comma inside a string, reads back as those two samples. |
| Payload.ObjectSampleIsElement | BosunReporter/BosunReporter.cs:212 | A JSON object with two fields, and so a comma, is a single array element. |
| Flush.FlushBatch | BosunReporter/BosunReporter.cs:204-225 | An empty queue posts nothing. Otherwise one non-empty batch of at most `BatchSize` is posted. On success or with no URL it leaves the queue. On failure it is appended at the tail, truncated to capacity, and queue-full replaces the post failure exactly when the re-enqueue fills the queue under `ThrowOnQueueFull`. |
| Flush.Drain | BosunReporter/BosunReporter.cs:186-189 | The drain loop ends with an empty queue when it ends normally, and it keeps the queue within capacity. |
| Flush.DrainLogWellFormed | BosunReporter/BosunReporter.cs:186-189 | Every posted batch is non-empty, at most `BatchSize` long, and meets the outcome of its own attempt. |
| Flush.DrainConsumesPrefix | BosunReporter/BosunReporter.cs:186-189 | The posted batches are consecutive slices from the head of the queue. When the drain ends normally they are the whole queue, in order. |
| Flush.DrainPostsParsableBodies | BosunReporter/BosunReporter.cs:186-216 | When the queue holds JSON samples, every body the drain posts reads back as exactly its own batch: batching never splits or merges a sample. |
| Flush.DrainSucceedsIffNoPostFailed | BosunReporter/BosunReporter.cs:186-191 | The drain ends normally exactly when none of its posts failed. |
| Flush.DrainStopsAtFailure | BosunReporter/BosunReporter.cs:214-224 | A failed post ends the drain. The queue is then the untouched remainder followed by the failed batch, truncated to capacity, and queue-full escapes exactly when that fills the queue under `ThrowOnQueueFull`. |
| Flush.FirstBatchFailed | BosunReporter/BosunReporter.cs:218-224 | When the first batch's post fails, the drain stops with that batch re-enqueued at the tail. |
| Flush.TryAcquire | BosunReporter/BosunReporter.cs:172-176 | The flag is taken exactly when it was free, and nothing else changes. |
| Flush.FlushBody | BosunReporter/BosunReporter.cs:178-201 | Every path releases the flag. A positive counter is decremented, and nothing is posted or dequeued. A normal flush empties the queue. A post failure sets the counter to 4 and is rethrown exactly when `ThrowOnPostFail`. An escaping queue-full leaves the counter alone. |
| Flush.FlushBodyPostsPrefix | BosunReporter/BosunReporter.cs:186-216 | A tick past the backoff check posts consecutive non-empty batches of at most `BatchSize` from the head of the queue. When the queue holds JSON samples, each posted body reads back as its batch. |
| Flush.FlushBodyFlushedIffNoPostFailed | BosunReporter/BosunReporter.cs:186-197 | A tick past the backoff check flushes exactly when no post failed. It has then posted the whole queue in order and left it empty. |
| Flush.FlushBodyFailed | BosunReporter/BosunReporter.cs:191-197 | After a failed post the batch sits at the tail of the queue, truncated to capacity. The tick then backs off, rethrowing exactly when `ThrowOnPostFail`, or lets queue-full escape exactly when the re-enqueue filled the queue under `ThrowOnQueueFull`. |
| Flush.FlushBodyFromDrain | BosunReporter/BosunReporter.cs:178-201 | Past the backoff check, a tick posts what its drain posts and keeps the queue the drain leaves. It flushes exactly when the drain ends normally, lets queue-full escape exactly when the drain ends on it, and otherwise reports the post failure, rethrown exactly when `ThrowOnPostFail`. |
| Flush.FlushTick | BosunReporter/BosunReporter.cs:169-202 | A tick while flushing changes nothing. Any other tick ends with the flag released. |
| Flush.Snapshot | BosunReporter/BosunReporter.cs:152-167 | A snapshot appends to the queue exactly the leading samples that fit in the remaining capacity, in order, and keeps the queue within capacity. It reports queue-full exactly when `ThrowOnQueueFull` is set and the queue ends at `MaxQueueLength`. It leaves the flag and the counter alone. |
| Flush.FlushTickKeepsIdle | BosunReporter/BosunReporter.cs:169-202 | From an idle state a tick ends idle: the flag is free, the counter is in 0..4, and the queue is within capacity. |
| Flush.RunKeepsIdle | BosunReporter/BosunReporter.cs:152-202 | Any interleaving of snapshots and flush ticks from an idle state ends idle. In particular, the queue never exceeds `MaxQueueLength`. |
| Flush.OverlappingTickIsNoOp | BosunReporter/BosunReporter.cs:171-176 | A tick arriving while another holds the flag posts nothing and changes nothing, and the running tick still releases the flag. |
| Flush.NoFailureDrainsQueue | BosunReporter/BosunReporter.cs:186-189 | When no post fails, the drain posts the whole queue in order and leaves it empty. |
| Flush.NoFailureTickFlushes | BosunReporter/BosunReporter.cs:178-189 | A tick with no backoff pending and no failing post flushes and leaves the queue empty. |
| Flush.BackoffSkipsFourTicks | BosunReporter/BosunReporter.cs:180-184 | With the counter at 4, the next four ticks only count down, posting nothing and leaving the queue alone. The fifth tick flushes. |
| Flush.SnapshotThenFlushScenario | BosunReporter/BosunReporter.cs:186-189 | With capacity 3 and batch size 2, five samples keep three and raise queue-full. One successful tick then posts [s1, s2] and [s3] and empties the queue. |
| Flush.FailedBatchGoesToTail | BosunReporter/BosunReporter.cs:218-223 | [a, b, c] with batches of two and a failing post becomes [c, a, b], and the counter goes to 4. |
| Flush.RequeueFillingQueueEscapesBackoff | BosunReporter/BosunReporter.cs:191-200 | [a, b] with capacity 2, batches of one and a failing post becomes [b, a]. Queue-full escapes and the counter stays 0. |
| Flush.NoUrlDropsBatches | BosunReporter/BosunReporter.cs:230-234 | With no URL, every batch is dropped rather than re-queued, and the queue ends empty. |
| MetaData.GatherMetaData | BosunReporter/BosunReporter.cs:356-371 | The gathered metrics are one per distinct non-null name, each the first with its name in enumeration order, and every name is covered. The metadata list is their descriptions in that order. |
| MetaData.RepresentativesStep | BosunReporter/BosunReporter.cs:361-368 | One more metric of the enumeration is kept exactly when it is non-null and its name has not been seen. |
| MetaData.RepresentativesDistinct | BosunReporter/BosunReporter.cs:363-366 | No two gathered metrics share a name. |
| MetaData.RepresentativesCover | BosunReporter/BosunReporter.cs:361-368 | Every non-null metric's name is among the gathered ones. |
| MetaData.RepresentativesFirst | BosunReporter/BosunReporter.cs:363-366 | Each gathered metric is the first non-null metric with its name. |
| Reporter.NewReporter | BosunReporter/BosunReporter.cs:55-69 | Construction fails exactly for a non-empty prefix that is not a valid metric name. A null prefix means "". The options are stored as given. All three registry maps start empty, which is a valid registry. The flag starts free, the counter at 0 and the queue empty, which is the idle state. |
| Reporter.Register | BosunReporter/BosunReporter.cs:82-96 | Registration through the reporter applies its prefix and keeps the registry invariant. It never reassigns a root's type and touches neither the options nor the flush state. |

## Findings

| source | as written | input that shows it | evidently intended | confidence | as-written member | corrected member |
|---|---|---|---|---|---|---|
| BosunReporter/BosunReporter.cs:98 | The root-type conflict is detected only when the root name is also in the name+suffix map. | Register an aggregate gauge at "foo" whose only suffix is "_max". Then register a counter (suffix "") at "foo". With other tags the second call succeeds, and `_rootNameToType["foo"]` becomes the counter type. With the gauge's tags it throws `InvalidCastException` at line 143, after lines 132-138 have made the counter own "foo" and its root type. | A root claimed by one type is never taken by another (the message on lines 102-105), and a registration that throws leaves the maps consistent (the comment on line 114). | medium; not executed | Registry.GetMetricOverwritesRootType | Registry.GetMetricStrict |

`Reporter.Register` uses the corrected `Registry.GetMetricStrict`. `Registry.GetMetric`
models the code as written.

## Left out

- `PostToBosun` internals (request construction, gzip, headers, stream handling, HTTP status mapping) are I/O. Only the body and the three-way outcome of a post are kept.
- Timers and `Interlocked`: there are no concurrent threads. The flag is a sequential boolean, and an overlapping tick is modelled as a tick that starts while the flag is held.
- `GetSerializedMetrics`: the timestamp, the parallel ordering and the metrics' own `Serialize` are left out. `Snapshot` takes the samples as a parameter.
- The `GetBosunUrl` refresh in `Snapshot` and the URL itself: the URL matters only through the `NoUrl` outcome of a post.
- `PostMetaData`: its null-URL check, JSON serialization and post are I/O. It touches neither the queue nor the backoff state. `BosunMetaData.DefaultMetaData` is a parameter `describe`.
- The enumeration order of `Metrics` (dictionary order) is an input sequence to `GatherMetaData`.
- Reflection-based default construction in `GetMetric` (lines 85-92) and `metric.BosunReporter = this`: the metric is supplied.
- Registry.GetMetric: subclassing of metric types is not modelled. The `(T)` cast at line 143 succeeds exactly when the stored instance's class, `kind`, is `T`, so a stored subclass of `T` is modelled as a failing cast.
- Registry.GetMetric: object identity is not modelled. The source renames the instance in place (line 146), so passing one object under two names leaves the first entry carrying the second name. The model stores a renamed copy, so each entry keeps its own name, and `GatherMetaData` sees two names where the source sees one.
- Serializing a metric (`BosunMetric.Serialize`) is not part of this model. The round trip of `Payload.Body` holds for samples that are JSON values with their brackets and strings closed, as a serialized JSON object is.
- `Validation.IsValidMetricName` is not part of this model. It is a parameter.
- Post failures other than `BosunPostException`, for example exceptions thrown while building the request URL, are not modelled.
- `Flush.FlushTick`: requires `BatchSize > 0`. With 0 the source's drain loop never ends, and a negative `BatchSize` makes `GetRange` throw. `PendingQueue.Dequeue` takes a non-negative batch size.
- `MaxPayloadSize`, `BosunOptions.cs` (a configuration bag) and `SamplingGauge.cs` (floating-point gauge semantics) are outside the modelled core.
