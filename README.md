# Telemetry store of the hecate sensor server, in Dafny

The hecate backend receives sensor samples over WebSocket connections, one connection per
device. It keeps a short window of recent samples for each device and serves them,
whole or down-sampled, to a dashboard. This project models that core:

- **The per-device buffer** (`Buffer.Connection`). It holds a streaming flag and a table
  of samples. Appending a batch is a diagonal concatenation over the union of both
  schemas, and it is all or nothing. The trim keeps exactly the rows whose time is
  strictly greater than the newest time minus the retention. The tables and these two
  operations are values in `Frames`.
- **The registry of buffers** (`Server.Connections`). It maps device ids to buffer
  objects, and its handlers list the ids, report whether a device is streaming, query
  its data, reset it, and run a device's WebSocket session. Each query handler, and
  each step of a session that takes the lock (the handshake, one batch, the
  deactivation), is proved to act on the registry's value exactly as a pure function in
  `Registry` says. A whole session is proved to end where `Session.Run` ends on its
  events.
- **The session** (`Session`). This is a state machine over the events a handler
  observes:
  - The first message must be the device's id as text; anything else is answered by a
    close frame and registers nothing.
  - Decoded batches are appended and then trimmed to five minutes.
  - The peer's close frame ends the loop without a reply. A ten-second silence or the
    end of the stream is answered by a close frame and ends it.
  - Afterwards the entry is marked not streaming and keeps its samples.
- **The down-sampled query** (`Aggregation`). The time axis is shifted by a fixed
  epoch and the rows are sorted. They are cut into windows `[k·w, (k+1)·w)` and every
  column of every non-empty window is averaged, the time column included. Only the
  buckets whose mean time is strictly greater than the newest mean time minus the
  lookback are kept. The lookback defaults to one minute.

Three behaviours of the code that a reader might not expect are modelled as written:

- Raw mode applies no lookback filter (backend/src/main.rs:104). Without an interval,
  the query returns the stored table whole.
- A failed courtesy close skips deactivation (backend/src/main.rs:183 and 189). If the
  close frame sent on a timeout or at the end of the stream cannot be sent, the `?`
  returns from the handler at once, and the entry stays marked as streaming.
- Aggregating an empty buffer is not always empty (backend/src/connection.rs:12 and 21).
  A buffer that was never written, or was just reset, holds a table with no columns and
  so no time column, and the down-sampled query fails and gives nothing. A buffer with a
  time column and no rows gives no buckets.

Time is measured in whole nanoseconds. Sample values and means are exact reals.

## Model

| member | source | states |
|---|---|---|
| Frames.Empty | backend/src/connection.rs:12 | the empty table has no columns, no rows and no time column |
| Frames.Union | backend/src/connection.rs:25-28 | the concatenated schema has distinct names, starts with the old columns, and names exactly the columns of either table; on compatible schemas it holds exactly the columns of both |
| Frames.Concat | backend/src/connection.rs:25-28 | a diagonal concatenation fails exactly when a shared column name has two dtypes; otherwise the result is well formed, has the old schema as a prefix and the union of both column sets, and has as many rows as both tables together |
| Frames.ConcatCell | backend/src/connection.rs:25-28 | row `i` of the result is row `i` of the old table, or row `i - n` of the batch when `i` is at or past the old row count `n`: same time and same cell in every column, and null (never a value) in a column its own table lacked |
| Frames.MaxTime | backend/src/connection.rs:38 | `max(time)` is at least every row's time |
| Frames.MaxTimeAttained | backend/src/connection.rs:38 | `max(time)` is the time of some row |
| Frames.Trim | backend/src/connection.rs:34-39 | the filter fails exactly when the table has no time column; otherwise it keeps the schema, and an empty table stays empty |
| Frames.NewerThan | backend/src/connection.rs:38 | the cut-off filter never gives more rows than before, and every row it keeps is strictly newer than the cut-off |
| Frames.NewerThanMembers | backend/src/connection.rs:38 | a row survives the cut-off filter exactly when it was there and its time is strictly greater than the cut-off, so a row at the cut-off itself is dropped |
| Frames.NewerThanAll | backend/src/connection.rs:38 | rows all strictly newer than the cut-off pass the filter unchanged |
| Frames.NewerThanKeepsMax | backend/src/connection.rs:38 | with `d > 0` the filter at `max(time) - d` keeps a row and leaves `max(time)` where it was |
| Frames.TrimKeepsExactly | backend/src/connection.rs:38 | after a trim by `d` the table holds exactly the rows with time strictly greater than `max(time) - d`; a row at the boundary is dropped |
| Frames.NewerThanAppend | backend/src/connection.rs:38 | filtering a concatenation is concatenating the filtered parts, so kept rows stay in their relative order |
| Frames.TrimKeepsNewest | backend/src/connection.rs:38 | with `d > 0` the newest row survives the trim, so `max(time)` does not move |
| Frames.TrimEmptiesAll | backend/src/connection.rs:38 | with `d <= 0` no row survives, not even the newest |
| Frames.TrimIdempotent | backend/src/connection.rs:38 | trimming twice with the same `d` gives the same table as trimming once |
| Buffer.Connection.constructor | backend/src/connection.rs:9-14 | a new buffer is not streaming and holds the empty table |
| Buffer.Connection.RecentData | backend/src/connection.rs:16-18 | the table returned is the one held, and it is well formed |
| Buffer.Connection.ResetRecentData | backend/src/connection.rs:20-22 | the table becomes empty and the streaming flag is untouched |
| Buffer.Connection.AppendData | backend/src/connection.rs:24-31 | fails with a schema mismatch exactly when the schemas clash, leaving the table as it was; otherwise the table becomes the diagonal concatenation of old and new, with the summed row count; the flag is untouched |
| Buffer.Connection.DiscardOlderThan | backend/src/connection.rs:33-41 | fails with a missing-column error exactly when the table has no time column, leaving it as it was; otherwise the table becomes its trim by `d`, with the same columns |
| Aggregation.Window | backend/src/main.rs:111-130 | the window index `k` of time `t` is the one with `k·w <= t + shift < (k+1)·w` on the epoch-shifted axis |
| Aggregation.WindowUnique | backend/src/main.rs:121-130 | no other index's window holds that time |
| Aggregation.WindowMonotone | backend/src/main.rs:121-130 | a later time never falls in an earlier window |
| Aggregation.SortByTime | backend/src/main.rs:120 | the sort returns the rows in time order, as a permutation of the input |
| Aggregation.Runs | backend/src/main.rs:121-130 | cutting sorted rows into runs loses and adds nothing (flattened they are the rows), and each run is non-empty and in one window |
| Aggregation.RunsIncrease | backend/src/main.rs:120-130 | on time-ordered rows the runs' windows strictly increase, so no window is split over two runs |
| Aggregation.WindowRuns | backend/src/main.rs:120-130 | the sort and the group-by as a whole: the runs hold the table's rows with their multiplicities, each run lies in one window, and the windows strictly increase |
| Aggregation.WindowRunExact | backend/src/main.rs:120-130 | run `i` holds exactly the table's rows that fall in its window, each as many times as the table holds it, and no other row |
| Aggregation.MeanTimeBounds | backend/src/main.rs:131 | `MeanTime`, the mean of the time column of a window, lies in `[lo, hi)` when every time of the window does |
| Aggregation.Mean | backend/src/main.rs:131 | a column's mean is null exactly when every cell of it is null |
| Aggregation.MeanOfPresent | backend/src/main.rs:131 | a column's mean is null exactly when all its cells are null, and otherwise lies within any bounds of its non-null cells |
| Aggregation.MeanSkipsNull | backend/src/main.rs:131 | a null cell does not change a column's mean |
| Aggregation.Summarise | backend/src/main.rs:131 | one output row per window, as wide as the schema, whose cell in a column is null exactly when that column is null in every row of the window |
| Aggregation.Buckets | backend/src/main.rs:121-131 | one bucket per non-empty window, never more buckets than rows, each bucket as wide as the schema |
| Aggregation.BucketInWindow | backend/src/main.rs:111-131 | each bucket's mean time lies inside its own window, mapped back to the samples' time axis |
| Aggregation.BucketsIncreasing | backend/src/main.rs:120-131 | bucket times strictly increase |
| Aggregation.Latest | backend/src/main.rs:133 | the newest bucket time is at least every bucket's time and is the time of some bucket |
| Aggregation.NewerBuckets | backend/src/main.rs:133 | a bucket survives the cut-off filter exactly when its time is strictly greater than the cut-off; never more buckets than before |
| Aggregation.Recent | backend/src/main.rs:133 | the lookback keeps exactly the buckets strictly newer than the newest bucket's time minus the lookback; no buckets give none |
| Aggregation.NewerBucketsSuffix | backend/src/main.rs:133 | on increasing bucket times the cut-off filter keeps exactly a suffix: every bucket before the cut point is at or before the cut-off, every one after is strictly later |
| Aggregation.RecentSuffix | backend/src/main.rs:133 | on increasing buckets the lookback keeps a suffix: every bucket before the cut point is at or before `max - lookback`, every one after is strictly later, and with a positive lookback the newest is kept |
| Aggregation.Aggregate | backend/src/main.rs:106-135 | the down-sampled view fails exactly when the table has no time column or the width is not positive; otherwise it has at most one bucket per row, each as wide as the schema, and none for a table without rows |
| Aggregation.AggregateKeepsRecent | backend/src/main.rs:106-135 | on a non-empty table the view is exactly the suffix of all buckets whose mean time is strictly greater than the newest one's minus the lookback |
| Aggregation.TwoSampleExample | backend/src/main.rs:106-135 | samples at 0 s and 1 s with `acc_x` 1.0 and 3.0, in 2 s windows with a 10 s lookback, give one bucket with mean time 0.5 s and `acc_x` 2.0 |
| Registry.Activate | backend/src/main.rs:166-175 | a handshake adds exactly the id to the keys and marks it streaming; an existing entry keeps its table, a new one gets the empty table, with no columns and no time column; every other entry is unchanged |
| Registry.Deactivate | backend/src/main.rs:220-225 | the entry is marked not streaming and keeps its table; the keys and every other entry are unchanged |
| Registry.Ingest | backend/src/main.rs:205-211 | a batch changes only the sender's table, never its streaming flag, and creates no entry |
| Registry.IngestEntry | backend/src/main.rs:207-210 | appending then trimming keeps the table well formed and the flag untouched |
| Registry.IngestRejected | backend/src/main.rs:207-210 | a batch whose schema clashes with the table is dropped whole |
| Registry.IngestAccepted | backend/src/main.rs:207-210 | an accepted timed batch leaves the concatenation trimmed to five minutes, and nothing else changes |
| Registry.IngestKeepsRetention | backend/src/main.rs:207-210 | after an accepted batch, when the joined table has rows, the table holds exactly the old and new rows newer than the newest minus five minutes, and the newest is among them |
| Registry.ResetEntry | backend/src/main.rs:142-148 | a reset replaces the table by the empty table, with no columns and no time column, and keeps the streaming flag; an unknown id changes and creates nothing |
| Registry.Connected | backend/src/main.rs:82-86 | nothing for an unknown id, otherwise the streaming flag |
| Registry.Query | backend/src/main.rs:88-140 | nothing for an unknown id; without an interval, the stored table whole; with one, nothing exactly when the table has no time column or the width is not positive, and otherwise buckets over the stored schema, no more than its rows |
| Registry.FreshTableQuery | backend/src/main.rs:104-135 | a table just reset, or just created by a handshake, answers a down-sampled query with nothing, whatever the width, and a raw query with the empty table |
| Registry.DefaultLookbackIsOneMinute | backend/src/main.rs:98-101 | a query naming no lookback uses one minute |
| Registry.QueryDownsampled | backend/src/main.rs:105-136 | a down-sampled query answers the aggregate of the stored table with the chosen lookback |
| Session.Step | backend/src/main.rs:157-225 | one event: a finished handler ignores it; the handshake is never entered again; the first message starts streaming exactly when it is text; a stream streams only for its own id; when streaming stops a close frame goes out unless the peer sent one; only a text handshake adds an entry |
| Session.Run | backend/src/main.rs:157-225 | after any event the handshake is over; entries are never removed, and none is added once the handshake is over |
| Session.FinishedAbsorbs | backend/src/main.rs:179-227 | once the handler has left its loop, no later event changes anything |
| Session.HandshakeRejected | backend/src/main.rs:157-163 | a first message that is not text gets a close frame and leaves the registry exactly as it was |
| Session.HandshakeRegisters | backend/src/main.rs:157-175 | a text handshake starts streaming with the entry marked streaming, keeping an existing table or starting with the empty table, with no columns and no time column |
| Session.SessionIsolated | backend/src/main.rs:166-225 | a session running alone creates no entry but its own, never touches another device's entry, and keeps its own marked streaming while it streams |
| Session.IgnoredRemovable | backend/src/main.rs:200-216 | a text message, an undecodable binary message or any other message during streaming can be dropped from the events without changing the outcome |
| Session.BatchIngested | backend/src/main.rs:200-212 | a decoded batch during streaming is ingested into the sender's entry; when its schema fits, the entry ends with a time column |
| Session.GracefulExit | backend/src/main.rs:180-197 | after a peer close, or a timeout or stream end whose close frame goes out, the entry is marked not streaming with its table kept, whatever follows; a close frame is sent unless the peer closed |
| Session.FailedCloseStaysActive | backend/src/main.rs:181-191 | when the close frame after a timeout or stream end cannot be sent, the registry stays as it was and the entry stays marked streaming for good |
| Server.Connections.constructor | backend/src/main.rs:30-34 | the server starts with an empty registry |
| Server.Connections.Get | backend/src/main.rs:36-41 | the buffer of a known id, nothing for an unknown one |
| Server.Connections.Ids | backend/src/main.rs:75-80 | the listing holds every registered id exactly once and nothing else |
| Server.Connections.SensorConnected | backend/src/main.rs:82-86 | answers as `Registry.Connected` on the registry's value |
| Server.Connections.SensorData | backend/src/main.rs:88-140 | answers as `Registry.Query` on the registry's value |
| Server.Connections.SensorDataReset | backend/src/main.rs:142-148 | the registry's value becomes its `Registry.ResetEntry`; no entry is created |
| Server.Connections.Register | backend/src/main.rs:165-174 | the registry's value becomes its `Registry.Activate`; only a freshly created buffer is added |
| Server.Connections.Reactivate | backend/src/main.rs:167-168 | a known device's buffer is marked streaming in place: its table and every other entry stay |
| Server.Connections.Create | backend/src/main.rs:169-172 | an unknown device gets a fresh buffer, marked streaming with the empty table; every other entry stays |
| Server.Connections.Ingest | backend/src/main.rs:200-212 | the registry's value becomes its `Registry.Ingest` |
| Server.Connections.Feed | backend/src/main.rs:207-210 | one buffer becomes its `Registry.IngestEntry`: the trim runs only after a successful append |
| Server.Connections.Deactivate | backend/src/main.rs:220-225 | the registry's value becomes its `Registry.Deactivate` |
| Server.Connections.Handle | backend/src/main.rs:180-217 | one turn of the loop: a failed close send returns, a peer close or a sent close leaves the loop with the registry untouched, and otherwise the registry takes one session step |
| Server.Connections.Serve | backend/src/main.rs:179-227 | the loop and the deactivation end in the phase and registry the session machine reaches on the events |
| Server.Connections.WsData | backend/src/main.rs:150-230 | a whole session over the events ends in the phase and registry of `Session.Run` from the registry it started with |

## Left out

- Protobuf decoding and the projection of a message into a table are not part of this
  model. They are an oracle: a binary event carries the decoded batch, or nothing when
  decoding fails.
- The HTTP routing, the static file handlers, the launch setup, the async lock and the
  WebSocket transport are left out. Each query handler runs as one atomic step on the
  registry, as it does under the lock. The ten-second timeout, the end of the stream
  and the outcome of sending a close frame are input events.
- Floating point is left out. Sample values and their means are exact reals, and no
  rounding is modelled.
- `Aggregation.MeanTime`: the mean time of a window is an exact real. The source stores
  it back as whole nanoseconds, so a bucket lying within a nanosecond of the lookback
  cut-off may be kept here where the source drops it, or the reverse.
- Parsing of interval and lookback strings is left out. Both are integer nanoseconds. A
  string that does not parse is not modelled.
- Adding a calendar date to the time column (backend/src/main.rs:111-118) is not
  modelled as the library represents it. The model shifts times by the constant
  `EpochShift`, a whole number of days, as an unbounded integer of nanoseconds. That
  shift lies far outside the 64-bit nanosecond range of the time column, so the
  library's own representation of the shifted time, and any overflow in it, is not
  captured. The properties proved depend only on the shift being a fixed constant, and
  the worked example on its being a whole number of seconds.
- `Aggregation.SortByTime` is one particular stable sort. The source's sort is not
  stable, so rows with equal times may come out in another order. Only the means, which
  do not depend on that order, reach the result.
- Schema clashes are modelled as a dtype tag per column. Allocation failures inside the
  concatenation and the filter are not modelled.
- `Server.Connections.WsData`: events that run out while the session is still streaming
  leave it streaming with the entry marked streaming. The real handler would go on
  waiting for the next message.
- `Server.Connections.WsData`, `Session.SessionIsolated`: interleaving is not modelled.
  A session takes the lock three separate times (backend/src/main.rs:167, 205 and 221)
  and awaits the socket in between, so other handlers can run between its steps. A
  device that reconnects before its stale handler times out is one such case: the stale
  handler then marks the entry not streaming while the new session still streams. The
  model runs a session with nothing interleaved, so "marked streaming while it streams"
  holds only for a session running alone.
- `Session.Step`: the source's handshake waits without a timeout. A timeout event
  before the handshake, which the source cannot produce, is treated like any other
  first message that is not text.
- The dashboard UI, the build script and the shared crate are outside the server's
  core.
