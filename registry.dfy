/** The registry of device buffers as a value, keyed by device id, and the operations the
    server performs on it while holding its lock: activating an entry on a handshake,
    ingesting a batch, deactivating, resetting, and the read-only queries. Entries are
    created only by a handshake and never removed. */
module Registry {
  import opened Frames
  import opened Buffer
  import opened Aggregation

  type DeviceMap = map<string, Entry>

  predicate AllWellFormed(reg: DeviceMap) {
    forall k :: k in reg ==> WellFormed(reg[k].data)
  }

  /** How long a buffer keeps samples: five minutes. */
  const Retention: int := 5 * 60 * NanosPerSecond

  /** The lookback of a down-sampled query that names none: one minute. */
  const DefaultLookback: int := 60 * NanosPerSecond

  /** A handshake from `id`: its entry is marked streaming, keeping its samples, or a new
      streaming entry with an empty table is created. */
  function Activate(reg: DeviceMap, id: string): (r: DeviceMap)
    requires AllWellFormed(reg)
    ensures AllWellFormed(r)
    ensures r.Keys == reg.Keys + {id}
    ensures r[id].active
    ensures id in reg ==> r[id].data == reg[id].data
    ensures id !in reg ==> r[id].data == Empty()
    ensures forall k :: k in reg && k != id ==> r[k] == reg[k]
  {
    if id in reg then reg[id := reg[id].(active := true)]
    else reg[id := Entry(true, Empty())]
  }

  /** The end of a session: the entry is marked not streaming and keeps its samples. An
      unknown id changes nothing. */
  function Deactivate(reg: DeviceMap, id: string): (r: DeviceMap)
    requires AllWellFormed(reg)
    ensures AllWellFormed(r)
    ensures r.Keys == reg.Keys
    ensures id in reg ==> !r[id].active && r[id].data == reg[id].data
    ensures forall k :: k in reg && k != id ==> r[k] == reg[k]
  {
    if id in reg then reg[id := reg[id].(active := false)] else reg
  }

  /** A decoded batch from `id`: appended to its table, and the result trimmed to the
      retention window. A failed append leaves the registry as it was; a failed trim keeps
      the appended table. An unknown id changes nothing. */
  function Ingest(reg: DeviceMap, id: string, batch: Frame): (r: DeviceMap)
    requires AllWellFormed(reg) && WellFormed(batch)
    ensures AllWellFormed(r)
    ensures r.Keys == reg.Keys
    ensures id in reg ==> r[id].active == reg[id].active
    ensures forall k :: k in reg && k != id ==> r[k] == reg[k]
  {
    if id in reg then reg[id := IngestEntry(reg[id], batch)] else reg
  }

  /** The effect of a batch on one entry: the batch is appended, and the result trimmed
      to the retention window; a failed append keeps the entry, a failed trim keeps the
      appended table. */
  function IngestEntry(e: Entry, batch: Frame): (r: Entry)
    requires WellFormed(e.data) && WellFormed(batch)
    ensures WellFormed(r.data) && r.active == e.active
  {
    match Concat(e.data, batch)
    case Err(_) => e
    case Ok(joined) =>
      match Trim(joined, Retention)
      case Err(_) => e.(data := joined)
      case Ok(kept) => e.(data := kept)
  }

  /** A batch whose schema clashes with the table held is dropped whole. */
  lemma IngestRejected(reg: DeviceMap, id: string, batch: Frame)
    requires AllWellFormed(reg) && WellFormed(batch) && id in reg
    requires !Compatible(reg[id].data.columns, batch.columns)
    ensures Ingest(reg, id, batch) == reg
  {
  }

  /** An accepted batch with a time column leaves the entry holding the appended table
      trimmed to the retention window, and nothing else changes. */
  lemma IngestAccepted(reg: DeviceMap, id: string, batch: Frame)
    requires AllWellFormed(reg) && WellFormed(batch) && id in reg && batch.timed
    requires Compatible(reg[id].data.columns, batch.columns)
    ensures var joined := Concat(reg[id].data, batch).value;
      && joined.timed
      && Ingest(reg, id, batch) == reg[id := reg[id].(data := Trim(joined, Retention).value)]
  {
  }

  /** After a batch with a time column is accepted, and the old table and the batch hold
      at least one row between them, the table holds exactly the rows of the old table
      followed by the batch that are strictly newer than the newest of them minus five
      minutes, in their order; the newest row is among them. */
  lemma IngestKeepsRetention(reg: DeviceMap, id: string, batch: Frame)
    requires AllWellFormed(reg) && WellFormed(batch) && id in reg && batch.timed
    requires reg[id].data.rows != [] || batch.rows != []
    requires Compatible(reg[id].data.columns, batch.columns)
    ensures var joined := Concat(reg[id].data, batch).value;
      var data := Ingest(reg, id, batch)[id].data;
      && data.columns == joined.columns
      && (forall x :: x in data.rows <==> x in joined.rows && x.time > MaxTime(joined.rows) - Retention)
      && (exists x :: x in data.rows && x.time == MaxTime(joined.rows))
  {
    var joined := Concat(reg[id].data, batch).value;
    IngestAccepted(reg, id, batch);
    assert joined.rows != [];
    TrimKeepsExactly(joined, Retention);
    TrimKeepsNewest(joined, Retention);
    var kept := Trim(joined, Retention).value;
    assert Ingest(reg, id, batch)[id].data == kept;
    MaxTimeAttained(kept.rows);
    var i :| 0 <= i < |kept.rows| && kept.rows[i].time == MaxTime(kept.rows);
    assert kept.rows[i] in kept.rows;
  }

  /** A reset from the dashboard: the entry's table is emptied and its streaming flag kept.
      An unknown id changes nothing and creates nothing. */
  function ResetEntry(reg: DeviceMap, id: string): (r: DeviceMap)
    requires AllWellFormed(reg)
    ensures AllWellFormed(r)
    ensures r.Keys == reg.Keys
    ensures id in reg ==> r[id].active == reg[id].active && r[id].data == Empty()
    ensures forall k :: k in reg && k != id ==> r[k] == reg[k]
  {
    if id in reg then reg[id := reg[id].(data := Empty())] else reg
  }

  /** Whether a device is streaming now; nothing for an unknown id. */
  function Connected(reg: DeviceMap, id: string): (r: Option<bool>)
    ensures r.None? <==> id !in reg
    ensures r.Some? ==> r.value == reg[id].active
  {
    if id in reg then Some(reg[id].active) else None
  }

  /** What a data query answers: the stored table itself, or one mean row per window. */
  datatype View =
    | Raw(table: Frame)
    | Downsampled(columns: seq<Column>, buckets: seq<Bucket>)

  /** The data query. Without an interval the stored table is returned whole, with no
      lookback applied. With an interval `w` the table is down-sampled into windows of
      width `w` and only the buckets within the lookback of the newest are kept; the
      lookback defaults to one minute. An unknown id, or an aggregation that fails, gives
      nothing. */
  function Query(reg: DeviceMap, id: string, interval: Option<int>, duration: Option<int>): (r: Option<View>)
    requires AllWellFormed(reg)
    ensures id !in reg ==> r.None?
    ensures id in reg && interval.None? ==> r == Some(Raw(reg[id].data))
    ensures id in reg && interval.Some? ==> (r.None? <==> !reg[id].data.timed || interval.value <= 0)
    ensures r.Some? && interval.Some? ==>
      && r.value.Downsampled?
      && r.value.columns == reg[id].data.columns
      && |r.value.buckets| <= |reg[id].data.rows|
      && forall b :: b in r.value.buckets ==> |b.cells| == |reg[id].data.columns|
  {
    if id !in reg then None
    else
      var data := reg[id].data;
      var lookback := if duration.Some? then duration.value else DefaultLookback;
      match interval
      case None => Some(Raw(data))
      case Some(w) =>
        match Aggregate(data, w, lookback)
        case None => None
        case Some(bs) => Some(Downsampled(data.columns, bs))
  }

  /** A table just reset, or just created by a handshake, has no time column: a down-sampled
      query of it fails whatever the width, while a raw query answers the empty table. */
  lemma FreshTableQuery(reg: DeviceMap, id: string, w: int, duration: Option<int>)
    requires AllWellFormed(reg)
    ensures id in reg ==> Query(ResetEntry(reg, id), id, Some(w), duration) == None
    ensures id in reg ==> Query(ResetEntry(reg, id), id, None, duration) == Some(Raw(Empty()))
    ensures id !in reg ==> Query(Activate(reg, id), id, Some(w), duration) == None
    ensures id !in reg ==> Query(Activate(reg, id), id, None, duration) == Some(Raw(Empty()))
  {
  }

  /** A query that names no lookback uses one minute. This only unfolds `Query`; it is
      spelled out so that callers can rely on the default without reading the body. */
  lemma DefaultLookbackIsOneMinute(reg: DeviceMap, id: string, interval: Option<int>)
    requires AllWellFormed(reg)
    ensures DefaultLookback == 60_000_000_000
    ensures Query(reg, id, interval, None) == Query(reg, id, interval, Some(DefaultLookback))
  {
  }

  /** A down-sampled query answers the aggregate of the stored table. This only unfolds
      `Query`; it links the handler to the properties proved about `Aggregate`. */
  lemma QueryDownsampled(reg: DeviceMap, id: string, w: int, duration: Option<int>)
    requires AllWellFormed(reg) && id in reg && w > 0 && reg[id].data.timed
    ensures var lookback := if duration.Some? then duration.value else DefaultLookback;
      && Aggregate(reg[id].data, w, lookback).Some?
      && Query(reg, id, Some(w), duration) == Some(Downsampled(reg[id].data.columns, Aggregate(reg[id].data, w, lookback).value))
  {
  }
}
