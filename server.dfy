/** The server's shared state: a map from device id to that device's buffer object, and
    the request handlers that read and update it. Each query handler, and each step of a
    WebSocket session that takes the lock (the handshake, one batch, the deactivation),
    acts on the map's value exactly as the corresponding registry function says. A whole
    session is proved against the session machine run on its events, with no other
    handler interleaved between its steps. */
module Server {
  import opened Frames
  import opened Buffer
  import opened Aggregation
  import opened Registry
  import opened Session

  /** How one turn of the streaming loop ends: go on, leave the loop, or leave the handler. */
  datatype Flow = Continue | Break | Return

  class Connections {
    var entries: map<string, Connection>

    /** Every buffer is well formed, and no buffer object is shared by two ids. */
    ghost predicate Valid()
      reads this, entries.Values
    {
      && (forall k :: k in entries ==> entries[k].Valid())
      && (forall k1, k2 :: k1 in entries && k2 in entries && k1 != k2 ==> entries[k1] != entries[k2])
    }

    /** The registry the map holds, as a value. */
    function State(): DeviceMap
      reads this, entries.Values
    {
      map k | k in entries :: entries[k].Value()
    }

    lemma StateWellFormed()
      requires Valid()
      ensures AllWellFormed(State())
    {
    }

    /** The server starts with no devices. */
    constructor ()
      ensures Valid() && State() == map[]
    {
      entries := map[];
    }

    /** The buffer of `id`, if the device has ever shaken hands. */
    method Get(id: string) returns (c: Option<Connection>)
      ensures c.Some? <==> id in entries
      ensures c.Some? ==> c.value == entries[id]
    {
      if id in entries {
        return Some(entries[id]);
      }
      return None;
    }

    /** The ids of all devices ever seen, each once, in no promised order. */
    method Ids() returns (ids: seq<string>)
      ensures forall k :: k in ids <==> k in entries
      ensures forall i, j :: 0 <= i < j < |ids| ==> ids[i] != ids[j]
    {
      ids := [];
      var rest := entries.Keys;
      while rest != {}
        invariant rest <= entries.Keys
        invariant forall k :: k in ids ==> k in entries && k !in rest
        invariant forall k :: k in entries ==> k in rest || k in ids
        invariant forall i, j :: 0 <= i < j < |ids| ==> ids[i] != ids[j]
        decreases |rest|
      {
        var k :| k in rest;
        ids := ids + [k];
        rest := rest - {k};
      }
    }

    /** Whether device `id` is streaming now. */
    method SensorConnected(id: string) returns (r: Option<bool>)
      requires Valid()
      ensures r == Connected(State(), id)
    {
      var c := Get(id);
      if c.None? {
        return None;
      }
      return Some(c.value.active);
    }

    /** The data of device `id`, whole or down-sampled. */
    method SensorData(id: string, interval: Option<int>, duration: Option<int>) returns (r: Option<View>)
      requires Valid()
      ensures AllWellFormed(State()) && r == Query(State(), id, interval, duration)
    {
      StateWellFormed();
      var c := Get(id);
      if c.None? {
        return None;
      }
      var data := c.value.RecentData();
      var lookback := if duration.Some? then duration.value else DefaultLookback;
      match interval
      case None =>
        r := Some(Raw(data));
      case Some(w) =>
        var buckets := Aggregate(data, w, lookback);
        if buckets.None? {
          return None;
        }
        r := Some(Downsampled(data.columns, buckets.value));
    }

    /** Empties the table of device `id`, if it is known. */
    method SensorDataReset(id: string)
      requires Valid()
      modifies entries.Values
      ensures Valid() && entries == old(entries)
      ensures AllWellFormed(old(State())) && State() == ResetEntry(old(State()), id)
    {
      StateWellFormed();
      var c := Get(id);
      if c.Some? {
        c.value.ResetRecentData();
      }
    }

    /** The handshake: marks the device streaming, creating its buffer if it is new. */
    method Register(id: string)
      requires Valid()
      modifies this, entries.Values
      ensures Valid() && fresh(entries.Values - old(entries.Values))
      ensures AllWellFormed(old(State())) && State() == Activate(old(State()), id)
    {
      StateWellFormed();
      var c := Get(id);
      if c.Some? {
        Reactivate(id, c.value);
      } else {
        Create(id);
      }
    }

    /** Marks the buffer of a known device streaming; its samples stay. */
    method Reactivate(id: string, conn: Connection)
      requires Valid() && id in entries && entries[id] == conn
      modifies conn
      ensures Valid() && entries == old(entries)
      ensures State() == old(State())[id := Entry(true, old(State())[id].data)]
    {
      ghost var before := State();
      assert forall k :: k in entries && k != id ==> entries[k] != conn;
      conn.active := true;
      assert State() == before[id := Entry(true, before[id].data)];
    }

    /** Gives a new device a streaming buffer with an empty table. */
    method Create(id: string)
      requires Valid() && id !in entries
      modifies this
      ensures Valid() && entries.Keys == old(entries.Keys) + {id} && fresh(entries[id])
      ensures forall k :: k in old(entries) ==> entries[k] == old(entries)[k]
      ensures State() == old(State())[id := Entry(true, Empty())]
    {
      ghost var before := State();
      var created := new Connection();
      created.active := true;
      entries := entries[id := created];
      assert forall k :: k in old(entries) ==> entries[k] == old(entries)[k] && entries[k] != created;
      assert State() == before[id := Entry(true, Empty())];
    }

    /** A decoded batch: appended, then trimmed to the retention window only if the append
        succeeded; the outcome is otherwise discarded. */
    method Ingest(id: string, batch: Frame)
      requires Valid() && WellFormed(batch)
      modifies entries.Values
      ensures Valid() && entries == old(entries)
      ensures AllWellFormed(old(State())) && State() == Registry.Ingest(old(State()), id, batch)
    {
      StateWellFormed();
      ghost var before := State();
      var c := Get(id);
      if c.Some? {
        var conn := c.value;
        assert forall k :: k in entries && k != id ==> entries[k] != conn;
        Feed(conn, batch);
        assert State() == before[id := conn.Value()];
      }
    }

    /** The append-then-trim of one batch into one buffer. */
    method Feed(conn: Connection, batch: Frame)
      requires conn.Valid() && WellFormed(batch)
      modifies conn
      ensures conn.Valid() && conn.Value() == IngestEntry(old(conn.Value()), batch)
    {
      var appended := conn.AppendData(batch);
      if appended.Ok? {
        var _ := conn.DiscardOlderThan(Retention);
      }
    }

    /** The end of a session: marks the device not streaming. */
    method Deactivate(id: string)
      requires Valid()
      modifies entries.Values
      ensures Valid() && entries == old(entries)
      ensures AllWellFormed(old(State())) && State() == Registry.Deactivate(old(State()), id)
    {
      StateWellFormed();
      var c := Get(id);
      if c.Some? {
        c.value.active := false;
      }
    }

    /** One WebSocket session, over the events it observes. The first event must be a text
        id; after it, events are handled until the session finishes or the events run out.
        A failed courtesy close ends the handler at once, before the deactivation. */
    method WsData(events: seq<Event>) returns (phase: Phase)
      requires Valid() && AllDecoded(events)
      modifies this, entries.Values
      ensures Valid() && fresh(entries.Values - old(entries.Values))
      ensures AllWellFormed(old(State()))
      ensures phase == Run(Start(old(State())), events).phase
      ensures State() == Run(Start(old(State())), events).registry
    {
      StateWellFormed();
      ghost var reg := State();
      if events == [] {
        return Handshake;
      }
      if !events[0].Text? {
        HandshakeRejected(reg, events);
        return Finished(true);
      }
      var id := events[0].id;
      Register(id);
      PrefixStep(Start(reg), events, 0);
      assert events[..0] == [];
      phase := Serve(id, events, reg);
    }

    /** The streaming part of a session whose handshake, the first event, named `id`:
        batches are ingested until an event ends the loop; a failed courtesy close returns
        at once, otherwise the device is marked not streaming. */
    method Serve(id: string, events: seq<Event>, ghost reg: DeviceMap) returns (phase: Phase)
      requires Valid() && AllWellFormed(reg) && AllDecoded(events) && 1 <= |events|
      requires AllDecoded(events[..1]) && Run(Start(reg), events[..1]) == Session(Streaming(id), State())
      modifies entries.Values
      ensures Valid() && entries == old(entries)
      ensures phase == Run(Start(reg), events).phase
      ensures State() == Run(Start(reg), events).registry
    {
      var i := 1;
      while i < |events|
        invariant 1 <= i <= |events|
        invariant Valid() && entries == old(entries)
        invariant AllDecoded(events[..i])
        invariant Run(Start(reg), events[..i]) == Session(Streaming(id), State())
        decreases |events| - i
      {
        PrefixStep(Start(reg), events, i);
        ghost var current := Session(Streaming(id), State());
        var flow := Handle(id, events[i]);
        if flow == Return {
          FinishedPrefix(Start(reg), events, i + 1);
          return Finished(true);
        }
        if flow == Break {
          break;
        }
        i := i + 1;
      }
      if i == |events| {
        assert events[..i] == events;
        return Streaming(id);
      }
      ghost var last := Session(Streaming(id), State());
      ExitStep(last, events[i], id);
      Deactivate(id);
      FinishedPrefix(Start(reg), events, i + 1);
      phase := Finished(events[i] != CloseFrame);
    }

    /** One turn of the streaming loop. A timeout or the end of the stream sends a close
        frame and leaves the loop, or returns from the handler at once if that send fails;
        the peer's close frame leaves the loop; a batch that decodes is ingested; anything
        else is ignored. */
    method Handle(id: string, e: Event) returns (flow: Flow)
      requires Valid() && Decoded(e)
      modifies entries.Values
      ensures Valid() && entries == old(entries)
      ensures AllWellFormed(old(State()))
      ensures flow == Return <==> e == Timeout(false) || e == StreamEnd(false)
      ensures flow == Break <==> e == CloseFrame || e == Timeout(true) || e == StreamEnd(true)
      ensures flow != Continue ==> State() == old(State())
      ensures flow != Break ==> Step(Session(Streaming(id), old(State())), e) == Session(if flow == Return then Finished(true) else Streaming(id), State())
    {
      StateWellFormed();
      match e {
        case Timeout(sendOk) =>
          return if sendOk then Break else Return;
        case StreamEnd(sendOk) =>
          return if sendOk then Break else Return;
        case CloseFrame =>
          return Break;
        case Binary(Some(batch)) =>
          Ingest(id, batch);
        case _ =>
      }
      return Continue;
    }
  }
}
