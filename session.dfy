/** One device's WebSocket session, as a state machine driven by what the socket delivers.
    The first message must be the device id as text; after it, decoded binary batches are
    ingested into the device's buffer until the peer closes, ten seconds pass without a
    message, or the stream ends. Then the buffer is marked not streaming and keeps its
    samples, unless sending the courtesy close frame failed, in which case the handler
    has already returned and the buffer stays marked as streaming. */
module Session {
  import opened Frames
  import opened Buffer
  import opened Registry

  /** What the handler observes next. */
  datatype Event =
    | Text(id: string)              // a text message
    | Binary(batch: Option<Frame>)  // a binary message and the batch it decodes to, if it decodes
    | CloseFrame                    // the peer's close frame
    | Other                         // any other message, or a transport error on one
    | Timeout(sendOk: bool)         // ten seconds without a message; whether the close frame then sent goes out
    | StreamEnd(sendOk: bool)       // the stream ended; whether the close frame then sent goes out

  /** `closeSent`: the handler sent, or tried to send, a close frame. */
  datatype Phase = Handshake | Streaming(id: string) | Finished(closeSent: bool)

  datatype Session = Session(phase: Phase, registry: DeviceMap)

  /** A decoded batch is a well-formed table with a time column: the decoder always
      produces one, even for a batch without samples. */
  predicate Decoded(e: Event) {
    e.Binary? && e.batch.Some? ==> WellFormed(e.batch.value) && e.batch.value.timed
  }

  predicate AllDecoded(events: seq<Event>) {
    forall e :: e in events ==> Decoded(e)
  }

  function Start(reg: DeviceMap): Session {
    Session(Handshake, reg)
  }

  /** The handler's reaction to one event. A finished handler ignores everything; the
      handshake is never entered again; the first message starts streaming exactly when it
      is text; a stream only ever streams for its own id; when streaming stops, a close
      frame goes out unless the peer sent one; and only a text handshake adds an entry. */
  function Step(s: Session, e: Event): (r: Session)
    requires AllWellFormed(s.registry) && Decoded(e)
    ensures AllWellFormed(r.registry)
    ensures s.phase.Finished? ==> r == s
    ensures r.phase != Handshake
    ensures s.phase == Handshake ==> (r.phase.Streaming? <==> e.Text?)
    ensures s.phase.Streaming? && r.phase.Streaming? ==> r.phase == s.phase
    ensures s.phase.Streaming? && r.phase.Finished? ==> (r.phase.closeSent <==> !e.CloseFrame?)
    ensures r.registry.Keys == s.registry.Keys + (if s.phase == Handshake && e.Text? then {e.id} else {})
  {
    match s.phase
    case Finished(_) => s
    case Handshake =>
      if e.Text? then Session(Streaming(e.id), Activate(s.registry, e.id))
      else Session(Finished(true), s.registry)
    case Streaming(id) =>
      match e
      case Binary(Some(batch)) => s.(registry := Ingest(s.registry, id, batch))
      case CloseFrame => Session(Finished(false), Deactivate(s.registry, id))
      case Timeout(ok) => Session(Finished(true), if ok then Deactivate(s.registry, id) else s.registry)
      case StreamEnd(ok) => Session(Finished(true), if ok then Deactivate(s.registry, id) else s.registry)
      case _ => s
  }

  /** The session after a sequence of events. Once any event has arrived the handshake is
      over; entries are never removed, and none is added once the handshake is over. */
  function Run(s: Session, events: seq<Event>): (r: Session)
    requires AllWellFormed(s.registry) && AllDecoded(events)
    ensures AllWellFormed(r.registry)
    ensures events != [] || s.phase != Handshake ==> r.phase != Handshake
    ensures s.registry.Keys <= r.registry.Keys
    ensures s.phase != Handshake ==> r.registry.Keys == s.registry.Keys
    decreases |events|
  {
    if events == [] then s
    else
      var n := |events| - 1;
      assert events[n] in events;
      DecodedSlices(events, n);
      Step(Run(s, events[..n]), events[n])
  }

  lemma DecodedConcat(a: seq<Event>, b: seq<Event>)
    requires AllDecoded(a) && AllDecoded(b)
    ensures AllDecoded(a + b)
  {
    forall e | e in a + b ensures Decoded(e) {
      assert e in a || e in b;
    }
  }

  /** Running two sequences one after the other is running their concatenation. */
  lemma {:induction false} RunAppend(s: Session, a: seq<Event>, b: seq<Event>)
    requires AllWellFormed(s.registry) && AllDecoded(a) && AllDecoded(b)
    ensures AllDecoded(a + b)
    ensures Run(s, a + b) == Run(Run(s, a), b)
    decreases |b|
  {
    DecodedConcat(a, b);
    if b == [] {
      assert a + b == a;
    } else {
      var n := |b| - 1;
      var ab := a + b;
      DecodedSlices(b, n);
      DecodedConcat(a, b[..n]);
      assert ab[..|ab| - 1] == a + b[..n];
      assert ab[|ab| - 1] == b[n];
      RunAppend(s, a, b[..n]);
      assert Run(s, ab) == Step(Run(s, a + b[..n]), b[n]);
    }
  }

  /** A finished session ignores everything after. */
  lemma {:induction false} FinishedAbsorbs(s: Session, events: seq<Event>)
    requires AllWellFormed(s.registry) && AllDecoded(events) && s.phase.Finished?
    ensures Run(s, events) == s
    decreases |events|
  {
    if events != [] {
      var n := |events| - 1;
      DecodedSlices(events, n);
      FinishedAbsorbs(s, events[..n]);
    }
  }

  lemma DecodedSlices(events: seq<Event>, i: nat)
    requires AllDecoded(events) && i <= |events|
    ensures AllDecoded(events[..i]) && AllDecoded(events[i..])
  {
    forall e | e in events[..i] ensures Decoded(e) {
      var j :| 0 <= j < i && events[..i][j] == e;
      assert events[j] == e;
    }
    forall e | e in events[i..] ensures Decoded(e) {
      var j :| 0 <= j < |events| - i && events[i..][j] == e;
      assert events[i + j] == e;
    }
  }

  /** Running one more event of the same sequence takes one more step. */
  lemma PrefixStep(s: Session, events: seq<Event>, i: nat)
    requires AllWellFormed(s.registry) && AllDecoded(events) && i < |events|
    ensures AllDecoded(events[..i]) && AllDecoded(events[..i + 1]) && Decoded(events[i])
    ensures Run(s, events[..i + 1]) == Step(Run(s, events[..i]), events[i])
  {
    DecodedSlices(events, i);
    DecodedSlices(events, i + 1);
    assert events[i] in events;
    assert events[..i + 1][..i] == events[..i];
  }

  /** Once a prefix of the events has finished the session, the rest changes nothing. */
  lemma FinishedPrefix(s: Session, events: seq<Event>, i: nat)
    requires AllWellFormed(s.registry) && AllDecoded(events) && i <= |events|
    ensures AllDecoded(events[..i])
    ensures Run(s, events[..i]).phase.Finished? ==> Run(s, events) == Run(s, events[..i])
  {
    DecodedSlices(events, i);
    var prefix := Run(s, events[..i]);
    if prefix.phase.Finished? {
      var rest := events[i..];
      assert events[..i] + rest == events;
      RunAppend(s, events[..i], rest);
      assert Run(s, events) == Run(prefix, rest);
      FinishedAbsorbs(prefix, rest);
    }
  }

  /** An event that ends the streaming loop without a failed send: the device is marked
      not streaming, and a close frame is sent unless the peer sent one. */
  lemma ExitStep(s: Session, e: Event, id: string)
    requires AllWellFormed(s.registry) && s.phase == Streaming(id)
    requires e == CloseFrame || e == Timeout(true) || e == StreamEnd(true)
    ensures Step(s, e) == Session(Finished(e != CloseFrame), Deactivate(s.registry, id))
  {
  }

  /** A first message that is not text gets a close frame in reply, and the registry is
      left exactly as it was: nothing is created or activated. */
  lemma HandshakeRejected(reg: DeviceMap, events: seq<Event>)
    requires AllWellFormed(reg) && AllDecoded(events) && events != [] && !events[0].Text?
    ensures Run(Start(reg), events) == Session(Finished(true), reg)
  {
    assert events[0] in events;
    assert events == [events[0]] + events[1..];
    DecodedSlices(events, 1);
    RunAppend(Start(reg), [events[0]], events[1..]);
    assert Run(Start(reg), [events[0]]) == Session(Finished(true), reg) by {
      assert [events[0]][..0] == [];
    }
    FinishedAbsorbs(Session(Finished(true), reg), events[1..]);
  }

  /** What holds of the registry throughout a session that opened with the id `id`: the
      registry has an entry for `id` and no other new one; every other entry is exactly as
      it was before the session; while streaming, the device's entry is marked streaming. */
  predicate Isolated(reg: DeviceMap, id: string, s: Session) {
    && s.phase != Handshake
    && s.registry.Keys == reg.Keys + {id}
    && (forall k :: k in reg && k != id ==> s.registry[k] == reg[k])
    && (s.phase.Streaming? ==> s.phase.id == id && s.registry[id].active)
  }

  /** Every step after the handshake keeps the registry isolated. */
  lemma StepIsolated(reg: DeviceMap, id: string, s: Session, e: Event)
    requires AllWellFormed(s.registry) && Decoded(e) && Isolated(reg, id, s)
    ensures Isolated(reg, id, Step(s, e))
  {
  }

  /** After a text handshake with id `id`, the session keeps the registry isolated: only the
      entry for `id` is ever created or changed, and it is marked streaming as long as the
      session streams. This is the session on its own: no other handler runs between its
      events. */
  lemma {:induction false} SessionIsolated(reg: DeviceMap, id: string, events: seq<Event>)
    requires AllWellFormed(reg) && AllDecoded(events) && events != [] && events[0] == Text(id)
    ensures Isolated(reg, id, Run(Start(reg), events))
    decreases |events|
  {
    var n := |events| - 1;
    PrefixStep(Start(reg), events, n);
    assert events[..n + 1] == events;
    if n == 0 {
      assert events[..n] == [];
    } else {
      assert events[..n][0] == Text(id);
      SessionIsolated(reg, id, events[..n]);
      StepIsolated(reg, id, Run(Start(reg), events[..n]), events[n]);
    }
  }

  /** After a text handshake, the device's entry is marked streaming; an existing entry
      keeps its samples and a new one starts empty. */
  lemma HandshakeRegisters(reg: DeviceMap, id: string)
    requires AllWellFormed(reg)
    ensures var r := Run(Start(reg), [Text(id)]);
      && r.phase == Streaming(id)
      && id in r.registry && r.registry[id].active
      && (id in reg ==> r.registry[id].data == reg[id].data)
      && (id !in reg ==> r.registry[id].data == Empty())
  {
    assert [Text(id)][..0] == [];
  }

  /** Events that change nothing once the handshake is done: any text, undecodable binary
      data, and other messages. */
  predicate Ignored(e: Event) {
    e.Text? || e.Other? || (e.Binary? && e.batch.None?)
  }

  /** An ignored event can be dropped from the sequence without changing the outcome. */
  lemma IgnoredRemovable(s: Session, a: seq<Event>, e: Event, b: seq<Event>)
    requires AllWellFormed(s.registry) && AllDecoded(a) && AllDecoded(b) && Ignored(e)
    requires Run(s, a).phase != Handshake
    ensures AllDecoded(a + [e] + b) && AllDecoded(a + b)
    ensures Run(s, a + [e] + b) == Run(s, a + b)
  {
    assert AllDecoded([e]);
    RunAppend(s, a, [e]);
    assert Run(s, a + [e]) == Run(s, a) by {
      assert (a + [e])[..|a|] == a;
    }
    RunAppend(s, a + [e], b);
    RunAppend(s, a, b);
  }

  /** A decoded batch during streaming is ingested into the device's buffer. When its
      schema fits the buffer's, the buffer ends with a time column, so a down-sampled query
      of it no longer fails. */
  lemma BatchIngested(s: Session, a: seq<Event>, id: string, batch: Frame)
    requires AllWellFormed(s.registry) && AllDecoded(a) && Decoded(Binary(Some(batch)))
    requires Run(s, a).phase == Streaming(id)
    ensures AllDecoded(a + [Binary(Some(batch))])
    ensures var before := Run(s, a).registry;
      var r := Run(s, a + [Binary(Some(batch))]);
      && r == Run(s, a).(registry := Ingest(before, id, batch))
      && (id in before && Compatible(before[id].data.columns, batch.columns) ==> r.registry[id].data.timed)
  {
    assert AllDecoded([Binary(Some(batch))]);
    RunAppend(s, a, [Binary(Some(batch))]);
    assert [Binary(Some(batch))][..0] == [];
  }

  /** A session that stops gracefully (the peer closes, or a timeout or the end of the
      stream is answered by a close frame that goes out) leaves the device's entry marked
      not streaming with its samples kept, whatever follows. A close frame is sent unless
      the peer closed. */
  lemma GracefulExit(reg: DeviceMap, a: seq<Event>, e: Event, b: seq<Event>, id: string)
    requires AllWellFormed(reg) && AllDecoded(a) && AllDecoded(b)
    requires Run(Start(reg), a).phase == Streaming(id)
    requires e == CloseFrame || e == Timeout(true) || e == StreamEnd(true)
    ensures AllDecoded(a + [e] + b)
    ensures var before := Run(Start(reg), a).registry;
      var r := Run(Start(reg), a + [e] + b);
      && r.phase == Finished(e != CloseFrame)
      && id in before
      && r.registry == before[id := Entry(false, before[id].data)]
  {
    var s := Start(reg);
    assert AllDecoded([e]);
    RunAppend(s, a, [e]);
    assert Run(s, a + [e]) == Step(Run(s, a), e) by {
      assert (a + [e])[..|a|] == a;
    }
    RunAppend(s, a + [e], b);
    FinishedAbsorbs(Run(s, a + [e]), b);
    if a == [] {
      assert false;
    } else {
      assert a[0] in a;
      if a[0].Text? {
        SessionIsolated(reg, a[0].id, a);
      } else {
        HandshakeRejected(reg, a);
      }
    }
  }

  /** If the courtesy close frame cannot be sent, the handler returns before deactivating:
      the registry stays as it was and the device's entry stays marked streaming, for good. */
  lemma FailedCloseStaysActive(reg: DeviceMap, a: seq<Event>, e: Event, b: seq<Event>, id: string)
    requires AllWellFormed(reg) && AllDecoded(a) && AllDecoded(b)
    requires Run(Start(reg), a).phase == Streaming(id)
    requires e == Timeout(false) || e == StreamEnd(false)
    ensures AllDecoded(a + [e] + b)
    ensures var before := Run(Start(reg), a).registry;
      var r := Run(Start(reg), a + [e] + b);
      && r == Session(Finished(true), before)
      && id in r.registry && r.registry[id].active
  {
    var s := Start(reg);
    assert AllDecoded([e]);
    RunAppend(s, a, [e]);
    assert Run(s, a + [e]) == Step(Run(s, a), e) by {
      assert (a + [e])[..|a|] == a;
    }
    RunAppend(s, a + [e], b);
    FinishedAbsorbs(Run(s, a + [e]), b);
    if a == [] {
      assert false;
    } else {
      assert a[0] in a;
      if a[0].Text? {
        SessionIsolated(reg, a[0].id, a);
      } else {
        HandshakeRejected(reg, a);
      }
    }
  }
}
