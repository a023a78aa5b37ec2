/**
  The SMF track decoder feeding the live decoder, as the chain in
  midiproc.py's `main` wires them: the track decoder sends the status and data
  bytes of each channel event, and the live decoder reassembles them into
  messages.
 */
module Integration {
  import opened MidiBytes
  import Smf = SmfDecoder
  import Live = LiveDecoder

  /**
    One event of a track, with one-byte sysex and meta event lengths as
    `process_smf_track` reads them: a delta-time and a
    channel message (written without its status byte when `omitStatus`, under
    running status), a sysex event (F0 or F7, one length byte, body) or a
    meta event (FF, type, one length byte, body).
   */
  datatype TrackEvent =
    | ChannelEvent(delta: nat, msg: seq<byte>, omitStatus: bool)
    | SysexEvent(delta: nat, kind: byte, body: seq<byte>)
    | MetaEvent(delta: nat, metaType: byte, body: seq<byte>)

  predicate WellFormed(e: TrackEvent)
  {
    e.delta < Smf.DeltaLimit &&
    match e
    case ChannelEvent(_, m, _) => IsChannelMessage(m)
    case SysexEvent(_, kind, body) => (kind == SOX || kind == EOX) && |body| < 256
    case MetaEvent(_, _, body) => |body| < 256
  }

  /** The running status after an event. */
  function After(e: TrackEvent, rstat: Option<byte>): Option<byte>
  {
    if e.ChannelEvent? && |e.msg| > 0 then Some(e.msg[0]) else rstat
  }

  /** Every status omitted from a track is the running status at that point. */
  predicate StatusesChained(events: seq<TrackEvent>, rstat: Option<byte>)
    decreases |events|
  {
    events == [] ||
    ((events[0].ChannelEvent? && events[0].omitStatus ==>
        |events[0].msg| > 0 && rstat == Some(events[0].msg[0])) &&
     StatusesChained(events[1..], After(events[0], rstat)))
  }

  /** A track `process_smf_track` can read, decoded from running status `rstat`. */
  predicate ValidTrack(events: seq<TrackEvent>, rstat: Option<byte>)
  {
    (forall e <- events :: WellFormed(e)) && StatusesChained(events, rstat)
  }

  function EventBytes(e: TrackEvent): seq<byte>
    requires WellFormed(e)
  {
    match e
    case ChannelEvent(_, m, omit) => if omit then m[1..] else m
    case SysexEvent(_, kind, body) => [kind, |body|] + body
    case MetaEvent(_, metaType, body) => [Smf.MetaEvent, metaType, |body|] + body
  }

  /** The bytes of a track's event stream. */
  function Encode(events: seq<TrackEvent>): seq<byte>
    requires forall e <- events :: WellFormed(e)
  {
    if events == [] then [] else Smf.Vlq(events[0].delta) + EventBytes(events[0]) + Encode(events[1..])
  }

  /** The channel messages of a track, in order. */
  function Messages(events: seq<TrackEvent>): (r: seq<seq<byte>>)
  {
    if events == [] then []
    else (if events[0].ChannelEvent? then [events[0].msg] else []) + Messages(events[1..])
  }

  function Deltas(events: seq<TrackEvent>): seq<nat>
  {
    if events == [] then [] else [events[0].delta] + Deltas(events[1..])
  }

  function LastStatus(events: seq<TrackEvent>, rstat: Option<byte>): Option<byte>
    decreases |events|
  {
    if events == [] then rstat else LastStatus(events[1..], After(events[0], rstat))
  }

  /** What the track decoder sends for one event: a channel event's whole message, status included. */
  function Sent(e: TrackEvent): seq<byte>
  {
    if e.ChannelEvent? then e.msg else []
  }

  lemma SentMessages(events: seq<TrackEvent>)
    requires events != []
    ensures Flatten(Messages(events)) == Sent(events[0]) + Flatten(Messages(events[1..]))
  {
    var here := if events[0].ChannelEvent? then [events[0].msg] else [];
    assert Messages(events) == here + Messages(events[1..]);
    FlattenAppend(here, Messages(events[1..]));
    if events[0].ChannelEvent? {
      assert here[1..] == [];
      assert Flatten(here) == events[0].msg + [];
    }
  }

  /** One event: its delta-time is paced on, and only a channel event sends anything. */
  lemma DecodeEvent(s: Smf.Smf, e: TrackEvent)
    requires s.phase == Smf.Delta(0, 0) && WellFormed(e)
    requires e.ChannelEvent? && e.omitStatus ==> s.rstat == Some(e.msg[0])
    ensures Smf.Run(Smf.Intended, s, Smf.Vlq(e.delta) + EventBytes(e)) ==
            s.(rstat := After(e, s.rstat), sent := s.sent + Sent(e), delays := s.delays + [e.delta])
  {
    Smf.RunAppend(Smf.Intended, s, Smf.Vlq(e.delta), EventBytes(e));
    Smf.VlqRoundTrip(Smf.Intended, s, e.delta);
    var mid := s.(phase := Smf.Event, delays := s.delays + [e.delta]);
    match e
    case ChannelEvent(_, m, omit) =>
      assert Smf.IsTrackMessage(m);
      Smf.ChannelEventSent(mid, m, omit);
    case SysexEvent(_, kind, body) =>
      Smf.SysexEventSkipped(Smf.Intended, mid, kind, body);
      assert s.sent + [] == s.sent;
    case MetaEvent(_, metaType, body) =>
      Smf.MetaEventSkipped(Smf.Intended, mid, metaType, body);
      assert s.sent + [] == s.sent;
  }

  /**
    The track decoder reads a valid event stream completely: it sends the
    channel messages, each with its status byte restored, one after the other,
    paces on every event's delta-time in order, and ends between events.
   */
  lemma {:induction false} DecodeTrack(s: Smf.Smf, events: seq<TrackEvent>)
    requires s.phase == Smf.Delta(0, 0) && ValidTrack(events, s.rstat)
    ensures Smf.Run(Smf.Intended, s, Encode(events)) ==
              s.(rstat := LastStatus(events, s.rstat),
                 sent := s.sent + Flatten(Messages(events)),
                 delays := s.delays + Deltas(events))
    decreases |events|
  {
    if events == [] {
      assert s.sent + [] == s.sent && s.delays + [] == s.delays;
    } else {
      var rest := events[1..];
      var s1 := Paced(s, events[0]);
      DecodeFirst(s, events);
      DecodeTrack(s1, rest);
      PacedSums(s, events);
    }
  }

  /** What the rest of a track adds to the record after its first event is what the whole track adds. */
  lemma PacedSums(s: Smf.Smf, events: seq<TrackEvent>)
    requires events != []
    ensures Paced(s, events[0]).sent + Flatten(Messages(events[1..])) == s.sent + Flatten(Messages(events))
    ensures Paced(s, events[0]).delays + Deltas(events[1..]) == s.delays + Deltas(events)
  {
    var e, rest := events[0], events[1..];
    SentMessages(events);
    AppendAssoc(s.sent, Sent(e), Flatten(Messages(rest)));
    assert Deltas(events) == [e.delta] + Deltas(rest);
    AppendAssoc(s.delays, [e.delta], Deltas(rest));
  }

  /** The decoder's record after reading one whole event. */
  function Paced(s: Smf.Smf, e: TrackEvent): Smf.Smf
  {
    s.(rstat := After(e, s.rstat), sent := s.sent + Sent(e), delays := s.delays + [e.delta])
  }

  lemma DecodeFirst(s: Smf.Smf, events: seq<TrackEvent>)
    requires s.phase == Smf.Delta(0, 0) && events != [] && ValidTrack(events, s.rstat)
    ensures ValidTrack(events[1..], Paced(s, events[0]).rstat)
    ensures Smf.Run(Smf.Intended, s, Encode(events)) == Smf.Run(Smf.Intended, Paced(s, events[0]), Encode(events[1..]))
  {
    ValidTail(events, s.rstat);
    var e := events[0];
    Smf.RunAppend(Smf.Intended, s, Smf.Vlq(e.delta) + EventBytes(e), Encode(events[1..]));
    DecodeEvent(s, e);
  }

  lemma ValidTail(events: seq<TrackEvent>, rstat: Option<byte>)
    requires events != [] && ValidTrack(events, rstat)
    ensures ValidTrack(events[1..], After(events[0], rstat))
    ensures Encode(events) == Smf.Vlq(events[0].delta) + EventBytes(events[0]) + Encode(events[1..])
  {
    forall x <- events[1..] ensures WellFormed(x) {
      assert x in events;
    }
  }

  /**
    Feeding a valid track through the track decoder into a fresh live decoder
    yields exactly one message per channel event, equal to that event's
    message, in track order; the realtime and sysex targets receive nothing,
    and each event's delta-time has been paced on.
   */
  lemma SmfFeedsLive(w: Live.Wiring, events: seq<TrackEvent>)
    requires ValidTrack(events, None)
    ensures var smf := Smf.Run(Smf.Intended, Smf.Start, Encode(events));
      var live := Live.Run(w, Live.Initial, smf.sent);
      smf.phase == Smf.Delta(0, 0) && smf.delays == Deltas(events) &&
      live.msgs == Messages(events) && live.rts == [] && live.sysexes == []
  {
    DecodeTrack(Smf.Start, events);
    var smf := Smf.Run(Smf.Intended, Smf.Start, Encode(events));
    assert smf.sent == Flatten(Messages(events)) by {
      assert Smf.Start.sent + Flatten(Messages(events)) == Flatten(Messages(events));
    }
    assert smf.delays == Deltas(events) by {
      assert Smf.Start.delays + Deltas(events) == Deltas(events);
    }
    MessagesAreChannelMessages(events);
    Live.InitialInv(w);
    Live.DecodeMessages(w, Live.Initial, Messages(events));
    assert Live.Initial.msgs + Messages(events) == Messages(events);
  }

  lemma MessagesAreChannelMessages(events: seq<TrackEvent>)
    requires forall e <- events :: WellFormed(e)
    ensures forall m <- Messages(events) :: IsChannelMessage(m)
    decreases |events|
  {
    if events != [] {
      assert events[0] in events;
      assert forall x <- events[1..] :: x in events;
      MessagesAreChannelMessages(events[1..]);
    }
  }

  // ---------------------------------------------------------------------
  // The data-byte count at midiproc.py:141

  /** A Program Change followed by a Note-On, both at delta-time 0. */
  const ProgramThenNote: seq<byte> := [0x00, 0xC0, 0x05, 0x00, 0x90, 0x3C, 0x40]

  /**
    As written, the track decoder reads a second data byte after a Program
    Change: it takes the next event's delta-time byte as data, reads the
    Note-On status as part of a delta-time and resolves the note's velocity
    under the stale Program Change status.  The live decoder downstream then
    reports three Program Changes and no Note-On.
   */
  lemma AsWrittenMisreadsProgramChange(w: Live.Wiring)
    ensures Smf.Run(Smf.AsWritten, Smf.Start, ProgramThenNote).sent == [0xC0, 0x05, 0x00, 0xC0, 0x40]
    ensures Live.Run(w, Live.Initial, [0xC0, 0x05, 0x00, 0xC0, 0x40]).msgs == [[0xC0, 0x05], [0xC0, 0x00], [0xC0, 0x40]]
  {
    AsWrittenTrackBytes();
    StaleProgramChanges(w);
  }

  lemma AsWrittenTrackBytes()
    ensures Smf.Run(Smf.AsWritten, Smf.Start, ProgramThenNote).sent == [0xC0, 0x05, 0x00, 0xC0, 0x40]
  {
    var r := Smf.AsWritten;
    var s1 := Smf.Step(r, Smf.Start, 0x00);
    var s2 := Smf.Step(r, s1, 0xC0);
    var s3 := Smf.Step(r, s2, 0x05);
    var s4 := Smf.Step(r, s3, 0x00);
    var s5 := Smf.Step(r, s4, 0x90);
    var s6 := Smf.Step(r, s5, 0x3C);
    var s7 := Smf.Step(r, s6, 0x40);
    // the Program Change takes the next delta-time as its second data byte
    assert s3.phase == Smf.Data2 && s4.sent == [0xC0, 0x05, 0x00];
    // the Note-On status is read as the first byte of a delta-time
    assert s5.phase == Smf.Delta(1, 0x10);
    assert s6.phase == Smf.Event && s6.rstat == Some(0xC0);
    assert s7.sent == [0xC0, 0x05, 0x00, 0xC0, 0x40];
    assert Smf.Run(r, s7, []) == s7;
    assert Smf.Run(r, s6, [0x40]) == s7;
    assert Smf.Run(r, s5, [0x3C, 0x40]) == s7;
    assert Smf.Run(r, s4, [0x90, 0x3C, 0x40]) == s7;
    assert Smf.Run(r, s3, [0x00, 0x90, 0x3C, 0x40]) == s7;
    assert Smf.Run(r, s2, [0x05, 0x00, 0x90, 0x3C, 0x40]) == s7;
    assert Smf.Run(r, s1, [0xC0, 0x05, 0x00, 0x90, 0x3C, 0x40]) == s7;
  }

  lemma StaleProgramChanges(w: Live.Wiring)
    ensures Live.Run(w, Live.Initial, [0xC0, 0x05, 0x00, 0xC0, 0x40]).msgs == [[0xC0, 0x05], [0xC0, 0x00], [0xC0, 0x40]]
  {
    var l1 := Live.Step(w, Live.Initial, 0xC0);
    var l2 := Live.Step(w, l1, 0x05);
    var l3 := Live.Step(w, l2, 0x00);
    var l4 := Live.Step(w, l3, 0xC0);
    var l5 := Live.Step(w, l4, 0x40);
    assert DataCount(0xC0) == 1;
    assert l1.rstat == 0xC0 && l1.bytecount == 1 && l1.origbytecount == 1 && l1.msg == [0xC0] && l1.msgs == [];
    var pc5: seq<byte>, pc0: seq<byte>, pc40: seq<byte> := [0xC0, 0x05], [0xC0, 0x00], [0xC0, 0x40];
    assert l1.msg + [0x05] == pc5 && l2.msg + [0x00] == pc0 && l4.msg + [0x40] == pc40;
    assert l2.rstat == 0xC0 && l2.bytecount == 1 && l2.msg == [0xC0] && l2.msgs == [] + [pc5];
    assert l3.rstat == 0xC0 && l3.bytecount == 1 && l3.msg == [0xC0] && l3.msgs == [pc5] + [pc0];
    assert l4.rstat == 0xC0 && l4.bytecount == 1 && l4.msg == [0xC0] && l4.msgs == l3.msgs;
    assert l5.msgs == [pc5, pc0] + [pc40];
    assert Live.Run(w, l5, []) == l5;
    assert Live.Run(w, l4, [0x40]) == l5;
    assert Live.Run(w, l3, [0xC0, 0x40]) == l5;
    assert Live.Run(w, l2, [0x00, 0xC0, 0x40]) == l5;
    assert Live.Run(w, l1, [0x05, 0x00, 0xC0, 0x40]) == l5;
  }

  /**
    With the intended count (one data byte for 0xC0..0xDF) the same bytes are
    the Program Change and the Note-On they encode, and the live decoder
    reports exactly those two messages.
   */
  lemma IntendedReadsProgramChange(w: Live.Wiring)
    ensures Smf.Run(Smf.Intended, Smf.Start, ProgramThenNote).sent == [0xC0, 0x05, 0x90, 0x3C, 0x40]
    ensures Live.Run(w, Live.Initial, [0xC0, 0x05, 0x90, 0x3C, 0x40]).msgs == [[0xC0, 0x05], [0x90, 0x3C, 0x40]]
  {
    ProgramThenNoteEncodes();
    SmfFeedsLive(w, ProgramThenNoteEvents);
    DecodeTrack(Smf.Start, ProgramThenNoteEvents);
    assert Smf.Start.sent + [0xC0, 0x05, 0x90, 0x3C, 0x40] == [0xC0, 0x05, 0x90, 0x3C, 0x40];
  }

  /** The events `ProgramThenNote` encodes. */
  const ProgramThenNoteEvents: seq<TrackEvent> :=
    [ChannelEvent(0, [0xC0, 0x05], false), ChannelEvent(0, [0x90, 0x3C, 0x40], false)]

  lemma ProgramThenNoteEncodes()
    ensures ValidTrack(ProgramThenNoteEvents, None)
    ensures Encode(ProgramThenNoteEvents) == ProgramThenNote
    ensures Messages(ProgramThenNoteEvents) == [[0xC0, 0x05], [0x90, 0x3C, 0x40]]
    ensures Flatten(Messages(ProgramThenNoteEvents)) == [0xC0, 0x05, 0x90, 0x3C, 0x40]
  {
    var events := ProgramThenNoteEvents;
    assert events[1..][1..] == [];
    assert Smf.Vlq(0) == [0x00];
    assert Encode(events[1..]) == [0x00, 0x90, 0x3C, 0x40];
    var msgs: seq<seq<byte>> := [[0xC0, 0x05], [0x90, 0x3C, 0x40]];
    assert Messages(events) == msgs;
    assert msgs[1..][1..] == [];
    assert Flatten(msgs[1..]) == [0x90, 0x3C, 0x40];
  }
}
