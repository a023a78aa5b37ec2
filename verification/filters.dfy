/**
  The two message filters of midiproc.py, `drop_off` and `harmonize`.  Each
  decides every message on its own with no carried state, so each is a pure
  function from one message to what it sends on; `Pass` runs a filter over a
  stream, which stops at the first message that makes the filter raise (the
  exception ends the coroutine and propagates to the sender).

  Both filters compare the status byte with 0x80 and 0x90 exactly, so they act
  on MIDI channel 1 only.
 */
module Filters {
  import opened MidiBytes

  /** What a filter did with one message: what it sent on, in order, and whether it then raised. */
  datatype Outcome = Outcome(sent: seq<seq<byte>>, raised: bool)

  const NoteOff: byte := 0x80
  const NoteOn: byte := 0x90
  /** Notes below this are doubled by `harmonize`. */
  const HarmonyLimit: byte := 0x38
  /** The doubling is two octaves down. */
  const Interval: byte := 24

  /** A 3-byte Note-Off on channel 1. */
  predicate IsNoteOff(m: seq<byte>)
  {
    |m| == 3 && m[0] == NoteOff
  }

  /** A 3-byte Note-On on channel 1. */
  predicate IsNoteOn(m: seq<byte>)
  {
    |m| == 3 && m[0] == NoteOn
  }

  /**
    drop_off on one message.  The test at midiproc.py:150 parses as
    `(len(rx) == 3 and rx[0] == 0x80) or (rx[0] == 0x90 and rx[2] == 0)`: the
    Note-On half has no length check, so an empty message, or a 0x90 message
    shorter than three bytes, raises IndexError; a longer 0x90 message whose
    third byte is 0 is dropped.
   */
  function DropOff(m: seq<byte>): (r: Outcome)
    ensures r.sent == [] || r.sent == [m]
    ensures r.raised ==> r.sent == []
    ensures r.raised <==> !IsNoteOff(m) && (|m| == 0 || (m[0] == NoteOn && |m| < 3))
    ensures !r.raised ==> (r.sent == [] <==> IsNoteOff(m) || (|m| >= 3 && m[0] == NoteOn && m[2] == 0))
  {
    if IsNoteOff(m) then Outcome([], false)
    else if |m| == 0 then Outcome([], true)
    else if m[0] != NoteOn then Outcome([m], false)
    else if |m| < 3 then Outcome([], true)
    else if m[2] == 0 then Outcome([], false)
    else Outcome([m], false)
  }

  /**
    harmonize on one message: a 3-byte Note-On is sent on unchanged and then,
    if its note is below 0x38, a copy two octaves down with the same status and
    velocity; every other message is dropped.  For a note below 24 the copy's
    note would be negative and `chr` raises ValueError after the original has
    already been sent.
   */
  function Harmonize(m: seq<byte>): (r: Outcome)
    ensures !IsNoteOn(m) ==> r == Outcome([], false)
    ensures IsNoteOn(m) ==> 1 <= |r.sent| <= 2 && r.sent[0] == m
    ensures r.raised <==> IsNoteOn(m) && m[1] < Interval
    ensures |r.sent| == 2 <==> IsNoteOn(m) && Interval <= m[1] < HarmonyLimit
    ensures |r.sent| == 2 ==> r.sent[1] == [m[0], m[1] - Interval, m[2]]
  {
    if IsNoteOn(m) then
      if m[1] < HarmonyLimit then
        if m[1] < Interval then Outcome([m], true)
        else Outcome([m, [m[0], m[1] - Interval, m[2]]], false)
      else Outcome([m], false)
    else Outcome([], false)
  }

  datatype Filter = DropOffFilter | HarmonizeFilter

  function Apply(f: Filter, m: seq<byte>): Outcome
  {
    match f
    case DropOffFilter => DropOff(m)
    case HarmonizeFilter => Harmonize(m)
  }

  /** A filter stage fed a stream of messages: everything it sends, up to the first exception. */
  function Pass(f: Filter, msgs: seq<seq<byte>>): Outcome
  {
    if msgs == [] then Outcome([], false)
    else
      var first := Apply(f, msgs[0]);
      if first.raised then first
      else
        var rest := Pass(f, msgs[1..]);
        Outcome(first.sent + rest.sent, rest.raised)
  }

  /** A message that ends a note: a Note-Off, or a Note-On with velocity 0, on channel 1. */
  predicate EndsNote(m: seq<byte>)
  {
    IsNoteOff(m) || (IsNoteOn(m) && m[2] == 0)
  }

  /** The messages of a stream that do not end a note, in order. */
  function Sounding(msgs: seq<seq<byte>>): (r: seq<seq<byte>>)
    ensures |r| <= |msgs|
    ensures forall x <- r :: x in msgs && !EndsNote(x)
  {
    if msgs == [] then []
    else (if EndsNote(msgs[0]) then [] else [msgs[0]]) + Sounding(msgs[1..])
  }

  /**
    On a stream of decoded channel messages drop_off never raises and sends
    on exactly the messages that do not end a note, unchanged and in order.
   */
  lemma {:induction false} DropOffStream(msgs: seq<seq<byte>>)
    requires forall m <- msgs :: IsChannelMessage(m)
    ensures Pass(DropOffFilter, msgs) == Outcome(Sounding(msgs), false)
    decreases |msgs|
  {
    if msgs != [] {
      var m := msgs[0];
      assert m in msgs;
      forall x <- msgs[1..] ensures IsChannelMessage(x) {
        assert x in msgs;
      }
      DropOffStream(msgs[1..]);
    }
  }

  /**
    Over a stream harmonize sends only 3-byte Note-On messages, and it raises
    exactly when the stream holds a Note-On whose note is below 24.
   */
  lemma {:induction false} HarmonizeStream(msgs: seq<seq<byte>>)
    ensures forall x <- Pass(HarmonizeFilter, msgs).sent :: IsNoteOn(x)
    ensures Pass(HarmonizeFilter, msgs).raised <==>
            exists i :: 0 <= i < |msgs| && IsNoteOn(msgs[i]) && msgs[i][1] < Interval
    decreases |msgs|
  {
    if msgs != [] {
      HarmonizeStream(msgs[1..]);
      var first := Harmonize(msgs[0]);
      if !first.raised {
        assert forall i :: 1 <= i < |msgs| ==> msgs[i] == msgs[1..][i - 1];
        if exists i :: 0 <= i < |msgs| && IsNoteOn(msgs[i]) && msgs[i][1] < Interval {
          var i :| 0 <= i < |msgs| && IsNoteOn(msgs[i]) && msgs[i][1] < Interval;
          assert i != 0;
          assert IsNoteOn(msgs[1..][i - 1]) && msgs[1..][i - 1][1] < Interval;
        }
      }
    }
  }
}
