# midiproc, modelled in Dafny

midiproc is a small coroutine-based MIDI processing package. Stages are primed
Python 2 generators chained by references to their downstream stage. Bytes are
pushed through decoders and filters towards sinks:

- `midi_in_stream` is a live byte-stream decoder. Its running status, System
  Exclusive and realtime handling is modelled on the MIDI 1.0 Detailed
  Specification, with three departures from that protocol:
  - A System Exclusive message does not cancel running status
    (`LiveDecoder.SysexCapture` leaves `rstat` as it was).
  - A status byte inside a System Exclusive message is buffered as payload
    instead of ending the message (`LiveDecoder.SysexPayload`).
  - Realtime bytes inside a System Exclusive message are buffered as payload
    instead of going to the realtime target (`LiveDecoder.SysexPayload`).
- `process_smf_track` is a Standard MIDI File track-event decoder. It reads
  delta-times, skips sysex and meta events, and re-emits channel events with
  their status byte restored.
- `drop_off` and `harmonize` are two example message filters.
- co_util provides the plumbing: the `NullSink` default target, `hex_print`,
  `iter_source` and `broadcast`.
- `main` assembles a chain from a list of constructors by a right-to-left fold.

The model has these modules:

- `MidiBytes` (midi_bytes.dfy) holds the byte vocabulary: the protocol constants,
  the data-byte count of a channel status, complete channel messages and their
  wire form.
- `LiveDecoder` (live_decoder.dfy) models `midi_in_stream`.
  - `Step` is a reference transition over a value. That value holds the
    decoder's registers and what each of its three targets has been sent.
  - Class `MidiInStream` holds the same registers as fields. Its `Accept` is
    proved to perform `Step`.
  - Lemmas about `Run`, the fold of `Step` over a byte string, state the
    emission rules.
- `SmfDecoder` (smf_decoder.dfy) models `process_smf_track`.
  - The coroutine's position in its loop is an explicit `Phase`.
  - Class `SmfTrack` is proved to perform `Step`.
  - The data-byte rule is a parameter, so the code as written and the
    intended rule can both be stated (see Findings).
- `Filters` (filters.dfy) models `drop_off` and `harmonize`. Each is a function
  from one message to what it sends on and whether it then raises.
- `Stages` (stages.dfy) models `NullSink`, `hex_print`, `iter_source` and
  `broadcast`. A downstream stage is observed through the trace of the send,
  close and throw calls that reach it.
- `Chain` (chain.dfy) models the chain-assembly loop of `main`.
- `Integration` (integration.dfy) connects the two decoders. Take a track
  with one-byte sysex and meta event lengths, as `process_smf_track` reads
  them. Read it by `process_smf_track` with the data-byte rule of line 141
  corrected, and feed the result into `midi_in_stream`. It comes out as exactly
  its channel messages.

Notes on the code as written in midiproc.py:

- `harmonize` drops every message that is not a 3-byte Note-On on channel 1.
- No stage forwards `close()` downstream. The only `close()` calls in the core
  are made by `iter_source` on its own target.
- `process_smf_track` never sets `rstat` to `None`. A data byte before any
  status reaches `rstat` while it is still unbound, so the coroutine raises
  NameError rather than the ValueError at midiproc.py:137. Both abort the
  decoder, and the model has one `Failed` phase for either.

## Model

| member | source | states |
|---|---|---|
| LiveDecoder.InitialInv | midiproc/midiproc.py:37-44 | a fresh decoder has no running status, is at a message boundary, and satisfies the decoder invariant |
| LiveDecoder.StepKeepsInv | midiproc/midiproc.py:45-82 | every byte keeps the invariant: running status is absent or is a channel status with a consistent accumulator, the sysex buffer is empty outside a sysex, and every emitted message is a complete channel message |
| LiveDecoder.RunKeepsInv | midiproc/midiproc.py:45-82 | the invariant holds after any byte string |
| LiveDecoder.RunAppend | midiproc/midiproc.py:45-46 | decoding two byte strings one after the other is decoding their concatenation |
| LiveDecoder.StatusOpensMessage | midiproc/midiproc.py:66-72 | outside a sysex, a channel status byte becomes the running status and opens an empty message expecting one data byte for 0xC0..0xDF and two otherwise; nothing is emitted |
| LiveDecoder.DataGroup | midiproc/midiproc.py:73-81 | at a message boundary under running status, the expected number of data bytes emits exactly one message of that status and returns to the boundary |
| LiveDecoder.PartialMessagePending | midiproc/midiproc.py:66-78 | a status followed by fewer data bytes than it needs emits nothing and holds those bytes in the accumulator |
| LiveDecoder.CompleteMessage | midiproc/midiproc.py:66-81 | a complete channel message emits itself exactly once and leaves its status as the running status |
| LiveDecoder.RunningStatusGroups | midiproc/midiproc.py:74-81 | under running status, each further group of data bytes emits one message prefixed with that status, in order |
| LiveDecoder.DecodeMessages | midiproc/midiproc.py:66-81 | a list of complete channel messages reaches the message target unchanged and in order; the realtime and sysex targets receive nothing |
| LiveDecoder.RealtimeAlone | midiproc/midiproc.py:50-54 | outside a sysex, a realtime byte goes alone to the realtime target, if it is truthy, and changes nothing else |
| LiveDecoder.RunIgnoresRts | midiproc/midiproc.py:50-54 | what the decoder does apart from realtime output does not depend on realtime output already sent |
| LiveDecoder.RealtimeTransparent | midiproc/midiproc.py:50-54 | a realtime byte inserted anywhere outside a sysex, even inside a message, changes nothing but the realtime output |
| LiveDecoder.SysexPayload | midiproc/midiproc.py:47-49 | inside a sysex, every byte but EOX, realtime bytes included, is buffered (only when the sysex target is truthy) |
| LiveDecoder.SysexCapture | midiproc/midiproc.py:47-62 | SOX, a payload without EOX, then EOX: a truthy sysex target receives exactly the payload and running status is untouched |
| LiveDecoder.StrayEox | midiproc/midiproc.py:55-59 | an EOX outside a sysex sends an empty sysex message to a truthy sysex target |
| LiveDecoder.OrphanDataDropped | midiproc/midiproc.py:73-82 | data bytes with no running status are ignored |
| LiveDecoder.SystemCommonCancels | midiproc/midiproc.py:63-65 | a system common byte cancels running status, so the data bytes after it are ignored |
| LiveDecoder.MidiInStream.constructor | midiproc/midiproc.py:34-44 | the optional targets default to NullSink, only truthy targets will be sent to, and the registers start empty |
| LiveDecoder.MidiInStream.Accept | midiproc/midiproc.py:45-82 | receiving a byte updates the registers and the three outputs exactly as the reference transition does, and keeps the invariant |
| SmfDecoder.StepKeepsInv | midiproc/midiproc.py:108-143 | every byte keeps the invariant: a delta-time is under four bytes, a pending data byte has a status, and the running status can be adopted |
| SmfDecoder.RunKeepsInv | midiproc/midiproc.py:108-143 | the invariant holds after any byte string |
| SmfDecoder.RunAppend | midiproc/midiproc.py:108-143 | decoding two byte strings one after the other is decoding their concatenation |
| SmfDecoder.VlqRoundTrip | midiproc/midiproc.py:109-116 | reading a delta-time inverts its variable-length encoding for every value below 2^28, paces on that value and expects the event |
| SmfDecoder.DeltaCappedAtFour | midiproc/midiproc.py:110-115 | a delta-time ends after at most four bytes, whatever the top bit of the fourth |
| SmfDecoder.SkipCounted | midiproc/midiproc.py:120-123 | a length byte followed by that many bytes is consumed and sends nothing |
| SmfDecoder.SysexEventSkipped | midiproc/midiproc.py:119-124 | a sysex event (F0 or F7) consumes its length byte and that many bytes, sends nothing and keeps running status |
| SmfDecoder.MetaEventSkipped | midiproc/midiproc.py:125-131 | a meta event consumes its type byte, its length byte and that many bytes, and sends nothing |
| SmfDecoder.ChannelEventSent | midiproc/midiproc.py:132-143 | with the data-byte rule of line 141 corrected, a channel event written with or without its status sends the status and then its data bytes, and adopts the status as running status |
| SmfDecoder.DataWithoutStatusFails | midiproc/midiproc.py:136-137 | a data byte where an event starts, before any status, aborts the decoder |
| SmfDecoder.FailedIsFinal | midiproc/midiproc.py:136-137 | an aborted decoder accepts nothing more |
| SmfDecoder.SmfTrack.constructor | midiproc/midiproc.py:104-111 | the primed decoder waits for the first delta-time with no running status |
| SmfDecoder.SmfTrack.Accept | midiproc/midiproc.py:108-143 | receiving a byte updates the decoder exactly as the reference transition with the protocol's data-byte rule does; `ok` reports whether the decoder is still running |
| Filters.DropOff | midiproc/midiproc.py:146-152 | a note-ending message on channel 1 is dropped, every other message is sent on unchanged, and an empty message or a short 0x90 message raises |
| Filters.Harmonize | midiproc/midiproc.py:154-162 | a 3-byte Note-On is sent on; below note 0x38 a copy two octaves down follows; below note 24 the stage raises after the original; every other message is dropped |
| Filters.DropOffStream | midiproc/midiproc.py:146-152 | over a stream of channel messages drop_off never raises and sends exactly the messages that do not end a note, in order |
| Filters.HarmonizeStream | midiproc/midiproc.py:154-162 | over a stream harmonize sends only Note-Ons, and raises exactly when some Note-On has a note below 24 |
| Stages.OrNullSink | midiproc/midiproc.py:35-36 | `target or NullSink()` always yields a target that can be sent to, keeps truthy targets, and is truthy exactly when the argument is |
| Stages.NullSinkIgnores | midiproc/co_util.py:50-60 | a NullSink accepts send, close and throw with no effect and tests false |
| Stages.DefaultedTargetSilent | midiproc/co_util.py:24-60 | a stage whose missing target defaulted to NullSink can be sent any stream and closed with no observable effect |
| Stages.JoinHex | midiproc/co_util.py:67-68 | a printed byte string has three characters per byte, less the final separator |
| Stages.JoinHexRoundTrip | midiproc/co_util.py:67-68 | the printed line of a byte string reads back to that byte string |
| Stages.HexLineReadsBack | midiproc/co_util.py:66-70 | the line printed for a byte string reads back to it; the line printed for an integer is its two digits and a space |
| Stages.HexPrintTransparent | midiproc/co_util.py:62-72 | hex_print forwards every item unchanged and in order to a truthy target, and forwards nothing to `None` or a NullSink |
| Stages.IterSource | midiproc/co_util.py:74-77 | every entry is sent to the target in order and the target is then closed once; a NullSink target sees nothing |
| Stages.ObserversAppend | midiproc/co_util.py:83-84 | the stages reached by a broadcast over two lists are those reached over each list, in order |
| Stages.Broadcast | midiproc/co_util.py:79-84 | a received item is sent unchanged to every real target, in list order |
| Chain.BuildChain | midiproc/midiproc.py:174-176 | the last constructor is called with nothing, each earlier one with the stage built after it, and the result is the right fold of the list |
| Chain.ChainOrder | midiproc/midiproc.py:167-176 | the built chain visits the stages in list order; a source at the head runs the chain of the remaining constructors and returns nothing |
| Integration.DecodeEvent | midiproc/midiproc.py:108-143 | with the data-byte rule of line 141 corrected, one encoded event: its delta-time is paced on and only a channel event sends anything |
| Integration.DecodeTrack | midiproc/midiproc.py:108-143 | with the data-byte rule of line 141 corrected, the encoded events of a valid track (one-byte sysex and meta lengths) send exactly the track's channel messages, status restored, and pace on every delta-time in order |
| Integration.SmfFeedsLive | midiproc/midiproc.py:103-143 | with the data-byte rule of line 141 corrected, a valid track (one-byte sysex and meta lengths) fed through process_smf_track into a fresh midi_in_stream yields exactly its channel messages in order, and nothing on the realtime or sysex targets |
| Integration.AsWrittenMisreadsProgramChange | midiproc/midiproc.py:141-143 | with line 141 as written, a Program Change and then a Note-On come out as three Program Changes |
| Integration.IntendedReadsProgramChange | midiproc/midiproc.py:141-143 | with the protocol's data-byte count, the same track comes out as the Program Change and the Note-On it encodes |

## Left out

- The FTDI device stages `midi_in_ftdi` and `midi_out_ftdi`, and the network and file stages of co_util, do device, socket and file I/O. They are not part of this model.
- `apply_tx_running_status` is not part of this model. It is not used by any chain in the core.
- The `coroutine` priming decorator is not modelled. Every stage is taken to be already primed.
- `process_smf_track` paces each event with `time.sleep(0.0005 * l)`. The model records the tick count `l` in the `delays` trace and does not model time.
- The code has no file-header or chunk validation and no tempo handling. The track decoder is handed a track's event bytes directly, and the model does the same.
- The data flowing into `main` (`mid_data`) and the output device are outside the model.
- `hex_print` given a list, such as the sysex payload `midi_in_stream` sends, raises TypeError in the source. `Stages.Item` only holds integers and byte strings, so that path is not modelled.
- An exception raised by a downstream stage propagates into the sender and ends it. The filters model this for their own exceptions (`raised`). `Stages.IterSource` does not model a target that raises before the close is sent.
- Calling `send` on `None` raises AttributeError. `Stages.Effect`, `Stages.IterSource` and `Stages.Broadcast` require targets that are not `None` instead.
- A constructor in a chain called with the wrong number of arguments raises TypeError. `Chain.Apply` treats a call with no argument like a call with `None`, the default of every optional target.
- Stage identity in `Stages` is a number. Two references to the same coroutine are not distinguished from two coroutines with the same number.
- SmfDecoder.SmfTrack.Accept: follows the protocol's data-byte rule rather than line 141 as written; the as-written rule is kept in `SmfDecoder.Step` for the Findings row.
- SmfDecoder.ChannelEventSent: proved with the data-byte rule of line 141 corrected; as written, a Program Change or Channel Pressure event also swallows the next byte (see Findings).
- Integration.DecodeEvent: proved with the data-byte rule of line 141 corrected, for the same reason.
- Integration.DecodeTrack: proved with the data-byte rule of line 141 corrected; as written, a Program Change or Channel Pressure event breaks it (see Findings). It also covers only one-byte sysex and meta lengths, the only form `process_smf_track` reads.
- Integration.SmfFeedsLive: proved with the data-byte rule of line 141 corrected, for the same reason.

## Findings

| source | as written | input that shows it | evidently intended | confidence | as-written member | corrected member |
|---|---|---|---|---|---|---|
| midiproc/midiproc.py:141 | `rstat` is a one-character string, and under Python 2 a string compares greater than every integer, so `not (rstat >= 0xC0 and rstat <= 0xDF)` is always true and a second data byte is read after every status, including Program Change and Channel Pressure | track bytes `00 C0 05 00 90 3C 40` (a Program Change, then a Note-On, both at delta-time 0): the decoder sends `C0 05 00 C0 40`, and the live decoder then reports three Program Changes and no Note-On | read a second data byte only for statuses outside 0xC0..0xDF, so the track sends `C0 05 90 3C 40` and decodes to the two messages it encodes | high (not executed) | Integration.AsWrittenMisreadsProgramChange | Integration.IntendedReadsProgramChange |
