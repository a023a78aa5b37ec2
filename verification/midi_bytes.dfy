/**
  The byte-level vocabulary of the MIDI 1.0 wire format shared by the two
  decoders, the filters and the pipeline stages.  The original program carries
  every byte as a one-character string and compares bytes by code point; here
  a byte is an integer in 0..255 and a message is a sequence of bytes.
 */
module MidiBytes {

  /** One octet of a MIDI stream. */
  type byte = x: int | 0 <= x < 256

  /** Start and end of a System Exclusive message. */
  const SOX: byte := 0xF0
  const EOX: byte := 0xF7
  /** First system-common status byte. */
  const SysComBase: byte := 0xF0
  /** First system-realtime status byte. */
  const SysRtBase: byte := 0xF8
  /** First status byte; everything below is a data byte. */
  const StatusBase: byte := 0x80

  predicate IsData(b: int) { 0 <= b < StatusBase }

  /** A channel voice status byte: 0x80..0xEF. */
  predicate IsChannelStatus(b: int) { StatusBase <= b < SysComBase }

  /** A value that may be missing (Python's `None`). */
  datatype Option<T> = None | Some(value: T)

  /** Program Change and Channel Pressure (0xC0..0xDF) carry one data byte, every other channel message two. */
  function DataCount(status: int): (n: nat)
    ensures n == 1 || n == 2
    ensures n == 1 <==> 0xC0 <= status <= 0xDF
  {
    if 0xC0 <= status <= 0xDF then 1 else 2
  }

  /** A complete channel message: a channel status followed by exactly its number of data bytes. */
  predicate IsChannelMessage(m: seq<byte>)
  {
    |m| >= 1 && IsChannelStatus(m[0]) && |m| == 1 + DataCount(m[0]) &&
    forall i :: 1 <= i < |m| ==> IsData(m[i])
  }

  /** The wire form of a list of messages, each sent with its own status byte. */
  function Flatten(msgs: seq<seq<byte>>): seq<byte>
  {
    if msgs == [] then [] else msgs[0] + Flatten(msgs[1..])
  }

  lemma {:induction false} FlattenAppend(a: seq<seq<byte>>, b: seq<seq<byte>>)
    ensures Flatten(a + b) == Flatten(a) + Flatten(b)
  {
    if a == [] {
      assert a + b == b;
    } else {
      assert (a + b)[1..] == a[1..] + b;
      FlattenAppend(a[1..], b);
    }
  }

  lemma AppendAssoc<T>(a: seq<T>, b: seq<T>, c: seq<T>)
    ensures (a + b) + c == a + (b + c)
  {
  }
}
