/**
  The push-pipeline plumbing of co_util.py: the NullSink default target, the
  formatting and forwarding of hex_print, iter_source and broadcast.

  A downstream stage is observed only through what it is handed: every send,
  close or throw that reaches a real stage is recorded as a `Delivery` in a
  trace, so ordering and fan-out can be stated about the trace.  Sending to a
  NullSink leaves no trace at all.
 */
module Stages {
  import opened MidiBytes

  /** What flows between stages: an integer, or a byte string (a message). */
  datatype Item = Byte(b: byte) | Bytes(bs: seq<byte>)

  /**
    A downstream reference: `None` (Absent), a NullSink, or a real stage
    (a primed coroutine) identified by a number.
   */
  datatype Target = Absent | NullSink | Stage(id: nat)

  /** The three calls a stage can receive. */
  datatype Signal = Send(item: Item) | Close | Throw

  /** One call that reached the real stage `to`. */
  datatype Delivery = Delivery(to: nat, signal: Signal)

  /**
    Truth value of a target: `None` is false, a NullSink reports itself false
    through `__bool__`, and a primed coroutine is true.
   */
  predicate Truthy(t: Target)
  {
    t.Stage?
  }

  /** The default-target idiom `target or NullSink()`. */
  function OrNullSink(t: Target): (r: Target)
    ensures !r.Absent?
    ensures Truthy(r) == Truthy(t)
    ensures Truthy(t) ==> r == t
  {
    if Truthy(t) then t else NullSink
  }

  /**
    What calling `signal` on target `t` leaves in the trace.  `None` has no
    `send` method, so callers must not pass it.
   */
  function Effect(t: Target, signal: Signal): seq<Delivery>
    requires !t.Absent?
  {
    if t.Stage? then [Delivery(t.id, signal)] else []
  }

  /** NullSink accepts send, close and throw with any argument, changes nothing, and tests false. */
  lemma NullSinkIgnores(signal: Signal)
    ensures Effect(NullSink, signal) == []
    ensures !Truthy(NullSink)
  {
  }

  /** Sending a whole stream to a target: the trace the stream leaves behind. */
  function SendAll(t: Target, items: seq<Item>): seq<Delivery>
    requires !t.Absent?
  {
    if items == [] then [] else Effect(t, Send(items[0])) + SendAll(t, items[1..])
  }

  /**
    A stage whose optional target was left as `None` and defaulted to NullSink
    can be sent any stream and closed with no observable effect.
   */
  lemma {:induction false} DefaultedTargetSilent(t: Target, items: seq<Item>)
    requires !Truthy(t)
    ensures SendAll(OrNullSink(t), items) + Effect(OrNullSink(t), Close) == []
  {
    if items != [] {
      DefaultedTargetSilent(t, items[1..]);
    }
  }

  // ---------------------------------------------------------------------
  // hex_print: formatting and forwarding

  const HexDigits: string := "0123456789ABCDEF"

  /** `'%02X' % b`: two upper-case hexadecimal digits. */
  function HexPair(b: byte): (s: string)
    ensures |s| == 2
  {
    [HexDigits[b / 16], HexDigits[b % 16]]
  }

  /** `' '.join('%02X' % ord(c) for c in bs)`. */
  function JoinHex(bs: seq<byte>): (s: string)
    ensures |bs| == 0 ==> s == ""
    ensures |bs| > 0 ==> |s| == 3 * |bs| - 1
  {
    if |bs| == 0 then ""
    else if |bs| == 1 then HexPair(bs[0])
    else HexPair(bs[0]) + " " + JoinHex(bs[1..])
  }

  /** The line hex_print prints for one item: a byte string as spaced pairs, an integer as a pair and a space. */
  function FormatItem(x: Item): string
  {
    match x
    case Bytes(bs) => JoinHex(bs)
    case Byte(b) => HexPair(b) + " "
  }

  /** The value of one upper-case hexadecimal digit, if it is one. */
  function DigitValue(c: char): Option<nat>
  {
    if '0' <= c <= '9' then Some(c as int - '0' as int)
    else if 'A' <= c <= 'F' then Some(c as int - 'A' as int + 10)
    else None
  }

  function ParsePair(s: string): Option<byte>
    requires |s| == 2
  {
    match (DigitValue(s[0]), DigitValue(s[1]))
    case (Some(hi), Some(lo)) => if hi < 16 && lo < 16 then Some(hi * 16 + lo) else None
    case _ => None
  }

  /** Reads back a line of space-separated hexadecimal pairs. */
  function ParseHex(s: string): Option<seq<byte>>
    decreases |s|
  {
    if |s| == 0 then Some([])
    else if |s| == 2 then
      match ParsePair(s)
      case Some(b) => Some([b])
      case None => None
    else if |s| > 3 && s[2] == ' ' then
      match (ParsePair(s[..2]), ParseHex(s[3..]))
      case (Some(b), Some(rest)) => if rest != [] then Some([b] + rest) else None
      case _ => None
    else None
  }

  lemma PairRoundTrip(b: byte)
    ensures ParsePair(HexPair(b)) == Some(b)
  {
    var hi, lo := b / 16, b % 16;
    assert DigitValue(HexDigits[hi]) == Some(hi) by { DigitRoundTrip(hi); }
    assert DigitValue(HexDigits[lo]) == Some(lo) by { DigitRoundTrip(lo); }
  }

  lemma DigitRoundTrip(d: nat)
    requires d < 16
    ensures DigitValue(HexDigits[d]) == Some(d)
  {
  }

  /** The printed line of a byte string determines the byte string: formatting loses nothing. */
  lemma {:induction false} JoinHexRoundTrip(bs: seq<byte>)
    ensures ParseHex(JoinHex(bs)) == Some(bs)
  {
    if |bs| == 1 {
      PairRoundTrip(bs[0]);
      assert [bs[0]] == bs;
    } else if |bs| > 1 {
      var s := JoinHex(bs);
      assert s == HexPair(bs[0]) + " " + JoinHex(bs[1..]);
      assert s[..2] == HexPair(bs[0]);
      assert s[3..] == JoinHex(bs[1..]);
      PairRoundTrip(bs[0]);
      JoinHexRoundTrip(bs[1..]);
      assert [bs[0]] + bs[1..] == bs;
    }
  }

  /** What one input to hex_print produces: the printed line and the calls reaching its target. */
  datatype Printed = Printed(line: string, forwarded: seq<Delivery>)

  /**
    hex_print on one item: the printed line, and the item forwarded unchanged
    when (and only when) the target is truthy.
   */
  function HexPrint(target: Target, x: Item): Printed
  {
    Printed(FormatItem(x), if Truthy(target) then [Delivery(target.id, Send(x))] else [])
  }

  /**
    The printed line reads back to the item: spaced pairs for a byte string,
    one pair and a trailing space for an integer.
   */
  lemma HexLineReadsBack(target: Target, x: Item)
    ensures x.Bytes? ==> ParseHex(HexPrint(target, x).line) == Some(x.bs)
    ensures x.Byte? ==> var line := HexPrint(target, x).line;
      |line| == 3 && line[2] == ' ' && ParsePair(line[..2]) == Some(x.b)
  {
    match x
    case Bytes(bs) => JoinHexRoundTrip(bs);
    case Byte(b) => PairRoundTrip(b);
  }

  /** hex_print over a whole stream: its lines and the trace its target sees. */
  function HexPrintAll(target: Target, xs: seq<Item>): Printed
  {
    if xs == [] then Printed([], [])
    else
      var first := HexPrint(target, xs[0]);
      var rest := HexPrintAll(target, xs[1..]);
      Printed(first.line + "\n" + rest.line, first.forwarded + rest.forwarded)
  }

  /**
    Over a stream, hex_print is a transparent filter for a truthy target (every
    item, unchanged, in order) and a pure sink for `None` or a NullSink.
   */
  lemma {:induction false} HexPrintTransparent(target: Target, xs: seq<Item>)
    ensures Truthy(target) ==> HexPrintAll(target, xs).forwarded == SendAll(target, xs)
    ensures !Truthy(target) ==> HexPrintAll(target, xs).forwarded == []
  {
    if xs != [] {
      HexPrintTransparent(target, xs[1..]);
    }
  }

  // ---------------------------------------------------------------------
  // iter_source and broadcast

  /**
    iter_source: sends every entry of the source to the target in iteration
    order, then closes the target exactly once.
   */
  method IterSource(source: seq<Item>, target: Target) returns (trace: seq<Delivery>)
    requires !target.Absent?
    ensures target.NullSink? ==> trace == []
    ensures target.Stage? ==> |trace| == |source| + 1
    ensures target.Stage? ==> forall i :: 0 <= i < |source| ==> trace[i] == Delivery(target.id, Send(source[i]))
    ensures target.Stage? ==> trace[|source|] == Delivery(target.id, Close)
  {
    trace := [];
    for i := 0 to |source|
      invariant target.NullSink? ==> trace == []
      invariant target.Stage? ==> |trace| == i
      invariant target.Stage? ==> forall k :: 0 <= k < i ==> trace[k] == Delivery(target.id, Send(source[k]))
    {
      trace := trace + Effect(target, Send(source[i]));
    }
    trace := trace + Effect(target, Close);
  }

  /** The ids of the targets that observe a call, in list order (NullSinks observe nothing). */
  function Observers(targets: seq<Target>): (ids: seq<nat>)
    ensures |ids| <= |targets|
  {
    if targets == [] then []
    else (if targets[0].Stage? then [targets[0].id] else []) + Observers(targets[1..])
  }

  /**
    broadcast, for one received item: the item is sent, unchanged, to every
    target in list order.
   */
  method Broadcast(targets: seq<Target>, x: Item) returns (trace: seq<Delivery>)
    requires forall t <- targets :: !t.Absent?
    ensures |trace| == |Observers(targets)|
    ensures forall j :: 0 <= j < |trace| ==> trace[j] == Delivery(Observers(targets)[j], Send(x))
  {
    trace := [];
    for i := 0 to |targets|
      invariant |trace| == |Observers(targets[..i])|
      invariant forall j :: 0 <= j < |trace| ==> trace[j] == Delivery(Observers(targets[..i])[j], Send(x))
    {
      ObserversAppend(targets[..i], [targets[i]]);
      assert targets[..i + 1] == targets[..i] + [targets[i]];
      trace := trace + Effect(targets[i], Send(x));
    }
    assert targets[..|targets|] == targets;
  }

  lemma {:induction false} ObserversAppend(a: seq<Target>, b: seq<Target>)
    ensures Observers(a + b) == Observers(a) + Observers(b)
  {
    if a == [] {
      assert a + b == b;
    } else {
      var head := if a[0].Stage? then [a[0].id] else [];
      assert (a + b)[0] == a[0];
      assert (a + b)[1..] == a[1..] + b;
      calc {
        Observers(a + b);
        head + Observers(a[1..] + b);
        { ObserversAppend(a[1..], b); }
        head + (Observers(a[1..]) + Observers(b));
        (head + Observers(a[1..])) + Observers(b);
      }
    }
  }
}
