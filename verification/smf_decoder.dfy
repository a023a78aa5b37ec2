/**
  The Standard MIDI File track-event decoder `process_smf_track`
  (midiproc.py): it pulls the bytes of a track's event stream one at a time,
  reads each event's variable-length delta-time, skips System Exclusive and
  meta events, tracks running status, and pushes the status and data bytes of
  each channel event downstream (normally into the live decoder).

  The coroutine's position in its loop becomes an explicit `Phase`; `Step` is
  the reference transition on a value and class `SmfTrack` the decoder object
  proved to perform it.  The pacing sleep is not modelled as time: the tick
  count it is computed from is recorded in the ghost trace `delays`.
 */
module SmfDecoder {
  import opened MidiBytes

  /** Where the decoder is within the current event. */
  datatype Phase =
    | Delta(count: nat, acc: nat)  // reading a delta-time: `count` bytes read so far, value `acc`
    | Event                        // expecting the event's first byte
    | Length                       // expecting the one-byte length of a sysex or meta event
    | MetaType                     // expecting a meta event's type byte
    | Skip(left: nat)              // discarding the `left` remaining bytes of a sysex or meta event
    | Data1                        // expecting the first data byte after a new status byte
    | Data2                        // expecting the second data byte
    | Failed                       // the decoder raised and has finished

  /**
    How many data bytes follow a status.  `Intended` is the rule of the MIDI
    protocol (one for 0xC0..0xDF, two otherwise).  `AsWritten` is what line 141
    of midiproc.py computes under Python 2, where a one-character string
    compares greater than every integer: the test `not (rstat >= 0xC0 and
    rstat <= 0xDF)` is then always true and a second data byte is always read.
   */
  datatype DataRule = AsWritten | Intended

  /**
    The decoder's state: its phase, the running status (`None` until the first
    status byte) and the two things it produces, the bytes sent downstream
    and the delta-time tick counts it paced on.
   */
  datatype Smf = Smf(phase: Phase, rstat: Option<byte>, sent: seq<byte>, delays: seq<nat>)

  const Start: Smf := Smf(Delta(0, 0), None, [], [])

  /** Delta-times are at most four bytes of seven bits each. */
  const DeltaLimit: nat := 0x1000_0000

  const MetaEvent: byte := 0xFF

  function ReadsSecondByte(rule: DataRule, status: byte): bool
  {
    match rule
    case AsWritten => true
    case Intended => DataCount(status) == 2
  }

  /** Sends the status and the first data byte, then waits for the second data byte if there is one. */
  function EmitFirst(rule: DataRule, s: Smf, status: byte, b: byte): Smf
  {
    s.(sent := s.sent + [status, b],
       phase := if ReadsSecondByte(rule, status) then Data2 else Delta(0, 0))
  }

  /** The handling of one byte. */
  function Step(rule: DataRule, s: Smf, b: byte): Smf
  {
    match s.phase
    case Failed => s
    case Delta(count, acc) =>
      // l = l*128 + (z & 127); stop on a clear top bit or after the fourth byte
      var value := acc * 128 + b % 128;
      if b < 128 || count + 1 == 4 then s.(phase := Event, delays := s.delays + [value])
      else s.(phase := Delta(count + 1, value))
    case Event =>
      if b == SOX || b == EOX then s.(phase := Length)
      else if b == MetaEvent then s.(phase := MetaType)
      else if b >= StatusBase then s.(phase := Data1, rstat := Some(b))
      else (
        match s.rstat
        case None => s.(phase := Failed)
        case Some(status) => EmitFirst(rule, s, status, b))
    case Length => s.(phase := if b == 0 then Delta(0, 0) else Skip(b))
    case MetaType => s.(phase := Length)
    case Skip(left) => s.(phase := if left <= 1 then Delta(0, 0) else Skip(left - 1))
    case Data1 => (
      match s.rstat
      case None => s.(phase := Failed)
      case Some(status) => EmitFirst(rule, s, status, b))
    case Data2 => s.(phase := Delta(0, 0), sent := s.sent + [b])
  }

  /** The decoder after consuming a whole byte string. */
  function Run(rule: DataRule, s: Smf, bs: seq<byte>): Smf
    decreases |bs|
  {
    if bs == [] then s else Run(rule, Step(rule, s, bs[0]), bs[1..])
  }

  function Pow128(k: nat): (p: nat)
    ensures p >= 1
  {
    if k == 0 then 1 else 128 * Pow128(k - 1)
  }

  /** A status the decoder can adopt as running status. */
  predicate IsRunningStatus(b: int)
  {
    StatusBase <= b <= 0xFE && b != SOX && b != EOX
  }

  /** The decoder's invariant. */
  ghost predicate Inv(s: Smf)
  {
    (s.phase.Delta? ==> s.phase.count < 4 && s.phase.acc < Pow128(s.phase.count)) &&
    (s.phase.Skip? ==> 1 <= s.phase.left < 256) &&
    (s.phase.Data1? || s.phase.Data2? ==> s.rstat.Some?) &&
    (s.rstat.Some? ==> IsRunningStatus(s.rstat.value)) &&
    (forall d <- s.delays :: d < DeltaLimit)
  }

  lemma DeltaBound(count: nat, acc: nat, low: nat)
    requires count < 4 && acc < Pow128(count) && low < 128
    ensures acc * 128 + low < Pow128(count + 1) <= DeltaLimit
  {
    assert Pow128(4) == DeltaLimit;
    assert acc * 128 <= (Pow128(count) - 1) * 128;
    if count < 3 {
      assert Pow128(count + 1) <= Pow128(3) by {
        if count == 0 { assert Pow128(1) == 128; }
        if count == 1 { assert Pow128(2) == 128 * 128; }
      }
    }
  }

  /**
    Every byte keeps the invariant; in particular a delta-time never exceeds
    four bytes and every recorded delta-time is below 2^28, and running status
    is only ever a status byte other than SOX, EOX and 0xFF.
   */
  lemma StepKeepsInv(rule: DataRule, s: Smf, b: byte)
    requires Inv(s)
    ensures Inv(Step(rule, s, b))
  {
    if s.phase.Delta? {
      DeltaBound(s.phase.count, s.phase.acc, b % 128);
      var r := Step(rule, s, b);
      assert forall d <- r.delays :: d in s.delays || d == s.phase.acc * 128 + b % 128;
    }
  }

  lemma {:induction false} RunKeepsInv(rule: DataRule, s: Smf, bs: seq<byte>)
    requires Inv(s)
    ensures Inv(Run(rule, s, bs))
    decreases |bs|
  {
    if bs != [] {
      StepKeepsInv(rule, s, bs[0]);
      RunKeepsInv(rule, Step(rule, s, bs[0]), bs[1..]);
    }
  }

  lemma {:induction false} RunAppend(rule: DataRule, s: Smf, a: seq<byte>, b: seq<byte>)
    ensures Run(rule, s, a + b) == Run(rule, Run(rule, s, a), b)
    decreases |a|
  {
    if a == [] {
      assert a + b == b;
    } else {
      assert (a + b)[0] == a[0];
      assert (a + b)[1..] == a[1..] + b;
      RunAppend(rule, Step(rule, s, a[0]), a[1..], b);
    }
  }

  // ---------------------------------------------------------------------
  // Delta-times

  /** The continuation bytes of a variable-length quantity: the high-order seven-bit groups, top bit set. */
  function VlqHigh(m: nat): seq<byte>
    decreases m
  {
    if m == 0 then [] else VlqHigh(m / 128) + [128 + m % 128]
  }

  /** The shortest variable-length-quantity encoding of `n`. */
  function Vlq(n: nat): seq<byte>
  {
    VlqHigh(n / 128) + [n % 128]
  }

  lemma {:induction false} VlqHighLength(m: nat, k: nat)
    requires m < Pow128(k)
    ensures |VlqHigh(m)| <= k
    decreases m
  {
    if m > 0 {
      assert k > 0;
      VlqHighLength(m / 128, k - 1);
    }
  }

  lemma {:induction false} VlqHighRun(rule: DataRule, s: Smf, m: nat)
    requires s.phase == Delta(0, 0) && m < Pow128(3)
    ensures Run(rule, s, VlqHigh(m)) == s.(phase := Delta(|VlqHigh(m)|, m))
    decreases m
  {
    if m > 0 {
      var hi := m / 128;
      VlqHighRun(rule, s, hi);
      VlqHighLength(hi, 2);
      RunAppend(rule, s, VlqHigh(hi), [128 + m % 128]);
      var mid := s.(phase := Delta(|VlqHigh(hi)|, hi));
      assert Run(rule, mid, [128 + m % 128]) == Step(rule, mid, 128 + m % 128);
    }
  }

  /**
    Reading a delta-time inverts its encoding: the variable-length quantity
    of any `n` below 2^28 is decoded to `n`, which is recorded as the pacing
    delay, and the decoder then expects the event.
   */
  lemma VlqRoundTrip(rule: DataRule, s: Smf, n: nat)
    requires s.phase == Delta(0, 0) && n < DeltaLimit
    ensures Run(rule, s, Vlq(n)) == s.(phase := Event, delays := s.delays + [n])
  {
    var hi := n / 128;
    VlqHighRun(rule, s, hi);
    VlqHighLength(hi, 3);
    RunAppend(rule, s, VlqHigh(hi), [n % 128]);
    var mid := s.(phase := Delta(|VlqHigh(hi)|, hi));
    assert Run(rule, mid, [n % 128]) == Step(rule, mid, n % 128);
  }

  /**
    A delta-time is at most four bytes: after four bytes the value is complete
    whatever the top bit of the fourth, so a run of continuation bytes cannot
    swallow the event that follows.
   */
  lemma DeltaCappedAtFour(rule: DataRule, s: Smf, b0: byte, b1: byte, b2: byte, b3: byte)
    requires s.phase == Delta(0, 0) && b0 >= 128 && b1 >= 128 && b2 >= 128
    ensures Run(rule, s, [b0, b1, b2, b3]) ==
            s.(phase := Event,
               delays := s.delays + [((b0 % 128 * 128 + b1 % 128) * 128 + b2 % 128) * 128 + b3 % 128])
  {
    var s1 := Step(rule, s, b0);
    var s2 := Step(rule, s1, b1);
    var s3 := Step(rule, s2, b2);
    assert s3.phase == Delta(3, (b0 % 128 * 128 + b1 % 128) * 128 + b2 % 128);
    assert [b0, b1, b2, b3][1..] == [b1, b2, b3];
    assert [b1, b2, b3][1..] == [b2, b3];
    assert [b2, b3][1..] == [b3];
    assert Run(rule, s, [b0, b1, b2, b3]) == Run(rule, s1, [b1, b2, b3]);
    assert Run(rule, s1, [b1, b2, b3]) == Run(rule, s2, [b2, b3]);
    assert Run(rule, s2, [b2, b3]) == Run(rule, s3, [b3]);
    assert Run(rule, s3, [b3]) == Step(rule, s3, b3);
  }

  // ---------------------------------------------------------------------
  // Events

  /** The remaining bytes of a sysex or meta event are discarded and nothing is sent. */
  lemma {:induction false} SkipBody(rule: DataRule, s: Smf, body: seq<byte>)
    requires s.phase == Skip(|body|) && |body| >= 1
    ensures Run(rule, s, body) == s.(phase := Delta(0, 0))
    decreases |body|
  {
    var s1 := Step(rule, s, body[0]);
    if |body| > 1 {
      SkipBody(rule, s1, body[1..]);
    }
  }

  lemma SkipCounted(rule: DataRule, s: Smf, body: seq<byte>)
    requires s.phase == Length && |body| < 256
    ensures Run(rule, s, [|body|] + body) == s.(phase := Delta(0, 0))
  {
    var s1 := Step(rule, s, |body|);
    assert ([|body|] + body)[1..] == body;
    if |body| > 0 {
      SkipBody(rule, s1, body);
    }
  }

  /**
    A sysex event (F0 or F7) consumes its one length byte and exactly that many
    further bytes, sends nothing, and leaves running status alone.
   */
  lemma SysexEventSkipped(rule: DataRule, s: Smf, kind: byte, body: seq<byte>)
    requires s.phase == Event && (kind == SOX || kind == EOX) && |body| < 256
    ensures Run(rule, s, [kind, |body|] + body) == s.(phase := Delta(0, 0))
  {
    assert ([kind, |body|] + body)[1..] == [|body|] + body;
    SkipCounted(rule, s.(phase := Length), body);
  }

  /**
    A meta event (FF) consumes its type byte, which is ignored, one length byte
    and exactly that many further bytes, and sends nothing.
   */
  lemma MetaEventSkipped(rule: DataRule, s: Smf, metaType: byte, body: seq<byte>)
    requires s.phase == Event && |body| < 256
    ensures Run(rule, s, [MetaEvent, metaType, |body|] + body) == s.(phase := Delta(0, 0))
  {
    assert ([MetaEvent, metaType, |body|] + body)[1..] == [metaType, |body|] + body;
    assert ([metaType, |body|] + body)[1..] == [|body|] + body;
    SkipCounted(rule, s.(phase := Length), body);
  }

  /** A channel event as the decoder reads it: an adoptable status and its data bytes under the protocol rule. */
  predicate IsTrackMessage(m: seq<byte>)
  {
    |m| >= 1 && IsRunningStatus(m[0]) && |m| == 1 + DataCount(m[0]) &&
    forall i :: 1 <= i < |m| ==> IsData(m[i])
  }

  /**
    A channel event, written with its status byte or, under running status,
    without it, makes the decoder send the status followed by the data bytes
    (one for 0xC0..0xDF, two otherwise), adopt the status as running status,
    and wait for the next delta-time.
   */
  lemma ChannelEventSent(s: Smf, m: seq<byte>, omitStatus: bool)
    requires s.phase == Event && IsTrackMessage(m)
    requires omitStatus ==> s.rstat == Some(m[0])
    ensures Run(Intended, s, if omitStatus then m[1..] else m) ==
            s.(phase := Delta(0, 0), rstat := Some(m[0]), sent := s.sent + m)
  {
    var st := m[0];
    var start := if omitStatus then s else s.(phase := Data1, rstat := Some(st));
    assert start.rstat == Some(st);
    if !omitStatus {
      assert Step(Intended, s, st) == start;
      assert m[1..] == m[1..];
    }
    var s1 := EmitFirst(Intended, start, st, m[1]);
    assert Step(Intended, start, m[1]) == s1;
    var done := s.(phase := Delta(0, 0), rstat := Some(st), sent := s.sent + m);
    if |m| == 2 {
      assert s1 == done by { assert [st, m[1]] == m; }
      assert m[1..][1..] == [];
      assert Run(Intended, start, m[1..]) == Run(Intended, s1, []);
    } else {
      assert Step(Intended, s1, m[2]) == done by {
        assert s.sent + [st, m[1]] + [m[2]] == s.sent + m;
      }
      assert m[1..][1..] == [m[2]];
      assert Run(Intended, start, m[1..]) == Run(Intended, s1, [m[2]]);
      assert Run(Intended, s1, [m[2]]) == Step(Intended, s1, m[2]);
    }
    assert Run(Intended, start, m[1..]) == done;
    if !omitStatus {
      assert m == [st] + m[1..];
      RunAppend(Intended, s, [st], m[1..]);
      assert Run(Intended, s, [st]) == start;
    }
  }

  /** A data byte where an event should start, with no running status yet, is a fatal error. */
  lemma DataWithoutStatusFails(rule: DataRule, s: Smf, b: byte)
    requires s.phase == Event && s.rstat.None? && IsData(b)
    ensures Step(rule, s, b) == s.(phase := Failed)
  {
  }

  /** Once failed, the decoder consumes nothing more and sends nothing more. */
  lemma {:induction false} FailedIsFinal(rule: DataRule, s: Smf, bs: seq<byte>)
    requires s.phase == Failed
    ensures Run(rule, s, bs) == s
    decreases |bs|
  {
    if bs != [] {
      FailedIsFinal(rule, s, bs[1..]);
    }
  }

  /**
    The decoder object: the phase and running status are its state, the
    bytes sent downstream and the delta-times it paced on are ghost traces.
   */
  class SmfTrack {
    var phase: Phase
    var rstat: Option<byte>
    ghost var sent: seq<byte>
    ghost var delays: seq<nat>

    ghost function Model(): Smf
      reads this
    {
      Smf(phase, rstat, sent, delays)
    }

    ghost predicate Valid()
      reads this
    {
      Inv(Model())
    }

    /** `process_smf_track(target)`: primed, waiting for the first delta-time. */
    constructor ()
      ensures Model() == Start && Valid()
    {
      phase := Delta(0, 0);
      rstat := None;
      sent, delays := [], [];
    }

    /**
      Receives one byte; `ok` is false once the decoder has raised, after
      which it accepts nothing more.
     */
    method Accept(b: byte) returns (ok: bool)
      requires Valid()
      modifies this
      ensures Valid()
      ensures Model() == Step(Intended, old(Model()), b)
      ensures ok <==> !phase.Failed?
    {
      StepKeepsInv(Intended, Model(), b);
      match phase {
        case Failed =>
        case Delta(count, acc) =>
          var l := acc * 128 + b % 128;
          if b < 128 || count + 1 == 4 {
            delays := delays + [l];
            phase := Event;
          } else {
            phase := Delta(count + 1, l);
          }
        case Event =>
          if b == SOX || b == EOX {
            phase := Length;
          } else if b == MetaEvent {
            phase := MetaType;
          } else if b >= StatusBase {
            rstat := Some(b);
            phase := Data1;
          } else if rstat.None? {
            phase := Failed;
          } else {
            SendFirst(b);
          }
        case Length =>
          phase := if b == 0 then Delta(0, 0) else Skip(b);
        case MetaType =>
          phase := Length;
        case Skip(left) =>
          phase := if left <= 1 then Delta(0, 0) else Skip(left - 1);
        case Data1 =>
          SendFirst(b);
        case Data2 =>
          sent := sent + [b];
          phase := Delta(0, 0);
      }
      ok := !phase.Failed?;
    }

    /** Sends the running status and the first data byte. */
    method SendFirst(b: byte)
      requires rstat.Some?
      modifies this
      ensures Model() == EmitFirst(Intended, old(Model()), old(rstat.value), b)
    {
      sent := sent + [rstat.value, b];
      if DataCount(rstat.value) == 2 {
        phase := Data2;
      } else {
        phase := Delta(0, 0);
      }
    }
  }
}
