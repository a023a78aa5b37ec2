/**
  The live MIDI byte-stream decoder `midi_in_stream` (midiproc.py): a per-byte
  state machine modelled on the running-status and System Exclusive rules of
  the MIDI 1.0 Detailed Specification.  It departs from that protocol in three
  ways: a System Exclusive message leaves running status in place, and inside
  one every byte but EOX, status and realtime bytes included, is payload.

  `Step` is the reference transition on a value (`Live`: the decoder's
  registers plus what each of its three targets has received so far); class
  `MidiInStream` is the stateful decoder itself, whose `Accept` is proved to
  perform exactly `Step`.  The lemmas state the emission rules about `Run`,
  the fold of `Step` over a byte string.
 */
module LiveDecoder {
  import opened MidiBytes
  import Stages

  /**
    Which optional targets are real.  `msg_target` is always sent to; the
    realtime and sysex targets are sent to only when they test true (a NullSink
    or `None` does not).
   */
  datatype Wiring = Wiring(rtOn: bool, sysexOn: bool)

  /**
    The decoder's registers and its three output traces:
    `rstat` is the running status (0 when there is none), `bytecount` the data
    bytes still missing from the message in `msg`, `origbytecount` the data
    bytes a message of status `rstat` needs, `insysex`/`sysexMsg` the open
    System Exclusive message; `msgs`, `rts` and `sysexes` are what the message,
    realtime and sysex targets have been sent, in order.
   */
  datatype Live = Live(
    rstat: byte,
    bytecount: int,
    origbytecount: int,
    msg: seq<byte>,
    insysex: bool,
    sysexMsg: seq<byte>,
    msgs: seq<seq<byte>>,
    rts: seq<byte>,
    sysexes: seq<seq<byte>>)

  /** The state a freshly started decoder is in. */
  const Initial: Live := Live(0, 0, 0, [], false, [], [], [], [])

  /** The handling of one received byte, in the priority order of the source. */
  function Step(w: Wiring, s: Live, b: byte): Live
  {
    if s.insysex && b != EOX then
      // inside a sysex every byte but EOX is payload, realtime bytes included
      if w.sysexOn then s.(sysexMsg := s.sysexMsg + [b]) else s
    else if b >= SysRtBase then
      if w.rtOn then s.(rts := s.rts + [b]) else s
    else if b == EOX then
      s.(insysex := false, sysexMsg := [],
         sysexes := if w.sysexOn then s.sysexes + [s.sysexMsg] else s.sysexes)
    else if b == SOX then
      s.(insysex := true, sysexMsg := [])
    else if b >= SysComBase then
      // system common cancels running status
      s.(rstat := 0)
    else if b >= StatusBase then
      s.(rstat := b, bytecount := DataCount(b), origbytecount := DataCount(b), msg := [b])
    else if s.rstat != 0 then
      if s.bytecount - 1 == 0 then
        s.(bytecount := s.origbytecount, msgs := s.msgs + [s.msg + [b]], msg := [s.rstat])
      else
        s.(bytecount := s.bytecount - 1, msg := s.msg + [b])
    else
      // a data byte without running status is ignored
      s
  }

  /** The decoder after consuming a whole byte string. */
  function Run(w: Wiring, s: Live, bs: seq<byte>): Live
    decreases |bs|
  {
    if bs == [] then s else Run(w, Step(w, s, bs[0]), bs[1..])
  }

  /** The accumulator holds the running status followed by the data bytes received so far. */
  ghost predicate Accumulating(s: Live)
  {
    IsChannelStatus(s.rstat) &&
    s.origbytecount == DataCount(s.rstat) &&
    1 <= s.bytecount <= s.origbytecount &&
    |s.msg| == 1 + s.origbytecount - s.bytecount &&
    s.msg[0] == s.rstat &&
    forall i :: 1 <= i < |s.msg| ==> IsData(s.msg[i])
  }

  /** The decoder's invariant. */
  ghost predicate Inv(w: Wiring, s: Live)
  {
    (s.rstat == 0 || Accumulating(s)) &&
    (!s.insysex || !w.sysexOn ==> s.sysexMsg == []) &&
    (forall m <- s.msgs :: IsChannelMessage(m)) &&
    (forall x <- s.rts :: x >= SysRtBase)
  }

  /** At a message boundary: nothing of the next message has been received yet. */
  ghost predicate Ready(s: Live)
  {
    s.rstat != 0 ==> s.bytecount == s.origbytecount && s.msg == [s.rstat]
  }

  lemma InitialInv(w: Wiring)
    ensures Inv(w, Initial) && Ready(Initial)
  {
  }

  /**
    Every byte keeps the invariant: running status is absent or a channel
    status whose accumulator is consistent, the sysex buffer is empty outside a
    sysex, every emitted message is a complete channel message, and the
    realtime target only ever receives realtime bytes.
   */
  lemma StepKeepsInv(w: Wiring, s: Live, b: byte)
    requires Inv(w, s)
    ensures Inv(w, Step(w, s, b))
  {
    var r := Step(w, s, b);
    if !(s.insysex && b != EOX) && b < SysRtBase && b != EOX && b != SOX && b < SysComBase
       && b < StatusBase && s.rstat != 0 && s.bytecount - 1 == 0 {
      var m := s.msg + [b];
      assert IsChannelMessage(m);
      assert forall x <- r.msgs :: x in s.msgs || x == m;
    }
  }

  lemma {:induction false} RunKeepsInv(w: Wiring, s: Live, bs: seq<byte>)
    requires Inv(w, s)
    ensures Inv(w, Run(w, s, bs))
    decreases |bs|
  {
    if bs != [] {
      StepKeepsInv(w, s, bs[0]);
      RunKeepsInv(w, Step(w, s, bs[0]), bs[1..]);
    }
  }

  lemma {:induction false} RunAppend(w: Wiring, s: Live, a: seq<byte>, b: seq<byte>)
    ensures Run(w, s, a + b) == Run(w, Run(w, s, a), b)
    decreases |a|
  {
    if a == [] {
      assert a + b == b;
    } else {
      assert (a + b)[0] == a[0];
      assert (a + b)[1..] == a[1..] + b;
      RunAppend(w, Step(w, s, a[0]), a[1..], b);
    }
  }

  /**
    A channel status byte outside a sysex becomes the running status and opens
    a message expecting one data byte for 0xC0..0xDF and two otherwise;
    nothing is emitted yet.
   */
  lemma StatusOpensMessage(w: Wiring, s: Live, b: byte)
    requires !s.insysex && IsChannelStatus(b)
    ensures var r := Step(w, s, b);
      r.rstat == b && r.msg == [b] && r.bytecount == r.origbytecount &&
      (r.bytecount == 1 <==> 0xC0 <= b <= 0xDF) && (r.bytecount == 2 <==> !(0xC0 <= b <= 0xDF)) &&
      r.msgs == s.msgs && r.rts == s.rts && r.sysexes == s.sysexes
  {
  }

  /**
    From a message boundary under running status, one complete group of data
    bytes emits exactly one message, the running status followed by the group,
    and returns to the boundary with everything else unchanged.
   */
  lemma DataGroup(w: Wiring, s: Live, data: seq<byte>)
    requires Inv(w, s) && !s.insysex && s.rstat != 0 && Ready(s)
    requires |data| == DataCount(s.rstat) && forall i :: 0 <= i < |data| ==> IsData(data[i])
    ensures Run(w, s, data) == s.(msgs := s.msgs + [[s.rstat] + data])
  {
    var s1 := Step(w, s, data[0]);
    if |data| == 1 {
      assert Run(w, s1, data[1..]) == s1;
      assert s.msg + [data[0]] == [s.rstat] + data;
    } else {
      assert s1 == s.(bytecount := 1, msg := [s.rstat, data[0]]);
      var s2 := Step(w, s1, data[1]);
      assert s2 == s.(msgs := s.msgs + [[s.rstat] + data]) by {
        assert [s.rstat, data[0]] + [data[1]] == [s.rstat] + data;
      }
      assert data[1..][0] == data[1] && data[1..][1..] == [];
      assert Run(w, s1, data[1..]) == Run(w, s2, []);
    }
  }

  /**
    A partial message emits nothing: after a channel status and fewer data
    bytes than it needs, no message has been sent and the count of missing
    bytes is what remains.
   */
  lemma PartialMessagePending(w: Wiring, s: Live, m: seq<byte>)
    requires !s.insysex && 1 <= |m| && IsChannelStatus(m[0]) && |m| <= DataCount(m[0])
    requires forall i :: 1 <= i < |m| ==> IsData(m[i])
    ensures var r := Run(w, s, m);
      r.msgs == s.msgs && r.rstat == m[0] && r.msg == m && r.bytecount == DataCount(m[0]) - (|m| - 1)
  {
    var s1 := Step(w, s, m[0]);
    if |m| == 1 {
      assert Run(w, s1, m[1..]) == s1;
    } else {
      assert m[1..][0] == m[1] && m[1..][1..] == [];
      assert Run(w, s1, m[1..]) == Step(w, s1, m[1]);
      assert [m[0]] + [m[1]] == m;
    }
  }

  /**
    A complete channel message (status and exactly its data bytes) sent
    outside a sysex emits exactly that message once, from any state, and
    leaves the decoder at a boundary under the message's running status.
   */
  lemma CompleteMessage(w: Wiring, s: Live, m: seq<byte>)
    requires Inv(w, s) && !s.insysex && IsChannelMessage(m)
    ensures Run(w, s, m) == s.(rstat := m[0], bytecount := DataCount(m[0]),
                               origbytecount := DataCount(m[0]), msg := [m[0]],
                               msgs := s.msgs + [m])
  {
    var s1 := Step(w, s, m[0]);
    StepKeepsInv(w, s, m[0]);
    DataGroup(w, s1, m[1..]);
    assert [m[0]] + m[1..] == m;
  }

  /** Each group prefixed with the same status byte. */
  function Prefixed(status: byte, groups: seq<seq<byte>>): (r: seq<seq<byte>>)
    ensures |r| == |groups|
    ensures forall i :: 0 <= i < |groups| ==> r[i] == [status] + groups[i]
  {
    if groups == [] then [] else [[status] + groups[0]] + Prefixed(status, groups[1..])
  }

  /** Every group is one complete set of data bytes for `status`. */
  ghost predicate DataGroups(status: int, groups: seq<seq<byte>>)
  {
    forall k :: 0 <= k < |groups| ==>
      |groups[k]| == DataCount(status) && forall i :: 0 <= i < |groups[k]| ==> IsData(groups[k][i])
  }

  lemma DataGroupsTail(status: int, groups: seq<seq<byte>>)
    requires groups != [] && DataGroups(status, groups)
    ensures DataGroups(status, groups[1..])
  {
    forall k | 0 <= k < |groups| - 1
      ensures |groups[1..][k]| == DataCount(status) && forall i :: 0 <= i < |groups[1..][k]| ==> IsData(groups[1..][k][i])
    {
      assert groups[1..][k] == groups[k + 1];
    }
  }

  /**
    Running status: after a message boundary under status `rstat`, every
    further complete group of data bytes (no status byte) emits one message
    with that same status, in input order.
   */
  lemma {:induction false} RunningStatusGroups(w: Wiring, s: Live, groups: seq<seq<byte>>)
    requires Inv(w, s) && !s.insysex && s.rstat != 0 && Ready(s)
    requires DataGroups(s.rstat, groups)
    ensures Run(w, s, Flatten(groups)) == s.(msgs := s.msgs + Prefixed(s.rstat, groups))
    decreases |groups|
  {
    if groups == [] {
      assert s.msgs + [] == s.msgs;
    } else {
      var g, rest := groups[0], groups[1..];
      var s1 := s.(msgs := s.msgs + [[s.rstat] + g]);
      assert Run(w, s, Flatten(groups)) == Run(w, s1, Flatten(rest)) by {
        RunAppend(w, s, g, Flatten(rest));
        DataGroup(w, s, g);
      }
      assert Inv(w, s1) by {
        DataGroup(w, s, g);
        RunKeepsInv(w, s, g);
      }
      DataGroupsTail(s.rstat, groups);
      RunningStatusGroups(w, s1, rest);
      assert s1.msgs + Prefixed(s.rstat, rest) == s.msgs + Prefixed(s.rstat, groups) by {
        assert Prefixed(s.rstat, groups) == [[s.rstat] + g] + Prefixed(s.rstat, rest);
        AppendAssoc(s.msgs, [[s.rstat] + g], Prefixed(s.rstat, rest));
      }
    }
  }

  /**
    A list of complete channel messages, each with its own status byte, sent
    outside a sysex reaches the message target unchanged, one for one and in
    order; the realtime and sysex targets receive nothing.
   */
  lemma {:induction false} DecodeMessages(w: Wiring, s: Live, msgs: seq<seq<byte>>)
    requires Inv(w, s) && !s.insysex
    requires forall m <- msgs :: IsChannelMessage(m)
    ensures var r := Run(w, s, Flatten(msgs));
      r.msgs == s.msgs + msgs && r.rts == s.rts && r.sysexes == s.sysexes &&
      !r.insysex && r.sysexMsg == s.sysexMsg && Inv(w, r)
    decreases |msgs|
  {
    if msgs == [] {
      assert s.msgs + [] == s.msgs;
    } else {
      var m := msgs[0];
      assert m in msgs;
      RunAppend(w, s, m, Flatten(msgs[1..]));
      CompleteMessage(w, s, m);
      var s1 := Run(w, s, m);
      RunKeepsInv(w, s, m);
      forall x <- msgs[1..] ensures IsChannelMessage(x) {
        assert x in msgs;
      }
      DecodeMessages(w, s1, msgs[1..]);
      assert s1.msgs + msgs[1..] == s.msgs + msgs;
    }
  }

  /**
    Outside a sysex a realtime byte (0xF8 and above) goes alone to the
    realtime target, if there is one, and changes nothing else.
   */
  lemma RealtimeAlone(w: Wiring, s: Live, b: byte)
    requires !s.insysex && b >= SysRtBase
    ensures Step(w, s, b) == s.(rts := if w.rtOn then s.rts + [b] else s.rts)
  {
  }

  /** The decoder with its realtime trace set aside. */
  function Quiet(s: Live): Live
  {
    s.(rts := [])
  }

  lemma {:induction false} RunIgnoresRts(w: Wiring, s1: Live, s2: Live, bs: seq<byte>)
    requires Quiet(s1) == Quiet(s2)
    ensures Quiet(Run(w, s1, bs)) == Quiet(Run(w, s2, bs))
    decreases |bs|
  {
    if bs != [] {
      RunIgnoresRts(w, Step(w, s1, bs[0]), Step(w, s2, bs[0]), bs[1..]);
    }
  }

  /**
    A realtime byte injected anywhere outside a sysex, even in the middle of a
    partially received message, is forwarded at once and leaves the decoding
    of everything around it (messages, sysex payloads, all registers) exactly
    as if it had not been there.
   */
  lemma RealtimeTransparent(w: Wiring, s: Live, pre: seq<byte>, b: byte, post: seq<byte>)
    requires !Run(w, s, pre).insysex && b >= SysRtBase
    ensures w.rtOn ==> Run(w, s, pre + [b]).rts == Run(w, s, pre).rts + [b]
    ensures Quiet(Run(w, s, pre + [b] + post)) == Quiet(Run(w, s, pre + post))
  {
    var mid := Run(w, s, pre);
    RunAppend(w, s, pre, [b]);
    RunAppend(w, s, pre + [b], post);
    RunAppend(w, s, pre, post);
    assert Run(w, mid, [b]) == Step(w, mid, b);
    RunIgnoresRts(w, Step(w, mid, b), mid, post);
  }

  /**
    Inside a sysex, every byte other than EOX, realtime bytes included, is
    appended to the buffer in order, and only when there is a sysex target.
   */
  lemma {:induction false} SysexPayload(w: Wiring, s: Live, payload: seq<byte>)
    requires s.insysex && forall i :: 0 <= i < |payload| ==> payload[i] != EOX
    ensures Run(w, s, payload) == s.(sysexMsg := if w.sysexOn then s.sysexMsg + payload else s.sysexMsg)
    decreases |payload|
  {
    if payload != [] {
      var s1 := Step(w, s, payload[0]);
      SysexPayload(w, s1, payload[1..]);
      assert s.sysexMsg + [payload[0]] + payload[1..] == s.sysexMsg + payload;
    }
  }

  /**
    SOX, payload, EOX outside a sysex: the sysex target receives the payload
    verbatim without its delimiters (an empty payload for SOX EOX), and every
    other register and trace, running status and a half-built message
    included, is left as it was.
   */
  lemma SysexCapture(w: Wiring, s: Live, payload: seq<byte>)
    requires Inv(w, s) && !s.insysex
    requires forall i :: 0 <= i < |payload| ==> payload[i] != EOX
    ensures Run(w, s, [SOX] + payload + [EOX]) ==
            s.(sysexes := if w.sysexOn then s.sysexes + [payload] else s.sysexes)
  {
    var s1 := Step(w, s, SOX);
    assert s1 == s.(insysex := true, sysexMsg := []);
    RunAppend(w, s, [SOX], payload);
    RunAppend(w, s, [SOX] + payload, [EOX]);
    SysexPayload(w, s1, payload);
    assert [] + payload == payload;
  }

  /** EOX with no open sysex still sends the (empty) buffer to the sysex target. */
  lemma StrayEox(w: Wiring, s: Live)
    requires Inv(w, s) && !s.insysex
    ensures Step(w, s, EOX) == s.(sysexes := if w.sysexOn then s.sysexes + [[]] else s.sysexes)
  {
  }

  /**
    Data bytes arriving with no running status are dropped: no message, no
    error, no other change.
   */
  lemma {:induction false} OrphanDataDropped(w: Wiring, s: Live, data: seq<byte>)
    requires !s.insysex && s.rstat == 0 && forall i :: 0 <= i < |data| ==> IsData(data[i])
    ensures Run(w, s, data) == s
    decreases |data|
  {
    if data != [] {
      OrphanDataDropped(w, s, data[1..]);
    }
  }

  /**
    A system-common byte (0xF1..0xF6) cancels running status, so the data
    bytes following it are dropped and only the running status changed.
   */
  lemma SystemCommonCancels(w: Wiring, s: Live, c: byte, data: seq<byte>)
    requires !s.insysex && 0xF1 <= c <= 0xF6
    requires forall i :: 0 <= i < |data| ==> IsData(data[i])
    ensures Run(w, s, [c] + data) == s.(rstat := 0)
  {
    assert ([c] + data)[1..] == data;
    OrphanDataDropped(w, s.(rstat := 0), data);
  }

  /**
    The decoder object.  The three output traces are ghost: they record what
    `msg_target`, `rt_target` and `sysex_target` have been sent.
   */
  class MidiInStream {
    const wiring: Wiring
    var rstat: byte
    var bytecount: int
    var origbytecount: int
    var msg: seq<byte>
    var insysex: bool
    var sysexMsg: seq<byte>
    ghost var msgOut: seq<seq<byte>>
    ghost var rtOut: seq<byte>
    ghost var sysexOut: seq<seq<byte>>

    /** The object's state as a value of the reference machine. */
    ghost function Model(): Live
      reads this
    {
      Live(rstat, bytecount, origbytecount, msg, insysex, sysexMsg, msgOut, rtOut, sysexOut)
    }

    ghost predicate Valid()
      reads this
    {
      Inv(wiring, Model())
    }

    /**
      `midi_in_stream(msg_target, rt_target, sysex_target)`: the optional
      targets default to NullSink, and only truthy ones are ever sent to.
     */
    constructor (rtTarget: Stages.Target, sysexTarget: Stages.Target)
      ensures wiring == Wiring(Stages.Truthy(Stages.OrNullSink(rtTarget)),
                               Stages.Truthy(Stages.OrNullSink(sysexTarget)))
      ensures Model() == Initial
      ensures Valid()
    {
      wiring := Wiring(Stages.Truthy(Stages.OrNullSink(rtTarget)),
                       Stages.Truthy(Stages.OrNullSink(sysexTarget)));
      rstat, bytecount, origbytecount, msg := 0, 0, 0, [];
      insysex, sysexMsg := false, [];
      msgOut, rtOut, sysexOut := [], [], [];
    }

    /** Receives one byte. */
    method Accept(b: byte)
      requires Valid()
      modifies this
      ensures Valid()
      ensures Model() == Step(wiring, old(Model()), b)
    {
      StepKeepsInv(wiring, Model(), b);
      if insysex && b != EOX {
        if wiring.sysexOn {
          sysexMsg := sysexMsg + [b];
        }
      } else if b >= SysRtBase {
        if wiring.rtOn {
          rtOut := rtOut + [b];
        }
      } else if b == EOX {
        insysex := false;
        if wiring.sysexOn {
          sysexOut := sysexOut + [sysexMsg];
        }
        sysexMsg := [];
      } else if b == SOX {
        insysex := true;
        sysexMsg := [];
      } else if b >= SysComBase {
        rstat := 0;
      } else if b >= StatusBase {
        rstat := b;
        bytecount := 2;
        if 0xC0 <= b <= 0xDF {
          bytecount := 1;
        }
        origbytecount := bytecount;
        msg := [rstat];
      } else if rstat != 0 {
        msg := msg + [b];
        bytecount := bytecount - 1;
        if bytecount == 0 {
          bytecount := origbytecount;
          msgOut := msgOut + [msg];
          msg := [rstat];
        }
      }
    }
  }
}
