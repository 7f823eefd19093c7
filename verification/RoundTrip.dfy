/** What get_packet makes of the bytes the three senders write, with the exact
    condition under which the frame comes back. */
module RoundTrip {
  import opened Wire
  import opened Decoder
  import opened Encoder
  import opened Reference
  import opened Framing
  import Soundness

  /** What a Jandy frame carries between its marks. */
  function JandyBody(payload: seq<byte>): seq<byte> {
    payload + [JandyChecksum(payload)]
  }

  /** What a payload and a check byte may not hold between them to be read as they stand. */
  predicate Plain(v: seq<byte>) {
    NoPair(v, DLE, NUL) && NoPair(v, DLE, ETX) && Quiet(v)
  }

  /** The payload can travel unescaped: together with its checksum it holds no
      DLE NUL, no DLE ETX, and no Pentair preamble. */
  predicate Clean(payload: seq<byte>) {
    Plain(JandyBody(payload))
  }

  lemma JandyFrameIsFramed(payload: seq<byte>)
    ensures JandyFrame(payload) == Framed(JandyBody(payload))
  {
  }

  lemma JandyFrameAccepted(payload: seq<byte>)
    requires |payload| <= 506
    ensures JudgeJandy(JandyFrame(payload)) == Frame(JandyFrame(payload))
  {
    var f := JandyFrame(payload);
    assert f[..|f| - 3] == [DLE, STX] + payload;
  }

  /** The one message whose check byte is always 0A. */
  predicate Tolerated(payload: seq<byte>, check: byte) {
    |payload| >= 3 && payload[1] == 0x04 && payload[2] == 0x03 && check == 0x0a
  }

  /** The verdict on a frame of which these parts are known. */
  lemma JudgedByParts(f: seq<byte>, payload: seq<byte>, check: byte)
    requires |f| == |payload| + 5 <= 511 && f[|f| - 3] == check && Sum(f[..|f| - 3]) == 0x12 + Sum(payload)
    requires f[3] == 0x04 && f[4] == 0x03 && check == 0x0a <==> Tolerated(payload, check)
    ensures JudgeJandy(f) ==
            if check == (0x12 + Sum(payload)) % 256 || Tolerated(payload, check) then Frame(f) else BadChecksum
  {
  }

  lemma JandyJudged(payload: seq<byte>, check: byte)
    requires |payload| <= 506
    ensures var f := Framed(payload + [check]);
            JudgeJandy(f) ==
            if check == (0x12 + Sum(payload)) % 256 || Tolerated(payload, check) then Frame(f) else BadChecksum
  {
    FramedParts(payload, check);
    JudgedByParts(Framed(payload + [check]), payload, check);
  }

  lemma FramedParts(payload: seq<byte>, check: byte)
    ensures var f, n := Framed(payload + [check]), |payload|;
            && |f| == n + 5 && f[|f| - 3] == check && Sum(f[..|f| - 3]) == 0x12 + Sum(payload)
            && f[3] == (if n >= 2 then payload[1] else if n == 1 then check else DLE)
            && f[4] == (if n >= 3 then payload[2] else if n == 2 then check else if n == 1 then DLE else ETX)
  {
    var f := Framed(payload + [check]);
    assert f[..|f| - 3] == [DLE, STX] + payload;
    SumConcat([DLE, STX], payload);
    SumOfTwo(DLE, STX);
  }

  /** The checksum decides: of all check bytes a frame may carry it is returned with the
      sum of what stands before it, or as the one message tolerated, and refused with any
      other. */
  lemma CheckByteDecides(a: seq<byte>, payload: seq<byte>, check: byte, rest: seq<byte>)
    requires Noise(a) && |payload| <= 506 && Plain(payload + [check])
    ensures var f := Framed(payload + [check]);
            Decode(INIT, a + f + rest) ==
            Call(if check == (0x12 + Sum(payload)) % 256 || Tolerated(payload, check) then Frame(f) else BadChecksum,
                 |a| + |payload| + 5)
  {
    UnescapeClean(payload + [check]);
    FrameDecodes(a, payload + [check], rest);
    JandyJudged(payload, check);
  }

  lemma SumUpdate(s: seq<byte>, i: nat, x: byte)
    requires i < |s|
    ensures Sum(s[i := x]) == Sum(s) - s[i] as int + x as int
  {
    var head, tail := s[..i], s[i + 1..];
    assert s == head + ([s[i]] + tail) && s[i := x] == head + ([x] + tail);
    SumConcat(head, [s[i]] + tail);
    SumConcat(head, [x] + tail);
    SumConcat([s[i]], tail);
    SumConcat([x], tail);
    assert [s[i]][..0] == [] && [x][..0] == [];
  }

  /** So a single wrong byte in a payload is always noticed. */
  lemma WrongByteRefused(a: seq<byte>, payload: seq<byte>, i: nat, x: byte, rest: seq<byte>)
    requires Noise(a) && |payload| <= 506 && i < |payload| && x != payload[i]
    requires Plain(payload[i := x] + [JandyChecksum(payload)]) && !Tolerated(payload[i := x], JandyChecksum(payload))
    ensures Decode(INIT, a + Framed(payload[i := x] + [JandyChecksum(payload)]) + rest).reply == BadChecksum
  {
    SumUpdate(payload, i, x);
    SumConcat([DLE, STX], payload);
    SumOfTwo(DLE, STX);
    CheckByteDecides(a, payload[i := x], JandyChecksum(payload), rest);
  }

  /** What a clean packet delivers: the payload between start mark and checksum. */
  lemma PayloadDelivered(payload: seq<byte>)
    requires |payload| <= 506 && Clean(payload)
    ensures var r := Decode(INIT, JandyWire(payload)).reply;
            && r.Frame? && |r.bytes| == |payload| + 5
            && r.bytes[..2] == [0x10, 0x02] && r.bytes[|payload| + 3..] == [0x10, 0x03]
            && (forall i :: 0 <= i < |payload| ==> r.bytes[i + 2] == payload[i])
            && r.bytes[|payload| + 2] as int == (0x12 + Sum(payload)) % 256
  {
    JandyRoundTrip(payload);
    JandyFrameParts(payload);
  }

  lemma JandyFrameParts(payload: seq<byte>)
    ensures var f, n := JandyFrame(payload), |payload|;
            && |f| == n + 5 && f[..2] == [0x10, 0x02] && f[n + 3..] == [0x10, 0x03]
            && (forall i :: 0 <= i < n ==> f[i + 2] == payload[i])
            && f[n + 2] as int == (0x12 + Sum(payload)) % 256
  {
    SumConcat([DLE, STX], payload);
    SumOfTwo(DLE, STX);
  }

  /** A clean frame anywhere in a stream, behind any noise, is returned whole. */
  lemma CleanFrameReturned(a: seq<byte>, payload: seq<byte>, rest: seq<byte>)
    requires Noise(a) && Clean(payload) && |payload| <= 506
    ensures Decode(INIT, a + JandyFrame(payload) + rest) ==
            Call(Frame(JandyFrame(payload)), |a| + |payload| + 5)
  {
    UnescapeClean(JandyBody(payload));
    JandyFrameIsFramed(payload);
    FrameDecodes(a, JandyBody(payload), rest);
    JandyFrameAccepted(payload);
  }

  lemma NulIsNoise()
    ensures Noise([NUL])
  {
    assert [NUL][..0] == [];
  }

  lemma {:induction false} PreamblePace(v: seq<byte>)
    ensures Preamble(false, 0, v) <= |v|
  {
    if v == [] {
    } else {
      PreamblePace(v[..|v| - 1]);
    }
  }

  /** A packet as noise, start mark, and the rest. */
  lemma WireShape(payload: seq<byte>)
    ensures var w, v := JandyWire(payload), JandyBody(payload);
            && w == [NUL] + [DLE, STX] + (v + [DLE, ETX])
            && StartMark(w) == 1
            && Noise([NUL])
  {
    NulIsNoise();
    JandyFrameIsFramed(payload);
    StartMarkAt([NUL], JandyBody(payload) + [DLE, ETX]);
  }

  /** A preamble inside a packet lies in its body, and leaves too few bytes for a
      frame as long as the packet's own. */
  lemma PreambleInPacket(payload: seq<byte>)
    ensures var w, v := JandyWire(payload), JandyBody(payload);
            var p := FirstPreamble(w);
            && (p == |w| <==> Quiet(v))
            && (p < |w| ==> p >= 6)
  {
    var w, v := JandyWire(payload), JandyBody(payload);
    var tail, p := v + [DLE, ETX], FirstPreamble(w);
    WireShape(payload);
    if p < |w| {
      FirstPreambleAt([NUL], tail, p);
      PreamblePace(tail[..p - 3]);
      assert p - 3 < |v|;
      assert tail[..p - 3] == v[..p - 3];
      assert FiresAt(false, 0, v, p - 3);
    } else {
      forall i | 0 <= i < |v| ensures !FiresAt(false, 0, v, i) {
        assert !FiresAt(false, 0, w, i + 3);
        FirstPreambleAt([NUL], tail, i + 3);
        assert tail[..i] == v[..i];
      }
    }
  }

  /** Any frame taken from one Jandy packet is shorter than that packet's frame,
      unless no preamble completes, the packet's own end mark closes it, and no NUL
      is dropped from it. */
  lemma ReturnedLength(payload: seq<byte>)
    ensures var w, c := JandyWire(payload), Decode(INIT, JandyWire(payload));
            c.reply.Frame? ==>
              || |c.reply.bytes| < |payload| + 5
              || (&& Quiet(JandyBody(payload)) && NoPair(JandyBody(payload), DLE, ETX)
                  && c.reply.bytes == Unescape(w[1..]))
  {
    var w, v := JandyWire(payload), JandyBody(payload);
    WireShape(payload);
    PreambleInPacket(payload);
    if PentairCase(w) {
      PentairTail(w);
    } else {
      JandyTail(w);
      if Decode(INIT, w).reply.Frame? && EndMark(w) + 2 == |w| {
        assert FirstPreamble(w) == |w|;
        forall t | 0 <= t < |v| ensures !PairAt(v, t, DLE, ETX) {
          assert !PairAt(w, t + 3, DLE, ETX);
        }
      }
    }
  }

  lemma PentairTail(w: seq<byte>)
    requires PentairCase(w)
    ensures var c := Decode(INIT, w);
            c.reply.Frame? ==> |c.reply.bytes| <= 4 + |w| - FirstPreamble(w) - 1
  {
    DecodeIsReference(w);
    Soundness.PentairOrigin(w[FirstPreamble(w) + 1..]);
  }

  lemma JandyTail(w: seq<byte>)
    requires !PentairCase(w)
    ensures var c, k, e := Decode(INIT, w), StartMark(w), EndMark(w);
            c.reply.Frame? ==>
              && k + 2 <= e && e + 2 <= |w|
              && |c.reply.bytes| <= e + 2 - k
              && (e + 2 == |w| ==> c.reply.bytes == Unescape(w[k..]) && FirstPreamble(w) == |w|)
  {
    Soundness.JandyCaseCall(w);
    var k, e := StartMark(w), EndMark(w);
    if Decode(INIT, w).reply.Frame? && e + 2 == |w| {
      SliceToEnd(w, k, e + 2);
      FramedInTime(w);
      assert FirstPreamble(w) != e + 1;
    }
  }

  lemma SliceToEnd(w: seq<byte>, k: nat, n: nat)
    requires k <= n == |w|
    ensures w[k..n] == w[k..]
  {
  }

  /** A frame is returned only if the buffer did not fill inside it. */
  lemma FramedInTime(w: seq<byte>)
    requires !PentairCase(w) && Decode(INIT, w).reply.Frame?
    ensures EndMark(w) + 2 <= BufferEnd(w)
  {
    DecodeIsReference(w);
  }

  /** Jandy round trip, exactly: the packet of any payload the sender accepts comes
      back whole if and only if the payload is clean; otherwise nothing as long as
      its frame is ever returned. */
  lemma JandyRoundTrip(payload: seq<byte>)
    requires |payload| <= 506
    ensures var c := Decode(INIT, JandyWire(payload));
            && (c == Call(Frame(JandyFrame(payload)), |payload| + 6) <==> Clean(payload))
            && (c.reply.Frame? && !Clean(payload) ==> |c.reply.bytes| < |JandyFrame(payload)|)
  {
    var w, v := JandyWire(payload), JandyBody(payload);
    assert w == [NUL] + JandyFrame(payload) + [];
    if Clean(payload) {
      NulIsNoise();
      CleanFrameReturned([NUL], payload, []);
    } else {
      ReturnedLength(payload);
      var c := Decode(INIT, w);
      if c.reply.Frame? && |c.reply.bytes| >= |payload| + 5 {
        var i :| 0 <= i < |v| && PairAt(v, i, DLE, NUL);
        WireShape(payload);
        assert PairAt(w[1..], i + 2, DLE, NUL);
        UnescapeShrinks(w[1..], i + 2);
      }
    }
  }

  // -------------------------------------------------------------------- escaping

  function Escaped(b: byte): seq<byte> {
    if b == DLE then [DLE, NUL] else [b]
  }

  /** The protocol's escaping: a NUL after every DLE. */
  function Stuff(v: seq<byte>): seq<byte> {
    if v == [] then [] else
    var n := |v| - 1;
    Stuff(v[..n]) + Escaped(v[n])
  }

  lemma {:induction false} UnescapeStuff(v: seq<byte>)
    ensures Unescape(Stuff(v)) == v
  {
    if v == [] {
    } else {
      var n := |v| - 1;
      assert v == v[..n] + [v[n]];
      UnescapeStuff(v[..n]);
      StuffEnd(v[..n]);
      StuffedJoin(v[..n], Stuff(v[..n]), v[n], Stuff(v));
    }
  }

  lemma StuffEnd(v: seq<byte>)
    ensures Stuff(v) != [] ==> Stuff(v)[|Stuff(v)| - 1] != DLE
  {
  }

  lemma StuffedJoin(v: seq<byte>, s: seq<byte>, b: byte, t: seq<byte>)
    requires Unescape(s) == v && t == s + Escaped(b)
    requires s != [] ==> s[|s| - 1] != DLE
    ensures Unescape(t) == v + [b]
  {
    UnescapeOne(b);
    UnescapeConcat(s, Escaped(b));
  }

  lemma UnescapeOne(b: byte)
    ensures Unescape(Escaped(b)) == [b]
  {
    assert [b][..0] == [];
    assert [DLE, NUL][..1] == [DLE];
    assert [DLE][..0] == [];
  }

  lemma NoPairConcat(a: seq<byte>, b: seq<byte>)
    requires NoPair(a, DLE, ETX) && NoPair(b, DLE, ETX)
    requires a != [] ==> a[|a| - 1] != DLE
    ensures NoPair(a + b, DLE, ETX)
  {
    forall i | 0 <= i < |a + b| ensures !PairAt(a + b, i, DLE, ETX) {
      if i < |a| {
        assert !PairAt(a, i, DLE, ETX);
      } else {
        assert !PairAt(b, i - |a|, DLE, ETX);
      }
    }
  }

  lemma {:induction false} StuffHasNoEndMark(v: seq<byte>)
    ensures NoPair(Stuff(v), DLE, ETX)
  {
    if v == [] {
    } else {
      var n := |v| - 1;
      StuffHasNoEndMark(v[..n]);
      StuffEnd(v[..n]);
      NoPairConcat(Stuff(v[..n]), Escaped(v[n]));
    }
  }

  /** A preamble inside a frame takes the call over, whatever stands around the frame. */
  lemma UnquietIsPentair(a: seq<byte>, v: seq<byte>, rest: seq<byte>)
    requires Noise(a) && NoPair(v, DLE, ETX) && |Unescape(v)| + 4 < MAX_PACKET && !Quiet(v)
    ensures PentairCase(a + Framed(v) + rest)
  {
    var w, tail := a + Framed(v) + rest, v + [DLE, ETX] + rest;
    assert w == a + [DLE, STX] + tail;
    var i :| 0 <= i < |v| && FiresAt(false, 0, v, i);
    assert tail[..i] == v[..i];
    FirstPreambleAt(a, tail, |a| + 2 + i);
    assert FirstPreamble(w) <= |a| + 2 + i;
    FrameMarks(a, v, rest);
  }

  /** What a call that a preamble takes over returns is no Jandy frame. */
  lemma PentairIsNotJandy(w: seq<byte>, payload: seq<byte>)
    requires PentairCase(w)
    ensures Decode(INIT, w).reply != Frame(JandyFrame(payload))
  {
    Soundness.PentairCaseOrigin(w);
    var f := JandyFrame(payload);
    assert f[..4][0] == DLE;
  }

  /** Escaping, exactly: behind any noise and whatever follows, the unescaped frame comes
      back, whatever DLEs, NULs and ETXs the payload holds, if and only if no preamble
      completes in the escaped body. */
  lemma EscapedRoundTrip(a: seq<byte>, payload: seq<byte>, rest: seq<byte>)
    requires |payload| <= 506 && Noise(a)
    ensures var v := Stuff(JandyBody(payload));
            Decode(INIT, a + Framed(v) + rest) == Call(Frame(JandyFrame(payload)), |a| + |v| + 4) <==> Quiet(v)
  {
    var v := JandyBody(payload);
    UnescapeStuff(v);
    StuffHasNoEndMark(v);
    if Quiet(Stuff(v)) {
      FrameDecodes(a, Stuff(v), rest);
      JandyFrameIsFramed(payload);
      JandyFrameAccepted(payload);
    } else {
      UnquietIsPentair(a, Stuff(v), rest);
      PentairIsNotJandy(a + Framed(Stuff(v)) + rest, payload);
    }
  }

  /** The preamble itself, as a payload, is lost even when escaped. */
  lemma PreambleIsLost()
    ensures var v := Stuff(JandyBody(HEADER));
            Decode(INIT, [NUL] + Framed(v) + []) != Call(Frame(JandyFrame(HEADER)), |v| + 5)
  {
    var v := Stuff(JandyBody(HEADER));
    NoDleToStuff(HEADER);
    assert JandyBody(HEADER)[..4] == HEADER;
    assert v[..4] == HEADER;
    HeaderFires(v);
    NulIsNoise();
    EscapedRoundTrip([NUL], HEADER, []);
  }

  lemma HeaderFires(v: seq<byte>)
    requires HEADER <= v
    ensures FiresAt(false, 0, v, 3)
  {
    assert v[..0] == [];
    PreambleSnoc(false, 0, v, 0);
    PreambleSnoc(false, 0, v, 1);
    PreambleSnoc(false, 0, v, 2);
  }

  lemma {:induction false} NoDleToStuff(v: seq<byte>)
    requires DLE !in v
    ensures Stuff(v) == v
  {
    if v == [] {
    } else {
      NoDleToStuff(v[..|v| - 1]);
    }
  }

  /** Without escaping, two bytes are enough: DLE NUL is lost. */
  lemma DleNulIsLost()
    ensures Decode(INIT, JandyWire([DLE, NUL])) != Call(Frame(JandyFrame([DLE, NUL])), 8)
  {
    JandyRoundTrip([DLE, NUL]);
    assert PairAt(JandyBody([DLE, NUL]), 0, DLE, NUL);
  }

  /** The body of an acknowledgement as it goes out. */
  function AckBody(ackType: byte, command: byte): seq<byte> {
    var p := AckPayload(ackType, command);
    p + (if command == DLE then [NUL] else []) + [JandyChecksum(p)]
  }

  lemma AckBodyQuiet(ackType: byte, command: byte)
    ensures Quiet(AckBody(ackType, command))
  {
    var v := AckBody(ackType, command);
    assert v[..0] == [];
    PreambleSnoc(false, 0, v, 0);
    PreambleSnoc(false, 0, v, 1);
    PreambleSnoc(false, 0, v, 2);
    PreambleSnoc(false, 0, v, 3);
    if command == DLE {
      PreambleSnoc(false, 0, v, 4);
    }
  }

  lemma AckWireShape(ackType: byte, command: byte)
    ensures AckWire(ackType, command) == [NUL] + Framed(AckBody(ackType, command)) + []
    ensures JandyFrame(AckPayload(ackType, command)) ==
            [DLE, STX, DEV_MASTER, CMD_ACK, ackType, command,
             (0x13 + ackType as int + command as int) % 256, DLE, ETX]
  {
    AckSum(ackType, command);
  }

  /** A type byte of DLE in front of ETX ends the frame there. */
  lemma AckCutShort()
    ensures Decode(INIT, AckWire(DLE, ETX)).used == 7
  {
    var v, w := AckBody(DLE, ETX), AckWire(DLE, ETX);
    AckWireShape(DLE, ETX);
    assert w == [NUL] + Framed(v[..2]) + w[7..];
    NulIsNoise();
    AckBodyQuiet(DLE, ETX);
    QuietPrefix(v, 2);
    FrameDecodes([NUL], v[..2], w[7..]);
  }

  /** Acknowledgements, exactly: the packet decodes to the unescaped frame with its
      valid checksum for every type and command, except that a type byte of DLE is
      lost when the command is NUL or ETX. */
  lemma AckRoundTrip(ackType: byte, command: byte)
    ensures var f := [DLE, STX, DEV_MASTER, CMD_ACK, ackType, command,
                      (0x13 + ackType as int + command as int) % 256, DLE, ETX];
            Decode(INIT, AckWire(ackType, command)) == Call(Frame(f), |AckWire(ackType, command)|) <==>
            !(ackType == DLE && (command == NUL || command == ETX))
  {
    var p := AckPayload(ackType, command);
    AckWireShape(ackType, command);
    if ackType == DLE && command == ETX {
      AckCutShort();
    } else {
      NulIsNoise();
      AckBodyQuiet(ackType, command);
      AckUnescaped(ackType, command);
      FrameDecodes([NUL], AckBody(ackType, command), []);
      JandyFrameIsFramed(p);
      JandyFrameAccepted(p);
    }
  }

  lemma QuietPrefix(v: seq<byte>, n: nat)
    requires Quiet(v) && n <= |v|
    ensures Quiet(v[..n])
  {
    forall i | 0 <= i < n ensures !FiresAt(false, 0, v[..n], i) {
      assert v[..n][..i] == v[..i];
      assert !FiresAt(false, 0, v, i);
    }
  }

  lemma AckUnescaped(ackType: byte, command: byte)
    ensures var u, v := Unescape(AckBody(ackType, command)), JandyBody(AckPayload(ackType, command));
            if ackType == DLE && command == NUL then |u| < |v| else u == v
  {
    var p := AckPayload(ackType, command);
    var c := [JandyChecksum(p)];
    if ackType == DLE && command == NUL {
      UnescapeShrinks(AckBody(ackType, command), 2);
    } else {
      assert NoPair(p, DLE, NUL);
      UnescapeClean(p);
      if command == DLE {
        assert (p + [NUL])[..4] == p;
        UnescapeConcat(p + [NUL], c);
      } else {
        assert AckBody(ackType, command) == p + c;
        UnescapeConcat(p, c);
      }
      assert [JandyChecksum(p)][..0] == [];
    }
  }
}
