/** Pentair frames through the decoder: the exact condition for a round trip. */
module PentairRoundTrip {
  import opened Wire
  import opened Decoder
  import opened Encoder
  import opened Reference
  import opened Framing
  import Soundness

  /** What follows the preamble in the frame of a command. */
  function PentairBody(cmd: seq<byte>): seq<byte>
    requires 5 <= |cmd|
  {
    PentairCommand(cmd) + PentairCheck(cmd)
  }

  /** The preamble does not complete again before the last byte of b.  The counter
      is still at its last stage when b begins, so an opening A5 completes it. */
  predicate Steady(b: seq<byte>) {
    forall i :: 0 <= i < |b| - 1 ==> !FiresAt(true, 3, b, i)
  }

  /** Noise in front of a Pentair frame must also leave the preamble counter where an FF
      counts as the preamble's first. */
  predicate Resting(a: seq<byte>) {
    Noise(a) && 0 <= Preamble(false, 0, a) <= 1
  }

  /** The length fits in a byte and the sum in two. */
  predicate Fits(cmd: seq<byte>) {
    5 <= |cmd| <= 260 && PentairSum(cmd) < 0x1_0000
  }

  lemma PentairFrameJudged(cmd: seq<byte>)
    requires 5 <= |cmd| <= 260
    ensures PentairFrame(cmd) == HEADER + PentairBody(cmd)
    ensures JudgePentair(PentairFrame(cmd)) == if Fits(cmd) then Frame(PentairFrame(cmd)) else BadChecksum
  {
    var f := PentairFrame(cmd);
    assert f[3..|f| - 2] == [PP4] + PentairCommand(cmd);
  }

  /** Up to 256 bytes the sum always fits. */
  lemma PentairFrameAccepted(cmd: seq<byte>)
    requires 5 <= |cmd| <= 256
    ensures Fits(cmd) && JudgePentair(PentairFrame(cmd)) == Frame(PentairFrame(cmd))
  {
    PentairFrameJudged(cmd);
    assert PentairSum(cmd) <= 255 * 257;
  }

  lemma {:induction false} SumOfFull(s: seq<byte>)
    requires forall i :: 0 <= i < |s| ==> s[i] == 255
    ensures Sum(s) == 255 * |s|
  {
    if s == [] {
    } else {
      SumOfFull(s[..|s| - 1]);
    }
  }

  /** From 257 bytes on it may not: FF all through. */
  lemma SumOverflows()
    ensures !Fits(seq<byte>(257, _ => 255))
  {
    var cmd := seq<byte>(257, _ => 255);
    var head, tail := [PP4] + cmd[..4] + [252], cmd[5..];
    assert PentairCommand(cmd) == cmd[..4] + [252] + tail;
    assert [PP4] + PentairCommand(cmd) == head + tail;
    SumConcat(head, tail);
    SumConcat([PP4] + cmd[..4], [252]);
    SumConcat([PP4], cmd[..4]);
    SumOfFull(cmd[..4]);
    SumOfFull(tail);
    assert [PP4][..0] == [] && [252][..0] == [];
  }

  /** Behind resting noise the preamble completes with the header's last byte. */
  lemma PreambleFound(a: seq<byte>, rest: seq<byte>)
    requires Resting(a)
    ensures FirstPreamble(a + HEADER + rest) == |a| + 3
    ensures var w := a + HEADER + rest; StartMark(w) > |a| + 3
  {
    var w := a + HEADER + rest;
    assert w[..|a|] == a;
    PreambleSnoc(false, 0, w, |a|);
    PreambleSnoc(false, 0, w, |a| + 1);
    PreambleSnoc(false, 0, w, |a| + 2);
    assert FiresAt(false, 0, w, |a| + 3);
    forall i | 0 <= i < |a| + 3 ensures !FiresAt(false, 0, w, i) {
      if i < |a| {
        assert w[..i] == a[..i];
        assert !FiresAt(false, 0, a, i);
      }
    }
    forall i | 0 <= i <= |a| + 3 ensures !PairAt(w, i, DLE, STX) {
      assert i + 1 < |a| ==> !PairAt(a, i, DLE, STX);
    }
  }

  /** A Pentair frame behind resting noise is handed to the Pentair half of the reference. */
  lemma ReachesPentair(a: seq<byte>, rest: seq<byte>)
    requires Resting(a)
    ensures Decode(INIT, a + HEADER + rest) == After(PentairReference(rest), |a| + 4)
  {
    var w := a + HEADER + rest;
    DecodeIsReference(w);
    PreambleFound(a, rest);
    assert w[|a| + 4..] == rest;
  }

  lemma SteadyInStream(b: seq<byte>, rest: seq<byte>)
    ensures forall i :: 0 <= i < |b| ==> (FiresAt(true, 3, b + rest, i) <==> FiresAt(true, 3, b, i))
  {
    forall i | 0 <= i < |b| ensures FiresAt(true, 3, b + rest, i) <==> FiresAt(true, 3, b, i) {
      assert (b + rest)[..i] == b[..i];
    }
  }

  /** Behind a preamble, a steady body of the announced length is the frame. */
  lemma SteadyBodyReturned(b: seq<byte>, rest: seq<byte>)
    requires |b| >= 7 && |b| == b[4] as int + 7 && Steady(b)
    ensures PentairReference(b + rest) == Call(JudgePentair(HEADER + b), |b|)
  {
    var s := b + rest;
    SteadyInStream(b, rest);
    assert s[..|b|] == b && s[4] == b[4];
    assert FirstFire(true, 3, s, 0) >= |b| - 1;
  }

  /** Behind other noise no preamble completes with it. */
  lemma PreambleMissed(a: seq<byte>, rest: seq<byte>)
    requires Noise(a) && !Resting(a)
    ensures FirstPreamble(a + HEADER + rest) > |a| + 3
  {
    var w := a + HEADER + rest;
    PreambleBounds(a);
    assert w[..|a|] == a;
    PreambleSnoc(false, 0, w, |a|);
    PreambleSnoc(false, 0, w, |a| + 1);
    PreambleSnoc(false, 0, w, |a| + 2);
    forall i | 0 <= i <= |a| + 3 && i < |w| ensures !FiresAt(false, 0, w, i) {
      if i < |a| {
        assert w[..i] == a[..i];
        assert !FiresAt(false, 0, a, i);
      }
    }
  }

  /** Behind noise a steady Pentair frame is returned whole, whatever follows, if and only
      if the noise is resting. */
  lemma PentairFrameReturned(a: seq<byte>, cmd: seq<byte>, rest: seq<byte>)
    requires Noise(a) && Fits(cmd) && Steady(PentairBody(cmd))
    ensures Decode(INIT, a + PentairFrame(cmd) + rest) == Call(Frame(PentairFrame(cmd)), |a| + |cmd| + 6) <==>
            Resting(a)
  {
    PentairFrameJudged(cmd);
    if Resting(a) {
      PentairFrameDecodes(a, cmd, rest);
    } else {
      var w := a + PentairFrame(cmd) + rest;
      SplitAfterHeader(a, PentairBody(cmd), rest);
      PreambleMissed(a, PentairBody(cmd) + rest);
      NotBehindPreamble(w, PentairFrame(cmd), |a| + |cmd| + 6);
    }
  }

  /** A Pentair frame is not returned from where no preamble stood. */
  lemma NotBehindPreamble(w: seq<byte>, f: seq<byte>, used: nat)
    requires |f| >= 11 && f[0] == PP1 && used >= |f| && FirstPreamble(w) >= used - (|f| - 4)
    ensures Decode(INIT, w) != Call(Frame(f), used)
  {
    Soundness.DecodeSound(w);
    Soundness.FrameOrigin(w);
    assert f[..2][0] == f[0];
  }

  /** A steady one is judged as it stands. */
  lemma PentairFrameDecodes(a: seq<byte>, cmd: seq<byte>, rest: seq<byte>)
    requires Resting(a) && 5 <= |cmd| <= 260 && Steady(PentairBody(cmd))
    ensures Decode(INIT, a + PentairFrame(cmd) + rest) ==
            Call(JudgePentair(PentairFrame(cmd)), |a| + |cmd| + 6)
  {
    PentairFrameJudged(cmd);
    BodyDecodes(a, PentairBody(cmd), rest);
  }

  lemma BodyDecodes(a: seq<byte>, b: seq<byte>, rest: seq<byte>)
    requires Resting(a) && |b| >= 7 && |b| == b[4] as int + 7 && Steady(b)
    ensures Decode(INIT, a + (HEADER + b) + rest) == Call(JudgePentair(HEADER + b), |a| + |b| + 4)
  {
    SplitAfterHeader(a, b, rest);
    ReachesPentair(a, b + rest);
    SteadyBodyReturned(b, rest);
  }

  lemma SplitAfterHeader(a: seq<byte>, b: seq<byte>, rest: seq<byte>)
    ensures a + (HEADER + b) + rest == a + HEADER + (b + rest)
  {
  }

  /** The checksum decides here too: of all pairs of check bytes a steady body may end in,
      it is returned with the sum of A5 and what stands before them, high byte first, and
      refused with any other. */
  lemma CheckBytesDecide(a: seq<byte>, b: seq<byte>, rest: seq<byte>)
    requires Resting(a) && |b| >= 7 && |b| == b[4] as int + 7 && Steady(b)
    ensures var sum := 0xA5 + Sum(b[..|b| - 2]);
            Decode(INIT, a + (HEADER + b) + rest) ==
            Call(if sum == 256 * (b[|b| - 2] as int) + b[|b| - 1] as int then Frame(HEADER + b) else BadChecksum,
                 |a| + |b| + 4)
  {
    BodyDecodes(a, b, rest);
    var f := HEADER + b;
    assert f[3..|f| - 2] == [PP4] + b[..|b| - 2];
    SumConcat([PP4], b[..|b| - 2]);
    assert [PP4][..0] == [];
  }

  /** If the preamble completes again inside the frame, no call ends with it. */
  lemma UnsteadyIsLost(b: seq<byte>, rest: seq<byte>)
    requires |b| >= 7 && |b| == b[4] as int + 7 && !Steady(b)
    ensures PentairReference(b + rest) != Call(Frame(HEADER + b), |b|)
  {
    var s := b + rest;
    SteadyInStream(b, rest);
    var i :| 0 <= i < |b| - 1 && FiresAt(true, 3, b, i);
    assert FiresAt(true, 3, s, i);
    var q := FirstFire(true, 3, s, 0);
    assert q <= i && s[4] == b[4];
    Soundness.PentairOrigin(s[q + 1..]);
  }

  /** Pentair round trip, exactly, for every command that fits the packet: the part of it
      that its length byte announces comes back, length byte corrected and checksum
      valid, if and only if its sum fits in two bytes and the preamble does not complete
      again inside the frame; so the command comes back whole if and only if besides its
      length fits in a byte. */
  lemma PentairRoundTrips(cmd: seq<byte>, stale: byte)
    requires 5 <= |cmd| <= 504
    ensures var c, part := Decode(INIT, PentairWire(cmd, stale)), Announced(cmd);
            && (c == Call(Frame(PentairFrame(part)), |part| + 7) <==> Fits(part) && Steady(PentairBody(part)))
            && (c == Call(Frame(PentairFrame(cmd)), |cmd| + 7) <==> Fits(cmd) && Steady(PentairBody(cmd)))
  {
    PartRoundTrips(Announced(cmd), PentairTrailer(cmd, stale));
    if |cmd| > 260 {
      NoLongFrame(PentairWire(cmd, stale), cmd);
    }
  }

  /** What a packet delivers: the command's own bytes in their places, but the fifth, which
      is the length, and behind them their sum; of a longer command, as many as the
      length announces. */
  lemma CommandDelivered(cmd: seq<byte>, stale: byte)
    requires 5 <= |cmd| <= 504 && Fits(Announced(cmd)) && Steady(PentairBody(Announced(cmd)))
    ensures var r, n := Decode(INIT, PentairWire(cmd, stale)).reply, if |cmd| <= 260 then |cmd| else |cmd| - 256;
            && r.Frame? && |r.bytes| == n + 6
            && r.bytes[..4] == [0xFF, 0x00, 0xFF, 0xA5] && r.bytes[8] as int == n - 5
            && (forall i :: 0 <= i < n && i != 4 ==> r.bytes[i + 4] == cmd[i])
            && Sum(r.bytes[3..n + 4]) == 256 * (r.bytes[n + 4] as int) + r.bytes[n + 5] as int
  {
    PentairRoundTrips(cmd, stale);
    FrameParts(Announced(cmd));
  }

  lemma FrameParts(part: seq<byte>)
    requires Fits(part)
    ensures var f, n := PentairFrame(part), |part|;
            && |f| == n + 6 && f[..4] == [0xFF, 0x00, 0xFF, 0xA5] && f[8] as int == n - 5
            && (forall i :: 0 <= i < n && i != 4 ==> f[i + 4] == part[i])
            && Sum(f[3..n + 4]) == 256 * (f[n + 4] as int) + f[n + 5] as int
  {
    assert PentairFrame(part)[3..|part| + 4] == [PP4] + PentairCommand(part);
  }

  lemma PartRoundTrips(part: seq<byte>, rest: seq<byte>)
    requires 5 <= |part| <= 260
    ensures Decode(INIT, [NUL] + PentairFrame(part) + rest) == Call(Frame(PentairFrame(part)), |part| + 7) <==>
            Fits(part) && Steady(PentairBody(part))
  {
    var b := PentairBody(part);
    assert [NUL][..0] == [];
    PentairFrameJudged(part);
    if Steady(b) {
      PentairFrameDecodes([NUL], part, rest);
    } else {
      UnsteadyDecodes([NUL], b, rest);
    }
  }

  lemma UnsteadyDecodes(a: seq<byte>, b: seq<byte>, rest: seq<byte>)
    requires Resting(a) && |b| >= 7 && |b| == b[4] as int + 7 && !Steady(b)
    ensures Decode(INIT, a + (HEADER + b) + rest) != Call(Frame(HEADER + b), |a| + |b| + 4)
  {
    SplitAfterHeader(a, b, rest);
    ReachesPentair(a, b + rest);
    UnsteadyIsLost(b, rest);
  }

  /** No frame is longer than its length byte can say. */
  lemma NoLongFrame(w: seq<byte>, cmd: seq<byte>)
    requires |cmd| > 260
    ensures Decode(INIT, w).reply != Frame(PentairFrame(cmd))
  {
    Soundness.DecodeSound(w);
    var f := PentairFrame(cmd);
    assert f[..2] == [PP1, PP2];
  }

  /** A command that opens with A5 is lost, whatever else it holds. */
  lemma OpeningA5IsLost(cmd: seq<byte>, stale: byte)
    requires 5 <= |cmd| <= 504 && cmd[0] == PP4
    ensures Decode(INIT, PentairWire(cmd, stale)) != Call(Frame(PentairFrame(cmd)), |cmd| + 7)
  {
    PentairRoundTrips(cmd, stale);
    var b := PentairBody(cmd);
    assert b[0] == cmd[0] && b[..0] == [];
    assert FiresAt(true, 3, b, 0);
  }

  /** What a caller can look at: no FF A5 in the frame, and no A5 in front. */
  lemma {:induction false} SteadyWithoutPair(b: seq<byte>)
    requires b != [] ==> b[0] != PP4
    requires NoPair(b, PP3, PP4)
    ensures Steady(b)
  {
    forall i | 0 <= i < |b| - 1 ensures !FiresAt(true, 3, b, i) {
      if i > 0 && FiresAt(true, 3, b, i) {
        assert b[..i][..i - 1] == b[..i - 1];
        assert PairAt(b, i - 1, PP3, PP4);
      }
    }
  }
}
