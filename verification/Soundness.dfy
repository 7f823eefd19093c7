/** What every value returned by get_packet is, and which bytes of the stream it
    was made from. */
module Soundness {
  import opened Wire
  import opened Decoder
  import opened Reference

  predicate IsJandyFrame(f: seq<byte>) {
    && MIN_PACKET <= |f| < MAX_PACKET
    && f[..2] == [DLE, STX] && f[|f| - 2..] == [DLE, ETX]
    && JandyChecksumOk(f)
  }

  predicate IsPentairFrame(f: seq<byte>) {
    && 11 <= |f| < MAX_PACKET
    && f[..4] == HEADER && |f| == f[8] as int + 11
    && PentairChecksumOk(f)
  }

  datatype Protocol = JANDY | PENTAIR | P_UNKNOWN

  /** getProtocolType */
  function ProtocolType(f: seq<byte>): Protocol
    requires f != []
  {
    if f[0] == DLE then JANDY else if f[0] == PP1 then PENTAIR else P_UNKNOWN
  }

  /** A four-byte frame cannot pass the checksum, so a frame too small to use is
      always reported as a bad checksum first. */
  lemma FourBytesFail(f: seq<byte>)
    requires |f| == 4 && f[..2] == [DLE, STX] && f[2..] == [DLE, ETX]
    ensures JudgeJandy(f) == BadChecksum
  {
    assert f == [DLE, STX, DLE, ETX];
    assert f[..1] == [DLE];
    assert [DLE][..0] == [];
  }

  /** Of the bytes b behind a completed preamble, the first n end with the last of a row
      of preambles, each the first that completed behind the one before; n may be 0. */
  predicate Restarted(b: seq<byte>, n: nat)
    decreases |b|
  {
    n == 0 ||
    var q := FirstFire(true, 3, b, 0);
    q < n && q < |b| && Restarted(b[q + 1..], n - q - 1)
  }

  lemma RestartedLonger(b: seq<byte>, q: nat, n: nat, m: nat)
    requires q == FirstFire(true, 3, b, 0) < |b| && Restarted(b[q + 1..], n) && m == n + (q + 1)
    ensures Restarted(b, m)
  {
  }

  /** f is a Pentair frame, and its bytes after the preamble are the last ones of b[..used]. */
  predicate Verbatim(f: seq<byte>, b: seq<byte>, used: nat) {
    IsPentairFrame(f) && |f| - 4 <= used <= |b| && f[4..] == b[used - (|f| - 4)..used]
  }

  lemma VerbatimLonger(f: seq<byte>, b: seq<byte>, q: nat, n: nat, used: nat)
    requires q < |b| && Verbatim(f, b[q + 1..], n) && used == n + (q + 1)
    ensures Verbatim(f, b, used)
  {
    SliceOfSuffix(b, q + 1, used - (|f| - 4), used);
  }

  lemma SliceOfSuffix(b: seq<byte>, n: nat, lo: nat, hi: nat)
    requires n <= lo <= hi <= |b|
    ensures b[n..][lo - n..hi - n] == b[lo..hi]
  {
  }

  /** How many bytes a call consumed ahead of those of the frame it returned. */
  function Ahead(c: Call): int {
    if c.reply.Frame? then c.used - (|c.reply.bytes| - 4) else 0
  }

  /** The frame f was read right behind the preamble that completed last in b[..used]. */
  predicate TakenFrom(f: seq<byte>, b: seq<byte>, used: nat) {
    Verbatim(f, b, used) && Restarted(b, used - (|f| - 4))
  }

  /** The same in a whole stream: f stands behind its first preamble, or behind one that
      restarted the frame. */
  predicate TakenFromStream(f: seq<byte>, w: seq<byte>, used: nat) {
    && Verbatim(f, w, used)
    && var p, n := FirstPreamble(w), used - (|f| - 4);
       p < n && p < |w| && Restarted(w[p + 1..], n - p - 1)
  }

  lemma CallTakenFrom(w: seq<byte>, p: nat, inner: Call)
    requires p == FirstPreamble(w) < |w|
    requires inner.reply.Frame? ==> TakenFrom(inner.reply.bytes, w[p + 1..], inner.used)
    ensures var c := After(inner, p + 1); c.reply.Frame? ==> TakenFromStream(c.reply.bytes, w, c.used)
  {
    var c := After(inner, p + 1);
    if c.reply.Frame? {
      VerbatimLonger(c.reply.bytes, w, p, inner.used, c.used);
    }
  }

  lemma PentairWhole(b: seq<byte>)
    requires |b| >= 5 && b[4] as int + 7 <= |b|
    ensures var n := b[4] as int + 7;
            var reply := JudgePentair(HEADER + b[..n]);
            && reply != TooSmall && reply != TooLarge
            && (reply.Frame? ==> Verbatim(reply.bytes, b, n) && |reply.bytes| == n + 4)
  {
    var n := b[4] as int + 7;
    var f := HEADER + b[..n];
    assert f[..4] == HEADER && f[8] == b[4] && f[4..] == b[..n];
    assert b[0..n] == b[..n];
  }

  lemma {:induction false} PentairBytes(b: seq<byte>)
    ensures var c := PentairReference(b);
            && c.used <= |b| && c.reply != TooSmall && c.reply != TooLarge
            && (c.reply.Frame? ==> Verbatim(c.reply.bytes, b, c.used))
    decreases |b|
  {
    var n := if |b| >= 5 then b[4] as int + 7 else |b| + 1;
    var q := FirstFire(true, 3, b, 0);
    if q < |b| && q + 1 < n {
      PentairBytes(b[q + 1..]);
      var c, inner := PentairReference(b), PentairReference(b[q + 1..]);
      if c.reply.Frame? {
        VerbatimLonger(c.reply.bytes, b, q, inner.used, c.used);
      }
    } else if n <= |b| {
      PentairWhole(b);
    }
  }

  lemma {:induction false} PentairRestarted(b: seq<byte>)
    ensures var a := Ahead(PentairReference(b)); a >= 0 && Restarted(b, a)
    decreases |b|
  {
    var n := if |b| >= 5 then b[4] as int + 7 else |b| + 1;
    var q := FirstFire(true, 3, b, 0);
    if q < |b| && q + 1 < n {
      PentairRestarted(b[q + 1..]);
      var c, inner := PentairReference(b), PentairReference(b[q + 1..]);
      if c.reply.Frame? {
        RestartedLonger(b, q, Ahead(inner), Ahead(c));
      }
    } else if n <= |b| {
      PentairWhole(b);
    }
  }

  lemma PentairOrigin(b: seq<byte>)
    ensures var c := PentairReference(b);
            && c.used <= |b| && c.reply != TooSmall && c.reply != TooLarge
            && (c.reply.Frame? ==> TakenFrom(c.reply.bytes, b, c.used))
  {
    PentairBytes(b);
    PentairRestarted(b);
  }

  /** A framed string that passes is a Jandy frame, and none is reported too small. */
  lemma JandyVerdict(f: seq<byte>)
    requires |f| >= 4 && f[..2] == [DLE, STX] && f[|f| - 2..] == [DLE, ETX]
    ensures JudgeJandy(f) != TooSmall
    ensures JudgeJandy(f).Frame? ==> JudgeJandy(f) == Frame(f) && IsJandyFrame(f)
  {
    if |f| == 4 {
      FourBytesFail(f);
    }
  }

  lemma NotBoth(f: seq<byte>)
    requires |f| >= 4 && (f[..2] == [DLE, STX] || f[..4] == HEADER)
    ensures f[..2] == [DLE, STX] ==> !IsPentairFrame(f) && ProtocolType(f) == JANDY
    ensures f[..4] == HEADER ==> !IsJandyFrame(f) && ProtocolType(f) == PENTAIR
  {
    assert f[0] == f[..2][0] && f[0] == f[..4][0];
  }

  lemma PentairCaseOrigin(w: seq<byte>)
    requires PentairCase(w)
    ensures var c := Decode(INIT, w);
            && c.reply != TooSmall
            && (c.reply.Frame? ==> TakenFromStream(c.reply.bytes, w, c.used))
  {
    DecodeIsReference(w);
    var p := FirstPreamble(w);
    PentairOrigin(w[p + 1..]);
    CallTakenFrom(w, p, PentairReference(w[p + 1..]));
  }

  /** Otherwise an end mark closes a frame, or the buffer fills, or the line falls silent. */
  lemma JandyCaseCall(w: seq<byte>)
    requires !PentairCase(w)
    ensures var c, k, e := Decode(INIT, w), StartMark(w), EndMark(w);
            || c.reply == Timeout || c.reply == TooLarge
            || (&& e + 2 <= |w| && k + 2 <= e && PairAt(w, k, DLE, STX) && PairAt(w, e, DLE, ETX)
                && |Unescape(w[k..e + 2])| >= 4
                && c == Call(JudgeJandy(Unescape(w[k..e + 2])), e + 2))
  {
    DecodeIsReference(w);
    var k, e := StartMark(w), EndMark(w);
    if e < |w| && e + 2 <= BufferEnd(w) {
      EndsFramed(w, k, e);
    }
  }

  /** f is the stream from the first DLE STX to the first DLE ETX after it, with the
      escaping NULs removed. */
  predicate BetweenMarks(f: seq<byte>, w: seq<byte>) {
    StartMark(w) <= EndMark(w) && EndMark(w) + 2 <= |w| && f == Unescape(w[StartMark(w)..EndMark(w) + 2])
  }

  lemma JandyCaseOrigin(w: seq<byte>)
    requires !PentairCase(w)
    ensures var c := Decode(INIT, w);
            && c.reply != TooSmall
            && (c.reply.Frame? ==>
                  && IsJandyFrame(c.reply.bytes)
                  && c.used == EndMark(w) + 2 && BetweenMarks(c.reply.bytes, w))
  {
    JandyCaseCall(w);
    var c, k, e := Decode(INIT, w), StartMark(w), EndMark(w);
    if c.reply != Timeout && c.reply != TooLarge {
      var f := Unescape(w[k..e + 2]);
      EndsFramed(w, k, e);
      JandyVerdict(f);
      assert c == Call(JudgeJandy(f), e + 2);
    }
  }

  /** Whatever arrives, a positive return value is the length, between 5 and 511,
      of a complete frame of one of the two protocols whose checksum holds (or is
      the one tolerated), and the first byte tells which.  AQSERR_2SMALL is never
      returned. */
  lemma DecodeSound(w: seq<byte>)
    ensures var c := Decode(INIT, w);
            && c.reply != TooSmall
            && (c.reply.Frame? ==>
                  var f := c.reply.bytes;
                  && 5 <= |f| <= 511
                  && (IsJandyFrame(f) || IsPentairFrame(f))
                  && ProtocolType(f) == if IsJandyFrame(f) then JANDY else PENTAIR)
  {
    if PentairCase(w) {
      PentairCaseOrigin(w);
    } else {
      JandyCaseOrigin(w);
    }
    var c := Decode(INIT, w);
    if c.reply.Frame? {
      NotBoth(c.reply.bytes);
    }
  }

  /** What the number returned says: a positive one is the length of a frame, 0 that the
      line fell silent, and of the error codes only two occur. */
  lemma CodeTells(w: seq<byte>)
    ensures var r := Decode(INIT, w).reply;
            && (Code(r) > 0 <==> r.Frame?) && (r.Frame? ==> Code(r) == |r.bytes|)
            && (Code(r) == 0 <==> r == Timeout)
            && (Code(r) == -3 <==> r == BadChecksum) && (Code(r) == -4 <==> r == TooLarge)
            && (Code(r) == 0 || Code(r) == -3 || Code(r) == -4 || 5 <= Code(r) <= 511)
  {
    DecodeSound(w);
  }

  /** A Jandy frame is the stream from the first DLE STX to the first DLE ETX after
      it with the escaping NULs removed; a Pentair frame is the stream verbatim from
      the byte after the preamble that completed last.  Both end at the last byte consumed. */
  lemma FrameOrigin(w: seq<byte>)
    ensures var c := Decode(INIT, w);
            c.reply.Frame? ==>
              var f := c.reply.bytes;
              && (IsJandyFrame(f) ==> BetweenMarks(f, w) && c.used == EndMark(w) + 2)
              && (IsPentairFrame(f) ==> TakenFromStream(f, w, c.used))
  {
    var c := Decode(INIT, w);
    if PentairCase(w) {
      PentairCaseOrigin(w);
    } else {
      JandyCaseOrigin(w);
    }
    if c.reply.Frame? {
      NotBoth(c.reply.bytes);
    }
  }

  // ------------------------------------------------------------------- preambles

  /** The bytes before i end in FF 00 and k times FF. */
  predicate PreambleBefore(w: seq<byte>, i: nat, k: nat) {
    && 1 <= k && k + 2 <= i <= |w|
    && w[i - k - 2] == PP1 && w[i - k - 1] == PP2
    && forall j :: i - k <= j < i ==> w[j] == PP3
  }

  lemma {:induction false} LastStage(w: seq<byte>, i: nat) returns (k: nat)
    requires i <= |w| && Preamble(false, 0, w[..i]) == 3
    ensures PreambleBefore(w, i, k)
  {
    PreambleSnoc(false, 0, w, i - 1);
    if Preamble(false, 0, w[..i - 1]) == 3 {
      k := LastStage(w, i - 1);
      k := k + 1;
    } else {
      PreambleSnoc(false, 0, w, i - 2);
      PreambleSnoc(false, 0, w, i - 3);
      k := 1;
    }
  }

  /** A preamble completes only with FF 00, one FF or more, and A5. */
  lemma PreambleText(w: seq<byte>, i: nat) returns (k: nat)
    requires FiresAt(false, 0, w, i)
    ensures w[i] == PP4 && PreambleBefore(w, i, k)
  {
    k := LastStage(w, i);
  }

  /** It does complete so behind a byte that is neither FF nor 00, nor, outside a Pentair
      frame, a DLE; inside one a DLE is a byte like any other. */
  lemma PreambleCompletes(inPentair: bool, pre: int, w: seq<byte>, i: nat)
    requires 4 <= i < |w| && w[i - 3..i + 1] == [0xFF, 0x00, 0xFF, 0xA5]
    requires w[i - 4] != 0xFF && w[i - 4] != 0x00 && (inPentair || w[i - 4] != DLE)
    ensures FiresAt(inPentair, pre, w, i)
  {
    var h := w[i - 3..i + 1];
    assert h[0] == w[i - 3] && h[1] == w[i - 2] && h[2] == w[i - 1] && h[3] == w[i];
    PreambleSnoc(inPentair, pre, w, i - 4);
    PreambleSnoc(inPentair, pre, w, i - 3);
    PreambleSnoc(inPentair, pre, w, i - 2);
    PreambleSnoc(inPentair, pre, w, i - 1);
  }

  /** Outside a Pentair frame it does not behind a DLE. */
  lemma DleDisarms(w: seq<byte>, i: nat)
    requires 4 <= i < |w| && w[i - 3..i + 1] == [0xFF, 0x00, 0xFF, 0xA5] && w[i - 4] == DLE
    ensures !FiresAt(false, 0, w, i)
  {
    var h := w[i - 3..i + 1];
    assert h[0] == w[i - 3] && h[1] == w[i - 2] && h[2] == w[i - 1] && h[3] == w[i];
    PreambleSnoc(false, 0, w, i - 4);
    PreambleSnoc(false, 0, w, i - 3);
    PreambleSnoc(false, 0, w, i - 2);
    PreambleSnoc(false, 0, w, i - 1);
  }

  /** More than one FF does count. */
  lemma StretchedPreamble()
    ensures FiresAt(false, 0, [PP1, PP2, PP3, PP3, PP4], 4)
  {
    var w := [PP1, PP2, PP3, PP3, PP4];
    assert w[..0] == [];
    PreambleSnoc(false, 0, w, 0);
    PreambleSnoc(false, 0, w, 1);
    PreambleSnoc(false, 0, w, 2);
    PreambleSnoc(false, 0, w, 3);
  }
}
