/** What one get_packet call returns, said without a state machine: search for
    the first start mark, the first end mark, the first completed preamble and
    the first byte that fills the buffer, and see which comes first.  The
    automaton is proved equal to this search on every byte stream. */
module Reference {
  import opened Wire
  import opened Decoder

  // ------------------------------------------------------------------- searches

  predicate PairAt(w: seq<byte>, i: nat, a: byte, b: byte) {
    i + 1 < |w| && w[i] == a && w[i + 1] == b
  }

  predicate NoPair(w: seq<byte>, a: byte, b: byte) {
    forall i :: 0 <= i < |w| ==> !PairAt(w, i, a, b)
  }

  /** The first place at or after i where a is directly followed by b, or |w|. */
  function First(w: seq<byte>, a: byte, b: byte, i: nat): (r: nat)
    requires i <= |w|
    ensures i <= r <= |w|
    ensures r < |w| ==> PairAt(w, r, a, b)
    ensures forall t :: i <= t < r ==> !PairAt(w, t, a, b)
    decreases |w| - i
  {
    if i == |w| || PairAt(w, i, a, b) then i else First(w, a, b, i + 1)
  }

  /** The string with every NUL that directly follows a DLE removed. */
  function Unescape(v: seq<byte>): (f: seq<byte>)
    ensures |f| <= |v|
  {
    if v == [] then [] else
    var n := |v| - 1;
    if n > 0 && v[n] == NUL && v[n - 1] == DLE then Unescape(v[..n]) else Unescape(v[..n]) + [v[n]]
  }

  /** The first prefix end j from which w[k..j], unescaped, no longer fits, or |w| + 1. */
  function Full(w: seq<byte>, k: nat, j: nat): (r: nat)
    requires k <= j <= |w| + 1
    ensures j <= r <= |w| + 1
    ensures r <= |w| ==> |Unescape(w[k..r])| >= MAX_PACKET
    ensures forall t :: j <= t < r ==> |Unescape(w[k..t])| < MAX_PACKET
    decreases |w| + 1 - j
  {
    if j == |w| + 1 || |Unescape(w[k..j])| >= MAX_PACKET then j else Full(w, k, j + 1)
  }

  /** The preamble counter after a byte; outside a Pentair frame a DLE disables it. */
  function Count(inPentair: bool, pre: int, b: byte): int {
    if b == DLE && !inPentair then -1 else NextPre(pre, b)
  }

  /** The preamble counter after a string, started at `pre`. */
  function Preamble(inPentair: bool, pre: int, w: seq<byte>): int {
    if w == [] then pre else Count(inPentair, Preamble(inPentair, pre, w[..|w| - 1]), w[|w| - 1])
  }

  /** Byte i completes the preamble. */
  predicate FiresAt(inPentair: bool, pre: int, w: seq<byte>, i: nat) {
    i < |w| && Fires(Preamble(inPentair, pre, w[..i]), w[i])
  }

  function FirstFire(inPentair: bool, pre: int, w: seq<byte>, i: nat): (r: nat)
    requires i <= |w|
    ensures i <= r <= |w|
    ensures r < |w| ==> FiresAt(inPentair, pre, w, r)
    ensures forall t :: i <= t < r ==> !FiresAt(inPentair, pre, w, t)
    decreases |w| - i
  {
    if i == |w| || FiresAt(inPentair, pre, w, i) then i else FirstFire(inPentair, pre, w, i + 1)
  }

  lemma UnescapeSnoc(w: seq<byte>, k: nat, j: nat)
    requires k < j < |w|
    ensures Unescape(w[k..j + 1]) ==
            if w[j] == NUL && w[j - 1] == DLE then Unescape(w[k..j]) else Unescape(w[k..j]) + [w[j]]
  {
    assert w[k..j + 1][..j - k] == w[k..j];
  }

  lemma PreambleSnoc(inPentair: bool, pre: int, w: seq<byte>, j: nat)
    requires j < |w|
    ensures Preamble(inPentair, pre, w[..j + 1]) == Count(inPentair, Preamble(inPentair, pre, w[..j]), w[j])
  {
    assert w[..j + 1][..j] == w[..j];
  }

  /** A marked start stays a marked start after unescaping, however much follows. */
  lemma {:induction false} StartsFramed(w: seq<byte>, k: nat, j: nat)
    requires PairAt(w, k, DLE, STX) && k + 2 <= j <= |w|
    ensures |Unescape(w[k..j])| >= 2 && Unescape(w[k..j])[..2] == [DLE, STX]
    decreases j
  {
    if j == k + 2 {
      assert w[k..j] == [DLE, STX];
      assert w[k..j][..1] == [DLE];
      assert [DLE][..0] == [];
    } else {
      StartsFramed(w, k, j - 1);
      UnescapeSnoc(w, k, j - 1);
    }
  }

  /** A marked start and a marked end make at least four bytes. */
  lemma EndsFramed(w: seq<byte>, k: nat, e: nat)
    requires PairAt(w, k, DLE, STX) && k + 2 <= e && PairAt(w, e, DLE, ETX)
    ensures var f := Unescape(w[k..e + 2]);
            |f| >= 4 && f[..2] == [DLE, STX] && f[|f| - 2..] == [DLE, ETX]
  {
    var g := Unescape(w[k..e]);
    StartsFramed(w, k, e);
    UnescapeSnoc(w, k, e);
    UnescapeSnoc(w, k, e + 1);
    MarksKept(g, Unescape(w[k..e + 2]));
  }

  lemma MarksKept(g: seq<byte>, f: seq<byte>)
    requires |g| >= 2 && g[..2] == [DLE, STX] && f == (g + [DLE]) + [ETX]
    ensures |f| >= 4 && f[..2] == [DLE, STX] && f[|f| - 2..] == [DLE, ETX]
  {
    assert f[..2] == g[..2];
  }

  // ------------------------------------------------------------------ reference

  function After(c: Call, n: nat): Call {
    Call(c.reply, c.used + n)
  }

  /** Bytes after a completed preamble: the length byte settles where the frame
      ends, unless the preamble completes again before that. */
  function PentairReference(b: seq<byte>): Call
    decreases |b|
  {
    var n := if |b| >= 5 then b[4] as int + 7 else |b| + 1;
    var q := FirstFire(true, 3, b, 0);
    if q < |b| && q + 1 < n then After(PentairReference(b[q + 1..]), q + 1)
    else if n <= |b| then Call(JudgePentair(HEADER + b[..n]), n)
    else Call(Timeout, |b|)
  }

  function StartMark(w: seq<byte>): nat {
    First(w, DLE, STX, 0)
  }

  function EndMark(w: seq<byte>): nat {
    var k := StartMark(w);
    if k < |w| then First(w, DLE, ETX, k + 2) else |w|
  }

  function BufferEnd(w: seq<byte>): nat {
    var k := StartMark(w);
    if k < |w| then Full(w, k, k + 2) else |w| + 1
  }

  function FirstPreamble(w: seq<byte>): nat {
    FirstFire(false, 0, w, 0)
  }

  /** A preamble completes before the frame ends and before the buffer is full. */
  predicate PentairCase(w: seq<byte>) {
    FirstPreamble(w) < |w| && FirstPreamble(w) < BufferEnd(w) && FirstPreamble(w) <= EndMark(w)
  }

  function CallReference(w: seq<byte>): (c: Call)
    ensures !PentairCase(w) && EndMark(w) < |w| ==> !c.reply.Timeout? && c.used <= EndMark(w) + 2
  {
    var k, e, full, p := StartMark(w), EndMark(w), BufferEnd(w), FirstPreamble(w);
    if PentairCase(w) then After(PentairReference(w[p + 1..]), p + 1)
    else if e < |w| && e + 2 <= full then
      EndsFramed(w, k, e);
      Call(JudgeJandy(Unescape(w[k..e + 2])), e + 2)
    else if full <= |w| then Call(TooLarge, full)
    else Call(Timeout, |w|)
  }

  // ------------------------------------------------------------------- equality

  /** The state inside a Pentair frame after j bytes beyond the preamble. */
  function PentairAt(b: seq<byte>, j: nat): State
    requires j <= |b|
  {
    Pentair(HEADER + b[..j], Preamble(true, 3, b[..j]))
  }

  lemma PentairStep(b: seq<byte>, j: nat)
    requires j < |b| && Wf(PentairAt(b, j))
    ensures var f, s := HEADER + b[..j + 1], PentairAt(b, j);
            Step(s, b[j]) ==
            if PentairComplete(f) then Stop(JudgePentair(f))
            else if FiresAt(true, 3, b, j) then More(Pentair(HEADER, 3))
            else Grow(PentairAt(b, j + 1))
    ensures PentairComplete(HEADER + b[..j + 1]) <==> j >= 4 && j + 1 >= b[4] as int + 7
  {
    PreambleSnoc(true, 3, b, j);
    assert PentairAt(b, j).frame + [b[j]] == HEADER + b[..j + 1];
    assert j >= 4 ==> (HEADER + b[..j + 1])[8] == b[4];
  }

  /** A complete Pentair frame is complete exactly at its announced length. */
  lemma CompleteAtLength(b: seq<byte>, j: nat)
    requires j < |b| && !PentairComplete(HEADER + b[..j]) && PentairComplete(HEADER + b[..j + 1])
    ensures j >= 4 && j + 1 == b[4] as int + 7
  {
    var f, g := HEADER + b[..j], HEADER + b[..j + 1];
    assert g[8] == b[4];
    assert j >= 5 ==> f[8] == b[4];
  }

  /** The byte that completes a Pentair frame settles it the way the reference says. */
  lemma PentairEnds(b: seq<byte>, j: nat)
    requires j < |b| && Wf(PentairAt(b, j)) && FirstFire(true, 3, b, 0) >= j
    requires PentairComplete(HEADER + b[..j + 1])
    ensures |HEADER + b[..j + 1]| >= 11
    ensures Decode(PentairAt(b, j), b[j..]) == Call(JudgePentair(HEADER + b[..j + 1]), 1)
    ensures PentairReference(b) == Call(JudgePentair(HEADER + b[..j + 1]), j + 1)
  {
    CompleteAtLength(b, j);
    PentairStep(b, j);
    StopsAtOnce(PentairAt(b, j), b, j);
    ReferenceEnds(b, j + 1);
  }

  lemma StopsAtOnce(s: State, b: seq<byte>, j: nat)
    requires j < |b| && Wf(s) && Step(s, b[j]).Stop?
    ensures Decode(s, b[j..]) == Call(Step(s, b[j]).reply, 1)
  {
    assert b[j..][0] == b[j];
  }

  lemma ReferenceEnds(b: seq<byte>, n: nat)
    requires |b| >= 5 && n == b[4] as int + 7 <= |b| && FirstFire(true, 3, b, 0) >= n - 1
    ensures PentairReference(b) == Call(JudgePentair(HEADER + b[..n]), n)
  {
  }

  /** So does a byte that completes the preamble again. */
  lemma PentairRestarts(b: seq<byte>, j: nat)
    requires j < |b| && Wf(PentairAt(b, j)) && FirstFire(true, 3, b, 0) == j
    requires !PentairComplete(HEADER + b[..j + 1])
    ensures PentairReference(b) == After(PentairReference(b[j + 1..]), j + 1)
    ensures Decode(PentairAt(b, j), b[j..]) == After(Decode(Pentair(HEADER, 3), b[j + 1..]), 1)
  {
    assert b[j..][0] == b[j] && b[j..][1..] == b[j + 1..];
    PentairStep(b, j);
    assert j >= 4 ==> (HEADER + b[..j + 1])[8] == b[4];
  }

  /** Inside a Pentair frame. */
  lemma {:induction false} PentairPhase(b: seq<byte>, j: nat)
    requires j <= |b| && Wf(PentairAt(b, j)) && FirstFire(true, 3, b, 0) >= j
    ensures After(Decode(PentairAt(b, j), b[j..]), j) == PentairReference(b)
    decreases |b| - j, 1
  {
    if j == |b| {
      assert b[j..] == [] && b[..j] == b;
      PentairRunsOut(b);
    } else if PentairComplete(HEADER + b[..j + 1]) {
      PentairEnds(b, j);
    } else if FirstFire(true, 3, b, 0) == j {
      PentairRestarts(b, j);
      PentairPhaseStart(b[j + 1..]);
    } else {
      assert b[j..][0] == b[j] && b[j..][1..] == b[j + 1..];
      PentairStep(b, j);
      PentairPhase(b, j + 1);
    }
  }

  lemma PentairRunsOut(b: seq<byte>)
    requires FirstFire(true, 3, b, 0) == |b| && !PentairComplete(HEADER + b)
    ensures PentairReference(b) == Call(Timeout, |b|)
  {
    assert |b| >= 5 ==> (HEADER + b)[8] == b[4];
  }

  lemma PentairPhaseStart(b: seq<byte>)
    ensures Decode(Pentair(HEADER, 3), b) == PentairReference(b)
    decreases |b|, 2
  {
    assert b[0..] == b && HEADER + b[..0] == HEADER;
    PentairPhase(b, 0);
  }

  /** The automaton state reached after j bytes that settled nothing, with no
      preamble completed among them. */
  function StateAt(w: seq<byte>, j: nat): State
    requires j <= |w|
  {
    var k := StartMark(w);
    var dle := j > 0 && w[j - 1] == DLE;
    var pre := Preamble(false, 0, w[..j]);
    if j < k + 2 then Idle(dle, pre) else Jandy(Unescape(w[k..j]), dle, pre)
  }

  /** Nothing has been settled by the first j bytes. */
  predicate Unsettled(w: seq<byte>, j: nat) {
    && j <= |w|
    && j <= FirstPreamble(w)
    && (StartMark(w) < |w| ==> j <= EndMark(w) + 1 && j < BufferEnd(w))
  }

  lemma {:induction false} PreambleBounds(w: seq<byte>)
    ensures -1 <= Preamble(false, 0, w) <= 3
    ensures w != [] && w[|w| - 1] == DLE ==> Preamble(false, 0, w) == -1
  {
    if w == [] {
    } else {
      PreambleBounds(w[..|w| - 1]);
    }
  }

  lemma StateAtWf(w: seq<byte>, j: nat)
    requires Unsettled(w, j)
    ensures Wf(StateAt(w, j))
  {
    var k := StartMark(w);
    PreambleBounds(w[..j]);
    assert j > 0 ==> w[..j][j - 1] == w[j - 1];
    if j >= k + 2 {
      FrameSoFar(w, k, j);
    }
  }

  /** A frame under way begins with its mark, and ends in the DLE that came last if one did. */
  lemma FrameSoFar(w: seq<byte>, k: nat, j: nat)
    requires PairAt(w, k, DLE, STX) && k + 2 <= j <= |w|
    ensures var f := Unescape(w[k..j]);
            && |f| >= 2 && f[..2] == [DLE, STX]
            && (w[j - 1] == DLE ==> |f| >= 3 && f[|f| - 1] == DLE)
  {
    StartsFramed(w, k, j);
    if w[j - 1] == DLE {
      StartsFramed(w, k, j - 1);
      DleKept(w, k, j - 1, Unescape(w[k..j - 1]));
    }
  }

  lemma DleKept(w: seq<byte>, k: nat, j: nat, f: seq<byte>)
    requires k < j < |w| && w[j] == DLE && f == Unescape(w[k..j])
    ensures Unescape(w[k..j + 1]) == f + [DLE]
  {
    UnescapeSnoc(w, k, j);
  }

  /** One more byte that settles nothing moves the automaton to the next such state. */
  lemma StepsOn(w: seq<byte>, j: nat)
    requires j < |w| && Unsettled(w, j) && Unsettled(w, j + 1)
    ensures Wf(StateAt(w, j)) && Step(StateAt(w, j), w[j]) == More(StateAt(w, j + 1))
  {
    StateAtWf(w, j);
    StateAtWf(w, j + 1);
    var k := StartMark(w);
    PreambleSnoc(false, 0, w, j);
    assert !FiresAt(false, 0, w, j);
    if j > 0 {
      assert !PairAt(w, j - 1, DLE, STX) || j >= k + 1;
      assert !PairAt(w, j - 1, DLE, ETX) || j < k + 3;
    }
    if j + 1 == k + 2 {
      StartsFramed(w, k, k + 2);
      assert Unescape(w[k..k + 2]) == [DLE, STX];
    } else if j >= k + 2 {
      UnescapeSnoc(w, k, j);
    }
  }

  lemma GoesOn(s: State, w: seq<byte>, j: nat, t: State)
    requires j < |w| && Wf(s) && Step(s, w[j]) == More(t)
    ensures Decode(s, w[j..]) == After(Decode(t, w[j + 1..]), 1)
  {
    assert w[j..][0] == w[j] && w[j..][1..] == w[j + 1..];
  }

  lemma StepsIntoPentair(w: seq<byte>, j: nat)
    requires j < |w| && Unsettled(w, j) && FirstPreamble(w) == j
    ensures Wf(StateAt(w, j)) && Step(StateAt(w, j), w[j]) == More(Pentair(HEADER, 3))
  {
    StateAtWf(w, j);
  }

  lemma CallByPreamble(w: seq<byte>, p: nat)
    requires PentairCase(w) && p == FirstPreamble(w)
    ensures CallReference(w) == After(PentairReference(w[p + 1..]), p + 1)
  {
  }

  /** The byte that settles the call by completing a preamble. */
  lemma SettlesByPreamble(w: seq<byte>, j: nat)
    requires j < |w| && Unsettled(w, j) && FirstPreamble(w) == j
    ensures Wf(StateAt(w, j)) && After(Decode(StateAt(w, j), w[j..]), j) == CallReference(w)
  {
    StepsIntoPentair(w, j);
    GoesOn(StateAt(w, j), w, j, Pentair(HEADER, 3));
    PentairPhaseStart(w[j + 1..]);
    CallByPreamble(w, j);
  }

  lemma CallByEndMark(w: seq<byte>, k: nat, e: nat)
    requires k == StartMark(w) < |w| && e == EndMark(w) < |w|
    requires FirstPreamble(w) > e && e + 2 <= BufferEnd(w)
    ensures |Unescape(w[k..e + 2])| >= 4
    ensures CallReference(w) == Call(JudgeJandy(Unescape(w[k..e + 2])), e + 2)
  {
    EndsFramed(w, k, e);
  }

  lemma StepsToEnd(w: seq<byte>, j: nat)
    requires j < |w| && Unsettled(w, j) && StartMark(w) < |w| && j == EndMark(w) + 1
    ensures |Unescape(w[StartMark(w)..j + 1])| >= 4
    ensures Wf(StateAt(w, j)) && Step(StateAt(w, j), w[j]) == Stop(JudgeJandy(Unescape(w[StartMark(w)..j + 1])))
  {
    StateAtWf(w, j);
    UnescapeSnoc(w, StartMark(w), j);
    EndsFramed(w, StartMark(w), EndMark(w));
    EndStep(StateAt(w, j), Unescape(w[StartMark(w)..j]));
  }

  lemma EndStep(s: State, f: seq<byte>)
    requires Wf(s) && s.Jandy? && s.frame == f && s.dle
    ensures |f + [ETX]| >= 4 && Step(s, ETX) == Stop(JudgeJandy(f + [ETX]))
  {
  }

  /** The byte that settles the call by ending a Jandy frame. */
  lemma SettlesByEndMark(w: seq<byte>, j: nat)
    requires j < |w| && Unsettled(w, j) && FirstPreamble(w) > j
    requires StartMark(w) < |w| && j == EndMark(w) + 1
    ensures Wf(StateAt(w, j)) && After(Decode(StateAt(w, j), w[j..]), j) == CallReference(w)
  {
    StepsToEnd(w, j);
    StopsAtOnce(StateAt(w, j), w, j);
    CallByEndMark(w, StartMark(w), EndMark(w));
  }

  /** The byte that settles the call by filling the buffer. */
  lemma SettlesByFilling(w: seq<byte>, j: nat)
    requires j < |w| && Unsettled(w, j) && FirstPreamble(w) > j
    requires StartMark(w) < |w| && j <= EndMark(w) && j + 1 == BufferEnd(w)
    ensures Wf(StateAt(w, j)) && After(Decode(StateAt(w, j), w[j..]), j) == CallReference(w)
  {
    StateAtWf(w, j);
    var s, k := StateAt(w, j), StartMark(w);
    assert w[j..][0] == w[j];
    assert !FiresAt(false, 0, w, j);
    UnescapeSnoc(w, k, j);
    assert Step(s, w[j]) == Stop(TooLarge);
  }

  /** Outside a Pentair frame, from any unsettled prefix on. */
  lemma {:induction false} OutsidePhase(w: seq<byte>, j: nat)
    requires Unsettled(w, j)
    ensures Wf(StateAt(w, j)) && After(Decode(StateAt(w, j), w[j..]), j) == CallReference(w)
    decreases |w| - j
  {
    StateAtWf(w, j);
    if j == |w| {
    } else if Unsettled(w, j + 1) {
      assert w[j..][0] == w[j] && w[j..][1..] == w[j + 1..];
      StepsOn(w, j);
      OutsidePhase(w, j + 1);
    } else if FirstPreamble(w) == j {
      SettlesByPreamble(w, j);
    } else if j == EndMark(w) + 1 {
      SettlesByEndMark(w, j);
    } else {
      SettlesByFilling(w, j);
    }
  }

  /** Every get_packet call, on every byte stream, returns what the search says. */
  lemma DecodeIsReference(w: seq<byte>)
    ensures Decode(INIT, w) == CallReference(w)
  {
    assert w[0..] == w;
    OutsidePhase(w, 0);
  }
}
