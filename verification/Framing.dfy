/** Where the reference search finds a frame that stands in the middle of a stream. */
module Framing {
  import opened Wire
  import opened Decoder
  import opened Reference

  /** No byte of w completes the Pentair preamble when counting starts afresh. */
  predicate Quiet(w: seq<byte>) {
    forall i :: 0 <= i < |w| ==> !FiresAt(false, 0, w, i)
  }

  /** Bytes that may stand in front of a frame: no start mark, no preamble. */
  predicate Noise(w: seq<byte>) {
    NoPair(w, DLE, STX) && Quiet(w)
  }

  function Framed(v: seq<byte>): seq<byte> {
    [DLE, STX] + v + [DLE, ETX]
  }

  // ------------------------------------------------------------------ unescaping

  lemma {:induction false} UnescapeClean(v: seq<byte>)
    requires NoPair(v, DLE, NUL)
    ensures Unescape(v) == v
  {
    if v == [] {
    } else {
      var n := |v| - 1;
      assert n > 0 ==> !PairAt(v, n - 1, DLE, NUL);
      forall i | 0 <= i < n ensures !PairAt(v[..n], i, DLE, NUL) {
        assert !PairAt(v, i, DLE, NUL);
      }
      UnescapeClean(v[..n]);
    }
  }

  lemma {:induction false} UnescapeShrinks(v: seq<byte>, i: nat)
    requires PairAt(v, i, DLE, NUL)
    ensures |Unescape(v)| < |v|
  {
    var n := |v| - 1;
    if i + 1 < n {
      assert PairAt(v[..n], i, DLE, NUL);
      UnescapeShrinks(v[..n], i);
    }
  }

  /** What is kept of a byte behind others. */
  function Kept(v: seq<byte>, x: byte): seq<byte> {
    if v != [] && v[|v| - 1] == DLE && x == NUL then [] else [x]
  }

  lemma UnescapeMore(v: seq<byte>, x: byte)
    ensures Unescape(v + [x]) == Unescape(v) + Kept(v, x)
  {
    assert (v + [x])[..|v|] == v;
  }

  lemma KeptBehind(a: seq<byte>, v: seq<byte>, x: byte)
    requires v != [] || a == [] || !(a[|a| - 1] == DLE && x == NUL)
    ensures Kept(a + v, x) == Kept(v, x)
  {
  }

  lemma Regroup(a: seq<byte>, b: seq<byte>, c: seq<byte>)
    ensures (a + b) + c == a + (b + c)
  {
  }

  lemma OneMore(a: seq<byte>, v: seq<byte>, x: byte)
    requires v != [] || a == [] || !(a[|a| - 1] == DLE && x == NUL)
    requires Unescape(a + v) == Unescape(a) + Unescape(v)
    ensures Unescape(a + (v + [x])) == Unescape(a) + Unescape(v + [x])
  {
    Regroup(a, v, [x]);
    Regroup(Unescape(a), Unescape(v), Kept(v, x));
    UnescapeMore(a + v, x);
    UnescapeMore(v, x);
    KeptBehind(a, v, x);
  }

  /** Nothing is dropped at a seam whose right-hand byte is not a NUL after a DLE. */
  lemma {:induction false} UnescapeConcat(a: seq<byte>, b: seq<byte>)
    requires a != [] && b != [] ==> !(a[|a| - 1] == DLE && b[0] == NUL)
    ensures Unescape(a + b) == Unescape(a) + Unescape(b)
  {
    if b == [] {
      assert a + b == a;
    } else {
      var init, x := b[..|b| - 1], b[|b| - 1];
      UnescapeConcat(a, init);
      OneMore(a, init, x);
      assert init + [x] == b;
    }
  }

  lemma UnescapeFramed(v: seq<byte>)
    ensures Unescape(Framed(v)) == Framed(Unescape(v))
  {
    assert NoPair([DLE, STX], DLE, NUL) && NoPair([DLE, ETX], DLE, NUL);
    UnescapeClean([DLE, STX]);
    UnescapeClean([DLE, ETX]);
    UnescapeConcat([DLE, STX], v);
    UnescapeConcat([DLE, STX] + v, [DLE, ETX]);
  }

  lemma {:induction false} UnescapeMonotone(v: seq<byte>, j: nat)
    requires j <= |v|
    ensures |Unescape(v[..j])| <= |Unescape(v)|
    decreases |v| - j
  {
    if j == |v| {
      assert v[..j] == v;
    } else {
      UnescapeMonotone(v, j + 1);
      assert v[..j + 1][..j] == v[..j];
    }
  }

  // ------------------------------------------------------------------- preambles

  lemma {:induction false} PreambleConcat(inPentair: bool, pre: int, a: seq<byte>, b: seq<byte>)
    ensures Preamble(inPentair, pre, a + b) == Preamble(inPentair, Preamble(inPentair, pre, a), b)
  {
    if b == [] {
      assert a + b == a;
    } else {
      var n := |b| - 1;
      assert (a + b)[..|a| + n] == a + b[..n];
      PreambleConcat(inPentair, pre, a, b[..n]);
    }
  }

  /** A DLE forgets every byte before it. */
  lemma PreambleRestarts(a: seq<byte>, v: seq<byte>)
    ensures Preamble(false, 0, a + [DLE, STX] + v) == Preamble(false, 0, v)
  {
    var d := a + [DLE];
    assert d[..|a|] == a && d[|a|] == DLE;
    var s := d + [STX];
    assert s[..|d|] == d && s[|d|] == STX;
    assert a + [DLE, STX] == s;
    PreambleConcat(false, 0, s, v);
  }

  /** The first preamble of a stream that opens with quiet noise and a start mark. */
  lemma FirstPreambleAt(a: seq<byte>, v: seq<byte>, i: nat)
    requires Quiet(a) && i < |a| + 2 + |v|
    ensures FiresAt(false, 0, a + [DLE, STX] + v, i) <==>
            i >= |a| + 2 && FiresAt(false, 0, v, i - |a| - 2)
  {
    var w := a + [DLE, STX] + v;
    if i < |a| {
      assert w[..i] == a[..i];
      assert !FiresAt(false, 0, a, i);
    } else if i >= |a| + 2 {
      var t := i - |a| - 2;
      assert w[..i] == a + [DLE, STX] + v[..t];
      PreambleRestarts(a, v[..t]);
    }
  }

  // -------------------------------------------------------------------- searches

  lemma FirstIs(w: seq<byte>, a: byte, b: byte, i: nat, r: nat)
    requires i <= r && PairAt(w, r, a, b)
    requires forall t :: i <= t < r ==> !PairAt(w, t, a, b)
    ensures First(w, a, b, i) == r
  {
  }

  lemma StartMarkAt(a: seq<byte>, rest: seq<byte>)
    requires NoPair(a, DLE, STX)
    ensures StartMark(a + [DLE, STX] + rest) == |a|
  {
    var w := a + [DLE, STX] + rest;
    assert PairAt(w, |a|, DLE, STX);
    forall t | 0 <= t < |a| ensures !PairAt(w, t, DLE, STX) {
      assert !PairAt(a, t, DLE, STX);
    }
    FirstIs(w, DLE, STX, 0, |a|);
  }

  lemma EndMarkAt(a: seq<byte>, v: seq<byte>, rest: seq<byte>)
    requires NoPair(a, DLE, STX) && NoPair(v, DLE, ETX)
    ensures EndMark(a + Framed(v) + rest) == |a| + 2 + |v|
  {
    var w := a + Framed(v) + rest;
    assert w == a + [DLE, STX] + (v + [DLE, ETX] + rest);
    StartMarkAt(a, v + [DLE, ETX] + rest);
    var e := |a| + 2 + |v|;
    assert PairAt(w, e, DLE, ETX);
    forall t | |a| + 2 <= t < e ensures !PairAt(w, t, DLE, ETX) {
      assert !PairAt(v, t - |a| - 2, DLE, ETX);
      assert w[t] == v[t - |a| - 2];
    }
    FirstIs(w, DLE, ETX, |a| + 2, e);
  }

  /** If the whole stretch fits, the buffer does not fill inside it. */
  lemma {:induction false} FullBeyond(w: seq<byte>, k: nat, j: nat, u: nat)
    requires k <= j <= u <= |w| && |Unescape(w[k..u])| < MAX_PACKET
    ensures Full(w, k, j) > u
    decreases u - j
  {
    assert w[k..u][..j - k] == w[k..j];
    UnescapeMonotone(w[k..u], j - k);
    if j < u {
      FullBeyond(w, k, j + 1, u);
    }
  }

  /** The central fact about framing: noise, then DLE STX v DLE ETX, then anything.
      If v holds no end mark and no preamble, one call consumes exactly the noise
      and the frame, and judges the unescaped frame. */
  lemma FrameDecodes(a: seq<byte>, v: seq<byte>, rest: seq<byte>)
    requires Noise(a) && NoPair(v, DLE, ETX) && Quiet(v)
    requires |Unescape(v)| + 4 < MAX_PACKET
    ensures Decode(INIT, a + Framed(v) + rest) ==
            Call(JudgeJandy(Framed(Unescape(v))), |a| + |v| + 4)
  {
    FrameMarks(a, v, rest);
    UnescapeFramed(v);
    NoPreambleBefore(a, v, rest);
    DecodeByMarks(a + Framed(v) + rest, |a|, |a| + |v| + 4);
  }

  /** Where such a frame's marks are found, and that the buffer does not fill inside it. */
  lemma FrameMarks(a: seq<byte>, v: seq<byte>, rest: seq<byte>)
    requires NoPair(a, DLE, STX) && NoPair(v, DLE, ETX) && |Unescape(v)| + 4 < MAX_PACKET
    ensures var w, k, u := a + Framed(v) + rest, |a|, |a| + |v| + 4;
            w[k..u] == Framed(v) && StartMark(w) == k && EndMark(w) == u - 2 && BufferEnd(w) > u
  {
    EndMarkAt(a, v, rest);
    FrameStarts(a, v, rest);
    FramedSlice(a, v, rest);
    FramedFits(a + Framed(v) + rest, |a|, |a| + |v| + 4, v);
  }

  lemma FrameStarts(a: seq<byte>, v: seq<byte>, rest: seq<byte>)
    requires NoPair(a, DLE, STX)
    ensures StartMark(a + Framed(v) + rest) == |a|
  {
    StartMarkAt(a, v + [DLE, ETX] + rest);
    assert a + Framed(v) + rest == a + [DLE, STX] + (v + [DLE, ETX] + rest);
  }

  lemma FramedSlice(a: seq<byte>, v: seq<byte>, rest: seq<byte>)
    ensures (a + Framed(v) + rest)[|a|..|a| + |v| + 4] == Framed(v)
  {
  }

  lemma FramedFits(w: seq<byte>, k: nat, u: nat, v: seq<byte>)
    requires k + 2 <= u <= |w| && w[k..u] == Framed(v) && |Unescape(v)| + 4 < MAX_PACKET
    ensures Full(w, k, k + 2) > u
  {
    UnescapeFramed(v);
    FullBeyond(w, k, k + 2, u);
  }

  /** A call in which the end mark comes before any preamble and before the buffer fills. */
  lemma DecodeByMarks(w: seq<byte>, k: nat, u: nat)
    requires k == StartMark(w) < |w| && 2 <= u <= |w| && u == EndMark(w) + 2
    requires BufferEnd(w) > u && FirstPreamble(w) >= u
    ensures k + 4 <= u && |Unescape(w[k..u])| >= 4
    ensures Decode(INIT, w) == Call(JudgeJandy(Unescape(w[k..u])), u)
  {
    EndsFramed(w, k, u - 2);
    DecodeIsReference(w);
  }

  lemma NoPreambleBefore(a: seq<byte>, v: seq<byte>, rest: seq<byte>)
    requires Quiet(a) && Quiet(v)
    ensures FirstPreamble(a + Framed(v) + rest) >= |a| + |v| + 4
  {
    var w := a + Framed(v) + rest;
    var tail := v + [DLE, ETX] + rest;
    assert w == a + [DLE, STX] + tail;
    forall i | 0 <= i < |a| + |v| + 4 ensures !FiresAt(false, 0, w, i) {
      FirstPreambleAt(a, tail, i);
      var t := i - |a| - 2;
      if 0 <= t < |v| {
        assert tail[..t] == v[..t];
        assert !FiresAt(false, 0, v, t);
      }
    }
  }
}
