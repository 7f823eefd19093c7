/** get_packet called again and again on one stream: what it says over a concatenation
    of streams, and exactly which histories leave no trace. */
module Sessions {
  import opened Wire
  import opened Decoder
  import opened Encoder
  import opened Reference
  import opened Framing
  import opened RoundTrip
  import opened Soundness

  /** The replies of get_packet called again and again until the line falls silent. */
  function Session(w: seq<byte>): seq<Reply>
    decreases |w|
  {
    var c := Decode(INIT, w);
    if c.reply.Timeout? then [] else [c.reply] + Session(w[c.used..])
  }

  /** The automaton after a whole stream, started afresh behind every reply. */
  function Flow(s: State, w: seq<byte>): (t: State)
    requires Wf(s)
    ensures Wf(t)
    decreases |w|
  {
    if w == [] then s else
    match Step(s, w[0])
    case Stop(_) => Flow(INIT, w[1..])
    case More(next) => Flow(next, w[1..])
  }

  /** The replies on the way. */
  function Replies(s: State, w: seq<byte>): seq<Reply>
    requires Wf(s)
    decreases |w|
  {
    if w == [] then [] else
    match Step(s, w[0])
    case Stop(reply) => [reply] + Replies(INIT, w[1..])
    case More(next) => Replies(next, w[1..])
  }

  // --------------------------------------------------------------- concatenation

  lemma {:induction false} FirstCall(s: State, w: seq<byte>)
    requires Wf(s)
    ensures var c := Decode(s, w);
            if c.reply.Timeout? then Replies(s, w) == []
            else && Replies(s, w) == [c.reply] + Replies(INIT, w[c.used..])
                 && Flow(s, w) == Flow(INIT, w[c.used..])
    decreases |w|
  {
    if w == [] {
    } else {
      match Step(s, w[0])
      case Stop(_) =>
      case More(next) =>
        FirstCall(next, w[1..]);
        var c := Decode(next, w[1..]);
        assert w[1..][c.used..] == w[c.used + 1..];
    }
  }

  lemma {:induction false} SessionIsReplies(w: seq<byte>)
    ensures Session(w) == Replies(INIT, w)
    decreases |w|
  {
    FirstCall(INIT, w);
    var c := Decode(INIT, w);
    if c.reply.Timeout? {
    } else {
      SessionIsReplies(w[c.used..]);
    }
  }

  lemma {:induction false} FlowConcat(s: State, x: seq<byte>, y: seq<byte>)
    requires Wf(s)
    ensures Flow(s, x + y) == Flow(Flow(s, x), y)
    ensures Replies(s, x + y) == Replies(s, x) + Replies(Flow(s, x), y)
    decreases |x|
  {
    if x == [] {
      assert x + y == y;
    } else {
      assert (x + y)[1..] == x[1..] + y;
      match Step(s, x[0])
      case Stop(_) => FlowConcat(INIT, x[1..], y);
      case More(next) => FlowConcat(next, x[1..], y);
    }
  }

  /** The replies to a stream are those to its first part, and then those its second part
      gets from the state the first part left. */
  lemma SessionConcat(x: seq<byte>, y: seq<byte>)
    ensures Session(x + y) == Session(x) + Replies(Flow(INIT, x), y)
  {
    SessionIsReplies(x + y);
    SessionIsReplies(x);
    FlowConcat(INIT, x, y);
  }

  // ------------------------------------------------------------- fresh histories

  /** Whatever follows x is answered as if x had never been. */
  ghost predicate Fresh(x: seq<byte>) {
    forall y :: Session(x + y) == Session(x) + Session(y)
  }

  /** No FF is directly followed by A5: then no preamble can complete. */
  lemma QuietWithoutPair(w: seq<byte>)
    requires NoPair(w, PP3, PP4)
    ensures Quiet(w)
  {
    forall i | 0 <= i < |w| ensures !FiresAt(false, 0, w, i) {
      if i > 0 && FiresAt(false, 0, w, i) {
        assert w[..i][..i - 1] == w[..i - 1];
        assert PairAt(w, i - 1, PP3, PP4);
      }
    }
  }

  lemma NoiseIsSilent(a: seq<byte>)
    requires Noise(a)
    ensures Session(a) == []
  {
    DecodeIsReference(a);
    var k, p := StartMark(a), FirstPreamble(a);
    assert k == |a| && p == |a|;
  }

  /** The bytes behind the preamble of the smallest Pentair frame. */
  const TINY: seq<byte> := [NUL, NUL, NUL, NUL, NUL, NUL, PP4]

  lemma TinyCompletes()
    ensures Replies(Pentair(HEADER, 3), TINY) != []
  {
    assert forall i :: 0 <= i < |TINY| - 1 ==> !FiresAt(true, 3, TINY, i);
    PentairPhaseStart(TINY);
    FirstCall(Pentair(HEADER, 3), TINY);
  }

  /** With `pre` bytes of the preamble counted, the rest of it opens a Pentair frame. */
  lemma {:induction false} PreambleOpens(pre: nat, t: seq<byte>)
    requires pre <= 3
    ensures Replies(Idle(false, pre), HEADER[pre..] + t) == Replies(Pentair(HEADER, 3), t)
    ensures Flow(Idle(false, pre), HEADER[pre..] + t) == Flow(Pentair(HEADER, 3), t)
    decreases 3 - pre
  {
    var w := HEADER[pre..] + t;
    assert w[0] == HEADER[pre];
    if pre == 3 {
      assert w[1..] == t;
    } else {
      assert w[1..] == HEADER[pre + 1..] + t;
      PreambleOpens(pre + 1, t);
    }
  }

  /** The later part of a preamble alone opens nothing. */
  lemma PartIsSilent(pre: nat)
    requires 1 <= pre <= 3
    ensures Replies(INIT, HEADER[pre..] + TINY) == []
  {
    var w := HEADER[pre..] + TINY;
    forall i | 0 <= i < |w| ensures !FiresAt(false, 0, w, i) {
      assert w[i] != PP4 || i <= 2 || w[i - 1] == NUL;
      if FiresAt(false, 0, w, i) {
        var k := PreambleText(w, i);
      }
    }
    NoiseIsSilent(w);
    SessionIsReplies(w);
  }

  /** Behind a DLE the first FF of a preamble is not counted. */
  lemma DisarmedIsSilent()
    ensures Replies(Idle(false, -1), HEADER + TINY) == []
  {
    var w := HEADER + TINY;
    assert w[1..][1..] == HEADER[2..] + TINY;
    assert w[0] == PP1 && w[1..][0] == PP2;
    PartIsSilent(2);
  }

  lemma {:induction false} PentairRepliesFirst(s: State, y: seq<byte>)
    requires Wf(s) && s.Pentair?
    ensures var r := Replies(s, y); r != [] && r[0].Frame? ==> |r[0].bytes| > 0 && r[0].bytes[0] == PP1
    decreases |y|
  {
    if y == [] {
    } else {
      var f := s.frame + [y[0]];
      assert s.frame[0] == s.frame[..4][0] == PP1;
      match Step(s, y[0])
      case Stop(_) =>
      case More(next) => PentairRepliesFirst(next, y[1..]);
    }
  }

  lemma EmptyFrameHeard()
    ensures Replies(INIT, JandyFrame([])) == [Frame(JandyFrame([]))] && Flow(INIT, JandyFrame([])) == INIT
  {
    var v, f := JandyBody([]), JandyFrame([]);
    assert v[..0] == [];
    CleanFrameReturned([], [], []);
    assert [] + f + [] == f && f[|f|..] == [];
    FirstCall(INIT, f);
  }

  /** A stream that tells a state from the initial one. */
  function Probe(s: State): seq<byte>
    requires Wf(s)
  {
    match s
    case Idle(dle, pre) =>
      if dle then [STX, DLE, ETX] else HEADER[if pre < 0 then 0 else pre..] + TINY
    case Jandy(_, _, _) => [DLE, ETX]
    case Pentair(_, _) => JandyFrame([])
  }

  lemma IdleDistinguished(s: State)
    requires Wf(s) && s.Idle? && s != INIT
    ensures Replies(s, Probe(s)) != Replies(INIT, Probe(s))
  {
    if s.dle {
      OpenFrameEnds(Jandy([DLE, STX], false, 0));
      StrayEndMark();
    } else if s.pre < 0 {
      DisarmedIsSilent();
      PreambleOpens(0, TINY);
      TinyCompletes();
    } else {
      PartIsSilent(s.pre);
      PreambleOpens(s.pre, TINY);
      TinyCompletes();
    }
  }

  /** An end mark gets a reply inside a Jandy frame, and none outside. */
  lemma OpenFrameEnds(s: State)
    requires Wf(s) && s.Jandy?
    ensures Replies(s, [DLE, ETX]) != []
  {
    assert [DLE, ETX][1..] == [ETX];
  }

  lemma StrayEndMark()
    ensures Replies(INIT, [DLE, ETX]) == [] && Replies(INIT, [STX, DLE, ETX]) == []
  {
    var a, b: seq<byte> := [DLE, ETX], [STX, DLE, ETX];
    QuietWithoutPair(a);
    QuietWithoutPair(b);
    NoiseIsSilent(a);
    NoiseIsSilent(b);
    SessionIsReplies(a);
    SessionIsReplies(b);
  }

  lemma Distinguished(s: State)
    requires Wf(s) && s != INIT
    ensures Replies(s, Probe(s)) != Replies(INIT, Probe(s))
  {
    match s
    case Idle(_, _) => IdleDistinguished(s);
    case Jandy(_, _, _) =>
      OpenFrameEnds(s);
      StrayEndMark();
    case Pentair(_, _) =>
      EmptyFrameHeard();
      PentairRepliesFirst(s, JandyFrame([]));
  }

  /** A history leaves no trace if and only if it leaves the automaton in its initial
      state; in any other state some stream is answered differently. */
  lemma FreshExactly(x: seq<byte>)
    ensures Fresh(x) <==> Flow(INIT, x) == INIT
  {
    var s := Flow(INIT, x);
    if s == INIT {
      forall y ensures Session(x + y) == Session(x) + Session(y) {
        SessionConcat(x, y);
        SessionIsReplies(y);
      }
    } else {
      var y := Probe(s);
      Distinguished(s);
      SessionConcat(x, y);
      SessionIsReplies(y);
      assert (Session(x) + Replies(s, y))[|Session(x)|..] == Replies(s, y);
      assert (Session(x) + Session(y))[|Session(x)|..] == Session(y);
      assert Session(x + y) != Session(x) + Session(y);
    }
  }

  // -------------------------------------------------------------------- end marks

  /** An end mark brings every state back to the initial one, unless a Pentair frame was
      open and stays open. */
  lemma EndMarkResets(s: State)
    requires Wf(s)
    ensures var t := Flow(s, [DLE, ETX]); t == INIT || (t.Pentair? && s.Pentair?)
  {
    var u := OneByte(s, DLE);
    var t := OneByte(u, ETX);
    FlowConcat(s, [DLE], [ETX]);
    assert [DLE] + [ETX] == [DLE, ETX];
  }

  lemma OneByte(s: State, b: byte) returns (t: State)
    requires Wf(s)
    ensures t == Flow(s, [b]) == match Step(s, b) case Stop(_) => INIT case More(next) => next
  {
    t := Flow(s, [b]);
    assert [b][1..] == [];
  }

  /** Behind an end mark, after any garbage at all, every byte is answered as if nothing
      had gone before if and only if no Pentair frame has been left open. */
  lemma EndMarkRecovers(garbage: seq<byte>)
    ensures Fresh(garbage + [DLE, ETX]) <==> !Flow(INIT, garbage + [DLE, ETX]).Pentair?
  {
    FlowConcat(INIT, garbage, [DLE, ETX]);
    EndMarkResets(Flow(INIT, garbage));
    FreshExactly(garbage + [DLE, ETX]);
  }

  /** The longest Pentair frame has 266 bytes. */
  const LONGEST := 266

  /** Bytes among which no preamble completes leave no Pentair frame open, if they are
      enough to end one that was. */
  lemma {:induction false} NoneLeftOpen(s: State, c: seq<byte>)
    requires Wf(s) && NoPair(c, PP3, PP4)
    requires s.pre == 3 && c != [] ==> c[0] != PP4
    requires s.Pentair? ==> |s.frame| + |c| >= LONGEST
    ensures !Flow(s, c).Pentair?
    decreases |c|
  {
    if c == [] {
    } else {
      assert !PairAt(c, 0, PP3, PP4);
      forall i | 0 <= i < |c[1..]| ensures !PairAt(c[1..], i, PP3, PP4) {
        assert !PairAt(c, i + 1, PP3, PP4);
      }
      match Step(s, c[0])
      case Stop(_) => NoneLeftOpen(INIT, c[1..]);
      case More(next) => NoneLeftOpen(next, c[1..]);
    }
  }

  /** So without FF A5 none is ever open. */
  lemma NoPairNoneOpen(x: seq<byte>)
    requires NoPair(x, PP3, PP4)
    ensures !Flow(INIT, x).Pentair?
  {
    NoneLeftOpen(INIT, x);
  }

  /** Bytes in which no preamble can complete, wherever a call or a Pentair frame began
      before them. */
  predicate Calm(t: seq<byte>) {
    NoPair(t, PP3, PP4) && (t != [] ==> t[0] != PP4)
  }

  lemma CalmExtends(c: seq<byte>)
    requires Calm(c)
    ensures Calm(c + [DLE, ETX])
  {
    var t := c + [DLE, ETX];
    forall i | 0 <= i < |t| ensures !PairAt(t, i, PP3, PP4) {
      assert i < |c| ==> !PairAt(c, i, PP3, PP4);
    }
  }

  /** And whatever came before, 260 calm bytes and an end mark are enough. */
  lemma CalmRecovers(garbage: seq<byte>, calm: seq<byte>)
    requires |calm| >= 260 && Calm(calm)
    ensures Fresh(garbage + calm + [DLE, ETX])
  {
    var x, t := garbage + calm, calm + [DLE, ETX];
    CalmExtends(calm);
    NoneLeftOpen(Flow(INIT, garbage), t);
    FlowConcat(INIT, garbage, t);
    assert garbage + t == x + [DLE, ETX];
    EndMarkRecovers(x);
  }

  // ------------------------------------------------------------ open Pentair frames

  /** What is left of a history behind its last reply. */
  function Unread(x: seq<byte>): (r: seq<byte>)
    ensures Decode(INIT, r).reply.Timeout?
    decreases |x|
  {
    var c := Decode(INIT, x);
    if c.reply.Timeout? then x else Unread(x[c.used..])
  }

  lemma {:induction false} FlowOfUnread(x: seq<byte>)
    ensures Flow(INIT, x) == Flow(INIT, Unread(x))
    decreases |x|
  {
    FirstCall(INIT, x);
    var c := Decode(INIT, x);
    if c.reply.Timeout? {
    } else {
      FlowOfUnread(x[c.used..]);
    }
  }

  /** As long as nothing is settled the automaton is where the search says. */
  lemma {:induction false} FlowIsStateAt(w: seq<byte>, j: nat)
    requires Unsettled(w, j)
    ensures Flow(INIT, w[..j]) == StateAt(w, j)
    decreases j
  {
    if j == 0 {
    } else {
      FlowIsStateAt(w, j - 1);
      StepsOn(w, j - 1);
      FlowStep(w, j - 1, StateAt(w, j - 1), StateAt(w, j));
    }
  }

  lemma FlowStep(w: seq<byte>, j: nat, s: State, t: State)
    requires j < |w| && Wf(s) && Flow(INIT, w[..j]) == s && Step(s, w[j]) == More(t)
    ensures Flow(INIT, w[..j + 1]) == t
  {
    FlowConcat(INIT, w[..j], [w[j]]);
    assert w[..j] + [w[j]] == w[..j + 1];
    var u := OneByte(s, w[j]);
  }

  /** Inside a Pentair frame a silent call stays there. */
  lemma {:induction false} StaysPentair(s: State, w: seq<byte>)
    requires Wf(s) && s.Pentair? && Decode(s, w).reply.Timeout?
    ensures Flow(s, w).Pentair?
    decreases |w|
  {
    if w == [] {
    } else {
      match Step(s, w[0])
      case Stop(_) =>
      case More(next) => StaysPentair(next, w[1..]);
    }
  }

  lemma OpensPentair(r: seq<byte>, p: nat)
    requires PentairCase(r) && p == FirstPreamble(r)
    ensures Flow(INIT, r[..p + 1]) == Pentair(HEADER, 3)
  {
    FlowIsStateAt(r, p);
    StateAtWf(r, p);
    FlowStep(r, p, StateAt(r, p), Pentair(HEADER, 3));
  }

  lemma OpenCase(r: seq<byte>)
    requires PentairCase(r) && Decode(INIT, r).reply.Timeout?
    ensures Flow(INIT, r).Pentair?
  {
    var p := FirstPreamble(r);
    var a, b := r[..p + 1], r[p + 1..];
    assert r == a + b;
    OpenTimesOut(r, b);
    OpensPentair(r, p);
    StaysPentair(Pentair(HEADER, 3), b);
    FlowConcat(INIT, a, b);
  }

  lemma OpenTimesOut(r: seq<byte>, b: seq<byte>)
    requires PentairCase(r) && Decode(INIT, r).reply.Timeout? && b == r[FirstPreamble(r) + 1..]
    ensures Decode(Pentair(HEADER, 3), b).reply.Timeout?
  {
    DecodeIsReference(r);
    PentairPhaseStart(b);
  }

  lemma SilentIsUnsettled(r: seq<byte>)
    requires !PentairCase(r) && Decode(INIT, r).reply.Timeout?
    ensures Unsettled(r, |r|)
  {
    DecodeIsReference(r);
  }

  /** What "open" means on the wire: a preamble completed behind the last reply, ahead of
      any end mark there and before the buffer was full. */
  lemma OpenExactly(x: seq<byte>)
    ensures Flow(INIT, x).Pentair? <==> PentairCase(Unread(x))
  {
    var r := Unread(x);
    FlowOfUnread(x);
    if PentairCase(r) {
      OpenCase(r);
    } else {
      SilentIsUnsettled(r);
      FlowIsStateAt(r, |r|);
      assert r[..|r|] == r;
    }
  }

  lemma SilentInside(b: seq<byte>)
    requires PP4 !in b && (|b| >= 5 ==> |b| < b[4] as int + 7)
    ensures PentairReference(b) == Call(Timeout, |b|)
  {
    var q := FirstFire(true, 3, b, 0);
    assert forall i :: 0 <= i < |b| ==> b[i] != PP4;
  }

  /** A Pentair frame that broke off behind its length byte swallows one byte more than
      that announces, whatever frames they hold, if no A5 is among them. */
  lemma OpenFrameSwallows(head: seq<byte>, y: seq<byte>)
    requires |head| == 5 && PP4 !in head + y && |y| <= head[4] as int + 1
    ensures Session(HEADER + (head + y)) == []
  {
    var b := head + y;
    PreambleOpens(0, b);
    SilentInside(b);
    PentairPhaseStart(b);
    FirstCall(Pentair(HEADER, 3), b);
    SessionIsReplies(HEADER + b);
  }

  /** 260 bytes are needed: behind a bare preamble 259 of them and an end mark may leave the
      frame open. */
  lemma CalmIsTight()
    ensures var calm := [NUL, NUL, NUL, NUL, 255] + seq<byte>(254, _ => NUL);
            |calm| == 259 && Calm(calm) && !Fresh(HEADER + calm + [DLE, ETX])
  {
    var calm := [NUL, NUL, NUL, NUL, 255] + seq<byte>(254, _ => NUL);
    var b := calm + [DLE, ETX];
    PreambleOpens(0, b);
    SilentInside(b);
    PentairPhaseStart(b);
    StaysPentair(Pentair(HEADER, 3), b);
    assert HEADER + b == HEADER + calm + [DLE, ETX];
    EndMarkRecovers(HEADER + calm);
  }

  /** Two frames, each heard alone and both together, lost to it. */
  lemma TwoFramesSwallowed()
    ensures var f := JandyFrame([]);
            && Session(HEADER + ([NUL, NUL, NUL, NUL, 255] + (f + f))) == []
            && Session(f + f) == [Frame(f), Frame(f)]
  {
    var f, head: seq<byte> := JandyFrame([]), [NUL, NUL, NUL, NUL, 255];
    SumOfTwo(DLE, STX);
    assert [DLE, STX] + [] == [DLE, STX];
    assert f == [DLE, STX, 0x12, DLE, ETX];
    OpenFrameSwallows(head, f + f);
    EmptyFrameHeard();
    SessionIsReplies(f);
    SessionConcat(f, f);
  }
}
