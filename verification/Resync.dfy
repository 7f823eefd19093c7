/** Frames of both protocols on one stream: traffic between noise, the senders' packets,
    and what corruption costs. */
module Resync {
  import opened Wire
  import opened Decoder
  import opened Encoder
  import opened Reference
  import opened Framing
  import opened RoundTrip
  import opened PentairRoundTrip
  import opened Sessions
  import opened Soundness

  // ------------------------------------------------------------- mixed traffic

  /** One frame on the line, with the noise that stands before it: a Jandy frame by
      what is sent between its marks, a Pentair frame by its command. */
  datatype Item = JandyItem(noise: seq<byte>, body: seq<byte>) | PentairItem(noise: seq<byte>, cmd: seq<byte>)

  predicate Admissible(item: Item) {
    match item
    case JandyItem(noise, body) =>
      && Noise(noise) && NoPair(body, DLE, ETX) && Quiet(body)
      && JudgeJandy(Framed(Unescape(body))) == Frame(Framed(Unescape(body)))
    case PentairItem(noise, cmd) =>
      Resting(noise) && Fits(cmd) && Steady(PentairBody(cmd))
  }

  function ItemWire(item: Item): seq<byte>
    requires Admissible(item)
  {
    match item
    case JandyItem(noise, body) => noise + Framed(body)
    case PentairItem(noise, cmd) => noise + PentairFrame(cmd)
  }

  function ItemFrame(item: Item): seq<byte>
    requires Admissible(item)
  {
    match item
    case JandyItem(_, body) => Framed(Unescape(body))
    case PentairItem(_, cmd) => PentairFrame(cmd)
  }

  /** The bytes on the line: every item, then trailing noise. */
  function Traffic(items: seq<Item>, tail: seq<byte>): seq<byte>
    requires forall i :: 0 <= i < |items| ==> Admissible(items[i])
  {
    if items == [] then tail else ItemWire(items[0]) + Traffic(items[1..], tail)
  }

  function Received(items: seq<Item>): seq<Reply>
    requires forall i :: 0 <= i < |items| ==> Admissible(items[i])
  {
    if items == [] then [] else [Frame(ItemFrame(items[0]))] + Received(items[1..])
  }

  lemma ItemReturned(item: Item, rest: seq<byte>)
    requires Admissible(item)
    ensures Decode(INIT, ItemWire(item) + rest) == Call(Frame(ItemFrame(item)), |ItemWire(item)|)
  {
    match item
    case JandyItem(noise, body) => FrameDecodes(noise, body, rest);
    case PentairItem(noise, cmd) => PentairFrameReturned(noise, cmd, rest);
  }

  /** One item at the head of a stream accounts for the first reply of the session. */
  lemma ItemFirst(item: Item, rest: seq<byte>)
    requires Admissible(item)
    ensures Session(ItemWire(item) + rest) == [Frame(ItemFrame(item))] + Session(rest)
  {
    ItemReturned(item, rest);
    assert (ItemWire(item) + rest)[|ItemWire(item)|..] == rest;
  }

  /** Resynchronisation: frames of both protocols, each behind noise that neither
      starts a frame nor (before a Pentair frame) disturbs the count of its preamble, come
      back as exactly that list, in order, with nothing else. */
  lemma {:induction false} TrafficReceived(items: seq<Item>, tail: seq<byte>)
    requires forall i :: 0 <= i < |items| ==> Admissible(items[i])
    requires Noise(tail)
    ensures Session(Traffic(items, tail)) == Received(items)
  {
    if items == [] {
      NoiseIsSilent(tail);
    } else {
      ItemFirst(items[0], Traffic(items[1..], tail));
      TrafficReceived(items[1..], tail);
    }
  }

  // ------------------------------------------------------------ senders to receiver

  /** A call of one of the three senders. */
  datatype Sent = SentJandy(payload: seq<byte>) | SentPentair(cmd: seq<byte>) | SentAck(ackType: byte, command: byte)

  predicate Deliverable(s: Sent) {
    match s
    case SentJandy(payload) => |payload| <= 506 && Clean(payload)
    case SentPentair(cmd) => Fits(cmd) && Steady(PentairBody(cmd))
    case SentAck(ackType, command) => !(ackType == DLE && (command == NUL || command == ETX))
  }

  /** The bytes the sender writes; no byte of a deliverable packet is left unwritten. */
  function Packet(s: Sent): seq<byte>
    requires Deliverable(s)
  {
    match s
    case SentJandy(payload) => JandyWire(payload)
    case SentPentair(cmd) => PentairWire(cmd, NUL)
    case SentAck(ackType, command) => AckWire(ackType, command)
  }

  /** The frame the receiver should see. */
  function Content(s: Sent): seq<byte>
    requires Deliverable(s)
  {
    match s
    case SentJandy(payload) => JandyFrame(payload)
    case SentPentair(cmd) => PentairFrame(cmd)
    case SentAck(ackType, command) => JandyFrame(AckPayload(ackType, command))
  }

  function Packets(sent: seq<Sent>): seq<byte>
    requires forall i :: 0 <= i < |sent| ==> Deliverable(sent[i])
  {
    if sent == [] then [] else Packet(sent[0]) + Packets(sent[1..])
  }

  function Contents(sent: seq<Sent>): seq<Reply>
    requires forall i :: 0 <= i < |sent| ==> Deliverable(sent[i])
  {
    if sent == [] then [] else [Frame(Content(sent[0]))] + Contents(sent[1..])
  }

  /** A run of at most two NULs is resting noise. */
  lemma NulsRest(pad: seq<byte>)
    requires pad == [] || pad == [NUL]
    ensures Resting(pad) && Resting(pad + [NUL])
  {
    var v := pad + [NUL];
    assert v[..0] == [];
    PreambleSnoc(false, 0, v, 0);
    if pad != [] {
      assert v[..1] == pad && v[..2] == v;
      PreambleSnoc(false, 0, v, 1);
    }
  }

  /** A packet is one item, followed by the NUL that a Pentair packet ends with. */
  function AsItem(s: Sent, pad: seq<byte>): Item
    requires Deliverable(s)
  {
    match s
    case SentJandy(payload) => JandyItem(pad + [NUL], JandyBody(payload))
    case SentPentair(cmd) => PentairItem(pad + [NUL], cmd)
    case SentAck(ackType, command) => JandyItem(pad + [NUL], AckBody(ackType, command))
  }

  function Trailer(s: Sent): seq<byte> {
    if s.SentPentair? then [NUL] else []
  }

  lemma JandyPacketIsItem(s: Sent, pad: seq<byte>)
    requires s.SentJandy? && Deliverable(s) && Noise(pad + [NUL])
    ensures var item := AsItem(s, pad);
            && Admissible(item) && ItemFrame(item) == Content(s)
            && pad + Packet(s) == ItemWire(item)
  {
    JandyFrameIsFramed(s.payload);
    UnescapeClean(JandyBody(s.payload));
    JandyFrameAccepted(s.payload);
  }

  lemma AckPacketIsItem(s: Sent, pad: seq<byte>)
    requires s.SentAck? && Deliverable(s) && Noise(pad + [NUL])
    ensures var item := AsItem(s, pad);
            && Admissible(item) && ItemFrame(item) == Content(s)
            && pad + Packet(s) == ItemWire(item)
  {
    var p, v := AckPayload(s.ackType, s.command), AckBody(s.ackType, s.command);
    AckBodyQuiet(s.ackType, s.command);
    AckUnescaped(s.ackType, s.command);
    JandyFrameIsFramed(p);
    JandyFrameAccepted(p);
    assert pad + Packet(s) == (pad + [NUL]) + Framed(v);
  }

  lemma PentairPacketIsItem(s: Sent, pad: seq<byte>)
    requires s.SentPentair? && Deliverable(s) && Resting(pad + [NUL])
    ensures var item := AsItem(s, pad);
            && Admissible(item) && ItemFrame(item) == Content(s)
            && pad + Packet(s) == ItemWire(item) + [NUL]
  {
    WholeWire(s.cmd, NUL);
    assert pad + Packet(s) == (pad + [NUL]) + PentairFrame(s.cmd) + [NUL];
  }

  lemma PacketIsItem(s: Sent, pad: seq<byte>)
    requires Deliverable(s) && (pad == [] || pad == [NUL])
    ensures var item := AsItem(s, pad);
            && Admissible(item) && ItemFrame(item) == Content(s)
            && pad + Packet(s) == ItemWire(item) + Trailer(s)
  {
    NulsRest(pad);
    match s {
      case SentJandy(_) => JandyPacketIsItem(s, pad);
      case SentAck(_, _) => AckPacketIsItem(s, pad);
      case SentPentair(_) => PentairPacketIsItem(s, pad);
    }
  }

  lemma Reassociate(pad: seq<byte>, packet: seq<byte>, wire: seq<byte>, last: seq<byte>, rest: seq<byte>)
    requires pad + packet == wire + last
    ensures pad + (packet + rest) == wire + (last + rest)
  {
    assert pad + (packet + rest) == (pad + packet) + rest;
  }

  /** One packet at the head of a stream accounts for the first reply. */
  lemma PacketFirst(s: Sent, pad: seq<byte>, rest: seq<byte>)
    requires Deliverable(s) && (pad == [] || pad == [NUL])
    ensures Session(pad + (Packet(s) + rest)) == [Frame(Content(s))] + Session(Trailer(s) + rest)
  {
    var item := AsItem(s, pad);
    PacketIsItem(s, pad);
    Reassociate(pad, Packet(s), ItemWire(item), Trailer(s), rest);
    ItemFirst(item, Trailer(s) + rest);
  }

  lemma {:induction false} PaddedDelivery(pad: seq<byte>, sent: seq<Sent>)
    requires pad == [] || pad == [NUL]
    requires forall i :: 0 <= i < |sent| ==> Deliverable(sent[i])
    ensures Session(pad + Packets(sent)) == Contents(sent)
    decreases |sent|
  {
    if sent == [] {
      NulsRest(pad);
      NoiseIsSilent(pad);
      assert pad + [] == pad;
    } else {
      PacketFirst(sent[0], pad, Packets(sent[1..]));
      PaddedDelivery(Trailer(sent[0]), sent[1..]);
    }
  }

  lemma Unpadded(w: seq<byte>)
    ensures [] + w == w
  {
  }

  /** End to end: any sequence of calls of the three senders, each of which would
      round-trip alone, is received as exactly those frames, in order. */
  lemma SendersHeard(sent: seq<Sent>)
    requires forall i :: 0 <= i < |sent| ==> Deliverable(sent[i])
    ensures Session(Packets(sent)) == Contents(sent)
  {
    Unpadded(Packets(sent));
    PaddedDelivery([], sent);
  }

  // ------------------------------------------------------------------ recovery

  lemma ItemFlow(item: Item)
    requires Admissible(item)
    ensures Flow(INIT, ItemWire(item)) == INIT
  {
    var w := ItemWire(item);
    ItemReturned(item, []);
    assert w + [] == w && w[|w|..] == [];
    FirstCall(INIT, w);
  }

  /** Traffic without trailing noise leaves no trace. */
  lemma {:induction false} TrafficFresh(items: seq<Item>)
    requires forall i :: 0 <= i < |items| ==> Admissible(items[i])
    ensures Flow(INIT, Traffic(items, [])) == INIT && Fresh(Traffic(items, []))
  {
    if items == [] {
    } else {
      ItemFlow(items[0]);
      TrafficFresh(items[1..]);
      FlowConcat(INIT, ItemWire(items[0]), Traffic(items[1..], []));
    }
    FreshExactly(Traffic(items, []));
  }

  lemma {:induction false} TrafficTail(items: seq<Item>, tail: seq<byte>)
    requires forall i :: 0 <= i < |items| ==> Admissible(items[i])
    ensures Traffic(items, tail) == Traffic(items, []) + tail
  {
    if items == [] {
    } else {
      TrafficTail(items[1..], tail);
    }
  }

  /** Behind a history that leaves no trace all traffic is received. */
  lemma TrafficAfter(x: seq<byte>, items: seq<Item>, tail: seq<byte>)
    requires Fresh(x) && Noise(tail)
    requires forall i :: 0 <= i < |items| ==> Admissible(items[i])
    ensures Session(x + Traffic(items, tail)) == Session(x) + Received(items)
  {
    TrafficReceived(items, tail);
  }

  /** Self-stabilisation: whatever bytes came before, behind an end mark every frame of
      the traffic is received, and nothing but the garbage's own replies comes before
      them, unless the garbage has left a Pentair frame open; without FF A5 in it it
      has not. */
  lemma RecoversAfterEndMark(garbage: seq<byte>, items: seq<Item>, tail: seq<byte>)
    requires Noise(tail) && forall i :: 0 <= i < |items| ==> Admissible(items[i])
    ensures var x := garbage + [DLE, ETX];
            && (Fresh(x) <==> !Flow(INIT, x).Pentair?)
            && (NoPair(garbage, PP3, PP4) ==> !Flow(INIT, x).Pentair?)
            && (!Flow(INIT, x).Pentair? ==> Session(x + Traffic(items, tail)) == Session(x) + Received(items))
  {
    var x := garbage + [DLE, ETX];
    EndMarkRecovers(garbage);
    if NoPair(garbage, PP3, PP4) {
      NoPairEndMark(garbage);
      NoPairNoneOpen(x);
    }
    if Fresh(x) {
      TrafficAfter(x, items, tail);
    }
  }

  lemma NoPairEndMark(g: seq<byte>)
    requires NoPair(g, PP3, PP4)
    ensures NoPair(g + [DLE, ETX], PP3, PP4)
  {
    var t := g + [DLE, ETX];
    forall i | 0 <= i < |t| ensures !PairAt(t, i, PP3, PP4) {
      assert i < |g| ==> !PairAt(g, i, PP3, PP4);
    }
  }

  /** So a stretch of corruption between frames costs at most the Jandy frame that ends
      it: the traffic before it and behind that frame is received whole, if and only if
      the stretch leaves no Pentair frame open. */
  lemma AtMostOneFrameLost(before: seq<Item>, garbage: seq<byte>, first: seq<byte>, items: seq<Item>, tail: seq<byte>)
    requires forall i :: 0 <= i < |before| ==> Admissible(before[i])
    requires Noise(tail) && forall i :: 0 <= i < |items| ==> Admissible(items[i])
    ensures var x := garbage + JandyFrame(first);
            && (Fresh(Traffic(before, x)) <==> !Flow(INIT, x).Pentair?)
            && (!Flow(INIT, x).Pentair? ==>
                  Session(Traffic(before, x) + Traffic(items, tail)) ==
                  Received(before) + Session(x) + Received(items))
  {
    var x, b := garbage + JandyFrame(first), Traffic(before, []);
    FrameEnds(garbage, first);
    TrafficTail(before, x);
    TrafficFresh(before);
    FlowConcat(INIT, b, x);
    FreshExactly(x);
    FreshExactly(b + x);
    if Fresh(b + x) {
      TrafficAfter(b + x, items, tail);
      NoiseFree(before);
      assert Session(b + x) == Session(b) + Session(x);
    }
  }

  lemma NoiseFree(items: seq<Item>)
    requires forall i :: 0 <= i < |items| ==> Admissible(items[i])
    ensures Session(Traffic(items, [])) == Received(items)
  {
    TrafficReceived(items, []);
  }

  /** A Jandy frame ends in an end mark. */
  lemma FrameEnds(garbage: seq<byte>, first: seq<byte>)
    ensures var t := Flow(INIT, garbage + JandyFrame(first)); t == INIT || t.Pentair?
  {
    var f := JandyFrame(first);
    var g := garbage + f[..|f| - 2];
    assert g + [DLE, ETX] == garbage + f;
    FlowConcat(INIT, g, [DLE, ETX]);
    EndMarkResets(Flow(INIT, g));
  }

  /** The same for the senders: behind any history that leaves no trace, every call that
      would round-trip alone is heard. */
  lemma SendersHeardAgain(x: seq<byte>, sent: seq<Sent>)
    requires Flow(INIT, x) == INIT
    requires forall i :: 0 <= i < |sent| ==> Deliverable(sent[i])
    ensures Session(x + Packets(sent)) == Session(x) + Contents(sent)
  {
    FreshExactly(x);
    SendersHeard(sent);
  }

  /** Recovery from anything: whatever came before, Pentair preambles and half frames
      included, once 260 calm bytes and an end mark have gone by, all that follows is read
      as if nothing had gone before. */
  lemma RecoversFromAnything(garbage: seq<byte>, calm: seq<byte>, rest: seq<byte>)
    requires |calm| >= 260 && Calm(calm)
    ensures var x := garbage + calm + [DLE, ETX]; Session(x + rest) == Session(x) + Session(rest)
  {
    CalmRecovers(garbage, calm);
  }

  // -------------------------------------------------------------- every stream

  /** A settled call depends on no byte beyond those it consumed. */
  lemma {:induction false} Causal(s: State, w: seq<byte>, other: seq<byte>)
    requires Wf(s) && !Decode(s, w).reply.Timeout?
    ensures Decode(s, w[..Decode(s, w).used] + other) == Decode(s, w)
    decreases |w|
  {
    var c := Decode(s, w);
    var v := w[..c.used] + other;
    assert v[0] == w[0];
    match Step(s, w[0])
    case Stop(_) =>
    case More(s') =>
      Causal(s', w[1..], other);
      assert v[1..] == w[1..][..c.used - 1] + other;
  }

  /** Every reply of every session on every stream is an error code or a valid frame. */
  lemma {:induction false} SessionSound(w: seq<byte>)
    ensures forall i :: 0 <= i < |Session(w)| ==>
              var r := Session(w)[i];
              && r != TooSmall && r != Timeout
              && (r.Frame? ==> 5 <= |r.bytes| <= 511 && (IsJandyFrame(r.bytes) || IsPentairFrame(r.bytes)))
    decreases |w|
  {
    DecodeSound(w);
    var c := Decode(INIT, w);
    if !c.reply.Timeout? {
      SessionSound(w[c.used..]);
    }
  }
}
