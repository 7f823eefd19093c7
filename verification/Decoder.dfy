/** The byte-at-a-time frame decoder: an automaton over byte strings, and the
    buffer-filling loop that is proved to run it. */
module Decoder {
  import opened Wire

  // ---------------------------------------------------------------- automaton

  /** What the decoder knows between two bytes.  `dle` says the last byte was an
      unpaired DLE; `pre` counts the bytes of the Pentair preamble seen so far,
      and is -1 right after a DLE. */
  datatype State =
    | Idle(dle: bool, pre: int)
    | Jandy(frame: seq<byte>, dle: bool, pre: int)
    | Pentair(frame: seq<byte>, pre: int)

  datatype Reply = Frame(bytes: seq<byte>) | Timeout | BadChecksum | TooLarge | TooSmall

  datatype Outcome = More(state: State) | Stop(reply: Reply)

  const INIT: State := Idle(false, 0)

  /** The byte completes the preamble. */
  predicate Fires(pre: int, b: byte) {
    pre == 3 && b == PP4
  }

  /** The preamble counter after a byte that neither completes the preamble nor
      is a DLE outside a Pentair frame. */
  function NextPre(pre: int, b: byte): int {
    if b == PP1 && pre == 0 then 1
    else if b == PP2 && pre == 1 then 2
    else if b == PP3 && pre == 2 then 3
    else if b != PP1 then 0
    else pre
  }

  function JudgeJandy(f: seq<byte>): Reply
    requires |f| >= 4
  {
    if |f| >= MAX_PACKET then TooLarge
    else if !JandyChecksumOk(f) then BadChecksum
    else if |f| < MIN_PACKET then TooSmall
    else Frame(f)
  }

  function JudgePentair(f: seq<byte>): Reply
    requires |f| >= 11
  {
    if |f| >= MAX_PACKET then TooLarge
    else if !PentairChecksumOk(f) then BadChecksum
    else if |f| < MIN_PACKET then TooSmall
    else Frame(f)
  }

  /** Carry on with a stored byte unless the buffer is full. */
  function Grow(s: State): Outcome
    requires !s.Idle?
  {
    if |s.frame| >= MAX_PACKET then Stop(TooLarge) else More(s)
  }

  predicate PentairComplete(f: seq<byte>) {
    |f| >= 9 && |f| - 11 >= f[8]
  }

  predicate Wf(s: State) {
    && -1 <= s.pre <= 3
    && match s
       case Idle(dle, pre) => dle ==> pre == -1
       case Jandy(f, dle, pre) =>
         && 2 <= |f| < MAX_PACKET && f[..2] == [DLE, STX]
         && (dle ==> pre == -1 && |f| >= 3 && f[|f| - 1] == DLE)
       case Pentair(f, pre) =>
         && 4 <= |f| < MAX_PACKET && f[..4] == HEADER && !PentairComplete(f)
  }

  function Step(s: State, b: byte): (out: Outcome)
    requires Wf(s)
    ensures out.More? ==> Wf(out.state)
  {
    match s
    case Idle(dle, pre) =>
      if b == DLE then More(Idle(true, -1))
      else if dle && b == STX then More(Jandy([DLE, STX], false, NextPre(pre, b)))
      else if Fires(pre, b) then More(Pentair(HEADER, pre))
      else More(Idle(false, NextPre(pre, b)))
    case Jandy(f, dle, pre) =>
      if dle && b == NUL then More(Jandy(f, false, NextPre(pre, b)))
      else if dle && b == ETX then Stop(JudgeJandy(f + [b]))
      else if b == DLE then Grow(Jandy(f + [b], true, -1))
      else if Fires(pre, b) then More(Pentair(HEADER, pre))
      else Grow(Jandy(f + [b], false, NextPre(pre, b)))
    case Pentair(f, pre) =>
      if PentairComplete(f + [b]) then Stop(JudgePentair(f + [b]))
      else if Fires(pre, b) then More(Pentair(HEADER, pre))
      else Grow(Pentair(f + [b], NextPre(pre, b)))
  }

  datatype Call = Call(reply: Reply, used: nat)

  /** One call: read bytes until a frame is settled or the line falls silent. */
  function Decode(s: State, w: seq<byte>): (c: Call)
    requires Wf(s)
    ensures c.used <= |w|
    ensures c.reply.Timeout? ==> c.used == |w|
    ensures w != [] ==> c.used > 0
    decreases |w|
  {
    if w == [] then Call(Timeout, 0) else
    match Step(s, w[0])
    case Stop(reply) => Call(reply, 1)
    case More(s') => var c := Decode(s', w[1..]); Call(c.reply, c.used + 1)
  }

  /** get_packet's return value. */
  function Code(r: Reply): int {
    match r
    case Frame(bytes) => |bytes|
    case Timeout => 0
    case BadChecksum => -3
    case TooLarge => -4
    case TooSmall => -5
  }

  // ------------------------------------------------------------------ get_packet

  /** The serial port: bytes still to arrive, and bytes written so far. */
  class SerialPort {
    var incoming: seq<byte>
    var outgoing: seq<byte>

    method Read() returns (b: byte)
      requires incoming != []
      modifies this`incoming
      ensures b == old(incoming)[0] && incoming == old(incoming)[1..]
    {
      b := incoming[0];
      incoming := incoming[1..];
    }

    method Write(packet: array<byte>, length: nat)
      requires length <= packet.Length
      modifies this`outgoing
      ensures outgoing == old(outgoing) + old(packet[..length])
    {
      outgoing := outgoing + packet[..length];
    }
  }

  /** The automaton state that get_packet's variables stand for. */
  ghost predicate Represents(s: State, packet: array<byte>, index: nat, lastByteDle: bool,
                             jandyStarted: bool, pentairStarted: bool, preCnt: int, dataCnt: int)
    reads packet
  {
    && index < MAX_PACKET <= packet.Length
    && s.pre == preCnt
    && match s
       case Idle(dle, pre) =>
         && !jandyStarted && !pentairStarted && index == 0 && lastByteDle == dle
         && (dle ==> packet[0] == DLE) && dataCnt == -1
       case Jandy(f, dle, pre) =>
         && jandyStarted && !pentairStarted && packet[..index] == f && lastByteDle == dle
         && dataCnt == -1
       case Pentair(f, pre) =>
         && !jandyStarted && pentairStarted && packet[..index] == f && !lastByteDle
         && dataCnt == if index >= 9 then packet[8] as int else -1
  }

  /** What one byte must leave behind in get_packet's variables.  The buffer-full
      test comes after this. */
  ghost predicate Follows(out: Outcome, packet: array<byte>, index: nat, endOfPacket: bool, lastByteDle: bool,
                          jandyStarted: bool, pentairStarted: bool, preCnt: int, dataCnt: int)
    reads packet
  {
    && index <= MAX_PACKET <= packet.Length
    && (endOfPacket ==> jandyStarted != pentairStarted)
    && match out
       case More(s) =>
         !endOfPacket && Represents(s, packet, index, lastByteDle, jandyStarted, pentairStarted, preCnt, dataCnt)
       case Stop(reply) =>
         if index == MAX_PACKET then reply == TooLarge
         else if jandyStarted then
           endOfPacket && 4 <= index && packet[index - 1] == ETX && reply == JudgeJandy(packet[..index])
         else
           && endOfPacket && pentairStarted && 11 <= index == packet[8] as int + 11
           && reply == JudgePentair(packet[..index])
  }

  /** The body of get_packet's loop once a byte is in hand. */
  method Absorb(packet: array<byte>, b: byte, ghost s: State,
                index0: nat, dle0: bool, jandy0: bool, pentair0: bool, pre0: int, data0: int)
    returns (index: nat, endOfPacket: bool, lastByteDle: bool, jandyStarted: bool, pentairStarted: bool,
             preCnt: int, dataCnt: int)
    requires Wf(s) && Represents(s, packet, index0, dle0, jandy0, pentair0, pre0, data0)
    modifies packet
    ensures Follows(Step(s, b), packet, index, endOfPacket, lastByteDle, jandyStarted, pentairStarted, preCnt, dataCnt)
  {
    index, endOfPacket, lastByteDle := index0, false, dle0;
    jandyStarted, pentairStarted, preCnt, dataCnt := jandy0, pentair0, pre0, data0;

    if lastByteDle && b == NUL {
      lastByteDle := false;
    } else if lastByteDle {
      if index == 0 {
        index := index + 1;
      }
      packet[index] := b;
      index := index + 1;
      if b == STX && !jandyStarted {
        jandyStarted := true;
        pentairStarted := false;
      } else if b == ETX && jandyStarted {
        endOfPacket := true;
      }
    } else if jandyStarted || pentairStarted {
      packet[index] := b;
      index := index + 1;
      if pentairStarted && index == 9 {
        dataCnt := b;
      }
      if dataCnt >= 0 && index - 11 >= dataCnt && pentairStarted {
        endOfPacket := true;
        preCnt := -1;
      }
    } else if b == DLE && !jandyStarted {
      packet[index] := b;
    }

    if !jandyStarted && !pentairStarted {
      index := 0;
    }

    assert s.Jandy? && !(s.dle && b == NUL) ==> packet[..index] == s.frame + [b];
    assert s.Pentair? ==> packet[..index] == s.frame + [b];

    if b == DLE && !pentairStarted {
      lastByteDle := true;
      preCnt := -1;
    } else {
      lastByteDle := false;
      if b == PP1 && preCnt == 0 {
        preCnt := 1;
      } else if b == PP2 && preCnt == 1 {
        preCnt := 2;
      } else if b == PP3 && preCnt == 2 {
        preCnt := 3;
      } else if b == PP4 && preCnt == 3 {
        pentairStarted := true;
        jandyStarted := false;
        dataCnt := -1;
        packet[0] := PP1;
        packet[1] := PP2;
        packet[2] := PP3;
        packet[3] := b;
        index := 4;
      } else if b != PP1 {
        preCnt := 0;
      }
    }
  }

  /** get_packet: fill the buffer from the port until a frame ends, the line falls
      silent, or the buffer is full. */
  method GetPacket(port: SerialPort, packet: array<byte>) returns (n: int)
    requires packet.Length >= MAX_PACKET
    modifies port`incoming, packet
    ensures var c := Decode(INIT, old(port.incoming));
            && n == Code(c.reply)
            && port.incoming == old(port.incoming)[c.used..]
            && (c.reply.Frame? ==> n <= packet.Length && packet[..n] == c.reply.bytes)
  {
    var index: nat := 0;
    var endOfPacket, lastByteDle, jandyStarted, pentairStarted := false, false, false, false;
    var preCnt, dataCnt: int := 0, -1;

    forall i | 0 <= i < MAX_PACKET {
      packet[i] := NUL;
    }

    ghost var input := port.incoming;
    ghost var whole := Decode(INIT, input);
    ghost var out := More(INIT);
    ghost var k := 0;

    while !endOfPacket
      invariant k <= |input| && port.incoming == input[k..]
      invariant index < MAX_PACKET
      invariant Follows(out, packet, index, endOfPacket, lastByteDle, jandyStarted, pentairStarted, preCnt, dataCnt)
      invariant out.More? ==>
                  Wf(out.state) && var c := Decode(out.state, input[k..]); whole == Call(c.reply, c.used + k)
      invariant out.Stop? ==> whole == Call(out.reply, k)
      decreases |input| - k
    {
      if port.incoming == [] {
        return 0;
      }
      var b := port.Read();
      assert input[k..][1..] == input[k + 1..];
      ghost var s := out.state;
      index, endOfPacket, lastByteDle, jandyStarted, pentairStarted, preCnt, dataCnt :=
        Absorb(packet, b, s, index, lastByteDle, jandyStarted, pentairStarted, preCnt, dataCnt);
      out, k := Step(s, b), k + 1;

      if index >= MAX_PACKET {
        return Code(TooLarge);
      }
    }

    if jandyStarted {
      var ok := CheckJandyChecksum(packet, index);
      if !ok {
        return Code(BadChecksum);
      }
    } else if pentairStarted {
      var ok := CheckPentairChecksum(packet, index);
      if !ok {
        return Code(BadChecksum);
      }
    }

    if index < MIN_PACKET && (jandyStarted || pentairStarted) {
      return Code(TooSmall);
    }
    return index;
  }
}
