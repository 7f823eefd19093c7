/** The three senders: what each one puts on the wire, and the array code that
    is proved to put it there. */
module Encoder {
  import opened Wire
  import opened Decoder

  function JandyChecksum(payload: seq<byte>): byte {
    Sum([DLE, STX] + payload) % 256
  }

  /** DLE STX payload checksum DLE ETX */
  function JandyFrame(payload: seq<byte>): seq<byte> {
    [DLE, STX] + payload + [JandyChecksum(payload), DLE, ETX]
  }

  function JandyWire(payload: seq<byte>): seq<byte> {
    [NUL] + JandyFrame(payload)
  }

  /** A Pentair command with its fifth byte replaced by the length of its data. */
  function PentairCommand(cmd: seq<byte>): seq<byte>
    requires 5 <= |cmd|
  {
    cmd[4 := (|cmd| - 5) % 256]
  }

  function PentairSum(cmd: seq<byte>): nat
    requires 5 <= |cmd|
  {
    Sum([PP4] + PentairCommand(cmd))
  }

  /** The checksum, high byte first. */
  function PentairCheck(cmd: seq<byte>): seq<byte>
    requires 5 <= |cmd|
  {
    [PentairSum(cmd) / 256 % 256, PentairSum(cmd) % 256]
  }

  /** FF 00 FF A5 command checksum */
  function PentairFrame(cmd: seq<byte>): seq<byte>
    requires 5 <= |cmd|
  {
    HEADER + PentairCommand(cmd) + PentairCheck(cmd)
  }

  /** As much of a command as its length byte, which wraps at 256, announces. */
  function Announced(cmd: seq<byte>): (part: seq<byte>)
    requires 5 <= |cmd|
    ensures 5 <= |part| <= 260 && part <= cmd
    ensures part == cmd <==> |cmd| <= 260
  {
    cmd[..(|cmd| - 5) % 256 + 5]
  }

  /** What goes out behind the checksum: the rest of the command, and of the three bytes
      behind the command (one never written, two NULs) those that the checksum, written
      where the announced length ends, leaves. */
  function PentairTrailer(cmd: seq<byte>, stale: byte): seq<byte>
    requires 5 <= |cmd|
  {
    (cmd + [stale, NUL, NUL])[|Announced(cmd)| + 2..]
  }

  function PentairWire(cmd: seq<byte>, stale: byte): seq<byte>
    requires 5 <= |cmd|
  {
    [NUL] + PentairFrame(Announced(cmd)) + PentairTrailer(cmd, stale)
  }

  /** A command whose length fits in a byte goes out whole, with one NUL behind it. */
  lemma WholeWire(cmd: seq<byte>, stale: byte)
    requires 5 <= |cmd| <= 260
    ensures PentairWire(cmd, stale) == [NUL] + PentairFrame(cmd) + [NUL]
  {
    assert (cmd + [stale, NUL, NUL])[|cmd| + 2..] == [NUL];
  }

  /** Every byte of a command that is not the length byte, nor overwritten by the checksum,
      goes out in its place. */
  lemma BytesSent(cmd: seq<byte>, stale: byte)
    requires 5 <= |cmd| <= 504
    ensures var w, n := PentairWire(cmd, stale), (|cmd| - 5) % 256 + 5;
            && |w| == |cmd| + 8 && w[..5] == [0x00, 0xFF, 0x00, 0xFF, 0xA5]
            && w[9] as int == n - 5 && w[|w| - 1] == 0x00
            && (forall i :: 0 <= i < |cmd| && i != 4 && i != n && i != n + 1 ==> w[i + 5] == cmd[i])
  {
    var w, part := PentairWire(cmd, stale), Announced(cmd);
    var head := [NUL] + PentairFrame(part);
    assert w[..|head|] == head;
    forall i | |part| + 2 <= i < |cmd| ensures w[i + 5] == cmd[i] {
      assert w[i + 5] == PentairTrailer(cmd, stale)[i + 5 - |head|];
    }
  }

  /** The payload of an acknowledgement. */
  function AckPayload(ackType: byte, command: byte): seq<byte> {
    [DEV_MASTER, CMD_ACK, ackType, command]
  }

  /** Only a DLE in the command position is escaped, after the checksum is taken. */
  function AckWire(ackType: byte, command: byte): seq<byte> {
    var p := AckPayload(ackType, command);
    [NUL, DLE, STX] + p + (if command == DLE then [NUL] else []) + [JandyChecksum(p), DLE, ETX]
  }

  /** A Jandy packet recognised from its parts. */
  lemma JandyWireFromParts(w: seq<byte>, head: seq<byte>, payload: seq<byte>)
    requires |w| == |payload| + 6
    requires head == [NUL] + ([DLE, STX] + payload)
    requires w[..|payload| + 3] == head
    requires w[|payload| + 3] == JandyChecksum(payload)
    requires w[|payload| + 4] == DLE
    requires w[|payload| + 5] == ETX
    ensures w == JandyWire(payload)
  {
    assert w == head + [w[|payload| + 3], w[|payload| + 4], w[|payload| + 5]];
  }

  /** A Pentair packet recognised from its parts; `filled` is what it held before the
      checksum was written. */
  lemma PentairWireFromParts(w: seq<byte>, filled: seq<byte>, cmd: seq<byte>, stale: byte)
    requires 5 <= |cmd| && |w| == |cmd| + 8
    requires filled == [NUL] + HEADER + PentairCommand(cmd) + [stale, NUL, NUL]
    requires var n := |Announced(cmd)| + 5;
             && w[..n] == filled[..n] && w[n..n + 2] == PentairCheck(Announced(cmd)) && w[n + 2..] == filled[n + 2..]
    ensures w == PentairWire(cmd, stale)
  {
    var part := Announced(cmd);
    var n := |part| + 5;
    assert filled[..n] == [NUL] + (HEADER + PentairCommand(part));
    assert filled[n + 2..] == PentairTrailer(cmd, stale);
    assert w == w[..n] + w[n..n + 2] + w[n + 2..];
  }

  /** send_jandy_command */
  method SendJandyCommand(port: SerialPort, buffer: seq<byte>)
    requires |buffer| + 6 <= MAX_PACKET
    modifies port`outgoing
    ensures port.outgoing == old(port.outgoing) + JandyWire(buffer)
  {
    ghost var head := [NUL] + ([DLE, STX] + buffer);
    var packet := new byte[MAX_PACKET];
    packet[0] := NUL;
    packet[1] := DLE;
    packet[2] := STX;
    var i := 3;
    while i - 3 < |buffer|
      invariant 3 <= i <= |buffer| + 3 && port.outgoing == old(port.outgoing)
      invariant packet[..i] == head[..i]
    {
      packet[i] := buffer[i - 3];
      i := i + 1;
    }
    assert packet[..|buffer| + 3] == head;
    i := i + 1;
    packet[i] := DLE;
    i := i + 1;
    packet[i] := ETX;
    assert packet[..|buffer| + 3] == head;
    SumConcat([NUL], [DLE, STX] + buffer);
    var checksum := GenerateChecksum(packet, i + 1);
    packet[i - 2] := checksum;
    assert packet[..|buffer| + 3] == head;
    i := i + 1;
    JandyWireFromParts(packet[..i], head, buffer);
    port.Write(packet, i);
  }

  /** The first half of send_pentair_command: preamble, command with its length byte
      replaced, and the two NULs that hold the checksum's place (one byte late). */
  method FillPentairPacket(packet: array<byte>, buffer: seq<byte>) returns (i: nat, ghost stale: byte)
    requires 5 <= |buffer| <= 504 && packet.Length == MAX_PACKET
    modifies packet
    ensures i == |buffer| + 7
    ensures packet[..|buffer| + 8] == [NUL] + HEADER + PentairCommand(buffer) + [stale, NUL, NUL]
  {
    ghost var head := [NUL] + HEADER + PentairCommand(buffer);
    packet[0] := NUL;
    packet[1] := PP1;
    packet[2] := PP2;
    packet[3] := PP3;
    packet[4] := PP4;
    i := 5;
    while i - 5 < |buffer|
      invariant 5 <= i <= |buffer| + 5
      invariant packet[..i] == head[..i]
    {
      if i == 9 {
        packet[i] := (|buffer| - 5) % 256;
      } else {
        packet[i] := buffer[i - 5];
      }
      i := i + 1;
    }
    stale := packet[i];
    i := i + 1;
    packet[i] := NUL;
    i := i + 1;
    packet[i] := NUL;
    assert packet[..|buffer| + 5] == head;
    assert packet[..|buffer| + 8] == packet[..|buffer| + 5] + [stale, NUL, NUL];
  }

  /** send_pentair_command, for any command that has a length byte and fits the packet;
      `stale` is what the packet held where nothing was written. */
  method SendPentairCommand(port: SerialPort, buffer: seq<byte>) returns (ghost stale: byte)
    requires 5 <= |buffer| <= 504
    modifies port`outgoing
    ensures port.outgoing == old(port.outgoing) + PentairWire(buffer, stale)
  {
    var packet := new byte[MAX_PACKET];
    var i;
    i, stale := FillPentairPacket(packet, buffer);
    ghost var filled := packet[..|buffer| + 8];
    ghost var n := |Announced(buffer)| + 5;
    SummedPart(packet[..], filled, buffer, stale);
    ghost var before := packet[..];
    GeneratePentairChecksum(packet, 1);
    i := i + 1;
    CheckedPart(before, packet[..], filled, n, i);
    PentairWireFromParts(packet[..i], filled, buffer, stale);
    port.Write(packet, i);
  }

  /** Bytes outside the checksum's two are as they were, also in the first i. */
  lemma CheckedPart(before: seq<byte>, after: seq<byte>, filled: seq<byte>, n: nat, i: nat)
    requires n + 2 <= |filled| == i <= |before| == |after| && filled == before[..i]
    requires after[..n] == before[..n] && after[n + 2..] == before[n + 2..]
    ensures after[..i][..n] == filled[..n] && after[..i][n + 2..] == filled[n + 2..]
    ensures after[..i][n..n + 2] == [after[n], after[n + 1]]
  {
    forall k | 0 <= k < n ensures after[k] == before[k] {
      assert after[..n][k] == before[..n][k];
    }
    forall k | n + 2 <= k < |after| ensures after[k] == before[k] {
      assert after[n + 2..][k - (n + 2)] == before[n + 2..][k - (n + 2)];
    }
  }

  /** Where the length byte and the summed bytes sit in a Pentair packet under construction. */
  lemma SummedPart(w: seq<byte>, filled: seq<byte>, cmd: seq<byte>, stale: byte)
    requires 5 <= |cmd| && filled == [NUL] + HEADER + PentairCommand(cmd) + [stale, NUL, NUL]
    requires filled <= w
    ensures w[9] as int + 5 == |Announced(cmd)|
    ensures w[4..|Announced(cmd)| + 5] == [PP4] + PentairCommand(Announced(cmd))
  {
    var n := |Announced(cmd)|;
    assert filled[9] == PentairCommand(cmd)[4];
    assert w[4..n + 5] == filled[4..n + 5];
    assert filled[4..n + 5] == [PP4] + PentairCommand(cmd)[..n];
    assert PentairCommand(cmd)[..n] == PentairCommand(Announced(cmd));
  }

  /** _send_ack */
  method SendAck(port: SerialPort, ackType: byte, command: byte)
    modifies port`outgoing
    ensures port.outgoing == old(port.outgoing) + AckWire(ackType, command)
  {
    var length := 10;
    var packet := new byte[] [NUL, DLE, STX, DEV_MASTER, CMD_ACK, NUL, NUL, 0x13, DLE, ETX, NUL];
    AckSum(ackType, command);
    if command != NUL || ackType != NUL {
      packet[5] := ackType;
      packet[6] := command;
      assert packet[..7] == [NUL, DLE, STX] + AckPayload(ackType, command);
      var checksum := GenerateChecksum(packet, length);
      packet[7] := checksum;
      if command == DLE {
        packet[8] := packet[7];
        packet[7] := NUL;
        packet[9] := DLE;
        packet[10] := ETX;
        length := 11;
      }
    }
    assert packet[..length] == AckWire(ackType, command);
    port.Write(packet, length);
  }

  lemma SumOfTwo(a: byte, b: byte)
    ensures Sum([a, b]) == a as int + b as int
  {
    assert [a, b][..1] == [a];
    assert [a][..0] == [];
  }

  /** The checksum of an acknowledgement in closed form: 0x13 plus its two bytes. */
  lemma AckSum(ackType: byte, command: byte)
    ensures Sum([NUL, DLE, STX] + AckPayload(ackType, command)) == 0x13 + ackType as int + command as int
    ensures JandyChecksum(AckPayload(ackType, command)) == (0x13 + ackType as int + command as int) % 256
  {
    var p := AckPayload(ackType, command);
    SumConcat([NUL], [DLE, STX] + p);
    assert [NUL, DLE, STX] + p == [NUL] + ([DLE, STX] + p);
    SumConcat([DLE, STX], p);
    SumConcat([DEV_MASTER, CMD_ACK], [ackType, command]);
    assert p == [DEV_MASTER, CMD_ACK] + [ackType, command];
    SumOfTwo(DLE, STX);
    SumOfTwo(DEV_MASTER, CMD_ACK);
    SumOfTwo(ackType, command);
  }
}
