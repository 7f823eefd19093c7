/** Bytes on the RS485 line, the framing constants of the two protocols and
    the arithmetic of their checksums. */
module Wire {

  type byte = b: int | 0 <= b < 256

  const NUL: byte := 0x00
  const DLE: byte := 0x10
  const STX: byte := 0x02
  const ETX: byte := 0x03

  // The four bytes that open a Pentair frame.
  const PP1: byte := 0xFF
  const PP2: byte := 0x00
  const PP3: byte := 0xFF
  const PP4: byte := 0xA5
  const HEADER: seq<byte> := [PP1, PP2, PP3, PP4]

  const DEV_MASTER: byte := 0x00
  const CMD_ACK: byte := 0x01

  const MAX_PACKET := 512
  const MIN_PACKET := 5

  /** Plain sum of a byte string. */
  function Sum(s: seq<byte>): (total: nat)
    ensures total <= 255 * |s|
  {
    if s == [] then 0 else Sum(s[..|s| - 1]) + s[|s| - 1]
  }

  lemma {:induction false} SumConcat(a: seq<byte>, b: seq<byte>)
    ensures Sum(a + b) == Sum(a) + Sum(b)
  {
    if b == [] {
      assert a + b == a;
    } else {
      assert (a + b)[..|a + b| - 1] == a + b[..|b| - 1];
      SumConcat(a, b[..|b| - 1]);
    }
  }

  /** The frame carries its own 8-bit sum three bytes before its end, or is the
      one message whose wrong checksum the decoder tolerates. */
  predicate JandyChecksumOk(f: seq<byte>)
    requires |f| >= 4
  {
    || Sum(f[..|f| - 3]) % 256 == f[|f| - 3]
    || (|f| >= 5 && f[3] == 0x04 && f[4] == 0x03 && f[|f| - 3] == 0x0a)
  }

  /** The 16-bit sum from the fourth header byte to the end of the data equals
      the last two bytes. */
  predicate PentairChecksumOk(f: seq<byte>)
    requires |f| >= 11
  {
    Sum(f[3..|f| - 2]) == 256 * (f[|f| - 2] as int) + f[|f| - 1] as int
  }

  /** generate_checksum */
  method GenerateChecksum(packet: array<byte>, length: int) returns (c: byte)
    requires length <= packet.Length + 3
    ensures length >= 3 ==> c == Sum(packet[..length - 3]) % 256
    ensures length < 3 ==> c == 0
  {
    var n := length - 3;
    var sum: int := 0;
    var i := 0;
    while i < n
      invariant 0 <= i
      invariant i <= n || (n < 0 && i == 0)
      invariant i <= packet.Length
      invariant sum == Sum(packet[..i])
    {
      assert packet[..i + 1][..i] == packet[..i];
      sum := sum + packet[i];
      i := i + 1;
    }
    c := sum % 256;
  }

  /** check_jandy_checksum; the length of a Jandy frame is at least four. */
  method CheckJandyChecksum(packet: array<byte>, length: int) returns (ok: bool)
    requires 4 <= length <= packet.Length && 5 <= packet.Length
    requires length == 4 ==> packet[3] != 0x04
    ensures ok == JandyChecksumOk(packet[..length])
  {
    var sum := GenerateChecksum(packet, length);
    assert packet[..length][..length - 3] == packet[..length - 3];
    if sum == packet[length - 3] {
      return true;
    }
    if packet[3] == 0x04 && packet[4] == 0x03 && packet[length - 3] == 0x0a {
      return true;
    }
    return false;
  }

  /** check_pentair_checksum on a frame of the length its ninth byte announces. */
  method CheckPentairChecksum(packet: array<byte>, length: int) returns (ok: bool)
    requires 11 <= length <= packet.Length
    requires length == packet[8] as int + 11
    ensures ok == PentairChecksumOk(packet[..length])
  {
    var n := packet[8] as int + 9;
    var sum: int := 0;
    for i := 3 to n
      invariant sum == Sum(packet[3..i])
    {
      assert packet[3..i + 1][..i - 3] == packet[3..i];
      sum := sum + packet[i];
    }
    assert packet[..length][3..length - 2] == packet[3..n];
    if sum == (packet[length - 2] as int) * 256 + packet[length - 1] as int {
      return true;
    }
    if sum == (packet[n] as int) * 256 + packet[n + 1] as int {
      return true;
    }
    return false;
  }

  /** generate_pentair_checksum over the packet from its preamble onwards; base is
      where the preamble starts. */
  method GeneratePentairChecksum(packet: array<byte>, base: nat)
    requires base + 8 < packet.Length
    requires base + packet[base + 8] + 10 < packet.Length
    modifies packet
    ensures var n := base + old(packet[base + 8]) + 9;
            var sum := Sum(old(packet[base + 3..n]));
            && packet[n] == sum / 256 % 256 && packet[n + 1] == sum % 256
            && packet[..n] == old(packet[..n]) && packet[n + 2..] == old(packet[n + 2..])
  {
    var n := packet[base + 8] as int + 9;
    var sum: int := 0;
    for i := 3 to n
      invariant sum == Sum(packet[base + 3..base + i])
    {
      assert packet[base + 3..base + i + 1][..i - 3] == packet[base + 3..base + i];
      sum := sum + packet[base + i];
    }
    packet[base + n + 1] := sum % 256;
    packet[base + n] := sum / 256 % 256;
  }
}
