/** ROBOTalk frames (library/src/dn_robotalk.c): building a packet from a command, its data and the two
    ids, its checksum, which is the sum of everything before it, and what goes on the wire.  The driver's
    link to the power supply uses the same frame layout with another length limit; see PsuLink. */
module Robotalk {
  import opened Bytes
  import opened Common

  const ENQ: Byte := 0x05
  const HEADER := 6
  const CRC := 2
  const PACKET := 256
  const MAX_DATA := 248

  function Sum(s: seq<Byte>): nat {
    if s == [] then 0 else Sum(s[..|s| - 1]) + s[|s| - 1]
  }

  lemma {:induction false} SumBound(s: seq<Byte>)
    ensures Sum(s) <= 255 * |s|
  {
    if s != [] { SumBound(s[..|s| - 1]); }
  }

  lemma {:induction false} SumAppend(a: seq<Byte>, b: seq<Byte>)
    ensures Sum(a + b) == Sum(a) + Sum(b)
  {
    if b == [] {
      assert a + b == a;
    } else {
      SumAppend(a, b[..|b| - 1]);
      assert (a + b)[..|a + b| - 1] == a + b[..|b| - 1];
    }
  }

  /** What a receiver accepts: ENQ, a length byte that matches, and the sum of everything before
      the last two bytes written there high byte first (rtk_recv). */
  predicate Accepts(frame: seq<Byte>) {
    && |frame| >= HEADER + CRC
    && frame[0] == ENQ
    && |frame| == HEADER + frame[1] + CRC
    && Sum(frame[..|frame| - 2]) % 0x1_0000 == 256 * (frame[|frame| - 2] as int) + frame[|frame| - 1]
  }

  datatype Error = InvalidArg | TooMuchData

  /** rtk_calc_crc: the sum over header and data, the length clipped to what a packet can hold. */
  method CalcCrc(packet: array<Byte>) returns (crc: nat)
    requires packet.Length == PACKET
    ensures var n := if packet[1] > MAX_DATA then MAX_DATA else packet[1];
            crc == Sum(packet[..HEADER + n])
  {
    var len := if packet[1] > MAX_DATA then MAX_DATA else packet[1];
    crc := 0;
    var pos := 0;
    while pos < HEADER + len
      invariant 0 <= pos <= HEADER + len
      invariant crc == Sum(packet[..pos])
    {
      assert packet[..pos + 1][..pos] == packet[..pos];
      SumBound(packet[..pos + 1]);
      crc := (crc + packet[pos]) % 0x1_0000;
      pos := pos + 1;
    }
  }

  /** The command field travels high byte first. */
  function Header(command: nat, len: Byte, fromId: Byte, toId: Byte): seq<Byte>
    requires command < 0x1_0000
  {
    [ENQ, len, command / 256, command % 256, fromId, toId]
  }

  /** The header, byte by byte. */
  lemma HeaderOnWire(command: nat, len: Byte, fromId: Byte, toId: Byte)
    requires command < 0x1_0000
    ensures var h := Header(command, len, fromId, toId);
            && |h| == 6 && h[0] == 5 && h[1] == len && h[4] == fromId && h[5] == toId
            && 256 * (h[2] as int) + h[3] == command
  {
  }

  /** A frame is accepted exactly if it begins with ENQ, has the length that its second byte says, and ends in
      the sum of all that, the high byte first. */
  lemma AcceptedExactly(body: seq<Byte>, high: Byte, low: Byte)
    requires |body| >= 6
    ensures Accepts(body + [high, low])
            <==> body[0] == 5 && |body| - 6 == body[1] && 256 * (high as int) + low == Sum(body) % 0x1_0000
  {
    var frame := body + [high, low];
    assert frame[..|frame| - 2] == body && frame[0] == body[0] && frame[1] == body[1];
    assert frame[|frame| - 2] == high && frame[|frame| - 1] == low;
  }

  /** rtk_param2packet fills a packet in place; more than 248 data bytes are refused and nothing
      is written. */
  method Param2Packet(command: nat, data: seq<Byte>, fromId: Byte, toId: Byte, packet: array<Byte>)
    returns (r: Result<(), Error>)
    requires command < 0x1_0000 && |data| < 256 && packet.Length == PACKET
    modifies packet
    ensures r == if |data| > MAX_DATA then Err(InvalidArg) else Ok(())
    ensures r.Err? ==> packet[..] == old(packet[..])
    ensures r.Ok? ==> packet[..HEADER + |data|] == Header(command, |data|, fromId, toId) + data
  {
    if |data| > MAX_DATA {
      return Err(InvalidArg);
    }
    packet[0], packet[1] := ENQ, |data|;
    packet[2], packet[3] := command / 256, command % 256;
    packet[4], packet[5] := fromId, toId;
    forall i | 0 <= i < |data| {
      packet[HEADER + i] := data[i];
    }
    return Ok(());
  }

  /** rtk_send writes the checksum behind the data and puts header, data and checksum on the
      wire; a length byte above 248 is refused.  The first byte is not looked at, and a receiver accepts
      what is sent exactly if it was ENQ. */
  method Send(packet: array<Byte>) returns (r: Result<seq<Byte>, Error>)
    requires packet.Length == PACKET
    modifies packet
    ensures r.Ok? <==> old(packet[1]) <= MAX_DATA
    ensures r.Ok? ==> |r.value| == HEADER + old(packet[1]) + CRC
    ensures r.Ok? ==> r.value[..HEADER + old(packet[1])] == old(packet[..HEADER + packet[1]])
    ensures r.Ok? ==> (Accepts(r.value) <==> old(packet[0]) == ENQ)
  {
    var len := packet[1];
    if HEADER + CRC + len > PACKET {
      return Err(TooMuchData);
    }
    var crc := CalcCrc(packet);
    SumBound(packet[..HEADER + len]);
    ghost var covered := packet[..HEADER + len];
    packet[HEADER + len] := crc / 256;
    packet[HEADER + len + 1] := crc % 256;
    assert packet[..HEADER + len] == covered;
    r := Ok(packet[..HEADER + len + CRC]);
    assert r.value[..HEADER + len] == covered;
  }

  /** The frame of a command is accepted exactly with its own checksum: changing the checksum
      bytes alone is always noticed. */
  lemma ChecksumUnique(frame: seq<Byte>, other: seq<Byte>)
    requires Accepts(frame) && |other| == |frame|
    requires other[..|frame| - 2] == frame[..|frame| - 2]
    ensures Accepts(other) <==> other == frame
  {
    var n := |frame| - 2;
    assert frame == frame[..n] + [frame[n], frame[n + 1]];
    assert other == other[..n] + [other[n], other[n + 1]];
    assert other[0] == other[..n][0] && other[1] == other[..n][1];
    assert frame[0] == frame[..n][0] && frame[1] == frame[..n][1];
  }
}
