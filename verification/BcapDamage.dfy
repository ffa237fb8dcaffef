/** What damage on a serial line does to a frame and to the one behind it (library/src/bcap_common.c,
    bcap_recv). */
module BcapDamage {
  import opened Bytes
  import opened Common
  import opened BcapCodec
  import BcapCrc
  import BcapCrcWord
  import opened BcapReader
  import opened BcapWriter

  /** What bcap_recv takes for a frame from what has come in on a serial line: it looks for a header byte,
      cuts by the length behind it, and goes on looking behind the header byte if the length cannot be. */
  function Window(s: seq<Byte>): (w: Option<seq<Byte>>)
    ensures w.Some? ==> SIZE_MIN + 2 <= |w.value| <= UDP_MAX_PACKET
  {
    if s == [] then None
    else if s[0] != HEADER then Window(s[1..])
    else if |s| < PREFIX then None
    else
      var n := UnLE(s[1..PREFIX]);
      if n < SIZE_MIN + 2 || n > UDP_MAX_PACKET then Window(s[1..])
      else if n > |s| then None
      else Some(s[..n])
  }

  /** A frame of that length was sent, and some of its bits have been flipped on the way: an odd number
      between the first and the last byte, or some within sixteen consecutive bits before the check field. */
  predicate Damaged(sent: seq<Byte>, got: seq<Byte>, at: nat)
    requires |got| == |sent| >= SIZE_MIN + 2
  {
    var n := |sent|;
    || BcapCrc.Odd(BcapCrc.Flips(sent[1..n - 1], got[1..n - 1]))
    || (BcapCrc.Burst(BcapCrc.Flips(sent[1..n - 3], got[1..n - 3]), at)
        && got[n - 3..n - 1] == sent[n - 3..n - 1])
  }

  /** Such damage is noticed unless it has hit the length field, by which the receiver cuts: whatever
      comes behind the frame, only if the four bytes of the length are not those that were sent can what is
      taken be delivered. */
  lemma DamagedNotDelivered(p: Packet, got: seq<Byte>, rest: seq<Byte>, room: nat, at: nat)
    requires WireSize(Com, p) <= UDP_MAX_PACKET
    requires |got| == WireSize(Com, p) && got[0] == HEADER && Damaged(SerialFrame(p), got, at)
    ensures var w := Window(got + rest);
            w.Some? && Taken(w.value, room).Delivered? ==> got[1..PREFIX] != SerialFrame(p)[1..PREFIX]
    ensures got[1..PREFIX] == SerialFrame(p)[1..PREFIX] ==> Window(got + rest) == Some(got)
  {
    hide DecPacket, BcapCrc.Accepts, Damaged;
    if got[1..PREFIX] == SerialFrame(p)[1..PREFIX] {
      LengthField(p);
      WindowCuts(got, rest);
      DamageRejected(p, got, at);
    }
  }

  lemma WindowCuts(got: seq<Byte>, rest: seq<Byte>)
    requires SIZE_MIN + 2 <= |got| <= UDP_MAX_PACKET && got[0] == HEADER && UnLE(got[1..PREFIX]) == |got|
    ensures Window(got + rest) == Some(got)
  {
    hide UnLE;
    var s := got + rest;
    assert s[1..PREFIX] == got[1..PREFIX] && s[..|got|] == got;
  }

  lemma LengthField(p: Packet)
    requires WireSize(Com, p) <= UDP_MAX_PACKET
    ensures UnLE(SerialFrame(p)[1..PREFIX]) == WireSize(Com, p)
  {
    hide LE, UnLE, Range, EncItems, BcapCrc.FieldOf, BcapCrc.Crc;
    var n := WireSize(Com, p);
    RangeValues();
    UnLEofLE(n, 4);
    assert Head(p, n)[1..PREFIX] == LE(n, 4);
    assert SerialFrame(p)[1..PREFIX] == Head(p, n)[1..PREFIX];
  }

  lemma DamageRejected(p: Packet, got: seq<Byte>, at: nat)
    requires |got| == WireSize(Com, p) && Damaged(SerialFrame(p), got, at)
    ensures var n := |got|; !BcapCrc.Accepts(got[1..n - 3], got[n - 3..n - 1])
  {
    hide Head, EncItems, BcapCrc.Crc, BcapCrc.FieldOf, BcapCrc.Flips, BcapCrc.Odd, BcapCrc.Burst,
      BcapCrc.Accepts;
    var n := |got|;
    var body := Head(p, n) + EncItems(p.args, true);
    var field := BcapCrc.FieldOf(BcapCrc.Crc(body[1..]));
    var sent := SerialFrame(p);
    assert sent == body + field + [TERMINATOR];
    assert sent[1..n - 3] == body[1..] && sent[n - 3..n - 1] == field;
    assert sent[1..n - 1] == body[1..] + field;
    assert got[1..n - 1] == got[1..n - 3] + got[n - 3..n - 1];
    if BcapCrc.Odd(BcapCrc.Flips(sent[1..n - 1], got[1..n - 1])) {
      BcapCrc.OddErrorsDetected(body[1..], got[1..n - 3], got[n - 3..n - 1]);
    } else {
      BcapCrc.BurstsDetected(body[1..], got[1..n - 3], at);
    }
  }

  // ---------- after a frame that was thrown away ----------

  /** Frames taken one after the other until one is not thrown away.  What is left of the room for
      arguments is what the frame before had. */
  function Received(frames: seq<seq<Byte>>, room: nat): SerialOutcome
    requires forall i :: 0 <= i < |frames| ==> |frames[i]| >= SIZE_MIN + 2
  {
    if frames == [] then Discarded(room)
    else
      match Taken(frames[0], room)
      case Discarded(r) => Received(frames[1..], r)
      case outcome => outcome
  }

  /** A good frame behind one that was thrown away is delivered if and only if it has no more arguments than
      that one; otherwise it is refused. */
  lemma AfterMismatchExactly(bad: seq<Byte>, p: Packet, room: nat)
    requires |bad| >= SIZE_MIN + 2 && Taken(bad, room).Discarded?
    requires GoodPacket(p) && |p.args| <= room && WireSize(Com, p) <= UDP_MAX_PACKET
    ensures var r := Received([bad, SerialFrame(p)], room);
            if |p.args| <= Taken(bad, room).room then r == Delivered(p.(args := NormAll(p.args)))
            else r == Failed(InvalidPacket)
  {
    hide DecPacket, SerialFrame, BcapCrc.Accepts, NormAll, GoodPacket;
    var frames := [bad, SerialFrame(p)];
    var n := Taken(bad, room).room;
    assert frames[1..] == [SerialFrame(p)];
    assert Received([SerialFrame(p)], n)
        == match Taken(SerialFrame(p), n) case Discarded(r) => Received([], r) case outcome => outcome;
    GoodFrame(p, n);
  }

  lemma GoodFrame(p: Packet, n: nat)
    requires GoodPacket(p) && WireSize(Com, p) <= UDP_MAX_PACKET
    ensures |SerialFrame(p)| >= SIZE_MIN + 2
    ensures Taken(SerialFrame(p), n)
            == if |p.args| <= n then Delivered(p.(args := NormAll(p.args))) else Failed(InvalidPacket)
  {
    hide SerialFrame, NormAll, GoodPacket;
    SentIsReceived(Com, p, |p.args|);
    if |p.args| <= n {
      hide DecPacket, BcapCrc.Accepts;
      SentIsReceived(Com, p, n);
    } else {
      hide BcapCrc.Accepts;
      NormLength(p.args);
    }
  }

  lemma {:induction false} NormLength(vs: seq<Variant>)
    ensures |NormAll(vs)| == |vs|
  {
    if vs != [] { NormLength(vs[..|vs| - 1]); }
  }

  /** So a frame with an argument is refused behind a damaged one without any. */
  lemma RefusedAfterMismatch(p: Packet, q: Packet, crc: BcapCrc.Word, room: nat)
    requires GoodPacket(p) && p.args == [] && GoodPacket(q) && q.args != [] && |q.args| <= room
    requires WireSize(Com, q) <= UDP_MAX_PACKET
    requires var body := Head(p, PacketSize(p) + 2) + EncItems(p.args, true); crc != BcapCrc.Crc(body[1..])
    ensures var bad := Head(p, PacketSize(p) + 2) + EncItems(p.args, true) + BcapCrc.FieldOf(crc) + [TERMINATOR];
            && |bad| >= SIZE_MIN + 2 && Taken(bad, room) == Discarded(0)
            && Received([bad, SerialFrame(q)], room) == Failed(InvalidPacket)
  {
    hide DecPacket, SerialFrame, BcapCrc.FieldOf, BcapCrc.Crc, BcapCrc.WordOf, Head, EncItems, AllGood, AllEncodable,
      Received;
    var body := Head(p, PacketSize(p) + 2) + EncItems(p.args, true);
    var bad := body + BcapCrc.FieldOf(crc) + [TERMINATOR];
    assert PacketSize(p) == SIZE_MIN by { NoItems(); }
    PacketRoundTrip(p, BcapCrc.FieldOf(crc), room);
    BcapCrc.FieldRoundTrip(crc);
    assert bad[1..|bad| - 3] == body[1..] && bad[|bad| - 3..|bad| - 1] == BcapCrc.FieldOf(crc);
    AfterMismatchExactly(bad, q, room);
  }

  lemma NoItems()
    ensures EncItems([], true) == [] && NormAll([]) == []
  {
  }

  // ---------- one flipped bit that is not noticed ----------

  /** A good packet with one argument. */
  const VICTIM := Packet(0x0EEC, 0x0EEC, 6, [Scalar(VT_UI1, 0xF8)])

  /** Its header, from the second byte of the length on, and its argument without the last byte. */
  const COVERED: seq<Byte> :=
    [0x00, 0x00, 0x00, 0xEC, 0x0E, 0xEC, 0x0E, 0x06, 0x00, 0x00, 0x00, 0x01, 0x00,
     0x07, 0x00, 0x00, 0x00, 0x11, 0x00, 0x01, 0x00, 0x00, 0x00]

  /** The lowest bit of the length is flipped: the receiver cuts one byte earlier, the high byte of the check
      field serves as terminator, and the last byte of the argument with the low byte of the check field
      happens to be the check value of what is left. */
  lemma OneFlippedBitDelivered()
    ensures var sent := SerialFrame(VICTIM);
            var got := sent[1 := 0x1C];
            && GoodPacket(VICTIM) && Outgoing(Com, VICTIM) == Ok(sent) && Damaged(sent, got, 7)
            && Window(got) == Some(got[..28]) && Taken(got[..28], 1) == Delivered(VICTIM)
  {
    hide BcapCrc.Crc, BcapCrc.FieldOf, DecPacket, Damaged, BcapCrc.Accepts;
    var sent := SerialFrame(VICTIM);
    var got := sent[1 := 0x1C];
    VictimFrame();
    VictimDamaged();
    VictimWindow(got);
    VictimDecoded(got[..28]);
    VictimAccepted(got[..28]);
  }

  /** The bytes of that packet, whatever its length field holds. */
  lemma VictimBody(len: Byte)
    ensures Head(VICTIM, len) + EncItems(VICTIM.args, true) == [HEADER, len] + COVERED + [0xF8]
    ensures PacketSize(VICTIM) == 27
  {
    hide LE, EncItems, EncItem, Head;
    VictimHead(len);
    VictimArgument();
    assert VICTIM.args[..0] == [];
    OneItem(VICTIM.args[0]);
  }

  lemma VictimHead(len: Byte)
    ensures Head(VICTIM, len)
            == [HEADER, len, 0, 0, 0, 0xEC, 0x0E, 0xEC, 0x0E, 6, 0, 0, 0, 1, 0]
  {
    hide LE;
    Numbers(len);
  }

  lemma VictimArgument()
    ensures EncItem(VICTIM.args[0], true) == [7, 0, 0, 0, 0x11, 0, 1, 0, 0, 0, 0xF8]
  {
    hide LE;
    Numbers(0);
    assert LE(1, 4) == [1, 0, 0, 0];
  }

  lemma OneItem(v: Variant)
    ensures EncItems([v], true) == EncItem(v, true)
  {
    assert [v][..0] == [];
  }

  lemma Numbers(len: Byte)
    ensures LE(len, 4) == [len, 0, 0, 0] && LE(0x0EEC, 2) == [0xEC, 0x0E] && LE(6, 4) == [6, 0, 0, 0]
    ensures LE(1, 2) == [1, 0] && LE(7, 4) == [7, 0, 0, 0] && LE(0x11, 2) == [0x11, 0] && LE(1, 4) == [1, 0, 0, 0]
    ensures LE(0xF8, 1) == [0xF8]
  {
    Small(len, 4);
    Small(6, 4);
    Small(7, 4);
    Small(1, 4);
    Small(1, 2);
    Small(0x11, 2);
    Small(0x0E, 1);
    Small(0xF8, 1);
    assert LE(0x0EEC, 2) == [0xEC] + LE(0x0E, 1);
  }

  lemma {:induction false} Small(b: Byte, n: nat)
    requires n > 0
    ensures LE(b, n) == [b] + seq(n - 1, i => 0 as Byte)
  {
    if n > 1 { Small(0, n - 1); }
  }

  lemma Spelled()
    ensures BcapCrcWord.Spells(BcapCrc.BitsOf(0x00), 0x00) && BcapCrcWord.Spells(BcapCrc.BitsOf(0x01), 0x01)
    ensures BcapCrcWord.Spells(BcapCrc.BitsOf(0x06), 0x06) && BcapCrcWord.Spells(BcapCrc.BitsOf(0x07), 0x07)
    ensures BcapCrcWord.Spells(BcapCrc.BitsOf(0x0E), 0x0E) && BcapCrcWord.Spells(BcapCrc.BitsOf(0x11), 0x11)
  {
  }

  lemma SpelledToo()
    ensures BcapCrcWord.Spells(BcapCrc.BitsOf(0xEC), 0xEC) && BcapCrcWord.Spells(BcapCrc.BitsOf(0xF8), 0xF8)
  {
    SpelledEC();
  }

  lemma SpelledEC()
    ensures BcapCrcWord.Spells(BcapCrc.BitsOf(0xEC), 0xEC)
  {
  }

  lemma LengthsSpelled()
    ensures BcapCrcWord.Spells(BcapCrc.BitsOf(0x1C), 0x1C) && BcapCrcWord.Spells(BcapCrc.BitsOf(0x1D), 0x1D)
  {
  }

  /** The check value of what was sent. */
  lemma SentField()
    ensures BcapCrc.FieldOf(BcapCrc.Crc([0x1D] + COVERED + [0xF8])) == [0x3E, 0x04]
  {
    hide BcapCrcWord.Spells, BcapCrc.BitsOf, BcapCrc.Crc, BcapCrcWord.Tells;
    Spelled();
    SpelledToo();
    LengthsSpelled();
    BcapCrcWord.CrcStart();
    BcapCrcWord.CrcFour([], 0xFFFF, 0x1D, 0x1D, 0x00, 0x00, 0x00, 0x00, 0x00, 0x00);
    var m1: seq<Byte> := [] + [0x1D, 0x00, 0x00, 0x00];
    BcapCrcWord.CrcFour(m1, 0xA6E1, 0xEC, 0xEC, 0x0E, 0x0E, 0xEC, 0xEC, 0x0E, 0x0E);
    var m2: seq<Byte> := m1 + [0xEC, 0x0E, 0xEC, 0x0E];
    BcapCrcWord.CrcFour(m2, 0x3E26, 0x06, 0x06, 0x00, 0x00, 0x00, 0x00, 0x00, 0x00);
    var m3: seq<Byte> := m2 + [0x06, 0x00, 0x00, 0x00];
    BcapCrcWord.CrcFour(m3, 0x9D4C, 0x01, 0x01, 0x00, 0x00, 0x07, 0x07, 0x00, 0x00);
    var m4: seq<Byte> := m3 + [0x01, 0x00, 0x07, 0x00];
    BcapCrcWord.CrcFour(m4, 0x78F6, 0x00, 0x00, 0x00, 0x00, 0x11, 0x11, 0x00, 0x00);
    var m5: seq<Byte> := m4 + [0x00, 0x00, 0x11, 0x00];
    BcapCrcWord.CrcFour(m5, 0xA606, 0x01, 0x01, 0x00, 0x00, 0x00, 0x00, 0x00, 0x00);
    var m6: seq<Byte> := m5 + [0x01, 0x00, 0x00, 0x00];
    assert m6 == [0x1D] + COVERED;
    BcapCrcWord.CrcMore(m6, 0x09FB, 0xF8, 0xF8);
    FieldBits();
    BcapCrcWord.FieldTold(BcapCrc.Crc(m6 + [0xF8]), 0x043E, 0x04, 0x3E);
  }

  /** The check value of what is taken. */
  lemma TakenField()
    ensures BcapCrc.Crc([0x1C] + COVERED) == BcapCrc.WordOf([0xF8, 0x3E])
  {
    hide BcapCrcWord.Spells, BcapCrc.BitsOf, BcapCrc.Crc, BcapCrcWord.Tells;
    Spelled();
    SpelledToo();
    LengthsSpelled();
    BcapCrcWord.CrcStart();
    BcapCrcWord.CrcFour([], 0xFFFF, 0x1C, 0x1C, 0x00, 0x00, 0x00, 0x00, 0x00, 0x00);
    var m1: seq<Byte> := [] + [0x1C, 0x00, 0x00, 0x00];
    BcapCrcWord.CrcFour(m1, 0xD055, 0xEC, 0xEC, 0x0E, 0x0E, 0xEC, 0xEC, 0x0E, 0x0E);
    var m2: seq<Byte> := m1 + [0xEC, 0x0E, 0xEC, 0x0E];
    BcapCrcWord.CrcFour(m2, 0x79F5, 0x06, 0x06, 0x00, 0x00, 0x00, 0x00, 0x00, 0x00);
    var m3: seq<Byte> := m2 + [0x06, 0x00, 0x00, 0x00];
    BcapCrcWord.CrcFour(m3, 0x9E39, 0x01, 0x01, 0x00, 0x00, 0x07, 0x07, 0x00, 0x00);
    var m4: seq<Byte> := m3 + [0x01, 0x00, 0x07, 0x00];
    BcapCrcWord.CrcFour(m4, 0xD0D2, 0x00, 0x00, 0x00, 0x00, 0x11, 0x11, 0x00, 0x00);
    var m5: seq<Byte> := m4 + [0x00, 0x00, 0x11, 0x00];
    BcapCrcWord.CrcFour(m5, 0x93B5, 0x01, 0x01, 0x00, 0x00, 0x00, 0x00, 0x00, 0x00);
    var m6: seq<Byte> := m5 + [0x01, 0x00, 0x00, 0x00];
    assert m6 == [0x1C] + COVERED;
    TakenBits();
    BcapCrcWord.FieldTold(BcapCrc.Crc(m6), 0x3EF8, 0x3E, 0xF8);
  }

  lemma FieldBits()
    ensures forall i :: 0 <= i < 8 ==> BcapCrc.BitsOf(0x04)[i] == BcapCrcWord.Bit(0x043E, i)
    ensures forall i :: 0 <= i < 8 ==> BcapCrc.BitsOf(0x3E)[i] == BcapCrcWord.Bit(0x043E, 8 + i)
  {
  }

  lemma TakenBits()
    ensures forall i :: 0 <= i < 8 ==> BcapCrc.BitsOf(0x3E)[i] == BcapCrcWord.Bit(0x3EF8, i)
    ensures forall i :: 0 <= i < 8 ==> BcapCrc.BitsOf(0xF8)[i] == BcapCrcWord.Bit(0x3EF8, 8 + i)
  {
  }

  lemma VictimFrame()
    ensures SerialFrame(VICTIM) == [HEADER, 0x1D] + COVERED + [0xF8, 0x3E, 0x04, TERMINATOR]
    ensures GoodPacket(VICTIM) && Outgoing(Com, VICTIM) == Ok(SerialFrame(VICTIM))
  {
    hide BcapCrc.FieldOf, BcapCrc.Crc, Head, EncItems, AllGood, AllEncodable;
    VictimBody(0x1D);
    SentField();
    var body := [HEADER, 0x1D] + COVERED + [0xF8];
    assert body[1..] == [0x1D] + COVERED + [0xF8];
    assert SerialFrame(VICTIM) == body + [0x3E, 0x04] + [TERMINATOR];
    VictimGood();
    AllGoodAreEncodable(VICTIM.args);
  }

  lemma VictimGood()
    ensures AllGood(VICTIM.args)
  {
    RangeValues();
    assert VICTIM.args[..0] == [];
  }

  lemma VictimDamaged()
    ensures Damaged(SerialFrame(VICTIM), SerialFrame(VICTIM)[1 := 0x1C], 7)
  {
    hide BcapCrc.Flips, BcapCrc.Odd, BcapCrc.Burst, SerialFrame;
    VictimFrame();
    var x := COVERED + [0xF8, 0x3E, 0x04];
    var sent := SerialFrame(VICTIM);
    assert sent[1..28] == [0x1D] + x && sent[1 := 0x1C][1..28] == [0x1C] + x;
    OneFlip(x);
  }

  lemma OneFlip(x: seq<Byte>)
    ensures BcapCrc.Odd(BcapCrc.Flips([0x1D] + x, [0x1C] + x))
  {
    LengthsSpelled();
    BcapCrc.FlipsAppend([0x1D], [0x1C], x, x);
    var f := BcapCrc.Flips([0x1D], [0x1C]);
    var z := BcapCrc.Flips(x, x);
    assert z == BcapCrc.Zeros(|z|);
    assert [0x1D as Byte][..0] == [] && [0x1C as Byte][..0] == [];
    assert f == BcapCrc.Zeros(7) + [true];
    BcapCrc.OddZeros(7);
    BcapCrc.OddZeros(|z|);
    BcapCrc.OddAppend(BcapCrc.Zeros(7), [true]);
    assert [true][..0] == [];
    BcapCrc.OddAppend(f, z);
  }

  lemma VictimWindow(got: seq<Byte>)
    requires got == SerialFrame(VICTIM)[1 := 0x1C]
    ensures Window(got) == Some(got[..28])
  {
    hide SerialFrame, LE, UnLE;
    VictimFrame();
    Numbers(0x1C);
    assert got == [HEADER, 0x1C] + COVERED + [0xF8, 0x3E, 0x04, TERMINATOR];
    assert got[1] == 0x1C && got[2] == 0 && got[3] == 0 && got[4] == 0;
    assert got[1..PREFIX] == [0x1C, 0, 0, 0];
    RangeValues();
    UnLEofLE(0x1C, 4);
  }

  lemma VictimDecoded(w: seq<Byte>)
    requires w == SerialFrame(VICTIM)[1 := 0x1C][..28]
    ensures DecPacket(w, 1) == Ok(VICTIM)
  {
    hide SerialFrame, DecPacket, Head, EncItems;
    VictimFrame();
    VictimBody(0x1C);
    PacketRoundTrip(VICTIM, [0x3E], 1);
    assert w == Head(VICTIM, 28) + EncItems(VICTIM.args, true) + [0x3E] + [TERMINATOR];
    assert VICTIM.args[..0] == [];
    assert NormAll(VICTIM.args) == VICTIM.args;
  }

  lemma VictimAccepted(w: seq<Byte>)
    requires w == SerialFrame(VICTIM)[1 := 0x1C][..28]
    ensures BcapCrc.Accepts(w[1..25], w[25..27])
  {
    hide SerialFrame, BcapCrc.Crc, BcapCrc.WordOf;
    VictimFrame();
    TakenField();
    assert w[1..25] == [0x1C] + COVERED && w[25..27] == [0xF8, 0x3E];
  }
}
