/** The register of BcapCrc as the source has it, a word of sixteen bits that is shifted and xor-ed, so that
    the check value of given bytes can be worked out. */
module BcapCrcWord {
  import opened Bytes
  import opened BcapCrc

  /** The bits of a word, the most significant first. */
  function Bit(v: bv16, i: nat): bool {
    if i == 0 then v & 0x8000 != 0
    else if i == 1 then v & 0x4000 != 0
    else if i == 2 then v & 0x2000 != 0
    else if i == 3 then v & 0x1000 != 0
    else if i == 4 then v & 0x0800 != 0
    else if i == 5 then v & 0x0400 != 0
    else if i == 6 then v & 0x0200 != 0
    else if i == 7 then v & 0x0100 != 0
    else if i == 8 then v & 0x0080 != 0
    else if i == 9 then v & 0x0040 != 0
    else if i == 10 then v & 0x0020 != 0
    else if i == 11 then v & 0x0010 != 0
    else if i == 12 then v & 0x0008 != 0
    else if i == 13 then v & 0x0004 != 0
    else if i == 14 then v & 0x0002 != 0
    else v & 0x0001 != 0
  }

  /** The register holds this word. */
  predicate Tells(r: Word, v: bv16) {
    forall i :: 0 <= i < 16 ==> r[i] == Bit(v, i)
  }

  /** These are the bits of this byte. */
  predicate Spells(x: seq<bool>, b: bv8) {
    && |x| == 8
    && x[0] == (b & 0x80 != 0) && x[1] == (b & 0x40 != 0)
    && x[2] == (b & 0x20 != 0) && x[3] == (b & 0x10 != 0)
    && x[4] == (b & 0x08 != 0) && x[5] == (b & 0x04 != 0)
    && x[6] == (b & 0x02 != 0) && x[7] == (b & 0x01 != 0)
  }

  /** One bit of the message. */
  function BitIn(v: bv16, x: bool): bv16 {
    if (v & 0x8000 != 0) != x then (v << 1) ^ 0x1021 else v << 1
  }

  function FourIn(v: bv16, a: bool, b: bool, c: bool, d: bool): bv16 {
    BitIn(BitIn(BitIn(BitIn(v, a), b), c), d)
  }

  function ByteIn(v: bv16, b: bv8): bv16 {
    FourIn(FourIn(v, b & 0x80 != 0, b & 0x40 != 0, b & 0x20 != 0, b & 0x10 != 0),
           b & 0x08 != 0, b & 0x04 != 0, b & 0x02 != 0, b & 0x01 != 0)
  }

  lemma ShiftedBits(v: bv16, w: bv16)
    requires w == v << 1
    ensures Bit(w, 0) == Bit(v, 1)
    ensures Bit(w, 1) == Bit(v, 2)
    ensures Bit(w, 2) == Bit(v, 3)
    ensures Bit(w, 3) == Bit(v, 4)
    ensures Bit(w, 4) == Bit(v, 5)
    ensures Bit(w, 5) == Bit(v, 6)
    ensures Bit(w, 6) == Bit(v, 7)
    ensures Bit(w, 7) == Bit(v, 8)
    ensures Bit(w, 8) == Bit(v, 9)
    ensures Bit(w, 9) == Bit(v, 10)
    ensures Bit(w, 10) == Bit(v, 11)
    ensures Bit(w, 11) == Bit(v, 12)
    ensures Bit(w, 12) == Bit(v, 13)
    ensures Bit(w, 13) == Bit(v, 14)
    ensures Bit(w, 14) == Bit(v, 15)
    ensures !Bit(w, 15)
  {
  }

  lemma XoredBits(v: bv16, w: bv16)
    requires w == (v << 1) ^ 0x1021
    ensures Bit(w, 0) == Bit(v, 1)
    ensures Bit(w, 1) == Bit(v, 2)
    ensures Bit(w, 2) == Bit(v, 3)
    ensures Bit(w, 3) == !Bit(v, 4)
    ensures Bit(w, 4) == Bit(v, 5)
    ensures Bit(w, 5) == Bit(v, 6)
    ensures Bit(w, 6) == Bit(v, 7)
    ensures Bit(w, 7) == Bit(v, 8)
    ensures Bit(w, 8) == Bit(v, 9)
    ensures Bit(w, 9) == Bit(v, 10)
    ensures Bit(w, 10) == !Bit(v, 11)
    ensures Bit(w, 11) == Bit(v, 12)
    ensures Bit(w, 12) == Bit(v, 13)
    ensures Bit(w, 13) == Bit(v, 14)
    ensures Bit(w, 14) == Bit(v, 15)
    ensures Bit(w, 15)
  {
  }

  lemma BitOfNext(v: bv16, x: bool, i: nat)
    requires i < 16
    ensures var t := Bit(v, 0) != x;
            Bit(BitIn(v, x), i)
            == if i == 15 then t else if i == 3 || i == 10 then Bit(v, i + 1) != t else Bit(v, i + 1)
  {
    hide Bit, BitIn;
    BitInIs(v, x);
    if Bit(v, 0) != x { XoredBits(v, BitIn(v, x)); } else { ShiftedBits(v, BitIn(v, x)); }
  }

  lemma BitInIs(v: bv16, x: bool)
    ensures BitIn(v, x) == if Bit(v, 0) != x then (v << 1) ^ 0x1021 else v << 1
  {
  }

  /** One round of the register: its bits move up, and the top one is xor-ed in at three places. */
  lemma ShiftAt(r: Word, x: bool)
    ensures var t, s := r[0] != x, Shift(Xor(r, Unit(0, x)));
            forall i :: 0 <= i < 16 ==>
              s[i] == if i == 15 then t else if i == 3 || i == 10 then r[i + 1] != t else r[i + 1]
  {
    var y := Xor(r, Unit(0, x));
    assert y[0] == (r[0] != x) && forall i :: 1 <= i < 16 ==> y[i] == r[i];
  }

  lemma BitInShifts(r: Word, v: bv16, x: bool)
    requires Tells(r, v)
    ensures Tells(Shift(Xor(r, Unit(0, x))), BitIn(v, x))
  {
    assert |Xor(r, Unit(0, x))| == 16;
    hide Shift, Xor, Unit, Bit, BitIn;
    ShiftAt(r, x);
    forall i | 0 <= i < 16
      ensures Shift(Xor(r, Unit(0, x)))[i] == Bit(BitIn(v, x), i)
    {
      BitOfNext(v, x, i);
    }
  }

  lemma FeedMore(r: Word, bits: seq<bool>, v: bv16, x: bool)
    requires Tells(Feed(r, bits), v)
    ensures Tells(Feed(r, bits + [x]), BitIn(v, x))
  {
    hide BitIn, Tells, Shift, Xor, Unit;
    assert (bits + [x])[..|bits|] == bits;
    BitInShifts(Feed(r, bits), v, x);
  }

  lemma FeedFour(r: Word, f: seq<bool>, v: bv16, a: bool, b: bool, c: bool, d: bool)
    requires Tells(Feed(r, f), v)
    ensures Tells(Feed(r, f + [a, b, c, d]), FourIn(v, a, b, c, d))
  {
    hide BitIn, Tells, Feed;
    FeedMore(r, f, v, a);
    FeedMore(r, f + [a], BitIn(v, a), b);
    FeedMore(r, f + [a] + [b], BitIn(BitIn(v, a), b), c);
    FeedMore(r, f + [a] + [b] + [c], BitIn(BitIn(BitIn(v, a), b), c), d);
    assert f + [a] + [b] + [c] + [d] == f + [a, b, c, d];
  }

  /** One byte more. */
  lemma CrcMore(m: seq<Byte>, v: bv16, b: Byte, x: bv8)
    requires Tells(Crc(m), v) && Spells(BitsOf(b), x)
    ensures Tells(Crc(m + [b]), ByteIn(v, x))
  {
    hide ByteIn, EightIn, Tells, Feed, Spells, BitsOf;
    var f, y := Flatten(m), BitsOf(b);
    ByteInBits(v, y, x);
    FeedEight(INITIAL, f, v, y);
    assert (m + [b])[..|m|] == m;
  }

  function EightIn(v: bv16, y: seq<bool>): bv16
    requires |y| == 8
  {
    FourIn(FourIn(v, y[0], y[1], y[2], y[3]), y[4], y[5], y[6], y[7])
  }

  lemma ByteInBits(v: bv16, y: seq<bool>, x: bv8)
    requires Spells(y, x)
    ensures ByteIn(v, x) == EightIn(v, y)
  {
    hide FourIn;
  }

  lemma FeedEight(r: Word, f: seq<bool>, v: bv16, y: seq<bool>)
    requires Tells(Feed(r, f), v) && |y| == 8
    ensures Tells(Feed(r, f + y), EightIn(v, y))
  {
    hide FourIn, Tells, Feed;
    var j := FourIn(v, y[0], y[1], y[2], y[3]);
    FeedFour(r, f, v, y[0], y[1], y[2], y[3]);
    FeedFour(r, f + [y[0], y[1], y[2], y[3]], j, y[4], y[5], y[6], y[7]);
    assert f + [y[0], y[1], y[2], y[3]] + [y[4], y[5], y[6], y[7]] == f + y;
  }

  lemma CrcStart()
    ensures Tells(Crc([]), 0xFFFF)
  {
  }

  lemma CrcFour(m: seq<Byte>, v: bv16, a: Byte, w: bv8, b: Byte, x: bv8, c: Byte, y: bv8, d: Byte, z: bv8)
    requires Tells(Crc(m), v)
    requires Spells(BitsOf(a), w) && Spells(BitsOf(b), x) && Spells(BitsOf(c), y) && Spells(BitsOf(d), z)
    ensures Tells(Crc(m + [a, b, c, d]), ByteIn(ByteIn(ByteIn(ByteIn(v, w), x), y), z))
  {
    hide Tells, Crc, Spells, BitsOf, ByteIn;
    CrcMore(m, v, a, w);
    CrcMore(m + [a], ByteIn(v, w), b, x);
    CrcMore(m + [a] + [b], ByteIn(ByteIn(v, w), x), c, y);
    CrcMore(m + [a] + [b] + [c], ByteIn(ByteIn(ByteIn(v, w), x), y), d, z);
    assert m + [a] + [b] + [c] + [d] == m + [a, b, c, d];
  }

  /** The two bytes of a word are those of the check field, the low one first. */
  lemma FieldTold(r: Word, v: bv16, high: Byte, low: Byte)
    requires Tells(r, v)
    requires forall i :: 0 <= i < 8 ==> BitsOf(high)[i] == Bit(v, i) && BitsOf(low)[i] == Bit(v, 8 + i)
    ensures FieldOf(r) == [low, high] && WordOf([low, high]) == r
  {
    hide Bit;
    NumberOfLowBits(high, 8);
    NumberOfLowBits(low, 8);
    assert PowerOfTwo(8) == 256;
    assert r[..8] == BitsOf(high) && r[8..] == BitsOf(low);
  }

  lemma {:induction false} NumberOfLowBits(b: nat, n: nat)
    requires b < PowerOfTwo(n)
    ensures NumberOf(LowBits(b, n)) == b
  {
    if n > 0 { NumberOfLowBits(b / 2, n - 1); }
  }
}
