/** The cyclic redundancy check of b-CAP frames on serial lines
    (library/src/bcap_common.c, bcap_calc_crc and its two callers). */
module BcapCrc {
  import opened Bytes

  /** The uint16_t register is the sequence of its sixteen bits, the most significant first, and a
      message is read bit by bit in the same order.  Everything about error detection follows from
      three facts about one shift of the register: it is linear over exclusive-or, it is injective,
      and it keeps the parity. */
  type Word = w: seq<bool> | |w| == 16 witness
    [false, false, false, false,
     false, false, false, false,
     false, false, false, false,
     false, false, false, false]

  function Zeros(n: nat): seq<bool> {
    seq(n, i => false)
  }

  function Xor(a: seq<bool>, b: seq<bool>): (c: seq<bool>)
    requires |a| == |b|
  {
    seq(|a|, i requires 0 <= i < |a| => a[i] != b[i])
  }

  // 0xFFFF and 0x1021
  const INITIAL: Word :=
    [true, true, true, true, true, true, true, true, true, true, true, true, true, true, true, true]
  const POLYNOMIAL: Word :=
    [false, false, false, true, false, false, false, false,
     false, false, true, false, false, false, false, true]

  // ---------- the register, one bit at a time ----------

  /** The register shifted left by one. */
  function Left(r: Word): Word {
    r[1..] + [false]
  }

  function Shift(r: Word): Word {
    if r[0] then Xor(Left(r), POLYNOMIAL) else Left(r)
  }

  /** The register with the bit `b` at place `i`, all other bits clear. */
  function Unit(i: nat, b: bool): Word
    requires i < 16
  {
    Zeros(16)[i := b]
  }

  /** Feeds the bits of a message, first bit first. */
  function Feed(r: Word, bits: seq<bool>): Word {
    if bits == [] then r
    else Shift(Xor(Feed(r, bits[..|bits| - 1]), Unit(0, bits[|bits| - 1])))
  }

  // ---------- bytes as bits ----------

  function BitsOf(b: Byte): (bits: seq<bool>)
    ensures |bits| == 8
  {
    LowBits(b, 8)
  }

  /** The `n` low-order bits of `b`, the most significant first. */
  function LowBits(b: nat, n: nat): (bits: seq<bool>)
    ensures |bits| == n
  {
    if n == 0 then [] else LowBits(b / 2, n - 1) + [b % 2 == 1]
  }

  function PowerOfTwo(n: nat): nat {
    if n == 0 then 1 else 2 * PowerOfTwo(n - 1)
  }

  function NumberOf(w: seq<bool>): (n: nat)
    ensures n < PowerOfTwo(|w|)
  {
    if w == [] then 0 else 2 * NumberOf(w[..|w| - 1]) + (if w[|w| - 1] then 1 else 0)
  }

  function ByteOf(w: seq<bool>): Byte
    requires |w| == 8
  {
    assert PowerOfTwo(8) == 256;
    NumberOf(w)
  }

  lemma {:induction false} LowBitsOfNumber(w: seq<bool>)
    ensures LowBits(NumberOf(w), |w|) == w
  {
    if w != [] {
      LowBitsOfNumber(w[..|w| - 1]);
      assert NumberOf(w) / 2 == NumberOf(w[..|w| - 1]);
    }
  }

  function Flatten(bytes: seq<Byte>): (bits: seq<bool>)
    ensures |bits| == 8 * |bytes|
  {
    if bytes == [] then [] else Flatten(bytes[..|bytes| - 1]) + BitsOf(bytes[|bytes| - 1])
  }

  /** The check value as a function of the covered bytes. */
  function Crc(bytes: seq<Byte>): Word {
    Feed(INITIAL, Flatten(bytes))
  }

  lemma {:induction false} FeedAppend(r: Word, a: seq<bool>, b: seq<bool>)
    ensures Feed(r, a + b) == Feed(Feed(r, a), b)
  {
    if b == [] {
      assert a + b == a;
    } else {
      FeedAppend(r, a, b[..|b| - 1]);
      assert (a + b)[..|a + b| - 1] == a + b[..|b| - 1];
    }
  }

  // ---------- the byte-wise loop ----------

  lemma ShiftAbsorbs(u: Word, w: Word)
    ensures Shift(Xor(u, w)) == Xor(Shift(Xor(u, Unit(0, w[0]))), Left(w))
  {
  }

  /** One round of the outer loop of bcap_calc_crc: the byte enters the high half of the register
      and is shifted out in eight rounds. */
  method TakeByte(start: Word, b: Byte) returns (crc: Word)
    ensures crc == Feed(start, BitsOf(b))
  {
    ghost var bits := BitsOf(b);
    crc := Xor(start, BitsOf(b) + Zeros(8));
    assert bits[..0] == [] && bits[0..] == bits;
    var cnt := 0;
    while cnt < 8
      invariant 0 <= cnt <= 8
      invariant crc == Xor(Feed(start, bits[..cnt]), bits[cnt..] + Zeros(8 + cnt))
    {
      ghost var rest: Word := bits[cnt..] + Zeros(8 + cnt);
      ShiftAbsorbs(Feed(start, bits[..cnt]), rest);
      assert Left(rest) == bits[cnt + 1..] + Zeros(8 + cnt + 1);
      assert bits[..cnt + 1][..cnt] == bits[..cnt];
      if crc[0] {
        crc := Xor(Left(crc), POLYNOMIAL);
      } else {
        crc := Left(crc);
      }
      cnt := cnt + 1;
    }
    assert bits[..8] == bits;
    assert bits[8..] + Zeros(16) == Zeros(16);
  }

  /** bcap_calc_crc computes the bit-serial check value. */
  method CalcCrc(buf: seq<Byte>) returns (crc: Word)
    ensures crc == Crc(buf)
  {
    crc := INITIAL;
    var pos := 0;
    while pos < |buf|
      invariant 0 <= pos <= |buf|
      invariant crc == Crc(buf[..pos])
    {
      crc := TakeByte(crc, buf[pos]);
      assert buf[..pos + 1][..pos] == buf[..pos];
      FeedAppend(INITIAL, Flatten(buf[..pos]), BitsOf(buf[pos]));
      pos := pos + 1;
    }
    assert buf[..pos] == buf;
  }

  // ---------- linearity ----------

  lemma ShiftLinear(x: Word, y: Word)
    ensures Shift(Xor(x, y)) == Xor(Shift(x), Shift(y))
  {
  }

  lemma RegroupXor(x: Word, y: Word, p: Word, q: Word)
    ensures Xor(Xor(x, y), Xor(p, q)) == Xor(Xor(x, p), Xor(y, q))
  {
  }

  lemma {:induction false} FeedLinear(x: Word, y: Word, a: seq<bool>, b: seq<bool>)
    requires |a| == |b|
    ensures Feed(Xor(x, y), Xor(a, b)) == Xor(Feed(x, a), Feed(y, b))
  {
    if a != [] {
      var n := |a| - 1;
      var u, v := Feed(x, a[..n]), Feed(y, b[..n]);
      var p, q := Unit(0, a[n]), Unit(0, b[n]);
      FeedLinear(x, y, a[..n], b[..n]);
      assert Xor(a, b)[..n] == Xor(a[..n], b[..n]);
      assert Unit(0, Xor(a, b)[n]) == Xor(p, q);
      RegroupXor(u, v, p, q);
      ShiftLinear(Xor(u, p), Xor(v, q));
    }
  }

  // ---------- the check field of a frame ----------

  /** memcpy_le of the check value: its low byte travels first. */
  function FieldOf(crc: Word): (field: seq<Byte>)
    ensures |field| == 2
  {
    [ByteOf(crc[8..]), ByteOf(crc[..8])]
  }

  function WordOf(field: seq<Byte>): Word
    requires |field| == 2
  {
    BitsOf(field[1]) + BitsOf(field[0])
  }

  /** The receiver's test: the check value of the covered bytes equals the field. */
  predicate Accepts(covered: seq<Byte>, field: seq<Byte>)
    requires |field| == 2
  {
    Crc(covered) == WordOf(field)
  }

  lemma FieldRoundTrip(c: Word)
    ensures WordOf(FieldOf(c)) == c
  {
    LowBitsOfNumber(c[8..]);
    LowBitsOfNumber(c[..8]);
  }

  /** The bits in which two messages of one length differ. */
  function Flips(sent: seq<Byte>, got: seq<Byte>): seq<bool>
    requires |sent| == |got|
  {
    Xor(Flatten(sent), Flatten(got))
  }

  /** Which errors are missed, exactly.  `m` and its check field are sent, `m'` and `f` arrive.
      The frame is accepted if and only if the flipped bits of the message, fed to an empty
      register, give the flipped bits of the field.  The message itself plays no part. */
  lemma MissedExactly(m: seq<Byte>, m': seq<Byte>, f: seq<Byte>)
    requires |m| == |m'| && |f| == 2
    ensures Accepts(m', f)
            <==> Feed(Zeros(16), Flips(m, m')) == Xor(WordOf(FieldOf(Crc(m))), WordOf(f))
  {
    FieldRoundTrip(Crc(m));
    FeedLinear(INITIAL, Zeros(16), Flatten(m), Flips(m, m'));
    assert Xor(INITIAL, Zeros(16)) == INITIAL;
    assert Xor(Flatten(m), Flips(m, m')) == Flatten(m');
  }

  // ---------- odd numbers of flipped bits ----------

  function Odd(bits: seq<bool>): bool {
    if bits == [] then false else Odd(bits[..|bits| - 1]) != bits[|bits| - 1]
  }

  lemma {:induction false} OddAppend(a: seq<bool>, b: seq<bool>)
    ensures Odd(a + b) == (Odd(a) != Odd(b))
  {
    if b == [] {
      assert a + b == a;
    } else {
      OddAppend(a, b[..|b| - 1]);
      assert (a + b)[..|a + b| - 1] == a + b[..|b| - 1];
    }
  }

  lemma {:induction false} OddXor(a: seq<bool>, b: seq<bool>)
    requires |a| == |b|
    ensures Odd(Xor(a, b)) == (Odd(a) != Odd(b))
  {
    if a != [] {
      var n := |a| - 1;
      OddXor(a[..n], b[..n]);
      assert Xor(a, b)[..n] == Xor(a[..n], b[..n]);
    }
  }

  lemma {:induction false} OddZeros(n: nat)
    ensures !Odd(Zeros(n))
  {
    if n > 0 {
      OddZeros(n - 1);
      assert Zeros(n)[..n - 1] == Zeros(n - 1);
    }
  }

  /** The generator has an even number of terms; its top one is the bit shifted out. */
  lemma OddPolynomial()
    ensures Odd(POLYNOMIAL)
  {
    var p := POLYNOMIAL;
    assert p == Zeros(3) + [true] + Zeros(6) + [true] + Zeros(4) + [true];
    OddZeros(3);
    OddZeros(6);
    OddZeros(4);
    OddAppend(Zeros(3), [true]);
    OddAppend(Zeros(3) + [true], Zeros(6));
    OddAppend(Zeros(3) + [true] + Zeros(6), [true]);
    OddAppend(Zeros(3) + [true] + Zeros(6) + [true], Zeros(4));
    OddAppend(Zeros(3) + [true] + Zeros(6) + [true] + Zeros(4), [true]);
    assert Odd([true]);
  }

  lemma ShiftKeepsParity(r: Word)
    ensures Odd(Shift(r)) == Odd(r)
  {
    assert r == [r[0]] + r[1..];
    OddAppend([r[0]], r[1..]);
    assert Odd([r[0]]) == r[0];
    OddAppend(r[1..], [false]);
    assert !Odd([false]);
    OddXor(Left(r), POLYNOMIAL);
    OddPolynomial();
  }

  /** The parity of the register is always the parity of the message read so far. */
  lemma {:induction false} RegisterParity(r: Word, bits: seq<bool>)
    ensures Odd(Feed(r, bits)) == (Odd(r) != Odd(bits))
  {
    if bits != [] {
      var n := |bits| - 1;
      var top := Unit(0, bits[n]);
      RegisterParity(r, bits[..n]);
      assert top == [bits[n]] + Zeros(15);
      OddAppend([bits[n]], Zeros(15));
      OddZeros(15);
      assert Odd([bits[n]]) == bits[n];
      OddXor(Feed(r, bits[..n]), top);
      ShiftKeepsParity(Xor(Feed(r, bits[..n]), top));
    }
  }

  lemma OddWord(f: seq<Byte>)
    requires |f| == 2
    ensures Odd(WordOf(f)) == Odd(Flatten(f))
  {
    assert f[..1][..0] == [];
    assert Flatten(f[..1]) == BitsOf(f[0]);
    OddAppend(BitsOf(f[0]), BitsOf(f[1]));
    OddAppend(BitsOf(f[1]), BitsOf(f[0]));
  }

  /** Every error with an odd number of flipped bits, counted over the covered bytes and the
      check field together, is detected, whatever the length of the message. */
  lemma OddErrorsDetected(m: seq<Byte>, m': seq<Byte>, f: seq<Byte>)
    requires |m| == |m'| && |f| == 2
    requires Odd(Flips(m + FieldOf(Crc(m)), m' + f))
    ensures !Accepts(m', f)
  {
    var field := FieldOf(Crc(m));
    MissedExactly(m, m', f);
    RegisterParity(Zeros(16), Flips(m, m'));
    OddZeros(16);
    OddXor(WordOf(field), WordOf(f));
    OddWord(field);
    OddWord(f);
    FlattenAppend(m, field);
    FlattenAppend(m', f);
    OddXor(Flatten(m + field), Flatten(m' + f));
    OddXor(Flatten(m), Flatten(m'));
    OddAppend(Flatten(m), Flatten(field));
    OddAppend(Flatten(m'), Flatten(f));
  }

  lemma {:induction false} FlattenAppend(a: seq<Byte>, b: seq<Byte>)
    ensures Flatten(a + b) == Flatten(a) + Flatten(b)
  {
    if b == [] {
      assert a + b == a;
    } else {
      FlattenAppend(a, b[..|b| - 1]);
      assert (a + b)[..|a + b| - 1] == a + b[..|b| - 1];
    }
  }

  // ---------- bursts ----------

  function Shifts(n: nat, r: Word): Word {
    if n == 0 then r else Shift(Shifts(n - 1, r))
  }

  lemma {:induction false} ShiftsLinear(n: nat, x: Word, y: Word)
    ensures Shifts(n, Xor(x, y)) == Xor(Shifts(n, x), Shifts(n, y))
  {
    if n > 0 {
      ShiftsLinear(n - 1, x, y);
      ShiftLinear(Shifts(n - 1, x), Shifts(n - 1, y));
    }
  }

  /** A lone bit moves up one place a shift until it reaches the top. */
  lemma {:induction false} ShiftsUnit(n: nat, b: bool)
    requires n < 16
    ensures forall i :: n <= i < 16 ==> Shifts(n, Unit(i, b)) == Unit(i - n, b)
  {
    if n > 0 {
      ShiftsUnit(n - 1, b);
      forall i | n <= i < 16
        ensures Shifts(n, Unit(i, b)) == Unit(i - n, b)
      {
        assert Shifts(n - 1, Unit(i, b)) == Unit(i - n + 1, b);
        assert Left(Unit(i - n + 1, b)) == Unit(i - n, b);
      }
    }
  }

  /** Reading up to 16 bits into an empty register is the same as laying them out there at once,
      the first on top, and then shifting. */
  lemma {:induction false} FeedIsPlace(w: seq<bool>)
    requires |w| <= 16
    ensures Feed(Zeros(16), w) == Shifts(|w|, w + Zeros(16 - |w|))
  {
    if w == [] {
      assert w + Zeros(16 - |w|) == Zeros(16);
    } else {
      var n := |w| - 1;
      FeedIsPlace(w[..n]);
      var before: Word := w[..n] + Zeros(16 - n);
      assert w + Zeros(16 - |w|) == Xor(before, Unit(n, w[n]));
      ShiftsLinear(n, before, Unit(n, w[n]));
      ShiftsUnit(n, w[n]);
    }
  }

  lemma ShiftInjective(r: Word)
    ensures Shift(r) == Zeros(16) <==> r == Zeros(16)
  {
    assert Shift(r)[15] == r[0];
    if Shift(r) == Zeros(16) {
      forall i | 0 <= i < 16
        ensures !r[i]
      {
        if i > 0 { assert Shift(r)[i - 1] == r[i]; }
      }
    }
  }

  lemma {:induction false} ShiftsInjective(n: nat, r: Word)
    ensures Shifts(n, r) == Zeros(16) <==> r == Zeros(16)
  {
    if n > 0 {
      ShiftsInjective(n - 1, r);
      ShiftInjective(Shifts(n - 1, r));
    }
  }

  lemma {:induction false} FeedZeros(r: Word, n: nat)
    ensures Feed(r, Zeros(n)) == Shifts(n, r)
  {
    if n > 0 {
      FeedZeros(r, n - 1);
      assert Zeros(n)[..n - 1] == Zeros(n - 1);
      assert Xor(Feed(r, Zeros(n - 1)), Unit(0, false)) == Feed(r, Zeros(n - 1));
    }
  }

  /** `bits` is not all zero, but zero outside sixteen consecutive places from `p` on. */
  predicate Burst(bits: seq<bool>, p: nat) {
    && (forall i :: 0 <= i < |bits| && bits[i] ==> p <= i < p + 16)
    && (exists i :: 0 <= i < |bits| && bits[i])
  }

  lemma BurstLeavesTrace(bits: seq<bool>, p: nat)
    requires Burst(bits, p)
    ensures Feed(Zeros(16), bits) != Zeros(16)
  {
    var q := if p + 16 <= |bits| then p + 16 else |bits|;
    var w := bits[p..q];
    var k :| 0 <= k < |bits| && bits[k];
    assert w[k - p];
    assert bits == (Zeros(p) + w) + Zeros(|bits| - q);
    FeedAppend(Zeros(16), Zeros(p) + w, Zeros(|bits| - q));
    FeedAppend(Zeros(16), Zeros(p), w);
    FeedZeros(Zeros(16), p);
    ShiftsInjective(p, Zeros(16));
    WindowLeavesTrace(w);
    FeedZeros(Feed(Zeros(16), w), |bits| - q);
    ShiftsInjective(|bits| - q, Feed(Zeros(16), w));
  }

  lemma WindowLeavesTrace(w: seq<bool>)
    requires |w| <= 16
    requires exists i :: 0 <= i < |w| && w[i]
    ensures Feed(Zeros(16), w) != Zeros(16)
  {
    var i :| 0 <= i < |w| && w[i];
    var placed: Word := w + Zeros(16 - |w|);
    assert placed[i];
    FeedIsPlace(w);
    ShiftsInjective(|w|, placed);
  }

  /** Every burst of at most 16 consecutive bits inside the covered bytes is detected, for
      messages of every length and wherever the burst lies. */
  lemma BurstsDetected(m: seq<Byte>, m': seq<Byte>, p: nat)
    requires |m| == |m'|
    requires Burst(Flips(m, m'), p)
    ensures !Accepts(m', FieldOf(Crc(m)))
  {
    var field := FieldOf(Crc(m));
    MissedExactly(m, m', field);
    assert Xor(WordOf(field), WordOf(field)) == Zeros(16);
    BurstLeavesTrace(Flips(m, m'), p);
  }

  function FlipLastBit(m: seq<Byte>): (m': seq<Byte>)
    requires m != []
    ensures |m'| == |m|
  {
    var last := m[|m| - 1];
    m[..|m| - 1] + [if last % 2 == 1 then last - 1 else last + 1]
  }

  /** A burst that runs from the covered bytes into the check field can be missed, because the
      field travels low byte first.  Flipping the last covered bit and the bits of the generator
      in the field changes at most 13 consecutive bits, and no message notices. */
  lemma BurstAcrossTheFieldMissed(m: seq<Byte>, f: seq<Byte>)
    requires m != []
    requires f == FieldOf(Xor(Crc(m), POLYNOMIAL))
    ensures var flips := Flips(m + FieldOf(Crc(m)), FlipLastBit(m) + f);
            && Burst(flips, 8 * |m| - 1)
            && (forall i :: 8 * |m| - 1 + 13 <= i < |flips| ==> !flips[i])
    ensures Accepts(FlipLastBit(m), f)
  {
    hide Feed, Burst, FieldOf, WordOf, Flips, FlipLastBit;
    var m', field := FlipLastBit(m), FieldOf(Crc(m));
    FieldRoundTrip(Crc(m));
    FieldRoundTrip(Xor(Crc(m), POLYNOMIAL));
    LastBitFlips(m);
    OneBitTrace(8 * |m| - 1);
    MissedExactly(m, m', f);
    FieldFlips(field, f);
    FlipsAppend(m, m', field, f);
    WideBurst(Flips(m + field, m' + f), 8 * |m| - 1);
  }

  lemma FieldFlips(field: seq<Byte>, f: seq<Byte>)
    requires |field| == |f| == 2
    requires Xor(WordOf(field), WordOf(f)) == POLYNOMIAL
    ensures Flips(field, f) == POLYNOMIAL[8..] + POLYNOMIAL[..8]
  {
    FlattenTwo(field);
    FlattenTwo(f);
    var w := Xor(WordOf(field), WordOf(f));
    assert Flips(field, f) == w[8..] + w[..8];
  }

  lemma FlipsAppend(m: seq<Byte>, m': seq<Byte>, f: seq<Byte>, f': seq<Byte>)
    requires |m| == |m'| && |f| == |f'|
    ensures Flips(m + f, m' + f') == Flips(m, m') + Flips(f, f')
  {
    FlattenAppend(m, f);
    FlattenAppend(m', f');
  }

  lemma WideBurst(bits: seq<bool>, n: nat)
    requires bits == (Zeros(n) + [true]) + (POLYNOMIAL[8..] + POLYNOMIAL[..8])
    ensures Burst(bits, n) && forall i :: n + 13 <= i < |bits| ==> !bits[i]
  {
    assert bits[n];
  }

  lemma FlattenTwo(f: seq<Byte>)
    requires |f| == 2
    ensures Flatten(f) == WordOf(f)[8..] + WordOf(f)[..8]
  {
    assert f[..1][..0] == [];
    assert Flatten(f[..1]) == BitsOf(f[0]);
  }

  lemma LastBitFlips(m: seq<Byte>)
    requires m != []
    ensures Flips(m, FlipLastBit(m)) == Zeros(8 * |m| - 1) + [true]
  {
    var n := |m| - 1;
    var b, b' := m[n], FlipLastBit(m)[n];
    assert b / 2 == b' / 2 && b % 2 != b' % 2;
    assert BitsOf(b) == LowBits(b / 2, 7) + [b % 2 == 1];
    assert BitsOf(b') == LowBits(b / 2, 7) + [b' % 2 == 1];
    assert FlipLastBit(m)[..n] == m[..n];
  }

  lemma OneBitTrace(n: nat)
    ensures Feed(Zeros(16), Zeros(n) + [true]) == POLYNOMIAL
  {
    var bits := Zeros(n) + [true];
    assert bits[..n] == Zeros(n);
    FeedZeros(Zeros(16), n);
    ShiftsInjective(n, Zeros(16));
    assert Xor(Zeros(16), Unit(0, true)) == Unit(0, true);
    assert Left(Unit(0, true)) == Zeros(16);
    assert Xor(Zeros(16), POLYNOMIAL) == POLYNOMIAL;
  }
}
