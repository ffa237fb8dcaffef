/** The bytes of b-CAP values and packets, one by one (library/src/bcap_common.c). */
module BcapLayout {
  import opened Bytes
  import opened Common
  import opened BcapCodec

  /** How many bytes a number of this type takes, by the numbers of the types. */
  predicate Wide(vt: nat, w: nat) {
    || (vt == 17 && w == 1)
    || ((vt == 2 || vt == 11 || vt == 18) && w == 2)
    || ((vt == 3 || vt == 4 || vt == 19) && w == 4)
    || ((vt == 5 || vt == 6 || vt == 7 || vt == 20 || vt == 21) && w == 8)
  }

  function Power(i: nat): (p: nat)
    ensures p > 0
  {
    if i == 0 then 1 else 256 * Power(i - 1)
  }

  /** Byte number `i` of a number, the lowest first. */
  function ByteOf(n: nat, i: nat): Byte {
    n / Power(i) % 256
  }

  function Low(n: nat, w: nat): (s: seq<Byte>)
    ensures |s| == w
  {
    seq(w, i requires 0 <= i < w => ByteOf(n, i))
  }

  /** The layout of a number, byte by byte. */
  lemma {:induction false} NumberOnWire(n: nat, w: nat)
    ensures LE(n, w) == Low(n, w)
  {
    if w > 0 {
      NumberOnWire(n / 256, w - 1);
      forall i | 0 <= i < w
        ensures LE(n, w)[i] == ByteOf(n, i)
      {
        if i > 0 { NextByte(n, i); } else { assert Power(0) == 1; }
      }
    }
  }

  lemma NextByte(n: nat, i: nat)
    requires i > 0
    ensures ByteOf(n, i) == ByteOf(n / 256, i - 1)
  {
    DivTwice(n, Power(i - 1));
  }

  lemma DivTwice(n: nat, p: nat)
    requires p > 0
    ensures n / (256 * p) == n / 256 / p
  {
    var a, q := n / 256, n / 256 / p;
    var r := a - q * p;
    assert 0 <= r < p && n == 256 * a + n % 256;
    assert n == (256 * p) * q + (256 * r + n % 256);
    assert 256 * r + n % 256 < 256 * p;
    DivIs(n, 256 * p, q, 256 * r + n % 256);
  }

  lemma DivIs(n: nat, d: nat, q: nat, r: nat)
    requires d > 0 && r < d && n == d * q + r
    ensures n / d == q
  {
    if n / d > q { MulLess(d, q + 1, n / d); }
    if n / d < q { MulLess(d, n / d + 1, q); }
  }

  lemma MulLess(d: nat, a: nat, b: nat)
    requires a <= b
    ensures d * a <= d * b
  {
  }

  /** The array bit of a type word is 0x2000, whatever stands above and below it. */
  lemma ArrayBit(above: nat, bit: nat, below: nat)
    requires bit < 2 && below < 0x2000
    ensures HasArrayBit(0x4000 * above + 0x2000 * bit + below) <==> bit == 1
  {
    DivIs(0x4000 * above + 0x2000 * bit + below, 0x2000, 2 * above + bit, below);
  }

  // ---------- values ----------

  /** A number: its type word, the count 1, and its bytes. */
  lemma ScalarOnWire(vt: nat, w: nat, n: nat)
    requires Wide(vt, w) || (vt == 10 && w == 4)
    ensures EncItem(Scalar(vt, n), false) == [vt, 0, 1, 0, 0, 0] + Low(n, w)
  {
    hide LE, Low;
    NumberOnWire(n, w);
    TypeAndCount(vt, 1);
    OneOnWire();
  }

  /** A lone value of any other type has no bytes of its own. */
  lemma OthersOnWire(vt: nat, n: nat)
    requires vt != 10 && !Wide(vt, 1) && !Wide(vt, 2) && !Wide(vt, 4) && !Wide(vt, 8)
    ensures EncItem(Scalar(vt, n), false) == [vt % 256, vt / 256 % 256, 1, 0, 0, 0]
  {
    hide LE, Low;
    TypeAndCount(vt, 1);
    OneOnWire();
    NumberOnWire(n, 0);
  }

  lemma OneOnWire()
    ensures Low(1, 4) == [1, 0, 0, 0]
  {
    Powers();
  }

  lemma Powers()
    ensures Power(0) == 1 && Power(1) == 256 && Power(2) == 0x1_0000 && Power(3) == 0x100_0000
  {
  }

  lemma TypeAndCount(vt: nat, count: nat)
    ensures LE(vt, 2) == [vt % 256, vt / 256 % 256] && LE(count, 4) == Low(count, 4)
  {
    NumberOnWire(vt, 2);
    NumberOnWire(count, 4);
    Powers();
  }

  /** An array of numbers: its type word with the array bit, the count, and its elements one after the other. */
  lemma NumArrayOnWire(et: nat, w: nat, lbound: int, vals: seq<nat>)
    requires Wide(et, w)
    ensures var s := EncItem(NumArray(et, lbound, vals), false);
            && |s| == 6 + w * |vals| && s[..6] == [et, 0x20] + Low(|vals|, 4)
            && forall k :: 0 <= k < |vals| ==> ElementAt(s, 6, w, k, vals[k])
  {
    hide LE, EncNums, Low;
    var s, body := EncItem(NumArray(et, lbound, vals), false), EncNums(vals, w);
    TypeAndCount(0x2000 + et, |vals|);
    assert s == [et, 0x20] + Low(|vals|, 4) + body;
    assert w * |vals| == |vals| * w;
    forall k | 0 <= k < |vals|
      ensures ElementAt(s, 6, w, k, vals[k])
    {
      NumsOnWire(vals, w, k);
      assert s[6 + w * k..6 + w * k + w] == body[w * k..w * k + w];
    }
  }

  /** Element number `k` stands there. */
  predicate ElementAt(s: seq<Byte>, off: nat, w: nat, k: nat, n: nat) {
    off + w * k + w <= |s| && s[off + w * k..off + w * k + w] == Low(n, w)
  }

  lemma {:induction false} NumsOnWire(vals: seq<nat>, w: nat, k: nat)
    requires k < |vals|
    ensures w * k + w <= |EncNums(vals, w)| && EncNums(vals, w)[w * k..w * k + w] == Low(vals[k], w)
  {
    hide LE, Low;
    var n := |vals| - 1;
    var before := EncNums(vals[..n], w);
    assert |before| == n * w == w * n && |vals| * w == w * n + w;
    NumberOnWire(vals[n], w);
    if k < n {
      NumsOnWire(vals[..n], w, k);
      assert EncNums(vals, w)[w * k..w * k + w] == before[w * k..w * k + w];
    }
  }

  /** The length of a string is counted up to its first NUL, in 16 bits. */
  lemma {:induction false} LengthCounted(chars: seq<nat>, behind: seq<nat>)
    requires forall i :: 0 <= i < |chars| ==> chars[i] > 0
    ensures StringLen(Text(chars)) == StringLen(Text(chars + [0] + behind)) == |chars| % 0x1_0000
    ensures StringLen(NullText) == 0
  {
    WcslenAll(chars);
    WcslenStops(chars, behind);
  }

  lemma {:induction false} WcslenStops(chars: seq<nat>, behind: seq<nat>)
    requires forall i :: 0 <= i < |chars| ==> chars[i] > 0
    ensures Wcslen(chars + [0] + behind) == |chars|
  {
    if chars != [] {
      WcslenStops(chars[1..], behind);
      assert (chars + [0] + behind)[1..] == chars[1..] + [0] + behind;
    }
  }

  /** A string: its length in bytes, and two bytes for each character. */
  lemma TextOnWire(t: Text)
    requires GoodText(t)
    ensures var s, chars := EncText(t), if t.Text? then t.chars else [];
            && |s| == 4 + 2 * |chars| && s[..4] == Low(2 * |chars|, 4)
            && forall k :: 0 <= k < |chars| ==> ElementAt(s, 4, 2, k, chars[k])
  {
    hide LE, EncNums, Low, Wcslen;
    var s, chars := EncText(t), if t.Text? then t.chars else [];
    GoodTextLength(t);
    NumberOnWire(2 * |chars|, 4);
    if t.Text? { assert t.chars[..|chars|] == chars; }
    var body := EncNums(chars, 2);
    assert s == Low(2 * |chars|, 4) + body;
    forall k | 0 <= k < |chars|
      ensures ElementAt(s, 4, 2, k, chars[k])
    {
      NumsOnWire(chars, 2, k);
      assert s[4 + 2 * k..4 + 2 * k + 2] == body[2 * k..2 * k + 2];
    }
  }

  /** Type word, count and value. */
  lemma ItemHead(v: Variant)
    ensures EncItem(v, false) == [Tag(v) % 256, Tag(v) / 256 % 256] + Low(Count(v), 4) + EncValue(v)
  {
    hide LE, Low, EncValue, Tag, Count;
    TypeAndCount(Tag(v), Count(v));
  }

  /** A lone string. */
  lemma LoneTextOnWire(t: Text)
    ensures EncItem(Str(t), false) == [8, 0, 1, 0, 0, 0] + EncText(t)
  {
    hide Low, EncItem, EncText;
    ItemHead(Str(t));
    OneOnWire();
    assert [8, 0] + [1, 0, 0, 0] == [8, 0, 1, 0, 0, 0 as Byte];
  }

  /** Arrays of strings and of values, which stand one after the other. */
  lemma TextArrayOnWire(v: Variant)
    requires v.StrArray?
    ensures EncItem(v, false) == [8, 0x20] + Low(|v.texts|, 4) + EncTexts(v.texts)
  {
    hide Low, EncItem, EncTexts;
    ItemHead(v);
  }

  lemma ValueArrayOnWire(v: Variant)
    requires v.VarArray?
    ensures EncItem(v, false) == [12, 0x20] + Low(|v.elems|, 4) + EncItems(v.elems, false)
  {
    hide Low, EncItem, EncItems;
    ItemHead(v);
  }

  lemma TextsOnWire(a: seq<Text>, b: seq<Text>, t: Text)
    ensures EncTexts([]) == [] && EncTexts([t]) == EncText(t)
    ensures EncTexts(a + b) == EncTexts(a) + EncTexts(b)
  {
    hide EncText;
    TextsAppend(a, b);
    assert [t][..0] == [];
  }

  lemma {:induction false} TextsAppend(a: seq<Text>, b: seq<Text>)
    ensures EncTexts(a + b) == EncTexts(a) + EncTexts(b)
  {
    hide EncText;
    if b == [] {
      assert a + b == a;
    } else {
      var n := |b| - 1;
      TextsAppend(a, b[..n]);
      assert (a + b)[..|a + b| - 1] == a + b[..n] && (a + b)[|a + b| - 1] == b[n];
      TextsLast(a + b);
      TextsLast(b);
      hide EncTexts;
      Regroup(EncTexts(a), EncTexts(b[..n]), EncText(b[n]));
    }
  }

  lemma TextsLast(texts: seq<Text>)
    requires texts != []
    ensures EncTexts(texts) == EncTexts(texts[..|texts| - 1]) + EncText(texts[|texts| - 1])
  {
  }

  lemma Regroup(x: seq<Byte>, y: seq<Byte>, z: seq<Byte>)
    ensures (x + y) + z == x + (y + z)
  {
  }

  /** An argument of a packet has the length of all that in front. */
  lemma ArgumentOnWire(v: Variant)
    ensures EncItem(v, true) == Low(|EncItem(v, false)|, 4) + EncItem(v, false)
  {
    hide LE, Low, EncValue, Tag, Count;
    assert EncItem(v, true) == LE(|EncItem(v, false)|, 4) + EncItem(v, false);
    NumberOnWire(|EncItem(v, false)|, 4);
  }

  lemma ItemsOnWire(a: seq<Variant>, b: seq<Variant>, v: Variant, top: bool)
    ensures EncItems([], top) == [] && EncItems([v], top) == EncItem(v, top)
    ensures EncItems(a + b, top) == EncItems(a, top) + EncItems(b, top)
  {
    hide EncItem;
    ItemsAppend(a, b, top);
    assert [v][..0] == [];
  }

  lemma {:induction false} ItemsAppend(a: seq<Variant>, b: seq<Variant>, top: bool)
    ensures EncItems(a + b, top) == EncItems(a, top) + EncItems(b, top)
  {
    hide EncItem;
    if b == [] {
      assert a + b == a;
    } else {
      var n := |b| - 1;
      ItemsAppend(a, b[..n], top);
      assert (a + b)[..|a + b| - 1] == a + b[..n] && (a + b)[|a + b| - 1] == b[n];
      ItemsLast(a + b, top);
      ItemsLast(b, top);
      hide EncItems;
      Regroup(EncItems(a, top), EncItems(b[..n], top), EncItem(b[n], top));
    }
  }

  lemma ItemsLast(vs: seq<Variant>, top: bool)
    requires vs != []
    ensures EncItems(vs, top) == EncItems(vs[..|vs| - 1], top) + EncItem(vs[|vs| - 1], top)
  {
  }

  // ---------- reading the bytes ----------

  /** Those bytes are read as that number, wherever they stand. */
  lemma ScalarFromWire(src: seq<Byte>, len: nat, off: nat, vt: nat, w: nat, n: nat)
    requires Wide(vt, w) || (vt == 10 && w == 4)
    requires n < Power(w) && At(src, len, off, [vt, 0, 1, 0, 0, 0] + Low(n, w))
    ensures DecItem(src, len, off, false) == Ok((Scalar(vt, n), off + 6 + w))
  {
    hide At, DecItem, Low;
    ScalarOnWire(vt, w, n);
    RangeIsPower(w);
    assert Good(Scalar(vt, n));
    ItemRoundTrip(src, len, off, Scalar(vt, n), false);
  }

  lemma {:induction false} RangeIsPower(w: nat)
    ensures Range(w) == Power(w)
  {
    if w > 0 { RangeIsPower(w - 1); }
  }

  /** And those of an array, whatever they are, as that array. */
  lemma NumArrayFromWire(src: seq<Byte>, len: nat, off: nat, et: nat, w: nat, vals: seq<nat>)
    requires Wide(et, w) && |vals| < 0x8000_0000 && off + 6 + w * |vals| <= len <= |src|
    requires src[off..off + 6] == [et, 0x20] + Low(|vals|, 4)
    requires forall k :: 0 <= k < |vals| ==> vals[k] < Power(w) && ElementAt(src, off + 6, w, k, vals[k])
    ensures DecItem(src, len, off, false) == Ok((NumArray(et, 1, vals), off + 6 + w * |vals|))
  {
    hide DecItem, Low, EncItem, ElementAt;
    var v := NumArray(et, 1, vals);
    RangeIsPower(w);
    NumArrayOnWire(et, w, 1, vals);
    SameElements(src[off..off + 6 + w * |vals|], EncItem(v, false), 6, w, vals, src, off);
    ItemRoundTrip(src, len, off, v, false);
  }

  /** Why a number or an array of numbers is not read: a type without a fixed width cannot be allocated if it has
      elements, an array of bytes longer than the frame is an invalid argument, and everything else that ends
      too early is an invalid packet. */
  lemma NumbersRefused(src: seq<Byte>, len: nat, vt: nat, argc: nat, w: nat, off: nat)
    requires off <= len <= |src| && vt < 0x2000
    ensures Wide(vt, w) && off + w > len ==> DecValue(src, len, vt, 1, off) == Err(InvalidPacket)
    ensures argc > 0 && vt != 8 && vt != 12 && !Wide(vt, 1) && !Wide(vt, 2) && !Wide(vt, 4) && !Wide(vt, 8) ==>
              DecValue(src, len, 0x2000 + vt, argc, off) == Err(OutOfMemory)
    ensures Wide(vt, w) && off + w * argc > len ==>
              DecValue(src, len, 0x2000 + vt, argc, off) == Err(if vt == 17 then InvalidArg else InvalidPacket)
  {
    hide UnLE, DecTexts, DecItems, DecText;
    if Wide(vt, w) {
      NumsReadExactly(src, len, argc, w, off);
      assert w * argc == argc * w;
    }
  }

  lemma SameElements(s: seq<Byte>, t: seq<Byte>, h: nat, w: nat, vals: seq<nat>, src: seq<Byte>, off: nat)
    requires |s| == |t| == h + w * |vals| && w > 0 && s[..h] == t[..h]
    requires off + |s| <= |src| && s == src[off..off + |s|]
    requires forall k :: 0 <= k < |vals| ==> ElementAt(src, off + h, w, k, vals[k]) && ElementAt(t, h, w, k, vals[k])
    ensures s == t
  {
    hide Low, ElementAt;
    forall i | 0 <= i < |s|
      ensures s[i] == t[i]
    {
      if i < h {
        assert s[i] == s[..h][i] == t[..h][i] == t[i];
      } else {
        var k, j := (i - h) / w, (i - h) % w;
        Below(i - h, w, |vals|);
        ElementByte(src, off + h, w, k, vals[k], j);
        ElementByte(t, h, w, k, vals[k], j);
        assert i == h + w * k + j;
      }
    }
  }

  lemma ElementByte(s: seq<Byte>, off: nat, w: nat, k: nat, n: nat, j: nat)
    requires ElementAt(s, off, w, k, n) && j < w
    ensures off + w * k + j < |s| && s[off + w * k + j] == ByteOf(n, j)
  {
    assert s[off + w * k + j] == s[off + w * k..off + w * k + w][j];
  }

  lemma Below(i: nat, w: nat, n: nat)
    requires w > 0 && i < w * n
    ensures i / w < n
  {
    if i / w >= n { MulLess(w, n, i / w); }
  }

  // ---------- packets ----------

  /** The header fields, and the whole frame. */
  lemma PacketOnWire(p: Packet)
    ensures FrameOf(p, PacketSize(p))
            == [1] + Low(PacketSize(p), 4) + Low(p.serial, 2) + Low(p.reserv, 2) + Low(p.id % 0x1_0000_0000, 4)
               + Low(|p.args|, 2) + EncItems(p.args, true) + [4]
    ensures PacketSize(p) == 16 + |EncItems(p.args, true)|
  {
    hide LE, Low, EncItems;
    NumberOnWire(PacketSize(p), 4);
    NumberOnWire(p.serial, 2);
    NumberOnWire(p.reserv, 2);
    NumberOnWire(p.id % 0x1_0000_0000, 4);
    NumberOnWire(|p.args|, 2);
  }

  /** A frame that is read is as long as its length field says and stands between the two marks; any other is
      refused as that. */
  lemma FramedExactly(src: seq<Byte>, room: nat)
    ensures DecPacket(src, room).Ok? ==>
              |src| >= 16 && src[0] == 1 && src[|src| - 1] == 4 && src[1..5] == Low(|src|, 4)
    ensures |src| < 16 || src[0] != 1 || src[|src| - 1] != 4 || src[1..5] != Low(|src|, 4) ==>
              DecPacket(src, room) == Err(InvalidPacket)
  {
    hide DecItems, UnLE, Low;
    if |src| >= 16 { LengthIs(src[1..5], |src|); }
  }

  lemma LengthIs(s: seq<Byte>, n: nat)
    requires |s| == 4
    ensures s == Low(n, 4) && n < 0x1_0000_0000 <==> UnLE(s) == n
  {
    hide LE, UnLE, Low;
    RangeValues();
    NumberOnWire(n, 4);
    NumberOnWire(UnLE(s), 4);
    LEofUnLE(s);
    if n < 0x1_0000_0000 { UnLEofLE(n, 4); }
  }

  lemma {:induction false} LEofUnLE(s: seq<Byte>)
    ensures LE(UnLE(s), |s|) == s
  {
    if s != [] {
      var u := UnLE(s[1..]);
      LEofUnLE(s[1..]);
      assert UnLE(s) % 256 == s[0] && UnLE(s) / 256 == u;
      hide UnLE;
      assert LE(UnLE(s), |s|) == [s[0]] + LE(u, |s| - 1);
    }
  }

  lemma SmallOnWire(b: Byte)
    ensures Low(b, 2) == [b, 0] && Low(b, 4) == [b, 0, 0, 0]
  {
    Powers();
  }

  /** The frame of a call with the number 5 of type 3. */
  lemma FrameExample(p: Packet)
    requires p == Packet(1, 0, 1, [Scalar(3, 5)])
    ensures PacketSize(p) == 30
    ensures FrameOf(p, 30)
            == [1, 30, 0, 0, 0, 1, 0, 0, 0, 1, 0, 0, 0, 1, 0,
                10, 0, 0, 0, 3, 0, 1, 0, 0, 0, 5, 0, 0, 0, 4]
  {
    hide EncItems, FrameOf, Low, PacketSize;
    PacketOnWire(p);
    OnlyArgument(p);
    FirstFields(p);
  }

  lemma OnlyArgument(p: Packet)
    requires p == Packet(1, 0, 1, [Scalar(3, 5)])
    ensures EncItems(p.args, true) == [10, 0, 0, 0, 3, 0, 1, 0, 0, 0, 5, 0, 0, 0]
  {
    hide EncItems, EncItem, Low;
    var v := Scalar(3, 5);
    SmallOnWire(5);
    SmallOnWire(10);
    ScalarOnWire(3, 4, 5);
    ArgumentOnWire(v);
    ItemsOnWire([], [], v, true);
  }

  lemma FirstFields(p: Packet)
    requires p == Packet(1, 0, 1, [Scalar(3, 5)])
    ensures [1] + Low(30, 4) + Low(p.serial, 2) + Low(p.reserv, 2) + Low(p.id % 0x1_0000_0000, 4) + Low(|p.args|, 2)
            == [1, 30, 0, 0, 0, 1, 0, 0, 0, 1, 0, 0, 0, 1, 0]
  {
    hide Low;
    SmallOnWire(1);
    SmallOnWire(0);
    SmallOnWire(30);
  }
}
