/** The b-CAP wire format (library/src/bcap_common.c), written and read; BcapWriter and BcapReader run
    both in place. */
module BcapCodec {
  import opened Bytes
  import opened Common

  const VT_I2 := 2
  const VT_I4 := 3
  const VT_R4 := 4
  const VT_R8 := 5
  const VT_CY := 6
  const VT_DATE := 7
  const VT_BSTR := 8
  const VT_ERROR := 10
  const VT_BOOL := 11
  const VT_VARIANT := 12
  const VT_UI1 := 17
  const VT_UI2 := 18
  const VT_UI4 := 19
  const VT_I8 := 20
  const VT_UI8 := 21
  const VT_ARRAY := 0x2000

  const HEADER: Byte := 1
  const TERMINATOR: Byte := 4
  const SIZE_MIN := 16
  const PREFIX := 5  // the header byte and the length
  const POS_ARGS := 15

  /** S_OK apart, the outcomes the codec distinguishes; after an Overrun, a write behind the end of an
      allocated buffer, nothing is known. */
  datatype Error = InvalidArg | InvalidPacket | OutOfMemory | TooMuchData | Overrun

  // ---------- values ----------

  /** A BSTR: a null pointer, or the characters of an allocated buffer. */
  datatype Text = NullText | Text(chars: seq<nat>)

  /** A VARIANT.  Scalars and array elements of fixed width are the numbers their bytes spell;
      DATE and the floating types are their eight or four bytes as well. */
  datatype Variant =
    | Scalar(vt: nat, val: nat)
    | Str(text: Text)
    | NumArray(et: nat, lbound: int, vals: seq<nat>)
    | StrArray(lbound: int, texts: seq<Text>)
    | VarArray(lbound: int, elems: seq<Variant>)
    | NullArray(et: nat)

  /** The bit VT_ARRAY of a type word. */
  predicate HasArrayBit(vt: nat) {
    vt / VT_ARRAY % 2 == 1
  }

  /** The width of an array element, 0 for types that need or have no fixed one. */
  function ElemSize(et: nat): (n: nat)
    ensures n <= 8
  {
    if et == VT_UI1 then 1
    else if et == VT_I2 || et == VT_UI2 || et == VT_BOOL then 2
    else if et == VT_I4 || et == VT_UI4 || et == VT_R4 then 4
    else if et == VT_I8 || et == VT_UI8 || et == VT_R8 || et == VT_CY || et == VT_DATE then 8
    else 0
  }

  function ScalarSize(vt: nat): (n: nat)
    ensures n <= 8
  {
    if vt == VT_ERROR then 4 else ElemSize(vt)
  }

  /** The element types SafeArrayCreateVector knows. */
  predicate Creatable(et: nat) {
    ElemSize(et) > 0 || et == VT_BSTR || et == VT_VARIANT
  }

  /** wcslen: the characters before the first NUL. */
  function Wcslen(chars: seq<nat>): (n: nat)
    ensures n <= |chars|
  {
    if chars == [] || chars[0] == 0 then 0 else 1 + Wcslen(chars[1..])
  }

  /** SysStringLen returns a 16-bit number. */
  function StringLen(t: Text): (n: nat)
    ensures t.Text? ==> n <= |t.chars|
    ensures t.NullText? ==> n == 0
  {
    if t.NullText? then 0 else Wcslen(t.chars) % 0x1_0000
  }

  function Tag(v: Variant): nat {
    match v
    case Scalar(vt, _) => vt
    case Str(_) => VT_BSTR
    case NumArray(et, _, _) => VT_ARRAY + et
    case StrArray(_, _) => VT_ARRAY + VT_BSTR
    case VarArray(_, _) => VT_ARRAY + VT_VARIANT
    case NullArray(et) => VT_ARRAY + et
  }

  /** The element count that travels: 1 for anything but an array. */
  function Count(v: Variant): nat {
    match v
    case Scalar(_, _) => 1
    case Str(_) => 1
    case NumArray(_, _, vals) => |vals|
    case StrArray(_, texts) => |texts|
    case VarArray(_, elems) => |elems|
    case NullArray(_) => 0
  }

  // ---------- the layout ----------

  function EncNums(vals: seq<nat>, size: nat): (s: seq<Byte>)
    ensures |s| == |vals| * size
  {
    if vals == [] then [] else EncNums(vals[..|vals| - 1], size) + LE(vals[|vals| - 1], size)
  }

  /** A string: its length in bytes, then two bytes for each character. */
  function EncText(t: Text): (s: seq<Byte>)
    ensures |s| == 4 + 2 * StringLen(t)
  {
    LE(2 * StringLen(t), 4) + EncNums(if t.Text? then t.chars[..StringLen(t)] else [], 2)
  }

  function EncTexts(texts: seq<Text>): seq<Byte> {
    if texts == [] then [] else EncTexts(texts[..|texts| - 1]) + EncText(texts[|texts| - 1])
  }

  function EncValue(v: Variant): seq<Byte>
    decreases v, 0
  {
    match v
    case Scalar(vt, val) => LE(val, ScalarSize(vt))
    case Str(text) => EncText(text)
    case NumArray(et, _, vals) => EncNums(vals, ElemSize(et))
    case StrArray(_, texts) => EncTexts(texts)
    case VarArray(_, elems) => EncItems(elems, false)
    case NullArray(_) => []
  }

  /** Type word, element count, value; an argument of a packet is preceded by the length of all
      that. */
  function EncItem(v: Variant, top: bool): (s: seq<Byte>)
    ensures |s| == (if top then 10 else 6) + |EncValue(v)|
    decreases v, 1
  {
    (if top then LE(6 + |EncValue(v)|, 4) else []) + (LE(Tag(v), 2) + LE(Count(v), 4) + EncValue(v))
  }

  function EncItems(vs: seq<Variant>, top: bool): seq<Byte>
    decreases vs, 0
  {
    if vs == [] then [] else EncItems(vs[..|vs| - 1], top) + EncItem(vs[|vs| - 1], top)
  }

  /** The only values the encoder refuses: those with an array that has no SAFEARRAY. */
  predicate Encodable(v: Variant)
    decreases v, 0
  {
    match v
    case NullArray(_) => false
    case VarArray(_, elems) => AllEncodable(elems)
    case _ => true
  }

  predicate AllEncodable(vs: seq<Variant>)
    decreases vs, 0
  {
    vs == [] || (AllEncodable(vs[..|vs| - 1]) && Encodable(vs[|vs| - 1]))
  }

  // ---------- packets ----------

  datatype Packet = Packet(serial: nat, reserv: nat, id: int, args: seq<Variant>)

  /** An int32_t as the unsigned number its bytes spell, and back. */
  function Unsigned(i: int): (n: nat)
    ensures n < 0x1_0000_0000
  {
    i % 0x1_0000_0000
  }

  function Signed(n: nat): int {
    if n < 0x8000_0000 then n else n - 0x1_0000_0000
  }

  function Head(p: Packet, len: nat): (s: seq<Byte>)
    ensures |s| == POS_ARGS
  {
    [HEADER] + LE(len, 4) + LE(p.serial, 2) + LE(p.reserv, 2) + LE(Unsigned(p.id), 4) + LE(|p.args|, 2)
  }

  function PacketSize(p: Packet): nat {
    SIZE_MIN + |EncItems(p.args, true)|
  }

  function Zeros(n: nat): seq<Byte> {
    seq(n, i => 0)
  }

  /** The frame of `len` bytes: header, arguments, zeros, terminator.  The length field holds the
      length of the whole frame. */
  function FrameOf(p: Packet, len: nat): (s: seq<Byte>)
    requires len >= PacketSize(p)
    ensures |s| == len
  {
    Head(p, len) + EncItems(p.args, true) + Zeros(len - PacketSize(p)) + [TERMINATOR]
  }

  // ---------- reading ----------

  function DecNums(src: seq<Byte>, len: nat, n: nat, size: nat, off: nat): (r: Result<(seq<nat>, nat), Error>)
    requires off <= len <= |src|
    ensures r.Ok? ==> off <= r.value.1 <= len && |r.value.0| == n
  {
    if n == 0 then Ok(([], off))
    else
      match DecNums(src, len, n - 1, size, off)
      case Err(e) => Err(e)
      case Ok((vals, o)) =>
        if o + size > len then Err(InvalidPacket)
        else Ok((vals + [UnLE(src[o..o + size])], o + size))
  }

  /** The characters of a string are written one by one, two bytes each, as long as the frame holds them:
      of `chars` announced ones, one is written over the end of the buffer allocated for them. */
  predicate Overruns(chars: nat, inFrame: nat) {
    var written := if chars < inFrame then chars else inFrame;
    written > 0 && WCHAR * (written - 1) + 2 > AllocBytes(chars)
  }

  /** Whatever the frame holds, a buffer for fewer than 16383 characters is not overrun; from there on it is
      as soon as the frame holds more characters than it has room for, and in any case if the frame holds
      all that it announces. */
  lemma OverrunsExactly(chars: nat, inFrame: nat)
    ensures Overruns(chars, inFrame)
            <==> chars >= TEXT_MAX && inFrame > AllocBytes(chars) / WCHAR
    ensures chars <= inFrame ==> (Overruns(chars, inFrame) <==> chars >= TEXT_MAX)
  {
    assert AllocBytes(chars) == WCHAR * (AllocBytes(chars) / WCHAR);
  }

  function DecText(src: seq<Byte>, len: nat, off: nat): (r: Result<(Text, nat), Error>)
    requires off <= len <= |src|
    ensures r.Ok? ==> off <= r.value.1 <= len && r.value.0.Text?
  {
    if off + 4 > len then Err(InvalidPacket)
    else if Overruns(UnLE(src[off..off + 4]) / 2, (len - off - 4) / 2) then Err(Overrun)
    else
      match DecNums(src, len, UnLE(src[off..off + 4]) / 2, 2, off + 4)
      case Err(e) => Err(e)
      case Ok((chars, o)) => Ok((Text(chars), o))
  }

  /** A string is read exactly if the frame holds the characters it announces and those are fewer than
      16383. */
  lemma TextReadExactly(src: seq<Byte>, len: nat, off: nat)
    requires off + 4 <= len <= |src|
    ensures var n, inFrame := UnLE(src[off..off + 4]) / 2, (len - off - 4) / 2;
            && (DecText(src, len, off).Ok? <==> n <= inFrame && n < TEXT_MAX)
            && (DecText(src, len, off) == Err(Overrun) <==> n >= TEXT_MAX && inFrame > AllocBytes(n) / WCHAR)
  {
    hide UnLE, DecNums, Overruns;
    var n := UnLE(src[off..off + 4]) / 2;
    OverrunsExactly(n, (len - off - 4) / 2);
    NumsReadExactly(src, len, n, 2, off + 4);
  }

  lemma {:induction false} NumsReadExactly(src: seq<Byte>, len: nat, n: nat, size: nat, off: nat)
    requires off <= len <= |src|
    ensures var r := DecNums(src, len, n, size, off);
            && (r.Ok? <==> off + n * size <= len)
            && (r.Ok? ==> r.value.1 == off + n * size)
            && (r.Err? ==> r.error == InvalidPacket)
  {
    hide UnLE;
    if n > 0 {
      NumsReadExactly(src, len, n - 1, size, off);
      assert n * size == (n - 1) * size + size;
    }
  }

  /** A string that announces 16383 characters gets a buffer without room for any, so the one character
      that this frame holds is written over its end. */
  lemma ShortFrameOverruns()
    ensures DecText([0xFE, 0x7F, 0, 0, 0x41, 0], 6, 0) == Err(Overrun)
  {
    var src: seq<Byte> := [0xFE, 0x7F, 0, 0, 0x41, 0];
    assert src[0..4] == [0xFE, 0x7F, 0, 0];
    assert LE(0, 2) == [0, 0] && LE(0x7F, 3) == [0x7F] + LE(0, 2);
    assert LE(2 * TEXT_MAX, 4) == [0xFE] + LE(0x7F, 3);
    RangeValues();
    UnLEofLE(2 * TEXT_MAX, 4);
    TextReadExactly(src, 6, 0);
  }

  function DecTexts(src: seq<Byte>, len: nat, n: nat, off: nat): (r: Result<(seq<Text>, nat), Error>)
    requires off <= len <= |src|
    ensures r.Ok? ==> off <= r.value.1 <= len && |r.value.0| == n
  {
    if n == 0 then Ok(([], off))
    else
      match DecTexts(src, len, n - 1, off)
      case Err(e) => Err(e)
      case Ok((texts, o)) =>
        match DecText(src, len, o)
        case Err(e) => Err(e)
        case Ok((t, o')) => Ok((texts + [t], o'))
  }

  /** A value of type word `vt` with the element count `argc`.  Arrays of bytes are copied at once
      and have their own error code. */
  function DecValue(src: seq<Byte>, len: nat, vt: nat, argc: nat, off: nat): (r: Result<(Variant, nat), Error>)
    requires off <= len <= |src|
    ensures r.Ok? ==> off <= r.value.1 <= len
    decreases len - off, 1, 0
  {
    if HasArrayBit(vt) then
      var et := vt - VT_ARRAY;
      if argc > 0 && !Creatable(et) then Err(OutOfMemory)
      else if et == VT_BSTR then
        match DecTexts(src, len, argc, off)
        case Err(e) => Err(e)
        case Ok((texts, o)) => Ok((StrArray(1, texts), o))
      else if et == VT_VARIANT then
        match DecItems(src, len, argc, off, false)
        case Err(e) => Err(e)
        case Ok((elems, o)) => Ok((VarArray(1, elems), o))
      else if et == VT_UI1 && off + argc > len then Err(InvalidArg)
      else
        match DecNums(src, len, argc, ElemSize(et), off)
        case Err(e) => Err(e)
        case Ok((vals, o)) => Ok((NumArray(et, 1, vals), o))
    else if vt == VT_BSTR then
      match DecText(src, len, off)
      case Err(e) => Err(e)
      case Ok((t, o)) => Ok((Str(t), o))
    else if off + ScalarSize(vt) > len then Err(InvalidPacket)
    else Ok((Scalar(vt, UnLE(src[off..off + ScalarSize(vt)])), off + ScalarSize(vt)))
  }

  /** The length before an argument is skipped, not read. */
  function DecItem(src: seq<Byte>, len: nat, off: nat, top: bool): (r: Result<(Variant, nat), Error>)
    requires off <= len <= |src|
    ensures r.Ok? ==> off + 6 <= r.value.1 <= len
    decreases len - off, 0, 0
  {
    var o := if top then off + 4 else off;
    if o + 6 > len then Err(InvalidPacket)
    else DecValue(src, len, UnLE(src[o..o + 2]), UnLE(src[o + 2..o + 6]), o + 6)
  }

  function DecItems(src: seq<Byte>, len: nat, n: nat, off: nat, top: bool): (r: Result<(seq<Variant>, nat), Error>)
    requires off <= len <= |src|
    ensures r.Ok? ==> off <= r.value.1 <= len && |r.value.0| == n
    decreases len - off, 0, n + 1
  {
    if n == 0 then Ok(([], off))
    else
      match DecItems(src, len, n - 1, off, top)
      case Err(e) => Err(e)
      case Ok((vs, o)) =>
        match DecItem(src, len, o, top)
        case Err(e) => Err(e)
        case Ok((v, o')) => Ok((vs + [v], o'))
  }

  /** Reading a whole frame; `room` is the most arguments the caller takes. */
  function DecPacket(src: seq<Byte>, room: nat): Result<Packet, Error> {
    if |src| < SIZE_MIN || UnLE(src[1..5]) != |src| || src[0] != HEADER || src[|src| - 1] != TERMINATOR then
      Err(InvalidPacket)
    else
      var argc := UnLE(src[13..15]);
      if argc > room then Err(InvalidPacket)
      else
        match DecItems(src, |src| - 1, argc, POS_ARGS, true)
        case Err(e) => Err(e)
        case Ok((args, _)) =>
          Ok(Packet(UnLE(src[5..7]), UnLE(src[7..9]), Signed(UnLE(src[9..13])), args))
  }

  // ---------- well-formed values and what a round trip does to them ----------

  /** A string without NUL characters, each of 16 bits, short enough to be allocated. */
  predicate GoodText(t: Text) {
    t.Text? ==>
      && |t.chars| < TEXT_MAX
      && forall i :: 0 <= i < |t.chars| ==> 0 < t.chars[i] < 0x1_0000
  }

  predicate Good(v: Variant)
    decreases v, 0
  {
    match v
    case Scalar(vt, val) =>
      vt < 0x1_0000 && !HasArrayBit(vt) && vt != VT_BSTR && val < Range(ScalarSize(vt))
    case Str(text) => GoodText(text)
    case NumArray(et, _, vals) =>
      && VT_ARRAY + et < 0x1_0000 && HasArrayBit(VT_ARRAY + et) && et != VT_BSTR && et != VT_VARIANT
      && (vals != [] ==> ElemSize(et) > 0)
      && |vals| < 0x8000_0000
      && forall i :: 0 <= i < |vals| ==> vals[i] < Range(ElemSize(et))
    case StrArray(_, texts) =>
      |texts| < 0x8000_0000 && forall i :: 0 <= i < |texts| ==> GoodText(texts[i])
    case VarArray(_, elems) => |elems| < 0x8000_0000 && AllGood(elems)
    case NullArray(_) => false
  }

  predicate AllGood(vs: seq<Variant>)
    decreases vs, 0
  {
    vs == [] || (AllGood(vs[..|vs| - 1]) && Good(vs[|vs| - 1]))
  }

  predicate GoodPacket(p: Packet) {
    && p.serial < 0x1_0000 && p.reserv < 0x1_0000
    && -0x8000_0000 <= p.id < 0x8000_0000
    && |p.args| < 0x1_0000 && AllGood(p.args)
  }

  /** The encoder refuses nothing that is well-formed. */
  lemma {:induction false} GoodIsEncodable(v: Variant)
    requires Good(v)
    ensures Encodable(v)
    decreases v, 0
  {
    if v.VarArray? { AllGoodAreEncodable(v.elems); }
  }

  lemma {:induction false} AllGoodAreEncodable(vs: seq<Variant>)
    requires AllGood(vs)
    ensures AllEncodable(vs)
    decreases vs, 0
  {
    if vs != [] {
      AllGoodAreEncodable(vs[..|vs| - 1]);
      GoodIsEncodable(vs[|vs| - 1]);
    }
  }

  function NormText(t: Text): Text {
    if t.NullText? then Text([]) else t
  }

  function NormTexts(texts: seq<Text>): seq<Text> {
    if texts == [] then [] else NormTexts(texts[..|texts| - 1]) + [NormText(texts[|texts| - 1])]
  }

  /** Null strings become empty ones and arrays start at 1; nothing else changes. */
  function Norm(v: Variant): Variant
    decreases v, 0
  {
    match v
    case Scalar(_, _) => v
    case Str(text) => Str(NormText(text))
    case NumArray(et, _, vals) => NumArray(et, 1, vals)
    case StrArray(_, texts) => StrArray(1, NormTexts(texts))
    case VarArray(_, elems) => VarArray(1, NormAll(elems))
    case NullArray(_) => v
  }

  function NormAll(vs: seq<Variant>): seq<Variant>
    decreases vs, 0
  {
    if vs == [] then [] else NormAll(vs[..|vs| - 1]) + [Norm(vs[|vs| - 1])]
  }

  // ---------- the round trip ----------

  /** `s` stands in `src` at `off`. */
  predicate At(src: seq<Byte>, len: nat, off: nat, s: seq<Byte>) {
    off + |s| <= len <= |src| && src[off..off + |s|] == s
  }

  lemma AtParts(src: seq<Byte>, len: nat, off: nat, a: seq<Byte>, b: seq<Byte>)
    requires At(src, len, off, a + b)
    ensures At(src, len, off, a) && At(src, len, off + |a|, b)
    ensures off + |a| + |b| <= len <= |src|
  {
    var s := src[off..off + |a + b|];
    assert src[off..off + |a|] == s[..|a|] == (a + b)[..|a|];
    assert src[off + |a|..off + |a| + |b|] == s[|a|..] == (a + b)[|a|..];
  }

  lemma AtNumber(src: seq<Byte>, len: nat, off: nat, v: nat, n: nat)
    requires At(src, len, off, LE(v, n)) && v < Range(n)
    ensures UnLE(src[off..off + n]) == v
  {
    UnLEofLE(v, n);
  }

  lemma {:induction false} NumsRoundTrip(src: seq<Byte>, len: nat, off: nat, vals: seq<nat>, size: nat)
    requires At(src, len, off, EncNums(vals, size))
    requires forall i :: 0 <= i < |vals| ==> vals[i] < Range(size)
    ensures DecNums(src, len, |vals|, size, off) == Ok((vals, off + |vals| * size))
  {
    hide At, LE, UnLE, Range;
    if vals != [] {
      var n := |vals| - 1;
      AtParts(src, len, off, EncNums(vals[..n], size), LE(vals[n], size));
      NumsRoundTrip(src, len, off, vals[..n], size);
      AtNumber(src, len, off + n * size, vals[n], size);
      assert n * size + size == |vals| * size;
      assert vals[..n] + [vals[n]] == vals;
    }
  }

  lemma {:induction false} WcslenAll(chars: seq<nat>)
    requires forall i :: 0 <= i < |chars| ==> 0 < chars[i]
    ensures Wcslen(chars) == |chars|
  {
    if chars != [] { WcslenAll(chars[1..]); }
  }

  lemma GoodTextLength(t: Text)
    requires GoodText(t)
    ensures t.Text? ==> StringLen(t) == |t.chars|
  {
    if t.Text? { WcslenAll(t.chars); }
  }

  lemma TextRoundTrip(src: seq<Byte>, len: nat, off: nat, t: Text)
    requires At(src, len, off, EncText(t)) && GoodText(t)
    ensures DecText(src, len, off) == Ok((NormText(t), off + |EncText(t)|))
  {
    hide At, LE, UnLE, Range, Wcslen, EncNums, DecNums;
    GoodTextLength(t);
    RangeValues();
    var n := StringLen(t);
    var chars := if t.Text? then t.chars[..n] else [];
    AtParts(src, len, off, LE(2 * n, 4), EncNums(chars, 2));
    AtNumber(src, len, off, 2 * n, 4);
    NumsRoundTrip(src, len, off + 4, chars, 2);
    OverrunsExactly(n, (len - off - 4) / 2);
    assert Text(chars) == NormText(t);
  }

  lemma {:induction false} TextsRoundTrip(src: seq<Byte>, len: nat, off: nat, texts: seq<Text>)
    requires At(src, len, off, EncTexts(texts))
    requires forall i :: 0 <= i < |texts| ==> GoodText(texts[i])
    ensures DecTexts(src, len, |texts|, off) == Ok((NormTexts(texts), off + |EncTexts(texts)|))
  {
    hide At, DecText, EncText, NormText, GoodText;
    if texts != [] {
      var n := |texts| - 1;
      AtParts(src, len, off, EncTexts(texts[..n]), EncText(texts[n]));
      TextsRoundTrip(src, len, off, texts[..n]);
      TextRoundTrip(src, len, off + |EncTexts(texts[..n])|, texts[n]);
    }
  }

  /** The type word keeps its array bit apart from the element type. */
  lemma TagBit(v: Variant)
    requires Good(v)
    ensures Tag(v) < 0x1_0000 && Count(v) < 0x1_0000_0000
    ensures HasArrayBit(Tag(v)) <==> v.NumArray? || v.StrArray? || v.VarArray?
  {
  }

  lemma {:induction false} ValueRoundTrip(src: seq<Byte>, len: nat, off: nat, v: Variant)
    requires At(src, len, off, EncValue(v)) && Good(v)
    ensures DecValue(src, len, Tag(v), Count(v), off) == Ok((Norm(v), off + |EncValue(v)|))
    decreases v, 0
  {
    hide LE, UnLE, Range, DecNums, EncNums, DecText, EncText, DecTexts, EncTexts;
    hide DecItems, EncItems, NormText, NormTexts, NormAll, GoodText, HasArrayBit;
    TagBit(v);
    match v {
      case Scalar(vt, val) => AtNumber(src, len, off, val, ScalarSize(vt));
      case Str(text) => TextRoundTrip(src, len, off, text);
      case NumArray(et, _, vals) => NumsRoundTrip(src, len, off, vals, ElemSize(et));
      case StrArray(_, texts) => TextsRoundTrip(src, len, off, texts);
      case VarArray(_, elems) => ItemsRoundTrip(src, len, off, elems, false);
    }
  }

  lemma {:induction false} ItemRoundTrip(src: seq<Byte>, len: nat, off: nat, v: Variant, top: bool)
    requires At(src, len, off, EncItem(v, top)) && Good(v)
    ensures DecItem(src, len, off, top) == Ok((Norm(v), off + |EncItem(v, top)|))
    decreases v, 1
  {
    hide At, LE, UnLE, Range, DecValue, EncValue, Tag, Count, Good, Norm, HasArrayBit;
    TagBit(v);
    RangeValues();
    var head := if top then LE(6 + |EncValue(v)|, 4) else [];
    var o := off + |head|;
    var tag, count, value := LE(Tag(v), 2), LE(Count(v), 4), EncValue(v);
    AtParts(src, len, off, head, tag + count + value);
    AtParts(src, len, o, tag + count, value);
    AtParts(src, len, o, tag, count);
    AtNumber(src, len, o, Tag(v), 2);
    AtNumber(src, len, o + 2, Count(v), 4);
    ValueRoundTrip(src, len, o + 6, v);
  }

  lemma {:induction false} ItemsRoundTrip(src: seq<Byte>, len: nat, off: nat, vs: seq<Variant>, top: bool)
    requires At(src, len, off, EncItems(vs, top)) && AllGood(vs)
    ensures DecItems(src, len, |vs|, off, top) == Ok((NormAll(vs), off + |EncItems(vs, top)|))
    decreases vs, 0
  {
    hide At, DecItem, EncItem, Good, Norm;
    if vs != [] {
      var n := |vs| - 1;
      AtParts(src, len, off, EncItems(vs[..n], top), EncItem(vs[n], top));
      ItemsRoundTrip(src, len, off, vs[..n], top);
      ItemRoundTrip(src, len, off + |EncItems(vs[..n], top)|, vs[n], top);
    }
  }

  /** The fields in front of the arguments. */
  lemma HeadRoundTrip(src: seq<Byte>, p: Packet, len: nat)
    requires GoodPacket(p) && len < 0x1_0000_0000
    requires |src| >= POS_ARGS && src[..POS_ARGS] == Head(p, len)
    ensures src[0] == HEADER && UnLE(src[1..5]) == len
    ensures UnLE(src[5..7]) == p.serial && UnLE(src[7..9]) == p.reserv
    ensures Signed(UnLE(src[9..13])) == p.id && UnLE(src[13..15]) == |p.args|
  {
    hide LE, UnLE, Range, AllGood;
    RangeValues();
    var a, b, c := LE(len, 4), LE(p.serial, 2), LE(p.reserv, 2);
    var d, e := LE(Unsigned(p.id), 4), LE(|p.args|, 2);
    var h := Head(p, len);
    assert h == [HEADER] + a + b + c + d + e;
    assert src[1..5] == h[1..5] == a;
    assert src[5..7] == h[5..7] == b;
    assert src[7..9] == h[7..9] == c;
    assert src[9..13] == h[9..13] == d;
    assert src[13..15] == h[13..15] == e;
    UnLEofLE(len, 4);
    UnLEofLE(p.serial, 2);
    UnLEofLE(p.reserv, 2);
    UnLEofLE(Unsigned(p.id), 4);
    UnLEofLE(|p.args|, 2);
  }

  /** Decoding the frame of a good packet gives the packet back, up to array lower bounds and null
      strings, whatever stands between the arguments and the terminator: nothing on TCP and UDP,
      the check field on a serial line. */
  lemma PacketRoundTrip(p: Packet, between: seq<Byte>, room: nat)
    requires GoodPacket(p) && |p.args| <= room
    requires PacketSize(p) + |between| < 0x1_0000_0000
    ensures var src := Head(p, PacketSize(p) + |between|) + EncItems(p.args, true) + between + [TERMINATOR];
            DecPacket(src, room) == Ok(p.(args := NormAll(p.args)))
  {
    hide LE, UnLE, Range, AllGood, DecItems, EncItems, NormAll, Head;
    var len := PacketSize(p) + |between|;
    var args := EncItems(p.args, true);
    var src := Head(p, len) + args + between + [TERMINATOR];
    assert src[..POS_ARGS] == Head(p, len);
    HeadRoundTrip(src, p, len);
    assert src[POS_ARGS..POS_ARGS + |args|] == args;
    assert At(src, |src| - 1, POS_ARGS, args);
    ItemsRoundTrip(src, |src| - 1, POS_ARGS, p.args, true);
  }

  /** The frames that bcap_send makes are among those. */
  lemma FrameRoundTrip(p: Packet, len: nat, room: nat)
    requires GoodPacket(p) && |p.args| <= room
    requires PacketSize(p) <= len < 0x1_0000_0000
    ensures DecPacket(FrameOf(p, len), room) == Ok(p.(args := NormAll(p.args)))
  {
    hide DecPacket, EncItems, NormAll, Head;
    PacketRoundTrip(p, Zeros(len - PacketSize(p)), room);
  }

  // ---------- what can be decoded at all ----------

  /** All strings inside can travel: see GoodText. */
  predicate TextsGood(v: Variant)
    decreases v, 0
  {
    match v
    case Str(text) => GoodText(text)
    case StrArray(_, texts) => forall i :: 0 <= i < |texts| ==> GoodText(texts[i])
    case VarArray(_, elems) => AllTextsGood(elems)
    case _ => true
  }

  predicate AllTextsGood(vs: seq<Variant>)
    decreases vs, 0
  {
    vs == [] || (AllTextsGood(vs[..|vs| - 1]) && TextsGood(vs[|vs| - 1]))
  }

  lemma {:induction false} DecodedNums(src: seq<Byte>, len: nat, n: nat, size: nat, off: nat)
    requires off <= len <= |src| && DecNums(src, len, n, size, off).Ok?
    ensures var r := DecNums(src, len, n, size, off).value;
            && r.1 == off + n * size
            && (forall i :: 0 <= i < |r.0| ==> r.0[i] < Range(size))
  {
    hide UnLE, Range;
    if n > 0 { DecodedNums(src, len, n - 1, size, off); }
  }

  lemma {:induction false} DecodedTexts(src: seq<Byte>, len: nat, n: nat, off: nat)
    requires off <= len <= |src| && DecTexts(src, len, n, off).Ok?
    ensures var r := DecTexts(src, len, n, off).value;
            NormTexts(r.0) == r.0 && 4 * n <= r.1 - off
  {
    hide UnLE;
    if n > 0 {
      DecodedTexts(src, len, n - 1, off);
      var texts := DecTexts(src, len, n, off).value.0;
      assert texts[..n - 1] == DecTexts(src, len, n - 1, off).value.0;
    }
  }

  /** A decoded value is in normal form and, if its strings are, well-formed. */
  lemma {:induction false} DecodedValue(src: seq<Byte>, len: nat, vt: nat, argc: nat, off: nat)
    requires off <= len <= |src| < 0x8000_0000 && vt < 0x1_0000
    requires DecValue(src, len, vt, argc, off).Ok?
    ensures var v := DecValue(src, len, vt, argc, off).value.0;
            Norm(v) == v && (TextsGood(v) ==> Good(v))
    decreases len - off, 1, 0
  {
    hide UnLE, Range, DecNums, DecText, DecTexts, DecItems, GoodText, NormTexts, NormAll, AllGood, AllTextsGood;
    if HasArrayBit(vt) {
      var et := vt - VT_ARRAY;
      if et == VT_BSTR {
        DecodedTexts(src, len, argc, off);
      } else if et == VT_VARIANT {
        DecodedItems(src, len, argc, off, false);
      } else {
        DecodedNums(src, len, argc, ElemSize(et), off);
      }
    }
  }

  lemma {:induction false} DecodedItem(src: seq<Byte>, len: nat, off: nat, top: bool)
    requires off <= len <= |src| < 0x8000_0000 && DecItem(src, len, off, top).Ok?
    ensures var v := DecItem(src, len, off, top).value.0;
            Norm(v) == v && (TextsGood(v) ==> Good(v))
    decreases len - off, 0, 0
  {
    hide UnLE, Norm, Good, TextsGood, DecValue;
    RangeValues();
    var o := if top then off + 4 else off;
    DecodedValue(src, len, UnLE(src[o..o + 2]), UnLE(src[o + 2..o + 6]), o + 6);
  }

  lemma {:induction false} DecodedItems(src: seq<Byte>, len: nat, n: nat, off: nat, top: bool)
    requires off <= len <= |src| < 0x8000_0000 && DecItems(src, len, n, off, top).Ok?
    ensures var r := DecItems(src, len, n, off, top).value;
            NormAll(r.0) == r.0 && (AllTextsGood(r.0) ==> AllGood(r.0)) && 6 * n <= r.1 - off
    decreases len - off, 0, n + 1
  {
    hide DecItem, Norm, Good, TextsGood;
    if n > 0 {
      var before, r := DecItems(src, len, n - 1, off, top).value, DecItems(src, len, n, off, top).value;
      DecodedItems(src, len, n - 1, off, top);
      DecodedItem(src, len, before.1, top);
      assert r.0[..n - 1] == before.0;
    }
  }

  /** Whatever bytes a packet was decoded from: if its strings can travel at all, sending it and
      decoding again gives the very same packet. */
  lemma DecodedPacketIsStable(src: seq<Byte>, room: nat)
    requires |src| < 0x8000_0000 && DecPacket(src, room).Ok?
    ensures var p := DecPacket(src, room).value;
            AllTextsGood(p.args) && PacketSize(p) < 0x1_0000_0000 ==>
              && GoodPacket(p)
              && DecPacket(FrameOf(p, PacketSize(p)), room) == Ok(p)
  {
    hide LE, UnLE, Range, AllGood, AllTextsGood, DecItems, EncItems, NormAll, FrameOf;
    RangeValues();
    var p := DecPacket(src, room).value;
    DecodedItems(src, |src| - 1, UnLE(src[13..15]), POS_ARGS, true);
    if AllTextsGood(p.args) && PacketSize(p) < 0x1_0000_0000 {
      FrameRoundTrip(p, PacketSize(p), room);
    }
  }

  // ---------- what decoding depends on ----------

  /** `t` agrees with `s` on the bytes from `off` up to `end`. */
  predicate Agree(s: seq<Byte>, t: seq<Byte>, off: nat, end: nat) {
    off <= end <= |s| && end <= |t| && s[off..end] == t[off..end]
  }

  lemma AgreePart(s: seq<Byte>, t: seq<Byte>, off: nat, end: nat, o: nat, e: nat)
    requires Agree(s, t, off, end) && off <= o <= e <= end
    ensures Agree(s, t, o, e)
  {
    forall k | o <= k < e
      ensures s[k] == t[k]
    {
      assert s[k] == s[off..end][k - off] == t[off..end][k - off] == t[k];
    }
  }

  lemma {:induction false} NumsLocal(s: seq<Byte>, t: seq<Byte>, len: nat, len': nat, n: nat, size: nat, off: nat)
    requires off <= len <= |s| && len' <= |t|
    requires DecNums(s, len, n, size, off).Ok?
    requires var end := DecNums(s, len, n, size, off).value.1; end <= len' && Agree(s, t, off, end)
    ensures DecNums(t, len', n, size, off) == DecNums(s, len, n, size, off)
  {
    hide UnLE, Agree;
    if n > 0 {
      var o := DecNums(s, len, n - 1, size, off).value.1;
      AgreePart(s, t, off, o + size, off, o);
      AgreePart(s, t, off, o + size, o, o + size);
      NumsLocal(s, t, len, len', n - 1, size, off);
      assert s[o..o + size] == t[o..o + size] by { AgreeOnly(s, t, o, o + size); }
    }
  }

  lemma AgreeOnly(s: seq<Byte>, t: seq<Byte>, off: nat, end: nat)
    requires Agree(s, t, off, end)
    ensures off <= end <= |s| && end <= |t| && s[off..end] == t[off..end]
  {
  }

  lemma TextLocal(s: seq<Byte>, t: seq<Byte>, len: nat, len': nat, off: nat)
    requires off <= len <= |s| && len' <= |t|
    requires DecText(s, len, off).Ok?
    requires var end := DecText(s, len, off).value.1; end <= len' && Agree(s, t, off, end)
    ensures DecText(t, len', off) == DecText(s, len, off)
  {
    hide UnLE, Agree, DecNums, Overruns;
    var end := DecText(s, len, off).value.1;
    var n := UnLE(s[off..off + 4]) / 2;
    NumsReadExactly(s, len, n, 2, off + 4);
    OverrunsExactly(n, (len - off - 4) / 2);
    OverrunsExactly(n, (len' - off - 4) / 2);
    AgreePart(s, t, off, end, off, off + 4);
    AgreeOnly(s, t, off, off + 4);
    AgreePart(s, t, off, end, off + 4, end);
    NumsLocal(s, t, len, len', n, 2, off + 4);
  }

  lemma {:induction false} TextsLocal(s: seq<Byte>, t: seq<Byte>, len: nat, len': nat, n: nat, off: nat)
    requires off <= len <= |s| && len' <= |t|
    requires DecTexts(s, len, n, off).Ok?
    requires var end := DecTexts(s, len, n, off).value.1; end <= len' && Agree(s, t, off, end)
    ensures DecTexts(t, len', n, off) == DecTexts(s, len, n, off)
  {
    hide Agree, DecText;
    if n > 0 {
      var o, end := DecTexts(s, len, n - 1, off).value.1, DecTexts(s, len, n, off).value.1;
      AgreePart(s, t, off, end, off, o);
      AgreePart(s, t, off, end, o, end);
      TextsLocal(s, t, len, len', n - 1, off);
      TextLocal(s, t, len, len', o);
    }
  }

  lemma {:induction false} ValueLocal(s: seq<Byte>, t: seq<Byte>, len: nat, len': nat, vt: nat, argc: nat, off: nat)
    requires off <= len <= |s| && len' <= |t|
    requires DecValue(s, len, vt, argc, off).Ok?
    requires var end := DecValue(s, len, vt, argc, off).value.1; end <= len' && Agree(s, t, off, end)
    ensures DecValue(t, len', vt, argc, off) == DecValue(s, len, vt, argc, off)
    decreases len - off, 1, 0
  {
    hide UnLE, Agree, DecNums, DecText, DecTexts, DecItems;
    if HasArrayBit(vt) {
      var et := vt - VT_ARRAY;
      if et == VT_BSTR {
        TextsLocal(s, t, len, len', argc, off);
      } else if et == VT_VARIANT {
        ItemsLocal(s, t, len, len', argc, off, false);
      } else {
        NumsLocal(s, t, len, len', argc, ElemSize(et), off);
        NumsReadExactly(s, len, argc, ElemSize(et), off);
      }
    } else if vt == VT_BSTR {
      TextLocal(s, t, len, len', off);
    } else {
      AgreeOnly(s, t, off, off + ScalarSize(vt));
    }
  }

  lemma {:induction false} ItemLocal(s: seq<Byte>, t: seq<Byte>, len: nat, len': nat, off: nat, top: bool)
    requires off <= len <= |s| && off <= len' <= |t|
    requires DecItem(s, len, off, top).Ok?
    requires var end := DecItem(s, len, off, top).value.1; end <= len' && Agree(s, t, off, end)
    ensures DecItem(t, len', off, top) == DecItem(s, len, off, top)
    decreases len - off, 0, 0
  {
    hide UnLE, Agree, DecValue;
    var o, end := if top then off + 4 else off, DecItem(s, len, off, top).value.1;
    AgreePart(s, t, off, end, o, o + 2);
    AgreePart(s, t, off, end, o + 2, o + 6);
    AgreeOnly(s, t, o, o + 2);
    AgreeOnly(s, t, o + 2, o + 6);
    AgreePart(s, t, off, end, o + 6, end);
    ValueLocal(s, t, len, len', UnLE(s[o..o + 2]), UnLE(s[o + 2..o + 6]), o + 6);
  }

  /** Decoding depends on nothing but the bytes it consumes: any other buffer that has the same
      bytes there, with any other bytes around them and any other end, decodes to the same
      values. */
  lemma {:induction false} ItemsLocal(s: seq<Byte>, t: seq<Byte>, len: nat, len': nat, n: nat, off: nat, top: bool)
    requires off <= len <= |s| && len' <= |t|
    requires DecItems(s, len, n, off, top).Ok?
    requires var end := DecItems(s, len, n, off, top).value.1; end <= len' && Agree(s, t, off, end)
    ensures DecItems(t, len', n, off, top) == DecItems(s, len, n, off, top)
    decreases len - off, 0, n + 1
  {
    hide Agree, DecItem;
    if n > 0 {
      var o, end := DecItems(s, len, n - 1, off, top).value.1, DecItems(s, len, n, off, top).value.1;
      AgreePart(s, t, off, end, off, o);
      AgreePart(s, t, off, end, o, end);
      ItemsLocal(s, t, len, len', n - 1, off, top);
      ItemLocal(s, t, len, len', o, top);
    }
  }
}
