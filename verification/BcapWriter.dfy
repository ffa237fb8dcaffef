/** The b-CAP encoder in place (library/src/bcap_common.c): sizes are computed first, then a buffer
    of that size is filled through an offset that moves with every field.  The two are separate
    recursions in the source; here both are proved against the layout of BcapCodec, so they
    agree. */
module BcapWriter {
  import opened Bytes
  import opened Common
  import opened BcapCodec
  import BcapCrc

  // ---------- sizes ----------

  /** bcap_calc_size_variant. */
  method CalcSizeVariant(v: Variant) returns (ret: nat)
    ensures ret == |EncValue(v)|
    decreases v
  {
    hide LE, Wcslen, EncNums, EncText;
    ret := 0;
    match v {
      case Scalar(vt, _) =>
        ret := if vt == VT_UI1 then 1
        else if vt == VT_I2 || vt == VT_UI2 || vt == VT_BOOL then 2
        else if vt == VT_I4 || vt == VT_UI4 || vt == VT_R4 || vt == VT_ERROR then 4
        else if vt == VT_I8 || vt == VT_UI8 || vt == VT_R8 || vt == VT_CY || vt == VT_DATE then 8
        else 0;
      case Str(text) =>
        ret := 4;
        if text.Text? {
          ret := ret + 2 * StringLen(text);
        }
      case NumArray(et, _, vals) =>
        ret := if et == VT_UI1 then |vals|
        else if et == VT_I2 || et == VT_UI2 || et == VT_BOOL then |vals| * 2
        else if et == VT_I4 || et == VT_UI4 || et == VT_R4 then |vals| * 4
        else if et == VT_I8 || et == VT_UI8 || et == VT_R8 || et == VT_CY || et == VT_DATE then |vals| * 8
        else 0;
      case StrArray(_, texts) =>
        var i := 0;
        while i < |texts|
          invariant 0 <= i <= |texts|
          invariant ret == |EncTexts(texts[..i])|
        {
          assert texts[..i + 1][..i] == texts[..i];
          ret := ret + 4;
          if texts[i].Text? {
            ret := ret + 2 * StringLen(texts[i]);
          }
          i := i + 1;
        }
        assert texts[..i] == texts;
      case VarArray(_, elems) =>
        var i := 0;
        while i < |elems|
          invariant 0 <= i <= |elems|
          invariant ret == |EncItems(elems[..i], false)|
        {
          assert elems[..i + 1][..i] == elems[..i];
          var size := CalcSizeVariant(elems[i]);
          ret := ret + 2 + 4 + size;
          i := i + 1;
        }
        assert elems[..i] == elems;
      case NullArray(_) =>
    }
  }

  /** bcap_calc_size_packet computes the size of the frame. */
  method CalcSizePacket(p: Packet) returns (ret: nat)
    ensures ret == PacketSize(p)
  {
    hide LE, EncValue;
    ret := SIZE_MIN;
    var i := 0;
    while i < |p.args|
      invariant 0 <= i <= |p.args|
      invariant ret == SIZE_MIN + |EncItems(p.args[..i], true)|
    {
      assert p.args[..i + 1][..i] == p.args[..i];
      var size := CalcSizeVariant(p.args[i]);
      ret := ret + 4 + 2 + 4 + size;
      i := i + 1;
    }
    assert p.args[..i] == p.args;
  }

  // ---------- writing ----------

  /** `s` was written at `off`, and nothing else. */
  ghost predicate Wrote(before: seq<Byte>, after: seq<Byte>, off: nat, s: seq<Byte>) {
    off + |s| <= |before| && after == before[..off] + s + before[off + |s|..]
  }

  /** Nothing was written outside the room from `off` to `len`. */
  ghost predicate Kept(before: seq<Byte>, after: seq<Byte>, off: nat, len: nat) {
    off <= len <= |before| == |after| && after[..off] == before[..off] && after[len..] == before[len..]
  }

  /** Writing `s` from `off` on succeeds exactly if the value can be encoded at all and `s` fits
      before `len`; a failed write has stayed in its room. */
  ghost predicate Outcome(before: seq<Byte>, after: seq<Byte>, len: nat, off: nat, s: seq<Byte>,
                          can: bool, ok: bool, end: nat) {
    && (ok <==> can && off + |s| <= len)
    && (ok ==> end == off + |s| && Wrote(before, after, off, s))
    && (!ok ==> Kept(before, after, off, len))
  }

  lemma WroteMore(a: seq<Byte>, b: seq<Byte>, c: seq<Byte>, off: nat, s: seq<Byte>, t: seq<Byte>)
    requires Wrote(a, b, off, s) && Wrote(b, c, off + |s|, t)
    ensures Wrote(a, c, off, s + t)
  {
  }

  lemma WroteKept(a: seq<Byte>, b: seq<Byte>, off: nat, s: seq<Byte>, len: nat)
    requires Wrote(a, b, off, s) && off + |s| <= len <= |a|
    ensures Kept(a, b, off, len)
  {
  }

  lemma KeptMore(a: seq<Byte>, b: seq<Byte>, c: seq<Byte>, off: nat, o: nat, len: nat)
    requires Kept(a, b, off, len) && Kept(b, c, o, len) && off <= o
    ensures Kept(a, c, off, len)
  {
    assert b[..o][..off] == b[..off] && c[..o][..off] == c[..off];
  }

  /** After `s` was written, the outcome of writing `t` behind it is the outcome of writing both. */
  lemma Continue(a: seq<Byte>, b: seq<Byte>, c: seq<Byte>, len: nat, off: nat, s: seq<Byte>, t: seq<Byte>,
                 can: bool, ok: bool, end: nat)
    requires Wrote(a, b, off, s) && off + |s| <= len <= |a|
    requires Outcome(b, c, len, off + |s|, t, can, ok, end)
    ensures Outcome(a, c, len, off, s + t, can, ok, end)
  {
    if ok {
      WroteMore(a, b, c, off, s, t);
    } else {
      WroteKept(a, b, off, s, len);
      KeptMore(a, b, c, off, off + |s|, len);
    }
  }

  lemma NothingWrote(a: seq<Byte>, off: nat)
    requires off <= |a|
    ensures Wrote(a, a, off, [])
  {
  }

  /** memcpy_le. */
  method PutLE(dst: array<Byte>, off: nat, v: nat, n: nat)
    requires off + n <= dst.Length
    modifies dst
    ensures Wrote(old(dst[..]), dst[..], off, LE(v, n))
  {
    hide Wrote;
    ghost var before, s := dst[..], LE(v, n);
    var x, i := v, 0;
    NothingWrote(before, off);
    assert s[..0] == [];
    while i < n
      invariant 0 <= i <= n
      invariant s[i..] == LE(x, n - i)
      invariant Wrote(before, dst[..], off, s[..i])
    {
      ghost var mid := dst[..];
      assert s[i] == s[i..][0] == x % 256;
      dst[off + i] := x % 256;
      WroteMore(before, mid, dst[..], off, s[..i], [x % 256]);
      assert s[..i + 1] == s[..i] + [s[i]];
      assert s[i + 1..] == s[i..][1..];
      x := x / 256;
      i := i + 1;
    }
    assert s[..n] == s;
  }

  /** The element loops: each element is checked before it is written. */
  method WriteNums(vals: seq<nat>, size: nat, dst: array<Byte>, len: nat, off: nat) returns (ok: bool, end: nat)
    requires off <= len <= dst.Length
    modifies dst
    ensures Outcome(old(dst[..]), dst[..], len, off, EncNums(vals, size), true, ok, end)
  {
    hide LE, Kept, Wrote;
    ghost var before := dst[..];
    end := off;
    var i := 0;
    NothingWrote(before, off);
    while i < |vals|
      invariant 0 <= i <= |vals|
      invariant end == off + |EncNums(vals[..i], size)| <= len
      invariant Wrote(before, dst[..], off, EncNums(vals[..i], size))
    {
      ghost var s := EncNums(vals[..i], size);
      assert vals[..i + 1][..i] == vals[..i];
      if end + size > len {
        EncNumsGrows(vals, i + 1, size);
        WroteKept(before, dst[..], off, s, len);
        return false, end;
      }
      ghost var mid := dst[..];
      PutLE(dst, end, vals[i], size);
      WroteMore(before, mid, dst[..], off, s, LE(vals[i], size));
      end := end + size;
      i := i + 1;
    }
    assert vals[..i] == vals;
    ok := true;
  }

  lemma EncNumsGrows(vals: seq<nat>, i: nat, size: nat)
    requires i <= |vals|
    ensures |EncNums(vals[..i], size)| <= |EncNums(vals, size)|
  {
    hide EncNums;
    assert |vals[..i]| == i && i * size <= |vals| * size;
  }

  /** A string: its byte length, then its characters. */
  method WriteText(t: Text, dst: array<Byte>, len: nat, off: nat) returns (ok: bool, end: nat)
    requires off <= len <= dst.Length
    modifies dst
    ensures Outcome(old(dst[..]), dst[..], len, off, EncText(t), true, ok, end)
  {
    hide LE, EncNums, Wcslen;
    if off + 4 > len {
      return false, off;
    }
    ghost var before := dst[..];
    var n := StringLen(t);
    var chars := if t.Text? then t.chars[..n] else [];
    PutLE(dst, off, 2 * n, 4);
    ghost var mid := dst[..];
    ok, end := WriteNums(chars, 2, dst, len, off + 4);
    Continue(before, mid, dst[..], len, off, LE(2 * n, 4), EncNums(chars, 2), true, ok, end);
  }

  method WriteTexts(texts: seq<Text>, dst: array<Byte>, len: nat, off: nat) returns (ok: bool, end: nat)
    requires off <= len <= dst.Length
    modifies dst
    ensures Outcome(old(dst[..]), dst[..], len, off, EncTexts(texts), true, ok, end)
  {
    hide EncText, Kept, Wrote;
    ghost var before := dst[..];
    end := off;
    var i := 0;
    NothingWrote(before, off);
    while i < |texts|
      invariant 0 <= i <= |texts|
      invariant end == off + |EncTexts(texts[..i])| <= len
      invariant Wrote(before, dst[..], off, EncTexts(texts[..i]))
    {
      ghost var s, mid := EncTexts(texts[..i]), dst[..];
      assert texts[..i + 1][..i] == texts[..i];
      ok, end := WriteText(texts[i], dst, len, end);
      Continue(before, mid, dst[..], len, off, s, EncText(texts[i]), true, ok, end);
      EncTextsGrows(texts, i + 1);
      if !ok {
        return;
      }
      i := i + 1;
    }
    assert texts[..i] == texts;
    ok := true;
  }

  lemma {:induction false} EncTextsGrows(texts: seq<Text>, i: nat)
    requires i <= |texts|
    ensures |EncTexts(texts[..i])| <= |EncTexts(texts)|
    decreases |texts|
  {
    if i == |texts| {
      assert texts[..i] == texts;
    } else {
      var n := |texts| - 1;
      EncTextsGrows(texts[..n], i);
      assert texts[..n][..i] == texts[..i];
    }
  }

  /** bcap_vnt2bytary: the value without type word and count. */
  method Vnt2BytAry(v: Variant, dst: array<Byte>, len: nat, off: nat) returns (ok: bool, end: nat)
    requires off <= len <= dst.Length
    modifies dst
    ensures Outcome(old(dst[..]), dst[..], len, off, EncValue(v), Encodable(v) || v.NullArray?, ok, end)
    decreases v, 0
  {
    hide LE, EncNums, EncText, EncTexts, EncItems, AllEncodable;
    ok, end := true, off;
    match v {
      case Scalar(vt, val) =>
        var size := ScalarSize(vt);
        if size > 0 {
          if off + size > len {
            return false, off;
          }
          PutLE(dst, off, val, size);
          end := off + size;
        }
      case Str(text) => ok, end := WriteText(text, dst, len, off);
      case NumArray(et, _, vals) =>
        if et == VT_UI1 {
          if off + |vals| > len {
            return false, off;
          }
        }
        ok, end := WriteNums(vals, ElemSize(et), dst, len, off);
      case StrArray(_, texts) => ok, end := WriteTexts(texts, dst, len, off);
      case VarArray(_, elems) => ok, end := VntAry2BytAry(elems, false, dst, len, off);
      case NullArray(_) =>
    }
  }

  lemma WroteBehind(a: seq<Byte>, b: seq<Byte>, c: seq<Byte>, off: nat, head: seq<Byte>, s: seq<Byte>)
    requires Wrote(a, b, off + |head|, s) && Wrote(b, c, off, head)
    ensures Wrote(a, c, off, head + s)
  {
    assert b[off + |head|..] == s + a[off + |head| + |s|..];
    assert b[..off] == a[..off];
  }

  /** One round of the loop of bcap_vntary2bytary.  The length in front of an argument is known,
      and written, only when the argument stands. */
  method WriteItem(v: Variant, top: bool, dst: array<Byte>, len: nat, off: nat) returns (ok: bool, end: nat)
    requires off <= len <= dst.Length
    modifies dst
    ensures Outcome(old(dst[..]), dst[..], len, off, EncItem(v, top), Encodable(v), ok, end)
    decreases v, 1
  {
    hide LE, EncValue, Encodable, Kept, Wrote, Count, Tag;
    ghost var before := dst[..];
    ghost var tag, count, value := LE(Tag(v), 2), LE(Count(v), 4), EncValue(v);
    var start := if top then off + 4 else off;
    NothingKept(before, off, len);
    if start + 2 > len {
      return false, off;
    }
    PutLE(dst, start, Tag(v), 2);
    ghost var b1 := dst[..];
    if v.NullArray? || start + 6 > len {
      NullNotEncodable(v);
      WroteInRoom(before, b1, off, start, tag, len);
      return false, off;
    }
    PutLE(dst, start + 2, Count(v), 4);
    ghost var b2 := dst[..];
    WroteMore(before, b1, b2, start, tag, count);
    ok, end := Vnt2BytAry(v, dst, len, start + 6);
    ghost var b3 := dst[..];
    Continue(before, b2, b3, len, start, tag + count, value, Encodable(v) || v.NullArray?, ok, end);
    if !ok {
      KeptMore(before, before, b3, off, start, len);
      return;
    }
    if top {
      PutLE(dst, off, end - off - 4, 4);
      WroteBehind(before, b3, dst[..], off, LE(end - off - 4, 4), tag + count + value);
    } else {
      assert [] + (tag + count + value) == tag + count + value;
    }
  }

  lemma NothingKept(a: seq<Byte>, off: nat, len: nat)
    requires off <= len <= |a|
    ensures Kept(a, a, off, len)
  {
  }

  lemma WroteInRoom(a: seq<Byte>, b: seq<Byte>, off: nat, start: nat, s: seq<Byte>, len: nat)
    requires Wrote(a, b, start, s) && off <= start && start + |s| <= len <= |a|
    ensures Kept(a, b, off, len)
  {
    WroteKept(a, b, start, s, len);
    NothingKept(a, off, len);
    KeptMore(a, a, b, off, start, len);
  }

  lemma NullNotEncodable(v: Variant)
    ensures v.NullArray? ==> !Encodable(v)
  {
  }

  /** bcap_vntary2bytary. */
  method VntAry2BytAry(src: seq<Variant>, top: bool, dst: array<Byte>, len: nat, off: nat)
    returns (ok: bool, end: nat)
    requires off <= len <= dst.Length
    modifies dst
    ensures Outcome(old(dst[..]), dst[..], len, off, EncItems(src, top), AllEncodable(src), ok, end)
    decreases src, 0
  {
    hide EncItem, Encodable, Kept, Wrote;
    ghost var before := dst[..];
    end := off;
    var i := 0;
    NothingWrote(before, off);
    while i < |src|
      invariant 0 <= i <= |src|
      invariant AllEncodable(src[..i])
      invariant end == off + |EncItems(src[..i], top)| <= len
      invariant Wrote(before, dst[..], off, EncItems(src[..i], top))
    {
      ghost var s, mid := EncItems(src[..i], top), dst[..];
      assert src[..i + 1][..i] == src[..i];
      assert EncItems(src[..i + 1], top) == s + EncItem(src[i], top);
      ok, end := WriteItem(src[i], top, dst, len, end);
      Continue(before, mid, dst[..], len, off, s, EncItem(src[i], top), Encodable(src[i]), ok, end);
      ItemsGrow(src, i + 1, top);
      if !ok {
        return;
      }
      i := i + 1;
    }
    assert src[..i] == src;
    ok := true;
  }

  lemma {:induction false} ItemsGrow(vs: seq<Variant>, i: nat, top: bool)
    requires i <= |vs|
    ensures |EncItems(vs[..i], top)| <= |EncItems(vs, top)|
    ensures AllEncodable(vs) ==> AllEncodable(vs[..i])
    decreases |vs|
  {
    hide EncItem, Encodable;
    if i == |vs| {
      assert vs[..i] == vs;
    } else {
      var n := |vs| - 1;
      ItemsGrow(vs[..n], i, top);
      assert vs[..n][..i] == vs[..i];
    }
  }

  // ---------- packets ----------

  /** The fields in front of the arguments, one after the other. */
  method WriteHead(p: Packet, dst: array<Byte>, len: nat)
    requires POS_ARGS <= dst.Length
    modifies dst
    ensures Wrote(old(dst[..]), dst[..], 0, Head(p, len))
  {
    hide LE, Wrote;
    ghost var b0 := dst[..];
    dst[0] := HEADER;
    ghost var b1, s1 := dst[..], [HEADER];
    PutLE(dst, 1, len, 4);
    ghost var b2, s2 := dst[..], s1 + LE(len, 4);
    WroteMore(b0, b1, b2, 0, s1, LE(len, 4));
    PutLE(dst, 5, p.serial, 2);
    ghost var b3, s3 := dst[..], s2 + LE(p.serial, 2);
    WroteMore(b0, b2, b3, 0, s2, LE(p.serial, 2));
    PutLE(dst, 7, p.reserv, 2);
    ghost var b4, s4 := dst[..], s3 + LE(p.reserv, 2);
    WroteMore(b0, b3, b4, 0, s3, LE(p.reserv, 2));
    PutLE(dst, 9, Unsigned(p.id), 4);
    ghost var b5, s5 := dst[..], s4 + LE(Unsigned(p.id), 4);
    WroteMore(b0, b4, b5, 0, s4, LE(Unsigned(p.id), 4));
    PutLE(dst, 13, |p.args|, 2);
    WroteMore(b0, b5, dst[..], 0, s5, LE(|p.args|, 2));
  }

  /** bcap_packet2bytary: the buffer is cleared, the header fields and the arguments are written one
      after the other, and the last byte becomes the terminator.  It succeeds exactly if every
      argument can be encoded and the frame fits; then the buffer holds the frame and nothing
      behind it was touched. */
  method Packet2BytAry(p: Packet, dst: array<Byte>, len: nat) returns (ok: bool)
    requires len <= dst.Length
    modifies dst
    ensures ok <==> AllEncodable(p.args) && PacketSize(p) <= len
    ensures ok ==> dst[..len] == FrameOf(p, len)
    ensures dst[len..] == old(dst[len..])
  {
    hide LE, EncItems, AllEncodable, Kept, Wrote;
    if len < SIZE_MIN {
      return false;
    }
    ghost var tail := dst[len..];
    forall i | 0 <= i < len {
      dst[i] := 0;
    }
    ghost var b0 := dst[..];
    assert b0 == Zeros(len) + tail;
    WriteHead(p, dst, len);
    ghost var b6 := dst[..];
    var end;
    ok, end := VntAry2BytAry(p.args, true, dst, len - 1, POS_ARGS);
    ghost var b7 := dst[..];
    dst[len - 1] := TERMINATOR;
    if ok {
      WroteMore(b0, b6, b7, 0, Head(p, len), EncItems(p.args, true));
    } else {
      WroteTail(b0, b6, 0, Head(p, len), len);
      KeptTail(b6, b7, POS_ARGS, len - 1, len);
    }
    assert dst[len..] == b7[len..];
  }

  lemma WroteTail(a: seq<Byte>, b: seq<Byte>, off: nat, s: seq<Byte>, len: nat)
    requires Wrote(a, b, off, s) && off + |s| <= len <= |a|
    ensures |b| == |a| && b[len..] == a[len..]
  {
  }

  lemma KeptTail(a: seq<Byte>, b: seq<Byte>, off: nat, end: nat, len: nat)
    requires Kept(a, b, off, end) && end <= len <= |a|
    ensures |b| == |a| && b[len..] == a[len..]
  {
    assert a[len..] == a[end..][len - end..];
    assert b[len..] == b[end..][len - end..];
  }

  // ---------- sending ----------

  const UDP_MAX_PACKET := 503

  /** The size of what is sent: serial lines add a check field. */
  function WireSize(kind: Connection, p: Packet): nat {
    PacketSize(p) + if kind.Com? then 2 else 0
  }

  /** What is sent on a serial line: the check field, over everything between the header and
      itself, stands before the terminator. */
  function SerialFrame(p: Packet): (s: seq<Byte>)
    ensures |s| == PacketSize(p) + 2
  {
    var body := Head(p, PacketSize(p) + 2) + EncItems(p.args, true);
    body + BcapCrc.FieldOf(BcapCrc.Crc(body[1..])) + [TERMINATOR]
  }

  /** The bytes handed to the device, or why there are none. */
  function Outgoing(kind: Connection, p: Packet): Result<seq<Byte>, Error> {
    if !kind.Tcp? && WireSize(kind, p) > UDP_MAX_PACKET then Err(TooMuchData)
    else if !AllEncodable(p.args) then Err(InvalidArg)
    else if kind.Com? then Ok(SerialFrame(p))
    else Ok(FrameOf(p, PacketSize(p)))
  }

  /** bcap_send up to the device. */
  method Send(kind: Connection, p: Packet) returns (r: Result<seq<Byte>, Error>)
    ensures r == Outgoing(kind, p)
  {
    hide LE, EncItems, AllEncodable, Head, BcapCrc.Crc, BcapCrc.FieldOf;
    var len := CalcSizePacket(p);
    if kind.Com? {
      len := len + 2;
    }
    if !kind.Tcp? && len > UDP_MAX_PACKET {
      return Err(TooMuchData);
    }
    var buf := new Byte[len];
    var ok := Packet2BytAry(p, buf, len);
    if !ok {
      return Err(InvalidArg);
    }
    assert buf[..len] == buf[..];
    if kind.Com? {
      var crc := BcapCrc.CalcCrc(buf[1..len - 3]);
      var field := BcapCrc.FieldOf(crc);
      ghost var body := Head(p, len) + EncItems(p.args, true);
      assert FrameOf(p, len) == body + Zeros(2) + [TERMINATOR];
      assert buf[1..len - 3] == body[1..];
      buf[len - 3] := field[0];
      buf[len - 2] := field[1];
      assert buf[..] == body + field + [TERMINATOR];
    }
    return Ok(buf[..]);
  }

  /** A value holds an array without a SAFEARRAY, at any depth. */
  predicate Broken(v: Variant)
    decreases v
  {
    v.NullArray? || (v.VarArray? && exists k :: 0 <= k < |v.elems| && Broken(v.elems[k]))
  }

  lemma {:induction false} BrokenExactly(v: Variant)
    ensures Encodable(v) <==> !Broken(v)
    decreases v, 0
  {
    if v.VarArray? { AllBrokenExactly(v.elems); }
  }

  lemma {:induction false} AllBrokenExactly(vs: seq<Variant>)
    ensures AllEncodable(vs) <==> forall k :: 0 <= k < |vs| ==> !Broken(vs[k])
    decreases vs, 0
  {
    if vs != [] {
      var n := |vs| - 1;
      AllBrokenExactly(vs[..n]);
      BrokenExactly(vs[n]);
      assert forall k :: 0 <= k < n ==> vs[..n][k] == vs[k];
    }
  }

  /** What is sent, and why nothing is: more than 503 bytes on UDP and serial lines, or an argument that holds an
      array without a SAFEARRAY; a frame on a serial line is two bytes longer. */
  lemma OutgoingExactly(kind: Connection, p: Packet)
    ensures var size := 16 + |EncItems(p.args, true)| + (if kind == Com then 2 else 0);
            var r := Outgoing(kind, p);
            && (kind != Tcp && size > 503 ==> r == Err(TooMuchData))
            && (kind == Tcp || size <= 503 ==>
                  && (r == Err(InvalidArg) <==> exists k :: 0 <= k < |p.args| && Broken(p.args[k]))
                  && (r.Ok? <==> forall k :: 0 <= k < |p.args| ==> !Broken(p.args[k]))
                  && (r.Ok? ==> |r.value| == size))
  {
    hide EncItems, Head, BcapCrc.Crc, BcapCrc.FieldOf, Broken, AllEncodable;
    AllBrokenExactly(p.args);
  }

  /** On every kind of connection a good packet is sent exactly if it is not too long for the kind, and
      what is sent is decoded to the same packet, up to array lower bounds and null strings; on a
      serial line the check passes. */
  lemma SentIsReceived(kind: Connection, p: Packet, room: nat)
    requires GoodPacket(p) && |p.args| <= room && WireSize(kind, p) < 0x1_0000_0000
    ensures Outgoing(kind, p).Ok? <==> kind.Tcp? || WireSize(kind, p) <= UDP_MAX_PACKET
    ensures Outgoing(kind, p).Ok? ==>
              var frame := Outgoing(kind, p).value;
              && |frame| == WireSize(kind, p)
              && DecPacket(frame, room) == Ok(p.(args := NormAll(p.args)))
              && (kind.Com? ==> BcapCrc.Accepts(frame[1..|frame| - 3], frame[|frame| - 3..|frame| - 1]))
  {
    hide LE, EncItems, Head, BcapCrc.Crc, BcapCrc.FieldOf, DecPacket, NormAll, BcapCrc.WordOf,
      AllGood, AllEncodable;
    AllGoodAreEncodable(p.args);
    if kind.Com? {
      var body := Head(p, PacketSize(p) + 2) + EncItems(p.args, true);
      var field := BcapCrc.FieldOf(BcapCrc.Crc(body[1..]));
      var frame := SerialFrame(p);
      PacketRoundTrip(p, field, room);
      assert frame == body + field + [TERMINATOR];
      assert frame[1..|frame| - 3] == body[1..];
      assert frame[|frame| - 3..|frame| - 1] == field;
      BcapCrc.FieldRoundTrip(BcapCrc.Crc(body[1..]));
    } else {
      FrameRoundTrip(p, PacketSize(p), room);
    }
  }
}
