/** The b-CAP decoder as it runs (library/src/bcap_common.c): loops that move an offset through the
    frame, proved to compute what BcapCodec says decoding is.  Every byte read lies inside the
    frame and every loop and recursion ends, for arbitrary input bytes. */
module BcapReader {
  import opened Bytes
  import opened Common
  import opened BcapCodec
  import BcapCrc

  /** memcpy_le. */
  method GetLE(src: seq<Byte>, off: nat, n: nat) returns (v: nat)
    requires off + n <= |src|
    ensures v == UnLE(src[off..off + n])
  {
    v := 0;
    var i := n;
    assert src[off + n..off + n] == [];
    while i > 0
      invariant 0 <= i <= n
      invariant v == UnLE(src[off + i..off + n])
    {
      i := i - 1;
      assert src[off + i..off + n][1..] == src[off + i + 1..off + n];
      v := src[off + i] + 256 * v;
    }
  }

  /** The element loops. */
  method ReadNums(src: seq<Byte>, len: nat, n: nat, size: nat, off: nat) returns (r: Result<(seq<nat>, nat), Error>)
    requires off <= len <= |src|
    ensures r == DecNums(src, len, n, size, off)
  {
    hide UnLE;
    var vals: seq<nat>, o := [], off;
    var i := 0;
    while i < n
      invariant 0 <= i <= n && off <= o <= len
      invariant DecNums(src, len, i, size, off) == Ok((vals, o))
    {
      if o + size > len {
        NumsStop(src, len, i + 1, n, size, off);
        return Err(InvalidPacket);
      }
      var v := GetLE(src, o, size);
      vals, o := vals + [v], o + size;
      i := i + 1;
    }
    return Ok((vals, o));
  }

  lemma {:induction false} NumsStop(src: seq<Byte>, len: nat, i: nat, n: nat, size: nat, off: nat)
    requires off <= len <= |src| && i <= n && DecNums(src, len, i, size, off).Err?
    ensures DecNums(src, len, n, size, off) == DecNums(src, len, i, size, off)
  {
    if i < n { NumsStop(src, len, i, n - 1, size, off); }
  }

  /** The text of a string, character by character into the buffer that SysAllocStringLen allocates.  It
      stops where the source would write over the end of it. */
  method ReadText(src: seq<Byte>, len: nat, off: nat) returns (r: Result<(Text, nat), Error>)
    requires off <= len <= |src|
    ensures r == DecText(src, len, off)
  {
    hide UnLE, DecNums, Overruns, Holds;
    if off + 4 > len {
      return Err(InvalidPacket);
    }
    var field := GetLE(src, off, 4);
    var n := field / 2;
    var bstr := new Byte[AllocBytes(n)](i => 0);
    var chars: seq<nat>, o := [], off + 4;
    var i := 0;
    NothingRead(src, len, off + 4, bstr[..]);
    while i < n
      invariant 0 <= i <= n && o == off + 4 + 2 * i <= len && (i > 0 ==> WCHAR * (i - 1) + 2 <= bstr.Length)
      invariant DecNums(src, len, i, 2, off + 4) == Ok((chars, o))
      invariant Holds(bstr[..], chars) && |chars| == i
    {
      if o + 2 > len {
        NumsReadExactly(src, len, n, 2, off + 4);
        NoOverrun(n, (len - off - 4) / 2, i);
        return Err(InvalidPacket);
      }
      if WCHAR * i + 2 > bstr.Length {
        OverrunAt(n, (len - off - 4) / 2, i);
        return Err(Overrun);
      }
      var c := GetLE(src, o, 2);
      ReadOneMore(src, len, i, off + 4, chars, o);
      HoldsOneMore(bstr[..], chars, src, o);
      bstr[WCHAR * i], bstr[WCHAR * i + 1] := src[o], src[o + 1];
      chars, o := chars + [c], o + 2;
      i := i + 1;
    }
    NoOverrun(n, (len - off - 4) / 2, n);
    return Ok((Text(chars), o));
  }

  /** The buffer begins with these characters, each in the first two bytes of its place. */
  predicate Holds(buf: seq<Byte>, chars: seq<nat>) {
    && WCHAR * |chars| <= |buf| + 2
    && forall k :: 0 <= k < |chars| ==> buf[WCHAR * k] + 256 * (buf[WCHAR * k + 1] as int) == chars[k]
  }

  lemma NothingRead(src: seq<Byte>, len: nat, off: nat, buf: seq<Byte>)
    requires off <= len <= |src|
    ensures DecNums(src, len, 0, 2, off) == Ok(([], off)) && Holds(buf, [])
  {
  }

  lemma ReadOneMore(src: seq<Byte>, len: nat, i: nat, off: nat, chars: seq<nat>, o: nat)
    requires off <= len <= |src| && DecNums(src, len, i, 2, off) == Ok((chars, o)) && o + 2 <= len
    ensures DecNums(src, len, i + 1, 2, off) == Ok((chars + [UnLE(src[o..o + 2])], o + 2))
  {
  }

  lemma HoldsOneMore(buf: seq<Byte>, chars: seq<nat>, src: seq<Byte>, o: nat)
    requires Holds(buf, chars) && o + 2 <= |src| && WCHAR * |chars| + 2 <= |buf|
    ensures var i := WCHAR * |chars|;
            Holds(buf[i := src[o]][i + 1 := src[o + 1]], chars + [UnLE(src[o..o + 2])])
  {
    assert src[o..o + 2][1..] == [src[o + 1]];
    assert UnLE([src[o + 1]]) == src[o + 1] + 256 * UnLE([]);
  }

  lemma NoOverrun(n: nat, inFrame: nat, i: nat)
    requires i == (if n < inFrame then n else inFrame) && (i > 0 ==> WCHAR * (i - 1) + 2 <= AllocBytes(n))
    ensures !Overruns(n, inFrame)
  {
  }

  lemma OverrunAt(n: nat, inFrame: nat, i: nat)
    requires i < n && i < inFrame && WCHAR * i + 2 > AllocBytes(n)
    ensures Overruns(n, inFrame)
  {
  }

  method ReadTexts(src: seq<Byte>, len: nat, n: nat, off: nat) returns (r: Result<(seq<Text>, nat), Error>)
    requires off <= len <= |src|
    ensures r == DecTexts(src, len, n, off)
  {
    hide DecText;
    var texts: seq<Text>, o := [], off;
    var i := 0;
    while i < n
      invariant 0 <= i <= n && off <= o <= len
      invariant DecTexts(src, len, i, off) == Ok((texts, o))
    {
      var t := ReadText(src, len, o);
      if t.Err? {
        TextsStop(src, len, i + 1, n, off);
        return Err(t.error);
      }
      texts, o := texts + [t.value.0], t.value.1;
      i := i + 1;
    }
    return Ok((texts, o));
  }

  lemma {:induction false} TextsStop(src: seq<Byte>, len: nat, i: nat, n: nat, off: nat)
    requires off <= len <= |src| && i <= n && DecTexts(src, len, i, off).Err?
    ensures DecTexts(src, len, n, off) == DecTexts(src, len, i, off)
  {
    hide DecText;
    if i < n { TextsStop(src, len, i, n - 1, off); }
  }

  /** bcap_bytary2vnt. */
  method BytAry2Vnt(src: seq<Byte>, len: nat, vt: nat, argc: nat, off: nat) returns (r: Result<(Variant, nat), Error>)
    requires off <= len <= |src|
    ensures r == DecValue(src, len, vt, argc, off)
    decreases len - off, 1
  {
    hide UnLE, DecNums, DecText, DecTexts, DecItems;
    if HasArrayBit(vt) {
      var et := vt - VT_ARRAY;
      if argc > 0 && !Creatable(et) {
        return Err(OutOfMemory);
      }
      if et == VT_BSTR {
        var texts := ReadTexts(src, len, argc, off);
        match texts {
          case Err(e) => return Err(e);
          case Ok((ts, o)) => return Ok((StrArray(1, ts), o));
        }
      } else if et == VT_VARIANT {
        var elems := BytAry2VntAry(src, len, argc, off, false);
        match elems {
          case Err(e) => return Err(e);
          case Ok((vs, o)) => return Ok((VarArray(1, vs), o));
        }
      } else {
        if et == VT_UI1 && off + argc > len {
          return Err(InvalidArg);
        }
        var nums := ReadNums(src, len, argc, ElemSize(et), off);
        match nums {
          case Err(e) => return Err(e);
          case Ok((vals, o)) => return Ok((NumArray(et, 1, vals), o));
        }
      }
    } else if vt == VT_BSTR {
      var text := ReadText(src, len, off);
      match text {
        case Err(e) => return Err(e);
        case Ok((t, o)) => return Ok((Str(t), o));
      }
    } else {
      var size := ScalarSize(vt);
      if off + size > len {
        return Err(InvalidPacket);
      }
      var val := GetLE(src, off, size);
      return Ok((Scalar(vt, val), off + size));
    }
  }

  /** bcap_bytary2vntary. */
  method BytAry2VntAry(src: seq<Byte>, len: nat, argc: nat, off: nat, top: bool)
    returns (r: Result<(seq<Variant>, nat), Error>)
    requires off <= len <= |src|
    ensures r == DecItems(src, len, argc, off, top)
    decreases len - off, 0
  {
    hide UnLE, DecValue;
    var vs: seq<Variant>, offset := [], off;
    var i := 0;
    while i < argc
      invariant 0 <= i <= argc && off <= offset <= len
      invariant DecItems(src, len, i, off, top) == Ok((vs, offset))
    {
      var o := if top then offset + 4 else offset;
      ghost var item := DecItem(src, len, offset, top);
      if o + 2 > len || o + 6 > len {
        ItemsStop(src, len, i + 1, argc, off, top);
        return Err(InvalidPacket);
      }
      var vt := GetLE(src, o, 2);
      var cnt := GetLE(src, o + 2, 4);
      var v := BytAry2Vnt(src, len, vt, cnt, o + 6);
      assert item == v;
      if v.Err? {
        ItemsStop(src, len, i + 1, argc, off, top);
        return Err(v.error);
      }
      vs, offset := vs + [v.value.0], v.value.1;
      i := i + 1;
    }
    return Ok((vs, offset));
  }

  lemma {:induction false} ItemsStop(src: seq<Byte>, len: nat, i: nat, n: nat, off: nat, top: bool)
    requires off <= len <= |src| && i <= n && DecItems(src, len, i, off, top).Err?
    ensures DecItems(src, len, n, off, top) == DecItems(src, len, i, off, top)
  {
    hide DecItem;
    if i < n { ItemsStop(src, len, i, n - 1, off, top); }
  }

  /** bcap_bytary2packet.  A caller either has room for a fixed number of arguments or lets them be
      allocated, which is room for as many as the 16-bit count can say. */
  method BytAry2Packet(src: seq<Byte>, room: nat) returns (r: Result<Packet, Error>)
    ensures r == DecPacket(src, room)
  {
    hide UnLE, DecItems;
    if |src| < SIZE_MIN {
      return Err(InvalidPacket);
    }
    var size := GetLE(src, 1, 4);
    if size != |src| {
      return Err(InvalidPacket);
    }
    if src[0] != HEADER || src[|src| - 1] != TERMINATOR {
      return Err(InvalidPacket);
    }
    var serial := GetLE(src, 5, 2);
    var reserv := GetLE(src, 7, 2);
    var id := GetLE(src, 9, 4);
    var argc := GetLE(src, 13, 2);
    if argc > room {
      return Err(InvalidPacket);
    }
    var args := BytAry2VntAry(src, |src| - 1, argc, POS_ARGS, true);
    match args {
      case Err(e) => return Err(e);
      case Ok((vs, _)) => return Ok(Packet(serial, reserv, Signed(id), vs));
    }
  }

  /** What the end of bcap_recv does with a frame from a serial line: the packet is decoded first, which
      sets the room in it to the number of its arguments, then the check field is compared; after a
      mismatch the receiver tries again with that room. */
  datatype SerialOutcome = Failed(error: Error) | Discarded(room: nat) | Delivered(packet: Packet)

  function Taken(src: seq<Byte>, room: nat): SerialOutcome
    requires |src| >= SIZE_MIN + 2
  {
    match DecPacket(src, room)
    case Err(e) => Failed(e)
    case Ok(p) =>
      if BcapCrc.Accepts(src[1..|src| - 3], src[|src| - 3..|src| - 1]) then Delivered(p)
      else Discarded(|p.args|)
  }

  method TakeSerialFrame(src: seq<Byte>, room: nat) returns (r: SerialOutcome)
    requires |src| >= SIZE_MIN + 2
    ensures r == Taken(src, room)
  {
    hide DecPacket, BcapCrc.Crc, BcapCrc.WordOf;
    var p := BytAry2Packet(src, room);
    if p.Err? {
      return Failed(p.error);
    }
    var crc := BcapCrc.CalcCrc(src[1..|src| - 3]);
    if crc == BcapCrc.WordOf(src[|src| - 3..|src| - 1]) {
      return Delivered(p.value);
    }
    return Discarded(|p.value.args|);
  }
}
