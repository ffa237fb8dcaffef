/** The loops of ConvertVariant2RacStr and ConvertRacStr2Variant
    (library/src/RACString/rac_string.c), proved against Print and Parse. */
module RacConvert {
  import opened Common
  import opened RacText
  import opened RacNumber
  import opened RacString
  import opened RacRoundTrip

  // ---------- printing ----------

  /** SysAllocString, up to where it would write over the end of its buffer. */
  method SysAllocString(s: string) returns (r: Result<string, Error>)
    ensures r == Copied(s)
  {
    var cch := |s| % 0x1_0000;
    var bstr := new char[AllocBytes(cch) / WCHAR](i => NUL);
    if WCHAR * (cch + 1) > AllocBytes(cch) {
      return Err(Overrun);
    }
    var i := 0;
    while i < cch
      invariant 0 <= i <= cch < bstr.Length && bstr[..i] == s[..i]
    {
      bstr[i] := s[i];
      i := i + 1;
    }
    return Ok(bstr[..cch]);
  }

  /** ConvertVariant2RacStr, up to where a buffer is overrun or a null pointer used. */
  method ConvertVariant2RacStr(v: Value) returns (dest: Result<Option<string>, Error>)
    requires Proper(v)
    ensures dest == Printed(v)
    decreases v
  {
    hide Copied;
    match v
    case Num(_, n) =>
      dest := Ok(Some(Decimal(n)));
    case Text(s) =>
      CopiedExactly(s);
      var t := SysAllocString(s);
      dest := if t.Err? then Err(t.error) else Ok(Some(t.value));
      CopyIsOverrun(s);
    case Nums(_, ns) =>
      var t := PrintNums(ns);
      dest := Ok(t);
    case Texts(ss) =>
      var t := PrintTexts(ss);
      dest := Ok(t);
    case Vars(vs) =>
      dest := PrintItems(vs);
  }

  lemma CopyIsOverrun(s: string)
    ensures Copied(s).Err? ==> Copied(s) == Err(Overrun)
    ensures Copied(s).Ok? ==> Copied(s).value == s[..|s| % 0x1_0000]
  {
  }

  /** The part that prints an array of numbers. */
  method PrintNums(ns: seq<int>) returns (dest: Option<string>)
    ensures dest == if ns == [] then None else Some(Join(Decimals(ns)))
  {
    hide Join, Decimal;
    dest := None;
    var i := 0;
    while i < |ns|
      invariant 0 <= i <= |ns|
      invariant dest == if i == 0 then None else Some(Joined(Decimals(ns)[..i], |ns|))
    {
      JoinedNext(Decimals(ns), i);
      var before := if i == 0 then "" else dest.value;
      dest := Some(before + Decimal(ns[i]) + (if i == |ns| - 1 then "" else ","));
      i := i + 1;
    }
    assert Decimals(ns)[..i] == Decimals(ns);
    JoinedAll(Decimals(ns));
  }

  /** The part that prints an array of strings. */
  method PrintTexts(ss: seq<string>) returns (dest: Option<string>)
    ensures dest == if ss == [] then None else Some(Join(ss))
  {
    hide Join;
    dest := None;
    var i := 0;
    while i < |ss|
      invariant 0 <= i <= |ss|
      invariant dest == if i == 0 then None else Some(Joined(ss[..i], |ss|))
    {
      JoinedNext(ss, i);
      var before := if i == 0 then "" else dest.value;
      dest := Some(before + ss[i] + (if i == |ss| - 1 then "" else ","));
      i := i + 1;
    }
    assert ss[..i] == ss;
    JoinedAll(ss);
  }

  /** The part that prints an array of values. */
  method PrintItems(vs: seq<Value>) returns (dest: Result<Option<string>, Error>)
    requires AllProper(vs)
    ensures dest == if FaultAmong(vs).Some? then Err(FaultAmong(vs).value)
                    else Ok(if vs == [] then None else Some(Join(Items(vs))))
    decreases vs
  {
    hide Items, Item, Join, Digits, Proper, Fault, Print;
    var text := None;
    var i := 0;
    while i < |vs|
      invariant 0 <= i <= |vs|
      invariant FaultAmong(vs[..i]) == None
      invariant text == if i == 0 then None else Some(Joined(Items(vs)[..i], |vs|))
    {
      AllProperAt(vs, i);
      assert vs[..i + 1][..i] == vs[..i];
      var element := ConvertVariant2RacStr(vs[i]);
      if element.Err? {
        FaultStays(vs, i + 1);
        return Err(element.error);
      }
      if element.value.None? {
        FaultStays(vs, i + 1);
        return Err(NullPointer);
      }
      var number := Digits(TypeOf(vs[i])) + ",";
      ItemsAt(vs, i);
      ItemIs(vs[i]);
      JoinedNext(Items(vs), i);
      var before := if i == 0 then "" else text.value;
      text := Some(before + "(" + number + element.value.value + (if i == |vs| - 1 then ")" else "),"));
      assert text.value == before + Item(vs[i]) + (if i == |vs| - 1 then "" else ",");
      i := i + 1;
    }
    assert Items(vs)[..i] == Items(vs) && vs[..i] == vs;
    JoinedAll(Items(vs));
    return Ok(text);
  }

  lemma {:induction false} FaultStays(vs: seq<Value>, i: nat)
    requires i <= |vs| && FaultAmong(vs[..i]).Some?
    ensures FaultAmong(vs) == FaultAmong(vs[..i])
    decreases |vs|
  {
    hide Fault;
    if i < |vs| {
      var n := |vs| - 1;
      assert vs[..n][..i] == vs[..i];
      FaultStays(vs[..n], i);
    } else {
      assert vs[..i] == vs;
    }
  }

  lemma ItemIs(v: Value)
    ensures Item(v) == "(" + (Digits(TypeOf(v)) + ",") + Print(v) + ")"
  {
  }

  /** The text after the parts printed so far, of n in all. */
  ghost function Joined(parts: seq<string>, n: nat): string {
    if parts == [] then "" else Join(parts) + (if |parts| < n then "," else "")
  }

  lemma JoinedAll(parts: seq<string>)
    ensures parts != [] ==> Joined(parts, |parts|) == Join(parts)
  {
  }

  lemma JoinedNext(parts: seq<string>, i: nat)
    requires i < |parts|
    ensures Joined(parts[..i + 1], |parts|)
            == Joined(parts[..i], |parts|) + parts[i] + (if i == |parts| - 1 then "" else ",")
  {
    hide Join;
    assert parts[..i + 1] == parts[..i] + [parts[i]];
    if i == 0 {
      JoinOne(parts[0]);
      assert parts[..1] == [parts[0]];
    } else {
      JoinSnoc(parts[..i], parts[i]);
    }
  }

  // ---------- parsing ----------

  /** strlen. */
  method StrLen(buf: array<char>, pos: nat) returns (len: nat)
    requires pos < buf.Length && buf[buf.Length - 1] == NUL
    ensures pos + len < buf.Length && buf[pos + len] == NUL
    ensures forall k :: pos <= k < pos + len ==> buf[k] != NUL
  {
    len := 0;
    while buf[pos + len] != NUL
      invariant pos + len < buf.Length
      invariant forall k :: pos <= k < pos + len ==> buf[k] != NUL
      decreases buf.Length - len
    {
      len := len + 1;
    }
  }

  /** The piece at this place of a buffer, which ends at its terminator. */
  method PieceAt(buf: array<char>, pos: nat, ghost ps: seq<string>, ghost i: nat)
    returns (piece: string, next: nat)
    requires i < |ps| && buf[..] == Packed(ps) && pos == |Packed(ps[..i])|
    requires forall k :: 0 <= k < |ps| ==> CString(ps[k])
    ensures piece == ps[i] && next == |Packed(ps[..i + 1])|
  {
    hide Packed, CString;
    PackedAt(ps, i);
    var body, p := Packed(ps), ps[i];
    assert buf[..] == body;
    var len := StrLen(buf, pos);
    assert forall k :: 0 <= k < buf.Length ==> buf[k] == body[k];
    piece := buf[pos..pos + len];
    next := pos + len + 1;
    assert len == |p|;
    assert piece == body[pos..pos + len];
  }

  /** Where a piece lies in the packed buffer. */
  lemma {:induction false} PackedAt(ps: seq<string>, i: nat)
    requires i < |ps| && forall k :: 0 <= k < |ps| ==> CString(ps[k])
    ensures var body, pos, p := Packed(ps), |Packed(ps[..i])|, ps[i];
            && pos + |p| < |body| && body[pos..pos + |p|] == p && body[pos + |p|] == NUL
            && body[|body| - 1] == NUL
            && |Packed(ps[..i + 1])| == pos + |p| + 1
            && (forall k :: pos <= k < pos + |p| ==> body[k] != NUL)
  {
    hide Packed;
    var n := |ps| - 1;
    assert ps == ps[..n] + [ps[n]];
    PackedSnoc(ps[..n], ps[n]);
    assert ps[..i + 1] == ps[..i] + [ps[i]];
    PackedSnoc(ps[..i], ps[i]);
    var body, pos, p := Packed(ps), |Packed(ps[..i])|, ps[i];
    if i < n {
      PackedAt(ps[..n], i);
      assert ps[..n][..i] == ps[..i];
      var short := Packed(ps[..n]);
      assert body[..|short|] == short;
      assert body[pos..pos + |p|] == short[pos..pos + |p|];
    } else {
      assert body[pos..pos + |p|] == p;
    }
    assert forall k :: pos <= k < pos + |p| ==> body[k] == body[pos..pos + |p|][k - pos];
  }

  lemma {:induction false} PiecesAreCStrings(ps: seq<string>)
    requires CString(Join(ps))
    ensures forall k :: 0 <= k < |ps| ==> CString(ps[k])
  {
    if |ps| > 1 {
      var n := |ps| - 1;
      var s := Join(ps);
      assert forall k :: 0 <= k < |Join(ps[..n])| ==> Join(ps[..n])[k] == s[k];
      assert forall k :: 0 <= k < |ps[n]| ==> ps[n][k] == s[|Join(ps[..n])| + 1 + k];
      PiecesAreCStrings(ps[..n]);
      assert forall k :: 0 <= k < n ==> ps[..n][k] == ps[k];
    }
  }

  /** malloc and strcpy. */
  method CopyString(src: string) returns (buf: array<char>)
    ensures fresh(buf) && buf[..] == src + [NUL]
  {
    buf := new char[|src| + 1](i requires 0 <= i <= |src| => if i < |src| then src[i] else NUL);
  }

  lemma PiecesReady(s: string)
    requires CString(s)
    ensures Pieces(s).Some? ==>
              forall k :: 0 <= k < |Pieces(s).value| ==> CString(Pieces(s).value[k]) && |Pieces(s).value[k]| <= |s|
  {
    hide Pieces, CString;
    if Pieces(s).Some? {
      PiecesFind(s);
      PiecesShort(s);
      PiecesAreCStrings(Pieces(s).value);
    }
  }

  /** ConvertRacStr2Variant. */
  method ConvertRacStr2Variant(vt: nat, src: string) returns (r: Result<Value, Error>)
    requires CString(src)
    ensures r == Parse(vt, src)
    decreases |src|, 1
  {
    hide Pieces, Packed, CString, Convert, ParseItems, ParseNums, ParseTexts, Copied;
    if vt == VT_BSTR {
      var t := SysAllocString(src);
      return if t.Err? then Err(t.error) else Ok(Text(t.value));
    }
    PiecesReady(src);
    var buf := CopyString(src);
    var count := SplitRacStr(buf, src);
    if count < 0 {
      return Err(InvalidArg);
    }
    ghost var ps := Pieces(src).value;
    if vt == VT_ARRAY + VT_VARIANT {
      var vs := ReadItems(buf, count, ps, |src|);
      return if vs.Err? then Err(vs.error) else Ok(Vars(vs.value));
    } else if (vt / VT_ARRAY) % 2 == 1 {
      if vt - VT_ARRAY == VT_BSTR {
        var ss := ReadTexts(buf, count, ps);
        return if ss.Err? then Err(ss.error) else Ok(Texts(ss.value));
      } else if Numeric(vt - VT_ARRAY) {
        var ns := ReadNums(vt - VT_ARRAY, buf, count, ps);
        return if ns.Err? then Err(ns.error) else Ok(Nums(vt - VT_ARRAY, ns.value));
      }
      return Err(NotModelled);
    } else if count > 1 {
      return Err(InvalidArg);
    } else if Numeric(vt) {
      var n := ReadNumber(vt, src);
      return if n.Err? then Err(n.error) else Ok(Num(vt, n.value));
    }
    return Err(NotModelled);
  }

  /** A number, from the copy of its text. */
  method ReadNumber(vt: nat, s: string) returns (r: Result<int, Error>)
    requires Numeric(vt)
    ensures r == ToNumber(vt, s)
  {
    var t := SysAllocString(s);
    return if t.Err? then Err(t.error) else Convert(vt, t.value);
  }

  /** The loop over the elements of an array of values. */
  method ReadItems(buf: array<char>, count: nat, ghost ps: seq<string>, ghost n: nat)
    returns (r: Result<seq<Value>, Error>)
    requires buf[..] == Packed(ps) && count == |ps|
    requires forall k :: 0 <= k < |ps| ==> CString(ps[k]) && |ps[k]| <= n
    ensures r == ParseItems(ps, n)
    decreases n, 0
  {
    hide Packed, Parse, CellOf, ParseItem, CString;
    var vs, pos, i := [], 0, 0;
    PackedNone(ps);
    while i < count
      invariant 0 <= i <= count && pos == |Packed(ps[..i])|
      invariant ParseItems(ps[..i], n) == Ok(vs)
    {
      assert ps[..i + 1][..i] == ps[..i];
      var piece, next := PieceAt(buf, pos, ps, i);
      ParseItemIs(piece);
      var cell := CellOf(piece);
      if cell.None? {
        ErrorStays(ps, n, i + 1);
        return Err(InvalidArg);
      }
      CellCString(piece);
      var v := ConvertRacStr2Variant(cell.value.vt, cell.value.text);
      if v.Err? {
        ErrorStays(ps, n, i + 1);
        return Err(v.error);
      }
      vs := vs + [v.value];
      pos := next;
      i := i + 1;
    }
    assert ps[..i] == ps;
    return Ok(vs);
  }

  lemma PackedNone(ps: seq<string>)
    ensures |Packed(ps[..0])| == 0
  {
  }

  lemma ParseItemIs(p: string)
    ensures ParseItem(p) == if CellOf(p).None? then Err(InvalidArg) else Parse(CellOf(p).value.vt, CellOf(p).value.text)
  {
  }

  lemma CellCString(p: string)
    requires CString(p) && CellOf(p).Some?
    ensures CString(CellOf(p).value.text)
  {
    hide IndexOf, LastIndexOf, Atoi, Blank, TypeText;
  }

  lemma {:induction false} ErrorStays(ps: seq<string>, n: nat, i: nat)
    requires i <= |ps| && forall k :: 0 <= k < |ps| ==> |ps[k]| <= n
    requires ParseItems(ps[..i], n).Err?
    ensures ParseItems(ps, n) == ParseItems(ps[..i], n)
    decreases |ps|
  {
    hide ParseItem;
    if i < |ps| {
      var m := |ps| - 1;
      assert ps[..m][..i] == ps[..i];
      ErrorStays(ps[..m], n, i);
    } else {
      assert ps[..i] == ps;
    }
  }

  method ReadTexts(buf: array<char>, count: nat, ghost ps: seq<string>) returns (r: Result<seq<string>, Error>)
    requires buf[..] == Packed(ps) && count == |ps|
    requires forall k :: 0 <= k < |ps| ==> CString(ps[k])
    ensures r == ParseTexts(ps)
  {
    hide Packed, CString, Copied;
    var ss, pos, i := [], 0, 0;
    PackedNone(ps);
    while i < count
      invariant 0 <= i <= count && pos == |Packed(ps[..i])|
      invariant ParseTexts(ps[..i]) == Ok(ss)
    {
      assert ps[..i + 1][..i] == ps[..i];
      var piece, next := PieceAt(buf, pos, ps, i);
      var t := SysAllocString(piece);
      if t.Err? {
        TextErrorStays(ps, i + 1);
        return Err(t.error);
      }
      ss := ss + [t.value];
      pos := next;
      i := i + 1;
    }
    assert ps[..i] == ps;
    return Ok(ss);
  }

  lemma {:induction false} TextErrorStays(ps: seq<string>, i: nat)
    requires i <= |ps| && ParseTexts(ps[..i]).Err?
    ensures ParseTexts(ps) == ParseTexts(ps[..i])
    decreases |ps|
  {
    hide Copied;
    if i < |ps| {
      var m := |ps| - 1;
      assert ps[..m][..i] == ps[..i];
      TextErrorStays(ps[..m], i);
    } else {
      assert ps[..i] == ps;
    }
  }

  method ReadNums(vt: nat, buf: array<char>, count: nat, ghost ps: seq<string>) returns (r: Result<seq<int>, Error>)
    requires Numeric(vt) && buf[..] == Packed(ps) && count == |ps|
    requires forall k :: 0 <= k < |ps| ==> CString(ps[k])
    ensures r == ParseNums(vt, ps)
  {
    hide Packed, ToNumber, CString;
    var ns, pos, i := [], 0, 0;
    PackedNone(ps);
    while i < count
      invariant 0 <= i <= count && pos == |Packed(ps[..i])|
      invariant ParseNums(vt, ps[..i]) == Ok(ns)
    {
      assert ps[..i + 1][..i] == ps[..i];
      var piece, next := PieceAt(buf, pos, ps, i);
      var n := ReadNumber(vt, piece);
      if n.Err? {
        NumErrorStays(vt, ps, i + 1);
        return Err(n.error);
      }
      ns := ns + [n.value];
      pos := next;
      i := i + 1;
    }
    assert ps[..i] == ps;
    return Ok(ns);
  }

  lemma {:induction false} NumErrorStays(vt: nat, ps: seq<string>, i: nat)
    requires Numeric(vt) && i <= |ps| && ParseNums(vt, ps[..i]).Err?
    ensures ParseNums(vt, ps) == ParseNums(vt, ps[..i])
    decreases |ps|
  {
    hide ToNumber;
    if i < |ps| {
      var m := |ps| - 1;
      assert ps[..m][..i] == ps[..i];
      NumErrorStays(vt, ps[..m], i);
    } else {
      assert ps[..i] == ps;
    }
  }
}
