/** RAC strings (library/src/RACString/rac_string.c): the printer and the parser of values with nested
    arrays, and when the parser gives back what was printed. */
module RacString {
  import opened Common
  import opened RacText
  import opened RacNumber

  /** A value with a RAC text: an integer, a string, an array of either or an array of values. */
  datatype Value =
    | Num(vt: nat, n: int)
    | Text(s: string)
    | Nums(vt: nat, ns: seq<int>)
    | Texts(ss: seq<string>)
    | Vars(vs: seq<Value>)

  function TypeOf(v: Value): nat {
    match v
    case Num(vt, _) => vt
    case Text(_) => VT_BSTR
    case Nums(vt, _) => VT_ARRAY + vt
    case Texts(_) => VT_ARRAY + VT_BSTR
    case Vars(_) => VT_ARRAY + VT_VARIANT
  }

  /** An array without elements: it has no text, and the printer leaves a null pointer. */
  predicate Hollow(v: Value) {
    match v
    case Nums(_, ns) => ns == []
    case Texts(ss) => ss == []
    case Vars(vs) => vs == []
    case _ => false
  }

  /** Numbers fit their types and strings hold no NUL. */
  ghost predicate Proper(v: Value)
    decreases v, 0
  {
    match v
    case Num(vt, n) => Numeric(vt) && InRange(vt, n)
    case Text(s) => CString(s)
    case Nums(vt, ns) => Numeric(vt) && forall i :: 0 <= i < |ns| ==> InRange(vt, ns[i])
    case Texts(ss) => forall i :: 0 <= i < |ss| ==> CString(ss[i])
    case Vars(vs) => AllProper(vs)
  }

  ghost predicate AllProper(vs: seq<Value>)
    decreases vs, 0
  {
    vs == [] || (AllProper(vs[..|vs| - 1]) && Proper(vs[|vs| - 1]))
  }

  // ---------- copies of strings ----------

  /** SysAllocString: the length is cut to 16 bits, and so is the size of the buffer. */
  function Copied(s: string): Result<string, Error> {
    var cch := |s| % 0x1_0000;
    if WCHAR * (cch + 1) > AllocBytes(cch) then Err(Overrun) else Ok(s[..cch])
  }

  /** A copy is the string itself exactly if that has fewer than 16383 characters; otherwise it is overrun, or
      lacks whole multiples of 65536 characters. */
  lemma CopiedExactly(s: string)
    ensures Copied(s) == Ok(s) <==> |s| < TEXT_MAX
    ensures Copied(s).Ok? <==> |s| % 0x1_0000 < TEXT_MAX
    ensures Copied(s).Ok? ==>
              var t := Copied(s).value;
              t <= s && |t| == |s| % 0x1_0000 < TEXT_MAX && (|s| < 0x1_0000 ==> t == s)
  {
    if |s| < TEXT_MAX { assert s[..|s|] == s; }
  }

  // ---------- printing ----------

  /** The first thing that goes wrong in printing: a string whose copy is overrun, or an array without elements
      inside an array of values, whose null pointer is taken for a string. */
  function Fault(v: Value): Option<Error>
    decreases v, 0
  {
    match v
    case Text(s) => if Copied(s).Ok? then None else Some(Overrun)
    case Vars(vs) => FaultAmong(vs)
    case _ => None
  }

  function FaultAmong(vs: seq<Value>): Option<Error>
    decreases vs, 0
  {
    if vs == [] then None
    else
      var before, v := FaultAmong(vs[..|vs| - 1]), vs[|vs| - 1];
      if before.Some? then before
      else if Fault(v).Some? then Fault(v)
      else if Hollow(v) then Some(NullPointer)
      else None
  }

  /** ConvertVariant2RacStr: the text, or a null pointer for an array without elements. */
  function Printed(v: Value): Result<Option<string>, Error> {
    if Fault(v).Some? then Err(Fault(v).value) else if Hollow(v) then Ok(None) else Ok(Some(Print(v)))
  }

  /** The text when nothing goes wrong. */
  function Print(v: Value): string
    decreases v, 0
  {
    match v
    case Num(_, n) => Decimal(n)
    case Text(s) => s[..|s| % 0x1_0000]
    case Nums(_, ns) => Join(Decimals(ns))
    case Texts(ss) => Join(ss)
    case Vars(vs) => Join(Items(vs))
  }

  function Decimals(ns: seq<int>): (r: seq<string>)
    ensures |r| == |ns|
    ensures forall i :: 0 <= i < |r| ==> r[i] == Decimal(ns[i])
  {
    if ns == [] then [] else Decimals(ns[..|ns| - 1]) + [Decimal(ns[|ns| - 1])]
  }

  function Bracketed(d: nat, t: string): string {
    "(" + Digits(d) + "," + t + ")"
  }

  /** An element of an array of values: its type and its text, in brackets. */
  function Item(v: Value): string
    decreases v, 1
  {
    Bracketed(TypeOf(v), Print(v))
  }

  function Items(vs: seq<Value>): (r: seq<string>)
    ensures |r| == |vs|
    decreases vs, 0
  {
    if vs == [] then [] else Items(vs[..|vs| - 1]) + [Item(vs[|vs| - 1])]
  }

  // ---------- parsing ----------

  /** strchr. */
  function IndexOf(s: string, c: char): (i: int)
    ensures -1 <= i < |s|
    ensures i >= 0 ==> s[i] == c
    ensures forall k :: 0 <= k < (if i < 0 then |s| else i) ==> s[k] != c
  {
    if s == [] then -1
    else
      var i := IndexOf(s[..|s| - 1], c);
      if i >= 0 then i else if s[|s| - 1] == c then |s| - 1 else -1
  }

  /** strrchr. */
  function LastIndexOf(s: string, c: char): (i: int)
    ensures -1 <= i < |s|
    ensures i >= 0 ==> s[i] == c
    ensures forall k :: i < k < |s| ==> s[k] != c
  {
    if s == [] then -1 else if s[|s| - 1] == c then |s| - 1 else LastIndexOf(s[..|s| - 1], c)
  }

  predicate Blank(s: string) {
    forall i :: 0 <= i < |s| ==> s[i] == ' '
  }

  predicate TypeText(s: string) {
    forall i :: 0 <= i < |s| ==> s[i] == ' ' || '0' <= s[i] <= '9'
  }

  datatype Cell = Cell(vt: nat, text: string)

  /** One element in brackets: blanks, a bracket, the type, a comma and the text up to the last closing
      bracket, after which only blanks may follow. */
  function CellOf(p: string): (r: Option<Cell>)
    ensures r.Some? ==> |r.value.text| < |p|
  {
    var open := IndexOf(p, '(');
    if open < 0 || !Blank(p[..open]) then None
    else
      var rest := p[open + 1..];
      var close := LastIndexOf(rest, ')');
      if close < 0 || !Blank(rest[close + 1..]) then None
      else
        var comma := IndexOf(rest[..close], ',');
        if comma < 0 || !TypeText(rest[..comma]) then None
        else Some(Cell(Atoi(rest[..comma]) % 0x1_0000, rest[comma + 1..close]))
  }

  /** ConvertRacStr2Variant. */
  function Parse(vt: nat, s: string): Result<Value, Error>
    decreases |s|, 1, 0
  {
    if vt == VT_BSTR then
      var t := Copied(s);
      if t.Err? then Err(t.error) else Ok(Text(t.value))
    else if Pieces(s).None? then Err(InvalidArg)
    else
      var ps := Pieces(s).value;
      PiecesShort(s);
      if vt == VT_ARRAY + VT_VARIANT then
        var vs := ParseItems(ps, |s|);
        if vs.Err? then Err(vs.error) else Ok(Vars(vs.value))
      else if (vt / VT_ARRAY) % 2 == 1 then
        if vt - VT_ARRAY == VT_BSTR then
          var ss := ParseTexts(ps);
          if ss.Err? then Err(ss.error) else Ok(Texts(ss.value))
        else if Numeric(vt - VT_ARRAY) then
          var ns := ParseNums(vt - VT_ARRAY, ps);
          if ns.Err? then Err(ns.error) else Ok(Nums(vt - VT_ARRAY, ns.value))
        else Err(NotModelled)
      else if |ps| > 1 then Err(InvalidArg)
      else if Numeric(vt) then
        var n := ToNumber(vt, s);
        if n.Err? then Err(n.error) else Ok(Num(vt, n.value))
      else Err(NotModelled)
  }

  /** A number is converted from a copy of its text. */
  function ToNumber(vt: nat, s: string): Result<int, Error>
    requires Numeric(vt)
  {
    var t := Copied(s);
    if t.Err? then Err(t.error) else Convert(vt, t.value)
  }

  /** The elements in order, up to the first that cannot be read. */
  function ParseItems(ps: seq<string>, n: nat): (r: Result<seq<Value>, Error>)
    requires forall i :: 0 <= i < |ps| ==> |ps[i]| <= n
    ensures r.Ok? ==> |r.value| == |ps|
    decreases n, 0, |ps|
  {
    if ps == [] then Ok([])
    else
      var before := ParseItems(ps[..|ps| - 1], n);
      if before.Err? then before
      else
        var v := ParseItem(ps[|ps| - 1]);
        if v.Err? then Err(v.error) else Ok(before.value + [v.value])
  }

  function ParseItem(p: string): Result<Value, Error>
    decreases |p|, 0, 0
  {
    var cell := CellOf(p);
    if cell.None? then Err(InvalidArg) else Parse(cell.value.vt, cell.value.text)
  }

  function ParseNums(vt: nat, ps: seq<string>): (r: Result<seq<int>, Error>)
    requires Numeric(vt)
    ensures r.Ok? ==> |r.value| == |ps|
  {
    if ps == [] then Ok([])
    else
      var before := ParseNums(vt, ps[..|ps| - 1]);
      if before.Err? then before
      else
        var n := ToNumber(vt, ps[|ps| - 1]);
        if n.Err? then Err(n.error) else Ok(before.value + [n.value])
  }

  function ParseTexts(ps: seq<string>): (r: Result<seq<string>, Error>)
    ensures r.Ok? ==> |r.value| == |ps|
  {
    if ps == [] then Ok([])
    else
      var before := ParseTexts(ps[..|ps| - 1]);
      if before.Err? then before
      else
        var t := Copied(ps[|ps| - 1]);
        if t.Err? then Err(t.error) else Ok(before.value + [t.value])
  }

  lemma PiecesShort(s: string)
    ensures Pieces(s).Some? ==> forall i :: 0 <= i < |Pieces(s).value| ==> |Pieces(s).value[i]| <= |s|
  {
    if Pieces(s).Some? {
      PiecesFind(s);
      var ps := Pieces(s).value;
      forall i | 0 <= i < |ps|
        ensures |ps[i]| <= |s|
      {
        JoinLength(ps, i);
      }
    }
  }
}
