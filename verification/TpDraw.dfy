/** Drawing on a mini pendant (library/src/TPComm/dn_tpcomm.c, TPComm_DrawMiniTP): a list of commands, colours,
    strings, lines and rectangles, becomes records of tag, length and payload, one behind the other in a
    buffer of 248 bytes, which the pendant can read back. */
module TpDraw {
  import opened Bytes
  import opened Common

  const BUFFER := 248
  const COLOR_FG: Byte := 0x10
  const COLOR_BG: Byte := 0x11
  const COLOR_FILL: Byte := 0x12
  const DRAW_STRING: Byte := 0x20
  const DRAW_LINE: Byte := 0x30
  const DRAW_RECT: Byte := 0x31

  /** `Unset` is a status that was never assigned and happens to be negative. */
  datatype Error = InvalidArg | OutOfMemory | NotChanged(code: int) | Unset(code: int)

  type ColorTag = t: Byte | t == 0x10 || t == 0x11 || t == 0x12 witness 0x10
  type ShapeTag = t: Byte | t == 0x30 || t == 0x31 witness 0x30

  /** A string of single-byte characters, where to draw it and in which mode, and its attribute. */
  datatype Text = Text(chars: seq<Byte>, x: Byte, y: Byte, mode: Byte, attr: Byte)

  datatype Corners = Corners(a: Byte, b: Byte, c: Byte, d: Byte)

  /** A drawing command; an argument that cannot be changed to the type it should have is an error,
      and so is a command that is not a pair or has an unknown tag. */
  datatype Command =
    | Color(color: ColorTag, value: Result<Byte, Error>)
    | Str(text: Result<Text, Error>)
    | Shape(shape: ShapeTag, corners: Result<Corners, Error>)
    | Other(error: Error)

  predicate WellFormed(c: Command) {
    match c
    case Color(_, value) => value.Ok?
    case Str(text) => text.Ok?
    case Shape(_, corners) => corners.Ok?
    case Other(_) => false
  }

  /** The bytes a command takes in the buffer. */
  function Size(c: Command): nat
    requires WellFormed(c)
  {
    match c
    case Color(_, _) => 3
    case Str(text) => 2 * |text.value.chars| + 7
    case Shape(_, _) => 6
  }

  function Fill(b: Byte, n: nat): (s: seq<Byte>)
    ensures |s| == n && forall i :: 0 <= i < n ==> s[i] == b
  {
    seq(n, _ => b)
  }

  function Record(c: Command): (r: seq<Byte>)
    requires WellFormed(c) && Size(c) <= BUFFER
    ensures |r| == Size(c)
  {
    match c
    case Color(tag, value) => [tag, 1, value.value]
    case Str(text) =>
      var t := text.value;
      var n := |t.chars|;
      [DRAW_STRING, 2 * n + 5, t.x, t.y, t.mode, n] + t.chars + [0] + Fill(t.attr, n)
    case Shape(tag, corners) =>
      var k := corners.value;
      [tag, 4, k.a, k.b, k.c, k.d]
  }

  /** One command more: it is refused if its arguments are wrong or the buffer has no room; which is
      looked at first depends on the command. */
  function DrawNext(data: seq<Byte>, c: Command): Result<seq<Byte>, Error> {
    match c
    case Color(_, value) =>
      if |data| + 3 > BUFFER then Err(OutOfMemory)
      else if value.Err? then Err(value.error)
      else Ok(data + Record(c))
    case Str(text) =>
      if text.Err? then Err(text.error)
      else if |data| + Size(c) > BUFFER then Err(OutOfMemory)
      else Ok(data + Record(c))
    case Shape(_, corners) =>
      if corners.Err? then Err(corners.error)
      else if |data| + 6 > BUFFER then Err(OutOfMemory)
      else Ok(data + Record(c))
    case Other(error) => Err(error)
  }

  function Draw(cs: seq<Command>): Result<seq<Byte>, Error> {
    if cs == [] then Ok([])
    else
      var before := Draw(cs[..|cs| - 1]);
      if before.Err? then before else DrawNext(before.value, cs[|cs| - 1])
  }

  // ---------- room ----------

  ghost predicate AllWellFormed(cs: seq<Command>) {
    forall i :: 0 <= i < |cs| ==> WellFormed(cs[i])
  }

  function Total(cs: seq<Command>): nat
    requires AllWellFormed(cs)
  {
    if cs == [] then 0 else Total(cs[..|cs| - 1]) + Size(cs[|cs| - 1])
  }

  /** A list of commands is drawn exactly if all of them are well formed and their records fit the
      buffer; a well-formed list that does not fit is reported as a full buffer. */
  lemma {:induction false} DrawnExactly(cs: seq<Command>)
    ensures Draw(cs).Ok? <==> AllWellFormed(cs) && Total(cs) <= BUFFER
    ensures Draw(cs).Ok? ==> |Draw(cs).value| == Total(cs)
    ensures AllWellFormed(cs) && Total(cs) > BUFFER ==> Draw(cs) == Err(OutOfMemory)
  {
    hide Record;
    if cs != [] {
      var n := |cs| - 1;
      DrawnExactly(cs[..n]);
      assert forall i :: 0 <= i < n ==> cs[..n][i] == cs[i];
      assert AllWellFormed(cs) <==> AllWellFormed(cs[..n]) && WellFormed(cs[n]);
    }
  }

  /** The bytes of a record, one by one: tag, length and payload. */
  lemma RecordOnWire(c: Command)
    requires WellFormed(c) && Size(c) <= BUFFER
    ensures c.Color? ==> Record(c) == [c.color, 1, c.value.value]
    ensures c.Shape? ==>
              var k := c.corners.value; Record(c) == [c.shape, 4, k.a, k.b, k.c, k.d]
    ensures c.Str? ==>
              var r, t, n := Record(c), c.text.value, |c.text.value.chars|;
              && |r| == 2 * n + 7 && r[..6] == [0x20, 2 * n + 5, t.x, t.y, t.mode, n]
              && r[6..6 + n] == t.chars && r[6 + n] == 0
              && forall i :: 7 + n <= i < |r| ==> r[i] == t.attr
  {
  }

  // ---------- reading the records back ----------

  /** What the payload of a record says. */
  function ReadOne(tag: Byte, p: seq<Byte>): Option<Command> {
    if tag == COLOR_FG || tag == COLOR_BG || tag == COLOR_FILL then
      if |p| == 1 then Some(Color(tag, Ok(p[0]))) else None
    else if tag == DRAW_STRING then
      var n: int := if |p| < 5 then 0 else p[3];
      if |p| < 5 || |p| != 2 * n + 5 || p[4 + n] != 0 then None
      else
        var attr := if n > 0 then p[5 + n] else 0;
        if p[5 + n..] != Fill(attr, n) then None
        else Some(Str(Ok(Text(p[4..4 + n], p[0], p[1], p[2], attr))))
    else if tag == DRAW_LINE || tag == DRAW_RECT then
      if |p| == 4 then Some(Shape(tag, Ok(Corners(p[0], p[1], p[2], p[3])))) else None
    else None
  }

  function Read(data: seq<Byte>): Option<seq<Command>> {
    if data == [] then Some([])
    else if |data| < 2 || |data| < 2 + (data[1] as int) then None
    else
      var n := 2 + (data[1] as int);
      var first, rest := ReadOne(data[0], data[2..n]), Read(data[n..]);
      if first.None? || rest.None? then None else Some([first.value] + rest.value)
  }

  /** The attribute of an empty string leaves no trace. */
  function Shown(c: Command): Command {
    if c.Str? && c.text.Ok? && c.text.value.chars == [] then Str(Ok(c.text.value.(attr := 0))) else c
  }

  function ShownAll(cs: seq<Command>): (r: seq<Command>)
    ensures |r| == |cs| && forall i :: 0 <= i < |r| ==> r[i] == Shown(cs[i])
  {
    seq(|cs|, i requires 0 <= i < |cs| => Shown(cs[i]))
  }

  lemma RecordRead(c: Command)
    requires WellFormed(c) && Size(c) <= BUFFER
    ensures var r := Record(c);
            r[1] == |r| - 2 && ReadOne(r[0], r[2..]) == Some(Shown(c))
  {
    var r := Record(c);
    match c
    case Str(text) =>
      var t, p := text.value, r[2..];
      var n := |t.chars|;
      assert p == [t.x, t.y, t.mode, n] + t.chars + [0] + Fill(t.attr, n);
      assert p[4..4 + n] == t.chars && p[4 + n] == 0;
      assert p[5 + n..] == Fill(t.attr, n);
      assert n == 0 ==> Fill(t.attr, 0) == Fill(0, 0) && t.chars == [];
    case _ =>
  }

  /** One record more is one command more. */
  lemma {:induction false} ReadAppend(data: seq<Byte>, c: Command)
    requires Read(data).Some? && WellFormed(c) && Size(c) <= BUFFER
    ensures Read(data + Record(c)) == Some(Read(data).value + [Shown(c)])
    decreases |data|
  {
    hide ReadOne, Record, Read, Shown;
    RecordRead(c);
    var r := Record(c);
    ReadNothing();
    if data == [] {
      ReadStep(r, [], Shown(c), []);
      assert data + r == r + [] && [Shown(c)] + [] == [] + [Shown(c)];
    } else {
      ReadSplit(data);
      var n := 2 + (data[1] as int);
      var head, rest := data[..n], data[n..];
      assert head[2..] == data[2..n];
      var first, others := ReadOne(data[0], data[2..n]).value, Read(rest).value;
      ReadAppend(rest, c);
      ReadStep(head, rest + r, first, others + [Shown(c)]);
      assert data + r == head + (rest + r);
      assert [first] + (others + [Shown(c)]) == [first] + others + [Shown(c)];
    }
  }

  lemma ReadNothing()
    ensures Read([]) == Some([])
  {
  }

  lemma ReadSplit(data: seq<Byte>)
    requires data != [] && Read(data).Some?
    ensures |data| >= 2 + (data[1] as int) >= 2
    ensures var n := 2 + (data[1] as int);
            && ReadOne(data[0], data[2..n]).Some? && Read(data[n..]).Some?
            && Read(data).value == [ReadOne(data[0], data[2..n]).value] + Read(data[n..]).value
  {
    hide ReadOne;
  }

  lemma ReadStep(r: seq<Byte>, rest: seq<Byte>, c: Command, others: seq<Command>)
    requires |r| >= 2 && |r| == 2 + (r[1] as int) && ReadOne(r[0], r[2..]) == Some(c) && Read(rest) == Some(others)
    ensures Read(r + rest) == Some([c] + others)
  {
    hide ReadOne;
    var all := r + rest;
    assert all[2..|r|] == r[2..] && all[|r|..] == rest;
  }

  /** What is drawn reads back as the same commands in the same order, in at most 248 bytes. */
  lemma {:induction false} DrawnIsRead(cs: seq<Command>)
    requires Draw(cs).Ok?
    ensures |Draw(cs).value| <= BUFFER && Read(Draw(cs).value) == Some(ShownAll(cs))
  {
    hide Record, Read, Shown, Draw, WellFormed, Total;
    DrawnExactly(cs);
    if cs == [] {
      NothingDrawn();
      assert ShownAll(cs) == [];
    } else {
      var n := |cs| - 1;
      DrawnStep(cs);
      DrawnIsRead(cs[..n]);
      ReadAppend(Draw(cs[..n]).value, cs[n]);
      assert ShownAll(cs) == ShownAll(cs[..n]) + [Shown(cs[n])];
    }
  }

  lemma NothingDrawn()
    ensures Draw([]) == Ok([]) && Read([]) == Some([])
  {
  }

  lemma DrawnStep(cs: seq<Command>)
    requires cs != [] && Draw(cs).Ok?
    ensures var n := |cs| - 1;
            && Draw(cs[..n]).Ok? && WellFormed(cs[n]) && Size(cs[n]) <= BUFFER
            && Draw(cs).value == Draw(cs[..n]).value + Record(cs[n])
  {
    hide Record;
  }

  /** Two lists that are drawn give the same bytes exactly if they are the same but for the attributes
      of empty strings. */
  lemma DrawnAlikeExactly(a: seq<Command>, b: seq<Command>)
    requires Draw(a).Ok? && Draw(b).Ok?
    ensures Draw(a) == Draw(b) <==> ShownAll(a) == ShownAll(b)
  {
    DrawnIsRead(a);
    DrawnIsRead(b);
    if ShownAll(a) == ShownAll(b) {
      ShownDrawn(a);
      ShownDrawn(b);
    }
  }

  lemma {:induction false} ShownDrawn(cs: seq<Command>)
    ensures Draw(ShownAll(cs)) == Draw(cs)
  {
    if cs != [] {
      var n := |cs| - 1;
      ShownDrawn(cs[..n]);
      assert ShownAll(cs)[..n] == ShownAll(cs[..n]);
    }
  }

  // ---------- TPComm_DrawMiniTP ----------

  /** The records to transmit, or the status in their place.  Only the loop over the commands assigns the
      status, so for an empty list it is what the stack held, here `unset`. */
  function ToTransmit(cs: seq<Command>, unset: int): Result<seq<Byte>, Error> {
    if cs == [] && unset < 0 then Err(Unset(unset)) else Draw(cs)
  }

  /** What happens is determined by the list exactly if the list is not empty. */
  lemma DeterminedExactly(cs: seq<Command>)
    ensures (forall unset :: ToTransmit(cs, unset) == Draw(cs)) <==> cs != []
    ensures forall unset :: ToTransmit([], unset) == if unset < 0 then Err(Unset(unset)) else Ok([])
  {
    if cs == [] {
      assert ToTransmit(cs, -1) == Err(Unset(-1));
    }
  }

  /** TPComm_DrawMiniTP up to the transmission. */
  method DrawMiniTP(cs: seq<Command>, unset: int) returns (r: Result<seq<Byte>, Error>)
    ensures r == ToTransmit(cs, unset)
  {
    var hr := unset;
    var data := new Byte[BUFFER];
    var lenData, i := 0, 0;
    while i < |cs|
      invariant 0 <= i <= |cs| && 0 <= lenData <= BUFFER
      invariant Draw(cs[..i]) == Ok(data[..lenData])
      invariant hr == if i == 0 then unset else 0
    {
      assert cs[..i + 1][..i] == cs[..i];
      var drawn := DrawOne(data, lenData, cs[i]);
      if drawn.Err? {
        FailureStays(cs, i + 1);
        return Err(drawn.error);
      }
      lenData, hr := drawn.value, 0;
      i := i + 1;
    }
    assert cs[..i] == cs;
    if hr < 0 {
      return Err(Unset(hr));
    }
    return Ok(data[..lenData]);
  }

  lemma {:induction false} FailureStays(cs: seq<Command>, i: nat)
    requires i <= |cs| && Draw(cs[..i]).Err?
    ensures Draw(cs) == Draw(cs[..i])
    decreases |cs|
  {
    if i < |cs| {
      var n := |cs| - 1;
      assert cs[..n][..i] == cs[..i];
      FailureStays(cs[..n], i);
    } else {
      assert cs[..i] == cs;
    }
  }

  /** The body of the loop: the record is written behind the others. */
  method DrawOne(data: array<Byte>, lenData: nat, c: Command) returns (r: Result<nat, Error>)
    requires data.Length == BUFFER && lenData <= BUFFER
    modifies data
    ensures r.Ok? <==> DrawNext(old(data[..lenData]), c).Ok?
    ensures r.Ok? ==> r.value <= BUFFER && DrawNext(old(data[..lenData]), c) == Ok(data[..r.value])
    ensures r.Err? ==> DrawNext(old(data[..lenData]), c) == Err(r.error)
  {
    ghost var before := data[..lenData];
    match c
    case Color(tag, value) =>
      if BUFFER < lenData + 3 {
        return Err(OutOfMemory);
      }
      if value.Err? {
        return Err(value.error);
      }
      data[lenData] := tag;
      data[lenData + 1] := 1;
      data[lenData + 2] := value.value;
      assert data[..lenData + 3] == before + Record(c);
      return Ok(lenData + 3);
    case Str(text) =>
      if text.Err? {
        return Err(text.error);
      }
      var n := |text.value.chars|;
      if BUFFER < lenData + 2 * n + 7 {
        return Err(OutOfMemory);
      }
      WriteString(data, lenData, text.value);
      assert data[..lenData] == before;
      assert data[..lenData + 2 * n + 7] == before + data[lenData..lenData + 2 * n + 7];
      return Ok(lenData + 2 * n + 7);
    case Shape(tag, corners) =>
      if corners.Err? {
        return Err(corners.error);
      }
      if BUFFER < lenData + 6 {
        return Err(OutOfMemory);
      }
      var k := corners.value;
      data[lenData] := tag;
      data[lenData + 1] := 4;
      data[lenData + 2], data[lenData + 3] := k.a, k.b;
      data[lenData + 4], data[lenData + 5] := k.c, k.d;
      assert data[..lenData + 6] == before + Record(c);
      return Ok(lenData + 6);
    case Other(error) =>
      return Err(error);
  }

  /** A string in the buffer: its characters, a zero, and its attribute once for each character. */
  method WriteString(data: array<Byte>, at: nat, t: Text)
    requires data.Length == BUFFER && at + 2 * |t.chars| + 7 <= BUFFER
    modifies data
    ensures data[..at] == old(data[..at])
    ensures data[at..at + 2 * |t.chars| + 7] == Record(Str(Ok(t)))
  {
    hide Record;
    var n := |t.chars|;
    data[at] := DRAW_STRING;
    data[at + 1] := 2 * n + 5;
    data[at + 2] := t.x;
    data[at + 3] := t.y;
    data[at + 4] := t.mode;
    data[at + 5] := n;
    forall i | 0 <= i < n {
      data[at + 6 + i] := t.chars[i];
    }
    data[at + n + 6] := 0;
    forall i | 0 <= i < n {
      data[at + n + 7 + i] := t.attr;
    }
    ghost var r := Record(Str(Ok(t)));
    forall k | 0 <= k < |r|
      ensures data[at + k] == r[k]
    {
      StringAt(t, k);
    }
  }

  lemma StringAt(t: Text, k: nat)
    requires k < 2 * |t.chars| + 7 <= BUFFER
    ensures var n := |t.chars|;
            Record(Str(Ok(t)))[k]
            == if k == 0 then DRAW_STRING else if k == 1 then 2 * n + 5
               else if k == 2 then t.x else if k == 3 then t.y else if k == 4 then t.mode
               else if k == 5 then n else if k < 6 + n then t.chars[k - 6]
               else if k == 6 + n then 0 else t.attr
  {
  }
}
