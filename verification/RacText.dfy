/** Splitting and joining of RAC strings (library/src/RACString/rac_string.c): a comma separates two
    pieces unless it stands inside brackets. */
module RacText {
  import opened Common

  const NUL := 0 as char

  /** A C string: no NUL inside. */
  ghost predicate CString(s: string) {
    forall i :: 0 <= i < |s| ==> s[i] != NUL
  }

  // ---------- brackets ----------

  /** Brackets opened less brackets closed. */
  function Depth(s: string): int {
    if s == [] then 0
    else
      var c := s[|s| - 1];
      Depth(s[..|s| - 1]) + (if c == '(' then 1 else if c == ')' then -1 else 0)
  }

  /** Every closing bracket closes one opened before, and every comma stands inside brackets. */
  ghost predicate Whole(s: string) {
    && (forall i :: 0 <= i <= |s| ==> Depth(s[..i]) >= 0)
    && (forall i :: 0 <= i < |s| && s[i] == ',' ==> Depth(s[..i]) > 0)
  }

  /** A text that the splitter leaves in one piece: whole, with all brackets closed. */
  ghost predicate Good(s: string) {
    Whole(s) && Depth(s) == 0
  }

  // ---------- splitting ----------

  /** What the splitter has found so far: the pieces, the last one still open, and the depth. */
  datatype Cutting = Bad | Cutting(pieces: seq<string>, depth: nat)

  function Append(pieces: seq<string>, c: char): (r: seq<string>)
    requires pieces != []
    ensures |r| == |pieces|
  {
    pieces[..|pieces| - 1] + [pieces[|pieces| - 1] + [c]]
  }

  function CutNext(cut: Cutting, c: char): (r: Cutting)
    requires cut.Cutting? ==> cut.pieces != []
    ensures r.Cutting? ==> r.pieces != []
  {
    if cut.Bad? then Bad
    else if c == '(' then Cutting(Append(cut.pieces, c), cut.depth + 1)
    else if c == ')' then if cut.depth == 0 then Bad else Cutting(Append(cut.pieces, c), cut.depth - 1)
    else if c == ',' && cut.depth == 0 then Cutting(cut.pieces + [""], 0)
    else Cutting(Append(cut.pieces, c), cut.depth)
  }

  function Cut(s: string): (r: Cutting)
    ensures r.Cutting? ==> r.pieces != []
  {
    if s == [] then Cutting([""], 0) else CutNext(Cut(s[..|s| - 1]), s[|s| - 1])
  }

  /** The pieces of a string, if its brackets are balanced. */
  function Pieces(s: string): Option<seq<string>> {
    var cut := Cut(s);
    if cut.Cutting? && cut.depth == 0 then Some(cut.pieces) else None
  }

  function Join(parts: seq<string>): string {
    if parts == [] then []
    else if |parts| == 1 then parts[0]
    else Join(parts[..|parts| - 1]) + "," + parts[|parts| - 1]
  }

  /** The pieces one after the other, each with its terminator. */
  function Packed(parts: seq<string>): string {
    if parts == [] then [] else Packed(parts[..|parts| - 1]) + parts[|parts| - 1] + [NUL]
  }

  // ---------- splitting undoes joining, exactly for good parts ----------

  lemma DepthNext(t: string, c: char)
    ensures Depth(t + [c]) == Depth(t) + (if c == '(' then 1 else if c == ')' then -1 else 0)
  {
    assert (t + [c])[..|t|] == t;
  }

  lemma WholePrefix(t: string, n: nat)
    requires Whole(t) && n < |t|
    ensures Whole(t[..n]) && Depth(t[..n]) >= 0
    ensures t[n] == ',' ==> Depth(t[..n]) > 0
    ensures t[n] == ')' ==> Depth(t[..n]) > 0
    ensures t == t[..n] + [t[n]] || n + 1 < |t|
  {
    assert forall i :: 0 <= i <= n ==> t[..n][..i] == t[..i];
    assert t[..n + 1][..n] == t[..n];
    assert Depth(t[..n + 1]) >= 0;
  }

  lemma WholeNext(t: string, c: char)
    requires Whole(t) && (c == ')' ==> Depth(t) > 0) && (c == ',' ==> Depth(t) > 0)
    ensures Whole(t + [c])
  {
    hide Depth;
    var u := t + [c];
    DepthNext(t, c);
    assert t[..|t|] == t && Depth(t[..|t|]) >= 0;
    forall i | 0 <= i <= |u|
      ensures Depth(u[..i]) >= 0 && (i < |u| && u[i] == ',' ==> Depth(u[..i]) > 0)
    {
      if i <= |t| {
        assert u[..i] == t[..i];
        assert i == |t| ==> u[i] == c;
      } else {
        assert u[..i] == u;
      }
    }
  }

  lemma WholeEmpty()
    ensures Whole("") && Depth("") == 0
  {
    assert ""[..0] == "";
  }

  lemma CutSnoc(s: string, c: char)
    ensures Cut(s + [c]) == CutNext(Cut(s), c)
  {
    assert (s + [c])[..|s|] == s;
  }

  /** Text that stays in the open piece. */
  lemma {:induction false} CutWhole(s: string, t: string, before: seq<string>)
    requires Cut(s) == Cutting(before + [""], 0) && Whole(t)
    ensures Depth(t) >= 0 && Cut(s + t) == Cutting(before + [t], Depth(t))
  {
    hide Cut, Depth, Whole;
    if t == [] {
      WholeEmpty();
      assert s + t == s;
    } else {
      var n := |t| - 1;
      WholePrefix(t, n);
      CutWhole(s, t[..n], before);
      DepthNext(t[..n], t[n]);
      CutSnoc(s + t[..n], t[n]);
      assert s + t == s + t[..n] + [t[n]];
      assert (before + [t[..n]])[..|before|] == before;
    }
  }

  lemma JoinSnoc(parts: seq<string>, t: string)
    requires parts != []
    ensures Join(parts + [t]) == Join(parts) + "," + t
  {
    assert (parts + [t])[..|parts|] == parts;
  }

  lemma JoinAppend(parts: seq<string>, c: char)
    requires parts != []
    ensures Join(Append(parts, c)) == Join(parts) + [c]
  {
    var n := |parts| - 1;
    assert Append(parts, c)[..n] == parts[..n];
  }

  lemma {:induction false} CutJoin(parts: seq<string>)
    requires parts != [] && forall i :: 0 <= i < |parts| ==> Good(parts[i])
    ensures Cut(Join(parts)) == Cutting(parts, 0)
  {
    hide Cut, Depth, Whole, Join;
    var n := |parts| - 1;
    var t := parts[n];
    assert parts == parts[..n] + [t] && Good(t);
    if n == 0 {
      CutStart();
      CutWhole("", t, []);
      JoinOne(t);
      assert "" + t == t;
    } else {
      CutJoin(parts[..n]);
      CutSnoc(Join(parts[..n]), ',');
      CutWhole(Join(parts[..n]) + ",", t, parts[..n]);
      JoinSnoc(parts[..n], t);
    }
  }

  lemma CutStart()
    ensures Cut("") == Cutting([""], 0) && [] + [""] == [""]
  {
  }

  lemma JoinOne(t: string)
    ensures Join([t]) == t
  {
  }

  /** These are pieces of s, the last of them still open. */
  ghost predicate Finds(s: string, pieces: seq<string>, depth: nat) {
    && pieces != [] && Join(pieces) == s
    && (forall i :: 0 <= i < |pieces| - 1 ==> Good(pieces[i]))
    && Whole(pieces[|pieces| - 1]) && Depth(pieces[|pieces| - 1]) == depth
  }

  lemma FindsNext(s: string, cut: Cutting, c: char)
    requires cut.Cutting? && Finds(s, cut.pieces, cut.depth) && CutNext(cut, c).Cutting?
    ensures Finds(s + [c], CutNext(cut, c).pieces, CutNext(cut, c).depth)
  {
    hide Depth, Whole, Join;
    var k := |cut.pieces| - 1;
    if c == ',' && cut.depth == 0 {
      JoinSnoc(cut.pieces, "");
      WholeEmpty();
      assert s + "," + "" == s + [c];
    } else {
      JoinAppend(cut.pieces, c);
      WholeNext(cut.pieces[k], c);
      DepthNext(cut.pieces[k], c);
    }
  }

  /** What the splitter finds: joined again it is the input, every closed piece is good and the open
      one is whole. */
  lemma {:induction false} CutFinds(s: string)
    requires Cut(s).Cutting?
    ensures Finds(s, Cut(s).pieces, Cut(s).depth)
  {
    if s == [] {
      WholeEmpty();
      JoinOne("");
    } else {
      hide Finds, Cut, CutNext;
      var n := |s| - 1;
      var t, c := s[..n], s[n];
      assert s == t + [c];
      CutSnoc(t, c);
      CutFinds(t);
      FindsNext(t, Cut(t), c);
    }
  }

  /** The splitter gives back the strings that were joined exactly if each of them is good. */
  lemma SplitUndoesJoinExactly(parts: seq<string>)
    requires parts != []
    ensures Pieces(Join(parts)) == Some(parts) <==> forall i :: 0 <= i < |parts| ==> Good(parts[i])
  {
    hide Good, Join, Cut;
    if forall i :: 0 <= i < |parts| ==> Good(parts[i]) {
      CutJoin(parts);
    }
    if Pieces(Join(parts)) == Some(parts) {
      PiecesFind(Join(parts));
    }
  }

  lemma PiecesFind(s: string)
    requires Pieces(s).Some?
    ensures var pieces := Pieces(s).value;
            pieces != [] && Join(pieces) == s && forall i :: 0 <= i < |pieces| ==> Good(pieces[i])
  {
    CutFinds(s);
    hide Cut, Join, Whole, Depth;
  }

  lemma {:induction false} JoinLength(parts: seq<string>, i: nat)
    requires i < |parts|
    ensures |parts[i]| <= |Join(parts)|
  {
    if |parts| > 1 && i < |parts| - 1 {
      JoinLength(parts[..|parts| - 1], i);
    }
  }

  // ---------- SplitRacStr ----------

  lemma PackedSnoc(pieces: seq<string>, t: string)
    ensures Packed(pieces + [t]) == Packed(pieces) + t + [NUL]
  {
    assert (pieces + [t])[..|pieces|] == pieces;
  }

  lemma PackedAppend(pieces: seq<string>, c: char)
    requires pieces != []
    ensures var body := Packed(pieces);
            |body| > 0 && Packed(Append(pieces, c)) == body[..|body| - 1] + [c, NUL]
  {
    hide Packed;
    var n := |pieces| - 1;
    var before, t := pieces[..n], pieces[n];
    PackedSnoc(before, t);
    PackedSnoc(before, t + [c]);
    assert pieces == before + [t];
    var body := Packed(pieces);
    assert body[..|body| - 1] == Packed(before) + t;
    assert body[..|body| - 1] + [c, NUL] == Packed(before) + (t + [c]) + [NUL];
  }

  /** The buffer after one more character. */
  lemma PackedNext(cut: Cutting, c: char, done: string)
    requires cut.Cutting? && cut.pieces != [] && Packed(cut.pieces) == done + [NUL]
    ensures var next := CutNext(cut, c);
            next.Cutting? ==>
              && Packed(next.pieces) == done + [if c == ',' && cut.depth == 0 then NUL else c] + [NUL]
              && |next.pieces| == |cut.pieces| + (if c == ',' && cut.depth == 0 then 1 else 0)
  {
    hide Packed;
    PackedAppend(cut.pieces, c);
    PackedSnoc(cut.pieces, "");
    assert (done + [NUL])[..|done|] == done;
  }

  /** SplitRacStr, on the copy of the source string it has made. */
  method SplitRacStr(buf: array<char>, ghost s: string) returns (count: int)
    requires CString(s) && buf[..] == s + [NUL]
    modifies buf
    ensures count < 0 <==> Pieces(s).None?
    ensures count >= 0 ==> count == |Pieces(s).value| && buf[..] == Packed(Pieces(s).value)
  {
    hide Packed, Pieces, Cut, CutNext, Append;
    var bracket := 0;
    var pos := 0;
    count := 1;
    ghost var cut := Cutting([""], 0);
    SplitStart(s);
    while buf[pos] != NUL
      invariant 0 <= pos <= |s| && buf.Length == |s| + 1
      invariant cut == Cut(s[..pos]) && cut.Cutting? && bracket == cut.depth
      invariant count == |cut.pieces| && buf[pos..] == (s + [NUL])[pos..]
      invariant buf[..pos] + [NUL] == Packed(cut.pieces)
      decreases |s| - pos
    {
      assert buf[pos] == buf[pos..][0] == (s + [NUL])[pos];
      var c := buf[pos];
      SplitStep(s, pos);
      PackedNext(cut, c, buf[..pos]);
      ghost var done := buf[..pos];
      if c == '(' {
        bracket := bracket + 1;
      } else if c == ')' {
        bracket := bracket - 1;
        if bracket < 0 {
          CutNextDepth(cut, c);
          BadStaysBad(s, pos + 1);
          return -1;
        }
      } else if c == ',' {
        if bracket == 0 {
          buf[pos] := NUL;
          count := count + 1;
        }
      }
      assert buf[..pos + 1] == done + [buf[pos]];
      assert buf[pos + 1..] == (s + [NUL])[pos + 1..];
      CutNextDepth(cut, c);
      cut := CutNext(cut, c);
      pos := pos + 1;
    }
    SplitEnd(s, pos);
    assert buf[..] == buf[..pos] + [NUL];
    if bracket != 0 {
      return -1;
    }
  }

  lemma CutNextDepth(cut: Cutting, c: char)
    requires cut.Cutting? && cut.pieces != []
    ensures CutNext(cut, c).Bad? <==> c == ')' && cut.depth == 0
    ensures CutNext(cut, c).Cutting? ==>
              CutNext(cut, c).depth == cut.depth + (if c == '(' then 1 else if c == ')' then -1 else 0)
  {
  }

  lemma SplitStart(s: string)
    ensures Cut(s[..0]) == Cutting([""], 0) && Packed([""]) == [NUL]
  {
    assert Packed([""][..0]) == [];
  }

  lemma SplitStep(s: string, pos: nat)
    requires pos < |s|
    ensures Cut(s[..pos + 1]) == CutNext(Cut(s[..pos]), s[pos])
  {
    assert s[..pos + 1][..pos] == s[..pos];
  }

  lemma SplitEnd(s: string, pos: nat)
    requires pos < |s + [NUL]| && CString(s) && (s + [NUL])[pos] == NUL
    ensures pos == |s| && s[..pos] == s
    ensures Pieces(s) == (if Cut(s).Cutting? && Cut(s).depth == 0 then Some(Cut(s).pieces) else None)
  {
    assert forall i :: 0 <= i < |s| ==> (s + [NUL])[i] == s[i] && s[i] != NUL;
  }

  lemma {:induction false} BadStaysBad(s: string, k: nat)
    requires k <= |s| && Cut(s[..k]).Bad?
    ensures Pieces(s).None?
    decreases |s| - k
  {
    if k == |s| {
      assert s[..k] == s;
    } else {
      SplitStep(s, k);
      BadStaysBad(s, k + 1);
    }
  }
}
