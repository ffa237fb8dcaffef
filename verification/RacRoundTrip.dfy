/** When the RAC parser gives back what the RAC printer wrote. */
module RacRoundTrip {
  import opened Common
  import opened RacText
  import opened RacNumber
  import opened RacString

  // It is exactly when the strings are short enough to be copied and the brackets and commas in them stay
  // inside their places.

  /** The condition a caller can check: no array is empty, every string has fewer than 16383 characters, every
      string of an array of strings is whole with all brackets closed, and every string that stands alone in
      an array of values is so once it is put in brackets. Apart from its length a string at the top may be
      anything, and so may numbers anywhere. */
  ghost predicate Clean(v: Value)
    decreases v, 0
  {
    match v
    case Num(_, _) => true
    case Text(s) => |s| < TEXT_MAX
    case Nums(_, ns) => ns != []
    case Texts(ss) => ss != [] && forall i :: 0 <= i < |ss| ==> Good(ss[i]) && |ss[i]| < TEXT_MAX
    case Vars(vs) => vs != [] && AllClean(vs)
  }

  ghost predicate CleanItem(v: Value)
    decreases v, 1
  {
    Clean(v) && (v.Text? ==> Good("(" + v.s + ")"))
  }

  ghost predicate AllClean(vs: seq<Value>)
    decreases vs, 0
  {
    vs == [] || (AllClean(vs[..|vs| - 1]) && CleanItem(vs[|vs| - 1]))
  }

  // ---------- one element ----------

  lemma {:induction false} IndexOfIs(s: string, c: char, i: nat)
    requires i < |s| && s[i] == c && forall k :: 0 <= k < i ==> s[k] != c
    ensures IndexOf(s, c) == i
  {
  }

  lemma LastIndexOfIs(s: string, c: char, i: nat)
    requires i < |s| && s[i] == c && forall k :: i < k < |s| ==> s[k] != c
    ensures LastIndexOf(s, c) == i
  {
  }

  lemma DigitsPlain(d: nat)
    ensures AllDigits(Digits(d)) && TypeText(Digits(d)) && Atoi(Digits(d)) == d
  {
    DigitsValue(d);
    AtoiDigits(d);
  }

  /** Whatever its text, an element in brackets is read back. */
  lemma BracketedCell(d: nat, t: string)
    ensures CellOf(Bracketed(d, t)) == Some(Cell(d % 0x1_0000, t))
  {
    hide Digits, Atoi, LastIndexOf, IndexOf, TypeText, AllDigits;
    DigitsPlain(d);
    var p, ds := Bracketed(d, t), Digits(d);
    var rest, n := ds + "," + t + ")", |ds| + 1 + |t|;
    assert p[1..] == rest && p[0] == '(' && p[..0] == "";
    IndexOfIs(p, '(', 0);
    assert rest[n] == ')' && rest[n + 1..] == "";
    LastIndexOfIs(rest, ')', n);
    assert rest[..n] == ds + "," + t;
    CommaAfter(ds, t);
    assert rest[..|ds|] == ds && rest[|ds| + 1..n] == t;
  }

  /** What an element is made of: blanks, a bracket, its type in digits and blanks, a comma, its text, and a
      bracket followed by blanks. */
  predicate Made(q: string, a: string, ty: string, t: string, b: string) {
    && q == a + "(" + ty + "," + t + ")" + b
    && (forall i :: 0 <= i < |a| ==> a[i] == ' ') && (forall i :: 0 <= i < |b| ==> b[i] == ' ')
    && (forall i :: 0 <= i < |ty| ==> ty[i] == ' ' || '0' <= ty[i] <= '9')
  }

  /** A text is an element exactly if it is made like that; type and text are what is read. */
  lemma MadeIsCell(q: string, a: string, ty: string, t: string, b: string)
    requires Made(q, a, ty, t, b)
    ensures CellOf(q) == Some(Cell(Atoi(ty) % 0x1_0000, t))
  {
    hide Atoi, LastIndexOf, IndexOf;
    var inner := ty + "," + t;
    var rest := inner + ")" + b;
    assert q == a + "(" + rest;
    assert '(' !in a && ')' !in b && ',' !in ty;
    FirstCut(a, '(', rest);
    LastCut(inner, ')', b);
    FirstCut(ty, ',', t);
    assert Blank(a) && Blank(b) && TypeText(ty);
    assert rest[..|ty|] == inner[..|ty|] && rest[|ty| + 1..|inner|] == inner[|ty| + 1..];
  }

  /** A text is cut at the first place of a character, or at its last one. */
  lemma FirstCut(a: string, c: char, b: string)
    requires c !in a
    ensures var s := a + [c] + b; IndexOf(s, c) == |a| && s[..|a|] == a && s[|a| + 1..] == b
  {
    IndexOfIs(a + [c] + b, c, |a|);
  }

  lemma LastCut(a: string, c: char, b: string)
    requires c !in b
    ensures var s := a + [c] + b; LastIndexOf(s, c) == |a| && s[..|a|] == a && s[|a| + 1..] == b
  {
    LastIndexOfIs(a + [c] + b, c, |a|);
  }

  lemma CellIsMade(q: string) returns (a: string, ty: string, t: string, b: string)
    requires CellOf(q).Some?
    ensures Made(q, a, ty, t, b) && CellOf(q) == Some(Cell(Atoi(ty) % 0x1_0000, t))
  {
    hide Atoi, LastIndexOf, IndexOf;
    var open := IndexOf(q, '(');
    var rest := q[open + 1..];
    var close := LastIndexOf(rest, ')');
    var comma := IndexOf(rest[..close], ',');
    a, ty, t, b := q[..open], rest[..comma], rest[comma + 1..close], rest[close + 1..];
    assert rest[..close][comma] == ',' && rest[..close][..comma] == ty;
    assert rest == ty + "," + t + ")" + b;
    assert q == a + "(" + rest;
  }

  /** When printing goes wrong: at the first element that cannot be printed or has no text. */
  predicate Spoils(v: Value, e: Error) {
    if Fault(v).Some? then e == Fault(v).value else Hollow(v) && e == NullPointer
  }

  lemma {:induction false} FaultExactly(vs: seq<Value>, e: Error)
    ensures FaultAmong(vs) == Some(e)
            <==> exists k :: 0 <= k < |vs| && Spoils(vs[k], e) && FirstSpoilt(vs, k)
    ensures FaultAmong(vs) == None <==> FirstSpoilt(vs, |vs|)
  {
    hide Fault, Hollow;
    if vs != [] {
      var n := |vs| - 1;
      FaultExactly(vs[..n], e);
      assert forall k :: 0 <= k < n ==> vs[..n][k] == vs[k];
      assert forall k :: 0 <= k <= n ==> (FirstSpoilt(vs[..n], k) <==> FirstSpoilt(vs, k));
    }
  }

  /** Nothing is wrong with the elements before this one. */
  predicate FirstSpoilt(vs: seq<Value>, k: nat) {
    k <= |vs| && forall i :: 0 <= i < k ==> Fault(vs[i]) == None && !Hollow(vs[i])
  }

  /** What is printed: nothing exactly for an array without elements, an overrun for a lone string whose
      length, counted in 16 bits, is 16383 or more, and otherwise what is left of it. */
  lemma PrintedExactly(v: Value)
    ensures Printed(v) == Ok(None) <==> v == Texts([]) || v == Vars([]) || (v.Nums? && v.ns == [])
    ensures v.Text? ==> Printed(v) == LonePrint(v.s)
  {
    if v.Text? {
      hide Copied;
      CopiedExactly(v.s);
      LonePrinted(v.s);
    }
  }

  function LonePrint(s: string): Result<Option<string>, Error> {
    if |s| % 0x1_0000 < 16383 then Ok(Some(s[..|s| % 0x1_0000])) else Err(Overrun)
  }

  lemma LonePrinted(s: string)
    ensures Printed(Text(s)) == LonePrint(s)
  {
    hide Copied;
    CopiedExactly(s);
    assert Fault(Text(s)) == if Copied(s).Ok? then None else Some(Overrun);
  }

  lemma CommaAfter(ds: string, t: string)
    requires AllDigits(ds)
    ensures IndexOf(ds + "," + t, ',') == |ds|
  {
    var s := ds + "," + t;
    assert s[|ds|] == ',' && forall k :: 0 <= k < |ds| ==> s[k] == ds[k];
    IndexOfIs(s, ',', |ds|);
  }

  lemma TypeFits(v: Value)
    requires Proper(v)
    ensures TypeOf(v) < 0x1_0000
  {
  }

  /** An element as printed is read as its value exactly if its text is. */
  lemma ItemParses(v: Value)
    requires Proper(v)
    ensures ParseItem(Item(v)) == Parse(TypeOf(v), Print(v))
  {
    hide CellOf, Parse, Print, Bracketed, TypeOf, Proper;
    BracketedCell(TypeOf(v), Print(v));
    TypeFits(v);
  }

  // ---------- only the printed text is read as the value ----------

  /** One text begins with the other; if the second is the shorter, a closing bracket follows. */
  ghost predicate Related(r: string, t: string) {
    r <= t || (t < r && r[|t|] == ')')
  }

  /** q is cut short, or goes on after the end of i. */
  ghost predicate Clash(q: string, i: string) {
    q < i || (i < q && (q[|i|] == ',' || q[|i|] == ')'))
  }

  lemma JoinHead(parts: seq<string>)
    requires |parts| > 1
    ensures Join(parts) == parts[0] + "," + Join(parts[1..])
  {
    hide Join;
    var n := |parts| - 1;
    var first, last := parts[..n], parts[n];
    assert parts == first + [last];
    JoinSnoc(first, last);
    if n == 1 {
      JoinOne(parts[0]);
      JoinOne(last);
      assert first == [parts[0]] && parts[1..] == [last];
    } else {
      JoinHead(first);
      JoinSnoc(first[1..], last);
      assert parts[1..] == first[1..] + [last];
    }
  }

  /** Two lists of parts whose joins are related are the same, unless two parts clash. */
  lemma {:induction false} JoinUnique(qs: seq<string>, parts: seq<string>)
    requires |qs| == |parts| >= 1 && Related(Join(qs), Join(parts))
    requires forall k :: 0 <= k < |qs| ==> !Clash(qs[k], parts[k])
    ensures qs == parts
  {
    hide Join;
    var q, i, r, t := qs[0], parts[0], Join(qs), Join(parts);
    if |qs| == 1 {
      JoinOne(q);
      JoinOne(i);
      assert qs == [q] && parts == [i];
      assert q <= i ==> q < i || q == i;
    } else {
      JoinHead(qs);
      JoinHead(parts);
      Heads(r, t, q, i, Join(qs[1..]), Join(parts[1..]));
      JoinUnique(qs[1..], parts[1..]);
      assert qs == [q] + qs[1..] && parts == [i] + parts[1..];
    }
  }

  lemma Heads(r: string, t: string, q: string, i: string, r1: string, t1: string)
    requires Related(r, t) && r == q + "," + r1 && t == i + "," + t1 && !Clash(q, i)
    ensures q == i && Related(r1, t1)
  {
    HeadsEqualOrClash(r, t, q, i, r1, t1);
    assert r1 == r[|q| + 1..] && t1 == t[|i| + 1..];
  }

  lemma HeadsEqualOrClash(r: string, t: string, q: string, i: string, r1: string, t1: string)
    requires Related(r, t) && r == q + "," + r1 && t == i + "," + t1
    ensures q == i || Clash(q, i)
  {
    var n := if |r| <= |t| then |r| else |t|;
    assert forall k :: 0 <= k < n ==> r[k] == t[k];
    assert forall k :: 0 <= k < |q| ==> r[k] == q[k];
    assert forall k :: 0 <= k < |i| ==> t[k] == i[k];
    if |q| < |i| {
      assert q == i[..|q|];
    } else if |q| > |i| {
      assert i == q[..|i|];
      assert q[|i|] == r[|i|] == t[|i|] == ',';
    } else {
      assert q == i;
    }
  }

  lemma LongText(rest: string, ds: string, t: string, close: int)
    requires AllDigits(ds) && ds + "," + t + ")" < rest && close == LastIndexOf(rest, ')')
    requires var n := |ds + "," + t + ")"|; rest[n] == ',' || rest[n] == ')'
    requires close >= 0 && Blank(rest[close + 1..])
    ensures close > |ds| && rest[..|ds|] == ds && IndexOf(rest[..close], ',') == |ds|
    ensures t < rest[|ds| + 1..close] && rest[|ds| + 1..close][|t|] == ')'
  {
    hide LastIndexOf, IndexOf;
    var p := ds + "," + t + ")";
    var n := |p|;
    assert rest[..n] == p;
    assert rest[n - 1] == p[n - 1] == ')';
    assert close >= n - 1;
    assert forall k {:trigger rest[k]} :: close < k < |rest| ==> rest[k] == rest[close + 1..][k - close - 1] == ' ';
    assert close >= n;
    assert forall k :: 0 <= k < n ==> rest[k] == p[k];
    assert rest[..|ds|] == p[..|ds|] == ds;
    IndexOfIs(rest[..close], ',', |ds|);
    assert rest[|ds| + 1..close][..|t|] == p[|ds| + 1..n - 1] == t;
  }

  lemma ShortText(rest: string, ds: string, t: string, close: nat)
    requires AllDigits(ds) && rest < ds + "," + t + ")" && close < |rest|
    requires IndexOf(rest[..close], ',') >= 0
    ensures close > |ds| && rest[..|ds|] == ds && IndexOf(rest[..close], ',') == |ds|
    ensures rest[|ds| + 1..close] < t
  {
    hide IndexOf;
    var p := ds + "," + t + ")";
    assert forall k :: 0 <= k < |rest| ==> rest[k] == p[k];
    var comma := IndexOf(rest[..close], ',');
    assert forall k :: 0 <= k < |ds| && k < |rest| ==> rest[k] == ds[k] && rest[k] != ',';
    assert comma >= |ds|;
    assert p[|ds|] == ',';
    IndexOfIs(rest[..close], ',', |ds|);
    assert rest[..|ds|] == p[..|ds|] == ds;
    assert rest[|ds| + 1..close] == p[|ds| + 1..close] == t[..close - |ds| - 1];
  }

  lemma CellShape(q: string)
    requires q != "" && q[0] == '(' && CellOf(q).Some?
    ensures var rest := q[1..];
            var close := LastIndexOf(rest, ')');
            close >= 0 && Blank(rest[close + 1..])
    ensures var rest := q[1..];
            var close := LastIndexOf(rest, ')');
            var comma := IndexOf(rest[..close], ',');
            comma >= 0 && CellOf(q).value == Cell(Atoi(rest[..comma]) % 0x1_0000, rest[comma + 1..close])
  {
    hide LastIndexOf, Atoi, Blank, TypeText;
    IndexOfIs(q, '(', 0);
    hide IndexOf;
  }

  /** An element that clashes with a printed one is read as something else: same type, but a text that
      is not the printed one though it begins like it. */
  lemma ClashedCell(d: nat, t: string, q: string)
    requires Clash(q, Bracketed(d, t)) && CellOf(q).Some?
    ensures var c := CellOf(q).value;
            c.vt == d % 0x1_0000 && c.text != t && Related(c.text, t)
  {
    hide Digits, Atoi, LastIndexOf, IndexOf, CellOf, TypeText, Blank, AllDigits;
    DigitsPlain(d);
    var p, ds := Bracketed(d, t), Digits(d);
    var p1 := ds + "," + t + ")";
    assert p == "(" + p1 && p[1..] == p1;
    assert q != "" && q[0] == p[0] == '(';
    CellShape(q);
    var rest := q[1..];
    var close := LastIndexOf(rest, ')');
    if q < p {
      assert rest == p1[..|rest|];
      ShortText(rest, ds, t, close);
    } else {
      assert p1 == rest[..|p1|] && rest[|p1|] == q[|p|];
      LongText(rest, ds, t, close);
    }
  }

  // ---------- the elements of an array ----------

  lemma {:induction false} ItemsAt(vs: seq<Value>, k: nat)
    requires k < |vs|
    ensures Items(vs)[k] == Item(vs[k])
  {
    if k < |vs| - 1 {
      ItemsAt(vs[..|vs| - 1], k);
    }
  }

  lemma {:induction false} AllProperAt(vs: seq<Value>, k: nat)
    requires k < |vs| && AllProper(vs)
    ensures Proper(vs[k])
  {
    if k < |vs| - 1 {
      AllProperAt(vs[..|vs| - 1], k);
    }
  }

  lemma {:induction false} AllCleanExactly(vs: seq<Value>)
    ensures AllClean(vs) <==> forall k :: 0 <= k < |vs| ==> CleanItem(vs[k])
  {
    if vs != [] {
      AllCleanExactly(vs[..|vs| - 1]);
      assert forall k :: 0 <= k < |vs| - 1 ==> vs[..|vs| - 1][k] == vs[k];
    }
  }

  /** The elements are read one by one. */
  lemma {:induction false} ItemsParsed(ps: seq<string>, n: nat, vs: seq<Value>)
    requires |ps| == |vs| && forall i :: 0 <= i < |ps| ==> |ps[i]| <= n
    ensures ParseItems(ps, n) == Ok(vs) <==> forall k :: 0 <= k < |ps| ==> ParseItem(ps[k]) == Ok(vs[k])
  {
    hide ParseItem;
    if ps != [] {
      var m := |ps| - 1;
      ItemsParsed(ps[..m], n, vs[..m]);
      assert vs == vs[..m] + [vs[m]];
      assert forall k :: 0 <= k < m ==> ps[..m][k] == ps[k] && vs[..m][k] == vs[k];
    }
  }

  lemma {:induction false} NumsParsed(vt: nat, ps: seq<string>, ns: seq<int>)
    requires Numeric(vt) && |ps| == |ns|
    ensures ParseNums(vt, ps) == Ok(ns) <==> forall k :: 0 <= k < |ps| ==> ToNumber(vt, ps[k]) == Ok(ns[k])
  {
    hide ToNumber;
    if ps != [] {
      var m := |ps| - 1;
      NumsParsed(vt, ps[..m], ns[..m]);
      assert ns == ns[..m] + [ns[m]];
      assert forall k :: 0 <= k < m ==> ps[..m][k] == ps[k] && ns[..m][k] == ns[k];
    }
  }

  lemma VarsParsed(r: string, vs: seq<Value>)
    ensures Parse(VT_ARRAY + VT_VARIANT, r) == Ok(Vars(vs))
            <==> && Pieces(r).Some? && |Pieces(r).value| == |vs|
                 && forall k :: 0 <= k < |vs| ==> ParseItem(Pieces(r).value[k]) == Ok(vs[k])
  {
    hide ParseItem, Pieces, ParseItems;
    PiecesShort(r);
    if Pieces(r).Some? && |Pieces(r).value| == |vs| {
      ItemsParsed(Pieces(r).value, |r|, vs);
    }
  }

  lemma NumsParsedAs(vt: nat, r: string, ns: seq<int>)
    requires Numeric(vt)
    ensures Parse(VT_ARRAY + vt, r) == Ok(Nums(vt, ns))
            <==> && Pieces(r).Some? && |Pieces(r).value| == |ns|
                 && forall k :: 0 <= k < |ns| ==> ToNumber(vt, Pieces(r).value[k]) == Ok(ns[k])
  {
    hide Pieces, ParseNums, ToNumber;
    PiecesShort(r);
    if Pieces(r).Some? && |Pieces(r).value| == |ns| {
      NumsParsed(vt, Pieces(r).value, ns);
    }
  }

  lemma NumParsed(vt: nat, r: string, n: int)
    requires Numeric(vt)
    ensures Parse(vt, r) == Ok(Num(vt, n))
            <==> Pieces(r).Some? && |Pieces(r).value| <= 1 && ToNumber(vt, r) == Ok(n)
  {
    hide Pieces, ToNumber;
    PiecesShort(r);
  }

  lemma {:induction false} CopiesParsed(ps: seq<string>, ss: seq<string>)
    requires |ps| == |ss|
    ensures ParseTexts(ps) == Ok(ss) <==> forall k :: 0 <= k < |ps| ==> Copied(ps[k]) == Ok(ss[k])
  {
    hide Copied;
    if ps != [] {
      var m := |ps| - 1;
      CopiesParsed(ps[..m], ss[..m]);
      assert ss == ss[..m] + [ss[m]];
      assert forall k :: 0 <= k < m ==> ps[..m][k] == ps[k] && ss[..m][k] == ss[k];
    }
  }

  lemma TextsParsed(r: string, ss: seq<string>)
    ensures Parse(VT_ARRAY + VT_BSTR, r) == Ok(Texts(ss))
            <==> && Pieces(r).Some? && |Pieces(r).value| == |ss|
                 && forall k :: 0 <= k < |ss| ==> Copied(Pieces(r).value[k]) == Ok(ss[k])
  {
    hide Pieces, ParseTexts, Copied;
    PiecesShort(r);
    if Pieces(r).Some? && |Pieces(r).value| == |ss| {
      CopiesParsed(Pieces(r).value, ss);
    }
  }

  lemma TextParsed(r: string, s: string)
    ensures Parse(VT_BSTR, r) == Ok(Text(s)) <==> Copied(r) == Ok(s)
  {
    hide Copied;
  }

  // ---------- only the printed text, value by value ----------

  /** A text that begins like a printed number but is not one reads as something else. */
  lemma NoNumberClash(vt: nat, n: int, q: string)
    requires Numeric(vt) && InRange(vt, n) && ToNumber(vt, q) == Ok(n) && |q| < 0x1_0000
    ensures !Clash(q, Decimal(n))
  {
    hide Convert, Decimal, Copied;
    CopiedExactly(q);
    var i := Decimal(n);
    if q < i {
      assert q == i[..|q|];
      ConvertCut(vt, n, |q|);
    } else if i < q && (q[|i|] == ',' || q[|i|] == ')') {
      assert q == i + q[|i|..];
      ConvertSpoiled(vt, n, q[|i|..]);
    }
  }

  lemma NumsOnly(vt: nat, ns: seq<int>, r: string)
    requires Proper(Nums(vt, ns)) && Parse(VT_ARRAY + vt, r) == Ok(Nums(vt, ns)) && |r| < 0x1_0000
    requires Related(r, Join(Decimals(ns)))
    ensures r == Join(Decimals(ns))
  {
    hide Parse, Pieces, ToNumber, Clash;
    NumsParsedAs(vt, r, ns);
    PiecesFind(r);
    PiecesShort(r);
    var ps := Pieces(r).value;
    forall k | 0 <= k < |ps|
      ensures !Clash(ps[k], Decimals(ns)[k])
    {
      NoNumberClash(vt, ns[k], ps[k]);
    }
    JoinUnique(ps, Decimals(ns));
  }

  /** Among all texts of fewer than 65536 characters that begin like the print of a value only the print
      itself is read as that value. */
  lemma {:induction false} PrintedOnly(v: Value, r: string)
    requires Proper(v) && Parse(TypeOf(v), r) == Ok(v) && Related(r, Print(v)) && |r| < 0x1_0000
    ensures r == Print(v)
    decreases v, 1
  {
    hide Pieces, Related, Copied;
    match v
    case Text(s) =>
      hide Parse;
      TextParsed(r, s);
      CopiedExactly(r);
      assert s[..|s|] == s;
    case Num(vt, n) =>
      hide Parse, ToNumber;
      NumParsed(vt, r, n);
      NoNumberClash(vt, n, r);
      RelatedEqual(r, Print(v));
    case Nums(vt, ns) =>
      hide Parse;
      NumsOnly(vt, ns, r);
    case Texts(ss) =>
      hide Parse;
      TextsWhole(r, ss);
      PiecesFind(r);
    case Vars(vs) =>
      hide Parse;
      VarsOnly(vs, r);
      PiecesFind(r);
  }

  lemma TextsWhole(r: string, ss: seq<string>)
    requires Parse(VT_ARRAY + VT_BSTR, r) == Ok(Texts(ss)) && |r| < 0x1_0000
    ensures Pieces(r) == Some(ss)
  {
    hide Parse, Pieces, Copied;
    TextsParsed(r, ss);
    PiecesShort(r);
    forall k | 0 <= k < |ss|
      ensures Pieces(r).value[k] == ss[k]
    {
      CopiedExactly(Pieces(r).value[k]);
    }
    assert Pieces(r).value == ss;
  }

  /** A longer text need not be the print: here 65536 characters are lost in the copy. */
  lemma LongTextReadsShort(t: string)
    requires |t| == 0x1_0000 && t[0] == ')'
    ensures Related("a" + t, Print(Text("a"))) && "a" + t != Print(Text("a"))
    ensures Parse(VT_BSTR, "a" + t) == Ok(Text("a"))
  {
    TextParsed("a" + t, "a");
    assert |"a" + t| % 0x1_0000 == 1 && ("a" + t)[..1] == "a" == "a"[..1];
    assert Print(Text("a")) == "a" && "a" < "a" + t;
  }

  lemma RelatedEqual(r: string, t: string)
    requires Related(r, t) && !Clash(r, t)
    ensures r == t
  {
    assert r <= t ==> r < t || r == t;
  }

  lemma {:induction false} VarsOnly(vs: seq<Value>, r: string)
    requires AllProper(vs) && Parse(VT_ARRAY + VT_VARIANT, r) == Ok(Vars(vs)) && |r| < 0x1_0000
    requires Related(r, Join(Items(vs)))
    ensures Pieces(r) == Some(Items(vs))
    decreases vs, 2
  {
    hide Parse, Pieces, Clash, ParseItem, Related, Items, Item;
    VarsParsed(r, vs);
    PiecesFind(r);
    PiecesShort(r);
    var ps := Pieces(r).value;
    forall k | 0 <= k < |ps|
      ensures !Clash(ps[k], Items(vs)[k])
    {
      AllProperAt(vs, k);
      ItemsAt(vs, k);
      NoItemClash(vs[k], ps[k]);
    }
    JoinUnique(ps, Items(vs));
  }

  lemma {:induction false} NoItemClash(v: Value, q: string)
    requires Proper(v) && ParseItem(q) == Ok(v) && |q| < 0x1_0000
    ensures !Clash(q, Item(v))
    decreases v, 2
  {
    hide Parse, CellOf, Clash, Related, Bracketed, Print, TypeOf, Proper;
    if Clash(q, Item(v)) {
      ClashedCell(TypeOf(v), Print(v), q);
      TypeFits(v);
      PrintedOnly(v, CellOf(q).value.text);
      assert false;
    }
  }

  // ---------- closing brackets ----------

  /** The number of closing brackets. */
  function Closes(s: string): nat {
    if s == [] then 0 else Closes(s[..|s| - 1]) + (if s[|s| - 1] == ')' then 1 else 0)
  }

  lemma {:induction false} ClosesConcat(a: string, b: string)
    ensures Closes(a + b) == Closes(a) + Closes(b)
  {
    if b == [] {
      assert a + b == a;
    } else {
      ClosesConcat(a, b[..|b| - 1]);
      assert (a + b)[..|a + b| - 1] == a + b[..|b| - 1];
    }
  }

  lemma {:induction false} NoCloses(s: string)
    ensures Closes(s) == 0 <==> forall i :: 0 <= i < |s| ==> s[i] != ')'
  {
    if s != [] {
      NoCloses(s[..|s| - 1]);
      assert forall i :: 0 <= i < |s| - 1 ==> s[..|s| - 1][i] == s[i];
    }
  }

  lemma ClosesPrefix(a: string, s: string)
    requires a <= s
    ensures Closes(a) <= Closes(s)
  {
    ClosesConcat(a, s[|a|..]);
    assert a + s[|a|..] == s;
  }

  /** If every part has as many closing brackets as the one in its place, so has the join; and if the joins
      have equally many, so have the parts. */
  lemma {:induction false} JoinCloses(ps: seq<string>, qs: seq<string>)
    requires |ps| == |qs| && forall k :: 0 <= k < |ps| ==> Closes(ps[k]) >= Closes(qs[k])
    ensures Closes(Join(ps)) >= Closes(Join(qs))
    ensures Closes(Join(ps)) == Closes(Join(qs)) ==> forall k :: 0 <= k < |ps| ==> Closes(ps[k]) == Closes(qs[k])
  {
    hide Closes;
    if |ps| > 1 {
      var n := |ps| - 1;
      JoinCloses(ps[..n], qs[..n]);
      ClosesConcat(Join(ps[..n]) + ",", ps[n]);
      ClosesConcat(Join(ps[..n]), ",");
      ClosesConcat(Join(qs[..n]) + ",", qs[n]);
      ClosesConcat(Join(qs[..n]), ",");
      assert forall k :: 0 <= k < n ==> ps[..n][k] == ps[k] && qs[..n][k] == qs[k];
    }
  }

  lemma DecimalCloses(n: int)
    ensures Closes(Decimal(n)) == 0
  {
    hide Decimal;
    DecimalPlain(n);
    NoCloses(Decimal(n));
  }

  lemma BracketedCloses(d: nat, t: string)
    ensures Closes(Bracketed(d, t)) == Closes(t) + 1
  {
    hide Closes, Digits;
    DigitsValue(d);
    var m := "(" + Digits(d) + ",";
    NoCloses(m);
    NoCloses(")");
    ClosesConcat(m, t);
    ClosesConcat(m + t, ")");
    assert ")" == [] + [')'] && (")")[0] == ')';
    OneClose();
    assert Bracketed(d, t) == m + t + ")";
  }

  lemma OneClose()
    ensures Closes(")") == 1
  {
    assert ")"[..0] == "";
  }

  /** An element has a closing bracket more than its text, at least. */
  lemma CellCloses(q: string)
    requires CellOf(q).Some?
    ensures Closes(q) >= Closes(CellOf(q).value.text) + 1
  {
    hide Closes, IndexOf, LastIndexOf, Atoi, Blank, TypeText;
    var open := IndexOf(q, '(');
    var rest := q[open + 1..];
    var close := LastIndexOf(rest, ')');
    var comma := IndexOf(rest[..close], ',');
    var a, t, b := q[..open + 1] + rest[..comma + 1], rest[comma + 1..close], rest[close + 1..];
    assert rest[..close][comma] == ',';
    assert q == a + t + ")" + b;
    ClosesConcat(a, t);
    ClosesConcat(a + t, ")");
    ClosesConcat(a + t + ")", b);
    OneClose();
  }

  /** A text that is read as a value has at least as many closing brackets as the print of the value. */
  lemma {:induction false} ReadCloses(v: Value, r: string)
    requires Parse(TypeOf(v), r) == Ok(v)
    ensures Closes(r) >= Closes(Print(v))
    decreases v, 0
  {
    hide Closes, Pieces, Copied, ToNumber, Join, Decimal;
    match v
    case Num(vt, n) =>
      DecimalCloses(n);
    case Text(s) =>
      TextParsed(r, s);
      CopiedExactly(r);
      ClosesPrefix(s, r);
      assert s[..|s|] == s;
    case Nums(vt, ns) =>
      PiecesShort(r);
      PiecesFind(r);
      forall k | 0 <= k < |ns|
        ensures Closes(Decimals(ns)[k]) <= Closes(Pieces(r).value[k])
      {
        DecimalCloses(ns[k]);
      }
      JoinCloses(Pieces(r).value, Decimals(ns));
    case Texts(ss) =>
      hide Parse;
      TextsParsed(r, ss);
      PiecesFind(r);
      forall k | 0 <= k < |ss|
        ensures Closes(ss[k]) <= Closes(Pieces(r).value[k])
      {
        CopiedExactly(Pieces(r).value[k]);
        ClosesPrefix(ss[k], Pieces(r).value[k]);
      }
      JoinCloses(Pieces(r).value, ss);
    case Vars(vs) =>
      hide Parse;
      ItemsRead(vs, r);
      PiecesFind(r);
      JoinCloses(Pieces(r).value, Items(vs));
  }

  lemma {:induction false} ItemsRead(vs: seq<Value>, r: string)
    requires Parse(VT_ARRAY + VT_VARIANT, r) == Ok(Vars(vs))
    ensures Pieces(r).Some? && |Pieces(r).value| == |vs|
    ensures forall k :: 0 <= k < |vs| ==> Closes(Pieces(r).value[k]) >= Closes(Items(vs)[k])
    decreases vs, 1
  {
    hide Parse, Closes, Pieces, ParseItem, Items, Item, CellOf, Bracketed, Print, TypeOf;
    VarsParsed(r, vs);
    forall k | 0 <= k < |vs|
      ensures Closes(Pieces(r).value[k]) >= Closes(Items(vs)[k])
    {
      var p, v := Pieces(r).value[k], vs[k];
      ItemsAt(vs, k);
      ItemIsCell(v, p);
      CellCloses(p);
      ReadCloses(v, CellOf(p).value.text);
      BracketedCloses(TypeOf(v), Print(v));
    }
  }

  lemma ParsedType(vt: nat, r: string, v: Value)
    requires Parse(vt, r) == Ok(v)
    ensures TypeOf(v) == vt
  {
    hide Pieces, Copied, ToNumber;
    PiecesShort(r);
  }

  lemma ItemIsCell(v: Value, p: string)
    requires ParseItem(p) == Ok(v)
    ensures CellOf(p).Some? && Parse(TypeOf(v), CellOf(p).value.text) == Ok(v)
    ensures Item(v) == Bracketed(TypeOf(v), Print(v))
  {
    hide CellOf, Parse, Bracketed, Print;
    ParsedType(CellOf(p).value.vt, CellOf(p).value.text, v);
  }

  /** An element with as many closing brackets as a printed one neither stops inside it nor goes on behind
      it. */
  lemma NoClashByCount(v: Value, q: string)
    requires ParseItem(q) == Ok(v) && Closes(q) == Closes(Item(v))
    ensures !Clash(q, Item(v))
  {
    hide Closes, CellOf, Parse, Print, Digits, TypeOf;
    var i := Item(v);
    ItemIsCell(v, q);
    assert i[|i| - 1] == ')';
    if q < i {
      var rest := i[|q|..];
      assert i == q + rest && rest[|rest| - 1] == ')';
      ClosesConcat(q, rest);
      NoCloses(rest);
    } else if i < q && (q[|i|] == ',' || q[|i|] == ')') {
      var tail := q[|i|..];
      assert q == i + tail && tail[0] == q[|i|];
      ClosesConcat(i, tail);
      NoCloses(tail);
      BlankTail(q, |i|);
    }
  }

  lemma BlankTail(q: string, n: nat)
    requires CellOf(q).Some? && n < |q| && forall k :: n <= k < |q| ==> q[k] != ')'
    ensures q[n] == ' ' || exists k :: n <= k < |q| && q[k] == ')'
  {
    hide Atoi, TypeText, IndexOf, LastIndexOf;
    var open := IndexOf(q, '(');
    var rest := q[open + 1..];
    var close := LastIndexOf(rest, ')');
    assert q[open + 1 + close] == rest[close] == ')';
    assert open + 1 + close < n;
    assert rest[close + 1..][n - open - 2 - close] == q[n];
  }

  /** If the print of an array of values is read as that array, its pieces are the printed elements. */
  lemma PrintedPieces(vs: seq<Value>)
    requires Parse(VT_ARRAY + VT_VARIANT, Join(Items(vs))) == Ok(Vars(vs))
    ensures Pieces(Join(Items(vs))) == Some(Items(vs))
  {
    hide Parse, Pieces, Clash, ParseItem, Closes, Items, Item;
    var r := Join(Items(vs));
    VarsParsed(r, vs);
    PiecesFind(r);
    var ps := Pieces(r).value;
    ItemsRead(vs, r);
    JoinCloses(ps, Items(vs));
    forall k | 0 <= k < |ps|
      ensures !Clash(ps[k], Items(vs)[k])
    {
      ItemsAt(vs, k);
      NoClashByCount(vs[k], ps[k]);
    }
    JoinUnique(ps, Items(vs));
  }

  // ---------- brackets around a text ----------

  /** A text that may stand after the type of an element: seen from there it closes at most the bracket
      of the element, and opens it again before a comma. */
  ghost predicate Inner(s: string) {
    && (forall i :: 0 <= i <= |s| ==> Depth(s[..i]) >= -1)
    && (forall i :: 0 <= i < |s| && s[i] == ',' ==> Depth(s[..i]) >= 0)
    && Depth(s) == 0
  }

  ghost predicate NoBrackets(s: string) {
    forall i :: 0 <= i < |s| ==> s[i] != '(' && s[i] != ')'
  }

  lemma {:induction false} DepthConcat(a: string, b: string)
    ensures Depth(a + b) == Depth(a) + Depth(b)
  {
    if b == [] {
      assert a + b == a;
    } else {
      var n := |b| - 1;
      DepthConcat(a, b[..n]);
      assert a + b == a + b[..n] + [b[n]] && b == b[..n] + [b[n]];
      DepthNext(a + b[..n], b[n]);
      DepthNext(b[..n], b[n]);
    }
  }

  lemma {:induction false} DepthFlat(s: string)
    requires NoBrackets(s)
    ensures Depth(s) == 0
  {
    if s != [] {
      DepthFlat(s[..|s| - 1]);
    }
  }

  lemma DepthBracket()
    ensures Depth("(") == 1 && Depth(")") == -1
  {
    assert "("[..0] == "" && ")"[..0] == "";
  }

  /** The depths inside an element. */
  lemma DepthInBrackets(m: string, s: string, i: nat)
    requires NoBrackets(m)
    ensures var t := "(" + m + s + ")";
            && (0 < i <= 1 + |m| ==> Depth(t[..i]) == 1)
            && (i <= |s| ==> Depth(t[..1 + |m| + i]) == 1 + Depth(s[..i]))
            && Depth(t) == Depth(s)
  {
    hide Depth, NoBrackets;
    var a := "(" + m;
    DepthHead(m, |a|);
    assert a[..|a|] == a;
    if 0 < i <= |a| {
      DepthHead(m, i);
      assert (a + s + ")")[..i] == a[..i];
    }
    if i <= |s| {
      DepthConcat(a, s[..i]);
      assert (a + s + ")")[..1 + |m| + i] == a + s[..i];
    }
    DepthConcat(a, s);
    DepthConcat(a + s, ")");
    DepthBracket();
  }

  lemma DepthHead(m: string, i: nat)
    requires NoBrackets(m) && 0 < i <= 1 + |m|
    ensures Depth(("(" + m)[..i]) == 1
  {
    hide Depth;
    assert ("(" + m)[..i] == "(" + m[..i - 1];
    DepthConcat("(", m[..i - 1]);
    DepthFlat(m[..i - 1]);
    DepthBracket();
  }

  lemma DepthEmpty()
    ensures Depth("") == 0
  {
  }

  lemma GoodInBrackets(m: string, s: string)
    requires NoBrackets(m) && Inner(s)
    ensures Good("(" + m + s + ")")
  {
    hide Depth;
    var t, n := "(" + m + s + ")", 1 + |m|;
    DepthInBrackets(m, s, 0);
    DepthEmpty();
    forall i | 0 <= i <= |t|
      ensures Depth(t[..i]) >= 0 && (i < |t| && t[i] == ',' ==> Depth(t[..i]) > 0)
    {
      if i == 0 {
        assert t[..0] == "";
      } else if i <= n {
        DepthInBrackets(m, s, i);
        if i == n { DepthInBrackets(m, s, 0); }
      } else if i <= n + |s| {
        DepthInBrackets(m, s, i - n);
        assert i < n + |s| ==> t[i] == s[i - n];
      } else {
        assert t[..i] == t;
      }
    }
  }

  lemma InnerOfGood(m: string, s: string)
    requires NoBrackets(m) && Good("(" + m + s + ")")
    ensures Inner(s)
  {
    hide Depth;
    var t, n := "(" + m + s + ")", 1 + |m|;
    DepthInBrackets(m, s, 0);
    forall i | 0 <= i <= |s|
      ensures Depth(s[..i]) >= -1 && (i < |s| && s[i] == ',' ==> Depth(s[..i]) >= 0)
    {
      DepthInBrackets(m, s, i);
      assert i < |s| ==> t[n + i] == s[i];
      assert Depth(t[..n + i]) >= 0;
    }
  }

  lemma InnerAppend(a: string, b: string)
    requires Inner(a) && Good(b)
    ensures Inner(a + "," + b)
  {
    hide Depth;
    var t, n := a + "," + b, |a| + 1;
    DepthNext(a, ',');
    forall i | 0 <= i <= |t|
      ensures Depth(t[..i]) >= -1 && (i < |t| && t[i] == ',' ==> Depth(t[..i]) >= 0)
    {
      if i < n {
        assert t[..i] == a[..i];
        assert i == |a| ==> t[..i] == a;
      } else {
        assert t[..i] == a + "," + b[..i - n];
        DepthConcat(a + ",", b[..i - n]);
      }
    }
    DepthConcat(a + ",", b);
  }

  lemma {:induction false} InnerJoin(parts: seq<string>)
    requires parts != [] && forall i :: 0 <= i < |parts| ==> Good(parts[i])
    ensures Inner(Join(parts))
  {
    hide Depth;
    if |parts| > 1 {
      InnerJoin(parts[..|parts| - 1]);
      hide Inner, Good;
      InnerAppend(Join(parts[..|parts| - 1]), parts[|parts| - 1]);
    }
  }

  lemma PlainGood(s: string)
    requires NoBrackets(s) && forall i :: 0 <= i < |s| ==> s[i] != ','
    ensures Good(s)
  {
    forall i | 0 <= i <= |s|
      ensures Depth(s[..i]) == 0
    {
      DepthFlat(s[..i]);
    }
    assert s[..|s|] == s;
  }

  lemma DecimalPlain(n: int)
    ensures forall i :: 0 <= i < |Decimal(n)| ==> '-' <= Decimal(n)[i] <= '9'
  {
    var d := if n < 0 then -n else n;
    DigitsValue(d);
    hide Digits, DigitOf, ValueOf;
    var s, ds := Decimal(n), Digits(d);
    forall i | 0 <= i < |s|
      ensures '-' <= s[i] <= '9'
    {
      assert n < 0 && i > 0 ==> s[i] == ds[i - 1];
    }
  }

  lemma DecimalGood(n: int)
    ensures Good(Decimal(n))
  {
    hide Decimal, Good;
    DecimalPlain(n);
    PlainGood(Decimal(n));
  }

  // ---------- the round trip ----------

  /** What a clean value prints as may stand in an element. */
  lemma ItemGoodExactly(v: Value)
    requires Proper(v) && Clean(v)
    requires v.Vars? ==> forall k :: 0 <= k < |v.vs| ==> Good(Item(v.vs[k]))
    ensures Good(Item(v)) <==> CleanItem(v)
  {
    hide Depth, Good, Inner, Join, Digits, Decimal;
    var m := Digits(TypeOf(v)) + ",";
    DigitsValue(TypeOf(v));
    assert NoBrackets(m) && NoBrackets("");
    assert Item(v) == "(" + m + Print(v) + ")";
    match v
    case Text(s) =>
      assert "(" + "" + s + ")" == "(" + s + ")";
      assert s[..|s|] == s;
      if Good(Item(v)) {
        InnerOfGood(m, s);
        GoodInBrackets("", s);
      }
      if Good("(" + s + ")") {
        InnerOfGood("", s);
        GoodInBrackets(m, s);
      }
    case Num(_, n) =>
      DecimalGood(n);
      JoinOne(Decimal(n));
      InnerJoin([Decimal(n)]);
      GoodInBrackets(m, Print(v));
    case Nums(_, ns) =>
      forall k | 0 <= k < |ns| ensures Good(Decimals(ns)[k]) { DecimalGood(ns[k]); }
      InnerJoin(Decimals(ns));
      GoodInBrackets(m, Print(v));
    case Texts(ss) =>
      InnerJoin(ss);
      GoodInBrackets(m, Print(v));
    case Vars(vs) =>
      forall k | 0 <= k < |vs| ensures Good(Items(vs)[k]) { ItemsAt(vs, k); }
      InnerJoin(Items(vs));
      GoodInBrackets(m, Print(v));
  }

  /** The elements of a clean array of values print as good texts. */
  lemma {:induction false} CleanItemsGood(v: Value)
    requires Proper(v) && Clean(v) && v.Vars?
    ensures forall k :: 0 <= k < |v.vs| ==> Good(Item(v.vs[k]))
    decreases v
  {
    AllCleanExactly(v.vs);
    forall k | 0 <= k < |v.vs|
      ensures Good(Item(v.vs[k]))
    {
      AllProperAt(v.vs, k);
      if v.vs[k].Vars? {
        CleanItemsGood(v.vs[k]);
      }
      ItemGoodExactly(v.vs[k]);
    }
  }

  /** What can be the result of reading at all: no array is empty, no string has 16383 characters or more. */
  ghost predicate Readable(v: Value)
    decreases v, 0
  {
    match v
    case Num(_, _) => true
    case Text(s) => |s| < TEXT_MAX
    case Nums(_, ns) => ns != []
    case Texts(ss) => ss != [] && forall i :: 0 <= i < |ss| ==> |ss[i]| < TEXT_MAX
    case Vars(vs) => vs != [] && AllReadable(vs)
  }

  ghost predicate AllReadable(vs: seq<Value>)
    decreases vs, 0
  {
    vs == [] || (AllReadable(vs[..|vs| - 1]) && Readable(vs[|vs| - 1]))
  }

  lemma {:induction false} AllReadableExactly(vs: seq<Value>)
    ensures AllReadable(vs) <==> forall k :: 0 <= k < |vs| ==> Readable(vs[k])
  {
    if vs != [] {
      AllReadableExactly(vs[..|vs| - 1]);
      assert forall k :: 0 <= k < |vs| - 1 ==> vs[..|vs| - 1][k] == vs[k];
    }
  }

  lemma {:induction false} ReadIsReadable(v: Value, r: string)
    requires Parse(TypeOf(v), r) == Ok(v)
    ensures Readable(v)
    decreases v
  {
    hide Pieces, Copied, ToNumber;
    match v
    case Num(vt, n) =>
    case Text(s) =>
      TextParsed(r, s);
      CopiedExactly(r);
    case Nums(vt, ns) =>
      PiecesShort(r);
      PiecesFind(r);
    case Texts(ss) =>
      hide Parse;
      TextsParsed(r, ss);
      PiecesFind(r);
      forall k | 0 <= k < |ss| ensures |ss[k]| < TEXT_MAX { CopiedExactly(Pieces(r).value[k]); }
    case Vars(vs) =>
      hide Parse, ParseItem, CellOf;
      VarsParsed(r, vs);
      PiecesFind(r);
      forall k | 0 <= k < |vs|
        ensures Readable(vs[k])
      {
        ItemIsCell(vs[k], Pieces(r).value[k]);
        ReadIsReadable(vs[k], CellOf(Pieces(r).value[k]).value.text);
      }
      AllReadableExactly(vs);
  }

  /** Nothing goes wrong in printing such a value. */
  lemma {:induction false} ReadablePrinted(v: Value)
    requires Readable(v)
    ensures Fault(v) == None && !Hollow(v)
    decreases v, 0
  {
    hide Copied;
    match v
    case Text(s) => CopiedExactly(s);
    case Vars(vs) => AllReadablePrinted(vs);
    case _ =>
  }

  lemma {:induction false} AllReadablePrinted(vs: seq<Value>)
    requires AllReadable(vs)
    ensures FaultAmong(vs) == None
    decreases vs, 0
  {
    if vs != [] {
      AllReadablePrinted(vs[..|vs| - 1]);
      ReadablePrinted(vs[|vs| - 1]);
    }
  }

  lemma {:induction false} CleanReadable(v: Value)
    requires Clean(v)
    ensures Readable(v)
    decreases v, 0
  {
    if v.Vars? { AllCleanReadable(v.vs); }
  }

  lemma {:induction false} AllCleanReadable(vs: seq<Value>)
    requires AllClean(vs)
    ensures AllReadable(vs)
    decreases vs, 0
  {
    if vs != [] {
      AllCleanReadable(vs[..|vs| - 1]);
      CleanReadable(vs[|vs| - 1]);
    }
  }

  /** The value is printed, and the text is read as the same value. */
  ghost predicate ComesBack(v: Value) {
    && Printed(v).Ok? && Printed(v).value.Some?
    && Parse(TypeOf(v), Printed(v).value.value) == Ok(v)
  }

  /** Parsing what was printed gives the value back exactly if the value is clean, for values nested to
      any depth with strings of any length. */
  lemma RoundTripExactly(v: Value)
    requires Proper(v)
    ensures ComesBack(v) <==> Clean(v)
  {
    hide Parse, Clean, Readable, Print, Fault;
    if Clean(v) { CleanReadable(v); }
    if ComesBack(v) { ReadIsReadable(v, Printed(v).value.value); }
    if Readable(v) {
      ReadablePrinted(v);
      ReadableRoundTrip(v);
    }
  }

  lemma {:induction false} ReadableRoundTrip(v: Value)
    requires Proper(v) && Readable(v)
    ensures Parse(TypeOf(v), Print(v)) == Ok(v) <==> Clean(v)
    decreases v
  {
    hide Parse, Pieces, Good, Convert, Copied, Join, Decimal;
    match v
    case Text(s) =>
      assert s[..|s|] == s;
      TextParsed(s, s);
      CopiedExactly(s);
    case Num(vt, n) =>
      NumParsed(vt, Decimal(n), n);
      DecimalGood(n);
      JoinOne(Decimal(n));
      SplitUndoesJoinExactly([Decimal(n)]);
      ConvertDecimal(vt, n);
      DecimalShort(vt, n);
      CopiedExactly(Decimal(n));
    case Nums(vt, ns) =>
      NumsParsedAs(vt, Join(Decimals(ns)), ns);
      forall k | 0 <= k < |ns|
        ensures Good(Decimals(ns)[k]) && ToNumber(vt, Decimals(ns)[k]) == Ok(ns[k])
      {
        DecimalGood(ns[k]);
        ConvertDecimal(vt, ns[k]);
        DecimalShort(vt, ns[k]);
        CopiedExactly(Decimal(ns[k]));
      }
      SplitUndoesJoinExactly(Decimals(ns));
    case Texts(ss) =>
      TextsRoundTrip(ss);
    case Vars(vs) =>
      VarsRoundTrip(vs);
  }

  lemma TextsRoundTrip(ss: seq<string>)
    requires ss != [] && forall i :: 0 <= i < |ss| ==> |ss[i]| < TEXT_MAX
    ensures Parse(VT_ARRAY + VT_BSTR, Join(ss)) == Ok(Texts(ss)) <==> forall i :: 0 <= i < |ss| ==> Good(ss[i])
  {
    hide Parse, Pieces, Good, Copied, Join;
    var r := Join(ss);
    TextsParsed(r, ss);
    SplitUndoesJoinExactly(ss);
    forall k | 0 <= k < |ss| ensures Copied(ss[k]) == Ok(ss[k]) { CopiedExactly(ss[k]); }
    if Parse(VT_ARRAY + VT_BSTR, r) == Ok(Texts(ss)) {
      PiecesFind(r);
      CopiesAreParts(Pieces(r).value, ss);
    }
  }

  /** Copies that joined are as long as what they were made of are the originals. */
  lemma {:induction false} CopiesAreParts(ps: seq<string>, ss: seq<string>)
    requires |ps| == |ss| && |Join(ps)| <= |Join(ss)|
    requires forall k :: 0 <= k < |ss| ==> Copied(ps[k]) == Ok(ss[k])
    ensures ps == ss
  {
    hide Copied;
    if ps != [] {
      var n := |ps| - 1;
      CopiedExactly(ps[n]);
      CopiesShorter(ps[..n], ss[..n]);
      CopiesAreParts(ps[..n], ss[..n]);
      assert ps == ps[..n] + [ps[n]] && ss == ss[..n] + [ss[n]];
    }
  }

  lemma {:induction false} CopiesShorter(ps: seq<string>, ss: seq<string>)
    requires |ps| == |ss| && forall k :: 0 <= k < |ss| ==> Copied(ps[k]) == Ok(ss[k])
    ensures |Join(ps)| >= |Join(ss)|
  {
    hide Copied;
    if ps != [] {
      var n := |ps| - 1;
      CopiedExactly(ps[n]);
      CopiesShorter(ps[..n], ss[..n]);
    }
  }

  lemma {:induction false} VarsRoundTrip(vs: seq<Value>)
    requires vs != [] && AllProper(vs) && AllReadable(vs)
    ensures Parse(VT_ARRAY + VT_VARIANT, Join(Items(vs))) == Ok(Vars(vs)) <==> AllClean(vs)
    decreases vs
  {
    hide Parse, Pieces, Good, Join, Items, ParseItem, CleanItem;
    var r, items := Join(Items(vs)), Items(vs);
    VarsParsed(r, vs);
    AllCleanExactly(vs);
    AllReadableExactly(vs);
    forall k | 0 <= k < |vs|
      ensures ParseItem(items[k]) == Ok(vs[k]) <==> Clean(vs[k])
      ensures items[k] == Item(vs[k]) && Proper(vs[k])
      ensures CleanItem(vs[k]) ==> Clean(vs[k])
    {
      AllProperAt(vs, k);
      ItemsAt(vs, k);
      ItemParses(vs[k]);
      ReadableRoundTrip(vs[k]);
      CleanItemClean(vs[k]);
    }
    SplitUndoesJoinExactly(items);
    if AllClean(vs) {
      CleanItemsGood(Vars(vs));
    }
    if Parse(VT_ARRAY + VT_VARIANT, r) == Ok(Vars(vs)) {
      PrintedPieces(vs);
      forall k | 0 <= k < |vs|
        ensures CleanItem(vs[k])
      {
        if vs[k].Vars? {
          CleanItemsGood(vs[k]);
        }
        ItemGoodExactly(vs[k]);
      }
    }
  }

  lemma CleanItemClean(v: Value)
    ensures CleanItem(v) ==> Clean(v)
  {
  }

  /** With short strings and no empty array, without brackets in any string, and without commas in the strings
      of arrays, a value is clean and so is read back as it was. */
  ghost predicate Simple(v: Value)
    decreases v, 0
  {
    match v
    case Num(_, _) => true
    case Text(s) => NoBrackets(s) && |s| < TEXT_MAX
    case Nums(_, ns) => ns != []
    case Texts(ss) => ss != [] && forall i :: 0 <= i < |ss| ==> NoBrackets(ss[i]) && ',' !in ss[i] && |ss[i]| < TEXT_MAX
    case Vars(vs) => vs != [] && AllSimple(vs)
  }

  ghost predicate AllSimple(vs: seq<Value>)
    decreases vs, 0
  {
    vs == [] || (AllSimple(vs[..|vs| - 1]) && Simple(vs[|vs| - 1]))
  }

  lemma {:induction false} SimpleRoundTrip(v: Value)
    requires Proper(v) && Simple(v)
    ensures ComesBack(v)
  {
    hide ComesBack;
    SimpleClean(v);
    RoundTripExactly(v);
  }

  lemma {:induction false} SimpleClean(v: Value)
    requires Simple(v)
    ensures CleanItem(v)
    decreases v, 0
  {
    hide Good, Inner;
    match v
    case Text(s) =>
      FlatInner(s);
      assert NoBrackets("") && "(" + "" + s + ")" == "(" + s + ")";
      GoodInBrackets("", s);
    case Texts(ss) =>
      forall i | 0 <= i < |ss| ensures Good(ss[i]) { PlainGood(ss[i]); }
    case Vars(vs) =>
      AllSimpleClean(vs);
    case _ =>
  }

  lemma {:induction false} AllSimpleClean(vs: seq<Value>)
    requires AllSimple(vs)
    ensures AllClean(vs)
    decreases vs, 0
  {
    if vs != [] {
      AllSimpleClean(vs[..|vs| - 1]);
      SimpleClean(vs[|vs| - 1]);
    }
  }

  lemma FlatInner(s: string)
    requires NoBrackets(s)
    ensures Inner(s)
  {
    forall i | 0 <= i <= |s|
      ensures Depth(s[..i]) == 0
    {
      DepthFlat(s[..i]);
    }
    assert s[..|s|] == s;
  }

  lemma CommaNotGood()
    ensures !Good("a,b")
  {
    assert "a,b"[..1] == "a" && "a,b"[1] == ',';
    DepthFlat("a");
  }

  lemma BracketNotGood()
    ensures !Good("(()")
  {
    DepthConcat("(", "()");
    DepthConcat("(", ")");
    DepthBracket();
    assert "(" + "()" == "(()" && "(" + ")" == "()";
  }

  /** A comma or an open bracket in the wrong place spoils the round trip: an array of one string with
      a comma, and an array of one value that is a string with an open bracket, do not come back. */
  lemma SpoiledRoundTrips()
    ensures !ComesBack(Texts(["a,b"])) && !ComesBack(Vars([Text("(")]))
  {
    hide ComesBack, Good;
    var v, w := Texts(["a,b"]), Vars([Text("(")]);
    assert [Text("(")][..0] == [];
    assert Proper(Text("("));
    assert AllProper([Text("(")]);
    RoundTripExactly(v);
    RoundTripExactly(w);
    CommaNotGood();
    assert v.ss[0] == "a,b";
    BracketNotGood();
    assert "(" + "(" + ")" == "(()";
    assert !CleanItem(w.vs[0]);
  }

  /** A string of 65536 characters is printed as nothing, and as a text it is read as an empty string; one of
      16383 characters is copied over the end of its buffer either way. */
  lemma LongStringsLost(s: string)
    ensures |s| == 0x1_0000 ==> Printed(Text(s)) == Ok(Some("")) && Parse(VT_BSTR, s) == Ok(Text(""))
    ensures |s| == TEXT_MAX ==> Printed(Text(s)) == Err(Overrun) && Parse(VT_BSTR, s) == Err(Overrun)
  {
    assert s[..0] == "";
  }
}
