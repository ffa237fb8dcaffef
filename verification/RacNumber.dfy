/** Numbers as RAC text: the printing and parsing that VariantChangeType does for the integer types
    (library/src/dn_common.c), on strings of characters. */
module RacNumber {
  import opened Common

  /** After an Overrun, a write behind the end of an allocated buffer, and after the use of a null pointer
      nothing is known. */
  datatype Error = InvalidArg | TypeMismatch | Overflow | NotModelled | Overrun | NullPointer

  // ---------- variant types (library/include/dn_common.h) ----------

  const VT_I2 := 2
  const VT_I4 := 3
  const VT_CY := 6
  const VT_BSTR := 8
  const VT_BOOL := 11
  const VT_VARIANT := 12
  const VT_UI1 := 17
  const VT_UI2 := 18
  const VT_UI4 := 19
  const VT_I8 := 20
  const VT_UI8 := 21
  const VT_ARRAY := 0x2000

  predicate Signed(vt: nat) {
    vt == VT_I2 || vt == VT_I4 || vt == VT_I8 || vt == VT_CY || vt == VT_BOOL
  }

  predicate Unsigned(vt: nat) {
    vt == VT_UI1 || vt == VT_UI2 || vt == VT_UI4 || vt == VT_UI8
  }

  predicate Numeric(vt: nat) {
    Signed(vt) || Unsigned(vt)
  }

  const TWO_31 := 0x8000_0000
  const TWO_32 := 0x1_0000_0000
  const TWO_63 := 0x8000_0000_0000_0000
  const TWO_64 := 0x1_0000_0000_0000_0000

  /** The values a variable of this type holds. */
  predicate InRange(vt: nat, n: int) {
    if vt == VT_I2 then -0x8000 <= n < 0x8000
    else if vt == VT_I4 then -TWO_31 <= n < TWO_31
    else if vt == VT_I8 || vt == VT_CY then -TWO_63 <= n < TWO_63
    else if vt == VT_BOOL then n == 0 || n == -1
    else if vt == VT_UI1 then 0 <= n < 0x100
    else if vt == VT_UI2 then 0 <= n < 0x1_0000
    else if vt == VT_UI4 then 0 <= n < TWO_32
    else vt == VT_UI8 && 0 <= n < TWO_64
  }

  // ---------- printing ----------

  function DigitChar(d: nat): char
    requires d < 10
  {
    (d + '0' as int) as char
  }

  function Digits(n: nat): (s: string)
    ensures s != []
  {
    (if n < 10 then [] else Digits(n / 10)) + [DigitChar(n % 10)]
  }

  /** What the %d and %u conversions print. */
  function Decimal(n: int): string {
    if n < 0 then "-" + Digits(-n) else Digits(n)
  }

  // ---------- the conversion functions of the C library, with base 0 ----------

  predicate Space(c: char) {
    c == ' ' || '\t' <= c <= '\r'
  }

  function DigitOf(c: char): nat {
    if '0' <= c <= '9' then c as int - '0' as int
    else if 'a' <= c <= 'f' then c as int - 'a' as int + 10
    else if 'A' <= c <= 'F' then c as int - 'A' as int + 10
    else 16
  }

  /** The first place from i on that is not white space. */
  function SkipSpace(s: string, i: nat): (j: nat)
    requires i <= |s|
    ensures i <= j <= |s|
    decreases |s| - i
  {
    if i < |s| && Space(s[i]) then SkipSpace(s, i + 1) else i
  }

  /** The first place from i on that is not a digit. */
  function DigitsEnd(s: string, i: nat, b: nat): (j: nat)
    requires i <= |s|
    ensures i <= j <= |s|
    decreases |s| - i
  {
    if i < |s| && DigitOf(s[i]) < b then DigitsEnd(s, i + 1, b) else i
  }

  function ValueOf(s: string, b: nat): nat {
    if s == [] then 0 else ValueOf(s[..|s| - 1], b) * b + DigitOf(s[|s| - 1])
  }

  /** The base of the number at j: 16 after 0x, 8 after 0, else 10. */
  function Base(s: string, j: nat): (b: nat)
    ensures b == 16 ==> j + 2 < |s|
  {
    if j + 2 < |s| && s[j] == '0' && (s[j + 1] == 'x' || s[j + 1] == 'X') && DigitOf(s[j + 2]) < 16 then 16
    else if j < |s| && s[j] == '0' then 8
    else 10
  }

  /** The number at the start of a string and where it ends. */
  datatype Number = Number(negative: bool, magnitude: nat, end: nat)

  function StrTo(s: string): (r: Number)
    ensures r.end <= |s|
  {
    var i := SkipSpace(s, 0);
    var negative := i < |s| && s[i] == '-';
    var j := if i < |s| && (s[i] == '-' || s[i] == '+') then i + 1 else i;
    var b := Base(s, j);
    var k := if b == 16 then j + 2 else j;
    var end := DigitsEnd(s, k, b);
    if end == k then Number(false, 0, 0) else Number(negative, ValueOf(s[k..end], b), end)
  }

  function Wrap32(n: int): int {
    (n + TWO_31) % TWO_32 - TWO_31
  }

  /** Bstr2Variant for the integer types, with a long of 64 bits. */
  function Convert(vt: nat, s: string): Result<int, Error>
    requires Numeric(vt)
  {
    if s == [] then Err(TypeMismatch)
    else
      var num := StrTo(s);
      var v: int := if num.negative then 0 - num.magnitude else num.magnitude;
      if num.end < |s| && s[num.end] != '.' then Err(TypeMismatch)
      else if Signed(vt) then
        if !(-TWO_63 <= v < TWO_63) then Err(Overflow)
        else if vt == VT_I8 || vt == VT_CY then Ok(v)
        else
          var w := Wrap32(v);
          if vt == VT_I4 then Ok(w)
          else if vt == VT_BOOL then Ok(if w != 0 then -1 else 0)
          else if -0x8000 <= w < 0x8000 then Ok(w) else Err(Overflow)
      else
        var raw := v % TWO_64;
        if num.magnitude >= TWO_64 then Err(Overflow)
        else if vt == VT_UI8 then if s[0] == '-' then Err(Overflow) else Ok(raw)
        else if vt == VT_UI4 then if s[0] == '-' then Err(Overflow) else Ok(raw % TWO_32)
        else
          var w := raw % TWO_32;
          if w > 0xFFFF then Err(Overflow) else Ok(if vt == VT_UI1 then w % 0x100 else w)
  }

  /** atoi, on a text of digits and blanks. */
  function Atoi(s: string): nat {
    var i := SkipSpace(s, 0);
    ValueOf(s[i..DigitsEnd(s, i, 10)], 10)
  }

  // ---------- what is printed is read back ----------

  predicate AllDigits(s: string) {
    forall i :: 0 <= i < |s| ==> '0' <= s[i] <= '9'
  }

  lemma DigitCharValue(d: nat)
    requires d < 10
    ensures DigitOf(DigitChar(d)) == d && '0' <= DigitChar(d) <= '9'
    ensures DigitChar(d) == '0' <==> d == 0
  {
  }

  lemma ValueSnoc(s: string, c: char, b: nat)
    ensures ValueOf(s + [c], b) == ValueOf(s, b) * b + DigitOf(c)
  {
    assert (s + [c])[..|s|] == s;
  }

  lemma {:induction false} DigitsValue(n: nat)
    ensures AllDigits(Digits(n)) && ValueOf(Digits(n), 10) == n
    ensures Digits(n)[0] == '0' <==> n == 0
    ensures n == 0 ==> Digits(n) == "0"
  {
    hide DigitChar, DigitOf, ValueOf;
    var c := DigitChar(n % 10);
    DigitCharValue(n % 10);
    if n >= 10 {
      DigitsValue(n / 10);
      ValueSnoc(Digits(n / 10), c, 10);
    } else {
      ValueSnoc([], c, 10);
      ValueEmpty(10);
      assert [] + [c] == [c];
    }
  }

  lemma ValueEmpty(b: nat)
    ensures ValueOf([], b) == 0
  {
  }

  lemma {:induction false} DigitsEndAt(s: string, i: nat, e: nat, b: nat)
    requires i <= e <= |s| && forall k :: i <= k < e ==> DigitOf(s[k]) < b
    requires e == |s| || DigitOf(s[e]) >= b
    ensures DigitsEnd(s, i, b) == e
    decreases e - i
  {
    if i < e {
      DigitsEndAt(s, i + 1, e, b);
    }
  }

  /** A text that stops a conversion at once: nothing, or a comma or a bracket. */
  predicate Stops(t: string) {
    t == [] || t[0] == ',' || t[0] == ')'
  }

  lemma StrToZero(t: string)
    requires Stops(t)
    ensures StrTo("0" + t) == Number(false, 0, 1)
  {
    var s := "0" + t;
    assert s[0] == '0' && (|s| > 1 ==> s[1] == t[0]);
    DigitsEndAt(s, 0, 1, 8);
    assert s[0..1] == "0" && "0"[..0] == [];
  }

  lemma DigitsRun(s: string, j: nat, d: string, t: string)
    requires AllDigits(d) && Stops(t) && j <= |s| && s[j..] == d + t
    ensures DigitsEnd(s, j, 10) == j + |d|
  {
    var e := j + |d|;
    assert forall k :: j <= k < e ==> s[k] == s[j..][k - j] == d[k - j];
    assert e < |s| ==> s[e] == s[j..][|d|] == t[0];
    DigitsEndAt(s, j, e, 10);
  }

  /** A run of digits that does not start with 0, and one after a minus. */
  lemma StrToDigits(d: string, t: string)
    requires d != [] && AllDigits(d) && d[0] != '0' && Stops(t)
    ensures StrTo(d + t) == Number(false, ValueOf(d, 10), |d|)
  {
    hide Stops, ValueOf;
    var s := d + t;
    assert s[0] == d[0] && s[0..|d|] == d && s[0..] == d + t;
    DigitsRun(s, 0, d, t);
    hide SkipSpace, Base, DigitsEnd, DigitOf;
  }

  lemma StrToMinus(d: string, t: string)
    requires d != [] && AllDigits(d) && d[0] != '0' && Stops(t)
    ensures StrTo("-" + d + t) == Number(true, ValueOf(d, 10), 1 + |d|)
  {
    hide Stops, ValueOf;
    var s := "-" + d + t;
    var e := 1 + |d|;
    assert s[0] == '-' && s[1] == d[0];
    assert s[1..e] == d;
    assert s[1..] == d + t;
    DigitsRun(s, 1, d, t);
    hide SkipSpace, Base, DigitsEnd, DigitOf;
  }

  /** A printed number is read back, up to a comma or a bracket. */
  lemma StrToDecimal(n: int, t: string)
    requires Stops(t)
    ensures StrTo(Decimal(n) + t) == Number(n < 0, if n < 0 then -n else n, |Decimal(n)|)
  {
    hide StrTo, Digits, ValueOf, Stops;
    if n == 0 {
      DigitsValue(0);
      StrToZero(t);
    } else if n > 0 {
      DigitsValue(n);
      StrToDigits(Digits(n), t);
    } else {
      DigitsValue(-n);
      StrToMinus(Digits(-n), t);
    }
  }

  /** Every number a type can hold is read back from its print. */
  lemma ConvertDecimal(vt: nat, n: int)
    requires Numeric(vt) && InRange(vt, n)
    ensures Convert(vt, Decimal(n)) == Ok(n)
  {
    hide StrTo, Digits, Convert;
    StrToDecimal(n, []);
    assert Decimal(n) + [] == Decimal(n);
    DigitsValue(if n < 0 then -n else n);
    Converted(vt, Decimal(n), n);
  }

  lemma Converted(vt: nat, s: string, n: int)
    requires Numeric(vt) && InRange(vt, n) && s != [] && (n >= 0 ==> s[0] != '-')
    requires StrTo(s) == Number(n < 0, if n < 0 then -n else n, |s|)
    ensures Convert(vt, s) == Ok(n)
  {
    hide StrTo;
  }

  /** What follows a printed number up to a comma or a bracket spoils it. */
  lemma ConvertSpoiled(vt: nat, n: int, t: string)
    requires Numeric(vt) && Stops(t) && t != []
    ensures Convert(vt, Decimal(n) + t).Err?
  {
    StrToDecimal(n, t);
  }

  lemma {:induction false} DigitsPrefix(n: nat, k: nat) returns (m: nat)
    requires 0 < k < |Digits(n)|
    ensures m < n && n >= 10 && Digits(n)[..k] == Digits(m)
  {
    var s := Digits(n);
    if k == |s| - 1 {
      m := n / 10;
      assert s[..k] == Digits(m);
    } else {
      m := DigitsPrefix(n / 10, k);
      assert s[..k] == Digits(n / 10)[..k];
    }
  }

  lemma DecimalPrefix(n: int, k: nat) returns (m: int)
    requires 0 < k < |Decimal(n)| && (n < 0 ==> k > 1)
    ensures Decimal(n)[..k] == Decimal(m) && if n < 0 then n < m < 0 && n <= -10 else 0 <= m < n
  {
    hide Digits;
    if n >= 0 {
      m := DigitsPrefix(n, k);
    } else {
      var p := DigitsPrefix(-n, k - 1);
      m := -(p as int);
      DigitsValue(p);
      DigitsValue(-n);
      assert Digits(p)[0] == Digits(-n)[0];
      assert Decimal(n)[..k] == "-" + Digits(-n)[..k - 1];
    }
  }

  /** A printed number cut short is another number or none. */
  lemma ConvertCut(vt: nat, n: int, k: nat)
    requires Numeric(vt) && InRange(vt, n) && k < |Decimal(n)|
    ensures Convert(vt, Decimal(n)[..k]) != Ok(n)
  {
    if k == 0 || (k == 1 && n < 0) {
      assert Decimal(n)[..k] == if k == 0 then "" else "-";
    } else {
      var m := DecimalPrefix(n, k);
      hide Convert, Decimal;
      ConvertDecimal(vt, m);
    }
  }

  lemma AtoiDigits(n: nat)
    ensures Atoi(Digits(n)) == n
  {
    var s := Digits(n);
    DigitsValue(n);
    DigitsEndAt(s, 0, |s|, 10);
    assert s[0..|s|] == s;
  }

  function PowerOfTen(k: nat): nat {
    if k == 0 then 1 else 10 * PowerOfTen(k - 1)
  }

  lemma {:induction false} DigitsLength(n: nat, k: nat)
    requires n < PowerOfTen(k) && k > 0
    ensures |Digits(n)| <= k
  {
    if n >= 10 { DigitsLength(n / 10, k - 1); }
  }

  /** The print of a number is short enough to be copied. */
  lemma DecimalShort(vt: nat, n: int)
    requires InRange(vt, n)
    ensures |Decimal(n)| <= 21
  {
    assert PowerOfTen(5) == 1_00000;
    assert PowerOfTen(10) == 1_00000 * PowerOfTen(5);
    assert PowerOfTen(15) == 1_00000 * PowerOfTen(10);
    assert PowerOfTen(20) == 1_00000 * PowerOfTen(15);
    DigitsLength(if n < 0 then -n else n, 20);
  }

  // ---------- what is read as a number at all ----------

  /** The digits of all bases, and nothing else. */
  lemma DigitsAre(c: char)
    ensures forall i :: 0 <= i < 16 ==> DigitOf("0123456789abcdef"[i]) == i && DigitOf("0123456789ABCDEF"[i]) == i
    ensures c !in "0123456789abcdefABCDEF" ==> DigitOf(c) >= 16
  {
    var d := DigitOf(c);
    if d < 16 {
      assert c == "0123456789abcdef"[d] || c == "0123456789ABCDEF"[d];
    }
  }

  predicate Spaces(s: string) {
    forall i :: 0 <= i < |s| ==> s[i] in " \t\n\r" || s[i] == 11 as char || s[i] == 12 as char
  }

  predicate InBase(d: string, b: nat) {
    forall i :: 0 <= i < |d| ==> DigitOf(d[i]) < b
  }

  /** The text of a number in one of the three bases: after 0x, after 0 (which is a digit itself), or
      otherwise. */
  predicate Written(prefix: string, d: string, b: nat) {
    && InBase(d, b)
    && ((b == 16 && (prefix == "0x" || prefix == "0X") && d != "")
        || (b == 8 && prefix == "" && d != "" && d[0] == '0')
        || (b == 10 && prefix == "" && d != "" && d[0] != '0'))
  }

  /** A number is read after white space and a sign in its base, up to the first character that is no digit of
      it. */
  lemma NumberRead(ws: string, sign: string, prefix: string, d: string, b: nat, t: string)
    requires Spaces(ws) && (sign == "" || sign == "+" || sign == "-") && Written(prefix, d, b)
    requires t == "" || DigitOf(t[0]) >= b
    requires b == 8 && |d| == 1 ==> t == "" || (t[0] != 'x' && t[0] != 'X')
    ensures StrTo(ws + sign + prefix + d + t)
            == Number(sign == "-", ValueOf(d, b), |ws + sign + prefix + d|)
  {
    hide ValueOf, DigitOf, InBase, Base, DigitsEnd, SkipSpace, Written, Spaces;
    var s := ws + sign + prefix + d + t;
    var j, k := |ws + sign|, |ws + sign + prefix|;
    NumberBegins(prefix, d, b, t);
    NumberPlaces(ws, sign, prefix, d, t);
    AfterSpace(s, ws);
    BaseIs(s, j, prefix, d, b, t);
    DigitsFrom(s, k, d, b, t);
  }

  lemma NumberPlaces(ws: string, sign: string, prefix: string, d: string, t: string)
    requires (sign == "" || sign == "+" || sign == "-") && d != ""
    ensures var s, u, j, k := ws + sign + prefix + d + t, prefix + d + t, |ws + sign|, |ws + sign + prefix|;
            && ws < s && s[|ws|] == (if sign == "" then u[0] else sign[0])
            && s[j..] == u && s[k..] == d + t && s[k..k + |d|] == d
  {
  }

  lemma NumberBegins(prefix: string, d: string, b: nat, t: string)
    requires Written(prefix, d, b)
    ensures d != "" && InBase(d, b) && (b == 16 <==> |prefix| == 2) && (b != 16 ==> prefix == "")
    ensures var c := (prefix + d + t)[0]; !Space(c) && c != '+' && c != '-'
  {
    assert (prefix + d + t)[0] == if prefix == "" then d[0] else prefix[0];
  }

  lemma {:induction false} SkipFrom(s: string, i: nat, n: nat)
    requires i <= n <= |s| && (forall k :: i <= k < n ==> Space(s[k])) && (n < |s| ==> !Space(s[n]))
    ensures SkipSpace(s, i) == n
    decreases n - i
  {
    if i < n { SkipFrom(s, i + 1, n); }
  }

  lemma AfterSpace(s: string, ws: string)
    requires Spaces(ws) && ws < s && !Space(s[|ws|])
    ensures SkipSpace(s, 0) == |ws|
  {
    assert forall k :: 0 <= k < |ws| ==> s[k] == ws[k] && Space(s[k]);
    SkipFrom(s, 0, |ws|);
  }

  lemma BaseIs(s: string, j: nat, prefix: string, d: string, b: nat, t: string)
    requires Written(prefix, d, b) && j <= |s| && s[j..] == prefix + d + t
    requires t == "" || DigitOf(t[0]) >= b
    requires b == 8 && |d| == 1 ==> t == "" || (t[0] != 'x' && t[0] != 'X')
    ensures Base(s, j) == b
  {
    var u := prefix + d + t;
    assert forall i :: 0 <= i < |u| ==> s[j + i] == u[i];
    if b == 16 {
      assert u[0] == '0' && u[1] == prefix[1] && u[2] == d[0];
    } else {
      assert u[0] == d[0];
      if b == 8 && |u| > 1 { assert u[1] == (if |d| > 1 then d[1] else t[0]); }
    }
  }

  lemma DigitsFrom(s: string, k: nat, d: string, b: nat, t: string)
    requires InBase(d, b) && k <= |s| && s[k..] == d + t && (t == "" || DigitOf(t[0]) >= b)
    ensures DigitsEnd(s, k, b) == k + |d|
  {
    var e := k + |d|;
    assert forall i :: k <= i < e ==> s[i] == s[k..][i - k] == d[i - k];
    assert e < |s| ==> s[e] == s[k..][|d|] == t[0];
    DigitsEndAt(s, k, e, b);
  }

  /** Without a digit where the number should begin nothing is read. */
  lemma NothingRead(ws: string, sign: string, t: string)
    requires Spaces(ws) && (sign == "" || sign == "+" || sign == "-")
    requires t == "" || (DigitOf(t[0]) >= 10 && !Space(t[0]) && t[0] != '+' && t[0] != '-')
    ensures StrTo(ws + sign + t) == Number(false, 0, 0)
  {
    var s := ws + sign + t;
    var j := |ws + sign|;
    assert s[|ws|..] == sign + t && s[j..] == t;
    assert forall k :: 0 <= k < |ws| ==> s[k] == ws[k] && Space(s[k]);
    SkipFrom(s, 0, |ws|);
    assert t != "" ==> s[j] == t[0];
  }

  // ---------- what a number becomes ----------

  /** The number at the start of the text, if nothing but a point and whatever follows it comes behind. */
  predicate Complete(s: string) {
    s != "" && (StrTo(s).end == |s| || s[StrTo(s).end] == '.')
  }

  function NumberIn(s: string): int {
    if StrTo(s).negative then 0 - StrTo(s).magnitude else StrTo(s).magnitude
  }

  /** A text is converted to a number of the type only if its number is complete. */
  lemma IncompleteRefused(vt: nat, s: string)
    requires Numeric(vt)
    ensures !Complete(s) ==> Convert(vt, s) == Err(TypeMismatch)
    ensures Complete(s) ==> Convert(vt, s) != Err(TypeMismatch)
  {
    hide StrTo, Wrap32;
  }

  /** To a signed type: through 64 bits, and for the smaller ones through the number of 32 bits that is
      congruent to it. */
  lemma SignedConverted(vt: nat, s: string) returns (w: int)
    requires Complete(s) && (vt == 2 || vt == 3 || vt == 6 || vt == 11 || vt == 20)
    ensures -0x8000_0000 <= w <= 0x7FFF_FFFF && (w - NumberIn(s)) % 0x1_0000_0000 == 0
    ensures var v, r := NumberIn(s), Convert(vt, s);
            if v < -0x8000_0000_0000_0000 || v > 0x7FFF_FFFF_FFFF_FFFF then r == Err(Overflow)
            else if vt == 20 || vt == 6 then r == Ok(v)
            else if vt == 3 then r == Ok(w)
            else if vt == 11 then r == Ok(if w == 0 then 0 else -1)
            else r == if -0x8000 <= w <= 0x7FFF then Ok(w) else Err(Overflow)
  {
    hide StrTo;
    w := Wrap32(NumberIn(s));
    WrapCongruent(NumberIn(s));
  }

  lemma WrapCongruent(v: int)
    ensures (Wrap32(v) - v) % 0x1_0000_0000 == 0
  {
  }

  /** To an unsigned type: a minus wraps, which is refused only for the two widest if it comes first. */
  lemma UnsignedConverted(vt: nat, s: string)
    requires Complete(s) && (vt == 17 || vt == 18 || vt == 19 || vt == 21)
    ensures var v, r := NumberIn(s), Convert(vt, s);
            if v <= -0x1_0000_0000_0000_0000 || v >= 0x1_0000_0000_0000_0000 then r == Err(Overflow)
            else if vt == 21 || vt == 19 then
              if s[0] == '-' then r == Err(Overflow)
              else r == Ok(if vt == 21 then v % 0x1_0000_0000_0000_0000 else v % 0x1_0000_0000)
            else if v % 0x1_0000_0000 > 0xFFFF then r == Err(Overflow)
            else r == Ok(if vt == 18 then v % 0x1_0000_0000 else v % 0x100)
  {
    hide StrTo;
    ModTwice(NumberIn(s));
  }

  lemma ModTwice(v: int)
    ensures v % TWO_64 % TWO_32 == v % 0x1_0000_0000
    ensures v % 0x1_0000_0000 % 0x100 == v % 0x100
  {
    var low, word := v % TWO_64, v % 0x1_0000_0000;
    WordOnly(v, TWO_32 * (v / TWO_64) + low / TWO_32, low % TWO_32);
    ByteOnly(v, 0x100_0000 * (v / 0x1_0000_0000) + word / 0x100, word % 0x100);
  }

  lemma WordOnly(v: int, q: int, r: nat)
    requires v == 0x1_0000_0000 * q + r && r < 0x1_0000_0000
    ensures v % 0x1_0000_0000 == r
  {
  }

  lemma ByteOnly(v: int, q: int, r: nat)
    requires v == 0x100 * q + r && r < 0x100
    ensures v % 0x100 == r
  {
  }

  /** What a type holds is exactly what it reads back from its decimal print. */
  lemma HeldExactly(vt: nat, n: int)
    requires Numeric(vt)
    ensures InRange(vt, n) <==> Convert(vt, Decimal(n)) == Ok(n)
  {
    hide StrTo, Decimal;
    if InRange(vt, n) { ConvertDecimal(vt, n); }
    if Convert(vt, Decimal(n)) == Ok(n) { ConvertHeld(vt, Decimal(n)); }
  }

  lemma ConvertHeld(vt: nat, s: string)
    requires Numeric(vt) && Convert(vt, s).Ok?
    ensures InRange(vt, Convert(vt, s).value)
  {
    hide StrTo;
  }

  /** atoi reads the number of a type after blanks, up to a character that is no digit. */
  lemma AtoiReads(ws: string, n: nat, t: string)
    requires Spaces(ws) && (t == "" || DigitOf(t[0]) >= 10)
    ensures Atoi(ws + Digits(n) + t) == n
  {
    hide ValueOf, DigitOf, Digits;
    DigitsValue(n);
    var s, d := ws + Digits(n) + t, Digits(n);
    assert s[|ws|] == d[0] && s[|ws|..] == d + t && s[|ws|..|ws| + |d|] == d;
    AfterSpace(s, ws);
    PlainDigits(d);
    DigitsFrom(s, |ws|, d, 10, t);
  }

  lemma PlainDigits(d: string)
    requires AllDigits(d)
    ensures InBase(d, 10)
  {
  }
}
