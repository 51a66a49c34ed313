/** The pieces of JavaScript's string and number runtime that the two screens
    rely on: `String.prototype.trim`, the decimal rendering of an integral
    Number (template literals and `+` on strings), and `parseInt(s, 10)`.
    A JavaScript NaN is `None`. */
module JsText {

  datatype Option<T> = None | Some(value: T)

  /** JavaScript's WhiteSpace and LineTerminator characters, the set that
      `trim` removes and `parseInt` skips. */
  predicate IsWhiteSpace(c: char) {
    c in {'\t', '\n', '\U{000B}', '\U{000C}', '\r', ' ', '\U{00A0}', '\U{1680}',
          '\U{2000}', '\U{2001}', '\U{2002}', '\U{2003}', '\U{2004}', '\U{2005}',
          '\U{2006}', '\U{2007}', '\U{2008}', '\U{2009}', '\U{200A}',
          '\U{2028}', '\U{2029}', '\U{202F}', '\U{205F}', '\U{3000}', '\U{FEFF}'}
  }

  /** Every character of `s` is white space (vacuously true of ""). */
  predicate IsBlank(s: string) {
    forall i :: 0 <= i < |s| ==> IsWhiteSpace(s[i])
  }

  /** `s` with its leading white space removed. */
  function TrimStart(s: string): (r: string)
    ensures |r| <= |s| && r == s[|s| - |r|..]
    ensures IsBlank(s[..|s| - |r|])
    ensures r == [] || !IsWhiteSpace(r[0])
  {
    if s != [] && IsWhiteSpace(s[0]) then
      var r := TrimStart(s[1..]);
      assert s[..|s| - |r|] == [s[0]] + s[1..][..|s| - 1 - |r|];
      r
    else
      s
  }

  /** `s` with its trailing white space removed. */
  function TrimEnd(s: string): (r: string)
    ensures |r| <= |s| && r == s[..|r|]
    ensures IsBlank(s[|r|..])
    ensures r == [] || !IsWhiteSpace(r[|r| - 1])
  {
    if s != [] && IsWhiteSpace(s[|s| - 1]) then
      var r := TrimEnd(s[..|s| - 1]);
      assert s[|r|..] == s[..|s| - 1][|r|..] + [s[|s| - 1]];
      r
    else
      s
  }

  /** `String.prototype.trim`: `s` without its white space at either end;
      it is empty exactly when `s` is blank. */
  function Trim(s: string): (r: string)
    ensures |r| <= |s|
    ensures r == [] || (!IsWhiteSpace(r[0]) && !IsWhiteSpace(r[|r| - 1]))
    ensures |r| == 0 <==> IsBlank(s)
  {
    TrimEmptyIffBlank(s);
    TrimEnd(TrimStart(s))
  }

  /** Trimming both ends leaves nothing exactly when the string is blank. */
  lemma TrimEmptyIffBlank(s: string)
    ensures |TrimEnd(TrimStart(s))| == 0 <==> IsBlank(s)
  {
    var t := TrimStart(s);
    var p := |s| - |t|;
    if |TrimEnd(t)| == 0 {
      assert IsBlank(t) by { assert t[0..] == t; }
      forall i | 0 <= i < |s| ensures IsWhiteSpace(s[i]) {
        assert s[i] == s[..p][i];
      }
    } else if t != [] {
      assert t[0] == s[p];
    }
  }

  predicate IsDigit(c: char) {
    '0' <= c <= '9'
  }

  predicate AllDigits(s: string) {
    forall i :: 0 <= i < |s| ==> IsDigit(s[i])
  }

  function DigitChar(d: nat): (c: char)
    requires d < 10
    ensures IsDigit(c) && c as int - '0' as int == d
  {
    (d + '0' as int) as char
  }

  /** Decimal rendering of a natural number, without leading zeros. */
  function NatToString(n: nat): (s: string)
    ensures |s| > 0 && AllDigits(s)
    ensures s[0] == '0' ==> n == 0 && s == "0"
  {
    (if n < 10 then [] else NatToString(n / 10)) + [DigitChar(n % 10)]
  }

  /** Decimal rendering of an integral Number, as `String(n)` gives it. */
  function IntToString(i: int): (s: string)
    ensures |s| > 0 && (s[0] == '-' || IsDigit(s[0]))
  {
    if i < 0 then "-" + NatToString(-i) else NatToString(i)
  }

  /** The value of a string of decimal digits, most significant first. */
  function DigitsValue(s: string): nat
    requires AllDigits(s)
  {
    if s == [] then 0
    else DigitsValue(s[..|s| - 1]) * 10 + (s[|s| - 1] as int - '0' as int)
  }

  lemma {:induction false} DigitsValueOfNatToString(n: nat)
    ensures DigitsValue(NatToString(n)) == n
  {
    var p := if n < 10 then [] else NatToString(n / 10);
    var s := NatToString(n);
    assert s == p + [DigitChar(n % 10)];
    assert s[..|s| - 1] == p;
    assert DigitsValue(s) == DigitsValue(p) * 10 + n % 10;
    if n >= 10 {
      DigitsValueOfNatToString(n / 10);
    }
  }

  /** Length of the longest prefix of `s` made of decimal digits. */
  function DigitRun(s: string): (k: nat)
    ensures k <= |s| && AllDigits(s[..k])
    ensures k == |s| || !IsDigit(s[k])
  {
    if s != [] && IsDigit(s[0]) then
      var k := 1 + DigitRun(s[1..]);
      assert s[..k] == [s[0]] + s[1..][..k - 1];
      k
    else
      0
  }

  /** Reads the longest run of digits from the start of `s`: its value and
      what follows it, or `None` when `s` does not start with a digit. */
  function SplitDigits(s: string): (r: Option<(int, string)>)
    ensures r.None? <==> s == [] || !IsDigit(s[0])
    ensures r.Some? ==> r.value.0 >= 0 && |r.value.1| < |s|
  {
    var k := DigitRun(s);
    if k == 0 then None else Some((DigitsValue(s[..k]), s[k..]))
  }

  /** What `SplitDigits` reads is a non-empty prefix of `s` made of digits
      and followed by no further digit, and the rest is the text after it. */
  lemma SplitDigitsReadsRun(s: string)
    requires SplitDigits(s).Some?
    ensures var (v, rest) := SplitDigits(s).value; var k := |s| - |rest|;
      0 < k <= |s| && s[..k] + rest == s && AllDigits(s[..k]) &&
      (rest == [] || !IsDigit(rest[0])) && v == DigitsValue(s[..k])
  {
    var k := DigitRun(s);
    assert s[..k] + s[k..] == s;
    assert k < |s| ==> s[k..][0] == s[k];
  }

  /** `t` without the one sign character it may start with. */
  function AfterSign(t: string): string {
    if t != [] && (t[0] == '-' || t[0] == '+') then t[1..] else t
  }

  /** Reads an optional sign and the digits after it from the start of `s`. */
  function SplitInt(s: string): Option<(int, string)> {
    if s != [] && s[0] == '-' then
      match SplitDigits(s[1..])
      case None => None
      case Some((v, rest)) => Some((-v, rest))
    else if s != [] && s[0] == '+' then
      SplitDigits(s[1..])
    else
      SplitDigits(s)
  }

  /** `parseInt(s, 10)`: skip leading white space, read an optional sign and
      the digits after it, ignore the rest; `None` stands for NaN. */
  function ParseInt10(s: string): Option<int> {
    match SplitInt(TrimStart(s))
    case None => None
    case Some((n, _)) => Some(n)
  }

  /** `parseInt` gives NaN exactly when no digit follows the leading white
      space and the optional sign; otherwise it gives the value of the
      longest run of digits there, negated after a minus sign. */
  lemma ParseInt10Reads(s: string)
    ensures var u := AfterSign(TrimStart(s));
      ParseInt10(s).None? <==> u == [] || !IsDigit(u[0])
    ensures var t := TrimStart(s); var u := AfterSign(t);
      ParseInt10(s).Some? ==>
        t != [] && ParseInt10(s).value == (if t[0] == '-' then -1 else 1) * DigitsValue(u[..DigitRun(u)])
  {
  }

  /** The digits of a rendered natural number stop where a non-digit begins. */
  lemma {:induction false} DigitRunOfDigitsThen(d: string, rest: string)
    requires AllDigits(d)
    requires rest == [] || !IsDigit(rest[0])
    ensures DigitRun(d + rest) == |d|
  {
    var s := d + rest;
    assert forall j :: 0 <= j < |d| ==> IsDigit(s[j]);
    assert |d| < |s| ==> !IsDigit(s[|d|]);
    assert forall k :: |d| < k <= |s| ==> s[..k][|d|] == s[|d|];
  }

  /** The unsigned part of `SplitInt` on a rendered natural number. */
  lemma {:induction false} DigitsOfNatToStringThen(m: nat, rest: string)
    requires rest == [] || !IsDigit(rest[0])
    ensures SplitDigits(NatToString(m) + rest) == Some((m, rest))
  {
    var d := NatToString(m);
    var body := d + rest;
    DigitRunOfDigitsThen(d, rest);
    assert body[..|d|] == d && body[|d|..] == rest;
    DigitsValueOfNatToString(m);
  }

  /** A minus sign before an unsigned reading negates it. */
  lemma SplitIntNegative(body: string, m: int, rest: string)
    requires SplitDigits(body) == Some((m, rest))
    ensures SplitInt(['-'] + body) == Some((-m, rest))
  {
    assert (['-'] + body)[1..] == body;
  }

  /** Text that starts with a digit has no sign to read. */
  lemma SplitIntUnsigned(s: string)
    requires s != [] && IsDigit(s[0])
    ensures SplitInt(s) == SplitDigits(s)
  {
  }

  /** Reading an integer back from its rendering, followed by anything that
      does not start with a digit, gives the integer and that remainder. */
  lemma {:induction false} SplitIntOfIntToString(i: int, rest: string)
    requires rest == [] || !IsDigit(rest[0])
    ensures SplitInt(IntToString(i) + rest) == Some((i, rest))
  {
    var body := NatToString(if i < 0 then -i else i) + rest;
    DigitsOfNatToStringThen(if i < 0 then -i else i, rest);
    if i < 0 {
      assert IntToString(i) + rest == ['-'] + body;
      SplitIntNegative(body, -i, rest);
    } else {
      assert IntToString(i) + rest == body;
      SplitIntUnsigned(body);
    }
  }

  /** `parseInt(String(i), 10) == i` for every integer `i`. */
  lemma ParseIntOfIntToString(i: int)
    ensures ParseInt10(IntToString(i)) == Some(i)
  {
    var s := IntToString(i);
    assert !IsWhiteSpace(s[0]);
    assert TrimStart(s) == s;
    SplitIntOfIntToString(i, "");
    assert s + "" == s;
  }
}
