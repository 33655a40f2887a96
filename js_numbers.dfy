/** The part of JavaScript's number semantics that the video route relies on:
    integral numbers and NaN, subtraction and addition with NaN propagation,
    rendering a number as text (template literals, header values) and the
    global `parseInt(text, 10)`. */
module JsNumbers {

  /** A JavaScript number as the range code can produce it: NaN or an integer.
      The sign of zero is not kept: `-0` and `0` print alike and behave alike
      in the subtraction and addition used here. */
  datatype JsNumber = NaN | Int(value: int)

  /** `a - b` */
  function Sub(a: JsNumber, b: JsNumber): JsNumber {
    if a.Int? && b.Int? then Int(a.value - b.value) else NaN
  }

  /** `a + b` on two numbers */
  function Add(a: JsNumber, b: JsNumber): JsNumber {
    if a.Int? && b.Int? then Int(a.value + b.value) else NaN
  }

  // ---------------------------------------------------------------------------
  // Decimal digits
  // ---------------------------------------------------------------------------

  predicate IsDigit(c: char) {
    '0' <= c <= '9'
  }

  predicate AllDigits(s: string) {
    forall i :: 0 <= i < |s| ==> IsDigit(s[i])
  }

  function DigitChar(d: nat): (c: char)
    requires d < 10
    ensures IsDigit(c)
  {
    "0123456789"[d]
  }

  function DigitValue(c: char): (d: nat)
    requires IsDigit(c)
    ensures d < 10
  {
    (c as int) - ('0' as int)
  }

  /** The canonical decimal text of a natural number: at least one digit and
      no leading zero, the way JavaScript prints an integral number. */
  function Decimal(n: nat): (r: string)
    ensures |r| >= 1 && AllDigits(r)
    ensures |r| > 1 ==> r[0] != '0'
  {
    if n < 10 then [DigitChar(n)] else Decimal(n / 10) + [DigitChar(n % 10)]
  }

  /** The value of a string of decimal digits, most significant digit first. */
  function DigitsValue(s: string): nat
    requires AllDigits(s)
  {
    if s == [] then 0 else DigitsValue(s[..|s| - 1]) * 10 + DigitValue(s[|s| - 1])
  }

  /** Reading back the decimal text of `n` gives `n`. */
  lemma {:induction false} DecimalValue(n: nat)
    ensures DigitsValue(Decimal(n)) == n
  {
    if n >= 10 {
      var d := Decimal(n / 10);
      var r := d + [DigitChar(n % 10)];
      assert r[..|r| - 1] == d;
      DecimalValue(n / 10);
    }
  }

  /** Two naturals with the same decimal text are equal. */
  lemma DecimalInjective(m: nat, n: nat)
    requires Decimal(m) == Decimal(n)
    ensures m == n
  {
    DecimalValue(m);
    DecimalValue(n);
  }

  /** `${x}` / `String(x)` for a number. */
  function NumberToString(x: JsNumber): (r: string)
    ensures |r| >= 1
  {
    match x
    case NaN => "NaN"
    case Int(i) => if i < 0 then "-" + Decimal(-i) else Decimal(i)
  }

  // ---------------------------------------------------------------------------
  // parseInt(text, 10)
  // ---------------------------------------------------------------------------

  /** JavaScript's WhiteSpace and LineTerminator code points, which `parseInt`
      skips before the number: TAB, VT, FF, ZWNBSP, every space separator
      (category Zs), LF, CR, LS and PS. */
  predicate IsJsWhitespace(c: char) {
    || c == '\U{0009}' || c == '\U{000B}' || c == '\U{000C}' || c == '\U{FEFF}'
    || c == '\U{0020}' || c == '\U{00A0}' || c == '\U{1680}'
    || ('\U{2000}' <= c <= '\U{200A}') || c == '\U{202F}' || c == '\U{205F}' || c == '\U{3000}'
    || c == '\U{000A}' || c == '\U{000D}' || c == '\U{2028}' || c == '\U{2029}'
  }

  /** The text with its leading white space removed: a suffix of `s`. */
  function TrimStart(s: string): (r: string)
    ensures |r| <= |s| && r == s[|s| - |r|..]
  {
    if s != [] && IsJsWhitespace(s[0]) then TrimStart(s[1..]) else s
  }

  /** What `TrimStart` removes is white space, and what it keeps does not
      start with white space. */
  lemma {:induction false} TrimStartRemovesWhitespace(s: string)
    ensures var r := TrimStart(s);
      && (forall i :: 0 <= i < |s| - |r| ==> IsJsWhitespace(s[i]))
      && (r == [] || !IsJsWhitespace(r[0]))
  {
    if s != [] && IsJsWhitespace(s[0]) {
      TrimStartRemovesWhitespace(s[1..]);
      var r := TrimStart(s);
      assert r == TrimStart(s[1..]);
      forall i | 1 <= i < |s| - |r| ensures IsJsWhitespace(s[i]) {
        assert s[i] == s[1..][i - 1];
      }
    }
  }

  /** The length of the longest prefix of `s` made of decimal digits. */
  function DigitRun(s: string): (k: nat)
    ensures k <= |s|
  {
    if s != [] && IsDigit(s[0]) then DigitRun(s[1..]) + 1 else 0
  }

  /** `DigitRun` counts exactly the leading digits. */
  lemma {:induction false} DigitRunIsLongest(s: string)
    ensures var k := DigitRun(s);
      AllDigits(s[..k]) && (k < |s| ==> !IsDigit(s[k]))
  {
    if s != [] && IsDigit(s[0]) {
      DigitRunIsLongest(s[1..]);
      var k := DigitRun(s);
      assert forall i :: 1 <= i < k ==> s[..k][i] == s[1..][..k - 1][i - 1];
    }
  }

  /** `parseInt(s, 10)`: skip leading white space, take an optional sign, then
      the longest run of decimal digits; NaN when that run is empty. Anything
      after the digits is ignored. */
  function ParseInt(s: string): JsNumber {
    var t := TrimStart(s);
    var negative := t != [] && t[0] == '-';
    var u := if t != [] && (t[0] == '-' || t[0] == '+') then t[1..] else t;
    var k := DigitRun(u);
    DigitRunIsLongest(u);
    if k == 0 then NaN
    else
      var n: int := DigitsValue(u[..k]);
      Int(if negative then -n else n)
  }

  /** A text that starts with a digit is read by `parseInt` without skipping
      or sign: its value is that of its leading digits. */
  lemma ParseIntLeadingDigits(s: string)
    requires s != [] && IsDigit(s[0])
    ensures AllDigits(s[..DigitRun(s)])
    ensures ParseInt(s) == Int(DigitsValue(s[..DigitRun(s)]))
  {
    DigitRunIsLongest(s);
    assert !IsJsWhitespace(s[0]);
    assert TrimStart(s) == s;
    assert s[0] != '-' && s[0] != '+';
    assert DigitRun(s) >= 1;
  }

  /** `parseInt` reads any non-empty run of decimal digits (leading zeros
      included) as its value, whatever follows it as long as that does not
      begin with a digit. */
  lemma ParseIntDigits(d: string, rest: string)
    requires |d| >= 1 && AllDigits(d)
    requires rest == [] || !IsDigit(rest[0])
    ensures ParseInt(d + rest) == Int(DigitsValue(d))
  {
    var s := d + rest;
    assert s[0] == d[0];
    ParseIntLeadingDigits(s);
    DigitRunOf(d, rest);
    assert s[..|d|] == d;
  }

  /** Special case of ParseIntDigits: the digits alone. */
  lemma ParseIntDigitsAlone(d: string)
    requires |d| >= 1 && AllDigits(d)
    ensures ParseInt(d) == Int(DigitsValue(d))
  {
    ParseIntDigits(d, []);
    assert d + [] == d;
  }

  /** `parseInt` reads a canonical decimal numeral back to its value, whatever
      follows it as long as that does not begin with a digit. */
  lemma ParseIntDecimal(n: nat, rest: string)
    requires rest == [] || !IsDigit(rest[0])
    ensures ParseInt(Decimal(n) + rest) == Int(n)
  {
    ParseIntDigits(Decimal(n), rest);
    DecimalValue(n);
  }

  /** Special case of ParseIntDecimal: the numeral alone. */
  lemma ParseIntDecimalAlone(n: nat)
    ensures ParseInt(Decimal(n)) == Int(n)
  {
    ParseIntDigitsAlone(Decimal(n));
    DecimalValue(n);
  }

  lemma {:induction false} DigitRunOf(d: string, rest: string)
    requires AllDigits(d)
    requires rest == [] || !IsDigit(rest[0])
    ensures DigitRun(d + rest) == |d|
  {
    if d != [] {
      assert (d + rest)[1..] == d[1..] + rest;
      DigitRunOf(d[1..], rest);
    } else {
      assert d + rest == rest;
    }
  }

  /** Leading white space does not change what `parseInt` reads. */
  lemma {:induction false} ParseIntSkipsWhitespace(w: string, s: string)
    requires forall i :: 0 <= i < |w| ==> IsJsWhitespace(w[i])
    ensures ParseInt(w + s) == ParseInt(s)
  {
    TrimStartSkips(w, s);
  }

  lemma {:induction false} TrimStartSkips(w: string, s: string)
    requires forall i :: 0 <= i < |w| ==> IsJsWhitespace(w[i])
    ensures TrimStart(w + s) == TrimStart(s)
  {
    if w == [] {
      assert w + s == s;
    } else {
      assert (w + s)[0] == w[0];
      assert (w + s)[1..] == w[1..] + s;
      TrimStartSkips(w[1..], s);
    }
  }

  /** `parseInt` of a text without a minus sign is NaN or a natural number. */
  lemma ParseIntWithoutMinus(s: string)
    requires '-' !in s
    ensures ParseInt(s).NaN? || ParseInt(s).value >= 0
  {
    var t := TrimStart(s);
    if t != [] {
      assert t[0] == s[|s| - |t|];
    }
  }

  /** A text with no digit at all reads as NaN. */
  lemma ParseIntNoDigits(s: string)
    requires forall i :: 0 <= i < |s| ==> !IsDigit(s[i])
    ensures ParseInt(s) == NaN
  {
    var t := TrimStart(s);
    var u := if t != [] && (t[0] == '-' || t[0] == '+') then t[1..] else t;
    if u != [] {
      assert u[0] in s;
    }
  }

  /** A leading `+` is skipped: `+D` reads as the value of the digits D. */
  lemma ParseIntPlusSign(d: string)
    requires |d| >= 1 && AllDigits(d)
    ensures ParseInt("+" + d) == Int(DigitsValue(d))
  {
    var s := "+" + d;
    assert !IsJsWhitespace(s[0]);
    assert TrimStart(s) == s;
    SignedDigits(s, d);
  }

  /** After a one-character sign, the digits D are the whole digit run. */
  lemma SignedDigits(s: string, d: string)
    requires |d| >= 1 && AllDigits(d)
    requires |s| == |d| + 1 && s[1..] == d
    ensures DigitRun(s[1..]) == |d| && s[1..][..|d|] == d
  {
    DigitRunOf(d, []);
    assert d + [] == d;
  }

  /** A leading `-` negates: `-D` reads as minus the value of the digits D. */
  lemma ParseIntMinusSign(d: string)
    requires |d| >= 1 && AllDigits(d)
    ensures ParseInt("-" + d) == Int(-(DigitsValue(d) as int))
  {
    var s := "-" + d;
    assert !IsJsWhitespace(s[0]);
    assert TrimStart(s) == s;
    SignedDigits(s, d);
  }

  /** Printing a number and reading the text back with `parseInt` gives the
      number again, NaN and negative integers included. */
  lemma NumberToStringReadBack(x: JsNumber)
    ensures ParseInt(NumberToString(x)) == x
  {
    match x
    case NaN => NaNReadsBack();
    case Int(i) =>
      if i < 0 {
        NegativeReadsBack(-i);
      } else {
        ParseIntDecimalAlone(i);
      }
  }

  /** The text `NaN` has no digit, so it reads back as NaN. */
  lemma NaNReadsBack()
    ensures ParseInt("NaN") == NaN
  {
    ParseIntNoDigits("NaN");
  }

  /** `-` followed by a numeral reads back as the negative number. */
  lemma NegativeReadsBack(n: nat)
    ensures ParseInt("-" + Decimal(n)) == Int(-(n as int))
  {
    ParseIntMinusSign(Decimal(n));
    DecimalValue(n);
  }
}
