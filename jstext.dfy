/**
 * JavaScript strings as sequences of UTF-16 code units, and the small character
 * classes the format engine of virya_io.js works with: decimal digit runs (the
 * `\d` of its regular expressions), identifiers (`[a-z_][a-z_\d]*` under the `i`
 * flag), JavaScript white space, and `Number.prototype.toString(radix)` for
 * integers.
 */
module JsText {

  /** One UTF-16 code unit: what `String.prototype.length` counts. */
  newtype CodeUnit = u: int | 0 <= u < 0x1_0000

  type JsString = seq<CodeUnit>

  const DOLLAR: CodeUnit := 0x24
  const PERCENT: CodeUnit := 0x25
  const QUOTE: CodeUnit := 0x27
  const LPAREN: CodeUnit := 0x28
  const RPAREN: CodeUnit := 0x29
  const PLUS: CodeUnit := 0x2B
  const COMMA: CodeUnit := 0x2C
  const MINUS: CodeUnit := 0x2D
  const DOT: CodeUnit := 0x2E
  const ZERO: CodeUnit := 0x30
  const LBRACKET: CodeUnit := 0x5B
  const RBRACKET: CodeUnit := 0x5D
  const UNDERSCORE: CodeUnit := 0x5F
  const SPACE: CodeUnit := 0x20

  predicate IsDigit(u: CodeUnit) {
    0x30 <= u <= 0x39
  }

  predicate IsNonZeroDigit(u: CodeUnit) {
    0x31 <= u <= 0x39
  }

  predicate IsAsciiLetter(u: CodeUnit) {
    0x41 <= u <= 0x5A || 0x61 <= u <= 0x7A
  }

  /** `[a-z_]` under the case-insensitive flag (which, without the `u` flag, matches ASCII letters only). */
  predicate IsIdentStart(u: CodeUnit) {
    IsAsciiLetter(u) || u == UNDERSCORE
  }

  /** `[a-z_\d]` under the case-insensitive flag. */
  predicate IsIdentPart(u: CodeUnit) {
    IsIdentStart(u) || IsDigit(u)
  }

  predicate AllDigits(s: JsString) {
    forall i | 0 <= i < |s| :: IsDigit(s[i])
  }

  predicate AllIdentPart(s: JsString) {
    forall i | 0 <= i < |s| :: IsIdentPart(s[i])
  }

  /** A whole identifier `[a-z_][a-z_\d]*`. */
  predicate IsIdentifier(s: JsString) {
    |s| > 0 && IsIdentStart(s[0]) && AllIdentPart(s[1..])
  }

  /** A whole non-empty `\d+`. */
  predicate IsDigits(s: JsString) {
    |s| > 0 && AllDigits(s)
  }

  /** Length of the longest `\d*` prefix of `s`. */
  function DigitRun(s: JsString): (n: nat)
    ensures n <= |s| && AllDigits(s[..n])
    ensures n < |s| ==> !IsDigit(s[n])
  {
    if |s| == 0 || !IsDigit(s[0]) then 0
    else
      var k := DigitRun(s[1..]);
      assert s[..k + 1] == [s[0]] + s[1..][..k];
      k + 1
  }

  /** Length of the longest `[a-z_\d]*` prefix of `s`. */
  function IdentPartRun(s: JsString): (n: nat)
    ensures n <= |s| && AllIdentPart(s[..n])
    ensures n < |s| ==> !IsIdentPart(s[n])
  {
    if |s| == 0 || !IsIdentPart(s[0]) then 0
    else
      var k := IdentPartRun(s[1..]);
      assert s[..k + 1] == [s[0]] + s[1..][..k];
      k + 1
  }

  /** Length of the identifier `[a-z_][a-z_\d]*` at the start of `s`, or 0 when there is none. */
  function IdentRun(s: JsString): (n: nat)
    ensures n <= |s|
    ensures n > 0 <==> |s| > 0 && IsIdentStart(s[0])
    ensures n > 0 ==> IsIdentifier(s[..n]) && (n < |s| ==> !IsIdentPart(s[n]))
  {
    if |s| == 0 || !IsIdentStart(s[0]) then 0
    else
      var k := IdentPartRun(s[1..]);
      assert s[..k + 1][1..] == s[1..][..k];
      k + 1
  }

  lemma {:induction false} DigitRunOfDigits(d: JsString, t: JsString)
    requires AllDigits(d)
    requires |t| == 0 || !IsDigit(t[0])
    ensures DigitRun(d + t) == |d|
  {
    if |d| > 0 {
      assert (d + t)[1..] == d[1..] + t;
      DigitRunOfDigits(d[1..], t);
    } else {
      assert d + t == t;
    }
  }

  lemma {:induction false} IdentPartRunOf(d: JsString, t: JsString)
    requires AllIdentPart(d)
    requires |t| == 0 || !IsIdentPart(t[0])
    ensures IdentPartRun(d + t) == |d|
  {
    if |d| > 0 {
      assert (d + t)[1..] == d[1..] + t;
      IdentPartRunOf(d[1..], t);
    } else {
      assert d + t == t;
    }
  }

  lemma IdentRunOf(d: JsString, t: JsString)
    requires IsIdentifier(d)
    requires |t| == 0 || !IsIdentPart(t[0])
    ensures IdentRun(d + t) == |d|
  {
    assert (d + t)[1..] == d[1..] + t;
    IdentPartRunOf(d[1..], t);
  }

  /** Value of a JavaScript digit character in bases up to 36 (0 for anything else). */
  function DigitOf(u: CodeUnit): nat {
    if 0x30 <= u <= 0x39 then (u - 0x30) as nat
    else if 0x61 <= u <= 0x7A then (u - 0x61) as nat + 10
    else if 0x41 <= u <= 0x5A then (u - 0x41) as nat + 10
    else 0
  }

  /** The lower-case digit that `toString(radix)` writes for `d`. */
  function DigitChar(d: nat): (u: CodeUnit)
    requires d < 16
    ensures DigitOf(u) == d
  {
    if d < 10 then (0x30 + d) as CodeUnit else (0x61 + d - 10) as CodeUnit
  }

  predicate IsRadix(b: nat) {
    b == 2 || b == 8 || b == 10 || b == 16
  }

  predicate IsRadixDigit(u: CodeUnit, b: nat) {
    (IsDigit(u) || 0x61 <= u <= 0x66) && DigitOf(u) < b
  }

  /** The number a digit string denotes in base `b`, most significant digit first. */
  function RadixValue(s: JsString, b: nat): nat {
    if |s| == 0 then 0 else RadixValue(s[..|s| - 1], b) * b + DigitOf(s[|s| - 1])
  }

  /** The value of a digit string read from the front: the first digit counts `b^(|s|)` times. */
  lemma {:induction false} RadixValueFront(x: CodeUnit, s: JsString, b: nat)
    ensures RadixValue([x] + s, b) == DigitOf(x) * Pow(b, |s|) + RadixValue(s, b)
    decreases |s|
  {
    var t := [x] + s;
    if |s| > 0 {
      var init := s[..|s| - 1];
      assert t[..|t| - 1] == [x] + init;
      RadixValueFront(x, init, b);
      var p := Pow(b, |s| - 1);
      var q := RadixValue(init, b);
      var c := DigitOf(s[|s| - 1]);
      assert RadixValue(t, b) == (DigitOf(x) * p + q) * b + c;
      Regroup(DigitOf(x), p, q, b, c);
      assert Pow(b, |s|) == b * p;
      assert RadixValue(s, b) == q * b + c;
    } else {
      assert t[..0] == [];
    }
  }

  lemma Regroup(a: int, p: int, q: int, b: int, c: int)
    ensures (a * p + q) * b + c == a * (b * p) + (q * b + c)
  {
    calc {
      (a * p + q) * b + c;
      (a * p) * b + q * b + c;
      a * (b * p) + (q * b + c);
    }
  }

  function DecimalValue(s: JsString): nat {
    RadixValue(s, 10)
  }

  /** `Number.prototype.toString(b)` for a non-negative integer `n`. */
  function RadixText(n: nat, b: nat): (r: JsString)
    requires IsRadix(b)
    ensures |r| > 0
    decreases n
  {
    if n < b then [DigitChar(n)] else RadixText(n / b, b) + [DigitChar(n % b)]
  }

  /** `toString(b)` writes digits of base `b` only. */
  lemma {:induction false} RadixTextDigits(n: nat, b: nat)
    requires IsRadix(b)
    ensures forall i | 0 <= i < |RadixText(n, b)| :: IsRadixDigit(RadixText(n, b)[i], b)
    decreases n
  {
    if n >= b {
      RadixTextDigits(n / b, b);
    }
  }

  /** The digits `toString(b)` writes read back as the number they came from. */
  lemma {:induction false} RadixTextValue(n: nat, b: nat)
    requires IsRadix(b)
    ensures RadixValue(RadixText(n, b), b) == n
    decreases n
  {
    var r := RadixText(n, b);
    if n >= b {
      RadixTextValue(n / b, b);
      assert r[..|r| - 1] == RadixText(n / b, b);
    }
  }

  /** `toString(b)` never writes a superfluous leading zero. */
  lemma {:induction false} RadixTextNoLeadingZero(n: nat, b: nat)
    requires IsRadix(b)
    ensures RadixText(n, b)[0] == ZERO <==> n == 0
    decreases n
  {
    if n >= b {
      RadixTextNoLeadingZero(n / b, b);
    }
  }

  lemma DecimalTextDigits(n: nat)
    ensures AllDigits(RadixText(n, 10))
  {
    var r := RadixText(n, 10);
    RadixTextDigits(n, 10);
    forall i | 0 <= i < |r| ensures IsDigit(r[i]) {
      assert IsRadixDigit(r[i], 10);
    }
  }

  /** Digits that do not start with `0` denote a positive number. */
  lemma {:induction false} DecimalPositive(s: JsString)
    requires IsDigits(s) && IsNonZeroDigit(s[0])
    ensures DecimalValue(s) >= 1
  {
    if |s| > 1 {
      assert s[..|s| - 1][0] == s[0];
      DecimalPositive(s[..|s| - 1]);
    }
  }

  /** `String(n)` for an integer: an optional `-` and the decimal digits of `|n|`. */
  function IntText(n: int): JsString {
    if n < 0 then [MINUS] + RadixText(-n, 10) else RadixText(n, 10)
  }

  /** `String.prototype.substring(0, n)`. */
  function Take(s: JsString, n: nat): (r: JsString)
    ensures |r| == if n < |s| then n else |s|
    ensures r <= s
  {
    if n < |s| then s[..n] else s
  }

  /** `toUpperCase()` on the ASCII letters, the only ones a base-16 text contains. */
  function UpperAscii(s: JsString): (r: JsString)
    ensures |r| == |s|
    ensures forall i | 0 <= i < |s| :: r[i] == if 0x61 <= s[i] <= 0x7A then s[i] - 0x20 else s[i]
  {
    seq(|s|, i requires 0 <= i < |s| => if 0x61 <= s[i] <= 0x7A then s[i] - 0x20 else s[i])
  }

  /** The JavaScript WhiteSpace and LineTerminator code points that `trim` and number parsing skip. */
  predicate IsJsWhiteSpace(u: CodeUnit) {
    u == 0x09 || u == 0x0A || u == 0x0B || u == 0x0C || u == 0x0D || u == 0x20
    || u == 0xA0 || u == 0x1680 || (0x2000 <= u <= 0x200A) || u == 0x2028 || u == 0x2029
    || u == 0x202F || u == 0x205F || u == 0x3000 || u == 0xFEFF
  }

  function TrimStart(s: JsString): (r: JsString)
    ensures |r| <= |s|
    ensures |r| > 0 ==> !IsJsWhiteSpace(r[0])
  {
    if |s| > 0 && IsJsWhiteSpace(s[0]) then TrimStart(s[1..]) else s
  }

  function TrimEnd(s: JsString): (r: JsString)
    ensures |r| <= |s|
    ensures |r| > 0 ==> !IsJsWhiteSpace(r[|r| - 1])
  {
    if |s| > 0 && IsJsWhiteSpace(s[|s| - 1]) then TrimEnd(s[..|s| - 1]) else s
  }

  predicate AllWhiteSpace(s: JsString) {
    forall i | 0 <= i < |s| :: IsJsWhiteSpace(s[i])
  }

  /** `trimStart` removes exactly the white space in front: what is left is a suffix of `s`, and what went was white space. */
  lemma {:induction false} TrimStartSuffix(s: JsString)
    ensures TrimStart(s) == s[|s| - |TrimStart(s)|..]
    ensures AllWhiteSpace(s[..|s| - |TrimStart(s)|])
  {
    if |s| > 0 && IsJsWhiteSpace(s[0]) {
      var t := s[1..];
      TrimStartSuffix(t);
      var k := |t| - |TrimStart(t)|;
      assert t[k..] == s[k + 1..];
      assert s[..k + 1] == [s[0]] + t[..k];
    }
  }

  /** `trimEnd` removes exactly the white space at the end: what is left is a prefix of `s`, and what went was white space. */
  lemma {:induction false} TrimEndPrefix(s: JsString)
    ensures TrimEnd(s) == s[..|TrimEnd(s)|]
    ensures AllWhiteSpace(s[|TrimEnd(s)|..])
  {
    if |s| > 0 && IsJsWhiteSpace(s[|s| - 1]) {
      var t := s[..|s| - 1];
      TrimEndPrefix(t);
      var k := |TrimEnd(t)|;
      assert t[..k] == s[..k];
      assert s[k..] == t[k..] + [s[|s| - 1]];
    }
  }

  /** White space in front of a text that does not start with white space is trimmed off, and that text is left. */
  lemma {:induction false} TrimStartOf(w: JsString, x: JsString)
    requires AllWhiteSpace(w)
    requires |x| == 0 || !IsJsWhiteSpace(x[0])
    ensures TrimStart(w + x) == x
  {
    if |w| > 0 {
      assert (w + x)[1..] == w[1..] + x;
      TrimStartOf(w[1..], x);
    } else {
      assert w + x == x;
    }
  }

  /** White space after a text that does not end with white space is trimmed off, and that text is left. */
  lemma {:induction false} TrimEndOf(x: JsString, w: JsString)
    requires AllWhiteSpace(w)
    requires |x| == 0 || !IsJsWhiteSpace(x[|x| - 1])
    ensures TrimEnd(x + w) == x
  {
    if |w| > 0 {
      assert (x + w)[..|x + w| - 1] == x + w[..|w| - 1];
      TrimEndOf(x, w[..|w| - 1]);
    } else {
      assert x + w == x;
    }
  }

  lemma TakeDrop(s: JsString, n: nat)
    requires n <= |s|
    ensures s[..n] + s[n..] == s
  {
  }

  function Pow(b: nat, e: nat): nat {
    if e == 0 then 1 else b * Pow(b, e - 1)
  }
}
