/**
 * The JavaScript values a format argument can be, and the built-in coercions
 * the engine applies to them: `String(v)`, `isNaN(v)` and `v >= 0` (through
 * ToNumber), `parseInt(v, 10)`, `!!v`, `>>> 0`, `String.fromCharCode`, the
 * type name `%T` prints, and property access `v[key]`.
 * Numbers are integers.
 */
module Values {
  import opened JsText
  import opened Outcomes

  datatype Value =
    | Undef
    | Null
    | Bool(b: bool)
    | Num(n: int)
    | Str(s: JsString)
    | Arr(elems: seq<Value>)
    | Obj(props: map<JsString, Value>)

  /** What ToNumber yields, as far as the engine looks at it: NaN or not, and the sign after rounding to a double. */
  datatype Numeric = NotANumber | Number(negative: bool)

  /** `String(v)`. Arrays join their elements with `,`, writing `undefined` and `null` elements as nothing. */
  function ToString(v: Value): JsString
    decreases v, 1
  {
    match v
    case Undef => [0x75, 0x6E, 0x64, 0x65, 0x66, 0x69, 0x6E, 0x65, 0x64]  // "undefined"
    case Null => [0x6E, 0x75, 0x6C, 0x6C]  // "null"
    case Bool(b) => if b then [0x74, 0x72, 0x75, 0x65] else [0x66, 0x61, 0x6C, 0x73, 0x65]  // "true", "false"
    case Num(n) => IntText(n)
    case Str(s) => s
    case Arr(es) => Join(es, v)
    case Obj(_) => [0x5B, 0x6F, 0x62, 0x6A, 0x65, 0x63, 0x74, 0x20, 0x4F, 0x62, 0x6A, 0x65, 0x63, 0x74, 0x5D]  // "[object Object]"
  }

  function Join(es: seq<Value>, whole: Value): JsString
    requires whole.Arr? && es <= whole.elems
    decreases whole, 0, |es|
  {
    if |es| == 0 then []
    else
      var last := es[|es| - 1];
      assert last in whole.elems;
      var text := if last.Undef? || last.Null? then [] else ToString(last);
      if |es| == 1 then text else Join(es[..|es| - 1], whole) + [COMMA] + text
  }

  /** `!!v`. */
  function Truthy(v: Value): (t: bool)
    ensures v.Arr? || v.Obj? ==> t
    ensures v.Undef? || v.Null? ==> !t
  {
    match v
    case Undef => false
    case Null => false
    case Bool(b) => b
    case Num(n) => n != 0
    case Str(s) => |s| > 0
    case Arr(_) => true
    case Obj(_) => true
  }

  /** `Object.prototype.toString.call(v).slice(8, -1).toLowerCase()`. */
  function TypeName(v: Value): JsString {
    match v
    case Undef => [0x75, 0x6E, 0x64, 0x65, 0x66, 0x69, 0x6E, 0x65, 0x64]  // "undefined"
    case Null => [0x6E, 0x75, 0x6C, 0x6C]  // "null"
    case Bool(_) => [0x62, 0x6F, 0x6F, 0x6C, 0x65, 0x61, 0x6E]  // "boolean"
    case Num(_) => [0x6E, 0x75, 0x6D, 0x62, 0x65, 0x72]  // "number"
    case Str(_) => [0x73, 0x74, 0x72, 0x69, 0x6E, 0x67]  // "string"
    case Arr(_) => [0x61, 0x72, 0x72, 0x61, 0x79]  // "array"
    case Obj(_) => [0x6F, 0x62, 0x6A, 0x65, 0x63, 0x74]  // "object"
  }

  predicate IsHexDigit(u: CodeUnit) {
    IsDigit(u) || 0x41 <= u <= 0x46 || 0x61 <= u <= 0x66
  }

  predicate AllOf(s: JsString, b: nat) {
    forall i | 0 <= i < |s| :: if b == 16 then IsHexDigit(s[i]) else IsDigit(s[i]) && DigitOf(s[i]) < b
  }

  /** `0x..`, `0o..` or `0b..` with at least one digit (StrNumericLiteral's NonDecimalIntegerLiteral). */
  predicate IsNonDecimalLiteral(t: JsString) {
    |t| >= 3 && t[0] == ZERO
    && ((t[1] in {0x78, 0x58} && AllOf(t[2..], 16))
        || (t[1] in {0x6F, 0x4F} && AllOf(t[2..], 8))
        || (t[1] in {0x62, 0x42} && AllOf(t[2..], 2)))
  }

  /**
   * The unsigned decimal literal `digits [. digits] [e [+-] digits]` (either digit
   * part may be empty, not both), as the mantissa `m` and power of ten `e` of its value m * 10^e.
   */
  function UnsignedDecimal(t: JsString): Option<(nat, int)> {
    ScanMantissa(t, 0, 0, false, false)
  }

  /**
   * The scan of the mantissa: `m` is the value of the digits so far, `k` the number
   * of them after the dot.
   */
  function ScanMantissa(t: JsString, m: nat, k: nat, seenDot: bool, seenDigit: bool): Option<(nat, int)>
    decreases |t|
  {
    if |t| == 0 then (if seenDigit then Some((m, -(k as int))) else None)
    else if IsDigit(t[0]) then ScanMantissa(t[1..], m * 10 + DigitOf(t[0]), if seenDot then k + 1 else k, seenDot, true)
    else if t[0] == DOT && !seenDot then ScanMantissa(t[1..], m, k, true, seenDigit)
    else if (t[0] == 0x65 || t[0] == 0x45) && seenDigit then
      match Exponent(t[1..])
      case None => None
      case Some(e) => Some((m, e - k))
    else None
  }

  /** `[+-] digits` after the `e`. */
  function Exponent(t: JsString): Option<int> {
    var neg := |t| > 0 && t[0] == MINUS;
    var digits := if |t| > 0 && (t[0] == PLUS || t[0] == MINUS) then t[1..] else t;
    if !IsDigits(digits) then None
    else
      var e: int := DecimalValue(digits);
      Some(if neg then -e else e)
  }

  /**
   * Whether m * 10^e, m > 0, stays away from zero when rounded to a double: the
   * smallest subnormal is 2^-1074, and anything at most half of it rounds to zero.
   */
  predicate AboveUnderflow(m: nat, e: int) {
    m > 0 && (e >= 0 || Exceeds(m, 1075, -e))
  }

  /** x * 2^p > 10^j. */
  predicate Exceeds(x: nat, p: nat, j: nat)
    decreases p
  {
    if p == 0 then x > Pow(10, j) else Exceeds(2 * x, p - 1, j)
  }

  /** `Exceeds` compares x * 2^p with 10^j by doubling x p times. */
  lemma {:induction false} ExceedsMeaning(x: nat, p: nat, j: nat)
    ensures Exceeds(x, p, j) <==> x * Pow(2, p) > Pow(10, j)
    decreases p
  {
    if p > 0 {
      ExceedsMeaning(2 * x, p - 1, j);
      calc {
        x * Pow(2, p);
        x * (2 * Pow(2, p - 1));
        (2 * x) * Pow(2, p - 1);
      }
    }
  }

  /** ToNumber applied to a string, reduced to NaN-ness and sign. */
  function StringToNumber(s: JsString): Numeric {
    var t := TrimEnd(TrimStart(s));
    if |t| == 0 then Number(false)
    else if IsNonDecimalLiteral(t) then Number(false)
    else
      var neg := t[0] == MINUS;
      var body := if t[0] == PLUS || t[0] == MINUS then t[1..] else t;
      if body == [0x49, 0x6E, 0x66, 0x69, 0x6E, 0x69, 0x74, 0x79] then Number(neg)  // "Infinity"
      else match UnsignedDecimal(body)
        case None => NotANumber
        case Some((m, e)) => Number(neg && AboveUnderflow(m, e))
  }

  /** The mantissa scan reads a run of decimal digits from the front, most significant first. */
  lemma {:induction false} ScanMantissaDigits(d: JsString, m: nat, seenDigit: bool)
    requires AllDigits(d) && (seenDigit || |d| > 0)
    ensures ScanMantissa(d, m, 0, false, seenDigit) == Some(((m * Pow(10, |d|) + DecimalValue(d)) as nat, 0))
    decreases |d|
  {
    if |d| > 0 {
      var x := DigitOf(d[0]);
      ScanMantissaDigits(d[1..], m * 10 + x, true);
      assert d == [d[0]] + d[1..];
      RadixValueFront(d[0], d[1..], 10);
      Regroup(m, 10, x, Pow(10, |d| - 1), DecimalValue(d[1..]));
    }
  }

  /** ToNumber reads back the sign of the integer `String(n)` writes, with white space around it or not. */
  lemma StringToNumberOfIntText(w1: JsString, n: int, w2: JsString)
    requires AllWhiteSpace(w1) && AllWhiteSpace(w2)
    ensures StringToNumber(w1 + IntText(n) + w2) == Number(n < 0)
  {
    var m: nat := if n < 0 then -n else n;
    var r := RadixText(m, 10);
    var x := IntText(n);
    DecimalTextDigits(m);
    RadixTextValue(m, 10);
    RadixTextNoLeadingZero(m, 10);
    assert x[|x| - 1] == r[|r| - 1];
    TrimEndOf(x, w2);
    assert w1 + x + w2 == w1 + (x + w2);
    TrimStartOf(w1, x + w2);
    assert TrimEnd(TrimStart(w1 + x + w2)) == x;
    var body := if x[0] == PLUS || x[0] == MINUS then x[1..] else x;
    assert body == r;
    assert r != [0x49, 0x6E, 0x66, 0x69, 0x6E, 0x69, 0x74, 0x79] by {
      assert IsDigit(r[0]);
    }
    ScanMantissaDigits(r, 0, false);
  }

  // ---------------------------------------------------------------------------
  // `parseFloat`, as far as `toExponential` looks at its result: finite or not

  /**
   * The longest prefix of `t` that is an unsigned decimal literal
   * `digits [. digits] [e [+-] digits]` (either digit part may be empty, not both),
   * as the mantissa and power of ten of its value; None when no prefix is one.
   * `m` is the value of the digits so far, `k` the number of them after the dot.
   */
  function FloatPrefix(t: JsString, m: nat, k: nat, seenDot: bool, seenDigit: bool): Option<(nat, int)>
    decreases |t|
  {
    if |t| > 0 && IsDigit(t[0]) then FloatPrefix(t[1..], m * 10 + DigitOf(t[0]), if seenDot then k + 1 else k, seenDot, true)
    else if |t| > 0 && t[0] == DOT && !seenDot then FloatPrefix(t[1..], m, k, true, seenDigit)
    else if !seenDigit then None
    else if |t| > 0 && (t[0] == 0x65 || t[0] == 0x45) && ExponentPrefix(t[1..]).Some? then
      Some((m, ExponentPrefix(t[1..]).value - k))
    else Some((m, -(k as int)))
  }

  /** The longest `[+-] digits` prefix after an `e`, as its value. */
  function ExponentPrefix(t: JsString): Option<int> {
    var neg := |t| > 0 && t[0] == MINUS;
    var body := if |t| > 0 && (t[0] == PLUS || t[0] == MINUS) then t[1..] else t;
    var n := DigitRun(body);
    if n == 0 then None
    else
      var e: int := DecimalValue(body[..n]);
      Some(if neg then -e else e)
  }

  /** 2^54 - 1: the point halfway between the largest double and 2^1024 is this times 2^970. */
  const OVERFLOW_MANTISSA: nat := 0x3F_FFFF_FFFF_FFFF

  /** x >= y * 2^p. */
  predicate AtLeastScaled(x: nat, y: nat, p: nat)
    decreases p
  {
    if p == 0 then x >= y else AtLeastScaled(x, 2 * y, p - 1)
  }

  /** `AtLeastScaled` compares x with y * 2^p by doubling y p times. */
  lemma {:induction false} AtLeastScaledMeaning(x: nat, y: nat, p: nat)
    ensures AtLeastScaled(x, y, p) <==> x >= y * Pow(2, p)
    decreases p
  {
    if p > 0 {
      AtLeastScaledMeaning(x, 2 * y, p - 1);
      calc {
        y * Pow(2, p);
        y * (2 * Pow(2, p - 1));
        (2 * y) * Pow(2, p - 1);
      }
    }
  }

  lemma {:induction false} BelowScaled(x: nat, y: nat, p: nat)
    requires x < y
    ensures !AtLeastScaled(x, y, p)
    decreases p
  {
    if p > 0 {
      BelowScaled(x, 2 * y, p - 1);
    }
  }

  /**
   * Whether m * 10^e rounds to an infinity as a double: whether it is at least
   * 2^1024 - 2^970, the point halfway between the largest double and 2^1024,
   * where rounding to even goes up.
   */
  predicate Overflows(m: nat, e: int) {
    if e >= 0 then AtLeastScaled(m * Pow(10, e), OVERFLOW_MANTISSA, 970)
    else AtLeastScaled(m, OVERFLOW_MANTISSA * Pow(10, -e), 970)
  }

  /** What `parseFloat` reads: the text after leading white space and one sign. */
  function FloatBody(s: JsString): JsString {
    var t := TrimStart(s);
    if |t| > 0 && (t[0] == PLUS || t[0] == MINUS) then t[1..] else t
  }

  /** `parseFloat(s)` is a finite number: some prefix is a decimal literal, and its value does not overflow. */
  predicate FloatTextIsFinite(s: JsString) {
    match FloatPrefix(FloatBody(s), 0, 0, false, false)
    case None => false  // NaN; `Infinity` also starts with no digit
    case Some((m, e)) => !Overflows(m, e)
  }

  /** `parseFloat(v)` is a finite number. */
  predicate FloatIsFinite(v: Value) {
    FloatTextIsFinite(ToString(v))
  }

  /** Once a digit is seen, the scan always finds a literal: at worst the digits so far. */
  lemma {:induction false} FloatPrefixSeen(t: JsString, m: nat, k: nat, seenDot: bool)
    ensures FloatPrefix(t, m, k, seenDot, true).Some?
    decreases |t|
  {
    if |t| > 0 && IsDigit(t[0]) {
      FloatPrefixSeen(t[1..], m * 10 + DigitOf(t[0]), if seenDot then k + 1 else k, seenDot);
    } else if |t| > 0 && t[0] == DOT && !seenDot {
      FloatPrefixSeen(t[1..], m, k, true);
    }
  }

  /** `parseFloat` finds a literal exactly when its text starts with a digit, or with `.` and a digit. */
  lemma FloatPrefixFound(t: JsString)
    ensures FloatPrefix(t, 0, 0, false, false).Some? <==>
      |t| > 0 && (IsDigit(t[0]) || (t[0] == DOT && |t| > 1 && IsDigit(t[1])))
  {
    if |t| > 0 && IsDigit(t[0]) {
      FloatPrefixSeen(t[1..], DigitOf(t[0]), 0, false);
    } else if |t| > 1 && t[0] == DOT && IsDigit(t[1]) {
      assert t[1..][1..] == t[2..];
      FloatPrefixSeen(t[2..], DigitOf(t[1]), 1, true);
    }
  }

  /** The digit scan reads a run of decimal digits from the front, most significant first. */
  lemma {:induction false} FloatPrefixDigits(d: JsString, m: nat, seenDigit: bool)
    requires AllDigits(d) && (seenDigit || |d| > 0)
    ensures FloatPrefix(d, m, 0, false, seenDigit) == Some(((m * Pow(10, |d|) + DecimalValue(d)) as nat, 0))
    decreases |d|
  {
    if |d| > 0 {
      var x := DigitOf(d[0]);
      FloatPrefixDigits(d[1..], m * 10 + x, true);
      assert d == [d[0]] + d[1..];
      RadixValueFront(d[0], d[1..], 10);
      Regroup(m, 10, x, Pow(10, |d| - 1), DecimalValue(d[1..]));
    }
  }

  /** `parseFloat` of `undefined`, `null`, a boolean or an object is NaN: their texts start with a letter or `[`. */
  lemma FloatOfNonNumbers(v: Value)
    requires v.Undef? || v.Null? || v.Bool? || v.Obj?
    ensures !FloatIsFinite(v)
  {
    FloatPrefixFound(FloatBody(ToString(v)));
  }

  /** `parseFloat` of `String(n)` is finite for an integer a double holds exactly. */
  lemma FloatOfIntText(n: int)
    requires -0x20_0000_0000_0000 < n < 0x20_0000_0000_0000
    ensures FloatTextIsFinite(IntText(n))
  {
    var m: nat := if n < 0 then -n else n;
    var r := RadixText(m, 10);
    DecimalTextDigits(m);
    RadixTextValue(m, 10);
    assert FloatBody(IntText(n)) == r;
    FloatPrefixDigits(r, 0, false);
    BelowScaled(m, OVERFLOW_MANTISSA, 970);
  }

  /** ToNumber (by way of ToPrimitive for arrays and objects), reduced to NaN-ness and sign. */
  function ToNumber(v: Value): (r: Numeric)
    ensures v.Num? ==> r == Number(v.n < 0)
    ensures v.Undef? || v.Obj? ==> r == NotANumber
    ensures v.Null? || v.Bool? ==> r == Number(false)
  {
    match v
    case Undef => NotANumber
    case Null => Number(false)
    case Bool(_) => Number(false)
    case Num(n) => Number(n < 0)
    case Str(s) => StringToNumber(s)
    case Arr(_) => StringToNumber(ToString(v))
    case Obj(_) => NotANumber  // "[object Object]" is no numeric literal
  }

  /** `parseInt(s, 10)` on a string: leading white space, an optional sign, the longest decimal digit run; NaN as None. */
  function ParseIntText(s: JsString): Option<int> {
    var t := TrimStart(s);
    var neg := |t| > 0 && t[0] == MINUS;
    var body := if |t| > 0 && (t[0] == PLUS || t[0] == MINUS) then t[1..] else t;
    var n := DigitRun(body);
    if n == 0 then None
    else
      var v: int := DecimalValue(body[..n]);
      Some(if neg then -v else v)
  }

  /** `parseInt(v, 10)`: parse the string the value converts to. */
  function ParseInt(v: Value): Option<int> {
    ParseIntText(ToString(v))
  }

  lemma ParseIntOfSignedDigits(sign: JsString, d: JsString)
    requires |sign| == 0 || sign == [MINUS] || sign == [PLUS]
    requires IsDigits(d)
    ensures ParseIntText(sign + d) == Some(if sign == [MINUS] then -(DecimalValue(d) as int) else DecimalValue(d) as int)
  {
    var t := sign + d;
    assert t[0] == MINUS || t[0] == PLUS || IsDigit(t[0]);
    assert TrimStart(t) == t;
    var body := if |sign| == 0 then t else t[1..];
    assert body == d;
    DigitRunOfDigits(d, []);
    assert d + [] == d;
    assert body[..DigitRun(body)] == d;
  }

  /** parseInt reads back the integer that `String(n)` wrote. */
  lemma ParseIntOfIntText(n: int)
    ensures ParseIntText(IntText(n)) == Some(n)
  {
    var m: nat := if n < 0 then -n else n;
    DecimalTextDigits(m);
    RadixTextValue(m, 10);
    if n < 0 {
      ParseIntOfSignedDigits([MINUS], RadixText(m, 10));
    } else {
      assert [] + RadixText(m, 10) == RadixText(m, 10);
      ParseIntOfSignedDigits([], RadixText(m, 10));
    }
  }

  lemma ParseIntOfNumber(n: int)
    ensures ParseInt(Num(n)) == Some(n)
  {
    ParseIntOfIntText(n);
  }

  /** `x >>> 0`: ToUint32, with NaN becoming 0. */
  function ToUint32(x: Option<int>): (r: nat)
    ensures r < 0x1_0000_0000
    ensures x.Some? && 0 <= x.value < 0x1_0000_0000 ==> r == x.value
    ensures x.Some? ==> (r - x.value) % 0x1_0000_0000 == 0
  {
    if x.None? then 0 else x.value % 0x1_0000_0000
  }

  /** The code unit `String.fromCharCode(x)` produces: ToUint16, with NaN becoming 0. */
  function ToUint16(x: Option<int>): (r: CodeUnit)
    ensures x.Some? && 0 <= x.value < 0x1_0000 ==> r as int == x.value
    ensures x.Some? ==> (r as int - x.value) % 0x1_0000 == 0
  {
    if x.None? then 0 else (x.value % 0x1_0000) as CodeUnit
  }

  /** A canonical array index: `0` or digits without a leading zero. */
  function IndexOf(key: JsString): Option<nat> {
    if IsDigits(key) && (key[0] != ZERO || |key| == 1) then Some(DecimalValue(key)) else None
  }

  const LENGTH: JsString := [0x6C, 0x65, 0x6E, 0x67, 0x74, 0x68]  // "length"

  /** `v[key]` on a value that is neither `undefined` nor `null`; properties not set on the value itself read as `undefined`. */
  function Property(v: Value, key: JsString): (r: Value)
    requires !v.Undef? && !v.Null?
    ensures v.Obj? ==> r == if key in v.props then v.props[key] else Undef
    ensures v.Bool? || v.Num? ==> r == Undef
  {
    match v
    case Obj(m) => if key in m then m[key] else Undef
    case Arr(es) =>
      if key == LENGTH then Num(|es|)
      else if IndexOf(key).Some? && IndexOf(key).value < |es| then es[IndexOf(key).value]
      else Undef
    case Str(s) =>
      if key == LENGTH then Num(|s|)
      else if IndexOf(key).Some? && IndexOf(key).value < |s| then Str([s[IndexOf(key).value]])
      else Undef
    case _ => Undef
  }
}
